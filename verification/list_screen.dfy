/** The memo list screen: memos bucketed into one row per group key, the
    selection of rows, opening a row, and deleting memos by row.

    A row (`GroupItem`) collects the memos whose group name maps to the same
    key, in list order; a memo id seen before is skipped. The reference
    definition `GroupsOf` says what the rows are; `BuildGroups` is the
    list screen's single pass over the memos and is proved to produce them. */
module ListScreen {
  import opened Wrappers
  import opened UseMemos

  /** One row of the list: the memos of one group key. */
  datatype GroupItem = GroupItem(key: string, groupName: string, color: Option<string>, texts: seq<string>, ids: seq<Id>)

  /** The key of the row that holds ungrouped memos. */
  const NoGroupKey: string := "__none__"

  /** `keyFor`: the empty group name becomes `NoGroupKey`; any other name is
      its own key, untrimmed. */
  function KeyFor(groupName: string): (key: string)
    ensures key != ""
    ensures groupName != "" ==> key == groupName
    ensures groupName == "" ==> key == NoGroupKey
  {
    if groupName != "" then groupName else NoGroupKey
  }

  /** A memo whose group is literally named `__none__` lands in the row of
      ungrouped memos. */
  lemma UngroupedSharesKeyWithNoneName()
    ensures KeyFor("") == KeyFor(NoGroupKey)
  {
  }

  // ---------------------------------------------------------------------------
  // Skipping repeated ids

  /** The ids of the memos. */
  function IdsOf(memos: seq<MemoItem>): set<Id> {
    set k | 0 <= k < |memos| :: memos[k].id
  }

  /** No id occurs twice. */
  predicate UniqueIds(memos: seq<MemoItem>) {
    forall a, b :: 0 <= a < b < |memos| ==> memos[a].id != memos[b].id
  }

  /** Index of the first memo with id `id`, or `|memos|`. */
  function FirstWithId(memos: seq<MemoItem>, id: Id): (k: nat)
    ensures k <= |memos|
    ensures forall j :: 0 <= j < k ==> memos[j].id != id
    ensures k < |memos| ==> memos[k].id == id
  {
    if memos == [] then 0
    else if memos[0].id == id then 0
    else 1 + FirstWithId(memos[1..], id)
  }

  lemma {:induction false} FirstWithIdSnoc(memos: seq<MemoItem>, m: MemoItem, id: Id)
    ensures FirstWithId(memos + [m], id) ==
      if FirstWithId(memos, id) < |memos| then FirstWithId(memos, id)
      else if m.id == id then |memos| else |memos| + 1
  {
    if memos != [] {
      assert (memos + [m])[1..] == memos[1..] + [m];
      FirstWithIdSnoc(memos[1..], m, id);
    }
  }

  /** The memos the grouping loop does not skip: each id's first memo, in order. */
  function Dedup(memos: seq<MemoItem>): seq<MemoItem> {
    if memos == [] then []
    else
      var prefix := memos[..|memos| - 1];
      var m := memos[|memos| - 1];
      if m.id in IdsOf(prefix) then Dedup(prefix) else Dedup(prefix) + [m]
  }

  lemma IdsOfSnoc(memos: seq<MemoItem>, m: MemoItem)
    ensures IdsOf(memos + [m]) == IdsOf(memos) + {m.id}
  {
    var ms := memos + [m];
    forall x | x in IdsOf(ms) ensures x in IdsOf(memos) + {m.id} {
      var k :| 0 <= k < |ms| && ms[k].id == x;
      if k < |memos| { assert memos[k].id == x; }
    }
    assert ms[|memos|].id == m.id;
    forall x | x in IdsOf(memos) ensures x in IdsOf(ms) {
      var k :| 0 <= k < |memos| && memos[k].id == x;
      assert ms[k].id == x;
    }
  }

  /** Skipping repeated ids loses no id. */
  lemma {:induction false} DedupKeepsIds(memos: seq<MemoItem>)
    ensures IdsOf(Dedup(memos)) == IdsOf(memos)
  {
    if memos != [] {
      var p, m := memos[..|memos| - 1], memos[|memos| - 1];
      assert memos == p + [m];
      DedupKeepsIds(p);
      IdsOfSnoc(p, m);
      if m.id !in IdsOf(p) {
        IdsOfSnoc(Dedup(p), m);
      }
    }
  }

  /** Every kept memo is the first memo with its id. */
  lemma {:induction false} DedupKeepsFirst(memos: seq<MemoItem>)
    ensures forall a :: 0 <= a < |Dedup(memos)| ==>
      FirstWithId(memos, Dedup(memos)[a].id) < |memos| && memos[FirstWithId(memos, Dedup(memos)[a].id)] == Dedup(memos)[a]
  {
    if memos != [] {
      var p, m := memos[..|memos| - 1], memos[|memos| - 1];
      assert memos == p + [m];
      DedupKeepsFirst(p);
      var d, before := Dedup(memos), Dedup(p);
      forall a | 0 <= a < |d|
        ensures FirstWithId(memos, d[a].id) < |memos| && memos[FirstWithId(memos, d[a].id)] == d[a]
      {
        FirstWithIdSnoc(p, m, d[a].id);
        if a < |before| {
          assert d[a] == before[a];
        } else {
          assert d[a] == m && m.id !in IdsOf(p);
        }
      }
    }
  }

  /** The kept memos are in the order of their ids' first occurrences. */
  lemma {:induction false} DedupOrdered(memos: seq<MemoItem>)
    ensures forall a, b :: 0 <= a < b < |Dedup(memos)| ==>
      FirstWithId(memos, Dedup(memos)[a].id) < FirstWithId(memos, Dedup(memos)[b].id)
  {
    if memos != [] {
      var p, m := memos[..|memos| - 1], memos[|memos| - 1];
      assert memos == p + [m];
      DedupOrdered(p);
      DedupKeepsFirst(p);
      var d, before := Dedup(memos), Dedup(p);
      forall a, b | 0 <= a < b < |d|
        ensures FirstWithId(memos, d[a].id) < FirstWithId(memos, d[b].id)
      {
        FirstWithIdSnoc(p, m, d[a].id);
        FirstWithIdSnoc(p, m, d[b].id);
        assert d[a] == before[a];
        if b < |before| {
          assert d[b] == before[b];
        } else {
          assert d[b] == m && m.id !in IdsOf(p);
        }
      }
    }
  }

  /** The kept memos have distinct ids. */
  lemma DedupUnique(memos: seq<MemoItem>)
    ensures UniqueIds(Dedup(memos))
  {
    DedupOrdered(memos);
  }

  /** A list whose ids are already distinct keeps every memo. */
  lemma {:induction false} DedupOfUnique(memos: seq<MemoItem>)
    requires UniqueIds(memos)
    ensures Dedup(memos) == memos
  {
    if memos != [] {
      var p, m := memos[..|memos| - 1], memos[|memos| - 1];
      DedupOfUnique(p);
      assert memos == p + [m];
    }
  }

  // ---------------------------------------------------------------------------
  // The memos of one key

  /** The memos whose key is `key`, in list order. */
  function Members(memos: seq<MemoItem>, key: string): seq<MemoItem> {
    if memos == [] then []
    else if KeyFor(memos[0].groupName) == key then [memos[0]] + Members(memos[1..], key)
    else Members(memos[1..], key)
  }

  lemma {:induction false} MembersConcat(a: seq<MemoItem>, b: seq<MemoItem>)
    ensures forall key :: Members(a + b, key) == Members(a, key) + Members(b, key)
  {
    if a != [] {
      assert (a + b)[1..] == a[1..] + b;
      MembersConcat(a[1..], b);
      forall key ensures Members(a + b, key) == Members(a, key) + Members(b, key) {
        assert (a + b)[0] == a[0];
        if KeyFor(a[0].groupName) == key {
          assert Members(a + b, key) == [a[0]] + (Members(a[1..], key) + Members(b, key));
        }
      }
    } else {
      assert a + b == b;
    }
  }

  /** Adding a memo at the end adds it to its own key's members only. */
  lemma MembersSnoc(memos: seq<MemoItem>, m: MemoItem)
    ensures forall key :: (Members(memos + [m], key) ==
      Members(memos, key) + (if KeyFor(m.groupName) == key then [m] else []))
  {
    MembersConcat(memos, [m]);
    forall key ensures Members([m], key) == if KeyFor(m.groupName) == key then [m] else [] {
      assert [m][1..] == [];
    }
  }

  /** A memo is a member of `key` exactly when it is in the list and has that key. */
  lemma {:induction false} MembersAre(memos: seq<MemoItem>, key: string)
    ensures forall m :: m in Members(memos, key) <==> m in memos && KeyFor(m.groupName) == key
  {
    if memos != [] {
      MembersAre(memos[1..], key);
      assert forall m :: m in memos <==> m == memos[0] || m in memos[1..];
    }
  }

  /** Index of the first memo with key `key`, or `|memos|`. */
  function FirstWithKey(memos: seq<MemoItem>, key: string): (k: nat)
    ensures k <= |memos|
    ensures forall j :: 0 <= j < k ==> KeyFor(memos[j].groupName) != key
    ensures k < |memos| ==> KeyFor(memos[k].groupName) == key
  {
    if memos == [] then 0
    else if KeyFor(memos[0].groupName) == key then 0
    else 1 + FirstWithKey(memos[1..], key)
  }

  lemma {:induction false} FirstWithKeySnoc(memos: seq<MemoItem>, m: MemoItem, key: string)
    ensures FirstWithKey(memos + [m], key) ==
      if FirstWithKey(memos, key) < |memos| then FirstWithKey(memos, key)
      else if KeyFor(m.groupName) == key then |memos| else |memos| + 1
  {
    if memos != [] {
      assert (memos + [m])[1..] == memos[1..] + [m];
      FirstWithKeySnoc(memos[1..], m, key);
    }
  }

  /** A key has members exactly when some memo has it; the first member is
      the first memo with that key. */
  lemma {:induction false} MembersStart(memos: seq<MemoItem>, key: string)
    ensures Members(memos, key) != [] <==> FirstWithKey(memos, key) < |memos|
    ensures Members(memos, key) != [] ==> Members(memos, key)[0] == memos[FirstWithKey(memos, key)]
  {
    if memos != [] {
      MembersStart(memos[1..], key);
    }
  }

  // ---------------------------------------------------------------------------
  // The keys, in order

  /** The distinct keys of the memos, each at its first occurrence. */
  function GroupKeys(memos: seq<MemoItem>): (keys: seq<string>)
    ensures forall key :: key in keys <==> Members(memos, key) != []
    ensures forall i, j :: 0 <= i < j < |keys| ==> keys[i] != keys[j]
  {
    if memos == [] then []
    else
      var p, m := memos[..|memos| - 1], memos[|memos| - 1];
      var keys := GroupKeys(p);
      var key := KeyFor(m.groupName);
      MembersSnoc(p, m);
      assert memos == p + [m];
      if key in keys then keys else keys + [key]
  }

  /** The keys come in the order of each key's first memo. */
  lemma {:induction false} GroupKeysOrdered(memos: seq<MemoItem>)
    ensures forall i, j :: 0 <= i < j < |GroupKeys(memos)| ==>
      FirstWithKey(memos, GroupKeys(memos)[i]) < FirstWithKey(memos, GroupKeys(memos)[j])
  {
    if memos != [] {
      var p, m := memos[..|memos| - 1], memos[|memos| - 1];
      assert memos == p + [m];
      GroupKeysOrdered(p);
      var before, keys := GroupKeys(p), GroupKeys(memos);
      forall i, j | 0 <= i < j < |keys| ensures FirstWithKey(memos, keys[i]) < FirstWithKey(memos, keys[j]) {
        FirstWithKeySnoc(p, m, keys[i]);
        FirstWithKeySnoc(p, m, keys[j]);
        MembersStart(p, keys[i]);
        MembersStart(p, keys[j]);
        assert keys[i] == before[i];
        if j == |before| {
          assert keys[j] == KeyFor(m.groupName) && keys[j] !in before;
        } else {
          assert keys[j] == before[j];
        }
      }
    }
  }

  // ---------------------------------------------------------------------------
  // A row's colour

  /** Index of the first memo with a (truthy) colour, or `|memos|`. */
  function FirstTruthy(memos: seq<MemoItem>): (k: nat)
    ensures k <= |memos|
    ensures forall j :: 0 <= j < k ==> !Truthy(memos[j].color)
    ensures k < |memos| ==> Truthy(memos[k].color)
  {
    if memos == [] then 0
    else if Truthy(memos[0].color) then 0
    else 1 + FirstTruthy(memos[1..])
  }

  lemma {:induction false} FirstTruthySnoc(memos: seq<MemoItem>, m: MemoItem)
    ensures FirstTruthy(memos + [m]) ==
      if FirstTruthy(memos) < |memos| then FirstTruthy(memos)
      else if Truthy(m.color) then |memos| else |memos| + 1
  {
    if memos != [] {
      assert (memos + [m])[1..] == memos[1..] + [m];
      FirstTruthySnoc(memos[1..], m);
    }
  }

  /** A row's colour: the first truthy colour among its memos; when none has
      one, whatever the first memo carries (absent, or the empty string). */
  function GroupColor(members: seq<MemoItem>): (c: Option<string>)
    requires members != []
    ensures Truthy(c) <==> exists j :: 0 <= j < |members| && Truthy(members[j].color)
  {
    var k := FirstTruthy(members);
    if k < |members| then members[k].color else members[0].color
  }

  /** The list screen's rule for adding a memo to a row keeps `GroupColor`. */
  lemma GroupColorSnoc(members: seq<MemoItem>, m: MemoItem)
    requires members != []
    ensures GroupColor(members + [m]) ==
      if !Truthy(GroupColor(members)) && Truthy(m.color) then m.color else GroupColor(members)
  {
    var ms := members + [m];
    FirstTruthySnoc(members, m);
    assert ms[0] == members[0];
    if FirstTruthy(members) < |members| {
      assert ms[FirstTruthy(members)] == members[FirstTruthy(members)];
    }
  }

  // ---------------------------------------------------------------------------
  // Rows

  function Texts(memos: seq<MemoItem>): (texts: seq<string>)
    ensures |texts| == |memos|
  {
    seq(|memos|, i requires 0 <= i < |memos| => memos[i].text)
  }

  function Ids(memos: seq<MemoItem>): (ids: seq<Id>)
    ensures |ids| == |memos|
  {
    seq(|memos|, i requires 0 <= i < |memos| => memos[i].id)
  }

  /** The row of `key` over a de-duplicated list: the first member's group
      name as its label, the row colour, and the members' texts and ids. */
  function GroupFor(memos: seq<MemoItem>, key: string): GroupItem
    requires Members(memos, key) != []
  {
    var g := Members(memos, key);
    GroupItem(key, g[0].groupName, GroupColor(g), Texts(g), Ids(g))
  }

  /** Reference for `groups`: one row per key of the memos that are not
      skipped, in the order of the keys' first memos. */
  function GroupsOf(memos: seq<MemoItem>): seq<GroupItem> {
    var d := Dedup(memos);
    var keys := GroupKeys(d);
    seq(|keys|, j requires 0 <= j < |keys| => GroupFor(d, keys[j]))
  }

  /** What adding one more memo does to the row of `key`. */
  lemma GroupForSnoc(memos: seq<MemoItem>, m: MemoItem, key: string)
    requires Members(memos, key) != [] || KeyFor(m.groupName) == key
    ensures Members(memos + [m], key) != []
    ensures GroupFor(memos + [m], key) ==
      if KeyFor(m.groupName) != key then GroupFor(memos, key)
      else if Members(memos, key) == [] then GroupItem(key, m.groupName, m.color, [m.text], [m.id])
      else
        var g := GroupFor(memos, key);
        g.(texts := g.texts + [m.text], ids := g.ids + [m.id],
           color := if !Truthy(g.color) && Truthy(m.color) then m.color else g.color)
  {
    MembersSnoc(memos, m);
    var before := Members(memos, key);
    if KeyFor(m.groupName) != key {
      assert Members(memos + [m], key) == before;
    }
    if KeyFor(m.groupName) == key && before == [] {
      assert Members(memos + [m], key) == [m];
      assert FirstTruthy([m]) == 0 || FirstTruthy([m]) == 1;
      assert Texts([m]) == [m.text];
      assert Ids([m]) == [m.id];
    }
    if KeyFor(m.groupName) == key && before != [] {
      assert Members(memos + [m], key) == before + [m];
      GroupColorSnoc(before, m);
      assert (before + [m])[0] == before[0];
      assert Texts(before + [m]) == Texts(before) + [m.text];
      assert Ids(before + [m]) == Ids(before) + [m.id];
    }
  }

  /** The state of the grouping loop matches the rows of the memos `d` it
      has kept so far: `order` lists their keys and `byKey` holds each row. */
  ghost predicate RowsMatch(d: seq<MemoItem>, byKey: map<string, GroupItem>, order: seq<string>) {
    && order == GroupKeys(d)
    && (forall key :: key in byKey <==> key in order)
    && (forall key :: key in byKey ==> Members(d, key) != [] && byKey[key] == GroupFor(d, key))
  }

  /** One step of the grouping loop for a memo it keeps: opening the row if
      the key is new, then pushing the text and id and applying the colour
      rule, yields the rows of `d + [m]`. */
  lemma AddMemoToRows(d: seq<MemoItem>, m: MemoItem, byKey: map<string, GroupItem>, order: seq<string>,
                      byKey': map<string, GroupItem>, order': seq<string>)
    requires RowsMatch(d, byKey, order)
    requires order' == if KeyFor(m.groupName) in byKey then order else order + [KeyFor(m.groupName)]
    requires
      var key := KeyFor(m.groupName);
      var g := if key in byKey then byKey[key] else GroupItem(key, m.groupName, m.color, [], []);
      byKey' == byKey[key := g.(texts := g.texts + [m.text], ids := g.ids + [m.id],
                                color := if !Truthy(g.color) && Truthy(m.color) then m.color else g.color)]
    ensures RowsMatch(d + [m], byKey', order')
  {
    var key := KeyFor(m.groupName);
    var ms := d + [m];
    assert ms[..|ms| - 1] == d && ms[|ms| - 1] == m;
    assert key in byKey <==> key in GroupKeys(d);
    assert order' == GroupKeys(ms);
    forall k | k in byKey'
      ensures Members(ms, k) != [] && byKey'[k] == GroupFor(ms, k)
    {
      GroupForSnoc(d, m, k);
      if k != key {
        assert byKey'[k] == byKey[k];
      } else if key !in byKey {
        assert Members(d, key) == [];
      }
    }
  }

  /** `groups`, computed as the list screen's loop does: one pass over the memos that
      skips a seen id, opens a row the first time a key appears, and adds the
      memo's text and id to its row, taking the memo's colour when the row
      has no truthy colour yet. */
  method BuildGroups(memos: seq<MemoItem>) returns (groups: seq<GroupItem>)
    ensures groups == GroupsOf(memos)
  {
    var byKey: map<string, GroupItem> := map[];
    var order: seq<string> := [];
    var processedIds: set<Id> := {};
    var i := 0;
    while i < |memos|
      invariant 0 <= i <= |memos|
      invariant processedIds == IdsOf(memos[..i])
      invariant RowsMatch(Dedup(memos[..i]), byKey, order)
    {
      var m := memos[i];
      ghost var d, byKey0, order0 := Dedup(memos[..i]), byKey, order;
      assert memos[..i + 1] == memos[..i] + [m];
      assert (memos[..i] + [m])[..i] == memos[..i];
      IdsOfSnoc(memos[..i], m);
      if m.id in processedIds {
        i := i + 1;
        continue;
      }
      assert Dedup(memos[..i + 1]) == d + [m];
      processedIds := processedIds + {m.id};

      var key := KeyFor(m.groupName);
      var displayName := m.groupName;
      if key !in byKey {
        byKey := byKey[key := GroupItem(key, displayName, m.color, [], [])];
        order := order + [key];
      }
      var g := byKey[key];
      g := g.(texts := g.texts + [m.text], ids := g.ids + [m.id]);
      if !Truthy(g.color) && Truthy(m.color) {
        g := g.(color := m.color);
      }
      byKey := byKey[key := g];
      AddMemoToRows(d, m, byKey0, order0, byKey, order);
      i := i + 1;
    }
    assert memos[..i] == memos;
    groups := seq(|order|, j requires 0 <= j < |order| => byKey[order[j]]);
  }

  // ---------------------------------------------------------------------------
  // What the rows hold

  /** Where the `p`-th member of `key` sits in the list. */
  function MemberPos(memos: seq<MemoItem>, key: string, p: nat): (a: nat)
    requires p < |Members(memos, key)|
    ensures a < |memos| && memos[a] == Members(memos, key)[p]
    decreases |memos|
  {
    if KeyFor(memos[0].groupName) == key then
      if p == 0 then 0 else 1 + MemberPos(memos[1..], key, p - 1)
    else 1 + MemberPos(memos[1..], key, p)
  }

  /** Members keep the list's order: a later member sits later in the list. */
  lemma {:induction false} MemberPosOrdered(memos: seq<MemoItem>, key: string, p: nat, q: nat)
    requires p < q < |Members(memos, key)|
    ensures MemberPos(memos, key, p) < MemberPos(memos, key, q)
    decreases |memos|
  {
    if KeyFor(memos[0].groupName) == key {
      if p > 0 {
        MemberPosOrdered(memos[1..], key, p - 1, q - 1);
      }
    } else {
      MemberPosOrdered(memos[1..], key, p, q);
    }
  }

  /** Row `j` is the row of the `j`-th key of the kept memos. */
  lemma RowIs(memos: seq<MemoItem>, j: nat)
    requires j < |GroupsOf(memos)|
    ensures j < |GroupKeys(Dedup(memos))|
    ensures Members(Dedup(memos), GroupKeys(Dedup(memos))[j]) != []
    ensures GroupsOf(memos)[j] == GroupFor(Dedup(memos), GroupKeys(Dedup(memos))[j])
  {
  }

  /** A kept member of `key` is the first memo with its id, and has that key. */
  lemma KeptMember(memos: seq<MemoItem>, key: string, p: nat)
    requires p < |Members(Dedup(memos), key)|
    ensures FirstWithId(memos, Members(Dedup(memos), key)[p].id) < |memos|
    ensures memos[FirstWithId(memos, Members(Dedup(memos), key)[p].id)] == Members(Dedup(memos), key)[p]
    ensures KeyFor(Members(Dedup(memos), key)[p].groupName) == key
  {
    var d := Dedup(memos);
    var ms := Members(d, key);
    DedupKeepsFirst(memos);
    MembersAre(d, key);
    assert ms[p] in ms;
    var a :| 0 <= a < |d| && d[a] == ms[p];
  }

  /** Later kept members of `key` have later first memos. */
  lemma KeptMembersOrdered(memos: seq<MemoItem>, key: string, p: nat, q: nat)
    requires p < q < |Members(Dedup(memos), key)|
    ensures FirstWithId(memos, Members(Dedup(memos), key)[p].id) < FirstWithId(memos, Members(Dedup(memos), key)[q].id)
  {
    var d := Dedup(memos);
    var ms := Members(d, key);
    DedupOrdered(memos);
    MemberPosOrdered(d, key, p, q);
  }

  /** Each row of `groups` is a non-empty list of memos of its key: its
      `p`-th id and text belong to the first memo with that id, whose key is
      the row's key; the row's label is its first memo's group name; and its
      ids come in the order of their first memos. */
  lemma GroupRow(memos: seq<MemoItem>, j: nat)
    requires j < |GroupsOf(memos)|
    ensures var g := GroupsOf(memos)[j];
      && 0 < |g.ids| == |g.texts|
      && (forall p :: 0 <= p < |g.ids| ==>
            && FirstWithId(memos, g.ids[p]) < |memos|
            && memos[FirstWithId(memos, g.ids[p])].text == g.texts[p]
            && KeyFor(memos[FirstWithId(memos, g.ids[p])].groupName) == g.key)
      && g.groupName == memos[FirstWithId(memos, g.ids[0])].groupName
      && (forall p, q :: 0 <= p < q < |g.ids| ==> FirstWithId(memos, g.ids[p]) < FirstWithId(memos, g.ids[q]))
  {
    RowIs(memos, j);
    var d := Dedup(memos);
    var key := GroupKeys(d)[j];
    var ms := Members(d, key);
    var g := GroupsOf(memos)[j];
    assert g.key == key && |g.ids| == |ms| == |g.texts|;
    forall p | 0 <= p < |ms|
      ensures g.ids[p] == ms[p].id && g.texts[p] == ms[p].text
      ensures FirstWithId(memos, g.ids[p]) < |memos| && memos[FirstWithId(memos, g.ids[p])] == ms[p]
      ensures KeyFor(ms[p].groupName) == key
    {
      KeptMember(memos, key, p);
    }
    assert g.groupName == ms[0].groupName;
    forall p, q | 0 <= p < q < |ms| ensures FirstWithId(memos, g.ids[p]) < FirstWithId(memos, g.ids[q]) {
      KeptMembersOrdered(memos, key, p, q);
    }
  }

  /** Every id of the list appears in some row, and rows hold no other id. */
  lemma GroupsCoverIds(memos: seq<MemoItem>, x: Id)
    ensures x in IdsOf(memos) <==>
      exists j, p :: 0 <= j < |GroupsOf(memos)| && 0 <= p < |GroupsOf(memos)[j].ids| && GroupsOf(memos)[j].ids[p] == x
  {
    var gs, d := GroupsOf(memos), Dedup(memos);
    if x in IdsOf(memos) {
      DedupKeepsIds(memos);
      var a :| 0 <= a < |d| && d[a].id == x;
      var key := KeyFor(d[a].groupName);
      MembersAre(d, key);
      var ms := Members(d, key);
      assert d[a] in ms;
      var p :| 0 <= p < |ms| && ms[p] == d[a];
      var keys := GroupKeys(d);
      var j :| 0 <= j < |keys| && keys[j] == key;
      assert gs[j] == GroupFor(d, key);
      assert gs[j].ids[p] == x;
    }
    if exists j, p :: 0 <= j < |gs| && 0 <= p < |gs[j].ids| && gs[j].ids[p] == x {
      var j, p :| 0 <= j < |gs| && 0 <= p < |gs[j].ids| && gs[j].ids[p] == x;
      GroupRow(memos, j);
      assert memos[FirstWithId(memos, x)].id == x;
    }
  }

  /** No id appears twice across the rows. */
  lemma GroupsIdsDistinct(memos: seq<MemoItem>, j1: nat, p1: nat, j2: nat, p2: nat)
    requires j1 < |GroupsOf(memos)| && p1 < |GroupsOf(memos)[j1].ids|
    requires j2 < |GroupsOf(memos)| && p2 < |GroupsOf(memos)[j2].ids|
    requires j1 != j2 || p1 != p2
    ensures GroupsOf(memos)[j1].ids[p1] != GroupsOf(memos)[j2].ids[p2]
  {
    var gs := GroupsOf(memos);
    GroupRow(memos, j1);
    GroupRow(memos, j2);
    if j1 != j2 {
      RowIs(memos, j1);
      RowIs(memos, j2);
      assert gs[j1].key != gs[j2].key;
    }
  }

  /** Rows have distinct keys and come in the order of their first memos. */
  lemma GroupsInOrder(memos: seq<MemoItem>, j1: nat, j2: nat)
    requires j1 < j2 < |GroupsOf(memos)|
    ensures GroupsOf(memos)[j1].key != GroupsOf(memos)[j2].key
    ensures GroupRowStart(memos, j1) < GroupRowStart(memos, j2)
  {
    var d := Dedup(memos);
    var keys := GroupKeys(d);
    RowIs(memos, j1);
    RowIs(memos, j2);
    GroupKeysOrdered(d);
    MembersStart(d, keys[j1]);
    MembersStart(d, keys[j2]);
    DedupOrdered(memos);
  }

  /** Position in the list of a row's first memo. */
  function GroupRowStart(memos: seq<MemoItem>, j: nat): (k: nat)
    requires j < |GroupsOf(memos)|
    ensures k < |memos| && memos[k].id == GroupsOf(memos)[j].ids[0]
  {
    GroupRow(memos, j);
    FirstWithId(memos, GroupsOf(memos)[j].ids[0])
  }

  /** The memo behind the `p`-th entry of row `j`. */
  function RowMemo(memos: seq<MemoItem>, j: nat, p: nat): (m: MemoItem)
    requires j < |GroupsOf(memos)| && p < |GroupsOf(memos)[j].ids|
    ensures m in memos && m.id == GroupsOf(memos)[j].ids[p]
  {
    GroupRow(memos, j);
    memos[FirstWithId(memos, GroupsOf(memos)[j].ids[p])]
  }

  /** A row's colour is truthy exactly when one of its memos has a truthy
      colour, and is then the first such colour; otherwise it is whatever the
      row's first memo carries. */
  lemma GroupsColor(memos: seq<MemoItem>, j: nat)
    requires j < |GroupsOf(memos)|
    ensures var g := GroupsOf(memos)[j];
      && (Truthy(g.color) <==> exists p :: 0 <= p < |g.ids| && Truthy(RowMemo(memos, j, p).color))
      && (Truthy(g.color) ==> exists p :: (0 <= p < |g.ids| && g.color == RowMemo(memos, j, p).color
            && forall q :: 0 <= q < p ==> !Truthy(RowMemo(memos, j, q).color)))
      && (!Truthy(g.color) ==> g.color == RowMemo(memos, j, 0).color)
  {
    RowIs(memos, j);
    var d := Dedup(memos);
    var key := GroupKeys(d)[j];
    var ms := Members(d, key);
    var g := GroupsOf(memos)[j];
    forall p | 0 <= p < |ms| ensures RowMemo(memos, j, p) == ms[p] {
      KeptMember(memos, key, p);
    }
    var k := FirstTruthy(ms);
    if k < |ms| {
      assert g.color == RowMemo(memos, j, k).color;
    }
  }

  // ---------------------------------------------------------------------------
  // Opening a row

  /** Index of the first memo whose id is one of `ids`, or `|memos|`. */
  function FirstInIds(memos: seq<MemoItem>, ids: seq<Id>): (k: nat)
    ensures k <= |memos|
    ensures forall i :: 0 <= i < k ==> memos[i].id !in ids
    ensures k < |memos| ==> memos[k].id in ids
  {
    if memos == [] then 0
    else if memos[0].id in ids then 0
    else 1 + FirstInIds(memos[1..], ids)
  }

  /** The memo a tap on a row with ids `ids` opens outside select mode: the
      first memo of the list that belongs to the row, if the row has ids. */
  function OpenTarget(memos: seq<MemoItem>, ids: seq<Id>): (r: Option<Id>)
    ensures r.Some? ==> r.value in ids
    ensures r.None? <==> forall i :: 0 <= i < |memos| ==> memos[i].id !in ids
  {
    var k := FirstInIds(memos, ids);
    if |ids| > 0 && k < |memos| then Some(memos[k].id) else None
  }

  /** Tapping a row of `groups` opens its first memo: the row's first id. */
  lemma OpenTargetIsRowStart(memos: seq<MemoItem>, j: nat)
    requires j < |GroupsOf(memos)|
    ensures FirstInIds(memos, GroupsOf(memos)[j].ids) == GroupRowStart(memos, j)
    ensures OpenTarget(memos, GroupsOf(memos)[j].ids) == Some(GroupsOf(memos)[j].ids[0])
  {
    var ids := GroupsOf(memos)[j].ids;
    var f0 := GroupRowStart(memos, j);
    GroupRow(memos, j);
    assert memos[f0].id in ids;
  }

  // ---------------------------------------------------------------------------
  // Deleting

  /** The memos bulk delete removes: those whose key is selected, in order. */
  function DeleteTargets(memos: seq<MemoItem>, selected: set<string>): (targets: seq<MemoItem>)
    ensures |targets| <= |memos|
    ensures forall m :: m in targets <==> m in memos && KeyFor(m.groupName) in selected
  {
    if memos == [] then []
    else
      var rest := DeleteTargets(memos[1..], selected);
      assert forall m :: m in memos <==> m == memos[0] || m in memos[1..];
      if KeyFor(memos[0].groupName) in selected then [memos[0]] + rest else rest
  }

  /** Every id of a selected row is a bulk-delete target. */
  lemma SelectedRowsAreDeleted(memos: seq<MemoItem>, selected: set<string>, j: nat, p: nat)
    requires j < |GroupsOf(memos)| && GroupsOf(memos)[j].key in selected && p < |GroupsOf(memos)[j].ids|
    ensures GroupsOf(memos)[j].ids[p] in Ids(DeleteTargets(memos, selected))
  {
    var x := GroupsOf(memos)[j].ids[p];
    var targets := DeleteTargets(memos, selected);
    GroupRow(memos, j);
    var m := memos[FirstWithId(memos, x)];
    assert m in targets;
    var i :| 0 <= i < |targets| && targets[i] == m;
    assert Ids(targets)[i] == x;
  }

  /** When no id repeats in the list (document ids are unique), every
      bulk-delete target lies in a selected row. */
  lemma DeletedAreInSelectedRows(memos: seq<MemoItem>, selected: set<string>, x: Id)
    requires UniqueIds(memos)
    requires x in Ids(DeleteTargets(memos, selected))
    ensures exists j, p :: (0 <= j < |GroupsOf(memos)| && GroupsOf(memos)[j].key in selected
      && 0 <= p < |GroupsOf(memos)[j].ids| && GroupsOf(memos)[j].ids[p] == x)
  {
    var gs, targets := GroupsOf(memos), DeleteTargets(memos, selected);
    var i :| 0 <= i < |targets| && Ids(targets)[i] == x;
    assert targets[i] in memos;
    var a :| 0 <= a < |memos| && memos[a] == targets[i];
    assert x in IdsOf(memos);
    GroupsCoverIds(memos, x);
    var j, p :| 0 <= j < |gs| && 0 <= p < |gs[j].ids| && gs[j].ids[p] == x;
    GroupRow(memos, j);
    assert FirstWithId(memos, x) == a;
    assert gs[j].key in selected;
  }

  /** The store after deleting `ids` one by one, where the ids in `failures`
      are rejected by the store and stay. */
  function Removed(store: map<Id, Doc>, ids: seq<Id>, failures: set<Id>): (r: map<Id, Doc>)
    ensures r.Keys <= store.Keys
    ensures forall k :: k in store ==> (k in r <==> k !in ids || k in failures)
    ensures forall k :: k in r ==> r[k] == store[k]
  {
    map k | k in store && (k !in ids || k in failures) :: store[k]
  }

  /** Deleting ids one at a time agrees with `Removed`. */
  lemma RemovedSnoc(store: map<Id, Doc>, ids: seq<Id>, x: Id, failures: set<Id>)
    ensures Removed(store, ids + [x], failures) ==
      if x in failures then Removed(store, ids, failures) else Removed(store, ids, failures) - {x}
  {
    var a := Removed(store, ids + [x], failures);
    var b := if x in failures then Removed(store, ids, failures) else Removed(store, ids, failures) - {x};
    forall k ensures k in a <==> k in b {
      assert k in ids + [x] <==> k in ids || k == x;
    }
    assert a.Keys == b.Keys;
  }

  // ---------------------------------------------------------------------------
  // Selection

  /** `toggleSelect`: `key` flips, every other key stays as it was. */
  function Toggled(selected: set<string>, key: string): (r: set<string>)
    ensures key in r <==> key !in selected
    ensures forall k :: k != key ==> (k in r <==> k in selected)
  {
    if key in selected then selected - {key} else selected + {key}
  }

  /** Toggling the same key twice restores the selection. */
  lemma ToggleTwice(selected: set<string>, key: string)
    ensures Toggled(Toggled(selected, key), key) == selected
  {
    assert forall k :: k in Toggled(Toggled(selected, key), key) <==> k in selected;
  }

  /** The list screen's own state over a memo repository. */
  class Screen {
    const repo: MemoRepository
    var selectMode: bool
    var selectedKeys: set<string>

    constructor (repo: MemoRepository)
      ensures this.repo == repo && !selectMode && selectedKeys == {}
    {
      this.repo := repo;
      selectMode := false;
      selectedKeys := {};
    }

    method ToggleSelect(key: string)
      modifies this`selectedKeys
      ensures selectedKeys == Toggled(old(selectedKeys), key)
    {
      if key in selectedKeys {
        selectedKeys := selectedKeys - {key};
      } else {
        selectedKeys := selectedKeys + {key};
      }
    }

    /** A tap on a row: in select mode it toggles the row's key and opens
        nothing; otherwise it opens the row's first memo and selects nothing. */
    method RowPress(group: GroupItem) returns (openId: Option<Id>)
      modifies this`selectedKeys
      ensures selectMode ==> openId.None? && selectedKeys == Toggled(old(selectedKeys), group.key)
      ensures !selectMode ==> selectedKeys == old(selectedKeys) && openId == OpenTarget(repo.memos, group.ids)
    {
      openId := None;
      if selectMode {
        ToggleSelect(group.key);
      } else if |group.ids| > 0 {
        var k := FirstInIds(repo.memos, group.ids);
        if k < |repo.memos| {
          openId := Some(repo.memos[k].id);
        }
      }
    }

    method EnterSelectMode()
      modifies this`selectMode, this`selectedKeys
      ensures selectMode && selectedKeys == {}
    {
      selectMode := true;
      selectedKeys := {};
    }

    method CancelSelect()
      modifies this`selectMode, this`selectedKeys
      ensures !selectMode && selectedKeys == {}
    {
      selectMode := false;
      selectedKeys := {};
    }

    /** One delete per id; `failures` are the ids the store rejects. The
        operation succeeds only when none is rejected, and the deletes that
        went through stay done. */
    method DeleteIds(ids: seq<Id>, failures: set<Id>) returns (ok: bool)
      modifies repo`store
      ensures ok <==> forall i :: 0 <= i < |ids| ==> ids[i] !in failures
      ensures repo.store == Removed(old(repo.store), ids, failures)
    {
      ok := true;
      var i := 0;
      while i < |ids|
        invariant 0 <= i <= |ids|
        invariant ok <==> forall j :: 0 <= j < i ==> ids[j] !in failures
        invariant repo.store == Removed(old(repo.store), ids[..i], failures)
      {
        RemovedSnoc(old(repo.store), ids[..i], ids[i], failures);
        assert ids[..i + 1] == ids[..i] + [ids[i]];
        if ids[i] in failures {
          ok := false;
        } else {
          repo.store := repo.store - {ids[i]};
        }
        i := i + 1;
      }
      assert ids[..i] == ids;
    }

    /** Bulk delete: nothing without a selection; otherwise every memo whose
        key is selected is deleted, and on success the selection is cleared
        and select mode left. */
    method DeleteSelected(failures: set<Id>) returns (ok: bool)
      modifies this`selectMode, this`selectedKeys, repo`store
      ensures old(selectedKeys) == {} ==>
        ok && repo.store == old(repo.store) && selectMode == old(selectMode) && selectedKeys == {}
      ensures old(selectedKeys) != {} ==>
        && repo.store == Removed(old(repo.store), Ids(DeleteTargets(repo.memos, old(selectedKeys))), failures)
        && (ok <==> forall m :: m in DeleteTargets(repo.memos, old(selectedKeys)) ==> m.id !in failures)
        && (ok ==> !selectMode && selectedKeys == {})
        && (!ok ==> selectMode == old(selectMode) && selectedKeys == old(selectedKeys))
    {
      if |selectedKeys| == 0 {
        return true;
      }
      var targets := DeleteTargets(repo.memos, selectedKeys);
      ok := DeleteIds(Ids(targets), failures);
      assert ok <==> forall m :: m in targets ==> m.id !in failures by {
        forall m | m in targets ensures ok ==> m.id !in failures {
          var i :| 0 <= i < |targets| && targets[i] == m;
          assert Ids(targets)[i] == m.id;
        }
      }
      if ok {
        CancelSelect();
      }
    }

    /** Deleting one row deletes exactly that row's ids. */
    method ConfirmDeleteGroup(group: GroupItem, failures: set<Id>) returns (ok: bool)
      modifies repo`store
      ensures ok <==> forall i :: 0 <= i < |group.ids| ==> group.ids[i] !in failures
      ensures repo.store == Removed(old(repo.store), group.ids, failures)
    {
      ok := DeleteIds(group.ids, failures);
    }
  }

  /** Memos "a" and "b" of group "X" followed by an ungrouped memo "c". */
  function ExampleMemos(): seq<MemoItem> {
    [MemoItem("1", "a", "X", "u", None), MemoItem("2", "b", "X", "u", None), MemoItem("3", "c", "", "u", None)]
  }

  lemma ExampleKeys()
    ensures Dedup(ExampleMemos()) == ExampleMemos()
    ensures GroupKeys(ExampleMemos()) == ["X", NoGroupKey]
  {
    var memos := ExampleMemos();
    var m1, m2, m3 := memos[0], memos[1], memos[2];
    DedupOfUnique(memos);
    assert memos[..2] == [m1, m2] && [m1, m2][..1] == [m1] && [m1][..0] == [];
    assert GroupKeys([m1]) == ["X"];
    assert GroupKeys([m1, m2]) == ["X"];
  }

  lemma ExampleMembers()
    ensures Members(ExampleMemos(), "X") == ExampleMemos()[..2]
    ensures Members(ExampleMemos(), NoGroupKey) == ExampleMemos()[2..]
  {
    var memos := ExampleMemos();
    var m1, m2, m3 := memos[0], memos[1], memos[2];
    MembersSnoc([], m1);
    MembersSnoc([m1], m2);
    MembersSnoc([m1, m2], m3);
    assert [] + [m1] == [m1] && [m1] + [m2] == [m1, m2] && [m1, m2] + [m3] == memos;
  }

  lemma ExampleGroupRow()
    ensures Members(ExampleMemos(), "X") != []
    ensures GroupFor(ExampleMemos(), "X") == GroupItem("X", "X", None, ["a", "b"], ["1", "2"])
  {
    ExampleMembers();
    var x := ExampleMemos()[..2];
    assert FirstTruthy(x) == 2;
    assert Texts(x) == ["a", "b"] && Ids(x) == ["1", "2"];
  }

  lemma ExampleUngroupedRow()
    ensures Members(ExampleMemos(), NoGroupKey) != []
    ensures GroupFor(ExampleMemos(), NoGroupKey) == GroupItem(NoGroupKey, "", None, ["c"], ["3"])
  {
    ExampleMembers();
    var n := ExampleMemos()[2..];
    assert FirstTruthy(n) == 1;
    assert Texts(n) == ["c"] && Ids(n) == ["3"];
  }

  /** The example makes two rows: "X" holding "a" and "b" with ids 1 and 2,
      then the ungrouped row holding "c" with id 3; neither has a colour. */
  lemma TwoRowsExample()
    ensures GroupsOf(ExampleMemos())
      == [GroupItem("X", "X", None, ["a", "b"], ["1", "2"]), GroupItem(NoGroupKey, "", None, ["c"], ["3"])]
  {
    ExampleKeys();
    ExampleGroupRow();
    ExampleUngroupedRow();
  }
}
