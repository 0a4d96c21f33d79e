/** The memo repository hook (`useMemos`): the cached list of the signed-in
    user's memos, the views derived from it (distinct group names, the colour
    of each group), the lookup of a group's memo, and the save operation that
    either appends to an existing memo of the chosen group or creates a new one.

    The remote document store is the field `store`, a map from document id to
    the document's raw fields. The live query is not modelled: a snapshot
    arrives as a sequence of documents already ordered newest first. */
module UseMemos {
  import opened Wrappers
  import opened JsText

  /** A document id, assigned by the store. */
  type Id = string

  /** A stored document's fields as the store returns them; any may be missing.
      The server timestamp used for ordering is not modelled. */
  datatype Doc = Doc(text: Option<string>, groupName: Option<string>, userId: Option<string>, color: Option<string>)

  /** One document of a query snapshot. */
  datatype DocSnapshot = DocSnapshot(id: Id, data: Doc)

  /** The client-side record of a memo (`MemoItem`). */
  datatype MemoItem = MemoItem(id: Id, text: string, groupName: string, userId: string, color: Option<string>)

  /** The colour every new memo is created with. */
  const DefaultColor: string := "#9ca3af"

  /** JavaScript truthiness of an optional string: present and not empty. */
  predicate Truthy(c: Option<string>) {
    c.Some? && c.value != ""
  }

  // ---------------------------------------------------------------------------
  // Snapshot mapping

  function ToMemoItem(s: DocSnapshot): MemoItem {
    MemoItem(s.id, s.data.text.GetOr(""), s.data.groupName.GetOr(""), s.data.userId.GetOr(""), s.data.color)
  }

  /** The memo list built from one snapshot: same order, same ids, missing
      text, group name and owner read as the empty string, colour as stored. */
  function MapSnapshot(docs: seq<DocSnapshot>): (memos: seq<MemoItem>)
    ensures |memos| == |docs|
    ensures forall i :: 0 <= i < |docs| ==>
      && memos[i].id == docs[i].id
      && memos[i].color == docs[i].data.color
      && (docs[i].data.text.None? ==> memos[i].text == "")
      && (docs[i].data.text.Some? ==> memos[i].text == docs[i].data.text.value)
      && (docs[i].data.groupName.None? ==> memos[i].groupName == "")
      && (docs[i].data.groupName.Some? ==> memos[i].groupName == docs[i].data.groupName.value)
      && (docs[i].data.userId.None? ==> memos[i].userId == "")
      && (docs[i].data.userId.Some? ==> memos[i].userId == docs[i].data.userId.value)
  {
    seq(|docs|, i requires 0 <= i < |docs| => ToMemoItem(docs[i]))
  }

  /** The fields of a memo document written by the create path of `SaveMemo`. */
  function NewMemoDoc(text: string, groupName: string, userId: string): Doc {
    Doc(Some(text), Some(groupName), Some(userId), Some(DefaultColor))
  }

  /** A document written by the create path reads back as exactly the memo saved. */
  lemma CreatedDocReadsBack(id: Id, text: string, groupName: string, userId: string)
    ensures MapSnapshot([DocSnapshot(id, NewMemoDoc(text, groupName, userId))])
         == [MemoItem(id, text, groupName, userId, Some(DefaultColor))]
  {
  }

  // ---------------------------------------------------------------------------
  // Group names

  /** Index of the first memo whose trimmed group name is `name`, or `|memos|`. */
  function FirstWithGroup(memos: seq<MemoItem>, name: string): (k: nat)
    ensures k <= |memos|
    ensures forall j :: 0 <= j < k ==> Trim(memos[j].groupName) != name
    ensures k < |memos| ==> Trim(memos[k].groupName) == name
  {
    if memos == [] then 0
    else if Trim(memos[0].groupName) == name then 0
    else 1 + FirstWithGroup(memos[1..], name)
  }

  lemma {:induction false} FirstWithGroupSnoc(memos: seq<MemoItem>, m: MemoItem, name: string)
    ensures FirstWithGroup(memos + [m], name) ==
      if FirstWithGroup(memos, name) < |memos| then FirstWithGroup(memos, name)
      else if Trim(m.groupName) == name then |memos| else |memos| + 1
  {
    if memos != [] {
      assert (memos + [m])[1..] == memos[1..] + [m];
      FirstWithGroupSnoc(memos[1..], m, name);
    }
  }

  /** `groupNames`: the trimmed group names, blank ones dropped, each kept
      once at its first occurrence (a JavaScript `Set` keeps insertion order). */
  function GroupNames(memos: seq<MemoItem>): (names: seq<string>)
    ensures |names| <= |memos|
  {
    if memos == [] then []
    else
      var names := GroupNames(memos[..|memos| - 1]);
      var name := Trim(memos[|memos| - 1].groupName);
      if name == "" || name in names then names else names + [name]
  }

  /** Every entry of `groupNames` is a trimmed, non-blank name. */
  lemma {:induction false} GroupNamesTrimmed(memos: seq<MemoItem>)
    ensures forall name :: name in GroupNames(memos) ==> name != "" && IsTrimmed(name)
  {
    if memos != [] {
      GroupNamesTrimmed(memos[..|memos| - 1]);
    }
  }

  /** `groupNames` holds exactly the non-blank trimmed group names of the memos. */
  lemma {:induction false} GroupNamesMembers(memos: seq<MemoItem>)
    ensures forall name :: name in GroupNames(memos) <==> name != "" && FirstWithGroup(memos, name) < |memos|
  {
    if memos != [] {
      var n := |memos| - 1;
      var p, m := memos[..n], memos[n];
      assert memos == p + [m];
      GroupNamesMembers(p);
      forall name ensures name in GroupNames(memos) <==> name != "" && FirstWithGroup(memos, name) < |memos| {
        FirstWithGroupSnoc(p, m, name);
      }
    }
  }

  /** No name appears twice in `groupNames`. */
  lemma {:induction false} GroupNamesDistinct(memos: seq<MemoItem>)
    ensures forall i, j :: 0 <= i < j < |GroupNames(memos)| ==> GroupNames(memos)[i] != GroupNames(memos)[j]
  {
    if memos != [] {
      var p := memos[..|memos| - 1];
      GroupNamesDistinct(p);
      var before, name := GroupNames(p), Trim(memos[|memos| - 1].groupName);
      if name != "" && name !in before {
        var names := before + [name];
        forall i, j | 0 <= i < j < |names| ensures names[i] != names[j] {
          assert names[i] == before[i];
          if j == |before| {
            assert names[j] == name;
          } else {
            assert names[j] == before[j];
          }
        }
      }
    }
  }

  /** `groupNames` is ordered by each name's first memo. */
  lemma {:induction false} GroupNamesOrdered(memos: seq<MemoItem>)
    ensures forall i, j :: 0 <= i < j < |GroupNames(memos)| ==>
      FirstWithGroup(memos, GroupNames(memos)[i]) < FirstWithGroup(memos, GroupNames(memos)[j])
  {
    if memos != [] {
      var n := |memos| - 1;
      var p, m := memos[..n], memos[n];
      assert memos == p + [m];
      GroupNamesOrdered(p);
      GroupNamesMembers(p);
      var before, names := GroupNames(p), GroupNames(memos);
      forall i, j | 0 <= i < j < |names| ensures FirstWithGroup(memos, names[i]) < FirstWithGroup(memos, names[j]) {
        FirstWithGroupSnoc(p, m, names[i]);
        FirstWithGroupSnoc(p, m, names[j]);
        assert names[i] == before[i];
        if j == |before| {
          assert names[j] == Trim(m.groupName) && names[j] !in before;
        } else {
          assert names[j] == before[j];
        }
      }
    }
  }

  // ---------------------------------------------------------------------------
  // Group colours

  /** The memo carries a colour (a truthy one) and its trimmed group is `name`. */
  predicate ColoredIn(m: MemoItem, name: string) {
    Trim(m.groupName) == name && Truthy(m.color)
  }

  /** Index of the first memo of group `name` with a colour, or `|memos|`. */
  function FirstColored(memos: seq<MemoItem>, name: string): (k: nat)
    ensures k <= |memos|
    ensures forall j :: 0 <= j < k ==> !ColoredIn(memos[j], name)
    ensures k < |memos| ==> ColoredIn(memos[k], name)
  {
    if memos == [] then 0
    else if ColoredIn(memos[0], name) then 0
    else 1 + FirstColored(memos[1..], name)
  }

  lemma {:induction false} FirstColoredSnoc(memos: seq<MemoItem>, m: MemoItem, name: string)
    ensures FirstColored(memos + [m], name) ==
      if FirstColored(memos, name) < |memos| then FirstColored(memos, name)
      else if ColoredIn(m, name) then |memos| else |memos| + 1
  {
    if memos != [] {
      assert (memos + [m])[1..] == memos[1..] + [m];
      FirstColoredSnoc(memos[1..], m, name);
    }
  }

  /** Reference for `groupColors`: a memo adds its trimmed group with its
      colour when the group is not blank, the colour is truthy and the group
      has no colour yet. */
  function GroupColorsOf(memos: seq<MemoItem>): map<string, string> {
    if memos == [] then map[]
    else
      var colors := GroupColorsOf(memos[..|memos| - 1]);
      var m := memos[|memos| - 1];
      var name := Trim(m.groupName);
      if name != "" && Truthy(m.color) && name !in colors then colors[name := m.color.value] else colors
  }

  /** What `groupColors` holds: exactly the non-blank groups with a coloured
      memo, each with the colour of the first such memo; groups without a
      coloured memo are absent. */
  lemma {:induction false} GroupColorsOfSpec(memos: seq<MemoItem>)
    ensures forall name :: name in GroupColorsOf(memos) <==> name != "" && FirstColored(memos, name) < |memos|
    ensures forall name :: name in GroupColorsOf(memos) ==>
      FirstColored(memos, name) < |memos| && Some(GroupColorsOf(memos)[name]) == memos[FirstColored(memos, name)].color
  {
    if memos != [] {
      var n := |memos| - 1;
      var p, m := memos[..n], memos[n];
      assert memos == p + [m];
      GroupColorsOfSpec(p);
      forall name
        ensures name in GroupColorsOf(memos) <==> name != "" && FirstColored(memos, name) < |memos|
        ensures name in GroupColorsOf(memos) ==>
          FirstColored(memos, name) < |memos| && Some(GroupColorsOf(memos)[name]) == memos[FirstColored(memos, name)].color
      {
        FirstColoredSnoc(p, m, name);
        var k := FirstColored(p, name);
        if k < |p| {
          assert memos[k] == p[k];
        }
      }
    }
  }

  /** `groupColors`, computed as `useMemos` does: one pass over the memos,
      recording a group's colour when the group is not blank, the memo has a
      colour, and the group has none yet. */
  method ComputeGroupColors(memos: seq<MemoItem>) returns (colors: map<string, string>)
    ensures colors == GroupColorsOf(memos)
  {
    colors := map[];
    var i := 0;
    while i < |memos|
      invariant 0 <= i <= |memos|
      invariant colors == GroupColorsOf(memos[..i])
    {
      var m := memos[i];
      var name := Trim(m.groupName);
      assert memos[..i + 1][..i] == memos[..i];
      if |name| > 0 && Truthy(m.color) && name !in colors {
        colors := colors[name := m.color.value];
      }
      i := i + 1;
    }
    assert memos[..i] == memos;
  }

  /** Every group that has a colour is one of `groupNames`. */
  lemma GroupColorsWithinGroupNames(memos: seq<MemoItem>, name: string)
    requires name in GroupColorsOf(memos)
    ensures name in GroupNames(memos)
  {
    GroupColorsOfSpec(memos);
    GroupNamesMembers(memos);
    var k := FirstColored(memos, name);
    assert Trim(memos[k].groupName) == name;
    assert FirstWithGroup(memos, name) <= k;
  }

  // ---------------------------------------------------------------------------
  // Group lookup

  /** `getGroupMemoId`: the id of the first memo whose trimmed group name is
      the trimmed argument; nothing for a blank name or when no memo matches. */
  function GetGroupMemoId(memos: seq<MemoItem>, groupName: string): (r: Option<Id>)
    ensures r.None? <==>
      Trim(groupName) == "" || forall k :: 0 <= k < |memos| ==> Trim(memos[k].groupName) != Trim(groupName)
    ensures r.Some? ==> exists k :: (0 <= k < |memos| && memos[k].id == r.value
      && Trim(memos[k].groupName) == Trim(groupName)
      && forall j :: 0 <= j < k ==> Trim(memos[j].groupName) != Trim(groupName))
  {
    var trimmedName := Trim(groupName);
    if trimmedName == "" then None
    else
      var k := FirstWithGroup(memos, trimmedName);
      if k < |memos| then Some(memos[k].id) else None
  }

  /** A name finds a memo exactly when its trimmed form is one of `groupNames`. */
  lemma GroupMemoIdIffListed(memos: seq<MemoItem>, groupName: string)
    ensures GetGroupMemoId(memos, groupName).Some? <==> Trim(groupName) in GroupNames(memos)
  {
    GroupNamesMembers(memos);
    var t := Trim(groupName);
    if t != "" && FirstWithGroup(memos, t) < |memos| {
      assert Trim(memos[FirstWithGroup(memos, t)].groupName) == t;
    }
  }

  // ---------------------------------------------------------------------------
  // Saving

  /** `existing` with `line` added below it, or just `line` when there is no text yet. */
  function AppendLine(existing: string, line: string): (r: string)
    ensures existing == "" ==> r == line
    ensures existing != "" ==> (|r| == |existing| + 1 + |line|
      && r[..|existing|] == existing && r[|existing|] == '\n' && r[|existing| + 1..] == line)
  {
    if existing == "" then line else existing + "\n" + line
  }

  /** The one write a save performs once its guards have passed. */
  datatype Write = Append(id: Id, text: string) | Create(doc: Doc)

  /** The write `saveMemo` chooses: append to the first memo of the chosen
      group when `isNewGroup` is false, the trimmed group is not blank, and
      that memo's document still exists; create a new document otherwise. */
  function PlanSave(memos: seq<MemoItem>, store: map<Id, Doc>, userId: string,
                    text: string, groupName: string, isNewGroup: bool): (w: Write)
    ensures w.Append? <==>
      !isNewGroup && GetGroupMemoId(memos, groupName).Some? && GetGroupMemoId(memos, groupName).value in store
    ensures w.Append? ==>
      && w.id == GetGroupMemoId(memos, groupName).value
      && w.text == AppendLine(store[w.id].text.GetOr(""), Trim(text))
    ensures w.Create? ==> w.doc == Doc(Some(Trim(text)), Some(Trim(groupName)), Some(userId), Some(DefaultColor))
  {
    TrimIdempotent(groupName);
    var trimmedText := Trim(text);
    var trimmedGroupName := Trim(groupName);
    var existing := if !isNewGroup && trimmedGroupName != "" then GetGroupMemoId(memos, trimmedGroupName) else None;
    if existing.Some? && existing.value in store then
      Append(existing.value, AppendLine(store[existing.value].text.GetOr(""), trimmedText))
    else
      Create(NewMemoDoc(trimmedText, trimmedGroupName, userId))
  }

  /** The store after a write; `newId` is the id the store gives a created document. */
  function ApplyWrite(store: map<Id, Doc>, w: Write, newId: Id): (after: map<Id, Doc>)
    ensures w.Append? && w.id in store ==>
      after.Keys == store.Keys && after[w.id] == store[w.id].(text := Some(w.text))
    ensures w.Append? && w.id !in store ==> after == store
    ensures w.Create? ==> after.Keys == store.Keys + {newId} && after[newId] == w.doc
    ensures forall id :: id in store && id != (if w.Append? then w.id else newId) ==> id in after && after[id] == store[id]
  {
    match w
    case Append(id, text) => if id in store then store[id := store[id].(text := Some(text))] else store
    case Create(doc) => store[newId := doc]
  }

  /** The append path: only the text of the group's first memo changes, to
      its old text, a newline and the trimmed new text; no document is added. */
  lemma AppendPath(memos: seq<MemoItem>, store: map<Id, Doc>, userId: string,
                   text: string, groupName: string, newId: Id)
    requires GetGroupMemoId(memos, groupName).Some? && GetGroupMemoId(memos, groupName).value in store
    ensures var id := GetGroupMemoId(memos, groupName).value;
      var after := ApplyWrite(store, PlanSave(memos, store, userId, text, groupName, false), newId);
      && after.Keys == store.Keys
      && after[id] == store[id].(text := Some(AppendLine(store[id].text.GetOr(""), Trim(text))))
      && forall other :: other in store && other != id ==> after[other] == store[other]
  {
    TrimIdempotent(groupName);
  }

  /** The create path: exactly one new document, holding the trimmed text,
      the trimmed group, the owner and the default colour; nothing else changes. */
  lemma CreatePath(memos: seq<MemoItem>, store: map<Id, Doc>, userId: string,
                   text: string, groupName: string, isNewGroup: bool, newId: Id)
    requires newId !in store
    requires isNewGroup || GetGroupMemoId(memos, groupName).None? || GetGroupMemoId(memos, groupName).value !in store
    ensures var after := ApplyWrite(store, PlanSave(memos, store, userId, text, groupName, isNewGroup), newId);
      && after.Keys == store.Keys + {newId}
      && |after| == |store| + 1
      && after[newId] == Doc(Some(Trim(text)), Some(Trim(groupName)), Some(userId), Some(DefaultColor))
      && forall id :: id in store ==> after[id] == store[id]
  {
    TrimIdempotent(groupName);
    var doc := NewMemoDoc(Trim(text), Trim(groupName), userId);
    assert GetGroupMemoId(memos, Trim(groupName)) == GetGroupMemoId(memos, groupName);
    assert PlanSave(memos, store, userId, text, groupName, isNewGroup) == Create(doc);
    var after := store[newId := doc];
    assert after.Keys == store.Keys + {newId};
  }

  /** Every stored memo has non-empty text. */
  ghost predicate TextsNonEmpty(store: map<Id, Doc>) {
    forall id :: id in store ==> store[id].text.Some? && store[id].text.value != ""
  }

  /** A save whose trimmed text is not blank never stores an empty text. */
  lemma SaveKeepsTextsNonEmpty(memos: seq<MemoItem>, store: map<Id, Doc>, userId: string,
                               text: string, groupName: string, isNewGroup: bool, newId: Id)
    requires Trim(text) != ""
    requires TextsNonEmpty(store)
    ensures TextsNonEmpty(ApplyWrite(store, PlanSave(memos, store, userId, text, groupName, isNewGroup), newId))
  {
    var w := PlanSave(memos, store, userId, text, groupName, isNewGroup);
    if w.Append? {
      assert |w.text| >= |Trim(text)|;
    }
  }

  datatype SaveError = MissingUser | StoreFailure

  /** What a save that returned normally did. */
  datatype Saved = Skipped | Appended(id: Id) | Created(id: Id)

  /** The repository state of one `useMemos` instance: the signed-in user, the
      memos of the latest snapshot, the single-flight `saving` flag, and the
      remote store the snapshot was read from. */
  class MemoRepository {
    const userId: Option<string>
    var memos: seq<MemoItem>
    var saving: bool
    var store: map<Id, Doc>

    constructor (userId: Option<string>, store: map<Id, Doc>)
      ensures this.userId == userId && this.store == store
      ensures memos == [] && !saving
    {
      this.userId := userId;
      this.store := store;
      memos := [];
      saving := false;
    }

    /** The subscription effect: without a user (no id, or an empty one) the list is emptied; with one,
        a delivered snapshot replaces the list. */
    method Sync(snapshot: seq<DocSnapshot>)
      modifies this`memos
      ensures memos == if !Truthy(userId) then [] else MapSnapshot(snapshot)
    {
      if !Truthy(userId) {
        memos := [];
        return;
      }
      memos := MapSnapshot(snapshot);
    }

    /** `saveMemo(text, groupName, isNewGroup)`. `newId` is the id the store
        would give a new document; `writeFails` says whether the store rejects
        the write (the error then propagates after `saving` is reset). */
    method SaveMemo(text: string, groupName: string, isNewGroup: bool, newId: Id, writeFails: bool)
      returns (r: Result<Saved, SaveError>)
      requires newId !in store
      modifies this`saving, this`store
      ensures r == Failure(MissingUser) <==> !Truthy(userId)
      ensures !Truthy(userId) || old(saving) || Trim(text) == "" ==>
        && saving == old(saving) && store == old(store)
        && (Truthy(userId) ==> r == Success(Skipped))
      ensures Truthy(userId) && !old(saving) && Trim(text) != "" ==>
        var w := PlanSave(memos, old(store), userId.value, text, groupName, isNewGroup);
        && !saving
        && (writeFails ==> store == old(store) && r == Failure(StoreFailure))
        && (!writeFails ==> (store == ApplyWrite(old(store), w, newId)
              && r == Success(if w.Append? then Appended(w.id) else Created(newId))))
    {
      if !Truthy(userId) {
        return Failure(MissingUser);
      }
      if saving {
        return Success(Skipped);
      }
      var trimmedText := Trim(text);
      var trimmedGroupName := Trim(groupName);
      if trimmedText == "" {
        return Success(Skipped);
      }

      saving := true;

      if !isNewGroup && trimmedGroupName != "" {
        var existingMemoId := GetGroupMemoId(memos, trimmedGroupName);
        if existingMemoId.Some? {
          var id := existingMemoId.value;
          if id in store {
            var existingText := store[id].text.GetOr("");
            var newText := AppendLine(existingText, trimmedText);
            if writeFails {
              saving := false;
              return Failure(StoreFailure);
            }
            store := store[id := store[id].(text := Some(newText))];
            saving := false;
            return Success(Appended(id));
          }
        }
      }

      if writeFails {
        saving := false;
        return Failure(StoreFailure);
      }
      store := store[newId := NewMemoDoc(trimmedText, trimmedGroupName, userId.value)];
      saving := false;
      r := Success(Created(newId));
    }
  }

  /** Saving "b" to group "X" when memo "1" of group "X" holds "a" turns
      memo "1" into "a\nb" and adds no document. */
  lemma AppendExample(newId: Id)
    requires newId != "1"
    ensures var store := map["1" := NewMemoDoc("a", "X", "u")];
      var memos := [MemoItem("1", "a", "X", "u", Some(DefaultColor))];
      ApplyWrite(store, PlanSave(memos, store, "u", "b", "X", false), newId)
        == map["1" := NewMemoDoc("a\nb", "X", "u")]
  {
    var memos := [MemoItem("1", "a", "X", "u", Some(DefaultColor))];
    assert Trim("X") == "X" by { TrimOfTrimmed("X"); }
    assert Trim("b") == "b" by { TrimOfTrimmed("b"); }
    assert GetGroupMemoId(memos, "X") == Some("1");
    var store := map["1" := NewMemoDoc("a", "X", "u")];
    assert PlanSave(memos, store, "u", "b", "X", false) == Append("1", "a\nb");
  }
}
