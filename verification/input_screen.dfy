/** The compose screen: a text field, a save button that opens the group
    picker, and the save that runs once a group is chosen. */
module InputScreen {
  import opened Wrappers
  import opened JsText
  import opened UseMemos
  import opened GroupSelector

  /** The save button is disabled without a user or with blank text. */
  function IsSaveDisabled(userId: Option<string>, text: string): (disabled: bool)
    ensures disabled <==> !Truthy(userId) || IsBlank(text)
  {
    TrimEmptyIffBlank(text);
    !Truthy(userId) || |Trim(text)| == 0
  }

  /** The picker's rows: each group name with its colour, when it has one. */
  function GroupsWithColors(names: seq<string>, colors: map<string, string>): (rows: seq<GroupInfo>)
    ensures |rows| == |names|
    ensures forall i :: 0 <= i < |names| ==> rows[i].name == names[i]
    ensures forall i :: 0 <= i < |names| ==> (rows[i].color.Some? <==> names[i] in colors)
    ensures forall i :: 0 <= i < |names| && names[i] in colors ==> rows[i].color == Some(colors[names[i]])
  {
    seq(|names|, i requires 0 <= i < |names| =>
      GroupInfo(names[i], if names[i] in colors then Some(colors[names[i]]) else None))
  }

  /** Over the memos, the picker lists every group once, in the order of its
      first memo, and colours a row with the colour of the group's first
      memo that has one. */
  lemma PickerRowsOfMemos(memos: seq<MemoItem>)
    ensures var rows := GroupsWithColors(GroupNames(memos), GroupColorsOf(memos));
      && |rows| == |GroupNames(memos)|
      && (forall i :: 0 <= i < |rows| ==> rows[i].name == GroupNames(memos)[i])
      && (forall i :: 0 <= i < |rows| ==> (rows[i].color.Some? <==> FirstColored(memos, rows[i].name) < |memos|))
      && (forall i :: 0 <= i < |rows| && rows[i].color.Some? ==>
            rows[i].color == memos[FirstColored(memos, rows[i].name)].color)
  {
    var names, colors := GroupNames(memos), GroupColorsOf(memos);
    GroupNamesTrimmed(memos);
    GroupColorsOfSpec(memos);
  }

  /** The compose screen's own state over a memo repository. */
  class Screen {
    const repo: MemoRepository
    var text: string
    var selectorVisible: bool

    constructor (repo: MemoRepository)
      ensures this.repo == repo && text == "" && !selectorVisible
    {
      this.repo := repo;
      text := "";
      selectorVisible := false;
    }

    /** Typing into the text field. */
    method SetText(t: string)
      modifies this`text
      ensures text == t && selectorVisible == old(selectorVisible)
    {
      text := t;
    }

    /** The save button opens the picker, unless saving is disabled. */
    method OpenSelector()
      modifies this`selectorVisible
      ensures IsSaveDisabled(repo.userId, text) ==> selectorVisible == old(selectorVisible)
      ensures !IsSaveDisabled(repo.userId, text) ==> selectorVisible
    {
      if IsSaveDisabled(repo.userId, text) {
        return;
      }
      selectorVisible := true;
    }

    /** A group chosen in the picker: the text is saved into that group; once
        the save returns the field is cleared and the picker closed, and when
        it fails both are kept. */
    method HandleSelectGroup(groupName: string, newId: Id, writeFails: bool)
      returns (r: Result<Saved, SaveError>)
      requires newId !in repo.store
      modifies this`text, this`selectorVisible, repo`saving, repo`store
      ensures r.Success? ==> text == "" && !selectorVisible
      ensures r.Failure? ==> text == old(text) && selectorVisible == old(selectorVisible)
      ensures r.Failure? <==> !Truthy(repo.userId) || (writeFails && !old(repo.saving) && !IsBlank(old(text)))
      ensures Truthy(repo.userId) && !old(repo.saving) && !IsBlank(old(text)) && !writeFails ==>
        repo.store == ApplyWrite(old(repo.store), PlanSave(repo.memos, old(repo.store), repo.userId.value, old(text), groupName, false), newId)
      ensures !Truthy(repo.userId) || old(repo.saving) || IsBlank(old(text)) ==>
        repo.store == old(repo.store) && repo.saving == old(repo.saving)
      ensures Truthy(repo.userId) && !old(repo.saving) && !IsBlank(old(text)) ==>
        !repo.saving && (writeFails ==> repo.store == old(repo.store))
    {
      TrimEmptyIffBlank(text);
      r := repo.SaveMemo(text, groupName, false, newId, writeFails);
      if r.Success? {
        text := "";
        selectorVisible := false;
      }
    }
  }
}
