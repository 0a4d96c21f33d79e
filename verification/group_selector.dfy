/** The group picker shown before a memo is saved: the user either types a
    new group name or picks an existing group, then confirms. */
module GroupSelector {
  import opened Wrappers
  import opened JsText

  /** A group offered by the picker, with its colour if it has one. */
  datatype GroupInfo = GroupInfo(name: string, color: Option<string>)

  /** The name a confirm hands on: a typed name wins once trimmed, then the
      picked name, then the empty name ("no group"). */
  function ChooseName(newName: string, selectedName: Option<string>): (r: string)
    ensures !IsBlank(newName) ==> r == Trim(newName) && r != ""
    ensures IsBlank(newName) ==> r == selectedName.GetOr("")
    ensures r == "" <==> IsBlank(newName) && (selectedName.None? || selectedName.value == "")
  {
    TrimEmptyIffBlank(newName);
    var trimmedNew := Trim(newName);
    if trimmedNew != "" then trimmedNew
    else if selectedName.Some? && selectedName.value != "" then selectedName.value
    else ""
  }

  /** A typed name is handed on trimmed, so confirming the same input twice
      hands on the same name. */
  lemma ChooseNameOfChosen(newName: string, selectedName: Option<string>)
    requires !IsBlank(newName)
    ensures ChooseName(ChooseName(newName, selectedName), None) == ChooseName(newName, selectedName)
  {
    TrimEmptyIffBlank(newName);
    TrimIdempotent(newName);
    TrimEmptyIffBlank(Trim(newName));
  }

  /** The picker's state: the typed name and the picked group, if any. */
  class Selector {
    var newName: string
    var selectedName: Option<string>

    constructor ()
      ensures newName == "" && selectedName == None
    {
      newName := "";
      selectedName := None;
    }

    /** The row of `name` is shown as picked. */
    predicate IsSelected(name: string): (selected: bool)
      reads this
      ensures selected <==> selectedName.Some? && selectedName.value == name
    {
      selectedName == Some(name)
    }

    /** Typing into the name field. */
    method SetNewName(name: string)
      modifies this`newName
      ensures newName == name && selectedName == old(selectedName)
    {
      newName := name;
    }

    /** Picking a row: exactly that row is shown as picked. */
    method GroupSelect(name: string)
      modifies this`selectedName
      ensures selectedName == Some(name) && newName == old(newName)
      ensures forall other :: IsSelected(other) <==> other == name
    {
      selectedName := Some(name);
    }

    /** Confirming hands on the chosen name and resets the picker: the field
        is cleared and no row is picked. */
    method Confirm() returns (nameToUse: string)
      modifies this
      ensures nameToUse == ChooseName(old(newName), old(selectedName))
      ensures newName == "" && selectedName == None
      ensures forall name :: !IsSelected(name)
    {
      var trimmedNew := Trim(newName);
      if trimmedNew != "" {
        nameToUse := trimmedNew;
      } else if selectedName.Some? && selectedName.value != "" {
        nameToUse := selectedName.value;
      } else {
        nameToUse := "";
      }
      newName := "";
      selectedName := None;
    }
  }
}
