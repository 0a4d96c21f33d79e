# Zmemo client logic in Dafny

Zmemo is a small memo app over a remote document store. Each memo is a
document with a text, a group name, an owner id and an optional colour. This
project models the logic the client runs around that store and proves what
it promises:

- `wrappers.dfy` (`Wrappers`): `Option` and `Result`. They stand for
  JavaScript's `undefined`/`null` and for a thrown error.
- `js_text.dfy` (`JsText`): `String.prototype.trim` as ECMA-262 defines it.
  The white-space and line-terminator code points are those of sections 12.2
  and 12.3.
- `use_memos.dfy` (`UseMemos`): the `useMemos` hook. It covers:
  - the mapping from a query snapshot to `MemoItem`s;
  - the `groupNames` and `groupColors` views;
  - `getGroupMemoId`;
  - `saveMemo`, with its guards, the append path and the create path.

  `MemoRepository` is a class. It holds the cached `memos`, the `saving`
  flag and the store. The store is a `map` from document id to document,
  and the re-read before an append is a lookup in it.
- `list_screen.dfy` (`ListScreen`): the list screen. It covers:
  - `keyFor`;
  - the grouping loop that builds the rows (`BuildGroups`);
  - the selection state and the row tap;
  - bulk delete and per-row delete.

  The loop is proved equal to a reference function, `GroupsOf`. Partition,
  order, alignment, colour and delete properties are then proved about
  `GroupsOf`.
- `group_selector.dfy` (`GroupSelector`): the group picker. It covers the
  name-priority rule of confirm, the reset after it, and which row shows as
  picked.
- `input_screen.dfy` (`InputScreen`): the compose screen. It covers:
  - the save gate;
  - opening the picker;
  - the picker rows built from `groupNames` and `groupColors`;
  - the state changes after a save.

Effects outside the client are parameters:

- `newId` is the id the store would give a new document.
- `writeFails` says whether the store rejects a save's write.
- `failures` is the set of ids whose delete the store rejects.

JavaScript truthiness is modelled as written. An absent value and the empty
string are both falsy, for user ids as well as for colours.

List rows are keyed by the group name as stored, untrimmed (`keyFor`,
app/list.tsx:35). So `"X"` and `" X"` make two list rows, while `groupNames`,
the picker and the append path treat them as one group.

## Model

| member | source | states |
|---|---|---|
| JsText.Trim | src/hooks/useMemos.ts:108-109 | the result of `trim` neither starts nor ends with white space |
| JsText.TrimSpec | src/hooks/useMemos.ts:108-109 | `trim` removes exactly a blank prefix and a blank suffix and keeps the slice between them |
| JsText.TrimEmptyIffBlank | src/hooks/useMemos.ts:110 | a trimmed string is empty exactly when the original is all white space |
| JsText.TrimIdempotent | src/hooks/useMemos.ts:97-99 | trimming twice is trimming once; `getGroupMemoId` re-trims a name `saveMemo` has already trimmed |
| UseMemos.MapSnapshot | src/hooks/useMemos.ts:46-61 | the memo list keeps the snapshot's order and ids; a missing text, group name or owner becomes `""`; the colour passes through unchanged |
| UseMemos.CreatedDocReadsBack | src/hooks/useMemos.ts:146-152 | a document written by the create path maps back to exactly the memo saved, with the default colour |
| UseMemos.MemoRepository.constructor | src/hooks/useMemos.ts:30-31 | the hook starts with an empty memo list and no save in flight, for the given user over the given store |
| UseMemos.MemoRepository.Sync | src/hooks/useMemos.ts:33-66 | without a (truthy) user id the list is empty; otherwise it is the mapped snapshot |
| UseMemos.GroupNames | src/hooks/useMemos.ts:71-81 | `groupNames` has at most one entry per memo |
| UseMemos.GroupNamesTrimmed | src/hooks/useMemos.ts:71-81 | every entry of `groupNames` is trimmed and non-empty |
| UseMemos.GroupNamesMembers | src/hooks/useMemos.ts:71-81 | a name is in `groupNames` exactly when it is non-empty and some memo's trimmed group name equals it |
| UseMemos.GroupNamesDistinct | src/hooks/useMemos.ts:71-81 | `groupNames` has no duplicates |
| UseMemos.GroupNamesOrdered | src/hooks/useMemos.ts:71-81 | `groupNames` is in the order of each name's first memo |
| UseMemos.GroupColorsOfSpec | src/hooks/useMemos.ts:84-93 | `groupColors` has exactly the non-blank groups that have a memo with a truthy colour; each maps to the colour of the first such memo |
| UseMemos.ComputeGroupColors | src/hooks/useMemos.ts:84-93 | the loop over the memos builds exactly the reference map of first colours |
| UseMemos.GroupColorsWithinGroupNames | src/hooks/useMemos.ts:71-93 | every key of `groupColors` is one of `groupNames` |
| UseMemos.GetGroupMemoId | src/hooks/useMemos.ts:96-101 | nothing for a blank name or when no memo matches; otherwise the id of the first memo whose trimmed group equals the trimmed name |
| UseMemos.GroupMemoIdIffListed | src/hooks/useMemos.ts:96-101 | a name finds a memo exactly when its trimmed form is in `groupNames` |
| UseMemos.AppendLine | src/hooks/useMemos.ts:129-131 | the new text is the old text, a newline and the added line, or just the line when the old text is empty |
| UseMemos.PlanSave | src/hooks/useMemos.ts:116-152 | `saveMemo` appends exactly when the group is not new, its trimmed name finds a memo and that memo's document exists; the append targets that document with its text (or `""`), a newline and the trimmed text, and otherwise a new document holds the trimmed text, the trimmed group name, the user id and the grey colour |
| UseMemos.ApplyWrite | src/hooks/useMemos.ts:135-152 | `updateDoc` changes only the target document's text and adds no document; `addDoc` adds exactly the new document under a fresh id; every other document is unchanged |
| UseMemos.AppendPath | src/hooks/useMemos.ts:116-138 | when the group's first memo still exists in the store, only that document's text changes (to old, newline, trimmed text) and no document is added |
| UseMemos.CreatePath | src/hooks/useMemos.ts:143-152 | otherwise, including when the cached id is missing from the store, exactly one document is added: trimmed text, trimmed group, owner, colour `#9ca3af`; every other document is unchanged |
| UseMemos.SaveKeepsTextsNonEmpty | src/hooks/useMemos.ts:108-152 | a save that passes the blank-text guard never stores an empty text |
| UseMemos.MemoRepository.SaveMemo | src/hooks/useMemos.ts:104-156 | fails without a user; with a save in flight or blank text it changes nothing, returning before `saving` is set; otherwise it performs the planned append or create, or leaves the store unchanged and fails when the write is rejected; `saving` is false afterwards |
| UseMemos.AppendExample | src/hooks/useMemos.ts:116-138 | saving "b" to group "X" whose memo 1 holds "a" turns memo 1 into "a\nb" and adds no document |
| ListScreen.KeyFor | app/list.tsx:35 | the empty group name maps to `__none__`; any other name maps to itself, untrimmed |
| ListScreen.UngroupedSharesKeyWithNoneName | app/list.tsx:35 | a group literally named `__none__` shares the row of ungrouped memos |
| ListScreen.DedupKeepsIds | app/list.tsx:42-53 | skipping repeated ids loses no id |
| ListScreen.DedupKeepsFirst | app/list.tsx:47-53 | each memo the loop keeps is the first memo with its id |
| ListScreen.DedupOrdered | app/list.tsx:47-53 | the kept memos are in the order of their ids' first occurrences |
| ListScreen.DedupUnique | app/list.tsx:42-53 | the kept memos have distinct ids |
| ListScreen.DedupOfUnique | app/list.tsx:42-53 | a list whose ids are distinct is kept whole |
| ListScreen.GroupKeys | app/list.tsx:55-61 | the row keys are exactly the keys of the kept memos, each once |
| ListScreen.GroupKeysOrdered | app/list.tsx:55-61 | the row keys are in the order of each key's first kept memo |
| ListScreen.GroupColor | app/list.tsx:59-65 | a row's colour is truthy exactly when one of its memos has a truthy colour |
| ListScreen.GroupColorSnoc | app/list.tsx:65 | the rule "take the memo's colour when the row has no truthy colour" keeps the row colour equal to the first truthy colour |
| ListScreen.GroupForSnoc | app/list.tsx:57-65 | one memo more leaves other rows alone, opens its row with its own text, id and colour, or appends its text and id to its row |
| ListScreen.AddMemoToRows | app/list.tsx:55-65 | one iteration of the grouping loop keeps the map of rows and the key order equal to those of the memos kept so far |
| ListScreen.BuildGroups | app/list.tsx:37-76 | the grouping loop yields exactly the reference rows `GroupsOf` |
| ListScreen.MemberPosOrdered | app/list.tsx:63-64 | a row's memos keep list order |
| ListScreen.GroupRow | app/list.tsx:55-64 | every row is non-empty and has as many texts as ids; its `p`-th text is that of the memo with its `p`-th id, whose key is the row's key; the label is the first memo's group name; the ids follow list order |
| ListScreen.GroupsCoverIds | app/list.tsx:42-64 | an id appears in some row exactly when some memo has it |
| ListScreen.GroupsIdsDistinct | app/list.tsx:42-64 | no id appears twice across all rows |
| ListScreen.GroupsInOrder | app/list.tsx:55-61 | rows have distinct keys and come in the order of their first memos |
| ListScreen.GroupsColor | app/list.tsx:59-65 | a row's colour is the first truthy colour of its memos; when there is none, it is whatever the row's first memo carries |
| ListScreen.TwoRowsExample | app/list.tsx:37-76 | memos "a" and "b" of group "X" and an ungrouped "c" make two rows: "X" holding ids 1 and 2, then the ungrouped row holding id 3 |
| ListScreen.FirstInIds | app/list.tsx:100-109 | the first memo of the list whose id belongs to the row, if any |
| ListScreen.OpenTarget | app/list.tsx:98-111 | a tap opens a memo of the row, and opens nothing only when no memo of the list belongs to it |
| ListScreen.OpenTargetIsRowStart | app/list.tsx:98-111 | tapping any row of the grouped list opens that row's first memo, its first id |
| ListScreen.DeleteTargets | app/list.tsx:138-140 | the bulk-delete targets are exactly the memos whose key is selected |
| ListScreen.SelectedRowsAreDeleted | app/list.tsx:138-143 | every id of a selected row is deleted |
| ListScreen.DeletedAreInSelectedRows | app/list.tsx:138-143 | when ids are unique, every deleted id belongs to a selected row |
| ListScreen.Removed | app/list.tsx:141-143 | deleting ids removes exactly the ids not rejected and changes no other document |
| ListScreen.RemovedSnoc | app/list.tsx:141-143 | deleting the ids one by one gives the same store as deleting them together |
| ListScreen.Toggled | app/list.tsx:83-93 | toggling flips the given key and leaves every other key as it was |
| ListScreen.ToggleTwice | app/list.tsx:83-93 | toggling the same key twice restores the selection |
| ListScreen.Screen.constructor | app/list.tsx:78-79 | the list starts out of select mode with an empty selection, over the given repository |
| ListScreen.Screen.ToggleSelect | app/list.tsx:83-93 | the selection becomes the toggled set |
| ListScreen.Screen.RowPress | app/list.tsx:95-114 | in select mode a tap only toggles the row's key; otherwise it opens the row's first memo, if the row has ids, and leaves the selection alone |
| ListScreen.Screen.EnterSelectMode | app/list.tsx:116-119 | select mode is on and the selection empty |
| ListScreen.Screen.CancelSelect | app/list.tsx:121-124 | select mode is off and the selection empty |
| ListScreen.Screen.DeleteIds | app/list.tsx:141-143 | one delete per id; it succeeds exactly when no delete is rejected, and the deletes that went through stay done |
| ListScreen.Screen.DeleteSelected | app/list.tsx:126-152 | with an empty selection nothing happens; otherwise the memos whose key is selected are deleted, and on success the selection is cleared and select mode left, while on failure both are kept |
| ListScreen.Screen.ConfirmDeleteGroup | app/list.tsx:154-175 | deleting a row deletes exactly the row's ids |
| GroupSelector.ChooseName | src/components/GroupSelectorModal.tsx:37-39 | a non-blank typed name wins, trimmed; else the picked name if present and non-empty; else `""`; the result is empty exactly when the typed name is blank and no non-empty name is picked |
| GroupSelector.ChooseNameOfChosen | src/components/GroupSelectorModal.tsx:37-39 | a chosen typed name is already trimmed, so choosing again yields the same name |
| GroupSelector.Selector.constructor | src/components/GroupSelectorModal.tsx:32-33 | the picker starts with an empty field and no picked group |
| GroupSelector.Selector.SetNewName | src/components/GroupSelectorModal.tsx:132 | typing sets the field and leaves the pick alone |
| GroupSelector.Selector.Confirm | src/components/GroupSelectorModal.tsx:36-45 | hands on the chosen name, then clears the field and the pick, so no row shows as picked |
| GroupSelector.Selector.IsSelected | src/components/GroupSelectorModal.tsx:68 | a row shows as picked exactly when the picked name is present and equals the row's name |
| GroupSelector.Selector.GroupSelect | src/components/GroupSelectorModal.tsx:47-53 | the picked name becomes exactly the given name, and only that row shows as picked (the `isSelected` test of line 68) |
| InputScreen.IsSaveDisabled | app/index.tsx:35-38 | saving is disabled exactly when there is no (truthy) user id or the text is all white space |
| InputScreen.GroupsWithColors | app/index.tsx:25-30 | one picker row per group name, same order; a row has a colour exactly when the name is in the colour map, and then that colour |
| InputScreen.PickerRowsOfMemos | app/index.tsx:25-30 | over the memos, the picker rows are `groupNames` in order, each coloured with the first truthy colour of the group's memos, and uncoloured when none has one |
| InputScreen.Screen.constructor | app/index.tsx:32-33 | the input screen starts with empty text and the picker hidden, over the given repository |
| InputScreen.Screen.SetText | app/index.tsx:82 | typing sets the text and leaves the picker as it was |
| InputScreen.Screen.OpenSelector | app/index.tsx:40-43 | the picker opens unless saving is disabled, in which case nothing changes |
| InputScreen.Screen.HandleSelectGroup | app/index.tsx:45-54 | saves the text into the chosen group; when the save returns normally (including the no-op cases) the text is cleared and the picker hidden; when it throws, both are kept; without a user, with a save in flight or with blank text the store and `saving` are untouched; otherwise `saving` ends false, a rejected write leaves the store as it was, and an accepted one applies the planned append or create |

## Left out

- The live query is left out: subscribing and unsubscribing, the owner filter, `createdAt` and the server timestamp. The snapshot is an input, already ordered newest first.
- `saving` is a plain field and operations run one after another. Asynchronous React state, interleavings, and the race between the existence check and the update are left out.
- UseMemos.MemoRepository.SaveMemo: the store read before an append cannot fail in the model; only the write (`writeFails`) can.
- The concurrent deletes behind `Promise.all` are modelled as a sequential loop. Rejected ids stay and the others are deleted, whatever the order.
- Confirmation dialogs are left out. Bulk delete and per-row delete are modelled on the confirmed path, since cancelling does nothing.
- Log output is left out.
- Navigation is left out. A row tap returns the id it would open, and `HandleSelectGroup` does not model the move to the list.
- Swipeable references and closing rows are left out. They are presentation only.
- Styles, default gray display colours and the preview that joins a row's texts are left out.
- The sort in the row tap is left out. Its comparator always returns 0 and its result is never used.
- Authentication, the app layout, the ad banner and the detail screen are not part of this model.
- Strings are sequences of code points. The app does not normalise case or Unicode, and neither does the model.
