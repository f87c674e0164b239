# YaEAN Organizer: the bone tree, animation editing and naming core in Dafny

YaEAN Organizer is a wxPython editor for EAN animation files and ESK
skeletons. Most of it is widget wiring. This project models the list and
tree logic under the widgets:

- **The bone panel.** The `TreeListCtrl` becomes an ordered forest of
  items, and an item handle becomes its path of child positions. Each item
  holds a bone, a row text, a three-state check box and a selected flag.
  `GetNextItem` is preorder. The model covers:
  - `recalculate_bone_tree` (preorder numbering and the
    parent/child/sibling links, with 65535 for "none");
  - `build_bone_tree` and `get_bone_tree`, and the round trip between
    flattening and rebuilding;
  - check propagation (`check_parent`, `on_checked`);
  - `get_bone_names_index`, `on_delete`, `on_paste`, and the rename
    callback that renames animation nodes.
- **The animation panel.** The list control becomes a sequence of rows
  `(index text, name, frame text, selected)`. The model covers:
  - `add_animation`, `on_delete` and `on_paste` (selection expansion and
    destination routing);
  - `transform` (find-or-create a channel) with the offset and scale
    callbacks, and the target-camera offset;
  - keyframe range removal, reversal, L/R mirroring and `reindex`.
- **The helpers.**
  - `get_unique_name` (the `.000` / numeric-suffix loop);
  - the bulk-rename commit loop and the single/bulk dispatch of `rename`;
  - `enable_selected`, and the flag constants;
  - the Python string built-ins these rely on: `str(int)`, `int(str)`,
    `'{0:03d}'.format`, `rsplit('.', 1)`, `split('_')` and `'_'.join`.

Modules, in dependency order:
- `PyStr` (strings.dfy) and `Ean` (ean.dfy, the records);
- `TreeList` and `TreeEdit` (the tree list control);
- `Helpers` (helpers.py);
- `BoneMain` (renumbering and the round trip) and `BonePanel` (the rest
  of bone_main.py, with the class `BoneMainPanel`);
- `AnimEdit` (specification functions on one animation), `AnimLoops` (the
  source's inner loops as methods proved equal to them) and `AnimPanel`
  (the class `AnimMainPanel` and its loops over the selection).

Code that works by mutation is modelled as methods with loops proved against
specification functions. The panels are classes whose fields the handlers
reassign. Dialog answers (`ShowModal` results, entered values), the regex
substitution and the opaque library calls are parameters of the methods.

## Model

| member | source | states |
|---|---|---|
| PyStr.DigitChar | yaean/helpers.py:83 | a digit below 10 becomes the character whose code is `'0'` plus the digit |
| PyStr.NatToStringDigits | yaean/helpers.py:83 | `str(n)` of a natural number is a non-empty run of digits with no leading zero |
| PyStr.Zeros | yaean/helpers.py:83 | the padding is exactly `n` characters, all `'0'` |
| PyStr.PadZeros | yaean/helpers.py:83 | zero-padding keeps a digit string all digits and gives it length `max(len, width)` |
| PyStr.Format03 | yaean/helpers.py:83 | `'{0:03d}'.format(k)` holds no `.` and has at least three characters, counting the sign of a negative number |
| PyStr.ParseInt | yaean/helpers.py:83 | `int(s)` succeeds exactly on a run of digits with at most one leading sign, and a run of digits parses to its decimal value, negated after a `-` |
| PyStr.DigitsValueSnoc | yaean/helpers.py:83 | appending a digit multiplies the value by ten and adds the digit |
| PyStr.NatToStringValue | yaean/helpers.py:83 | the digits of `str(n)` read back as `n` |
| PyStr.ZerosPrefixValue | yaean/helpers.py:83 | leading zeros do not change the value of a digit string |
| PyStr.ZerosValue | yaean/helpers.py:83 | a run of zeros reads as 0 |
| PyStr.PadZerosValue | yaean/helpers.py:83 | zero-padding does not change the value |
| PyStr.ParseNegative | yaean/helpers.py:83 | `int('-' + digits)` is minus the digits' value |
| PyStr.ParseDigits | yaean/helpers.py:83 | `int(digits)` is the digits' value |
| PyStr.IntToStringParse | yaean/helpers.py:30 | `int(str(i)) == i` for every integer, so the row texts read back |
| PyStr.ParseFormat03 | yaean/helpers.py:83 | `int('{0:03d}'.format(k)) == k` for every integer, so a written suffix is parsed back on the next pass |
| PyStr.LastDot | yaean/helpers.py:78 | the position of the last `.`, with no `.` after it, or -1 exactly when there is none |
| PyStr.RSplitDot | yaean/helpers.py:78 | `rsplit('.', 1)` gives one part exactly when there is no `.`, otherwise two parts joined by that last `.` with no `.` in the second |
| PyStr.RSplitDotOf | yaean/helpers.py:78-83 | splitting `p + '.' + d` with `d` free of dots gives back `[p, d]` |
| PyStr.LastDotAppend | yaean/helpers.py:78 | appending dot-free text does not move the last `.` |
| PyStr.Split | yaean/panels/anim_main.py:489 | `split('_')` gives at least one part and no part holds the separator |
| PyStr.FirstIndex | yaean/panels/anim_main.py:489 | the first occurrence of a character, with none before it |
| PyStr.JoinSplit | yaean/panels/anim_main.py:489-497 | `'_'.join(name.split('_')) == name` |
| PyStr.SplitJoin | yaean/panels/anim_main.py:489-497 | splitting a join of separator-free parts gives the parts back |
| PyStr.SplitCons | yaean/panels/anim_main.py:489 | a separator-free head splits off as the first part |
| PyStr.FirstIndexAfter | yaean/panels/anim_main.py:489 | the first separator after a separator-free head is at the head's length |
| Helpers.CandidateShape | yaean/helpers.py:78-83 | a written name splits back into the original prefix and the written number, so the next pass continues from number + 1 |
| Helpers.CandidateDiffers | yaean/helpers.py:77-85 | every pass writes a name different from the one it started from |
| Helpers.RenamePass | yaean/helpers.py:78-85 | one pass of the loop: `.000` for a name without `.`, the numeric suffix plus one zero-padded to three digits, `.000` for a non-numeric suffix; started on the k-th candidate it writes the (k+1)-th |
| Helpers.PassWritesCandidate | yaean/helpers.py:78-85 | the three branches of one pass together write the name's first candidate |
| Helpers.Ceiling | yaean/helpers.py:77 | a bound above every suffix number taken in `names`, which is why the loop stops |
| Helpers.GetUniqueName | yaean/helpers.py:76-86 | the result is never in `names`; a name not in `names` is returned unchanged; otherwise the result is the first free candidate after every taken one; the text before the last `.` never changes |
| Helpers.Candidate | yaean/helpers.py:79-85 | a candidate is the prefix, a `.`, then a number of at least three characters |
| Helpers.UniqueName | yaean/helpers.py:76-86 | the settled name is not taken, keeps the text before the last `.`, and is the name itself when that is free |
| Helpers.Settled | yaean/helpers.py:77-86 | when the loop stops, its name has the four properties `GetUniqueName` promises |
| Helpers.FreeFrom | yaean/helpers.py:77-85 | the first free candidate from a number on is not in `names` and keeps the prefix |
| Helpers.FreeFromFirst | yaean/helpers.py:77-85 | a free candidate after a run of taken ones is the first free one |
| Helpers.CandidatesContain | yaean/helpers.py:77-85 | every number passed is among the candidates tried |
| Helpers.CandidateTaken | yaean/helpers.py:77 | a taken candidate's number lies below the ceiling |
| Helpers.AppendBone | yaean/helpers.py:37-43 | appending bone i succeeds exactly when it is the first bone or its `parent_index` names an item already built (else the lookup raises IndexError), and it adds one handle |
| Helpers.BuildFrom | yaean/helpers.py:36-43 | a successful loop adds one handle per bone |
| Helpers.BuildFromConcat | yaean/helpers.py:36-43 | the loop over `xs + ys` is the loop over `xs` followed by the loop over `ys` |
| Helpers.BuildBoneTree | yaean/helpers.py:33-48 | the loop builds what `BuildFrom` describes, labels rows `"{i}: {name}"`, and then checks every item and the root |
| Helpers.GetBoneTree | yaean/helpers.py:51-57 | the walk lists the bone itself first and never comes back empty |
| Helpers.Label | yaean/helpers.py:39 | the row text `"{i}: {name}"` is at least three characters longer than the name |
| Helpers.LabelReadBack | yaean/helpers.py:39 | the row text reads back: digits whose value is the index, then `": "`, then the name |
| Helpers.ForwardLinksLast | yaean/helpers.py:51-57 | on a list whose links only point forward, the last bone has neither child nor sibling, so the walk from it lists that bone alone |
| Helpers.GetBoneTreeFrom | yaean/helpers.py:51-57 | on such a list the walk from bone `i` lists only bones from index `i` on |
| Helpers.EnableSelected | yaean/helpers.py:69-73 | never enables; the item ends disabled exactly when it was disabled, the selection is empty, or `single` is set with more than one selected |
| Helpers.EnableCopy | yaean/panels/bone_main.py:111-115 | paste is enabled exactly when there is a clipboard and `enable_selected` leaves the item enabled |
| Helpers.BulkCallsFree | yaean/helpers.py:116-121 | at most one callback per object; no callback gets a new name already in `names`; each callback gets an item of `selected` |
| Helpers.CommitBulkRename | yaean/helpers.py:116-121 | an object whose substituted name is in `names` keeps its name, every other takes the substituted name, and `rename_func` is called in order with `selected[i]`, old and new name |
| Helpers.BulkStep | yaean/helpers.py:116-121 | one loop step adds a callback exactly when the substituted name is free |
| Helpers.Rename | yaean/helpers.py:89-129 | a declined dialog changes nothing; one object takes the entered name with one callback; several objects follow the bulk commit rule |
| TreeList.ChildPath | yaean/panels/bone_main.py:137 | the handle of child j of an item is valid and designates that child |
| TreeList.KidsAt | yaean/panels/bone_main.py:137 | the children found by handle are the item's children |
| TreeList.ParentPath | yaean/panels/bone_main.py:91 | `GetItemParent` of a valid handle is the root or a valid handle whose child it is |
| TreeList.PathsItemLength | yaean/panels/bone_main.py:123-127 | preorder visits as many items as a subtree holds |
| TreeList.PathsFromLength | yaean/panels/bone_main.py:123-127 | the same for a run of siblings |
| TreeList.PathsItemShape | yaean/panels/bone_main.py:123-127 | preorder of a subtree starts at its root, visits each item once and stays below it |
| TreeList.PathsFromShape | yaean/panels/bone_main.py:123-127 | preorder of a sibling run starts at its first item, visits each item once and stays inside the run |
| TreeList.PathsFromHead | yaean/panels/bone_main.py:118 | `GetFirstItem` is the first top-level item |
| TreeList.PathsItemValid | yaean/panels/bone_main.py:123-127 | every handle preorder reaches in a subtree is valid |
| TreeList.PathsFromValid | yaean/panels/bone_main.py:123-127 | the same for a run of siblings |
| TreeList.PreorderValid | yaean/panels/bone_main.py:123-127 | the `GetNextItem` walk visits every item once, through valid handles |
| TreeList.Graft | yaean/helpers.py:38-42 | appending items under the root adds them all to the top level; appending under an item keeps the top-level length |
| TreeList.GraftNothing | yaean/helpers.py:38-42 | appending nothing changes nothing |
| TreeList.GraftGraft | yaean/helpers.py:38-42 | two appends under one item are one append of both runs |
| TreeList.GraftKids | yaean/helpers.py:38-42 | `AppendItem` adds the new items after the existing children |
| TreeList.GraftInto | yaean/helpers.py:38-42 | appending an item, then children under it, is appending the item with those children |
| TreeList.CheckAllFrom | yaean/helpers.py:48 | `CheckItemRecursively` keeps the top-level length and checks every top-level item, keeping its bone (the children are handled by the recursive call) |
| TreeList.CheckAllItem | yaean/helpers.py:48 | it checks every item and keeps its bone and child count |
| TreeEdit.ShapeRefl | yaean/panels/bone_main.py:125-126 | every forest has its own shape |
| TreeEdit.ShapeTrans | yaean/panels/bone_main.py:125-126 | having the same shape is transitive |
| TreeEdit.ShapeSym | yaean/panels/bone_main.py:125-126 | having the same shape is symmetric |
| TreeEdit.ShapeValid | yaean/panels/bone_main.py:125-126 | same-shape forests have the same valid handles |
| TreeEdit.ShapePathsItem | yaean/panels/bone_main.py:125-126 | same-shape subtrees have the same preorder |
| TreeEdit.ShapePathsFrom | yaean/panels/bone_main.py:125-126 | same-shape sibling runs have the same preorder |
| TreeEdit.Apply | yaean/panels/bone_main.py:125-126 | setting an item's data, text, check state or selection keeps its children |
| TreeEdit.EditF | yaean/panels/bone_main.py:125-126 | editing one item keeps the top-level length |
| TreeEdit.EditShape | yaean/panels/bone_main.py:125-126 | editing one item keeps the tree's shape |
| TreeEdit.EditAt | yaean/panels/bone_main.py:125-126 | editing one item changes that item and no other |
| TreeEdit.ChildStates | yaean/panels/bone_main.py:96 | the state of child k seen through the parent is the state at the child's handle |
| TreeEdit.SetStateOf | yaean/panels/bone_main.py:97-99 | `CheckItem` changes the state of that item only, and keeps its bone, text and selection |
| TreeEdit.SetStateShape | yaean/panels/bone_main.py:97-99 | `CheckItem` changes no handle, and changes the hidden root's state only when the root itself is checked |
| TreeEdit.ShapeCons | yaean/helpers.py:38-42 | an item whose children have the same shape, in front of a same-shape run, keeps the shape |
| TreeEdit.SetStateChildren | yaean/panels/bone_main.py:96 | checking an item that is not a child of `q` does not change whether all of `q`'s children are in a state |
| TreeEdit.SelectedIn | yaean/panels/bone_main.py:161 | `GetSelections` lists exactly the selected items |
| TreeEdit.SetAllOf | yaean/panels/bone_main.py:166-167 | checking the selection sets exactly the listed items and keeps the rest |
| TreeEdit.PrefixValid | yaean/panels/bone_main.py:91-100 | every ancestor of a valid handle is valid |
| TreeEdit.SizesShift | yaean/panels/bone_main.py:300-306 | counting items from the same position in a longer run gives the same count |
| TreeEdit.SizesConcatFrom | yaean/panels/bone_main.py:300-306 | item counts add over concatenated runs |
| TreeEdit.SizesConcat | yaean/panels/bone_main.py:300-306 | the same from position 0 |
| TreeEdit.DeleteSize | yaean/panels/bone_main.py:303 | `DeleteItem` strictly lowers the number of items, so the delete walk ends |
| TreeEdit.SizesSplice | yaean/panels/bone_main.py:303 | the item count of a run with one item spliced in |
| TreeEdit.UpdateSplice | yaean/panels/bone_main.py:303 | replacing one item of a run is splicing it in between the run's two halves |
| TreeEdit.GraftKeeps | yaean/panels/bone_main.py:349-351 | appending items keeps every existing item and its handle |
| TreeEdit.GraftNew | yaean/panels/bone_main.py:349-351 | the appended item is the parent's new last child |
| TreeEdit.ChildBound | yaean/panels/bone_main.py:137 | a valid child handle names an existing child |
| BoneMain.LinkedBone | yaean/panels/bone_main.py:124-142 | the renumbered bone keeps the item's name and gets its preorder index |
| BoneMain.Linked | yaean/panels/bone_main.py:134-142 | the links read from the control keep the bone's name and give the index the first loop assigned |
| BoneMain.RecalculateBoneTree | yaean/panels/bone_main.py:117-157 | both loops return the preorder flattening: the items numbered 0..n-1 in `GetNextItem` order with links read through `GetItemParent`, `GetFirstChild` and `GetNextSibling`; returns `(old_length, n)` |
| BoneMain.NumberedSplit | yaean/panels/bone_main.py:121-128 | the first loop's numbering splits over a concatenated walk |
| BoneMain.LinkedConcat | yaean/panels/bone_main.py:133-146 | the second loop's output joins over a concatenated walk |
| BoneMain.FlattenMatches | yaean/panels/bone_main.py:117-146 | the recursive flattening is what the two loops build, bone by bone |
| BoneMain.FlattenAt | yaean/panels/bone_main.py:133-146 | bone i of the flattening is what the second loop appends at step i |
| BoneMain.BridgeItem | yaean/panels/bone_main.py:133-146 | flattening a subtree gives, item by item, the bones the loop reads from the control |
| BoneMain.BridgeFrom | yaean/panels/bone_main.py:133-146 | the same for a run of siblings |
| BoneMain.LinksConcat | yaean/panels/bone_main.py:140-142 | the link invariant joins over concatenated runs |
| BoneMain.FlattenItemLinks | yaean/panels/bone_main.py:140-142 | in a flattened subtree every parent comes earlier, a first child comes right after its parent, and a next sibling comes later |
| BoneMain.LinksConcatHead | yaean/panels/bone_main.py:140-142 | a head bone whose links fit joins the invariant of the run after it |
| BoneMain.FlattenFromLinks | yaean/panels/bone_main.py:140-142 | the link invariant for a run of siblings |
| BoneMain.FlattenLinks | yaean/panels/bone_main.py:121-142 | after renumbering, bone k has index k, a parent index below k or 65535, a child index k+1 or 65535, and a later sibling index or 65535 |
| BoneMain.FlattenForward | yaean/helpers.py:51-57 | the renumbered list only links forward, so `get_bone_tree` ends on it |
| BoneMain.FlattenFromParts | yaean/panels/bone_main.py:133-146 | a flattened sibling run is the first item's bone, its flattened children, then the rest of the run |
| BoneMain.RebuiltItem | yaean/helpers.py:36-43 | a rebuilt item's children have the shape of the original item's children |
| BoneMain.RebuiltFrom | yaean/helpers.py:36-43 | a rebuilt run of siblings has the shape of the original run |
| BoneMain.Rebuilt | yaean/helpers.py:33-48 | `build_bone_tree` on the renumbered list gives a tree of the original shape, so every old handle is a handle of the new tree |
| BoneMain.WalkStep | yaean/helpers.py:51-57 | when the child walk and the sibling walk give the two consecutive runs, `get_bone_tree` from a bone gives the whole slice |
| BoneMain.WalkFacts | yaean/helpers.py:51-57 | in a flattened list, the child and sibling links of a bone point at the starts of its subtree and of the rest of its run |
| BoneMain.WalkFrom | yaean/helpers.py:51-57 | `get_bone_tree` from the first bone of a flattened sibling run lists that run in index order |
| BoneMain.WalkChild | yaean/helpers.py:53-54 | the walk through `child_index` lists the subtree below the bone |
| BoneMain.WalkSibling | yaean/helpers.py:55-56 | the walk through `sibling_index` lists the rest of the run |
| BoneMain.WalkFlatten | yaean/helpers.py:51-57 | `get_bone_tree` from bone 0 of a renumbered skeleton lists every bone in index order |
| BoneMain.ItemOpen | yaean/helpers.py:36-43 | building a bone appends its item under its parent's handle and records the new handle |
| BoneMain.ItemClose | yaean/helpers.py:36-43 | building the subtree after its head is the head item with its children appended below it |
| BoneMain.BuildItemRoundTrip | yaean/helpers.py:33-43 | building from a flattened subtree appends that same subtree under the parent's handle and records its handles in preorder |
| BoneMain.TargetClosed | yaean/helpers.py:36-43 | building item after item of a sibling run appends the whole rebuilt run under the handle |
| BoneMain.FromStep | yaean/helpers.py:36-43 | after one subtree of a run is built, the next one starts with the right handle and bone count |
| BoneMain.FromCloseItems | yaean/helpers.py:38-42 | appending the run's first subtree and then the rest is appending the whole run |
| BoneMain.FromCloseHandles | yaean/helpers.py:43 | the same for the recorded handles |
| BoneMain.BuildFromRoundTrip | yaean/helpers.py:33-43 | building from a flattened sibling run reaches the state that appends every rebuilt subtree in turn |
| BoneMain.FromHead | yaean/helpers.py:36-43 | building a run is building its first subtree, then the rest from the state after it |
| BoneMain.FromTurnRun | yaean/helpers.py:36-43 | given the first subtree's round trip, the loop continues with the rest of the run |
| BoneMain.FromTurnClose | yaean/helpers.py:36-43 | the expected state after the first subtree, continued, is the expected state of the whole run |
| BoneMain.RebuildRoundTrip | yaean/panels/bone_main.py:117-146 | for a single-root tree, `build_bone_tree` on the renumbered list gives back the same ordered tree, with handles in preorder |
| BonePanel.CheckFromKeeps | yaean/panels/bone_main.py:90-100 | the upward walk changes only the states of the ancestors it visits |
| BonePanel.CheckFromChildren | yaean/panels/bone_main.py:96 | the walk does not change whether the children of a deeper item are all in a state |
| BonePanel.CheckFromSettles | yaean/panels/bone_main.py:90-100 | every ancestor the walk reaches before an unchecked one ends CHECKED if all its children are checked and UNDETERMINED otherwise; ancestors past the stop keep their state |
| BonePanel.CheckFrom | yaean/panels/bone_main.py:90-100 | the upward walk changes check states only: the tree keeps its shape |
| BonePanel.CheckUp | yaean/panels/bone_main.py:90-100 | `check_parent` keeps the tree's shape and never changes the box of the item it starts from |
| BonePanel.GroupState | yaean/panels/bone_main.py:162-165 | the state given to a selection of several items is CHECKED or UNCHECKED, and UNCHECKED exactly when the clicked box was not unchecked and no other selected item is unchecked |
| BonePanel.AfterClick | yaean/panels/bone_main.py:159-172 | the click handler changes check states only: the tree keeps its shape |
| BonePanel.OnCheckedAsWritten | yaean/panels/bone_main.py:159-172 | the handler as written (old state never tested) likewise keeps the tree's shape |
| BonePanel.ClickUndone | yaean/panels/bone_main.py:159-172 | as written: clicking an unchecked item among several selected items, none of the others unchecked, leaves the clicked item unchecked |
| BonePanel.ClickKept | yaean/panels/bone_main.py:159-172 | with the old state tested: the clicked item stays checked or undetermined, and every other selected item that is not an ancestor of it is checked |
| BonePanel.ClickUndoneExample | yaean/panels/bone_main.py:164 | two selected root bones, the clicked one just checked: as written it is unchecked again, while the old-state test keeps it checked |
| BonePanel.IndexMerge | yaean/panels/bone_main.py:102-109 | `update` with a sub-index is the same as indexing on top of the current dictionary |
| BonePanel.IndexConcat | yaean/panels/bone_main.py:102-109 | indexing a concatenated walk is indexing the second part after the first |
| BonePanel.IndexLast | yaean/panels/bone_main.py:102-109 | a name is in the index exactly when some visited item has it; it maps to the last such item; a name never visited keeps its old entry |
| BonePanel.Index | yaean/panels/bone_main.py:102-109 | indexing never drops a key already present (which handle each name ends on is `IndexLast`) |
| BonePanel.SizeWithin | yaean/panels/bone_main.py:107 | one subtree holds no more items than its run, which bounds the recursion |
| BonePanel.PruneConcat | yaean/panels/bone_main.py:296-306 | deleting the selected items distributes over concatenated runs |
| BonePanel.NoneSelectedConcat | yaean/panels/bone_main.py:301-306 | two runs without selected items join into one |
| BonePanel.PruneClears | yaean/panels/bone_main.py:296-306 | no selected item is left after the deletion |
| BonePanel.Prune | yaean/panels/bone_main.py:296-306 | the deletion never adds top-level items and leaves no selected top-level item |
| BonePanel.PruneIdle | yaean/panels/bone_main.py:301-306 | with nothing selected the deletion changes nothing |
| BonePanel.PruneSplice | yaean/panels/bone_main.py:303 | the deletion on a run with one item spliced in |
| BonePanel.PruneDelete | yaean/panels/bone_main.py:303-304 | deleting one selected item, then restarting, leaves the same final result |
| BonePanel.WalkCovers | yaean/panels/bone_main.py:301-306 | a walk that met no selected item leaves none selected below its start |
| BonePanel.PreorderCovers | yaean/panels/bone_main.py:301-306 | when the walk passes no selected item, none is left |
| BonePanel.UnselectF | yaean/panels/bone_main.py:326 | `UnselectAll` keeps the top-level length |
| BonePanel.UnselectAt | yaean/panels/bone_main.py:326 | it clears each item's selection and changes nothing else |
| BonePanel.UnselectClears | yaean/panels/bone_main.py:326 | no item stays selected |
| BonePanel.IndexValues | yaean/panels/bone_main.py:102-109 | every index entry is a visited handle or an old entry |
| BonePanel.CurrentValid | yaean/panels/bone_main.py:328-329 | every handle in the target's name index is valid |
| BonePanel.MarkAt | yaean/panels/bone_main.py:352-354 | selecting and checking one item changes that item only |
| BonePanel.Mark | yaean/panels/bone_main.py:352-354 | `Select` then `CheckItem` keeps the tree's shape and leaves the item selected and checked |
| BonePanel.PasteReplaces | yaean/panels/bone_main.py:343-355 | a copied bone whose name is in the target's subtree replaces that item's data, selects and checks it, records it under the bone's index, and changes nothing else |
| BonePanel.PasteAppends | yaean/panels/bone_main.py:346-355 | any other copied bone is appended, with a name unique among all bones (unchanged when already unique), under the item pasted for its parent index or else under the target, then selected, checked and recorded; nothing else changes |
| BonePanel.PasteAllKeeps | yaean/panels/bone_main.py:340-355 | an item the copied bones do not replace keeps its data through the paste loop |
| BonePanel.PasteOne | yaean/panels/bone_main.py:341-355 | each pass records the copied bone's index in `temp_bone_list`, and a pass that replaces an existing item adds no item |
| BonePanel.PasteAll | yaean/panels/bone_main.py:340-355 | the loop never forgets a recorded index and records the last copied bone |
| BonePanel.PasteAllShape | yaean/panels/bone_main.py:340-355 | pasting only bones whose names are already under the target adds no item |
| BonePanel.RenameLeavesNone | yaean/panels/bone_main.py:363-366 | after renaming, no node has the old name, and a node has the new name exactly when it had the old or the new one |
| BonePanel.RenameBack | yaean/panels/bone_main.py:363-366 | when no node had the new name, renaming back restores the animations |
| BonePanel.RenameRowAt | yaean/panels/bone_main.py:360-361 | renaming a row sets that item's bone name and its text `"{index}: {name}"` and changes no other item |
| BonePanel.RenameRowShape | yaean/panels/bone_main.py:360-361 | renaming a row keeps the tree's shape and the hidden root's state |
| BonePanel.RenameInNodes | yaean/panels/bone_main.py:364-366 | the node loop renames exactly the nodes named `old_name` |
| BonePanel.RenameInAnimations | yaean/panels/bone_main.py:363-366 | the animation loop does so in every animation |
| BonePanel.RenameNodes | yaean/panels/bone_main.py:364-366 | renaming keeps the node count and every node's bone index and channels |
| BonePanel.RenameAnimations | yaean/panels/bone_main.py:363-366 | renaming keeps the animation count and every animation's name, frame count and node count |
| BonePanel.RenameFuncOn | yaean/panels/bone_main.py:360-366 | `rename_func` relabels the row and renames the nodes in every animation |
| BonePanel.RenameCallStep | yaean/helpers.py:93-94 | setting the bone's name and then calling `rename_func` gives the renamed row |
| BonePanel.ApplyRenames | yaean/helpers.py:116-121 | the rename loop applies the callbacks in order to the rows and the animations |
| BonePanel.RenameRows | yaean/helpers.py:116-121 | the rename callbacks keep the tree's shape and the hidden root's state |
| BonePanel.CheckUpOn | yaean/panels/bone_main.py:90-100 | the `while parent.IsOk()` loop computes the upward walk |
| BonePanel.SetAllOn | yaean/panels/bone_main.py:166-167 | the loop over the selection sets each selected item's state |
| BonePanel.ClickOn | yaean/panels/bone_main.py:159-172 | the handler's steps give the click result, with the old state tested (the corrected reading of line 164; see Findings) |
| BonePanel.PasteBone | yaean/panels/bone_main.py:341-355 | one step of the paste loop |
| BonePanel.PasteOn | yaean/panels/bone_main.py:340-355 | the paste loop over all copied bones |
| BonePanel.BoneMainPanel.constructor | yaean/panels/bone_main.py:17-21 | a panel starts with its control, skeleton and animations and an empty clipboard |
| BonePanel.BoneMainPanel.NamesIndex | yaean/panels/bone_main.py:102-109 | `get_bone_names_index` maps the name of each item from the start on, through its siblings and their descendants, to its handle, later items winning |
| BonePanel.BoneMainPanel.Recalculate | yaean/panels/bone_main.py:117-157 | the skeleton becomes the flattening, every item holds its renumbered bone and reads `"{index}: {name}"`, and the tree keeps its shape |
| BonePanel.BoneMainPanel.OnDelete | yaean/panels/bone_main.py:296-312 | nothing selected: no change; otherwise the selected items and their descendants go, the bones are renumbered, and the reported count is old length minus new |
| BonePanel.BoneMainPanel.CopyBones | yaean/panels/bone_main.py:293-294 | the clipboard holds the copied bones |
| BonePanel.BoneMainPanel.OnPaste | yaean/panels/bone_main.py:314-357 | no change unless exactly one item is selected and the clipboard is full; a declined warning leaves only the selection cleared; otherwise the paste loop runs on the unselected tree and the bones are renumbered |
| BonePanel.BoneMainPanel.PasteCopies | yaean/panels/bone_main.py:340-355 | the paste loop on the panel's tree |
| BonePanel.BoneMainPanel.RenameFunc | yaean/panels/bone_main.py:360-366 | relabels the row and renames the nodes in the panel's animations |
| BonePanel.BoneMainPanel.OnRename | yaean/panels/bone_main.py:359-373 | with nothing selected or a declined dialog nothing changes; otherwise `rename` runs with the selected bones and the names of all bones |
| BonePanel.BoneMainPanel.CheckParent | yaean/panels/bone_main.py:90-100 | the panel's tree becomes the upward walk from the item |
| BonePanel.BoneMainPanel.OnChecked | yaean/panels/bone_main.py:159-172 | the panel's tree becomes the click result, with the old state tested (the corrected reading of line 164; see Findings) |
| AnimEdit.SelectedFrom | yaean/helpers.py:60-66 | `get_selected_items` yields exactly the selected rows, in ascending order |
| AnimEdit.FramesReadBack | yaean/panels/anim_main.py:421-422 | the frame column reads back as the animation's `frame_count` |
| AnimEdit.IndexReadBack | yaean/panels/anim_main.py:171-173 | the index column reads back as the row number |
| AnimEdit.TextsReindexed | yaean/panels/anim_main.py:171-173 | after `reindex` every row shows its number, name and frame count |
| AnimEdit.Fresh | yaean/panels/anim_main.py:202 | the inserted copy gets a name not in `names` with the same prefix, keeps its frames and nodes, and keeps a name that was free |
| AnimEdit.Added | yaean/panels/anim_main.py:197-203 | one inserted animation per copy, none named like an animation that existed before |
| AnimEdit.KeepSpan | yaean/panels/anim_main.py:222-224 | positions outside the deleted set survive in order |
| AnimEdit.KeepDropped | yaean/panels/anim_main.py:222-224 | a deleted position contributes nothing |
| AnimEdit.KeptNothing | yaean/panels/anim_main.py:222-224 | deleting nothing keeps the list |
| AnimEdit.KeepFrom | yaean/panels/anim_main.py:222-224 | the survivors from a position are no more than the positions left, and each is an element of the list |
| AnimEdit.Kept | yaean/panels/anim_main.py:222-224 | deletion never lengthens the list and only keeps its elements |
| AnimEdit.GapFree | yaean/panels/anim_main.py:222 | between two consecutive selected rows nothing is selected |
| AnimEdit.RemoveAt | yaean/panels/anim_main.py:223-224 | removing the next selected position from the right keeps the invariant of the loop |
| AnimEdit.DeleteStep | yaean/panels/anim_main.py:222-224 | one step of the reversed loop removes the position it targets, which earlier steps did not shift |
| AnimEdit.RemoveDone | yaean/panels/anim_main.py:222-224 | when the loop ends, the list is the survivors in order |
| AnimEdit.KeptCount | yaean/panels/anim_main.py:222-224 | exactly the selected count is removed |
| AnimEdit.Destinations | yaean/panels/anim_main.py:236-240 | the selection truncated to n copies, then extended by consecutive indices after its last element: exactly n destinations |
| AnimEdit.DestinationsRoute | yaean/panels/anim_main.py:236-283 | the destinations ascend, and each is an existing animation or the next append position |
| AnimEdit.PasteRoute | yaean/panels/anim_main.py:274-283 | a destination below the current count is overwritten, any other one is exactly the next append, and the count grows by one per append |
| AnimEdit.First | yaean/panels/anim_main.py:336-349 | the first position from `lo` that satisfies the test, or None when none does |
| AnimEdit.FirstIs | yaean/panels/anim_main.py:336-349 | a match with no match before it is the first one |
| AnimEdit.FirstNone | yaean/panels/anim_main.py:336-350 | no match gives None |
| AnimEdit.Shift | yaean/panels/anim_main.py:359-362 | offset (and scale, lines 371-374) add (x, y, z) and keep `frame` and `w` |
| AnimEdit.ShiftAllCompose | yaean/panels/anim_main.py:359-362 | two offsets add up; an offset and its negation cancel |
| AnimEdit.ShiftAll | yaean/panels/anim_main.py:340-341 | an offset keeps the keyframe count and every keyframe's frame and `w` |
| AnimEdit.TransformNode | yaean/panels/anim_main.py:338-348 | transforming a node keeps its bone index and bone name |
| AnimEdit.Transformed | yaean/panels/anim_main.py:335-352 | a transform keeps the name, frame count and node count, and changes no node but the first with the bone index |
| AnimEdit.FirstAfterUpdate | yaean/panels/anim_main.py:336-349 | changing the first match to another match keeps it the first match |
| AnimEdit.FirstAfterAppend | yaean/panels/anim_main.py:343-348 | a channel created by the first transform is found by the next |
| AnimEdit.TransformCompose | yaean/panels/anim_main.py:331-352 | two offsets of a bone and flag are one offset by the sum, whether the first one found the channel or created it |
| AnimEdit.TransformUndo | yaean/panels/anim_main.py:331-352 | when the node and channel exist, offsetting back restores the animation |
| AnimEdit.CameraShift | yaean/panels/anim_main.py:404-413 | the camera offset keeps name and frame count |
| AnimEdit.CameraShiftsOrientation | yaean/helpers.py:15-17 | flag 1793 is also the orientation flag, so the camera offset shifts every orientation channel and leaves every other channel alone |
| AnimEdit.CameraCompose | yaean/panels/anim_main.py:404-413 | two camera offsets add up; an offset and its negation cancel |
| AnimEdit.CameraChannels | yaean/panels/anim_main.py:406-413 | the camera offset keeps the channel count and each channel's flag and keyframe count, and leaves a channel of another flag unchanged |
| AnimEdit.OutsideMembers | yaean/panels/anim_main.py:447-451 | the kept keyframes are exactly those before `start` or from `end` on, never more than before |
| AnimEdit.OutsideSnoc | yaean/panels/anim_main.py:448-450 | one filter step keeps a keyframe exactly when it lies outside the range |
| AnimEdit.OutsideIdempotent | yaean/panels/anim_main.py:447-451 | filtering twice is filtering once |
| AnimEdit.StripChannels | yaean/panels/anim_main.py:439-454 | channels of unselected flags stay; a kept channel of a selected flag only arises for a partial range and holds only keyframes outside it; nothing new appears |
| AnimEdit.StripCount | yaean/panels/anim_main.py:439-454 | channels kept plus channels counted as removed equal the channels before |
| AnimEdit.StripIdempotent | yaean/panels/anim_main.py:439-454 | removing the same keyframes twice is removing them once |
| AnimEdit.StripNode | yaean/panels/anim_main.py:436-454 | removal keeps the node's bone index and name and every channel of a flag not selected |
| AnimEdit.Stripped | yaean/panels/anim_main.py:435-454 | removal keeps the animation's name and frame count |
| AnimEdit.StrippedIdempotent | yaean/panels/anim_main.py:435-454 | the same for a whole animation, nodes outside the bone filter untouched |
| AnimEdit.SplitTwo | yaean/panels/anim_main.py:489-492 | a name with `_` has a second part to test |
| AnimEdit.SwapLR | yaean/panels/anim_main.py:489-497 | the swapped name still holds `_` |
| AnimEdit.SwapParts | yaean/panels/anim_main.py:489-497 | the swap changes the second part only, `R` to `L` and `L` to `R`, and keeps any other part |
| AnimEdit.SwapTwice | yaean/panels/anim_main.py:489-497 | swapping twice restores the name |
| AnimEdit.SwapNodes | yaean/panels/anim_main.py:487-497 | the swap keeps the node count and each node's bone index and channels, and every new name still holds `_` |
| AnimEdit.MirrorKey | yaean/panels/anim_main.py:509-515 | mirroring keeps a keyframe's frame and `w` |
| AnimEdit.MirrorTwice | yaean/panels/anim_main.py:504-515 | mirroring the values twice restores them, `b_C_Base` excluded or not |
| AnimEdit.MirrorNode | yaean/panels/anim_main.py:505-515 | mirroring keeps the node's bone index and name, its channel count, and each channel's flag and keyframe count |
| AnimEdit.ReversedShape | yaean/panels/anim_main.py:530-533 | reversal keeps the keyframe count, starts at frame 0, ends at the old span, and carries the values in reverse order |
| AnimEdit.ReversedAscending | yaean/panels/anim_main.py:530-533 | ascending frames stay ascending |
| AnimEdit.ReversedTwice | yaean/panels/anim_main.py:530-533 | reversing twice restores keyframes whose first frame was 0 |
| AnimEdit.Reversed | yaean/panels/anim_main.py:530-533 | reversal keeps the keyframe count and starts at frame 0 |
| AnimEdit.ReversedNodes | yaean/panels/anim_main.py:527-533 | reversal keeps each node's bone index, name and channel count, and leaves channels that can be reversed again |
| AnimLoops.CheckedBonesMembers | yaean/panels/anim_main.py:244-249 | the bone filter (also the one at lines 427-432) holds exactly the bones of items not unchecked |
| AnimLoops.CheckedBoneList | yaean/panels/anim_main.py:244-249 | the `GetNextItem` loop (also the one at lines 427-432) collects the bones of the items not unchecked, in preorder |
| AnimLoops.BoneIndices | yaean/panels/anim_main.py:431 | one index per bone |
| AnimLoops.ShiftKeyframes | yaean/panels/anim_main.py:340-341 | the keyframe loop applies the offset to each keyframe |
| AnimLoops.TransformAnimation | yaean/panels/anim_main.py:336-352 | the node and channel loops compute the transform, and report whether a node with the bone index exists |
| AnimLoops.CameraOffsetChannels | yaean/panels/anim_main.py:406-413 | the channel loop shifts the channels with flag 1793 and counts them |
| AnimLoops.CameraOffset | yaean/panels/anim_main.py:405-413 | the same over all nodes of an animation |
| AnimLoops.OutsideKeyframes | yaean/panels/anim_main.py:447-451 | the filter loop keeps the keyframes outside the range, in order |
| AnimLoops.StripNodeChannels | yaean/panels/anim_main.py:439-454 | the channel loop computes the removal and counts the channels dropped whole |
| AnimLoops.StripAnimation | yaean/panels/anim_main.py:436-454 | the node loop skips nodes outside the bone filter and strips the others |
| AnimLoops.SwapNames | yaean/panels/anim_main.py:488-501 | the swap loop stops at the first node whose bone index is -1, with the nodes up to it swapped; otherwise it swaps all |
| AnimLoops.SwapExtend | yaean/panels/anim_main.py:488-497 | one more swapped node extends the swapped prefix |
| AnimLoops.MirrorKeyframes | yaean/panels/anim_main.py:509-515 | the keyframe loop negates `x` of position keyframes and `y`, `z` of orientation keyframes |
| AnimLoops.MirrorAll | yaean/panels/anim_main.py:505-515 | the node loop mirrors every node, skipping `b_C_Base` when excluded |
| AnimLoops.ReverseKeyframes | yaean/panels/anim_main.py:530-533 | `reverse()` then `frame := last - frame` computes the reversal |
| AnimLoops.ReverseAll | yaean/panels/anim_main.py:527-533 | the loops reverse every channel of every node |
| AnimPanel.AnimMainPanel.constructor | yaean/panels/anim_main.py:23-27 | a panel starts showing its animations, nothing selected, clipboard empty |
| AnimPanel.AnimMainPanel.CopyAnimation | yaean/panels/anim_main.py:117-118 | the clipboard holds the copied animations |
| AnimPanel.AnimMainPanel.Reindex | yaean/panels/anim_main.py:171-173 | every row's index column becomes its number, nothing else changes, and the rows show the animations again |
| AnimPanel.AnimMainPanel.AddAnimation | yaean/panels/anim_main.py:184-209 | no change without a selection or a clipboard; otherwise the copies, with unique names, go in consecutively at the first selected row, or after the last when appending, and exactly they are selected |
| AnimPanel.AnimMainPanel.OnDelete | yaean/panels/anim_main.py:217-226 | exactly the selected animations go, the survivors keep their order, the count is the number selected, and nothing stays selected |
| AnimPanel.AnimMainPanel.OnPaste | yaean/panels/anim_main.py:228-297 | no change without a selection or a clipboard; the destinations become the selection; a declined warning pastes nothing; otherwise each destination below the count is merged in place and each other is appended as a loaded copy with a unique name, and no other animation changes |
| AnimPanel.AnimMainPanel.Transform | yaean/panels/anim_main.py:331-356 | each selected animation is transformed, and the skipped ones are reported by name |
| AnimPanel.AnimMainPanel.OnSetOffset | yaean/panels/anim_main.py:358-368 | a declined dialog or an empty selection changes nothing; otherwise the position channels are offset |
| AnimPanel.AnimMainPanel.OnSetScale | yaean/panels/anim_main.py:370-380 | the same for the scale channels, which are offset by addition as well |
| AnimPanel.AnimMainPanel.OnSetTargetCameraOffset | yaean/panels/anim_main.py:395-414 | the selected animations get the camera offset, and the count of shifted channels is reported |
| AnimPanel.AnimMainPanel.OnRemoveKeyframes | yaean/panels/anim_main.py:416-457 | the selected animations are stripped, dropping whole channels when several are selected or the range is the whole animation, and the dropped channels are counted (the intended handler; see Findings) |
| AnimPanel.AnimMainPanel.OnMirror | yaean/panels/anim_main.py:474-517 | all names swapped and values mirrored, with the count reported; or a stop at the first node with bone index -1, with the earlier animations swapped, the node reached swapped and nothing mirrored |
| AnimPanel.AnimMainPanel.OnReverse | yaean/panels/anim_main.py:519-535 | every selected animation is reversed, and their count is reported |
| AnimPanel.SelectOnly | yaean/panels/anim_main.py:241-242 | exactly the destination rows end selected |
| AnimPanel.TextsSelect | yaean/panels/anim_main.py:241-242 | selecting rows does not change what they show |
| AnimPanel.PasteSelection | yaean/panels/anim_main.py:236-288 | routes the copies as `on_paste` does, after the selection is set and the warning answered |
| AnimPanel.PasteCopies | yaean/panels/anim_main.py:272-288 | the copy loop merges each copy into an existing destination or appends it, and no other animation changes |
| AnimPanel.PasteOne | yaean/panels/anim_main.py:274-287 | one step of the copy loop keeps the loop's invariant |
| AnimPanel.Targets | yaean/panels/anim_main.py:274-283 | what each destination ends up holding |
| AnimPanel.PasteTurn | yaean/panels/anim_main.py:274-283 | merging in place or appending moves the loop's invariant one copy on |
| AnimPanel.ReachedUpdate | yaean/panels/anim_main.py:276-277 | a merge in place keeps the destinations already written |
| AnimPanel.ReachedAppend | yaean/panels/anim_main.py:279-283 | so does an append |
| AnimPanel.KeptUpdate | yaean/panels/anim_main.py:276-277 | a merge in place changes no other animation |
| AnimPanel.KeptAppend | yaean/panels/anim_main.py:279-283 | nor does an append |
| AnimPanel.MergeRow | yaean/panels/anim_main.py:286-287 | after a merge the row shows the new frame count and stays selected |
| AnimPanel.AppendRow | yaean/panels/anim_main.py:284-287 | an appended row shows the appended animation |
| AnimPanel.PasteStep | yaean/panels/anim_main.py:274-276 | a destination not yet written still holds its original animation |
| AnimPanel.Deselect | yaean/panels/anim_main.py:190-191 | the loop deselects the selected rows and changes nothing else |
| AnimPanel.DeselectAll | yaean/panels/anim_main.py:190-191 | afterwards no row is selected and the texts are unchanged |
| AnimPanel.Renumber | yaean/panels/anim_main.py:171-173 | the reindex loop rewrites every index column |
| AnimPanel.AddCopies | yaean/panels/anim_main.py:190-208 | the copies go in at the insertion index, in copy order, and exactly they end selected |
| AnimPanel.InsertCopies | yaean/panels/anim_main.py:198-207 | the insertion loop puts the uniquely named copies in consecutively from the index |
| AnimPanel.RemoveSelectedRows | yaean/panels/anim_main.py:222-224 | the reversed loop removes exactly the selected positions from the list and the rows |
| AnimPanel.InsertBoth | yaean/panels/anim_main.py:203-206 | inserting an animation and its row together keeps the rows in step |
| AnimPanel.RemoveBoth | yaean/panels/anim_main.py:223-224 | removing an animation and its row together keeps the rows in step |
| AnimPanel.InsertSelected | yaean/panels/anim_main.py:204-207 | the inserted run stays exactly the selection |
| AnimPanel.InsertTurn | yaean/panels/anim_main.py:199-203 | inserting copy i at index + i extends the inserted run |
| AnimPanel.RemoveSelected | yaean/panels/anim_main.py:222-224 | removing the last remaining selected row leaves the earlier ones selected |
| AnimPanel.SelectedIsSelection | yaean/helpers.py:60-66 | the selected rows are ascending positions in range |
| AnimPanel.ShowsUpdate | yaean/panels/anim_main.py:336-348 | an edit that keeps name and frame count keeps the rows showing the animations |
| AnimPanel.AppliedNone | yaean/panels/anim_main.py:335 | with nothing selected nothing changes |
| AnimPanel.AppliedStep | yaean/panels/anim_main.py:335 | each selected animation is edited once, in order |
| AnimPanel.AppliedShows | yaean/panels/anim_main.py:335 | editing that keeps name and frame count keeps the rows showing the animations |
| AnimPanel.TransformEach | yaean/panels/anim_main.py:335-352 | the loop transforms each selected animation and lists the skipped ones |
| AnimPanel.CameraEach | yaean/panels/anim_main.py:404-413 | the loop offsets each selected animation and counts the shifted channels |
| AnimPanel.StripEach | yaean/panels/anim_main.py:435-454 | the loop strips each selected animation and counts the dropped channels |
| AnimPanel.SwapEach | yaean/panels/anim_main.py:487-501 | the swap loop over the selection, stopping at the first node with bone index -1 |
| AnimPanel.MirrorEach | yaean/panels/anim_main.py:504-515 | the loop mirrors each selected animation |
| AnimPanel.ReverseEach | yaean/panels/anim_main.py:526-533 | the loop reverses each selected animation |
| AnimPanel.AppliedTwice | yaean/panels/anim_main.py:335 | two edits of the selection compose per animation |
| AnimPanel.AppliedUndo | yaean/panels/anim_main.py:335 | an edit undone per animation is undone on the list |
| AnimPanel.Applied | yaean/panels/anim_main.py:335 | editing the selection keeps the list's length and every unselected animation |
| AnimPanel.DialogFlags | yaean/dlg/remove_keyframes.py:37-38 | `GetValues` lists the flags of the ticked boxes only, so it has three values exactly when all three boxes are ticked |
| AnimPanel.RemoveKeyframesAsWritten | yaean/panels/anim_main.py:425-457 | as written, the unpacking raises exactly when `GetValues` gives other than three values, and a run that gets past line 441 found no channel in a filtered node |
| AnimPanel.RemoveKeyframesNeverStrips | yaean/panels/anim_main.py:425-457 | as written, `on_remove_keyframes` never changes an animation |
| AnimPanel.RemoveKeyframesExample | yaean/panels/anim_main.py:425 | with only the position box ticked, the handler as written raises at the unpacking, while the intended removal drops keyframe 0 |
| AnimPanel.TransformTwice | yaean/panels/anim_main.py:358-368 | two offsets of the selection are one offset by the sum |
| AnimPanel.TransformBack | yaean/panels/anim_main.py:358-368 | offsetting back restores the animations when every selected one has the node and channel |
| AnimPanel.CameraTwice | yaean/panels/anim_main.py:395-414 | two camera offsets add up, and an offset and its negation cancel |
| AnimPanel.StripTwice | yaean/panels/anim_main.py:416-457 | removing the same keyframes twice is removing them once |
| AnimPanel.MirrorArithmeticTwice | yaean/panels/anim_main.py:504-515 | mirroring the values twice restores the animations |

## Left out

- The widgets themselves: window layout, menus, accelerators, the status bar
  and the modal dialogs. A dialog's answer or entered values become method
  parameters (`accepted`, `confirm`, `newName`, offsets, flags, range).
- The `rename` dialogs' conflict check becomes a precondition of `Rename`
  and `OnRename`. The regex substitution of the bulk dialog is an
  uninterpreted `subst`, and the preview message it builds is not modelled.
- The pyxenoverse library is opaque. `Animation.paste` on an existing
  animation becomes the parameter `merge`, and on a new one the parameter
  `load`. The model leaves out the returned skipped-node set, the message
  listing it, `frame_float_size`, and `Bone.paste` (a pasted bone is the
  copied bone).
- `add_missing_bones` is only the set of names it returns (`missing`). The
  bones it appends to the tree and its dialog are not modelled.
- Also outside the model:
  - `clean_animations` after a bone deletion;
  - `set_duration`, so `on_set_duration` and `on_trim_anim` are left out;
  - the ESK branch of `recalculate_bone_tree`, with its skinning matrices;
  - `on_info`, filters and select-all;
  - `get_bones`, which only feeds a dialog.
- Rotation is out: `on_set_rotation`, `euler_to_quaternion`,
  `quaternion_to_euler` and the quaternion product are floating-point
  trigonometry. Keyframe components are `real`, so additions and negations
  are exact.
- Pickle and pubsub: the clipboards hold the copied values themselves.
- The bone-name-to-index lookup behind `node.bone_index` in the mirror
  abort check is the parameter `boneIndexOf`.
- Object identity: an item's bone is a value, so the source's aliasing
  between `GetItemData` objects and the skeleton list is not modelled.
  Animations, nodes and channels are likewise values, and the handlers
  compute the new list and assign it to the panel's field.
- Both panels' handlers call module-level methods on values and then assign
  the results to their fields, so the fields are not updated in place.
- The on_rename handler of the animation panel is not modelled on its own.
  Its `rename_func` only sets the name column, the same commit rule as
  `Helpers.Rename`.
- AnimPanel.AnimMainPanel.OnPaste: `merge` is required to keep the
  animation's name, since the source never rewrites the name column after
  merging. Moving the selection to the destinations happens before the
  warning, so a declined paste still changes the selection, as in the
  source.
- AnimPanel.AnimMainPanel.OnMirror: requires every selected node's bone name
  to contain `_`; the source raises IndexError on a name without one.
- AnimPanel.AnimMainPanel.OnReverse: requires every channel to have a
  keyframe; the source raises IndexError on an empty channel.
- AnimPanel.AnimMainPanel.OnSetScale: the scale callback adds like the offset
  callback, because that is what the source does.
- Helpers.GetBoneTree: requires every link to point forward inside the list
  (`ForwardLinks`), which gives the recursion a measure. The source also
  ends on acyclic lists with backward links (for instance bone 0 with child
  2 and bone 2 with child 1 gives bones 0, 2, 1); those are not modelled. A
  cycle of links recurses without end, and a link past the end raises
  IndexError. Every list `recalculate_bone_tree` writes links forward
  (`BoneMain.FlattenForward`).
- BonePanel.ClickOn and BonePanel.BoneMainPanel.OnChecked: they test the
  clicked item's old state, the intended reading of line 164 of
  bone_main.py (the corrected half of the Findings row). As written the
  test never calls `GetOldCheckedState`, so the program behaves as
  `BonePanel.OnCheckedAsWritten`, which `BonePanel.ClickUndone` and
  `BonePanel.ClickUndoneExample` describe.
- AnimPanel.AnimMainPanel.OnRemoveKeyframes: models the intended handler,
  with the flags and the frame range as parameters (the corrected half of
  the Findings row). As written the handler never removes anything
  (`AnimPanel.RemoveKeyframesNeverStrips`). It also passes `frame_count`
  to the dialog as its window id, which the model does not capture.
- AnimEdit.SwapNodes: `Node.boneIndex` is a stored field, and the swap keeps
  it. In the library `bone_index` follows the node's name, so after
  the swap the library would give the swapped bone's index. The model's
  later transforms and keyframe removal use the index from before the swap.
- BoneMain.WalkFlatten: requires at most 65535 bones, since index 65535
  would collide with the "none" marker.
- BoneMain.RebuildRoundTrip: stated for a single-root tree. With several
  top-level items the later roots carry parent index 65535, and
  `build_bone_tree` raises IndexError; `AppendBone` returns None there.
- Python's `int()` is modelled on an optional sign and ASCII digits.
  Whitespace, underscores and other Unicode digits are not modelled, and
  neither is `str.format` beyond `'{0:03d}'`.

## Findings

| source | as written | input that shows it | evidently intended | confidence | as-written member | corrected member |
|---|---|---|---|---|---|---|
| yaean/panels/bone_main.py:164 | the test compares the method `GetOldCheckedState` itself with `CHK_UNCHECKED`, never calling it, so it is always false | two selected checked root bones; the user checks the first, which was unchecked: the group state becomes UNCHECKED and the click is undone | the clicked item's old state is tested, so checking an unchecked item checks the whole selection | not executed | BonePanel.ClickUndoneExample | BonePanel.ClickKept |
| yaean/panels/anim_main.py:425 | `GetValues` of the remove-keyframes dialog returns only the list of ticked flags (yaean/dlg/remove_keyframes.py:37-38), so unpacking it into `flags, start_frame, end_frame` raises ValueError unless all three boxes are ticked; then `flags` is the integer 1792 and `flag not in flags` (line 441) raises TypeError at the first channel of a checked bone | only the position box ticked, one selected animation whose checked bone 0 has a position channel with keyframes at frames 0 and 1, range [0, 1): the unpacking raises | the dialog returns the ticked flags with a start and end frame, and the handler strips those channels in the range | not executed | AnimPanel.RemoveKeyframesExample | AnimPanel.AnimMainPanel.OnRemoveKeyframes |
