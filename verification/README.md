# NumberingEditor and NameOrderEditor: a Dafny model

This project models two editor windows for a game engine's scene hierarchy.
Both windows act on the current selection of game objects:

- **Numbering** (`NumberingEditorWindow`)
  - *Numbering* renames the objects. It takes a basename from the first object's name: capture group 1 of the basename regex. Object `i` is then renamed to `string.Format(replaceFormat, basename, i + orderingOffset)`.
  - *Sort* orders the selection by name with a selection sort. Each step exchanges two objects' sibling positions in the hierarchy.
- **Name Order** (`NameOrderEditorWindow`)
  - *Rename* does the same as Numbering, but the basename is group 0, the whole match.
  - *Sort* sorts a tagged copy of the selection once. It then tries to permute a bookkeeping list into that order, swapping hierarchy positions as it goes.

The model is split into these modules:

- `Host` holds the editor state the windows change, as the class `Scene`:
  - the names of the objects;
  - the child list of the parent the selected objects share;
  - the selection.

  `Host` also holds the library services the windows call: the regex match, `string.Format` and the name comparer. These are parameters. The `Regex` constructor and `string.Format` may reject their pattern or format string by throwing, so the parameters say which patterns and formats they accept. A C# `int` is the newtype `Int32`, and `i + orderingOffset` wraps around as unchecked 32-bit addition does (`Wrap32`). `Transform.SetSiblingIndex` is modelled as "take the child out and put it back at the index" (`Move`).
- `Ordering` holds the `{Index, Data}` pairs and LINQ's stable `OrderBy`, modelled as an insertion sort. It proves that `OrderBy` is sorted, is a permutation, is stable, and has the first minimum at its head.
- `Naming` holds the renaming loop the two windows share, and `RenameRun`, the outcome of a whole rename: whether it threw, and the names afterwards.
- `NumberingEditor` and `NameOrderEditor` hold the two windows, as classes whose methods change the `Scene`.

The Numbering sort is proved to leave the selection sorted by name and a permutation of the old selection. It is also proved that each hierarchy position that held a selected object now holds the object of the same rank in the new selection. That sorts the selected positions of the hierarchy when the selection was in hierarchy order (`PlacementSortsInHierarchyOrder`), but not otherwise (`PlacementOutOfHierarchyOrder`).

For the Name Order sort, only the selection is proved sorted. Its hierarchy swaps are modelled step by step (`WrittenRun`). They keep the children and leave unselected children in place, but they do not in general sort the hierarchy; see "Findings". A corrected version, `SortByCurrentPosition`, is proved to do what the Numbering sort does: each selected object's position holds the object of the same rank in the sorted selection, so the hierarchy ends sorted over the selected positions when the selection was in hierarchy order.

## Model

| member | source | states |
|---|---|---|
| NumberingEditor.NumberingEditorWindow.constructor | Assets/Plugins/NumberingEditor/Editor/NumberingEditorWindow.cs:22-24 | The defaults: basename pattern `^(\S+)`, format `{0} {1:D2}`, offset 0. |
| NumberingEditor.Basename | Assets/Plugins/NumberingEditor/Editor/NumberingEditorWindow.cs:93-108 | There is a basename exactly when the pattern matches the first name and the match has a capture group; it is capture group 1. |
| NumberingEditor.NumberingEditorWindow.Numbering | Assets/Plugins/NumberingEditor/Editor/NumberingEditorWindow.cs:88-115 | A null or empty selection changes no name and does not throw. Otherwise the outcome is `RenameRun` of the old names: it throws when `new Regex` rejects the pattern, changes nothing when there is no basename, throws when `string.Format` rejects the format, and otherwise renames by the loop. A throw leaves every name as it was. The hierarchy and selection are unchanged. |
| Host.Wrap32 | Assets/Plugins/NumberingEditor/Editor/NumberingEditorWindow.cs:112 | `i + orderingOffset` as a C# `int`: equal to the true sum when that fits in 32 bits, and congruent to it modulo 2^32 always. |
| Naming.LabelWraps | Assets/Plugins/NumberingEditor/Editor/NumberingEditorWindow.cs:112-113 | With offset `int.MaxValue`, object 0 gets index 2147483647 and object 1 gets index -2147483648: the index wraps around. |
| Naming.Label | Assets/Plugins/NumberingEditor/Editor/NumberingEditorWindow.cs:112-113 | Object `i` is named `Format(replaceFormat, basename, index)`; the index is the plain sum `i + offset` whenever that fits in an `int` (otherwise it wraps, `Wrap32`). |
| Naming.Renamed | Assets/Plugins/NumberingEditor/Editor/NumberingEditorWindow.cs:110-114 | After the loop, exactly the objects named before and the selected objects have names. |
| Naming.RenamedEvery | Assets/Plugins/NumberingEditor/Editor/NumberingEditorWindow.cs:110-114 | When the selection has no repeated object (`Distinct(objs)`), after the loop selected object `i` has the label of index `i + offset` (wrapped) and every unselected object keeps its name. |
| Naming.RenameRun | Assets/Plugins/NumberingEditor/Editor/NumberingEditorWindow.cs:88-115 | A rename throws exactly when the pattern is rejected, or a basename was found and the format is rejected; a rename that throws has renamed nothing. |
| Naming.RenameRunEvery | Assets/Plugins/NumberingEditor/Editor/NumberingEditorWindow.cs:88-115 | When the selection has no repeated object (`Distinct(objects[..])`): a rename whose pattern and format are accepted and whose basename is found does not throw, names every selected object `i` `Format(replaceFormat, basename, i + offset)` with the index wrapped, and changes no other name; and a rename that changed any name was such a rename and kept the set of named objects. |
| NumberingEditor.Candidates | Assets/Plugins/NumberingEditor/Editor/NumberingEditorWindow.cs:132-134 | The candidates of step `i` are the objects from position `i` on, in order, with strictly increasing tags, tag `i + k` on candidate `k`. |
| NumberingEditor.PickDestination | Assets/Plugins/NumberingEditor/Editor/NumberingEditorWindow.cs:132-138 | `dests[0]` is a position at or after `i`, with that position's object. Its name is no greater than any name from `i` on. Every earlier position from `i` on has a strictly greater name, so it is the first minimum. |
| NumberingEditor.StepUpdate | Assets/Plugins/NumberingEditor/Editor/NumberingEditorWindow.cs:140-143 | With a `dst` whose tag names its object, the update keeps the list's length and, unless skipped, exchanges the objects at `i` and `dst.Index`, so the list keeps its objects. |
| NumberingEditor.SortStep | Assets/Plugins/NumberingEditor/Editor/NumberingEditorWindow.cs:130-145 | A step keeps the loop invariant for `i + 1`. That invariant says: the objects are a permutation of the selection, the prefix is sorted, no prefix object sorts after a suffix object, and no tag lies beyond its position. A step is skipped only when the first minimum is already at `i`. A step that is not skipped exchanges positions `i` and `dst.Index`. |
| NumberingEditor.SortAdvance | Assets/Plugins/NumberingEditor/Editor/NumberingEditorWindow.cs:137-144 | A step that is not skipped exchanges, in the child list, the two objects whose pairs it exchanges. A skipped step changes nothing. |
| NumberingEditor.NumberingEditorWindow.Sort | Assets/Plugins/NumberingEditor/Editor/NumberingEditorWindow.cs:117-148 | A null or empty selection changes nothing. Otherwise the new selection is sorted by name and is a permutation of the old one. The hierarchy position of the `k`-th selected object holds the `k`-th object of the new selection. Unselected children stay in place and names are unchanged. |
| NumberingEditor.NumberingEditorWindow.Swap | Assets/Plugins/NumberingEditor/Editor/NumberingEditorWindow.cs:150-185 | For two children of one parent, the two `SetSiblingIndex` calls, in the order of either branch, exchange exactly the two objects' positions. No other child moves. |
| Host.Scene.SetSiblingIndex | Assets/Plugins/NumberingEditor/Editor/NumberingEditorWindow.cs:177-183 | The child moves to the given index, the other children keep their order, and the child list keeps its children, each once. |
| Host.HigherFirstExchanges | Assets/Plugins/NumberingEditor/Editor/NumberingEditorWindow.cs:175-184 | Moving the child at the higher position to the lower index first, then the other child to the higher index, is the exchange of the two; this is what both branches do. |
| Host.LowerFirstExchanges | Assets/Plugins/NameOrderEditor/Editor/NameOrderEditorWindow.cs:150-151 | Moving the child at the lower position to the higher index first, then the other child to the lower index, is also the exchange of the two. |
| Host.MovePermutes | Assets/Plugins/NumberingEditor/Editor/NumberingEditorWindow.cs:177-178 | Moving a child keeps the same children. |
| Host.MoveDistinct | Assets/Plugins/NumberingEditor/Editor/NumberingEditorWindow.cs:177-178 | Moving a child keeps every child exactly once. |
| Host.ReslotExchange | Assets/Plugins/NumberingEditor/Editor/NumberingEditorWindow.cs:142-144 | Exchanging two entries of the sort's list, and the two children in the positions they stand for, keeps the child list and the list in step. |
| Ordering.Tag | Assets/Plugins/NameOrderEditor/Editor/NameOrderEditorWindow.cs:122-123 | Entry `k` is tagged `k` and holds object `k`, so the tags are distinct. |
| Ordering.OrderByNamePermutes | Assets/Plugins/NameOrderEditor/Editor/NameOrderEditorWindow.cs:124 | `OrderBy` returns exactly the pairs it is given. |
| Ordering.OrderByNamePermutesObjects | Assets/Plugins/NameOrderEditor/Editor/NameOrderEditorWindow.cs:124 | `OrderBy` returns exactly the objects it is given. |
| Ordering.OrderByNameSorted | Assets/Plugins/NameOrderEditor/Editor/NameOrderEditorWindow.cs:124 | The result of `OrderBy` is non-decreasing by name. |
| Ordering.OrderByNameStable | Assets/Plugins/NameOrderEditor/Editor/NameOrderEditorWindow.cs:124 | If tags increase along the input, pairs whose names tie keep that order in the result: the sort is stable. |
| Ordering.OrderByNameHead | Assets/Plugins/NumberingEditor/Editor/NumberingEditorWindow.cs:132-138 | The head of the sorted list is the first entry with a minimal name. |
| Ordering.FirstMinimum | Assets/Plugins/NumberingEditor/Editor/NumberingEditorWindow.cs:132-138 | Returns the first position of a minimal name: no name sorts before it, and every earlier name sorts strictly after it. |
| Ordering.OrdinalIsTotalPreorder | Assets/Plugins/NameOrderEditor/Editor/NameOrderEditorWindow.cs:124 | The `TotalPreorder` requirement of the sorts can be met: comparison by character code is total and transitive. |
| NameOrderEditor.NameOrderEditorWindow.constructor | Assets/Plugins/NameOrderEditor/Editor/NameOrderEditorWindow.cs:22-24 | The defaults: basename pattern `^(\S+)`, format `{0} {1:D2}`, offset 0. |
| NameOrderEditor.RenameBasename | Assets/Plugins/NameOrderEditor/Editor/NameOrderEditorWindow.cs:93-108 | There is a basename exactly when the pattern matches; it is the whole match. The `Groups.Count < 1` guard never fires. |
| NameOrderEditor.NameOrderEditorWindow.Rename | Assets/Plugins/NameOrderEditor/Editor/NameOrderEditorWindow.cs:88-115 | As Numbering, with the whole match as basename: a null or empty selection changes nothing; otherwise the outcome is `RenameRun`, so a rejected pattern or format throws having renamed nothing, a pattern that does not match changes nothing, and otherwise the loop renames. With `Distinct(objects[..])`, `RenameRunEvery` gives every selected object `i` the name `Format(replaceFormat, wholeMatch, i + offset)`, wrapped, and leaves the rest unchanged (all or nothing). |
| NameOrderEditor.GenuineTags | Assets/Plugins/NameOrderEditor/Editor/NameOrderEditorWindow.cs:122-124 | Any rearrangement of the tagged selection, `dests` among them, pairs each tag with the object at that original position. |
| NameOrderEditor.SameTagSamePair | Assets/Plugins/NameOrderEditor/Editor/NameOrderEditorWindow.cs:128-131 | Two such pairs carry the same `Index` exactly when they are the same pair. When the selection has no repeated object, they hold the same object exactly when they carry the same `Index`, so a step is skipped exactly when `src` and `dst` are the same object. |
| NameOrderEditor.SelectionOrder | Assets/Plugins/NameOrderEditor/Editor/NameOrderEditorWindow.cs:124 | `dests` is sorted by name, is a permutation of the selection, keeps ties in selection order, and consists of genuine tags. |
| NameOrderEditor.WrittenStepKeeps | Assets/Plugins/NameOrderEditor/Editor/NameOrderEditorWindow.cs:128-135 | From a consistent state, a step either is skipped, when the tags agree, or writes `sources[dst.Index] = src; sources[src.Index] = dst` and exchanges the two objects in the hierarchy. In both cases the list stays genuine, the hierarchy keeps its children, and unselected children stay in place. |
| NameOrderEditor.WrittenRunKeeps | Assets/Plugins/NameOrderEditor/Editor/NameOrderEditorWindow.cs:126-136 | The whole swap loop keeps the hierarchy's children and the places of unselected children. |
| NameOrderEditor.WrittenOutcome | Assets/Plugins/NameOrderEditor/Editor/NameOrderEditorWindow.cs:124-138 | After the sort as written: the selection is sorted and a permutation, and the hierarchy keeps its children and the unselected positions. |
| NameOrderEditor.NameOrderEditorWindow.SwapAsWritten | Assets/Plugins/NameOrderEditor/Editor/NameOrderEditorWindow.cs:126-136 | The swap loop as written leaves the hierarchy as `WrittenRun` from the original positions does, keeps the hierarchy's children distinct, and changes no name and not the selection. |
| NameOrderEditor.NameOrderEditorWindow.Sort | Assets/Plugins/NameOrderEditor/Editor/NameOrderEditorWindow.cs:117-139 | A null or empty selection changes nothing. Otherwise the selection becomes `dests`, which is sorted by name and a permutation of the old selection, whatever the loop did. The hierarchy is the end state of the swap loop run from the original positions. It keeps the same children and leaves unselected children in place, but need not be sorted. |
| NameOrderEditor.NameOrderEditorWindow.Swap | Assets/Plugins/NameOrderEditor/Editor/NameOrderEditorWindow.cs:141-152 | For two children of one parent, setting `dst` to `src`'s index and then `src` to `dst`'s old index exchanges exactly their two positions, whichever comes first. |
| NameOrderEditor.ExampleDests | Assets/Plugins/NameOrderEditor/Editor/NameOrderEditorWindow.cs:122-124 | For names B, C, A, `dests` has tags 2, 0, 1. |
| NameOrderEditor.ExampleRun | Assets/Plugins/NameOrderEditor/Editor/NameOrderEditorWindow.cs:126-136 | For names B, C, A, with the hierarchy in selection order, the loop as written ends with the hierarchy A, C, B. |
| NameOrderEditor.WrittenSortCounterexample | Assets/Plugins/NameOrderEditor/Editor/NameOrderEditorWindow.cs:133-134 | On names B, C, A: the selection ends A, B, C, which is sorted, but the hierarchy ends A, C, B, which is not. |
| NameOrderEditor.TrackingFind | Assets/Plugins/NameOrderEditor/Editor/NameOrderEditorWindow.cs:128-131 | In the corrected loop, `dests[i]` is still in the unprocessed part of the list. It is already at `i` exactly when the tags of `sources[i]` and `dests[i]` agree. |
| NameOrderEditor.TrackingSwap | Assets/Plugins/NameOrderEditor/Editor/NameOrderEditorWindow.cs:133-134 | Writing at the current positions, not the original ones, extends the prefix that agrees with `dests` by one, and rearranges only the rest. |
| NameOrderEditor.NameOrderEditorWindow.SortByCurrentPosition | Assets/Plugins/NameOrderEditor/Editor/NameOrderEditorWindow.cs:117-139 | The corrected sort: the selection is `dests`, which is sorted and a permutation. The hierarchy position of the `k`-th selected object holds the `k`-th object of `dests`, and unselected children stay in place. |
| Ordering.PlacementSortsInHierarchyOrder | Assets/Plugins/NumberingEditor/Editor/NumberingEditorWindow.cs:117-148 | If the selected objects lie in the child list in selection order, putting the `k`-th object of a name-sorted list in the `k`-th selected object's position (what both sorts' contracts promise) leaves the selected positions sorted by name in hierarchy order. |
| NameOrderEditor.PlacementOutOfHierarchyOrder | Assets/Plugins/NameOrderEditor/Editor/NameOrderEditorWindow.cs:117-139 | Without that condition the placement need not sort the hierarchy: selecting B then A from the child list A, B gives the sorted selection A, B and the hierarchy B, A. |

## Left out

- Window lifecycle and GUI (`Init`, `OnGUI`, `OnSelectionChange`, menu wiring) are not modelled. They are host UI callbacks; the windows' fields are set by the constructors and the methods take the object array as input.
- `EditorPrefs` persistence in `Awake` and `OnGUI` is not modelled. It is host key/value storage. In both files, line 31 looks up the stored format under the current format string rather than under `ReplaceKey`.
- `ApplySelection` is not modelled. It queries the editor's selection; the object array is a parameter instead.
- The regular-expression engine and `string.Format` (including `{1:D2}` padding) are library code. They are the parameters `regex` and `format`; a match is its whole text plus its capture groups. Whether `new Regex` or `string.Format` throws is taken to depend only on the pattern or the format string, as it does for a malformed pattern or a bad format item; a regex match timeout is not modelled.
- An exception is the `thrown` result of `Numbering` and `Rename`; how the editor reports it is not modelled.
- `OrderBy` compares names with the culture-sensitive default comparer. The model takes any total preorder `le` on names. `Ordering.OrdinalLe`, ordinal comparison, is the one the worked example uses.
- Unity's `Transform` tree is not modelled. This covers `SetParent`, the parent assignments, `ChangeParentOfChildren`, and the Numbering Swap branches at NumberingEditorWindow.cs:157-168 where one object is the other's parent. The model keeps one child list: the children of the parent the selected objects share. The parent assignments then change nothing. Root objects, whose null `parent` makes line 157 throw, are not modelled either.
- NumberingEditor.NumberingEditorWindow.Sort: requires the selected objects to be distinct children of one parent (`SiblingSelection`). For any other selection, the effect of the swaps on the hierarchy is not modelled.
- NameOrderEditor.NameOrderEditorWindow.Sort: requires the same of the selection, for the same reason.
- NameOrderEditor.NameOrderEditorWindow.SortByCurrentPosition: requires the same of the selection, for the same reason.
- NumberingEditor.NumberingEditorWindow.Swap: requires both objects to be children of the modelled parent, for the same reason.
- NameOrderEditor.NameOrderEditorWindow.Swap: requires both objects to be children of the modelled parent, for the same reason.
- `Debug.LogWarningFormat` is logging only; the guard clauses that log simply return.
- Game objects are their instance ids. The write-back `Selection.instanceIDs = ...GetInstanceID()` is the assignment of the id sequence to `Scene.selection`.

## Findings

| source | as written | input that shows it | evidently intended | confidence | as-written member | corrected member |
|---|---|---|---|---|---|---|
| Assets/Plugins/NameOrderEditor/Editor/NameOrderEditorWindow.cs:133-134 | The loop writes `src` and `dst` back at `dests[i].Index` and `src.Index`, the objects' original positions. After earlier swaps these are no longer where the objects are, so later steps read stale pairs and exchange the wrong objects in the hierarchy. | Three siblings named B, C, A, selected in that order, in that hierarchy order. The selection ends A, B, C, but the hierarchy ends A, C, B. | Each selected object's hierarchy position ends holding the object of the same rank in the sorted selection, as in the Numbering sort, so that a selection made in hierarchy order ends sorted in the hierarchy: the loop should find `dests[i]` where it currently is in `sources` and exchange that position with `i`. | high, not executed | NameOrderEditor.WrittenSortCounterexample | NameOrderEditor.NameOrderEditorWindow.SortByCurrentPosition |
