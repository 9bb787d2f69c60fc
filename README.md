# Cascading checkbox tree: a verified model

`TreeViewCheckbox` renders a forest of `{value, label, children}` nodes as a
tree of checkboxes. Clicking a box toggles its value with cascading rules:

- **Deselect.** A selected value is removed together with its whole subtree,
  and every ancestor reached through the parent map is removed too.
- **Select.** An unselected value is added together with its whole subtree.
  Then its ancestors are added one by one, for as long as every direct child
  of the next ancestor is selected.

Both rules rely on an index that the component memoises. A breadth-first walk
builds `mapData`, which maps each value to its node, and `parentMapData`,
which maps each non-root value to its parent's value.

This project models that engine in Dafny:

- `tree.dfy` (`Tree`): the node type, JavaScript truthiness of identifiers,
  and the ghost vocabulary the rest is specified in. An *occurrence* (`Site`)
  is a node together with the values of its ancestors. A depth-first search
  (`Find`) locates an occurrence. `Unique` says that no identifier occurs
  at two different places (a different node or a different ancestor chain).
  Exact duplicate copies are allowed: they give the same index and the same
  walks as a single copy, so they behave as one.
- `indexer.dfy` (`Indexer`): the breadth-first indexer. It is a `while` loop
  over a queue and two maps, proved against `IndexOf`, the description of the
  index of a forest.
- `selection.dfy` (`Selection`): the JavaScript `Set` as a class updated in
  place, and `onSelect` with its parts:
  - the recursive `removeChildren` and `addChildren`;
  - the two upward `while` walks;
  - the `every` test on the parent's children.

  `OnSelect` is proved to compute `Toggle`, a function on the forest that
  states what a click does. Its parts are proved against the pieces `Toggle`
  is built from: `RemoveChildren` and `AddChildren` against `Subtree`,
  `ClearAncestors` against `Chain`, `FillAncestors` against `RollUp`, and
  `AllSelected` against a statement about every child.
- `toggle_facts.dfy` (`ToggleFacts`): what one click promises:
  - an unknown value changes nothing;
  - the select path and its roll-up;
  - the deselect path;
  - nothing else changes;
  - a selected node keeps its whole subtree selected.
- `settled.dfy` (`Settledness`): the state a checkbox tree is meant to show,
  in which a node with children is selected exactly when all its children
  are. Clicks keep this state. Deselecting and then selecting again gives
  back the starting selection.
- `findings.dfy` (`Findings`): a discrepancy in the walks' test of the parent
  identifier, with the corrected toggle (see Findings).
- `scenarios.dfy` (`Scenarios`) and `sample.dfy` (`SampleForest`): concrete
  forests. One is the sample forest of the demo page. Its identifiers are
  proved unique and truthy, and a run of clicks on it is evaluated through
  `Toggle`, which `OnSelect` is proved to compute. The other shows that two
  clicks on the same value do not in general give back the starting
  selection (`Scenarios.NoDoubleToggle`). The model also proves when they
  do:
  - `ToggleFacts.SelectThenDeselect` gives an exact condition for select
    followed by deselect;
  - `Settledness.DeselectThenSelect` covers deselect followed by select.

Identifiers are `string | number`: `datatype Value = Str(s) | Num(n)`. A
number and the string of its digits are different keys, as they are in a
JavaScript `Map`. The walks test `if (parentId)`, and the model follows that
test exactly, so `0` and `""` stop a walk. The invariants about a click that
depend on this test are stated for forests whose identifiers are all truthy
(`AllTruthy`). `Findings` shows what goes wrong otherwise and proves the
corrected walk right for every forest with unique identifiers.

Paths below are relative to the repository root.

## Model

| member | source | states |
|---|---|---|
| Tree.Truthy | components/common/TreeViewCheckbox/TreeViewCheckbox.tsx:85 | JavaScript truthiness of an identifier as `if (parentId)` tests it (also at line 107): the empty string and 0 are falsy, every other string and number is truthy |
| Tree.FindSites | components/common/TreeViewCheckbox/TreeViewCheckbox.tsx:41 | a value is found exactly when it occurs at some depth of the forest, and what is found is an occurrence with that value |
| Tree.FindUnique | components/common/TreeViewCheckbox/TreeViewCheckbox.tsx:41 | with unique identifiers, looking up an occurrence's value finds that very occurrence, so keying by value loses nothing |
| Tree.FoundUnique | components/common/TreeViewCheckbox/TreeViewCheckbox.tsx:41 | identifiers are unique exactly when looking up each occurrence's value finds that very occurrence (both directions) |
| Tree.AncestorsDistinct | components/common/TreeViewCheckbox/TreeViewCheckbox.tsx:81-91 | with unique identifiers, the ancestor chain followed by the upward walks repeats no value, so the parent map has no cycle |
| Tree.AncestorsOutsideSubtree | components/common/TreeViewCheckbox/TreeViewCheckbox.tsx:72-91 | with unique identifiers, no ancestor of a node lies in the node's own subtree |
| Tree.BelowIff | components/common/TreeViewCheckbox/TreeViewCheckbox.tsx:43-53 | with unique identifiers, an occurrence lies below another exactly when it is that occurrence or carries the other's value in its ancestor chain (both directions) |
| Tree.Linear | components/common/TreeViewCheckbox/TreeViewCheckbox.tsx:43-53 | with unique identifiers, the occurrences above a given one form a chain: of two of them, one lies below the other |
| Indexer.Tag | components/common/TreeViewCheckbox/TreeViewCheckbox.tsx:48-55 | the queue entries built by `map` (here and, with a `null` parent, at lines 32-35): one entry per node, in the same order, each holding that node and the given parent |
| Indexer.Advance | components/common/TreeViewCheckbox/TreeViewCheckbox.tsx:37-56 | one `shift` plus the `push` of the children visits exactly the head's occurrence, tags each child with the head's value, and strictly shrinks the work left |
| Indexer.Record | components/common/TreeViewCheckbox/TreeViewCheckbox.tsx:41-45 | the two `set` calls for one more occurrence keep the maps recording exactly the occurrences visited so far |
| Indexer.BuildIndex | components/common/TreeViewCheckbox/TreeViewCheckbox.tsx:28-61 | for any forest, `mapData`'s keys are exactly the values at any depth, each mapped to a node of the forest with that value. `parentMapData`'s keys are exactly the values of non-root occurrences, each mapped to the value of a parent of such an occurrence. With unique identifiers the result is the index of the forest |
| Indexer.IndexExact | components/common/TreeViewCheckbox/TreeViewCheckbox.tsx:41-45 | with unique identifiers, every occurrence is stored under its value and every non-root occurrence's parent value under its value; roots have no parent entry |
| Selection.SelectionSet.constructor | components/common/TreeViewCheckbox/TreeViewCheckbox.tsx:65 | `new Set(prev)` holds exactly the previous values |
| Selection.SelectionSet.Add | components/common/TreeViewCheckbox/TreeViewCheckbox.tsx:94 | `add` inserts exactly the given value |
| Selection.SelectionSet.Delete | components/common/TreeViewCheckbox/TreeViewCheckbox.tsx:73 | `delete` removes exactly the given value |
| Selection.SelectionSet.Has | components/common/TreeViewCheckbox/TreeViewCheckbox.tsx:71 | `has` (also used at line 110 through `every`) is true exactly when the value is in the set |
| Selection.Get | components/common/TreeViewCheckbox/TreeViewCheckbox.tsx:67 | `Map.get` (also at lines 83, 105 and 108) gives a value exactly when the key is present, and then the stored one; a missing key gives `undefined` (`None`) |
| Selection.Chain | components/common/TreeViewCheckbox/TreeViewCheckbox.tsx:85 | the walks visit the longest prefix of the ancestor chain whose values are truthy; the value after it, if any, is falsy |
| Selection.RollUp | components/common/TreeViewCheckbox/TreeViewCheckbox.tsx:103-121 | the select-path walk on the forest: it adds ancestors of the chain, each only once all the direct children of its node are selected, and stops at the first unknown ancestor or one with an unselected child; it keeps every selected value and adds only values of the chain |
| Selection.Toggle | components/common/TreeViewCheckbox/TreeViewCheckbox.tsx:63-125 | a click on the forest: an unknown value changes nothing; a known one is cleared with its subtree and walked ancestors if selected, otherwise filled with its subtree and rolled up along the walked ancestors; either way the clicked value flips |
| Selection.KnownValue | components/common/TreeViewCheckbox/TreeViewCheckbox.tsx:67-69 | a value is in `mapData` exactly when it occurs in the forest, and the stored node is that occurrence's node |
| Selection.ParentStep | components/common/TreeViewCheckbox/TreeViewCheckbox.tsx:83-87 | with unique identifiers, `parentMapData` has an entry for an occurrence's value exactly when it has a parent; the entry is the parent's value, which is in `mapData` at the parent's node |
| Selection.RemoveChildren | components/common/TreeViewCheckbox/TreeViewCheckbox.tsx:72-79 | the set afterwards is the set before minus the item's whole subtree |
| Selection.AddChildren | components/common/TreeViewCheckbox/TreeViewCheckbox.tsx:93-99 | the set afterwards is the set before plus the item's whole subtree |
| Selection.AllSelected | components/common/TreeViewCheckbox/TreeViewCheckbox.tsx:109-111 | true exactly when every child's value is in the set |
| Selection.ClearAncestors | components/common/TreeViewCheckbox/TreeViewCheckbox.tsx:81-91 | with unique identifiers, the set afterwards is the set before minus every ancestor value the walk reaches through `parentMapData` |
| Selection.FillAncestors | components/common/TreeViewCheckbox/TreeViewCheckbox.tsx:103-121 | with unique identifiers, the set afterwards is the roll-up of the set before along the walked ancestors |
| Selection.OnSelect | components/common/TreeViewCheckbox/TreeViewCheckbox.tsx:63-125 | with unique identifiers, an unknown value returns `prev` itself; otherwise a fresh set is returned; in both cases its contents are `Toggle` of `prev`'s, and `prev` is left as it was |
| ToggleFacts.RollUpShape | components/common/TreeViewCheckbox/TreeViewCheckbox.tsx:103-121 | the roll-up adds a prefix of the walked chain. Each ancestor it adds has all its direct children selected. It stops at an unknown ancestor or at one with an unselected child |
| ToggleFacts.ToggleUnknown | components/common/TreeViewCheckbox/TreeViewCheckbox.tsx:67-69 | a value that occurs nowhere leaves the selection unchanged |
| ToggleFacts.SelectPath | components/common/TreeViewCheckbox/TreeViewCheckbox.tsx:93-121 | with unique identifiers, selecting adds the node's whole subtree, whatever its prior state, plus the first `k` walked ancestors. Each added ancestor has all its children selected. The ancestor where the walk stops has an unselected child. It and every ancestor above it keep their prior membership |
| ToggleFacts.DeselectPath | components/common/TreeViewCheckbox/TreeViewCheckbox.tsx:72-91 | with unique identifiers, deselecting removes the node, its whole subtree and every walked ancestor, and adds nothing; with truthy identifiers that is every ancestor |
| ToggleFacts.ToggleFrame | components/common/TreeViewCheckbox/TreeViewCheckbox.tsx:65-121 | with unique identifiers, on both paths, a value outside the node's subtree and outside its walked ancestor chain keeps its membership |
| ToggleFacts.ChainOfTruthy | components/common/TreeViewCheckbox/TreeViewCheckbox.tsx:85 | with truthy identifiers, the walks visit the whole ancestor chain |
| ToggleFacts.LastChildRollsUp | components/common/TreeViewCheckbox/TreeViewCheckbox.tsx:107-114 | with unique identifiers, selecting the last unselected child of a node with a truthy value selects that node too |
| ToggleFacts.SelectThenDeselect | components/common/TreeViewCheckbox/TreeViewCheckbox.tsx:71-121 | with unique identifiers, selecting an unselected node and deselecting it again gives back the selection exactly when nothing in its subtree or on its walked ancestor chain was selected before |
| ToggleFacts.ClearKeepsConsistent | components/common/TreeViewCheckbox/TreeViewCheckbox.tsx:72-91 | with unique identifiers, removing a subtree and all its ancestors keeps "a selected node has its whole subtree selected" |
| ToggleFacts.FillKeepsConsistent | components/common/TreeViewCheckbox/TreeViewCheckbox.tsx:93-121 | with unique identifiers, adding a subtree and rolling up the whole ancestor chain keeps that invariant |
| ToggleFacts.ToggleKeepsConsistent | components/common/TreeViewCheckbox/TreeViewCheckbox.tsx:63-125 | with unique, truthy identifiers, a click keeps every selected node's whole subtree selected |
| Settledness.SettledConsistent | components/common/TreeViewCheckbox/TreeViewCheckbox.tsx:107-114 | in a settled selection (a node with children is selected exactly when all its children are), a selected node has its whole subtree selected |
| Settledness.OutsideChildren | components/common/TreeViewCheckbox/TreeViewCheckbox.tsx:65-121 | with unique identifiers, a node neither in the clicked subtree nor on the clicked node's ancestor chain has no child in either, so its `every` test is unaffected |
| Settledness.DeselectKeepsSettled | components/common/TreeViewCheckbox/TreeViewCheckbox.tsx:72-91 | with unique, truthy identifiers, the deselect path keeps a selection settled |
| Settledness.SelectKeepsSettled | components/common/TreeViewCheckbox/TreeViewCheckbox.tsx:93-121 | with unique, truthy identifiers, the select path keeps a selection settled |
| Settledness.ToggleKeepsSettled | components/common/TreeViewCheckbox/TreeViewCheckbox.tsx:63-125 | with unique, truthy identifiers, every click keeps a selection settled |
| Settledness.DeselectThenSelect | components/common/TreeViewCheckbox/TreeViewCheckbox.tsx:71-121 | with unique, truthy identifiers, deselecting a selected value of a settled selection and selecting it again gives back the selection |
| Findings.FalsyParentCounterexample | components/common/TreeViewCheckbox/TreeViewCheckbox.tsx:85 | a forest `0 -> 1` with unique identifiers: from the consistent selection {0, 1}, clicking 1 leaves {0}, which is not consistent; from {}, clicking 1 gives {1} without rolling up to 0 |
| Findings.IntendedKeepsConsistent | components/common/TreeViewCheckbox/TreeViewCheckbox.tsx:85 | the corrected toggle, whose walks stop only where there is no parent, keeps every selected node's subtree selected for every forest with unique identifiers, falsy identifiers included |
| Findings.IntendedOnF0 | components/common/TreeViewCheckbox/TreeViewCheckbox.tsx:107 | on the same forest the corrected toggle clears 0 on the deselect path and selects 0 on the select path |
| Findings.ToggleMatchesIntended | components/common/TreeViewCheckbox/TreeViewCheckbox.tsx:85 | with truthy identifiers, the toggle as written and the corrected toggle agree on every input |
| Scenarios.NoDoubleToggle | components/common/TreeViewCheckbox/TreeViewCheckbox.tsx:93-101 | on a forest `1 -> {2, 3}` with unique, truthy identifiers and the settled selection {2}, clicking 1 twice gives {1, 2, 3} and then {}, not {2} |
| SampleForest.FindSample | components/TreeView.tsx:135-174 | the search finds each identifier of the sample forest with its ancestor chain, and no other value |
| SampleForest.SampleWellFormed | components/TreeView.tsx:135-174 | the sample forest has unique, truthy identifiers, so every promise stated for such forests, `OnSelect`'s contract included, holds on it |
| SampleForest.SelectTwoPhones | components/common/TreeViewCheckbox/TreeViewCheckbox.tsx:103-121 | from {}, clicking `iphone15` and then `iphone14` selects just those two; `phones` stays unselected because `samsung-s24` is not |
| SampleForest.SelectSamsung | components/common/TreeViewCheckbox/TreeViewCheckbox.tsx:103-121 | then clicking `samsung-s24` adds its two models and rolls up to `phones`, but not to `electronics`, whose `laptops` is unselected |
| SampleForest.DeselectIphone | components/common/TreeViewCheckbox/TreeViewCheckbox.tsx:81-91 | then clicking `iphone15` removes it and `phones` |
| SampleForest.SelectLaptops | components/common/TreeViewCheckbox/TreeViewCheckbox.tsx:103-121 | instead, clicking `laptops` adds its subtree and rolls up through `electronics` |

## Left out

- Rendering is left out: the JSX of `TreeViewCheckbox`, `TreeViewNode` and `CheckboxItem` (indentation, checkbox binding, `onChange`). It holds no selection logic.
- The rest of the demo pages are left out: `components/TreeView.tsx` (a single-select view with expand/collapse state), `app/page.tsx` (a scroll animation with DOM sizes and floating point), `app/test/page.tsx` and `components/ui/Test.tsx`. Only the sample data of `components/TreeView.tsx` is used, in `SampleForest`.
- React plumbing is left out: `useState`, the `setSelectedValues` updater and `useMemo`'s dependency tracking. `OnSelect` takes the memoised index and the previous set as parameters and returns the next set.
- The `label` field is left out. It is display-only.
- Numeric identifiers are integers. Fractions, `NaN` and infinities are not modelled. `-0` is the same key as `0` in a `Map`, so `Num(0)` stands for both.
- An absent `children` field is the empty sequence. The one place where absent and empty differ is `parentNode?.children?.every`: absent gives `undefined` (stop) and empty gives `true`. A parent reached through `parentMapData` always has children when identifiers are unique, so the difference cannot show.
- The `if (currentData)` guard after `queue.shift()` is always true, because the loop runs only on a non-empty queue. The model reads the head directly.
- `while (currentId != null)` becomes `while true`. `currentId` starts as the clicked value and is only ever replaced by a truthy parent, so it is never null, and the loops leave through `break`.
- Selection.OnSelect: requires unique identifiers, which the source does not check. With duplicates the last `Map.set` wins, and the upward walks can cycle forever; a terminating model cannot express that.
- Selection.ClearAncestors: requires unique identifiers, for the same reason.
- Selection.FillAncestors: requires unique identifiers, for the same reason.
- Indexer.BuildIndex: with duplicate identifiers, it states which occurrences the entries come from, but not which occurrence wins (the last one visited in breadth-first order).
- The forest is a ghost parameter of `OnSelect` and of the walks. The component sees only the index, and `IndexOf` ties the two together.

## Findings

| source | as written | input that shows it | evidently intended | confidence | as-written member | corrected member |
|---|---|---|---|---|---|---|
| components/common/TreeViewCheckbox/TreeViewCheckbox.tsx:85 | both upward walks go on only while the parent identifier is truthy (`if (parentId)`, here and at line 107), although the indexer records parents of any value (`!== null`, line 43) | forest `[{value: 0, children: [{value: 1}]}]`: from {0, 1}, clicking 1 gives {0}, so 0 is selected without its child; from {}, clicking 1 gives {1} and 0 is not rolled up although all its children are selected | the walks stop only where there is no parent entry (`parentId !== undefined`) | medium: an id of `0` or `""` is legal for `string \| number`; not executed | Findings.FalsyParentCounterexample | Findings.IntendedKeepsConsistent |
