# useRows, modelled in Dafny

`useRows` is a React hook that keeps the ordered list of row ids behind a dynamic form
and keeps the form library's per-row values in step with structural edits. Without the
React plumbing the hook is a small state machine over

- the row list, an ordered sequence of ids in which duplicates are allowed,
- the form store, a map from row id to that row's values,
- the `initialRows` prop and whether the list is that very array (the dirty flag compares
  references).

Every operation (`push`, `remove`, `unshift`, `update`, `copy`, `drag`) is a pure transition
of that state. A transition applies what is handed to `setRows` and the `change` calls on
the store in one step. That is an updater on the current list for `push`, `remove`,
`unshift`, `copy` and `drag`, and the caller's own array for `update`.

Files and modules:

- `wrappers.dfy` (`Wrappers`): `Option`, for arguments that were not supplied and for lookups that found nothing.
- `splice.dfy` (`Splice`): single-element `Array.prototype.splice` with the start-index
  normalisation of ECMA-262 (2023 edition) section 23.1.3.31.
- `row_list.dfy` (`RowList`): first-match `findIndex`, `filter` by `!==`, and position swap.
- `form_store.dfy` (`FormStore`): the `values` map with `getState().values[key]` and `change(key, value)`.
- `use_rows.dfy` (`UseRows`): the hook state, mounting, reseeding, the dirty flag, every mutator and `getRowIndex`.
- `session.dfy` (`Session`): sequences of calls. It shows that a run keeps the dirty flag
  meaningful, writes the store only at the keys its calls name, and that a run of drags
  only permutes the list.
- `scenarios.dfy` (`Scenarios`): concrete runs on string ids.

Behaviour pinned down by the model, where the code differs from a plain reading:

- `remove` filters, so it drops every duplicate of the row, not only the first. The store
  key is set to `null` even when the row was not listed.
- `copy` inserts at `position || findIndex(row)`, normalised by splice. If the source row
  is missing, `findIndex` returns -1, and `splice(-1, 0, id)` inserts the copy just before
  the last row. It lands at the front only when the list has at most one row (`Scenarios.CopyMissingSingleRowScenario`). With the source
  present, the copy goes in front of the source's first occurrence. A `position` of 0 is
  indistinguishable from "not supplied".
- `copy` writes the source's current store value under the new id. When the source has
  no value (`undefined`), the new id ends up without a value.
- `drag` swaps the first occurrences. With duplicates, two identical drags need not restore
  the list (`Scenarios.DragTwiceWithDuplicate`), though they may (`Scenarios.DragTwiceRestoresDespiteDuplicate`). Without duplicates they always do (`UseRows.DragTwice`).
- Mounting seeds the list with `initialRows`, or else with the store's keys. The
  `[initialRows]` effect also runs on mount, though, and sets the list to
  `initialRows ?? []`. So without `initialRows` the key seed lasts one render and the
  mounted list is empty (`UseRows.Mount`). Arrays are always truthy, so
  `initialRows ? initialRows : []` keeps any supplied array, even an empty one.
- The dirty flag is `rows !== initialRows`. Without `initialRows` it is true from mount on.
  `push`, `remove`, `unshift`, `copy` and `drag` each build a fresh array, so it is true
  after any of them. That includes a `drag` that changes nothing and a `remove` of an
  absent row. `update` builds nothing: it stores the caller's array, so the hook stays
  clean when that array is `initialRows` itself (`UseRows.Update`).

## Model

| member | source | states |
|---|---|---|
| Splice.ClampStart | src/useRows.ts:109 | the splice start is kept if inside the array; a negative start counts back from the end and stops at 0; a start past the end clamps to the length |
| Splice.InsertAt | src/useRows.ts:108-110 | inserting puts the new element at the given index, keeps the prefix and shifts the suffix by one; the multiset gains exactly that element |
| Splice.RemoveAtInsertAt | src/useRows.ts:109 | removing the inserted element restores the original array (inverse of the insertion) |
| Splice.SpliceInsert | src/useRows.ts:109 | `splice(start, 0, x)` grows the array by one and adds exactly `x`; `x` sits at the normalised start, with the prefix kept and the suffix shifted by one |
| Splice.SpliceMinusOne | src/useRows.ts:107-109 | `splice(-1, 0, x)` on a non-empty array inserts `x` just before the last element |
| Splice.SpliceIntoEmpty | src/useRows.ts:107-109 | on an empty array every start gives `[x]` |
| RowList.IndexOf | src/useRows.ts:142 | `findIndex` returns -1 exactly when the id is absent; otherwise the index holds the id and no earlier index does |
| RowList.IndexOfDistinct | src/useRows.ts:120-121 | in a list without duplicates the first match of the element at `k` is `k` |
| RowList.Without | src/useRows.ts:74 | `filter` leaves no occurrence of the id; every other id keeps its multiplicity; the length drops by the number of occurrences |
| RowList.WithoutSubsequence | src/useRows.ts:74 | the ids that survive `filter` keep their relative order |
| RowList.WithoutAppend | src/useRows.ts:74 | filtering a concatenation is the concatenation of the filtered parts |
| RowList.WithoutUnchanged | src/useRows.ts:74 | filtering leaves the list equal to itself if and only if the id is absent |
| RowList.WithoutIdempotent | src/useRows.ts:74 | filtering twice is the same as filtering once |
| RowList.WithoutInsertAt | src/useRows.ts:74 | filtering out an id that was just inserted, and was not there before, undoes the insertion |
| RowList.Swap | src/useRows.ts:124-127 | the destructuring swap exchanges the two positions, keeps every other position and keeps the multiset |
| RowList.SwapTwice | src/useRows.ts:124-127 | swapping the same positions twice restores the list |
| FormStore.Change | src/useRows.ts:75 | after `change(key, value)` the key reads back `value` (`undefined` removes it) and every other key is unchanged |
| FormStore.Get | src/useRows.ts:112 | `getState().values[key]` is `undefined` exactly when the key has no value, and otherwise the stored value |
| FormStore.ChangeOverwrites | src/useRows.ts:75 | a later `change` of the same key wins over an earlier one |
| FormStore.ChangeSameValue | src/useRows.ts:112 | writing back a key's own current value leaves the store unchanged |
| UseRows.GetDirty | src/useRows.ts:50-53 | on a valid state a clean flag means the list has the `initialRows` contents |
| UseRows.GetRows | src/useRows.ts:134-136 | `getRows()` returns the current list; on a clean hook that is the contents of `initialRows` |
| UseRows.FirstRender | src/useRows.ts:40 | the first render lists `initialRows` and is clean; without the prop it lists each store key once and is dirty |
| UseRows.Reseed | src/useRows.ts:45-47 | a prop change replaces the list with the new `initialRows`, or with the empty list; the store is untouched; dirty exactly when there is no prop |
| UseRows.Push | src/useRows.ts:67-70 | the generated id is appended after the unchanged old list; the store is untouched; the hook is dirty |
| UseRows.Remove | src/useRows.ts:72-78 | the id is gone; the others keep their multiplicity and order; the length drops by the id's count; the store holds `null` for the id whether or not it was listed, and nothing else changes |
| UseRows.Unshift | src/useRows.ts:89-97 | the id (given or generated) comes first, followed by the old list; the store gains the values under the id only when values are supplied, and is otherwise untouched |
| UseRows.Update | src/useRows.ts:99-101 | the list becomes exactly the new rows; the store is untouched; dirty unless the caller handed back the `initialRows` array |
| UseRows.CopyIndex | src/useRows.ts:107 | a non-zero position is used as given; with position 0 the index is the source's first occurrence, or -1 when it is absent |
| UseRows.Copy | src/useRows.ts:103-115 | the new id sits at the splice-normalised copy index, with the prefix kept and the suffix shifted; the length grows by one; the new id's store value becomes the source's, and nothing else in the store changes |
| UseRows.Drag | src/useRows.ts:117-132 | with both ids present their first-match positions are exchanged and every other position is kept; with either absent the list is unchanged; the length, multiset and store are always unchanged |
| UseRows.GetRowIndex | src/useRows.ts:142 | the left-to-right scan returns the first index holding the id, or -1 exactly when it is absent, and it agrees with `IndexOf` |
| UseRows.Mount | src/useRows.ts:40-53 | after the first render and its effects the list is `initialRows`, or empty without the prop, so the store-key seed does not survive; the store is untouched; the hook is dirty exactly when there is no prop |
| UseRows.ReseedForgets | src/useRows.ts:45-47 | a reseed does not depend on the previous list: a full reset, not a merge |
| UseRows.PushThenRemove | src/useRows.ts:67-78 | removing a freshly pushed id restores the list |
| UseRows.PushThenIndex | src/useRows.ts:67-70 | a freshly pushed id is found at the old length |
| UseRows.UnshiftThenRemove | src/useRows.ts:72-97 | removing a freshly unshifted id restores the list |
| UseRows.UnshiftThenIndex | src/useRows.ts:89-97 | the unshifted id is found at index 0 |
| UseRows.RemoveTwice | src/useRows.ts:72-78 | removing the same id twice gives the same list and store as removing it once |
| UseRows.RemoveAbsent | src/useRows.ts:72-78 | removing an unlisted id keeps the list but still sets its store key to `null` |
| UseRows.CopyBeforeSource | src/useRows.ts:107-109 | with no position, the copy lands at the source's first index, directly in front of the source |
| UseRows.CopyMissingSource | src/useRows.ts:107-109 | with no position and a missing source, the copy lands just before the last row |
| UseRows.CopyIntoEmpty | src/useRows.ts:107-109 | copying into an empty list gives the one-row list, whatever the position |
| UseRows.CopyAtPosition | src/useRows.ts:107-109 | a position inside the list puts the copy exactly at that index |
| UseRows.CopyThenRemove | src/useRows.ts:103-115 | removing a fresh copy restores the list |
| UseRows.CopyOntoItself | src/useRows.ts:112 | copying a row onto its own id leaves the store unchanged |
| RowList.SwapDistinct | src/useRows.ts:124-127 | a swap keeps a list free of duplicates |
| UseRows.DragTwice | src/useRows.ts:117-132 | on a list without duplicates, the same drag done twice restores the list |
| UseRows.DragOntoItself | src/useRows.ts:117-132 | dragging a row onto itself changes no position |
| Session.ApplyFrame | src/useRows.ts:67-132 | one call changes the store at most at the key it passes to `change`; it keeps the state valid; every list-building call leaves the hook dirty; only a reseed changes the prop |
| Session.RunFrame | src/useRows.ts:67-132 | a run of calls leaves every store key it never writes as it was |
| Session.RunKeepsValid | src/useRows.ts:45-53 | along any run a clean flag still means the list has the `initialRows` contents |
| Session.DragsPermute | src/useRows.ts:117-132 | any run of drags is allowed, permutes the list and never touches the store |
| Session.MutatorLeavesDirty | src/useRows.ts:50-53 | a run that ends with push, remove, unshift, copy or drag leaves the hook dirty |
| Scenarios.PushThenRemoveScenario | src/useRows.ts:67-78 | mounting with `["a","b"]`, pushing `"c"` and removing `"a"` gives `["b","c"]`, with `"a"` cleared in the store and the clean flag lost at the push |
| Scenarios.DragScenario | src/useRows.ts:117-132 | `drag("b","c")` on `["a","b","c"]` gives `["a","c","b"]` |
| Scenarios.DragTwiceWithDuplicate | src/useRows.ts:117-132 | on `["a","a","b"]` the drag `("a","b")` done twice gives `["a","b","a"]`, not the original |
| Scenarios.DragTwiceRestoresDespiteDuplicate | src/useRows.ts:117-132 | on `["a","b","a"]` the drag `("a","b")` done twice restores the list, so duplicates need not break the round trip |
| Scenarios.CopyMissingScenario | src/useRows.ts:107-109 | copying a missing row into `["a","b","c"]` gives `["a","b","n","c"]` |
| Scenarios.CopyMissingSingleRowScenario | src/useRows.ts:107-109 | copying a missing row into `["a"]` gives `["n","a"]`: on one row the copy lands first |
| Scenarios.CopyPresentScenario | src/useRows.ts:107-109 | copying `"b"` in `["a","b","c"]` gives `["a","n","b","c"]` |
| Scenarios.CopyNegativePositionScenario | src/useRows.ts:107-109 | position -2 on `["a","b","c"]` gives `["a","n","b","c"]` |
| Scenarios.RemoveDuplicatesScenario | src/useRows.ts:74 | removing `"a"` from `["a","b","a"]` gives `["b"]` |

## Left out

- React machinery (`useState`, `useEffect`, `useRef`, `useMemo`, `useCallback`), render batching and update queuing: each call is applied at once. Store writes and the list update become one step.
- The trailing `rowsRef` and `dirtyRef` snapshots: `getRows`, `getRowIndex` and `getDirty` read the current state (`UseRows.GetRows` returns the list), not the state of the last committed render.
- `generate` and the `generateRow` factory: the factory is opaque, so its result is a parameter (`generated`). `unshift` and `copy` use it only when no id is passed.
- The seven stubs `concat`, `insert`, `move`, `pop`, `removeBatch`, `shift` and `swap`: they do nothing.
- `final-form` internals: the store is a flat map from row id to a value (`Null` or the row's fields). Nested field paths and subscriptions are not modelled. Writing `undefined` is modelled as removing the key.
- The order of `Object.keys` over the store is a parameter of `FirstRender`, required to list each key once.
- JavaScript truthiness beyond the cases the hook relies on. `position` is an integer, and 0 stands for both "0" and "not supplied"; fractional and `NaN` positions are not modelled. `values` is an `Option`, and a supplied value counts as truthy; falsy primitives passed as `values` are not modelled.
- Reference identity in general: the only identity that matters, "is this the `initialRows` array", is a flag. `update` takes it as an argument, and so cannot be handed an `initialRows` array whose contents differ. `update(undefined)` is not modelled.
- The `Reseed` step of `Session.Op` may be applied when the prop has not changed, although the `[initialRows]` effect only fires when the prop's reference changes. The session lemmas hold for every run, so this over-approximation loses none of them.
