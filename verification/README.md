# Textbus format model in Dafny

This project models three pieces of the Textbus rich-text editor.

- **`Format`** (packages/core/src/model/format.ts) is the format store of one slot, the editor's text buffer. For every formatter (bold, colour, alignment, ...) it keeps a list of `[startIndex, endIndex)` ranges with their values. It keeps the lists consistent while the slot is edited:
  - `merge` applies a value;
  - `stretch` handles an insertion, `shrink` a deletion and `split` a cut;
  - `discard` clears a range.

  It also answers queries: `extract`, `createFormatByRange`, `extractFormatRangesByFormatter`, `extractFormatsByIndex`, `toGrid`, `toArray`, `toJSON` and the recursive `toTree`. Every overlap is resolved in one place: `tileRanges` expands a list into one value per position (the last range covering a position wins), and `toRanges` groups runs of equal, non-void values back into ranges.
- **`ChangeMarker`** (packages/core/src/model/change-marker.ts) holds the four dirty/changed flags of a component or slot and the events it emits.
- **`parse` / `stringify`** (packages/editor/src/components/custom-parse.ts) are the codec of the todo list's user list, written as `username&&authId;;` items.

## Structure

| file | module | contents |
|---|---|---|
| wrappers.dfy | `Wrappers` | `Option` |
| format_values.dfy | `FormatValues` | format values, void values, `equal`, formatters |
| range_algebra.dfy | `RangeAlgebra` | ranges; `ValueAt`, the value a list shows at one position (what `tileRanges` stores there); the canonical form; `Tile`, `Runs` and `Normalize` |
| range_edits.dfy | `RangeEdits` | per-range effect of stretch, shrink, split, extract, the caret query and the grid, with their position-wise meaning |
| format_tree.dfy | `FormatTrees` | `toTree` as a recursive function `Tree` and its partition properties |
| format.dfy | `FormatModel` | the class `Format`; its methods mutate `formats` and loop as the source does, and are proved against the functions above |
| change_marker.dfy | `ChangeMarkers` | the flags as a transition function `Apply`, and the class `ChangeMarker` proved against it |
| user_list_codec.dfy | `UserListCodec` | JavaScript `split`/`join`, `Parse`, `Stringify`, the round trip and its edge cases |

Most properties of `Format` are stated in terms of positions. `ValueAt(rs, p)` is the value of the last range in `rs` that covers `p`, or `None` when no range covers it.

A list is `Canonical(rs, n)` when:
- its ranges are non-empty, sorted, pairwise disjoint and inside `[0, n)`;
- every value is non-void;
- no two touching ranges hold equal values.

## Model

| member | source | states |
|---|---|---|
| `FormatValues.EqualIsStructural` | packages/core/src/model/format.ts:424-438 | `equal` holds of two values exactly when they are the same primitive, or records with the same keys and the same value under each key |
| `RangeAlgebra.ValueAtBeyondMaxEnd` | packages/core/src/model/format.ts:390-398 | past the furthest end of a list no position has a value, so cutting the tiled array there loses nothing |
| `RangeAlgebra.CoveredHasValue` | packages/core/src/model/format.ts:390-398 | on a list of non-void ranges, a position has a value exactly when some range covers it |
| `RangeAlgebra.RunsCanonical` | packages/core/src/model/format.ts:400-422 | the ranges built from an array are canonical for its length, and there are no more of them than positions |
| `RangeAlgebra.RunsValueAt` | packages/core/src/model/format.ts:400-422 | the ranges built from an array show at every position exactly the array's entry, and nothing outside it |
| `RangeAlgebra.NormalizeCanonical` | packages/core/src/model/format.ts:381-398 | normalising yields a canonical list within the slot, with at most slot-length ranges |
| `RangeAlgebra.NormalizeValueAt` | packages/core/src/model/format.ts:381-398 | after normalising, each position inside the slot shows the value of the last candidate range covering it, and positions outside show nothing |
| `RangeAlgebra.MergeValueAt` | packages/core/src/model/format.ts:77-83 | an inline merge over an existing entry: the new value wins where the new range reaches; in background mode it only fills positions no old range covers |
| `RangeAlgebra.CanonicalUnique` | packages/core/src/model/format.ts:381-422 | two canonical lists that show the same value at every position are the same list, so normalisation has exactly one possible result |
| `RangeAlgebra.NormalizeCanonicalList` | packages/core/src/model/format.ts:381-398 | normalising a list already canonical for the slot returns it unchanged |
| `RangeAlgebra.NormalizeAtMostOne` | packages/core/src/model/format.ts:381-398 | normalising at most one range yields at most one range |
| `RangeAlgebra.CanonicalNormalized` | packages/core/src/model/format.ts:381-398 | a list canonical for some slot is in normal form over its own extent |
| `RangeAlgebra.ValueAtUnder` | packages/core/src/model/format.ts:384-386 | a range put in front of a list (background mode) shows only where no range of the list covers |
| `RangeEdits.StretchValueAt` | packages/core/src/model/format.ts:91-104 | after `stretch(index, count)` each position shows what the position it was moved from showed; a range ending exactly at `index` grows |
| `RangeEdits.StretchKeepsCanonical` | packages/core/src/model/format.ts:91-104 | stretching a canonical list keeps it canonical for the longer slot, without renormalising |
| `RangeEdits.ShrinkEntryValueAt` | packages/core/src/model/format.ts:133-155 | after `shrink` every position of the slot shows what it showed before the deleted positions were taken out, and the list is canonical |
| `RangeEdits.ShrinkInsideRange` | packages/core/src/model/format.ts:133-155 | deleting `[3, 5)` from a slot where `[2, 5)` is formatted leaves the format on `[2, 3)` alone |
| `RangeEdits.ShrinkInsideRangeList` | packages/core/src/model/format.ts:133-155 | the same deletion stated on the stored list: `shrink` leaves exactly `[Range(2, 3, v)]` |
| `RangeEdits.StretchThenShrink` | packages/core/src/model/format.ts:91-104 | the moving pass of `shrink`, by what was just stretched, puts every range back at its old bounds |
| `RangeEdits.StretchThenShrinkEntry` | packages/core/src/model/format.ts:91-155 | on a canonical entry the whole `shrink` (moving pass and normalisation) by what was just stretched gives the entry back |
| `RangeEdits.StretchKeepsOrder` | packages/core/src/model/format.ts:93-100 | stretching keeps two ordered ranges in order, and makes them touch only if they touched before |
| `RangeEdits.SplitEntryNormalized` | packages/core/src/model/format.ts:118-123 | an inline list after `split` is in normal form |
| `RangeEdits.StretchKeepsNormalized` | packages/core/src/model/format.ts:91-104 | stretching keeps an entry in normal form |
| `RangeEdits.ShrinkEntryShape` | packages/core/src/model/format.ts:133-155 | what `shrink` leaves of an entry is canonical for the slot, and an entry of at most one range keeps at most one |
| `RangeEdits.ShrinkAtMostOne` | packages/core/src/model/format.ts:133-155 | shrinking a block entry of at most one range leaves at most one range |
| `RangeEdits.StretchMovesBlockStart` | packages/core/src/model/format.ts:91-104 | as written, an insertion at 0 moves a block range `[0, len)` to `[count, len + count)`, so position 0 loses the block format |
| `RangeEdits.BlockSplitKeepsSpan` | packages/core/src/model/format.ts:114-119 | growing only the end keeps a block range from 0 covering every position of the grown slot |
| `RangeEdits.SplitValueAt` | packages/core/src/model/format.ts:111-126 | after an inline split, positions before `index` keep their values, the `distance` inserted positions are void, and later positions show what stood `distance` earlier |
| `RangeEdits.SplitEntryCanonical` | packages/core/src/model/format.ts:118-123 | an inline split yields a canonical list for the longer slot, and no range covers an inserted position |
| `RangeEdits.ExtractValueAt` | packages/core/src/model/format.ts:200-219 | the extracted ranges show the entry's values inside `[startIndex, endIndex)` and nothing outside |
| `RangeEdits.ExtractBounds` | packages/core/src/model/format.ts:200-219 | every extracted range is non-empty, lies within `[startIndex, endIndex]`, and lies within a source range with the same value |
| `RangeEdits.ExtractKeepsCanonical` | packages/core/src/model/format.ts:200-219 | extracting from a canonical list yields a canonical list |
| `RangeEdits.ExtractLen` | packages/core/src/model/format.ts:200-219 | extracting never yields more ranges than the entry had |
| `RangeEdits.RebasedValueAt` | packages/core/src/model/format.ts:179-192 | after rebasing, position `p` shows what position `p + startIndex` showed inside the window |
| `RangeEdits.RebasedKeepsCanonical` | packages/core/src/model/format.ts:179-192 | moving the clipped ranges of a canonical list back by `startIndex` keeps them canonical and keeps their number |
| `RangeEdits.ActiveAtCaret` | packages/core/src/model/format.ts:239-265 | on a canonical list a caret reports at most one value per formatter: that of the position before the caret, or of position 0 at the start |
| `RangeEdits.GridCellUniform` | packages/core/src/model/format.ts:267-278 | between two consecutive grid points every formatter shows one value |
| `FormatTrees.Tree` | packages/core/src/model/format.ts:288-365 | every tree node spans exactly the interval it was built for |
| `FormatTrees.Lead` | packages/core/src/model/format.ts:326-338 | the child before the next interval tiles `[startIndex, nextStartIndex)` and is absent when that interval is empty |
| `FormatTrees.ScanFacts` | packages/core/src/model/format.ts:300-323 | the scan's next interval lies within the node; if nothing partial was seen, every range spans the node and was filed; filed items span the node, columned ones in `columned`, the others in `formats` |
| `FormatTrees.NoPartialNoChildren` | packages/core/src/model/format.ts:325 | when every remaining range spans the node, only columned formatters remain, so the node has no children |
| `FormatTrees.NextInterval` | packages/core/src/model/format.ts:349-350 | when the node has children, the next interval is a non-empty proper sub-interval of the node, so recursion terminates |
| `FormatTrees.TreePartition` | packages/core/src/model/format.ts:288-365 | the children of a node are consecutive, non-empty and together cover the node exactly |
| `FormatTrees.TreeFormats` | packages/core/src/model/format.ts:357-363 | a node's formats are non-empty and span the whole node, and a node with children carries no columned format |
| `FormatModel.StretchKeepsValid` | packages/core/src/model/format.ts:91-104 | stretching every entry keeps every entry valid under the store invariant |
| `FormatModel.StretchIntendedKeepsValid` | packages/core/src/model/format.ts:91-126 | the intended stretch keeps every entry valid |
| `FormatModel.SplitKeepsValid` | packages/core/src/model/format.ts:111-126 | splitting keeps every entry valid |
| `FormatModel.ShrinkKeepsValid` | packages/core/src/model/format.ts:133-155 | shrinking keeps every entry valid and leaves it canonical for the slot |
| `FormatModel.ExtractKeepsValid` | packages/core/src/model/format.ts:162-171 | extracting from a store whose entries are all valid gives a store whose entries are all valid |
| `FormatModel.RebaseKeepsValid` | packages/core/src/model/format.ts:179-192 | the clipped and rebased store of `createFormatByRange` keeps every entry valid |
| `FormatModel.Format.constructor` | packages/core/src/model/format.ts:40-43 | a new format has no entries and the slot's length, and satisfies the store invariant |
| `FormatModel.Format.MergeBlock` | packages/core/src/model/format.ts:53-65 | a block merge: a void value deletes the entry; otherwise the entry becomes the one range `[0, slot length)`, except that in background mode an existing entry is kept; the store invariant is kept |
| `FormatModel.Format.MergeInline` | packages/core/src/model/format.ts:66-84 | an inline merge: into an absent entry, a void range changes nothing and any other range is stored as given; over an existing entry the normalised result is stored, or the entry deleted when it is empty; the store invariant is kept |
| `FormatModel.Format.Stretch` | packages/core/src/model/format.ts:91-104 | every range of every entry is moved as `stretch` describes, block ranges included; the keys are unchanged; the store invariant is kept |
| `FormatModel.Format.MoveForStretch` | packages/core/src/model/format.ts:93-101 | the moving pass of `stretch` over one list: every range moved as `StretchRange` describes |
| `FormatModel.Format.StretchIntended` | packages/core/src/model/format.ts:91-126 | as intended: block ranges grow only their end, as in `split`, and inline ranges move as in `stretch`; the store invariant is kept |
| `FormatModel.Format.Split` | packages/core/src/model/format.ts:111-126 | block lists grow by `distance`; inline lists are tiled, opened by void positions and re-ranged; an empty result is stored, not deleted; the store invariant is kept |
| `FormatModel.Format.GrowBlock` | packages/core/src/model/format.ts:114-117 | the block branch of `split` over one list: every end moved by `distance` |
| `FormatModel.Format.SplitInline` | packages/core/src/model/format.ts:119-122 | the inline branch of `split` over one list: the list `SplitEntry` describes |
| `FormatModel.Format.Shrink` | packages/core/src/model/format.ts:133-155 | every entry is moved, normalised and kept only if non-empty; afterwards every entry is canonical and non-empty, and the store invariant holds |
| `FormatModel.Format.MoveForShrink` | packages/core/src/model/format.ts:135-145 | the moving pass of `shrink` over one list: every range moved as `ShrinkRange` describes |
| `FormatModel.Format.NormalizeEntries` | packages/core/src/model/format.ts:146-154 | the second pass of `shrink`: every list normalised, kept exactly when the result is non-empty |
| `FormatModel.Format.ExtractFormatRangesByFormatter` | packages/core/src/model/format.ts:200-219 | the formatter's ranges clipped to the window: within it, and showing the entry's values there and nothing outside |
| `FormatModel.Format.Extract` | packages/core/src/model/format.ts:162-171 | a fresh format over the same slot, holding every formatter's non-empty clipped list, positions not rebased; the source is not changed; a valid source gives a valid result |
| `FormatModel.Format.CreateFormatByRange` | packages/core/src/model/format.ts:179-192 | a fresh format for the given slot, holding each formatter's clipped list moved back by `startIndex`; a valid source gives a valid result |
| `FormatModel.Format.Discard` | packages/core/src/model/format.ts:227-237 | as written: the map is left as it was |
| `FormatModel.DiscardKeepsClearedRange` | packages/core/src/model/format.ts:227-237 | the normalisation `discard` computes and drops differs from the stored entry: clearing `[1, 3)` of a 4-long range splits it |
| `FormatModel.Format.DiscardIntended` | packages/core/src/model/format.ts:227-237 | as intended: afterwards the formatter shows nothing inside `[startIndex, endIndex)` and what it showed before elsewhere in the slot; for an inline formatter the store invariant is kept |
| `FormatModel.DiscardClears` | packages/core/src/model/format.ts:229-235 | normalising against a void range clears exactly that range and keeps every other position of the slot |
| `FormatModel.Format.ExtractFormatsByIndex` | packages/core/src/model/format.ts:239-265 | for each formatter, the values of exactly the ranges starting at 0 (at index 0), or starting before `index` and reaching it (elsewhere), in list order |
| `FormatModel.Format.CollectActive` | packages/core/src/model/format.ts:241-263 | appends one formatter's active values in list order, and leaves every other formatter's values as they were |
| `FormatModel.Format.ToArray` | packages/core/src/model/format.ts:367-379 | every range of every formatter appears once as an item tagged with its formatter, in list order |
| `FormatModel.Format.CollectItems` | packages/core/src/model/format.ts:369-376 | appends one formatter's ranges as tagged items in list order, and leaves every other formatter's items as they were |
| `FormatModel.Format.ToJson` | packages/core/src/model/format.ts:280-286 | one key per formatter name, holding that formatter's ranges |
| `FormatModel.Format.ToGrid` | packages/core/src/model/format.ts:267-278 | strictly ascending, and holding exactly 0, the slot length and every stored start and end |
| `FormatModel.Format.SortAscending` | packages/core/src/model/format.ts:277 | a set of points sorted: strictly ascending and holding exactly the set's points |
| `FormatModel.Format.ToTree` | packages/core/src/model/format.ts:288-365 | the tree the recursive definition `Tree` gives for the formatters in map order |
| `FormatModel.Format.ScanRanges` | packages/core/src/model/format.ts:295-323 | the scan over the copy's ranges: the next interval, the filed items, and the copy without its full-span non-columned formatters |
| `FormatModel.Format.ScanEntry` | packages/core/src/model/format.ts:301-322 | one formatter's ranges scanned in order, continuing the scan of the formatters before it |
| `FormatModel.Format.ChildTrees` | packages/core/src/model/format.ts:325-356 | the children pushed for the intervals before, at and after the next interval |
| `FormatModel.Format.LeadChildren` | packages/core/src/model/format.ts:326-338 | the child before the next interval: a subtree when there are columned formats, otherwise a bare node |
| `FormatModel.Format.NormalizeFormatRange` | packages/core/src/model/format.ts:381-388 | the candidates tiled and re-ranged, a canonical list within the slot |
| `FormatModel.Format.TileRanges` | packages/core/src/model/format.ts:390-398 | one entry per position up to the furthest end, cut at the slot length; each entry is the value of the last range covering it |
| `FormatModel.Format.ToRanges` | packages/core/src/model/format.ts:400-422 | canonical ranges that show exactly the array's entries |
| `ChangeMarkers.ApplyKeepsConsistent` | packages/core/src/model/change-marker.ts:44-82 | every operation keeps "dirty implies changed", for the view and for the output |
| `ChangeMarkers.RunKeepsConsistent` | packages/core/src/model/change-marker.ts:30-82 | so does every sequence of operations on a new marker |
| `ChangeMarkers.ForceChangeOnlyOnRaise` | packages/core/src/model/change-marker.ts:44-58 | the force operations leave `changed` raised and emit one force-change event exactly when they raise it, so a second call emits nothing |
| `ChangeMarkers.RenderedClears` | packages/core/src/model/change-marker.ts:72-78 | `rendered` clears only the view flags and `outputRendered` only the output flags |
| `ChangeMarkers.MarkEmitsChange` | packages/core/src/model/change-marker.ts:60-70 | marking emits one change event carrying its operation; `markAsDirtied` sets all four flags |
| `ChangeMarkers.ChangedNeedsCause` | packages/core/src/model/change-marker.ts:72-86 | after `rendered`, `changed` stays clear and only removal events are emitted until something marks, forces or resets the marker |
| `ChangeMarkers.ChangeMarker.constructor` | packages/core/src/model/change-marker.ts:30-42 | a new marker has all four flags set and has emitted nothing |
| `ChangeMarkers.ChangeMarker.ForceMarkDirtied` | packages/core/src/model/change-marker.ts:44-50 | no-op when dirty; otherwise sets dirty and behaves as `forceMarkChanged`; the output flags are untouched |
| `ChangeMarkers.ChangeMarker.ForceMarkChanged` | packages/core/src/model/change-marker.ts:52-58 | no-op when changed; otherwise sets changed and emits one force-change event; the other flags are untouched |
| `ChangeMarkers.ChangeMarker.MarkAsDirtied` | packages/core/src/model/change-marker.ts:60-64 | sets all four flags and emits one change event with the operation |
| `ChangeMarkers.ChangeMarker.MarkAsChanged` | packages/core/src/model/change-marker.ts:66-70 | sets both changed flags, keeps the dirty flags, and emits one change event with the operation |
| `ChangeMarkers.ChangeMarker.Rendered` | packages/core/src/model/change-marker.ts:72-74 | clears dirty and changed, and nothing else |
| `ChangeMarkers.ChangeMarker.OutputRendered` | packages/core/src/model/change-marker.ts:76-78 | clears the two output flags, and nothing else |
| `ChangeMarkers.ChangeMarker.Reset` | packages/core/src/model/change-marker.ts:80-82 | sets all four flags and emits nothing |
| `ChangeMarkers.ChangeMarker.RecordComponentRemoved` | packages/core/src/model/change-marker.ts:84-86 | emits one removal event with the instance and keeps every flag |
| `UserListCodec.JoinSplit` | packages/editor/src/components/custom-parse.ts:9 | `split` loses nothing: joining its pieces with the separator gives the string back |
| `UserListCodec.SplitAfter` | packages/editor/src/components/custom-parse.ts:9-12 | a piece free of the separator, and not ending with its character, comes off whole |
| `UserListCodec.Stringify` | packages/editor/src/components/custom-parse.ts:21-28 | one `username&&authId;;` item per user, in list order; the empty list gives the empty string |
| `UserListCodec.ParseStringify` | packages/editor/src/components/custom-parse.ts:8-28 | `parse` reads back every user `stringify` wrote, in order and with its `authId`, when the fields are representable |
| `UserListCodec.AmbiguousUsername` | packages/editor/src/components/custom-parse.ts:12-24 | a username ending in `&` is read back without it, and the `&` goes to the `authId` |
| `UserListCodec.ParseDropsLast` | packages/editor/src/components/custom-parse.ts:9-17 | a string without `;;`, including the empty string, reads as no users |
| `UserListCodec.ParseCons` | packages/editor/src/components/custom-parse.ts:9-17 | an item free of `;;` and not ending with `;` is read on its own, before the rest of the string |
| `UserListCodec.ParseDropsTail` | packages/editor/src/components/custom-parse.ts:9-17 | text after the last `;;` of what `stringify` wrote is dropped: `parse` reads the same users with or without it |
| `UserListCodec.ParseEmptyItems` | packages/editor/src/components/custom-parse.ts:11-15 | an empty item reads as the empty string, not as a user |
| `UserListCodec.ParseEmptyItem` | packages/editor/src/components/custom-parse.ts:11-15 | for every rest string, an empty item before it reads as `Blank` followed by what the rest reads as |
| `UserListCodec.ParseMissingAuthId` | packages/editor/src/components/custom-parse.ts:12-13 | an item without `&&` reads as a user with no `authId` |

Behaviour of the code worth knowing:

- `split` stores an inline list even when it becomes empty. It does not delete the entry.
- Stretching then shrinking by the same count restores every canonical entry, including a range the insertion point fell inside. A raw range stored by the first inline `merge` may come back changed, because `shrink` normalises.
- `stretch` moves block ranges like inline ones (see Findings).
- `discard` has no effect at all (see Findings).

The class `Format` keeps a store invariant, `Valid()` (per entry, `EntryValid`). An entry of two or more ranges is in normal form: its ranges are non-empty, sorted, disjoint and hold values, and no two touching ranges hold equal values. A single range (as the first inline `merge` stores it) and an empty list (as `split` may store it) are the only exceptions. A block entry holds at most one range. The constructor establishes it, `merge`, `stretch`, `split` and `shrink` keep it, and the two factories `extract` and `createFormatByRange` hand it on: a valid format yields a valid new one.

## Left out

- The insertion order of the JavaScript `Map` is not kept by the class. Methods visit formatters in an unspecified order. Results whose order depends on it (`toArray`, `extractFormatsByIndex`) are specified per formatter. `toTree` takes that order as its parameter `order`.
- `FormatModel.Format.ToJson`: requires distinct formatter names. With two formatters of one name the later one wins in the source, and that case is not modelled.
- Range objects are values here. The source mutates shared range objects in place, so the caller's range stored by the first inline `merge` stays aliased. That aliasing is not captured.
- `FormatModel.Format.MergeInline`: in-place mutation of the caller's range object by later `stretch`/`shrink` calls is not modelled, because ranges are values.
- Numbers in format values are `real`. Floating-point equality, `NaN`, and values that are neither primitives nor flat records are not modelled.
- The `Slot` class is not part of this model. Only its length is kept, as the field `slotLength`. The model assumes it already holds the slot's length whenever a method is called; the methods take it as given and do not change it.
- Negative or fractional indices are not modelled. Indices are natural numbers.
- The `@tanbo/stream` subjects of `ChangeMarker` are not modelled. The three event streams are one append-only log of `Event`s, and subscribers are not modelled.
- `ChangeMarkers.ChangeMarker.ForceMarkDirtied`: requires the class invariant `Valid()` ("dirty implies changed"). The constructor establishes it and every method keeps it; the source relies on it implicitly.
- `UserListCodec.ParseStringify`: the round trip is stated only for representable users. Each field must be free of its own separator, the username must not end with `&`, and the `authId` must not end with `;`. Without escaping, other users do not come back, as `AmbiguousUsername` shows.
- `RangeEdits.StretchThenShrinkEntry`: stated for canonical entries only. A raw range stored by the first inline `merge` is not restored: `[2, 12)` in a slot of 10 comes back as `[2, 10)`, and an empty `[3, 3)` is deleted.
- `FormatModel.Format.DiscardIntended`: keeps the store invariant for inline formatters only. Clearing the middle of a block entry leaves two ranges, which `split` would then make overlap.
- The list items `parse` returns for empty segments are empty strings in the source. They are the `Blank` entry here.

## Findings

| source | as written | input that shows it | evidently intended | confidence | as-written member | corrected member |
|---|---|---|---|---|---|---|
| packages/core/src/model/format.ts:227-237 | `discard` computes the normalisation of the entry against a void range and discards it, so the map never changes | an entry `[0, 4)` in a slot of 4, then `discard(formatter, 1, 3)`: the entry stays `[0, 4)` | store the normalised result (deleting the entry if it is empty), so that `[1, 3)` is cleared | not executed | `FormatModel.Format.Discard`, `FormatModel.DiscardKeepsClearedRange` | `FormatModel.Format.DiscardIntended`, `FormatModel.DiscardClears` |
| packages/core/src/model/format.ts:91-104 | `stretch` moves every range the same way, block ranges included, so an insertion at the start of a slot moves its block range off position 0 | a block entry `[0, 4)` in a slot of 4, then `stretch(0, 2)`: the entry becomes `[2, 6)` and positions 0 and 1 lose the block format | block ranges grow only their end, as `split` grows them (format.ts:114-119), so the block keeps spanning the slot | not executed; the slot, which is not part of this model, may re-apply block formats after an insertion | `FormatModel.Format.Stretch`, `RangeEdits.StretchMovesBlockStart` | `FormatModel.Format.StretchIntended`, `RangeEdits.BlockSplitKeepsSpan` |
