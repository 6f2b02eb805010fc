# Mandoline picker: snap and indicator engine

Mandoline is a horizontally scrolling, snap-to-cell picker for iOS. A fixed overlay sits
over a row of cells. When a drag ends, the widget rewrites the scroll view's proposed rest
offset so that the nearest cell edge lines up with the overlay. On every scroll frame it
scales the overlay's dot according to whether the cells on either side of the scroll
position are selectable. When the scroll position reaches a new cell, it gives haptic
feedback, selects the cell under the overlay and tells its delegate.

The repository has this engine twice, in `HorizontalScrollingPickerView` and `PickerView`.
The two differ only in naming, layout helpers and how delegate hooks are declared. This
model has one widget, `Picker.PickerView`, and it stands for both. Where a row below cites
one widget, the same lines exist in the other:

| HorizontalScrollingPickerView.swift | PickerView.swift |
|---|---|
| reloadData 142-146 | 137-141 |
| scrollToCell 152-161 | 149-158 |
| numberOfItemsInSection 214-216 | 211-213 |
| cellForItemAt 218-222 | 215-219 |
| didSelectItemAt 228-231 | 225-228 |
| scrollViewWillEndDragging 246-258 | 243-255 |
| scrollViewDidScroll 262-294 | 259-291 |

Modules, leaves first:

- `Wrappers`: `Option`, used for Swift optionals.
- `Selectable`: a cell is `Cell(isSelectable)`.
- `FloatExtensions`: `floor`, `ceil`, `fabs`, the truncating remainder, and the two CGFloat
  extensions. CGFloat is modelled as exact `real`. NaN appears only as the `None` result of
  a remainder by zero.
- `ArrayExtensions`: the `safe:` subscript.
- `Snap`: the snap resolver of `scrollViewWillEndDragging`.
- `Indicator`: the dot scale and the crossing guard of `scrollViewDidScroll`.
- `ViewModel`: the selection model class.
- `Picker`: the widget class. Its fields are the data source, the delegate, the view model,
  `lastScrollProgress`, and logs of what it sends out.

Host pieces are inputs or recorded outputs:

- `layoutAttributesForElements(in:)` becomes an optional sequence of left-edge x values.
- `indexPathForItem(at:)` becomes an optional row.
- The content offset divided by the cell width becomes a single progress value.
- `scrollToItem` and `reloadData` on the collection view are appended to `commands`.
- A delegate is the set of hooks it implements, and the calls it receives go to
  `delegateCalls`. A hook that is not implemented has no effect. This covers both the
  protocol-extension defaults of one widget and the optional chaining of the other.
- Each `generateFeedback()` adds one to `feedbackCount`.
- The dot's transform becomes the scale `DidScrollTo` returns.

Five points where the code behaves in a way a reader might not expect. The model follows
the code as written:

- In `scrollViewDidScroll` the `guard let vm = viewModel` comes before the `defer`. With no
  view model, `lastScrollProgress` is therefore not updated. On every other path,
  including the early returns after the scale is set, it is updated.
- The both-selectable scale is `1.5 - |0.5 - f|`. It peaks at 1.5 mid-cell (f = 0.5) and
  is 1.0 at a cell edge (f = 0), not the other way round.
- `select(cell:)` does no membership check: a cell from outside the list is stored too.
  It is the widget that only ever selects one of its loaded cells, and
  `SelectionInList` is the invariant its methods preserve.
- Reloading does not reset `lastScrollProgress`.
- Both delegate protocols declare `scrollViewWillBeginDragging`
  (HorizontalScrollingPickerView.swift:180, PickerView.swift:177), but neither widget ever
  calls it: the widgets implement no `scrollViewWillBeginDragging` of their own. The model
  therefore has no such hook.

## Model

| member | source | states |
|---|---|---|
| `FloatExtensions.Fabs` | Mandoline/Classes/HorizontalScrollingPickerView.swift:253 | `fabs(x)`, used here and at line 269, is non-negative and equals x or -x |
| `FloatExtensions.Floor` | Mandoline/Classes/HorizontalScrollingPickerView.swift:266 | `Int(floor(x))` is an integer k with k <= x < k + 1 |
| `FloatExtensions.Ceil` | Mandoline/Classes/HorizontalScrollingPickerView.swift:267 | `Int(ceil(x))` is an integer k with x <= k < x + 1 |
| `FloatExtensions.Trunc` | Extensions/CGFloat+Extensions.swift:13 | rounding toward zero: the integer between 0 and q that is less than 1 away from q |
| `FloatExtensions.TruncatingRemainder` | Extensions/CGFloat+Extensions.swift:13 | the remainder is NaN exactly when the divisor y is zero. Otherwise x minus it is a whole multiple of y, it is smaller than y in size, and it is zero or has the sign of x |
| `FloatExtensions.IntegerBelow` | Extensions/CGFloat+Extensions.swift:15-17 | `integerBelow(x)` is the integer k with k <= x < k + 1 |
| `FloatExtensions.IsIntegralIffWhole` | Extensions/CGFloat+Extensions.swift:12-14 | `isIntegral(x)` holds iff x equals its floor, for every real x including negatives and the NaN branch for 0 < x < 1 |
| `FloatExtensions.IsIntegralIffIntegerBelow` | Extensions/CGFloat+Extensions.swift:12-17 | `isIntegral(x)` holds iff `integerBelow(x)` converted back gives x |
| `FloatExtensions.IsIntegralOfInteger` | Extensions/CGFloat+Extensions.swift:13 | every integer, zero and negatives included, is integral |
| `FloatExtensions.IsIntegral` | Extensions/CGFloat+Extensions.swift:12-14 | zero is integral by the first disjunct. For 0 < x < 1 the remainder by floor(x) = 0 is NaN, which is unequal to 0, so x is not integral |
| `FloatExtensions.IntegerBelowMonotone` | Extensions/CGFloat+Extensions.swift:15-17 | x <= y implies `integerBelow(x) <= integerBelow(y)` |
| `FloatExtensions.IntegerBelowUnique` | Extensions/CGFloat+Extensions.swift:15-17 | the only integer k with k <= x < k + 1 is `integerBelow(x)` |
| `ArrayExtensions.SafeGet` | Mandoline/Classes/Extensions/Array+Extensions.swift:12-14 | total lookup: some value iff 0 <= i < count, and then the element at i; negative and too-large indices, and every index of an empty array, give nil |
| `ArrayExtensions.SafeGetFindsMember` | Mandoline/Classes/Extensions/Array+Extensions.swift:13 | a value found by the safe subscript is an element of the array |
| `Snap.Distances` | Mandoline/Classes/HorizontalScrollingPickerView.swift:253 | one distance per candidate edge, the absolute difference from the target edge |
| `Snap.Minimum` | Mandoline/Classes/HorizontalScrollingPickerView.swift:254 | `min()` is nil iff the sequence is empty, and otherwise an element no greater than any other |
| `Snap.FirstIndexOf` | Mandoline/Classes/HorizontalScrollingPickerView.swift:254 | `index(of:)` is nil iff the value is absent, and otherwise the first position holding it |
| `Snap.FirstNearestUnique` | Mandoline/Classes/HorizontalScrollingPickerView.swift:253-254 | at most one index is nearest with every earlier one strictly farther |
| `Snap.NearestIndex` | Mandoline/Classes/HorizontalScrollingPickerView.swift:253-254 | the chosen position is nil iff there is no candidate; otherwise it is nearest, and every earlier candidate is strictly farther (ties go first) |
| `Snap.SnapOffset` | Mandoline/Classes/HorizontalScrollingPickerView.swift:252-255 | nil iff there is no candidate edge; otherwise the new offset plus the overlay distance is a candidate edge |
| `Snap.SnapTarget` | Mandoline/Classes/HorizontalScrollingPickerView.swift:247-256 | no write when the layout gives no attributes or no edges; otherwise only x changes, y is kept, and x plus the overlay distance is a candidate edge |
| `Snap.SnapOffsetIsFirstNearest` | Mandoline/Classes/HorizontalScrollingPickerView.swift:252-255 | for the first nearest index p of the target edge x + d, the result is exactly `xOffsets[p] - d` |
| `Snap.SnapOffsetOptimal` | Mandoline/Classes/HorizontalScrollingPickerView.swift:253-256 | no candidate edge is strictly closer to the target edge than the snapped one |
| `Snap.AlignedTargetStays` | Mandoline/Classes/HorizontalScrollingPickerView.swift:252-255 | a target whose overlay edge already sits on a candidate edge is returned unchanged |
| `Snap.SnapOffsetIdempotent` | Mandoline/Classes/HorizontalScrollingPickerView.swift:252-255 | snapping an already snapped target leaves it unchanged |
| `Snap.SnapOffsetExample` | Mandoline/Classes/HorizontalScrollingPickerView.swift:252-255 | edges 0, 90, 180 with the overlay at 45: proposed offset 40 snaps to 45 |
| `Snap.SnapOffsetTieGoesFirst` | Mandoline/Classes/HorizontalScrollingPickerView.swift:254 | two equally near edges: the earlier one wins |
| `Indicator.SelectableAt` | Mandoline/Classes/HorizontalScrollingPickerView.swift:270-271 | a neighbour counts as selectable iff its index is inside the list and that cell is selectable |
| `Indicator.DotScale` | Mandoline/Classes/HorizontalScrollingPickerView.swift:264-283 | the dot scale always lies in [0, 1.5], and is 0 for an empty list |
| `Indicator.ScaleFor` | Mandoline/Classes/HorizontalScrollingPickerView.swift:272-282 | for f in [0, 1] every row lies in [0, 1.5]. Both selectable gives at least 1, and 1.5 iff f = 0.5. One selectable gives at most 1. Neither gives 0 |
| `Indicator.ScaleTable` | Mandoline/Classes/HorizontalScrollingPickerView.swift:269-282 | for f in [0, 1): both selectable gives 1 at f = 0. Left-only stays above 0 and is complementary to right-only |
| `Indicator.BothSelectablePeaksMidCell` | Mandoline/Classes/HorizontalScrollingPickerView.swift:266-275 | with both neighbours selectable the scale is in [1, 1.5], and is 1.5 iff the progress is exactly mid-cell |
| `Indicator.ScaleAtWholeProgress` | Mandoline/Classes/HorizontalScrollingPickerView.swift:266-282 | at whole-number progress k the floor and ceiling index agree, and the scale is 1 if cell k is selectable and 0 otherwise |
| `Indicator.ScaleBeyondEnds` | Mandoline/Classes/HorizontalScrollingPickerView.swift:266-282 | at progress <= -1 or >= the cell count both neighbours are outside the list and the scale is 0 |
| `Indicator.NeighboursInsideCell` | Mandoline/Classes/HorizontalScrollingPickerView.swift:266-267 | strictly inside cell k the left index is k and the right index is k + 1 |
| `Indicator.ScaleForMeetsCellEnds` | Mandoline/Classes/HorizontalScrollingPickerView.swift:273-282 | strictly inside a cell, every row of the table is within the remaining distance of the single-cell value at either end |
| `Indicator.ScaleContinuousFromBelow` | Mandoline/Classes/HorizontalScrollingPickerView.swift:266-282 | approaching whole number k from below, the scale differs from its value at k by at most k - progress |
| `Indicator.ScaleContinuousFromAbove` | Mandoline/Classes/HorizontalScrollingPickerView.swift:266-282 | leaving whole number k upwards, the scale differs from its value at k by at most progress - k |
| `Indicator.Crossed` | Mandoline/Classes/HorizontalScrollingPickerView.swift:285-286 | the guard never fires for a repeated identical progress, nor when the previous progress was integral |
| `Indicator.CrossedIffReachesWholeNumber` | Mandoline/Classes/HorizontalScrollingPickerView.swift:285-286 | the guard fires iff the previous progress was strictly inside a cell and the move reached or passed a whole number, in either direction |
| `Indicator.Crossings` | Mandoline/Classes/HorizontalScrollingPickerView.swift:265 | over a run of frames the first is compared with the stored progress and every later frame with the one before it, because each frame overwrites it |
| `Indicator.RepeatedFrameNeverFires` | Mandoline/Classes/HorizontalScrollingPickerView.swift:265 | a frame repeating the previous progress never fires |
| `Indicator.CrossingExample` | Mandoline/Classes/HorizontalScrollingPickerView.swift:99 | from the initial progress 0, frames 0, 0.4, 0.9, 1.0, 1.0, 1.1 fire exactly once, at the first 1.0 |
| `ViewModel.PickerViewModel.constructor` | Mandoline/Classes/HorizontalScrollingPickerViewModel.swift:24-26 | the cells are stored as given and nothing is selected |
| `ViewModel.PickerViewModel.Select` | Mandoline/Classes/HorizontalScrollingPickerViewModel.swift:20-22 | the argument becomes the selection with no membership check, so the latest call wins; the cells do not change |
| `ViewModel.SelectCellScenario` | Example/Tests/HorizontalScrollingPickerViewModelSpec.swift:21-31 | the model keeps the cell count, and after selecting cells 0 and then 2 the selection matches each in turn |
| `Picker.ScrollPlan` | Mandoline/Classes/HorizontalScrollingPickerView.swift:154-160 | one or two commands, the last always an animated scroll to the row; two iff row < count / 2, the first then a non-animated scroll to the last cell |
| `Picker.ScrollPlanExample` | Mandoline/Classes/HorizontalScrollingPickerView.swift:154-160 | with ten cells, row 2 jumps through row 9 first and row 7 scrolls once |
| `Picker.PickerView.constructor` | Mandoline/Classes/PickerView.swift:95-97 | no data, no delegate, no model, progress 0, nothing sent |
| `Picker.PickerView.NumberOfItems` | Mandoline/Classes/PickerView.swift:211-213 | the number of loaded cells, or 0 without a model |
| `Picker.PickerView.ReloadData` | Mandoline/Classes/PickerView.swift:137-141 | without a data source nothing changes; otherwise a fresh model of exactly the data source's cells with no selection, so the item count becomes the number of cells, and one reload command |
| `Picker.PickerView.SetDataSource` | Mandoline/Classes/PickerView.swift:12-16 | assigning the data source reloads, and clearing it keeps the old model |
| `Picker.PickerView.ScrollToCell` | Mandoline/Classes/PickerView.swift:149-158 | no commands without a model; otherwise exactly the scroll plan for the row and the cell count |
| `Picker.PickerView.DidSelectItemAt` | Mandoline/Classes/PickerView.swift:225-228 | one animated scroll to the tapped row, and a delegate call only if the hook is implemented |
| `Picker.PickerView.CellForItemAt` | Mandoline/Classes/PickerView.swift:215-219 | the delegate configures the cell only if it implements the hook |
| `Picker.PickerView.WillEndDraggingAt` | Mandoline/Classes/PickerView.swift:243-255 | the target is the snap result, or unchanged with no delegate call when there are no attributes or edges; velocity only goes to the delegate, which is called only if it implements the hook |
| `Picker.PickerView.DidScrollTo` | Mandoline/Classes/PickerView.swift:259-291 | without a model nothing changes. Otherwise the scale is `DotScale`, `lastScrollProgress` becomes the progress on every path, and the guard is `Crossed` on the old and new progress. On a crossing: one pulse and no selection or delegate call without a hit; with a hit, the hit cell is selected, there is a second pulse, and the delegate is called if it implements the hook. The selection stays inside the list |
| `Picker.CrossingScenario` | Mandoline/Classes/PickerView.swift:259-291 | the example frames fed to a freshly loaded widget select the second cell once, with two feedback pulses and one forwarded scroll event |

## Left out

- Drawing, colours, the overlay views, Auto Layout and SnapKit constraints, `layoutSubviews` insets and the styling property observers: presentation only.
- `numberOfSections` (always 1) and `register(cellType:)`: framework plumbing with nothing to state.
- `lastIndexPath`: declared but never used.
- The delegate's own behaviour. A delegate that writes through `targetContentOffset` after the snap is not modelled; the returned target is the widget's write.
- The conversion of the overlay centre into collection view coordinates and the hit test itself: the hit row is an input. It must be a row of the list, as `vm.cells[indexPath.row]` would trap otherwise.
- The content offset and cell width: scroll progress is taken as one input. A zero cell width is not guarded in the source. `cellSize` is an unchecked optional `CGSize` (HorizontalScrollingPickerView.swift:61-72, PickerView.swift:63-70). Dividing by a zero width gives an infinite or NaN progress, and `Int(floor(...))` then traps. That case is outside this model, which takes progress as a finite real.
- Haptics: `generateFeedback` is reduced to a pulse count; the iOS-version check and the generator are platform side effects.
- The `.centeredHorizontally` scroll position: every scroll command uses it, so commands record only the row and whether the scroll is animated.
- `Int(floor(x))` and `Int(ceil(x))` on values beyond the range of `Int`, which trap in Swift: the model uses unbounded integers.
- Floating-point rounding. CGFloat and Double are exact reals, and NaN appears only as the remainder by zero inside `isIntegral`.
- Object identity of cells. Swift cells are existential `Selectable` values, often structs, so the model compares cells by value.
- PickerViewModel.swift, the class `PickerView` uses, is not part of this model. It is taken to be the same as `HorizontalScrollingPickerViewModel`; the repository's `PickerViewModelSpec` uses it through the same API.
- Weak references: a data source or delegate that disappears is modelled by setting it to nothing.
