# N-way array coordinate iterator

A Dafny model of VTK's `vtkArrayCoordinateIterator`, the cursor that visits
every unique set of coordinates within an N-way array. An iterator is bound to
an extents value (one half-open range `[lower, upper)` per dimension) by
`SetExtents`, reports with `HasNext` whether the range of unique coordinates is
used up, and hands out one coordinate tuple per `Next` call.

The C++ object mutates itself; the model is functional. `Iterator` holds the
four private fields of the class: `extents`, the scratch `coordinates` tuple,
and the linear counters `current` and `end`. `HasNext` is a pure query on the
state, and `SetExtents` and `Next` are pure functions from the old state to the
new one.

Files and modules:

- `extents.dfy`, module `ArrayExtents`: per-dimension `Range`, `Extents`,
  `Coordinates`, the tuple count `Total` (product of sizes, 1 for zero
  dimensions) and box membership `InBox`.
- `mixed_radix.dfy`, module `MixedRadix`: `Decompose` turns a linear position
  into a tuple and `Linearize` does the reverse. Both are mixed-radix
  conversions with one radix per dimension. The two are proved inverse, so
  `Decompose` is a bijection from `[0, Total(e))` onto the box.
- `odometer.dfy`, module `Odometer`: order-specific facts. These are the
  odometer step `Increment` and lexicographic monotonicity.
- `coordinate_iterator.dfy`, module `CoordinateIterator`: the iterator, its
  object invariant `Valid`, the three operations, and `Run`. `Run` is the
  sequence of tuples a `while (HasNext()) Next();` loop collects. The module
  also holds the whole-run properties.

Modelling choices:

- Visiting order: the last dimension varies fastest, as in row-major
  flattening. The header does not fix the order. The model fixes it in one
  place, `MixedRadix.Decompose`, and the scratch-tuple step `Odometer.Increment`
  is proved to follow it. The members whose statements depend on that order
  are:
  - all of module `Odometer`;
  - in `CoordinateIterator`: `RunStepsLikeOdometer`, `RunIsLexIncreasing`,
    `ListingStepsLikeOdometer`, `ListingIsLexIncreasing`,
    `TwoByThreeDecompose`, `TwoByThreeEnumeration` and `TwoByThreeOrder`.

  The counting, distinctness, coverage and exhaustion properties
  (`FullRunVisitsEachTupleOnce`, `EnumerationDistinct`, `EnumerationCovers`,
  `ZeroDimensional`, `SingleTupleBox`, `EmptyDimensionExhausts`) would hold
  for any bijective order.
- The scratch `Coordinates` field holds the tuple the next `Next` call will
  return. `Next` hands it out and advances it by one odometer step. The step,
  `Carry`, is a loop from the last dimension down: it bumps the index, and on
  reaching the upper bound resets it to the lower bound and moves to the
  dimension before. The object
  invariant `Valid` ties it to the linear counter: while `current < end` it
  equals `Decompose(extents, current)`. So the returned tuple is always the
  mixed-radix decomposition of `current`.
- A 0-dimensional extents holds one tuple, the empty one: `Total` is a
  product of sizes, and the empty product is 1. The header fixes neither
  `End`'s value nor how `vtkArrayExtents` counts its tuples; that code is not
  part of this model. `ZeroDimensional` rests on this convention.
- The header does not say what `Next` does past the end. The model returns
  `IteratorExhausted` instead of a tuple, so misuse is observable.

## Model

| member | source | states |
|---|---|---|
| CoordinateIterator.SetExtents | Common/vtkArrayCoordinateIterator.h:43-46 | the new state keeps the given extents, is at the beginning of the range (`current == 0`), its `end` is the number of unique tuples, and it satisfies the object invariant whatever state it replaced |
| CoordinateIterator.Next | Common/vtkArrayCoordinateIterator.h:54-56 | fails with `IteratorExhausted` exactly when `HasNext` is false; otherwise it returns the in-box tuple at linear position `current`. The new state has `current` advanced by exactly one, the same extents and end, and still satisfies the invariant |
| CoordinateIterator.Valid | Common/vtkArrayCoordinateIterator.h:66-69 | the object invariant over the four fields: `0 <= Current <= End`, `End` is the tuple count of `Extents`, and while the range is not used up `Coordinates` is the tuple at position `Current` |
| CoordinateIterator.HasNext | Common/vtkArrayCoordinateIterator.h:49-52 | a pure query. In a valid state it is true exactly when the linear counter is below the tuple count of the extents, so some unique tuple is still left |
| CoordinateIterator.HasNextIffNextAdvances | Common/vtkArrayCoordinateIterator.h:49-52 | `HasNext` is true exactly when `Next` yields a tuple, and exactly when some tuple is still left to enumerate |
| CoordinateIterator.Run | Common/vtkArrayCoordinateIterator.h:49-56 | calling `Next` until `HasNext` is false yields exactly `end - current` tuples, one per position left in the range |
| CoordinateIterator.RunListsPositions | Common/vtkArrayCoordinateIterator.h:54-56 | the i-th tuple of a run from any valid state is the decomposition of linear position `current + i`, so every `Next` hands out the tuple of the position it advances past |
| CoordinateIterator.Enumeration | Common/vtkArrayCoordinateIterator.h:22-23 | the enumeration of a box has `Total` entries, and entry k is a tuple of the box whose linear position is k |
| CoordinateIterator.RunAfterSetExtents | Common/vtkArrayCoordinateIterator.h:43-46 | after `SetExtents(it, e)` the full run equals the enumeration of `e`. It does not depend on the earlier state `it`, so calling `SetExtents` again discards all previous progress |
| CoordinateIterator.EnumerationDistinct | Common/vtkArrayCoordinateIterator.h:22-23 | the enumeration of a box never lists a tuple twice |
| CoordinateIterator.EnumerationCovers | Common/vtkArrayCoordinateIterator.h:22-23 | every tuple of the box occurs in its enumeration |
| CoordinateIterator.EnumerationVisitsEachOnce | Common/vtkArrayCoordinateIterator.h:22-23 | the enumeration of a box has `Total(e)` entries, each a tuple of the box, no two equal, and every tuple of the box among them |
| CoordinateIterator.FullRunVisitsEachTupleOnce | Common/vtkArrayCoordinateIterator.h:22-23 | a full run from `SetExtents(e)` has `Total(e)` tuples. Each one lies in the box, they are pairwise distinct, and every tuple of the box occurs |
| CoordinateIterator.ZeroDimensional | Common/vtkArrayCoordinateIterator.h:22-23 | under the empty-product convention for `Total`, a 0-dimensional extents yields exactly one tuple, the empty one |
| CoordinateIterator.SingleTupleBox | Common/vtkArrayCoordinateIterator.h:49-56 | a box with one tuple yields its lower corner on the first `Next`, after which `HasNext` is false |
| CoordinateIterator.EmptyDimensionExhausts | Common/vtkArrayCoordinateIterator.h:43-52 | if any dimension is empty, `HasNext` is false right after `SetExtents` and `Next` reports exhaustion |
| CoordinateIterator.RunStepsLikeOdometer | Common/vtkArrayCoordinateIterator.h:54-56 | consecutive tuples of any run are one odometer step apart (last index fastest, carry into earlier dimensions) |
| CoordinateIterator.RunIsLexIncreasing | Common/vtkArrayCoordinateIterator.h:54-56 | the tuples of any run have one common length and are strictly increasing in lexicographic order |
| CoordinateIterator.ListingStepsLikeOdometer | Common/vtkArrayCoordinateIterator.h:54-56 | in any listing of consecutive positions, each tuple is in the box and the next one is its odometer step |
| CoordinateIterator.ListingIsLexIncreasing | Common/vtkArrayCoordinateIterator.h:54-56 | any listing of consecutive positions is strictly increasing in lexicographic order |
| CoordinateIterator.TwoByThreeEnumeration | Common/vtkArrayCoordinateIterator.h:22-23 | the tuples of the box `[0,2) x [0,3)` are, in order, (0,0),(0,1),(0,2),(1,0),(1,1),(1,2) |
| CoordinateIterator.TwoByThreeOrder | Common/vtkArrayCoordinateIterator.h:54-56 | after `SetExtents` on the box `[0,2) x [0,3)`, whatever the earlier state, `Next` hands out (0,0),(0,1),(0,2),(1,0),(1,1),(1,2) and then stops |
| CoordinateIterator.Traverse | Common/vtkArrayCoordinateIterator.h:49-56 | the client loop `while (HasNext()) Next();` after `SetExtents(e)` collects exactly the enumeration of `e` |
| ArrayExtents.Total | Common/vtkArrayCoordinateIterator.h:69 | the model's value for `End`: the number of unique tuples, the product of the dimension sizes, and 1 for zero dimensions |
| ArrayExtents.TotalZeroIff | Common/vtkArrayCoordinateIterator.h:66-69 | the range of unique tuples is empty if and only if some dimension of the extents is empty |
| ArrayExtents.InBoxMeansNonEmpty | Common/vtkArrayCoordinateIterator.h:22-23 | a box holding any tuple has a positive tuple count |
| ArrayExtents.LowersInBox | Common/vtkArrayCoordinateIterator.h:44-46 | the beginning of a non-empty range, the lower corner, is a tuple of the box |
| MixedRadix.Decompose | Common/vtkArrayCoordinateIterator.h:54-56 | the tuple at any linear position in `[0, Total)` has one index per dimension, each within that dimension's `[lower, upper)` |
| MixedRadix.Linearize | Common/vtkArrayCoordinateIterator.h:68-69 | every tuple of the box has a linear position in `[0, Total)`, the range the counters `Current` and `End` span |
| MixedRadix.LinearizeDecompose | Common/vtkArrayCoordinateIterator.h:22-23 | decomposing a position and linearizing the result gives the position back |
| MixedRadix.DecomposeLinearize | Common/vtkArrayCoordinateIterator.h:22-23 | linearizing a tuple of the box and decomposing the result gives the tuple back |
| MixedRadix.DecomposeInjective | Common/vtkArrayCoordinateIterator.h:22-23 | distinct linear positions give distinct tuples |
| MixedRadix.DecomposeSurjective | Common/vtkArrayCoordinateIterator.h:22-23 | every tuple of the box is reached from some linear position |
| MixedRadix.DecomposeZero | Common/vtkArrayCoordinateIterator.h:44-45 | position 0, the beginning of the range, is the lower corner of the box |
| Odometer.Increment | Common/vtkArrayCoordinateIterator.h:67 | an odometer step on the scratch tuple keeps it inside the box |
| Odometer.Carry | Common/vtkArrayCoordinateIterator.h:66-67 | the carry loop over the leading dimensions keeps the tuple inside the box |
| Odometer.CarryAppend | Common/vtkArrayCoordinateIterator.h:66-67 | the carry loop over the first i dimensions neither reads nor writes the dimensions after them |
| Odometer.IncrementUnfold | Common/vtkArrayCoordinateIterator.h:67 | the odometer step bumps the last index when it stays below its upper bound. Otherwise it resets that index to its lower bound and steps the remaining dimensions |
| Odometer.DecomposeCarry | Common/vtkArrayCoordinateIterator.h:68 | when the last index of position k is at its top, position k + 1 has that index at its lower bound and the remaining dimensions one position further on |
| Odometer.IncrementIsSuccessor | Common/vtkArrayCoordinateIterator.h:67-68 | one odometer step on the tuple at position k gives the tuple at position k + 1. So the scratch tuple and the linear counter stay in step |
| Odometer.LexLessIsStrictOrder | Common/vtkArrayCoordinateIterator.h:54-56 | the lexicographic order used for the visiting order is irreflexive and transitive, so "strictly increasing" is meaningful |
| Odometer.DecomposeMonotone | Common/vtkArrayCoordinateIterator.h:54-56 | a later linear position gives a lexicographically greater tuple |

## Left out

- `New`, `vtkTypeRevisionMacro`, `PrintSelf`, the protected constructor and
  destructor, and the unimplemented copy constructor and assignment. These are
  object lifecycle plumbing of the host toolkit. Because the constructor is
  left out, every iterator in the model starts from `SetExtents`. The object
  invariant `Valid` is what any such state satisfies.
- The internals of `vtkArrayExtents` and `vtkArrayCoordinates`: their headers
  are not part of this model. Extents are a plain sequence of ranges whose
  lower bound never exceeds the upper one. Constructing a range with
  `lower > upper` cannot be expressed, so its error path is not modelled.
  Coordinates are a plain `seq<int>`, so per-axis get/set and their
  out-of-range dimension errors are not modelled.
- `vtkIdType` overflow: `current`, `end` and `Total` are unbounded integers.
  The source needs the tuple count to fit `vtkIdType`, whose width depends on
  how the toolkit is built.
- Aliasing of the scratch `Coordinates` member: `Next` returns by value, and
  the model returns an immutable sequence.
- `vtkViewport` and the rendering subsystem: they consume coordinates but are
  not part of the iterator.
