# Maximal-space rectangle bin packing, modelled in Dafny

This project models the core of a two-dimensional rectangle bin packer.
Items are axis-parallel rectangles of integer size. A solution is a list of
bins of one fixed size. Each bin records the rects packed in it and a list of
free *maximal spaces*: free rects, possibly overlapping one another, whose
union is the unused part of the bin.

Placing an item in a bin runs three steps:

1. A placement heuristic picks a free rect and an orientation. The heuristic is
   best area fit, largest touching perimeter, or the top-right corner farthest
   from the bin's top-right corner.
2. Every free rect the item overlaps is split into at most four fragments.
3. Any free rect that lies inside another is pruned.

A solution packs a list of items in one of two ways. `pack` opens as many bins
as an area lower bound says, then puts each item into the bin whose evaluation
scores lowest. `packFirst` starts from one bin and puts each item into the
first bin that admits it. Both open a new bin when no bin admits the item.

## Modules

- `options.dfy` (`Options`): the `Option` datatype. It stands for a `null`
  result.
- `rect.dfy` (`Rects`): the `Rect` record as a value. Covers construction,
  rotation, removing packing information, containment, overlap, touching,
  `equals` and the 32-bit `hashCode`.
- `rect_area_comparator.dfy` (`RectAreaComparator`): the comparator that orders
  items by decreasing area.
- `bin_geometry.dfy` (`BinGeometry`): the parts of `Bin` that do not depend on
  the free-space structure:
  - the bin's overlap test;
  - the checks `isFeasible` makes;
  - the occupied area;
  - the touching perimeter;
  - the squared corner distance.
- `heuristics.dfy` (`Heuristics`): a reference definition of all three
  heuristic loops, as one scan over (free rect, orientation) candidates. The
  lemmas about the scan state what it picks.
- `free_space.dfy` (`FreeSpace`): what one regeneration pass yields and the
  facts the pruning pass relies on.
- `max_space_bin.dfy` (`MaxSpaceBins`): `Bin` and `MaxSpaceBin` merged into one
  class, `MaxSpaceBin`. Its fields are updated in place. Each method is proved
  against the reference definitions above.
- `rbp_solution.dfy` (`RBPSolutions`): the solution class. It covers its bin
  loops, the item loop of `pack` and `packFirst`, and the lower bound.

## Invariants and properties

`MaxSpaceBin.Valid()` is the bin invariant. It states five things:

- The cached area is exact.
- Packed and free rects have positive size.
- Free rects lie inside the bin.
- No free rect overlaps a packed rect.
- No free rect lies inside another.

Every `insert` keeps it. `insert` also keeps the bin feasible, in the sense of
`isFeasible`, whenever the packed rect came from an evaluation of the same bin
or lies inside one of its free rects. Both `pack` and `packFirst` meet that
condition.

At the solution level, every bin stays valid and feasible, so `isFeasible`
returns true. The number of packed rects equals the number of items that fit
an empty bin in an allowed orientation.

Which bin receives each item is stated on value snapshots of the bins
(`BinState`: sides, packed rects, free rects). `PackStep` relates the bin
states before and after one item:

- The item is evaluated in every bin.
- `ChosenIndex` picks a bin: the first admitting bin for `packFirst`, or the
  first bin with the lowest score for `pack`.
- The chosen bin gets the evaluated placement appended to its packed rects.
  Every other bin is unchanged.
- When no bin admits the item, a bin opened with it is appended.

`pack` and `packFirst` return, as a ghost result, the sequence of bin states
before each item and after the last. Consecutive states are linked by
`PackStep`. `PackStepChoice` restates one step in the source's terms.

`computeLowerBound` returns the integer quotient of the total area by the bin
area, plus one. `LowerBoundVersusCeiling` shows this equals the ceiling of the
quotient, except when the area is an exact multiple of the bin area, where it
is one more. So `pack` can open one bin more than the items need, and
`numBins` then counts an empty bin.

## Model

| member | source | states |
|---|---|---|
| Rects.NewRect | main/rectpacking/Rect.java:38-45 | a new rect has the given sides, an area equal to their product, both coordinates at -1 (unplaced) and no score |
| Rects.DegenerateRect | main/rectpacking/Rect.java:24-31 | the no-argument rect is degenerate, unplaced and of area zero |
| Rects.RemovePackingInfo | main/rectpacking/Rect.java:70-74 | both coordinates become -1 and the score is cleared, so the result is not ready for packing; the sides and the stored area are kept |
| Rects.Rotate | main/rectpacking/Rect.java:76-80 | the sides are swapped; position, score and stored area are unchanged |
| Rects.IsReadyForPacking | main/rectpacking/Rect.java:94-96 | a rect whose corner is at non-negative coordinates is ready for packing; one with either coordinate at -1 is not |
| Rects.IsDegenerate | main/rectpacking/Rect.java:86-88 | a rect of positive size is not degenerate; for non-negative sides, degenerate means exactly "not of positive size" |
| Rects.RotateTwice | main/rectpacking/Rect.java:76-80 | rotating twice gives back the rect, and rotation keeps the area consistent with the sides |
| Rects.RemovePackingInfoRestoresNew | main/rectpacking/Rect.java:70-74 | a rect whose area matches its sides becomes, after removing packing info, exactly the rect the two-argument constructor builds |
| Rects.CommonLength | main/rectpacking/Rect.java:134-139 | zero for disjoint or touching intervals; otherwise the clamped overlap length, never negative; positive exactly when two proper intervals overlap |
| Rects.CommonLengthSymmetric | main/rectpacking/Rect.java:134-139 | the common length does not depend on the order of the two intervals |
| Rects.CommonHorizLength | main/rectpacking/Rect.java:103-108 | the result never exceeds either width; when positive it is the common length of the two x-intervals |
| Rects.CommonVertLength | main/rectpacking/Rect.java:115-120 | the result never exceeds either height; when positive it is the common length of the two y-intervals |
| Rects.CommonProjectionLengths | main/rectpacking/Rect.java:103-120 | the horizontal and vertical common lengths are symmetric and, for rects of positive size, positive exactly when the projections overlap |
| Rects.IsOverlapping | main/rectpacking/Rect.java:146-162 | an overlap implies overlapping projections on both axes, and for rects of positive size the two are equivalent |
| Rects.OverlappingSymmetric | main/rectpacking/Rect.java:146-162 | `a.isOverlapping(b)` equals `b.isOverlapping(a)` |
| Rects.IsTouching | main/rectpacking/Rect.java:165-184 | only a vertical or horizontal segment can touch. For a rect of positive size and a proper vertical segment, touching holds exactly when the left or right edge lies on the segment's line and the y-ranges share positive length; the horizontal case is the same with the axes swapped |
| Rects.IsContainedIn | main/rectpacking/Rect.java:127-132 | a contained rect is no wider and no taller than its container; a contained rect of positive size makes the container of positive size too, and the two overlap |
| Rects.ContainedInReflexive | main/rectpacking/Rect.java:127-132 | every rect is contained in itself |
| Rects.ContainedInTransitive | main/rectpacking/Rect.java:127-132 | containment is transitive |
| Rects.MutualContainmentIsEquals | main/rectpacking/Rect.java:187-200 | two rects contain each other exactly when `equals` holds |
| Rects.Equals | main/rectpacking/Rect.java:187-200 | two rects are `equals` exactly when they agree on everything except the stored area and the score |
| Rects.ContainedDoesNotOverlap | main/rectpacking/Rect.java:127-132 | a rect inside `b` overlaps nothing whose projections miss `b` |
| Rects.Wrap32 | main/rectpacking/Rect.java:203-210 | the result is in the 32-bit range and congruent to the input modulo 2^32 |
| Rects.HashCode | main/rectpacking/Rect.java:203-210 | the hash code is a 32-bit signed integer |
| Rects.EqualsHashCode | main/rectpacking/Rect.java:203-210 | rects that are `equals` have the same hash code |
| RectAreaComparator.IntegerCompare | main/rectpacking/RectAreaComparator.java:13 | the result is -1, 0 or 1 and its sign is the order of the arguments |
| RectAreaComparator.Compare | main/rectpacking/RectAreaComparator.java:12-14 | negative, zero or positive exactly when the first rect's area is larger, equal or smaller |
| RectAreaComparator.CompareAntisymmetric | main/rectpacking/RectAreaComparator.java:12-14 | swapping the arguments flips the sign |
| RectAreaComparator.CompareTransitive | main/rectpacking/RectAreaComparator.java:12-14 | "before" and "tied" are transitive |
| RectAreaComparator.CompareIgnoresOrientation | main/rectpacking/RectAreaComparator.java:12-14 | rotation and removing packing info do not change the order |
| BinGeometry.Overlapping | main/rectpacking/Bin.java:169-173 | the bin's overlap test holds exactly when the two rects' projections overlap on both axes |
| BinGeometry.PackingFeasible | main/rectpacking/Bin.java:151-167 | a feasible packing puts every rect with non-negative sides inside the bin's area from the origin; no two packed rects of positive size share interior, in either order |
| BinGeometry.OverlappingAgrees | main/rectpacking/Bin.java:169-173 | the bin's overlap test is projection overlap, is symmetric, is implied by `Rect.isOverlapping` and agrees with it on rects of positive size |
| BinGeometry.AreaSumNonNegative | main/rectpacking/Bin.java:132-135 | the occupied area of rects with non-negative sides is non-negative |
| BinGeometry.AreaSumPositive | main/rectpacking/Bin.java:132-135 | for rects of positive size the occupied area is never negative, and is zero exactly when nothing is packed |
| BinGeometry.Contacts | main/rectpacking/Bin.java:219-232 | with non-negative sizes the contact with the packed rects, summed in list order, is never negative |
| BinGeometry.TouchingPerimeterOf | main/rectpacking/Bin.java:219-232 | with non-negative sizes the touching perimeter is never negative; in an empty bin, a rect that keeps off all four walls touches nothing |
| BinGeometry.TouchingPerimeterAtEmptyOrigin | main/rectpacking/Bin.java:219-232 | in an empty bin a rect at the origin touches width plus height |
| BinGeometry.SquaredDistance | main/rectpacking/Bin.java:239-245 | the squared distance is non-negative and zero exactly for equal points |
| Heuristics.Scan | main/rectpacking/MaxSpaceBin.java:83-104 | the scan ends with no candidate or with a valid free-rect index and a finite key |
| Heuristics.ScanSummarises | main/rectpacking/MaxSpaceBin.java:83-104 | the scan keeps its loop invariant: the held candidate beats the bound, no visited candidate beats it, and every earlier admissible candidate is strictly worse |
| Heuristics.ChoiceIsFirstBest | main/rectpacking/MaxSpaceBin.java:79-211 | the heuristic picks nothing exactly when no admissible candidate beats the starting bound; otherwise it picks the first candidate with the best key |
| Heuristics.FirstBestUnique | main/rectpacking/MaxSpaceBin.java:79-211 | at most one candidate is the first best, so the choice is determined |
| Heuristics.AdmissibleBeatsBound | main/rectpacking/MaxSpaceBin.java:126-161 | with non-negative sizes every admissible candidate beats the starting bound (wasted area below `Integer.MAX_VALUE`, measure above -1) |
| Heuristics.EvaluateNoneIffNothingFits | main/rectpacking/MaxSpaceBin.java:105-110 | an evaluation returns nothing exactly when no free rect admits the item upright, nor rotated when rotation is on |
| Heuristics.EvaluatePlacement | main/rectpacking/MaxSpaceBin.java:111-117 | a returned rect is the first best candidate's placement: oriented sides, the free rect's corner, inside that free rect, the item's area, the candidate's score |
| Heuristics.Evaluate | main/rectpacking/MaxSpaceBin.java:24-33 | with no free rect nothing is returned; a returned rect is scored, has the item's area, and has the item's sides, swapped only when rotation is allowed |
| FreeSpace.RegeneratedStep | main/rectpacking/MaxSpaceBin.java:221-260 | one more free rect either joins the kept rects or adds its fragments |
| FreeSpace.RegenerationLoopStep | main/rectpacking/MaxSpaceBin.java:221-260 | the in-place list is the kept rects, then the unvisited rects, then the fragments; each iteration keeps that shape, whether it keeps the next rect or removes it and appends its fragments |
| FreeSpace.Fragments | main/rectpacking/MaxSpaceBin.java:224-255 | at most four fragments, each inside the free rect it was cut from and clear of the placed rect |
| FreeSpace.FragmentsOf | main/rectpacking/MaxSpaceBin.java:221-260 | the kept rects and the fragments together number at most four per old free rect |
| FreeSpace.Regenerated | main/rectpacking/MaxSpaceBin.java:219-261 | a pass leaves at most four free rects per old free rect |
| FreeSpace.KeptKeepsMissed | main/rectpacking/MaxSpaceBin.java:223 | a free rect the placed rect does not overlap survives the pass |
| FreeSpace.FragmentsSplit | main/rectpacking/MaxSpaceBin.java:224-255 | an overlapped free rect yields at most four fragments; each has positive size, lies inside it and clears the placed rect; together they cover every unit cell of it outside the placed rect |
| FreeSpace.RegeneratedRects | main/rectpacking/MaxSpaceBin.java:219-261 | after a pass every free rect has positive size, lies inside an old free rect and does not overlap the placed rect |
| FreeSpace.RegeneratedCoversRest | main/rectpacking/MaxSpaceBin.java:219-261 | a pass loses no free space: every unit cell of an old free rect outside the placed rect lies in a new free rect |
| FreeSpace.NoContainmentIsFreeRectsFeasible | main/rectpacking/MaxSpaceBin.java:296-309 | "no free rect inside another" is equivalent to the free-rect checks of `isFeasible` (no duplicate, no inscribed rect) |
| FreeSpace.CoversAfterRemoval | main/rectpacking/MaxSpaceBin.java:266-284 | removing a free rect that lies inside another keeps every cover |
| FreeSpace.NoContainmentSubsequence | main/rectpacking/MaxSpaceBin.java:266-284 | removing free rects keeps the absence of containment, so pruning a pruned list is harmless |
| FreeSpace.PruneStep | main/rectpacking/MaxSpaceBin.java:266-284 | one pruning removal keeps the embedding into the original list, the cover and the settled pairs; a list with such a pair was not free of containment |
| MaxSpaceBins.WholeBin | main/rectpacking/Bin.java:67-73 | the starting free rect is the whole bin at the origin |
| MaxSpaceBins.ContainedInsideBin | main/rectpacking/Bin.java:155-158 | a rect inside a free rect that is within the bin passes the bounds checks |
| MaxSpaceBins.MaxSpaceBin.constructor | main/rectpacking/Bin.java:33-39 | a bin of the given size, with nothing packed, no free rect, zero area; it is valid |
| MaxSpaceBins.MaxSpaceBin.Copy | main/rectpacking/Bin.java:45-57 | the copy has the same size, area and lists, is `equals` to the original both ways, and is valid and feasible when the original is |
| MaxSpaceBins.MaxSpaceBin.Size | main/rectpacking/Bin.java:99-101 | the size is zero exactly when no rect is packed |
| MaxSpaceBins.MaxSpaceBin.SizeZeroIffNoArea | main/rectpacking/Bin.java:99-101 | in a valid bin the size is zero exactly when the occupied area is zero, and that area is never negative |
| MaxSpaceBins.MaxSpaceBin.Equals | main/rectpacking/Bin.java:248-255 | bins with the same packed and free lists are `equals`; `equals` bins have lists of the same lengths |
| MaxSpaceBins.MaxSpaceBin.SetupFreeRects | main/rectpacking/Bin.java:67-73 | the free list becomes the whole bin; nothing else changes |
| MaxSpaceBins.MaxSpaceBin.Init | main/rectpacking/Bin.java:89-93 | the bin is emptied with the whole bin free; it is then valid exactly when its sides are positive, and its packing is feasible |
| MaxSpaceBins.MaxSpaceBin.PackRect | main/rectpacking/Bin.java:132-135 | the rect is appended and its area added; the free rects stay; an exact area cache stays exact |
| MaxSpaceBins.MaxSpaceBin.PackingIsFeasible | main/rectpacking/Bin.java:151-167 | returns true exactly when every packed rect is within the bin and no two overlap |
| MaxSpaceBins.MaxSpaceBin.IsFeasible | main/rectpacking/MaxSpaceBin.java:292-311 | returns true exactly when the packing is feasible and no free rect duplicates or lies inside another |
| MaxSpaceBins.MaxSpaceBin.ValidIsFeasible | main/rectpacking/MaxSpaceBin.java:292-311 | a valid bin with a feasible packing passes `isFeasible` |
| MaxSpaceBins.MaxSpaceBin.ComputeTouchingPerimeter | main/rectpacking/Bin.java:219-232 | the loop returns the wall contact plus the contact with every packed rect, in list order |
| MaxSpaceBins.MaxSpaceBin.InsertTopRightCornerDistance | main/rectpacking/MaxSpaceBin.java:79-118 | the loop returns the reference evaluation for this heuristic |
| MaxSpaceBins.MaxSpaceBin.InsertTouchingPerimeter | main/rectpacking/MaxSpaceBin.java:126-161 | the loop returns the reference evaluation for this heuristic |
| MaxSpaceBins.MaxSpaceBin.InsertBestArea | main/rectpacking/MaxSpaceBin.java:169-211 | the loop, with its tie-break on the shorter leftover side, returns the reference evaluation for this heuristic |
| MaxSpaceBins.MaxSpaceBin.EvaluatePacking | main/rectpacking/MaxSpaceBin.java:24-33 | returns the reference evaluation for the given heuristic, leaving the bin unchanged |
| MaxSpaceBins.MaxSpaceBin.EvaluationInsertable | main/rectpacking/MaxSpaceBin.java:36-70 | a placement returned by a valid bin has positive size, is placed and lies in a free rect, so `insert` packs that very rect; the item fits an empty bin |
| MaxSpaceBins.MaxSpaceBin.EvaluationInEmptyBin | main/rectpacking/MaxSpaceBin.java:24-33 | in a freshly initialised bin an item is placed exactly when it fits the bin in an allowed orientation |
| MaxSpaceBins.MaxSpaceBin.AppendFragments | main/rectpacking/MaxSpaceBin.java:224-255 | appends exactly the bottom, top, left and right fragments, in that order |
| MaxSpaceBins.MaxSpaceBin.GenerateFreeSpaces | main/rectpacking/MaxSpaceBin.java:219-261 | the free list becomes the regenerated list; the packed rects and area stay |
| MaxSpaceBins.MaxSpaceBin.RegenerateList | main/rectpacking/MaxSpaceBin.java:220-260 | the remove-and-append loop yields the kept rects followed by all fragments |
| MaxSpaceBins.MaxSpaceBin.PruneMaxSpaces | main/rectpacking/MaxSpaceBin.java:266-284 | the result is a subsequence of the old list with no free rect inside another, still covers every old free rect, and equals the old list when that was already pruned |
| MaxSpaceBins.MaxSpaceBin.PruneAgainst | main/rectpacking/MaxSpaceBin.java:269-282 | the inner loop keeps the embedding, the cover and the settled pairs; when rect `i` survives it is free of containment with every later rect |
| MaxSpaceBins.MaxSpaceBin.Insert | main/rectpacking/MaxSpaceBin.java:36-70 | succeeds exactly when there is a placement; on failure nothing changes; on success the placement is appended and the free list is a pruned subsequence covering the regenerated list; the invariant is kept, and feasibility too when the rect was evaluated or lies in a free rect |
| MaxSpaceBins.MaxSpaceBin.InsertKeepsInvariant | main/rectpacking/MaxSpaceBin.java:64-68 | packing, regenerating and pruning restore the bin invariant |
| MaxSpaceBins.MaxSpaceBin.InsertKeepsFeasible | main/rectpacking/MaxSpaceBin.java:64-68 | packing a rect that lies in a free rect keeps the packing within the bin and free of overlaps |
| RBPSolutions.JavaDiv | main/almadina/rectpacking/RBPSolution.java:155 | Java's integer division truncates toward zero: Euclidean division for a non-negative dividend, negated for a non-positive one |
| RBPSolutions.LowerBoundBrackets | main/almadina/rectpacking/RBPSolution.java:150-156 | for non-negative area the bound is at least one, and bound-1 bins hold no more than the area while bound bins hold more |
| RBPSolutions.LowerBoundAtLeastOne | main/almadina/rectpacking/RBPSolution.java:150-156 | with positive bin sides and items of positive size the bin area is non-zero and the lower bound is at least one, so `pack` starts with at least one bin |
| RBPSolutions.LowerBoundVersusCeiling | main/almadina/rectpacking/RBPSolution.java:155 | the returned value equals the ceiling of area over bin area, except on exact multiples, where it is one more |
| RBPSolutions.EvaluationsScored | main/almadina/rectpacking/RBPSolution.java:69-70 | every placement a bin returns carries a score |
| RBPSolutions.BestScoreIndex | main/almadina/rectpacking/RBPSolution.java:60-75 | the chosen bin is -1 or an index whose evaluation placed the item |
| RBPSolutions.BestScoreIndexIsFirstLowest | main/almadina/rectpacking/RBPSolution.java:60-75 | no bin is chosen exactly when none admits the item; otherwise no admitting bin scores lower than the chosen one, and every earlier admitting bin scores strictly higher |
| RBPSolutions.FirstAdmittingFrom | main/almadina/rectpacking/RBPSolution.java:105-116 | the result is -1 or an index at or after the start whose evaluation placed the item |
| RBPSolutions.FirstAdmittingIsFirst | main/almadina/rectpacking/RBPSolution.java:105-116 | no bin is chosen exactly when none admits the item; otherwise every bin before the chosen one refuses it |
| RBPSolutions.ChosenIndex | main/almadina/rectpacking/RBPSolution.java:60-75 | the bin a search chooses is -1 or an index whose evaluation placed the item |
| RBPSolutions.ChosenIndexMeaning | main/almadina/rectpacking/RBPSolution.java:60-75 | no bin is chosen exactly when none admits the item. Otherwise the first-fit search chooses the first admitting bin, and the best-score search a bin no admitting bin beats and that beats every earlier admitting bin |
| RBPSolutions.PackStepChoice | main/almadina/rectpacking/RBPSolution.java:59-86 | one item opens a new bin exactly when no open bin admits it. Otherwise only the chosen bin changes, gaining the placement evaluated there: for `packFirst` the first admitting bin, for `pack` the first lowest-scoring one |
| RBPSolutions.RBPSolution.constructor | main/almadina/rectpacking/RBPSolution.java:25-31 | a solution of the given bin size with no bins; valid exactly when the sides are positive |
| RBPSolutions.RBPSolution.Copy | main/almadina/rectpacking/RBPSolution.java:33-42 | a fresh copy of every bin, in order, each with the same lists and `equals` to its original; the copy is valid when the original is |
| RBPSolutions.RBPSolution.ComputeLowerBound | main/almadina/rectpacking/RBPSolution.java:150-156 | the loop returns the total item area divided as Java divides, plus one |
| RBPSolutions.RBPSolution.OpenNewBin | main/almadina/rectpacking/RBPSolution.java:144-148 | a fresh, empty bin of the given size with the whole bin free; valid and feasible when the sides are positive |
| RBPSolutions.RBPSolution.ChooseBestBin | main/almadina/rectpacking/RBPSolution.java:60-75 | the bin loop of `pack` returns the index `BestScoreIndex` names and that bin's placement |
| RBPSolutions.RBPSolution.FirstAdmittingBin | main/almadina/rectpacking/RBPSolution.java:102-116 | the bin loop of `packFirst` returns the first admitting bin and its placement |
| RBPSolutions.RBPSolution.OpenBinWith | main/almadina/rectpacking/RBPSolution.java:82-83 | the new bin is valid and feasible. Its state is that of an empty bin into which the placement evaluated there was inserted, or the empty bin when no placement exists; it holds the item exactly when the item fits an empty bin |
| RBPSolutions.RBPSolution.PackIntoBin | main/almadina/rectpacking/RBPSolution.java:77-79 | the chosen bin gets the evaluated placement appended to its packed rects and its free list regenerated and pruned. Every other bin keeps its state; all bins stay valid and feasible; the total packed count grows by one |
| RBPSolutions.RBPSolution.AppendBinWith | main/almadina/rectpacking/RBPSolution.java:81-85 | the list grows by one fresh bin at the end, whose state is an empty bin opened with the item. The earlier bins keep their states, and the packed count grows by one exactly when the item fits an empty bin |
| RBPSolutions.RBPSolution.PackItem | main/almadina/rectpacking/RBPSolution.java:59-86 | the bin states before and after one item are a `PackStep`: the item goes into the bin the search chooses, and a new bin is opened only when none admits it. The list keeps its bins, all stay valid and feasible, and the packed count grows by one exactly when the item fits an empty bin |
| RBPSolutions.RBPSolution.PackChosen | main/almadina/rectpacking/RBPSolution.java:76-79 | inserting into the chosen bin is the `PackStep` of the item; the item fits an empty bin and the packed count grows by one |
| RBPSolutions.RBPSolution.PackNew | main/almadina/rectpacking/RBPSolution.java:80-85 | appending a bin opened with the item is the `PackStep` of an item no bin admits; the packed count grows by one exactly when the item fits an empty bin |
| RBPSolutions.RBPSolution.ChooseBin | main/almadina/rectpacking/RBPSolution.java:63-74 | returns the index `ChosenIndex` names for the search in use, and that bin's evaluation |
| RBPSolutions.RBPSolution.OpenBins | main/almadina/rectpacking/RBPSolution.java:55-57 | opens the given number of fresh, valid, feasible bins, each in the empty state with the whole bin free |
| RBPSolutions.RBPSolution.PackItems | main/almadina/rectpacking/RBPSolution.java:59-86 | the item loop returns a trace in which each item takes one `PackStep` from the previous bin states. It starts at the incoming states and ends at the returned ones, adds at most one bin per item, and packs exactly the items that fit an empty bin |
| RBPSolutions.RBPSolution.PackNext | main/almadina/rectpacking/RBPSolution.java:58-86 | one turn of the item loop extends the trace by the item's `PackStep` and keeps the trace's start |
| RBPSolutions.RBPSolution.PackAll | main/almadina/rectpacking/RBPSolution.java:53-86 | a run from the given number of empty bins, one `PackStep` per item, to the returned bins. There are at least that many bins and at most one more per item, and exactly the items that fit an empty bin are packed |
| RBPSolutions.RBPSolution.Pack | main/almadina/rectpacking/RBPSolution.java:50-88 | the solution is valid with fresh bins and holds exactly the items that fit an empty bin. The returned trace starts from lower-bound-many empty bins and takes one `PackStep` per item, choosing the first lowest-scoring bin, to the final bin states. The bin count lies between the lower bound and the lower bound plus the item count |
| RBPSolutions.RBPSolution.PackFirst | main/almadina/rectpacking/RBPSolution.java:95-129 | the solution is valid with between one and one plus the item count fresh bins, and holds exactly the items that fit an empty bin. The returned trace starts from one empty bin and takes one `PackStep` per item, choosing the first admitting bin, to the final bin states |
| RBPSolutions.RBPSolution.IsFeasible | main/almadina/rectpacking/RBPSolution.java:135-142 | returns true exactly when every bin passes its feasibility check, and always for a valid solution |
| RBPSolutions.RBPSolution.NumberOfBins | main/almadina/rectpacking/RBPSolution.java:158-160 | in a valid solution the stored count is the number of bins |

## Left out

- Integer width: sizes, coordinates, areas and perimeters are unbounded integers. Java's 32-bit overflow is modelled only in `hashCode` (`Rects.Wrap32`). Instances are assumed small enough not to overflow.
- Scores are integers, not doubles. The touching perimeter is a sum of integers. The corner distance is compared squared, because the square root does not change the order. `Unscored` stands for positive infinity.
- `getOccupancy` and `getTouchingPerimeter` of `Bin` are left out: they are floating-point ratios used only for reporting.
- `canRotate` is a static global in the source. Here it is a parameter of every operation that reads it.
- Rect is mutable in the source. It is a value here. `removePackingInfo` in `pack` and `packFirst` also clears the position and score of the caller's own list element; the model does not change the caller's list.
- `Rect.of` and the copy constructor `Rect(Rect)` are not modelled separately, because copying a value is the identity. `Rect.toString` and the message `isTouching` prints for a diagonal segment are I/O.
- `Bin.hashCode` is not modelled: it hashes the two lists through `Objects.hashCode`. `Bin.equals` is modelled as `MaxSpaceBin.Equals`.
- `Bin.isEmpty`, `getPackedRect`, `getPackedArea` and `getBins` are left out: they only read a field, and the fields are visible here.
- `toString` of the solution and of the bin are I/O. So are the `Instance`, `Main` and `RectPacking` drivers, which are not part of this model.
- The `default` branches of the heuristic switches cannot be taken: the heuristic enumeration has exactly three values, and a `match` here covers them.
- RBPSolutions.RBPSolution.constructor: the source leaves `binList` null until `pack` runs, so copying or checking an unpacked solution throws a null-pointer exception there. The model starts with an empty list.
- RBPSolutions.RBPSolution.ComputeLowerBound: requires a non-zero bin area. Java throws `ArithmeticException` when it is zero; that exception is not modelled.
- RBPSolutions.RBPSolution.Pack: requires positive bin sides and items of positive size. The source does not check either; with zero sides it throws on the division, and with negative or degenerate sizes the geometry loses its meaning.
- RBPSolutions.RBPSolution.PackFirst: same preconditions as `Pack`. The lower bound `packFirst` computes and then overwrites before any use is not computed.
- MaxSpaceBins.MaxSpaceBin.Insert: requires a rect of positive size, for the same reason.
- RBPSolutions.RBPSolution.PackItem: strips the item's packing information once, before the bin search. The source does it inside the bin loop, so the two differ only on an empty bin list. `pack` (bound at least one) and `packFirst` (one bin) never search an empty list.
- The bin loops and the item loop of `pack` and `packFirst` are static methods. They work on a local bin list that is stored into the fields at the end. The bins themselves are updated in place.
- `generateFreeSpaces` and `pruneMaxSpaces` run their loops on a local copy of the free list (`RegenerateList`, `PruneAgainst`) and store the result once. Nothing else reads the list during the pass, so only the timing of the updates differs.
- The free rects are proved to be free, inside the bin, free of mutual containment and to lose no free cell. That each one is *maximal* is not proved.
- RBPSolutions.PackStep: pins the receiving bin's new free list only as a subsequence of the regenerated list that still covers it, which is what `pruneMaxSpaces` is proved to yield. So the trace fixes every bin's packed rects and every choice made from the given states, but does not by itself determine the exact free lists, and therefore not the later choices, from the first states alone.
- A fragment copies the free rect it was cut from, so it keeps that rect's stale stored `area` and `score`, as in the source. No contract relies on those two fields of a free rect.
