# segmentImage: raster-graph segmentation and segment reduction

This project models the integer core of segmentImage, a browser tool that splits an image into regions of equal colour class. It has two parts.

- **The raster graph (segmenter.js).** A `w×h` pixel grid stores its 4-neighbour edges as one byte per pixel. Bit 1 is the edge to the east neighbour and bit 2 the edge to the south neighbour. Edges can only be cut. `connectedComponents` flood-fills the graph with an explicit stack. `segmenter` cuts every edge between pixels of different classes. The bounding-box loop of `segmentComponent` is also modelled.
- **Segment reduction (sketch.js).**
  - `compressArray` removes `undefined` slots.
  - `mergeablePairs` chooses for each segment its most popular other neighbour class.
  - `reduceSegments` merges candidate pairs with a union–find parent map, compacts the list and wraps each classifier with the final class map.
  - `mergeBackground` and `mergeBySegmentClass` group segments by class.

## Modules

- `Grid` (grid.dfy): the edge mask as pure functions on `seq<bv8>`, with:
  - the neighbour relation `Linked` that the flood fill follows;
  - what a cut does;
  - the partition and closure predicates for component lists.
- `FloodFill` (fill.dfy): the invariants of the flood fill and the lemmas that carry them through one step.
- `Segmentation` (segmentation.dfy): the mask half-way through and at the end of `segmenter`, and what that means for components.
- `Raster` (raster.dfy):
  - the class `RasterGraph`, whose fields are the byte `array` `m` and the counter `cuts`;
  - its methods, including the flood fill and the bounding box;
  - the method `Segmenter`.
- `Segments` (segments.dfy):
  - segment records;
  - `Merge`, an abstraction of the segment object's `merge`;
  - `Squeeze`, the value `compressArray` leaves;
  - the class `SegmentList`, the in-place `segs` array with `Compress`.
- `EagerReduce` (eager_reduce.dfy):
  - an eager reference for `reduceSegments`, in which every class carries its final class directly;
  - the `Forest` invariant, which ties the lazy parent map `sClass` to that reference.
- `Pairs` (pairs.dfy): `mergeablePairs`, with the index loop, the neighbour scan and the emitted pairs.
- `Reduce` (reduce.dfy): `reduceSegments` as a method on a `SegmentList`, proved against the eager reference.
- `Grouping` (grouping.dfy): `mergeBackground` and `mergeBySegmentClass`, with the global `segs` as parameter and result.

How the source's inputs are modelled:
- The per-pixel classifier of `segmenter` is a precomputed `seq<int>` of classes in row-major order.
- `pastEnd` is the class `pclass` returns for the read past the end of the image that the last-row loop makes.
- A segment is its class, its pixel list and its classifier `pClass`. `merge` appends the other segment's pixels.
- `neighborCount()` results are an input (`nbs`), one count per class or `None`.
- The colour distance is an input function over positions in `segs`.
- `mergeable` is a parameter, as in the source.

## Model

| member | source | states |
|---|---|---|
| Grid.QuerySymmetric | segmenter.js:38-50 | getEdge(p, q) and getEdge(q, p) read the same byte and the same bit. |
| Grid.CutClearsBothWays | segmenter.js:22-34 | After cutEdge(p, q), getEdge is 0 from both endpoints. |
| Grid.CutIdempotent | segmenter.js:22-34 | Cutting the same edge twice leaves the mask as one cut does. |
| Grid.ClearTouchesOneBit | segmenter.js:59-75 | A cut changes only the one byte, clears only the one bit, and keeps the byte's other bits. |
| Grid.ClearIdempotent | segmenter.js:59-75 | Repeating cutEastEdge/cutSouthEdge leaves the mask as one call does. |
| Grid.ClearOnlyRemoves | segmenter.js:59-75 | A cut never creates an edge: any pair the flood fill joins after a cut it joined before. |
| Grid.LinkedSymmetric | segmenter.js:91-102 | The four neighbour tests of the flood fill are symmetric. |
| Grid.LinkedIffEdge | segmenter.js:38-50 | The flood fill's tests join two in-grid pixels iff they are 4-neighbours and getEdge between them is non-zero. |
| Grid.FreshIsClosed | segmenter.js:15-17 | The fresh mask has no east bit in the last column, no south bit in the last row, and no other bits. |
| Grid.GrownIsReachable | segmenter.js:83-106 | Every member of a grown component is reached from its first member by a walk along present edges inside the component. |
| Raster.FreshMask | segmenter.js:5-17 | The mask the constructor builds holds, for every pixel, bit 1 iff it is not in the last column and bit 2 iff it is not in the last row. |
| Raster.CloseLastColumn | segmenter.js:16 | The first border loop clears the east bit of the last pixel of every row and nothing else. |
| Raster.CloseLastRow | segmenter.js:17 | The second border loop clears the south bit of every pixel of the last row and nothing else. |
| Raster.RasterGraph.constructor | segmenter.js:3-17 | A fresh graph has the given size, cuts == 0 and the fresh mask. |
| Raster.RasterGraph.CutEdge | segmenter.js:22-34 | cutEdge clears exactly the bit of the west- or north-most pixel's byte that records the p–q edge, and does not touch cuts. |
| Raster.RasterGraph.GetEdge | segmenter.js:38-50 | getEdge is 0 or the edge's bit, and is non-zero iff the flood fill joins the two pixels. |
| Raster.RasterGraph.GetEastEdge | segmenter.js:54-56 | getEastEdge is 0 or 1; it is 0 in the last column and otherwise non-zero iff the pixel is joined to its east neighbour. |
| Raster.RasterGraph.CutEastEdge | segmenter.js:59-62 | cutEastEdge clears bit 1 of the pixel's byte, nothing else in the mask, and adds exactly 1 to cuts. |
| Raster.RasterGraph.GetSouthEdge | segmenter.js:67-69 | getSouthEdge is 0 or 2; it is 0 in the last row and otherwise non-zero iff the pixel is joined to its south neighbour. |
| Raster.RasterGraph.CutSouthEdge | segmenter.js:72-75 | cutSouthEdge clears bit 2 of the pixel's byte, nothing else in the mask, and adds exactly 1 to cuts. |
| Raster.RasterGraph.Neighbours | segmenter.js:91-102 | The pixels pushed for pixel i are exactly the unvisited ones its present edges join it to, in the order above, below, left, right. |
| FloodFill.PushedIsLinked | segmenter.js:91-102 | A pixel is among those pushed for pixel i (the sequence `Neighbours` returns) iff it is unvisited and a present edge joins it to i. |
| Raster.RasterGraph.Visit | segmenter.js:83-106 | visit returns a duplicate-free component that starts at the seed and is made of unvisited pixels, now flagged visited. It is closed under present edges, and each member after the first is linked to an earlier one. |
| Raster.RasterGraph.VisitStep | segmenter.js:86-103 | One pop keeps the fill invariant, and either marks a new pixel or shrinks the stack. |
| Raster.RasterGraph.ConnectedComponents | segmenter.js:79-113 | The components partition the addresses 0..n-1 and each is non-empty. Each is closed under present edges and grown from its first member. That first member is the component's smallest address, and the first members strictly increase. |
| Raster.RasterGraph.ComponentBox | segmenter.js:128-137 | The corrected box, seeded from comp[0] in both coordinates, is the smallest box holding every member: each side touches a member. |
| Raster.RasterGraph.ComponentBoxAsWritten | segmenter.js:128-137 | The box as written, seeded from comp[1] for the rows: it holds every member and is tight when there are two members or more. A one-pixel component gets rows 0 to its own row. |
| Raster.RasterGraph.OnePixelBox | segmenter.js:129 | For the one-pixel component at the start of row 1, the as-written box starts at row 0 and the corrected one at row 1. |
| Raster.Segmenter | segmenter.js:175-212 | After segmenter, every pixel keeps exactly the east and south edges to neighbours of its own class. The read past the image end is included. |
| Raster.CutInterior | segmenter.js:180-191 | The nested loops decide the south and east edges of every pixel outside the last row and the last column: each is kept iff the two classes agree. |
| Raster.CutLastRow | segmenter.js:193-200 | The last-row loop decides the east edges of the bottom row. |
| Raster.CutLastColumn | segmenter.js:202-209 | The last-column loop decides the south edges of the rightmost column. |
| Raster.Regions | segmenter.js:175-212 | The components of a segmented graph partition the image and each holds a single class. A 4-neighbour of the same class as a member is in the same component. |
| Raster.UniformRegion | segmenter.js:180-209 | A classifier constant over the image yields exactly one component, holding every pixel. |
| Segmentation.SegmentedEdgeIffSameClass | segmenter.js:180-209 | In a segmented graph the edge between two 4-neighbours is present iff they have the same class. |
| Segmentation.SegmentedLinked | segmenter.js:91-102 | In a segmented graph the flood fill joins two addresses iff their pixels are 4-neighbours of the same class. |
| Segmentation.ComponentOneClass | segmenter.js:83-106 | Every member of a component grown in a segmented graph has the class of its first member. |
| Segmentation.ComponentHoldsRegion | segmenter.js:91-102 | A closed component holds every same-class 4-neighbour of each member. |
| Segmentation.NoDupShared | segmenter.js:108-111 | In a duplicate-free component list no address is in two components. |
| Segmentation.UniformIsOneComponent | segmenter.js:108-111 | A closed partition of one-class pixels into non-empty components has exactly one component. |
| Segments.Merge | sketch.js:179 | merge keeps the receiver's class and classifier, and its pixels become its own followed by the other segment's. |
| Segments.Squeeze | sketch.js:98-102 | The compacted list has no undefined slot, and its length is the number of defined slots. |
| Segments.SqueezeKeepsOrder | sketch.js:98-102 | The compacted list is the input read at strictly increasing positions, and those positions are exactly the defined slots. |
| Segments.SqueezeDefined | sketch.js:98-102 | A list without undefined slots is left unchanged. |
| Segments.SegmentList.Compress | sketch.js:98-102 | compressArray replaces the array in place by its defined slots in order. |
| EagerReduce.IndexOf | sketch.js:164-169 | The index maps exactly the classes of the list, each to the position of its segment. |
| EagerReduce.ForestStart | sketch.js:164-166 | At the start every class is its own parent and its own final class, with rank 0. |
| EagerReduce.ForestUnion | sketch.js:177-185 | A union of two different roots keeps the parent map acyclic. Every link climbs in rank and keeps the final class, and a class is its own parent iff it is its own final class. |
| EagerReduce.StepRootsClosed | sketch.js:181-183 | Relabelling one root to another root leaves every final class a fixed point. |
| EagerReduce.StepGood | sketch.js:172-185 | One pair keeps the reference state well-formed: for every root, its slot holds a segment of that class, and a non-root's slot is undefined. |
| EagerReduce.StepMerges | sketch.js:179-180 | A pair whose roots differ merges the segment at the second root's position into the one at the first root's position, two distinct defined slots, and empties the second. |
| EagerReduce.StepIdle | sketch.js:177 | A pair whose roots already agree changes nothing. |
| EagerReduce.ReduceAllGood | sketch.js:172-186 | The whole pairs loop keeps the reference state well-formed, with the same classes and the same list length. |
| EagerReduce.SurvivorCount | sketch.js:172-186 | The defined slots plus the pairs whose roots still differed when reached equal the original number of segments. |
| EagerReduce.SizeKept | sketch.js:179-180 | The pairs loop keeps the total number of pixels. |
| EagerReduce.CandidatesJoined | sketch.js:172-194 | After the loop, the two classes of every candidate pair have the same final class. |
| EagerReduce.ChainResolves | sketch.js:172-194 | With the pairs (A, B) then (B, C), the classes A, B and C all resolve to A. |
| EagerReduce.NoCandidates | sketch.js:158-209 | With no candidates the reference state is the initial one: every slot is defined and every class is its own final class. |
| Pairs.BuildIndex | sketch.js:118-123 | The index loop builds exactly the class-to-position map of the list. |
| Pairs.ScanBest | sketch.js:131-141 | jmax is -1 iff every eligible neighbour count is 0. Otherwise jmax is the first class, other than the segment's own and with a truthy index entry, whose count is the strictly largest positive one. sum plus the own-class count is the total. |
| Pairs.Tallied | sketch.js:126-141 | The neighbour loop computes the values of the scan. |
| Pairs.MergeablePairs | sketch.js:116-152 | mergeablePairs returns the choices of the segments in list order, undefined ones dropped. |
| Pairs.EmitOrder | sketch.js:125-150 | At most one pair per segment, in list order, and every segment with a choice contributes its pair. |
| Pairs.ChoicePair | sketch.js:142-149 | An emitted pair is the segment's own class and its best neighbour class. That class is a different class of the list, not at position 0. |
| Pairs.PairsAreClasses | sketch.js:142-149 | Every emitted pair joins two different classes of the list, which is what reduceSegments needs. |
| Reduce.MergedLive | sketch.js:172-186 | Throughout the pairs loop, the `index` entry of every final class is a defined slot, and distinct final classes have distinct slots. |
| Reduce.Chase | sketch.js:174 | The root-chasing loop terminates and returns the final class of its start. |
| Reduce.MergeCandidates | sketch.js:171-186 | The pairs loop leaves the slots of the eager reference, and a parent map that is a forest over its final classes. |
| Reduce.FinalClasses | sketch.js:188-195 | newClass maps every class to its final class, and each final class is a fixed point of sClass. |
| Reduce.Wrap | sketch.js:202-205 | The wrapped classifier maps a class through the final map: undefined when the original is undefined or not in the map. |
| Reduce.Relabelled | sketch.js:199-207 | (corrected reading) Each segment keeps its class and pixels. On every pixel its new classifier answers the final class of what its own old classifier answered, or undefined when that answer is undefined or not a class of the final map. |
| Reduce.WrapClassifiers | sketch.js:199-207 | The relabel loop wraps every segment's own old classifier (the corrected reading). |
| Reduce.ReduceSegments | sketch.js:158-209 | reduceSegments leaves the segments of the eager reference, compacted and relabelled, and returns the reference's final class map. |
| Reduce.ReducedCount | sketch.js:172-197 | The surviving segments plus the effective merges equal the original number of segments. |
| Reduce.ReducedPixels | sketch.js:172-197 | No pixel is lost: the survivors hold as many pixels as the original list. |
| Reduce.ReducedRoots | sketch.js:188-207 | Every surviving segment's class is its own final class. |
| Reduce.ReducedNothing | sketch.js:158-209 | With no candidates the list keeps its length, order, classes and pixels. Every classifier answers as before on undefined or on a class of the list. |
| Reduce.RelabelledAsWritten | sketch.js:199-207 | As written, classes and pixels are kept, but every segment gets the classifier that the corrected relabelling gives the last segment, because `orig` is one function-scoped variable. |
| Reduce.SharedOrigDiffers | sketch.js:199-207 | With two segments of different classifiers, the as-written relabel makes the first report the second's class. |
| Reduce.SharedOrigAgrees | sketch.js:199-207 | When all classifiers are equal, the as-written and corrected relabels agree. |
| Grouping.GatherFirst | sketch.js:221-226 | The first segment of a class ends up holding every pixel of that class in list order, keeping its own class and classifier. |
| Grouping.GatherSome | sketch.js:221-226 | A class some segment has is gathered into a segment. |
| Grouping.GatherNone | sketch.js:221-226 | A class no segment has gathers nothing. |
| Grouping.GatherClass | sketch.js:245 | The gathered segment of a class has that class. |
| Grouping.OthersOrder | sketch.js:227 | The non-background segments are kept in their order: exactly those of another class, at increasing positions. |
| Grouping.MergeBackground | sketch.js:215-234 | mergeBackground returns the non-background segments in order, followed by the merged background segment. |
| Grouping.BackgroundResult | sketch.js:217-231 | The merged background segment is segs[0], having absorbed the pixels of every later background segment after its own. |
| Grouping.MergeBySegmentClass | sketch.js:240-252 | mergeBySegmentClass returns the class-indexed array, grown past `colors` when needed, with its undefined slots removed. |
| Grouping.ByClassSlots | sketch.js:241-247 | Slot c of the array holds the gathered segment of class c, and no class past the array's end has a segment. |
| Grouping.ByClassResult | sketch.js:241-249 | The result has one segment per class present, in strictly ascending class order, each the gathered segment of its class. |

## Left out

- Raster.Segmenter: does not state the final value of `cuts`. The counter counts every cut call, including redundant ones and the one the read past the image end can add. Only the mask is specified.
- Raster.RasterGraph.ConnectedComponents: the order of members inside a component is stated only as "each member is linked to an earlier one". The exact order of the stack is not stated.
- Raster.RasterGraph.Visit: states the component and its flags, not the exact order of pushes beyond what `Neighbours` states.
- The canvas and `ImageData` work of `segmentedImages`/`segmentComponent`: DOM output. The unused `ns` is part of it. Only the bounding box is modelled.
- Image upload, drawing, the GUI, mouse handling and `segmentsToImages`: user interface and I/O.
- `colorDist` and `backgroundDiff`: floating-point colour arithmetic. The distance handed to `mergeable` is an input function over the positions of the two segments.
- The RgbQuant palette and the `nearestIndex` classifier: a foreign library. Classifiers are arbitrary functions, or a per-pixel class sequence for `segmenter`.
- The segment object: it is not defined in the modelled files. `merge` keeps class and classifier and appends pixels. Its other statistics, `neighborCount` and `avgColor`, are inputs or left out.
- `console.log`: dropped.
- `console.assert` on unique classes: a precondition (`DistinctClasses`).
- Candidate classes outside the list: `reduceSegments` requires both classes of every pair to be classes of the list (`PairsIn`). The source does not check this. For a class c that is not a key of `sClass`, `~~sClass[c]` is 0, so the chase goes on from class 0. When 0 is a class of the list, c silently joins the final class of 0: only defined slots are read, and c becomes a key of `sClass` when the two roots differ. When 0 is not a class of the list, the chase stops at 0 and `index[0]` is undefined, so a merge involving it reads an undefined slot (a TypeError when that slot is the receiver of `merge`); only a pair whose both ends reach 0 merges nothing. `Pairs.PairsAreClasses` shows that `mergeablePairs` always meets `PairsIn`.
- `~~` truncation: classes are natural numbers, on which `~~` is the identity. Fractional, negative or out-of-32-bit-range class values are not modelled.
- `mergeBackground` on an empty list: a precondition. The source fails reading `segs[0]`.
- Object identity: segments are values. Other references to a merged segment object, such as the old global `segs` array, do not see the merge.
- Reduce.FinalClasses: the for-in key order of `sClass` is not modelled. The loop picks keys in any order, and the result does not depend on it.
- Reduce.ReduceSegments: relabels by the corrected reading of the `orig` finding below (each segment wraps its own classifier). As written, every segment wraps the last one's; `Reduce.SharedOrigAgrees` shows the two agree when all classifiers are equal, and `Reduce.SharedOrigDiffers` gives two segments on which they differ.
- `Reduce.ReduceSegments` returns the final class map so that its contract can name it. The source keeps it only inside the closures.
- The global variables `segs`, `settings.colors` and `imgData`: parameters and results.

## Findings

| source | as written | input that shows it | evidently intended | confidence | as-written member | corrected member |
|---|---|---|---|---|---|---|
| segmenter.js:128-137 | The row range of the bounding box is seeded from `comp[1]`. For a one-pixel component `comp[1]` is undefined and `~~(undefined / w)` is 0, so the box starts at row 0. | The one-pixel component `[w]` (the first pixel of row 1): y0 is 0 instead of 1. | Seed both coordinates from `comp[0]`, which gives the tight box. | not executed | Raster.RasterGraph.ComponentBoxAsWritten | Raster.RasterGraph.ComponentBox |
| sketch.js:199-207 | `var orig` is function-scoped, so every wrapped classifier calls the value `orig` has after the loop: the last segment's old classifier. | Two segments with classifiers answering 0 and 1 and the identity final map: the first segment's new classifier answers 1. | Each segment wraps its own old classifier. | not executed | Reduce.SharedOrigDiffers | Reduce.WrapClassifiers |
