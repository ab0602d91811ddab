# Greedy non-maximum suppression of face detections

This project models `non_max_suppression_fast` from `src/edge/helper.py`. It is
the routine the edge face detector uses to reduce a set of overlapping
detection boxes to the boxes worth reporting. A box is `(x, y, w, h)` in pixels.
The routine works as follows:

1. It sorts the box indices by bottom edge `y + h`, in ascending order.
2. It repeatedly keeps the remaining candidate that reaches furthest down.
3. It discards that candidate, together with every other candidate whose
   overlap with it exceeds the threshold. Overlap is the shared area divided by
   the candidate's own area.
4. It returns the kept boxes in the order they were kept.

Areas are pixel-inclusive: a box of width `w` covers `w + 1` columns. Two boxes
that only touch along an edge still share a strip one pixel wide.

The model has three modules:

- `BoxGeometry` (`geometry.dfy`), the pure measures:
  - the box datatype;
  - its right and bottom edges;
  - the clamped one-dimensional intersection `Span`;
  - `Area`, `Intersection` and the asymmetric `Overlap` ratio, computed by
    exact rational division.
- `NonMaxSuppression` (`suppression.dfy`), the algorithm:
  - `ArgsortBottom` is the argsort on bottom edges, written as a recursive
    insertion function.
  - `Survivors` is one filtering step of the loop: the candidates that
    `np.delete` leaves in place.
  - `Greedy` is the whole loop, as a function of the candidate sequence.
  - `PickGreedily` is the imperative `while` loop itself, proved equal to
    `Greedy`.
  - `NonMaxSuppressionFast` is the routine: an early return on empty input,
    then the sort, the loop, and the selection of the kept boxes.
- `NmsScenarios` (`scenarios.dfy`): three worked inputs at the face detector's
  threshold 0.3.

The sort leaves the order of boxes with equal bottom edges unspecified. The
method's contract therefore says that the result is the greedy selection over
*some* ascending bottom-edge order of the indices (`IsNmsResult`). Every
property below is proved for every such order.

The greedy layer (`Survivors`, `Greedy` and their lemmas) takes the overlap
test as a function value `drop`. This keeps its induction proofs free of
arithmetic. The routine passes `OverlapExceeds(overlapThresh)` as that test,
and `OverlapExceedsMeans` states that it is exactly `Overlap(p, c) > t`.

For two disjoint boxes the result is in descending order of bottom edge, not
in input order: the loop keeps the last index of the ascending sort first.
`DisjointPairKeepsBoth` proves `[(100,100,10,10), (0,0,10,10)]`.

The face detector calls the routine with threshold 0.3
(`src/edge/face_detector_local.py:59`), which is also the routine's default
(`src/edge/helper.py:3`). The model names this value as the constant
`NonMaxSuppression.CallerOverlapThresh`, and the worked inputs use it.

## Model

| member | source | states |
|---|---|---|
| `NonMaxSuppression.NonMaxSuppressionFast` | src/edge/helper.py:3-29 | The result is the list of boxes picked by the greedy loop, in pick order, over an ascending bottom-edge order of all input indices. |
| `NonMaxSuppression.PickGreedily` | src/edge/helper.py:15-27 | The `while` loop returns exactly the picks `Greedy` defines. The invariant is that the picks so far, followed by the greedy picks of the remaining candidates, equal the greedy picks of the whole order. |
| `NonMaxSuppression.NmsResultProperties` | src/edge/helper.py:3-29 | Every result the routine may return has all of the properties below. |
| `NonMaxSuppression.KeptSelection` | src/edge/helper.py:4-29 | The result is empty for no input and is the input itself for one box. It is never longer than the input, every kept box is an input box unmodified, and as a multiset it is contained in the input, so no box is returned more often than it occurs in the input. Repeated values are ruled out only by `KeptSound`, at a threshold below 1. |
| `NonMaxSuppression.KeptOrder` | src/edge/helper.py:13-17 | The first kept box has the largest bottom edge of all inputs, and bottom edges never increase along the result. |
| `NonMaxSuppression.KeptSound` | src/edge/helper.py:18-27 | No kept box overlaps an earlier kept box by more than the threshold. At a threshold below 1 this also means no box value is kept twice. |
| `NonMaxSuppression.KeptComplete` | src/edge/helper.py:15-27 | Every input box is kept, or it overlaps by more than the threshold a kept box whose bottom edge is at or below its own. |
| `NonMaxSuppression.IsNmsResult` | src/edge/helper.py:13-29 | A result is admissible exactly when it is the selection of the greedy picks over some ascending bottom-edge order of all indices; this is the routine's specification, with the sort's tie order left open. An admissible result is never longer than the input and holds only input boxes; for no input, the empty result is the only admissible one. |
| `NonMaxSuppression.Select` | src/edge/helper.py:29 | `boxes[pick]`: one box per picked index, each of them an input box. |
| `NonMaxSuppression.OverlapExceeds` | src/edge/helper.py:24-27 | The drop test `overlap > overlap_thresh` as a function value; its meaning is stated by `OverlapExceedsMeans`. |
| `NonMaxSuppression.InsertByBottom` | src/edge/helper.py:13 | Inserting an index into an ascending index sequence gives an ascending sequence with that index added (a multiset equation). It stays free of repeats when the index was new. |
| `NonMaxSuppression.ArgsortBottom` | src/edge/helper.py:13 | The result is a repeat-free sequence of exactly the indices `0 .. n-1`, in ascending bottom-edge order. |
| `NonMaxSuppression.ArgsortIsBottomOrder` | src/edge/helper.py:13 | The sort of all indices is an order of the kind `IsNmsResult` ranges over. |
| `NonMaxSuppression.SelectSubMultiset` | src/edge/helper.py:29 | Selecting boxes at repeat-free indices takes each box at most as often as it occurs in the input. |
| `NonMaxSuppression.OverlapExceedsMeans` | src/edge/helper.py:24-27 | The drop test the routine uses holds exactly when the candidate's overlap with the kept box is greater than the threshold. |
| `NonMaxSuppression.OverlapExceedsExtremes` | src/edge/helper.py:22-27 | At a non-negative threshold, a candidate that shares no pixel with the kept box is never dropped. At a threshold below 1, a candidate lying inside the kept box always is. |
| `NonMaxSuppression.Survivors` | src/edge/helper.py:26-27 | One deletion step never adds candidates and only keeps valid indices. |
| `NonMaxSuppression.SurvivorsMember` | src/edge/helper.py:26-27 | An index survives the step if and only if it was among the remaining candidates and the kept box does not drop it. |
| `NonMaxSuppression.SurvivorsDistinct` | src/edge/helper.py:26-27 | The step keeps the candidates free of repeats. |
| `NonMaxSuppression.SurvivorsSorted` | src/edge/helper.py:26-27 | The step keeps the candidates in ascending bottom-edge order, because `np.delete` preserves the order of what remains. |
| `NonMaxSuppression.Greedy` | src/edge/helper.py:15-27 | The loop picks no more indices than it had candidates, picks only valid indices, and picks the last candidate first. |
| `NonMaxSuppression.GreedyMember` | src/edge/helper.py:15-27 | Only candidates are ever picked. |
| `NonMaxSuppression.GreedyDistinct` | src/edge/helper.py:15-27 | No index is picked twice. |
| `NonMaxSuppression.GreedyDescending` | src/edge/helper.py:15-27 | On an ascending candidate order the picks have non-increasing bottom edges, and the first pick reaches at least as far down as every candidate. |
| `NonMaxSuppression.GreedySound` | src/edge/helper.py:15-27 | No pick would have been dropped by an earlier pick. |
| `NonMaxSuppression.GreedyComplete` | src/edge/helper.py:15-27 | On an ascending candidate order, every candidate is picked or dropped by a pick whose bottom edge is at or below its own. |
| `NonMaxSuppression.GreedySingle` | src/edge/helper.py:15-27 | A lone candidate is picked. |
| `BoxGeometry.X2` | src/edge/helper.py:11 | The right edge `x + w`, never left of the left edge for a well-formed box. |
| `BoxGeometry.Y2` | src/edge/helper.py:11 | The bottom edge `y + h`, the sort key, never above the top edge for a well-formed box. |
| `BoxGeometry.Span` | src/edge/helper.py:18-23 | The clamped overlap of two pixel ranges is at least 0 and no more than either range's length. It is 0 exactly when the ranges are disjoint, 1 when they touch at an end, and the inner range's length when one range contains the other. |
| `BoxGeometry.Area` | src/edge/helper.py:11-12 | Every well-formed box covers at least one pixel, and at least `w + 1` and `h + 1` pixels. |
| `BoxGeometry.Intersection` | src/edge/helper.py:18-23 | The shared area is between 0 and each box's area. It is 0 exactly when the boxes are separated along some axis. |
| `BoxGeometry.Overlap` | src/edge/helper.py:24 | The overlap ratio lies in `[0, 1]`. It is 0 exactly when the boxes share no pixel, and 1 exactly when the shared area is the candidate's whole area. |
| `BoxGeometry.IntersectionSymmetric` | src/edge/helper.py:18-23 | The shared area does not depend on which box is the kept one. |
| `BoxGeometry.ContainedOverlapsFully` | src/edge/helper.py:24 | A candidate inside the kept box has overlap 1, however large the kept box is. This is what makes the measure asymmetric. |
| `BoxGeometry.OverlapSelf` | src/edge/helper.py:24 | A box overlaps itself completely. |
| `BoxGeometry.SharedEdgeOverlaps` | src/edge/helper.py:22-23 | Two boxes of equal height that only share a vertical edge have a one-pixel-wide intersection, so their overlap is positive. |
| `NmsScenarios.StrictlyAscendingOrder` | src/edge/helper.py:13 | When bottom edges strictly increase along the input, the sort keeps the input order. |
| `NmsScenarios.KeptInOrder` | src/edge/helper.py:15-29 | At threshold 0.3: `[A, B]` gives `[B]`, `[A, C]` gives `[C, A]`, and `[A, B, C]` gives `[C, B]`, where A = (0,0,10,10), B = (1,1,10,10) and C = (100,100,10,10). |
| `NmsScenarios.OverlappingPairKeepsLower` | src/edge/helper.py:3-29 | Every possible result for A and B at 0.3 is `[B]`. B covers 100 of A's 121 pixels. |
| `NmsScenarios.DisjointPairKeepsBoth` | src/edge/helper.py:3-29 | Every possible result for the disjoint A and C at 0.3 is `[C, A]`: the box reaching further down comes first. |
| `NmsScenarios.PairAndLoneBox` | src/edge/helper.py:3-29 | Every possible result for A, B and C at 0.3 is `[C, B]`. |

## Left out

- Floating point: the routine converts integer boxes to `float` (lines 6-8) and
  divides in floating point (line 24). The model uses integers and exact
  rational division, so rounding near the threshold is not modelled.
- The conversion back with `astype("int")` (line 29) returns the input values
  only when float64 represents them exactly (magnitude at most 2^53). Larger
  coordinates, which float64 rounds, and non-integer input boxes are outside
  the model.
- The tie order of `np.argsort` (line 13) is left open. `IsNmsResult` admits
  every ascending order of the indices. `ArgsortBottom` is one such order, a
  stable one.
- The default argument `overlap_thresh=0.3`: the model has no default
  parameters. The face detector's value is the constant
  `CallerOverlapThresh`.
- Boxes with negative width or height are excluded by the precondition
  `AllWellFormed`. The routine does not check for them, and for such boxes the
  area could be zero or negative.
- Threshold values are not validated, neither by the routine nor by the
  model. `OverlapExceedsExtremes` states its facts only for thresholds in the
  ranges where they hold.
- The numpy array layout (an `N x 4` array, column slicing) is modelled as a
  sequence of `Box` records. Inputs of any other shape are not modelled.
- `src/edge/face_detector_local.py` and `src/streaming/stream_webcam.py` are not part
  of this model. They read camera frames, run the cascade detector and display
  or send the results (I/O). Only their threshold of 0.3 appears here.
- `NonMaxSuppression.Survivors`: its own contract states only the length
  bound and index validity. Which candidates survive is stated by
  `SurvivorsMember`, `SurvivorsDistinct` and `SurvivorsSorted`.
