/** Worked inputs for the suppressor at the face detector's threshold 0.3.
    Each lemma fixes the boxes, takes any order the bottom-edge sort may
    produce, and pins down the unique result. */
module NmsScenarios {
  import opened BoxGeometry
  import opened NonMaxSuppression

  /** The result for boxes at the face detector's threshold, given a sort order. */
  function KeptAtCallerThresh(boxes: seq<Box>, order: seq<nat>): seq<Box>
    requires ValidIndices(boxes, order)
  {
    Select(boxes, Greedy(boxes, order, OverlapExceeds(CallerOverlapThresh)))
  }

  /** When the boxes are listed with strictly ascending bottom edges, the
      sort can only return the indices in their own order. */
  lemma StrictlyAscendingOrder(boxes: seq<Box>, order: seq<nat>)
    requires IsBottomOrder(boxes, order)
    requires forall j, k :: 0 <= j < k < |boxes| ==> Y2(boxes[j]) < Y2(boxes[k])
    ensures forall j, k :: 0 <= j < k < |order| ==> order[j] < order[k]
  {
    forall j, k | 0 <= j < k < |order|
      ensures order[j] < order[k]
    {
      assert order[j] < |boxes| && order[k] < |boxes|;
      assert Y2(boxes[order[j]]) <= Y2(boxes[order[k]]);
    }
  }

  lemma SelectPair(boxes: seq<Box>, i: nat, j: nat)
    requires i < |boxes| && j < |boxes|
    ensures Select(boxes, [i, j]) == [boxes[i], boxes[j]]
  {
  }

  // The boxes of the worked inputs: A and B overlap heavily, C meets neither.
  const A := Box(0, 0, 10, 10)
  const B := Box(1, 1, 10, 10)
  const C := Box(100, 100, 10, 10)

  /** B covers 10 x 10 of the 11 x 11 pixels of A. */
  lemma OverlapBA()
    ensures Intersection(B, A) == 100
    ensures Overlap(B, A) == 100.0 / 121.0
    ensures Overlap(B, A) > CallerOverlapThresh
  {
    assert Span(1, 11, 0, 10) == 10;
    assert Area(A) == 121;
  }

  /** At the face detector's threshold B drops A. */
  lemma BDropsA()
    ensures OverlapExceeds(CallerOverlapThresh)(B, A)
  {
    OverlapBA();
    OverlapExceedsMeans(CallerOverlapThresh, B, A);
  }

  /** At the face detector's threshold C drops neither A nor B. */
  lemma CDropsNone()
    ensures !OverlapExceeds(CallerOverlapThresh)(C, A) && !OverlapExceeds(CallerOverlapThresh)(C, B)
  {
    OverlapExceedsExtremes(CallerOverlapThresh, C, A);
    OverlapExceedsExtremes(CallerOverlapThresh, C, B);
  }

  /** The suppression loop on two boxes in ascending order: the second is
      kept, and the first with it unless the second drops it. */
  lemma GreedyOnTwo(boxes: seq<Box>, drop: (Box, Box) -> bool)
    requires |boxes| == 2
    ensures drop(boxes[1], boxes[0]) ==> Select(boxes, Greedy(boxes, [0, 1], drop)) == [boxes[1]]
    ensures !drop(boxes[1], boxes[0]) ==> Select(boxes, Greedy(boxes, [0, 1], drop)) == [boxes[1], boxes[0]]
  {
    assert Greedy(boxes, [], drop) == [];
    assert Survivors(boxes, 0, [], drop) == [];
    assert Greedy(boxes, [0], drop) == [0];
    assert [0, 1][..1] == [0];
    SelectPair(boxes, 1, 0);
  }

  /** The suppression loop on three boxes in ascending order, when the last
      drops neither of the others and the middle one drops the first. */
  lemma GreedyOnThree(boxes: seq<Box>, drop: (Box, Box) -> bool)
    requires |boxes| == 3
    requires !drop(boxes[2], boxes[0]) && !drop(boxes[2], boxes[1]) && drop(boxes[1], boxes[0])
    ensures Greedy(boxes, [0, 1, 2], drop) == [2, 1]
  {
    assert [0, 1, 2][..2] == [0, 1];
    assert Survivors(boxes, 2, [1], drop) == [1];
    assert Survivors(boxes, 2, [0, 1], drop) == [0, 1];
    assert Survivors(boxes, 1, [0], drop) == [];
    assert Greedy(boxes, [], drop) == [];
    assert Greedy(boxes, [0, 1], drop) == [1];
  }

  /** The worked inputs in their only bottom-edge order. */
  lemma KeptInOrder()
    ensures KeptAtCallerThresh([A, B], [0, 1]) == [B]
    ensures KeptAtCallerThresh([A, C], [0, 1]) == [C, A]
    ensures KeptAtCallerThresh([A, B, C], [0, 1, 2]) == [C, B]
  {
    BDropsA();
    CDropsNone();
    GreedyOnTwo([A, B], OverlapExceeds(CallerOverlapThresh));
    GreedyOnTwo([A, C], OverlapExceeds(CallerOverlapThresh));
    GreedyOnThree([A, B, C], OverlapExceeds(CallerOverlapThresh));
    SelectPair([A, B, C], 2, 1);
  }

  // The sort on the bottom edges has only one outcome for each worked input.

  lemma OnlyOrderOfTwo(boxes: seq<Box>, order: seq<nat>)
    requires |boxes| == 2 && Y2(boxes[0]) < Y2(boxes[1])
    requires IsBottomOrder(boxes, order)
    ensures order == [0, 1]
  {
    StrictlyAscendingOrder(boxes, order);
    assert |order| == 2 && order[0] < order[1] < 2;
  }

  lemma OnlyOrderOfThree(boxes: seq<Box>, order: seq<nat>)
    requires |boxes| == 3 && Y2(boxes[0]) < Y2(boxes[1]) < Y2(boxes[2])
    requires IsBottomOrder(boxes, order)
    ensures order == [0, 1, 2]
  {
    StrictlyAscendingOrder(boxes, order);
    assert |order| == 3 && order[0] < order[1] < order[2] < 3;
  }

  /** Two heavily overlapping boxes: only the one reaching further down
      survives. */
  lemma OverlappingPairKeepsLower(kept: seq<Box>)
    requires IsNmsResult([A, B], CallerOverlapThresh, kept)
    ensures kept == [B]
  {
    var order :| IsBottomOrder([A, B], order) && kept == KeptAtCallerThresh([A, B], order);
    OnlyOrderOfTwo([A, B], order);
    KeptInOrder();
  }

  /** Two disjoint boxes both survive, the one reaching further down first. */
  lemma DisjointPairKeepsBoth(kept: seq<Box>)
    requires IsNmsResult([A, C], CallerOverlapThresh, kept)
    ensures kept == [C, A]
  {
    var order :| IsBottomOrder([A, C], order) && kept == KeptAtCallerThresh([A, C], order);
    OnlyOrderOfTwo([A, C], order);
    KeptInOrder();
  }

  /** A and B overlap heavily and neither meets C: C and the lower of A and
      B survive. */
  lemma PairAndLoneBox(kept: seq<Box>)
    requires IsNmsResult([A, B, C], CallerOverlapThresh, kept)
    ensures kept == [C, B]
  {
    var order :| IsBottomOrder([A, B, C], order) && kept == KeptAtCallerThresh([A, B, C], order);
    OnlyOrderOfThree([A, B, C], order);
    KeptInOrder();
  }
}
