/** Greedy non-maximum suppression by bottom edge.

    The candidate indices are ordered by ascending bottom edge; the loop then
    repeatedly keeps the last remaining candidate (the one reaching furthest
    down) and drops every other candidate whose overlap with it, relative to
    the candidate's own area, exceeds the threshold. */
module NonMaxSuppression {
  import opened BoxGeometry

  /** Threshold the face-detection loop passes to the suppressor; also the
      suppressor's default. */
  const CallerOverlapThresh: real := 0.3

  predicate AllWellFormed(boxes: seq<Box>) {
    forall i :: 0 <= i < |boxes| ==> WellFormed(boxes[i])
  }

  /** Every entry of s indexes into boxes. */
  predicate ValidIndices(boxes: seq<Box>, s: seq<nat>) {
    forall k :: 0 <= k < |s| ==> s[k] < |boxes|
  }

  /** No index occurs twice in s. */
  predicate Distinct(s: seq<nat>) {
    forall j, k :: 0 <= j < k < |s| ==> s[j] != s[k]
  }

  /** The boxes named by s have ascending (non-decreasing) bottom edges. */
  predicate SortedByBottom(boxes: seq<Box>, s: seq<nat>)
    requires ValidIndices(boxes, s)
  {
    forall j, k :: 0 <= j < k < |s| ==> Y2(boxes[s[j]]) <= Y2(boxes[s[k]])
  }

  /** order is a permutation of the indices of boxes, ascending by bottom
      edge: what an argsort on the bottom edges may return, ties in any order. */
  predicate IsBottomOrder(boxes: seq<Box>, order: seq<nat>) {
    && |order| == |boxes|
    && ValidIndices(boxes, order)
    && Distinct(order)
    && (forall i: nat :: i < |boxes| ==> i in order)
    && SortedByBottom(boxes, order)
  }

  /** The boxes at the given indices, in the given order. */
  function Select(boxes: seq<Box>, pick: seq<nat>): (r: seq<Box>)
    requires ValidIndices(boxes, pick)
    ensures |r| == |pick| && forall k :: 0 <= k < |r| ==> r[k] in boxes
  {
    seq(|pick|, k requires 0 <= k < |pick| => boxes[pick[k]])
  }

  lemma SelectAppend(boxes: seq<Box>, a: seq<nat>, b: seq<nat>)
    requires ValidIndices(boxes, a) && ValidIndices(boxes, b)
    ensures ValidIndices(boxes, a + b) && Select(boxes, a + b) == Select(boxes, a) + Select(boxes, b)
  {
  }

  /** Selecting distinct indices takes every box at most as often as it
      occurs in the input. */
  lemma {:induction false} SelectSubMultiset(boxes: seq<Box>, pick: seq<nat>)
    requires ValidIndices(boxes, pick) && Distinct(pick)
    ensures multiset(Select(boxes, pick)) <= multiset(boxes)
    decreases |boxes|
  {
    if pick != [] {
      assert pick[0] < |boxes|;
      var n := |boxes| - 1;
      assert boxes == boxes[..n] + [boxes[n]];
      if n in pick {
        var m :| 0 <= m < |pick| && pick[m] == n;
        var rest := pick[..m] + pick[m + 1..];
        RemoveLastIndex(boxes, pick, m);
        SelectRemoveAt(boxes, pick, m);
        SelectPrefix(boxes, n, rest);
        SelectSubMultiset(boxes[..n], rest);
      } else {
        BelowLastIndex(boxes, pick);
        SelectPrefix(boxes, n, pick);
        SelectSubMultiset(boxes[..n], pick);
      }
    }
  }

  /** Taking the last index of boxes out of distinct indices leaves distinct
      indices into the boxes before it. */
  lemma RemoveLastIndex(boxes: seq<Box>, s: seq<nat>, m: nat)
    requires ValidIndices(boxes, s) && Distinct(s) && m < |s| && s[m] == |boxes| - 1
    ensures ValidIndices(boxes[..|boxes| - 1], s[..m] + s[m + 1..]) && Distinct(s[..m] + s[m + 1..])
  {
    var rest := s[..m] + s[m + 1..];
    forall k | 0 <= k < |rest|
      ensures rest[k] < |boxes| - 1
    {
      var k' := if k < m then k else k + 1;
      assert rest[k] == s[k'];
    }
    forall j, k | 0 <= j < k < |rest|
      ensures rest[j] != rest[k]
    {
      var j' := if j < m then j else j + 1;
      var k' := if k < m then k else k + 1;
      assert rest[j] == s[j'] && rest[k] == s[k'];
    }
  }

  lemma BelowLastIndex(boxes: seq<Box>, s: seq<nat>)
    requires ValidIndices(boxes, s) && |boxes| > 0 && |boxes| - 1 !in s
    ensures ValidIndices(boxes[..|boxes| - 1], s)
  {
    forall k | 0 <= k < |s|
      ensures s[k] < |boxes| - 1
    {
      assert s[k] in s;
    }
  }

  lemma SelectRemoveAt(boxes: seq<Box>, pick: seq<nat>, m: nat)
    requires ValidIndices(boxes, pick) && m < |pick|
    ensures ValidIndices(boxes, pick[..m] + pick[m + 1..])
    ensures multiset(Select(boxes, pick))
      == multiset(Select(boxes, pick[..m] + pick[m + 1..])) + multiset{boxes[pick[m]]}
  {
    assert pick == pick[..m] + [pick[m]] + pick[m + 1..];
    SelectAppend(boxes, pick[..m] + [pick[m]], pick[m + 1..]);
    SelectAppend(boxes, pick[..m], [pick[m]]);
    SelectAppend(boxes, pick[..m], pick[m + 1..]);
  }

  lemma SelectPrefix(boxes: seq<Box>, n: nat, s: seq<nat>)
    requires n <= |boxes| && ValidIndices(boxes[..n], s)
    ensures ValidIndices(boxes, s) && Select(boxes, s) == Select(boxes[..n], s)
  {
  }

  /** The boxes named by g have non-increasing bottom edges. */
  predicate DescendingByBottom(boxes: seq<Box>, g: seq<nat>)
    requires ValidIndices(boxes, g)
  {
    forall j, k :: 0 <= j < k < |g| ==> Y2(boxes[g[j]]) >= Y2(boxes[g[k]])
  }

  /** No entry of g would have been dropped by the test against an earlier one. */
  predicate NoneDroppedByEarlier(boxes: seq<Box>, g: seq<nat>, drop: (Box, Box) -> bool)
    requires ValidIndices(boxes, g)
  {
    forall j, k :: 0 <= j < k < |g| ==> !drop(boxes[g[j]], boxes[g[k]])
  }

  /** Index i is dropped by the test against an entry of g that reaches at
      least as far down. */
  predicate DroppedByPick(boxes: seq<Box>, g: seq<nat>, drop: (Box, Box) -> bool, i: nat)
    requires ValidIndices(boxes, g) && i < |boxes|
  {
    exists k :: 0 <= k < |g| && drop(boxes[g[k]], boxes[i]) && Y2(boxes[i]) <= Y2(boxes[g[k]])
  }

  /** Every entry of idxs is in g or dropped by an entry of g. */
  predicate PickedOrDropped(boxes: seq<Box>, idxs: seq<nat>, g: seq<nat>, drop: (Box, Box) -> bool)
    requires ValidIndices(boxes, idxs) && ValidIndices(boxes, g)
  {
    forall m :: 0 <= m < |idxs| ==> (idxs[m] in g || DroppedByPick(boxes, g, drop, idxs[m]))
  }

  // ---------------------------------------------------------------------
  // Argsort by bottom edge

  /** Inserts index i into the ascending index sequence s, after every entry
      whose bottom edge is not below that of i. */
  function InsertByBottom(boxes: seq<Box>, i: nat, s: seq<nat>): (r: seq<nat>)
    requires i < |boxes| && ValidIndices(boxes, s) && SortedByBottom(boxes, s)
    ensures multiset(r) == multiset(s) + multiset{i}
    ensures ValidIndices(boxes, r) && SortedByBottom(boxes, r)
    ensures Distinct(s) && i !in s ==> Distinct(r)
    decreases |s|
  {
    if s == [] || Y2(boxes[s[|s| - 1]]) <= Y2(boxes[i]) then
      SnocSorted(boxes, s, i);
      SnocDistinct(s, i);
      s + [i]
    else
      FrontSorted(boxes, s);
      var r' := InsertByBottom(boxes, i, s[..|s| - 1]);
      InsertBelowLast(boxes, i, s, r');
      r' + [s[|s| - 1]]
  }

  /** Dropping the last entry keeps an index sequence valid and ascending. */
  lemma FrontSorted(boxes: seq<Box>, s: seq<nat>)
    requires ValidIndices(boxes, s) && SortedByBottom(boxes, s) && |s| > 0
    ensures ValidIndices(boxes, s[..|s| - 1]) && SortedByBottom(boxes, s[..|s| - 1])
  {
  }

  /** The recursive case of InsertByBottom: i goes before the last entry of
      s, whose bottom edge is strictly lower. */
  lemma InsertBelowLast(boxes: seq<Box>, i: nat, s: seq<nat>, r': seq<nat>)
    requires i < |boxes| && ValidIndices(boxes, s) && SortedByBottom(boxes, s) && |s| > 0
    requires Y2(boxes[i]) < Y2(boxes[s[|s| - 1]])
    requires multiset(r') == multiset(s[..|s| - 1]) + multiset{i}
    requires ValidIndices(boxes, r') && SortedByBottom(boxes, r')
    requires Distinct(s[..|s| - 1]) && i !in s[..|s| - 1] ==> Distinct(r')
    ensures multiset(r' + [s[|s| - 1]]) == multiset(s) + multiset{i}
    ensures ValidIndices(boxes, r' + [s[|s| - 1]]) && SortedByBottom(boxes, r' + [s[|s| - 1]])
    ensures Distinct(s) && i !in s ==> Distinct(r' + [s[|s| - 1]])
  {
    var front, last := s[..|s| - 1], s[|s| - 1];
    assert s == front + [last];
    AllAboveLast(boxes, i, s, r');
    SnocSorted(boxes, r', last);
    SnocDistinct(r', last);
  }

  /** Appending an index whose bottom edge is at or below the last one keeps
      an index sequence ascending. */
  lemma SnocSorted(boxes: seq<Box>, s: seq<nat>, x: nat)
    requires x < |boxes| && ValidIndices(boxes, s) && SortedByBottom(boxes, s)
    requires |s| > 0 ==> Y2(boxes[s[|s| - 1]]) <= Y2(boxes[x])
    ensures ValidIndices(boxes, s + [x]) && SortedByBottom(boxes, s + [x])
  {
  }

  lemma SnocDistinct(s: seq<nat>, x: nat)
    ensures Distinct(s) && x !in multiset(s) ==> Distinct(s + [x])
  {
  }

  /** Helper for InsertByBottom: a sequence holding only i and the entries of
      s before its last one stays above that last entry's bottom edge. */
  lemma AllAboveLast(boxes: seq<Box>, i: nat, s: seq<nat>, r: seq<nat>)
    requires i < |boxes| && ValidIndices(boxes, s) && SortedByBottom(boxes, s) && |s| > 0
    requires Y2(boxes[i]) <= Y2(boxes[s[|s| - 1]])
    requires ValidIndices(boxes, r) && multiset(r) == multiset(s[..|s| - 1]) + multiset{i}
    ensures |r| > 0 && Y2(boxes[r[|r| - 1]]) <= Y2(boxes[s[|s| - 1]])
    ensures Distinct(s) ==> s[|s| - 1] !in multiset(r) || s[|s| - 1] == i
  {
    assert r[|r| - 1] in multiset(r);
    if r[|r| - 1] != i {
      assert r[|r| - 1] in multiset(s[..|s| - 1]);
      var m :| 0 <= m < |s| - 1 && s[m] == r[|r| - 1];
    }
  }

  /** The indices 0 .. n-1 sorted by ascending bottom edge. */
  function ArgsortBottom(boxes: seq<Box>, n: nat): (r: seq<nat>)
    requires n <= |boxes|
    ensures |r| == n && ValidIndices(boxes, r) && Distinct(r)
    ensures forall i: nat :: i in r <==> i < n
    ensures SortedByBottom(boxes, r)
  {
    if n == 0 then []
    else
      var prev := ArgsortBottom(boxes, n - 1);
      var r := InsertByBottom(boxes, n - 1, prev);
      InsertedMembers(prev, n - 1, r);
      r
  }

  lemma InsertedMembers(s: seq<nat>, x: nat, r: seq<nat>)
    requires multiset(r) == multiset(s) + multiset{x}
    ensures |r| == |s| + 1
    ensures forall j :: j in r <==> j == x || j in s
  {
    assert |multiset(r)| == |multiset(s)| + 1;
    forall j
      ensures j in r <==> j == x || j in s
    {
      assert j in r <==> j in multiset(r);
      assert j in s <==> j in multiset(s);
    }
  }

  lemma ArgsortIsBottomOrder(boxes: seq<Box>)
    ensures IsBottomOrder(boxes, ArgsortBottom(boxes, |boxes|))
  {
  }

  // ---------------------------------------------------------------------
  // The overlap test

  /** The test the loop applies to each remaining candidate c against the
      pick p: overlap relative to the area of c above t. It is passed to the
      greedy functions below as a value, so that their proofs depend only on
      which candidates it drops and not on the arithmetic behind it. */
  function OverlapExceeds(t: real): (Box, Box) -> bool {
    (p: Box, c: Box) => WellFormed(p) && WellFormed(c) && Overlap(p, c) > t
  }

  lemma OverlapExceedsMeans(t: real, p: Box, c: Box)
    requires WellFormed(p) && WellFormed(c)
    ensures OverlapExceeds(t)(p, c) <==> Overlap(p, c) > t
  {
  }

  /** At a non-negative threshold a candidate that shares no pixel with the
      kept box is never dropped, and at a threshold below one a candidate
      inside the kept box always is. */
  lemma OverlapExceedsExtremes(t: real, p: Box, c: Box)
    requires WellFormed(p) && WellFormed(c)
    ensures 0.0 <= t && (X2(p) < c.x || X2(c) < p.x || Y2(p) < c.y || Y2(c) < p.y) ==> !OverlapExceeds(t)(p, c)
    ensures t < 1.0 && p.x <= c.x && X2(c) <= X2(p) && p.y <= c.y && Y2(c) <= Y2(p) ==> OverlapExceeds(t)(p, c)
  {
    if p.x <= c.x && X2(c) <= X2(p) && p.y <= c.y && Y2(c) <= Y2(p) {
      ContainedOverlapsFully(p, c);
    }
  }

  // ---------------------------------------------------------------------
  // One suppression step

  /** The candidates that survive the pick boxes[last]: those the test drops
      are deleted, the others keep their order (SurvivorsMember). */
  function Survivors(boxes: seq<Box>, last: nat, cands: seq<nat>, drop: (Box, Box) -> bool): (r: seq<nat>)
    requires last < |boxes| && ValidIndices(boxes, cands)
    ensures |r| <= |cands|
    ensures ValidIndices(boxes, r)
  {
    if cands == [] then []
    else
      var rest := Survivors(boxes, last, cands[1..], drop);
      if drop(boxes[last], boxes[cands[0]]) then rest else [cands[0]] + rest
  }

  /** An index survives exactly when it is a candidate the test keeps. */
  lemma {:induction false} SurvivorsMember(boxes: seq<Box>, last: nat, cands: seq<nat>, drop: (Box, Box) -> bool, i: nat)
    requires last < |boxes| && ValidIndices(boxes, cands)
    ensures i in Survivors(boxes, last, cands, drop) <==> i in cands && !drop(boxes[last], boxes[i])
  {
    if cands != [] {
      SurvivorsMember(boxes, last, cands[1..], drop, i);
      assert cands == [cands[0]] + cands[1..];
    }
  }

  lemma {:induction false} SurvivorsDistinct(boxes: seq<Box>, last: nat, cands: seq<nat>, drop: (Box, Box) -> bool)
    requires last < |boxes| && ValidIndices(boxes, cands) && Distinct(cands)
    ensures Distinct(Survivors(boxes, last, cands, drop))
  {
    if cands != [] {
      SurvivorsDistinct(boxes, last, cands[1..], drop);
      SurvivorsMember(boxes, last, cands[1..], drop, cands[0]);
      assert cands[0] !in cands[1..];
    }
  }

  lemma {:induction false} SurvivorsSorted(boxes: seq<Box>, last: nat, cands: seq<nat>, drop: (Box, Box) -> bool)
    requires last < |boxes| && ValidIndices(boxes, cands) && SortedByBottom(boxes, cands)
    ensures SortedByBottom(boxes, Survivors(boxes, last, cands, drop))
  {
    if cands != [] {
      SurvivorsSorted(boxes, last, cands[1..], drop);
      var rest := Survivors(boxes, last, cands[1..], drop);
      if !drop(boxes[last], boxes[cands[0]]) {
        forall k | 0 <= k < |rest|
          ensures Y2(boxes[cands[0]]) <= Y2(boxes[rest[k]])
        {
          SurvivorsMember(boxes, last, cands[1..], drop, rest[k]);
          var m :| 0 <= m < |cands| - 1 && cands[1..][m] == rest[k];
          assert cands[m + 1] == rest[k];
        }
        var r := [cands[0]] + rest;
        assert forall k :: 0 < k < |r| ==> r[k] == rest[k - 1];
      }
    }
  }

  // ---------------------------------------------------------------------
  // The whole greedy loop, as a function of the remaining candidates

  /** The indices the loop picks from the candidate sequence idxs, in pick
      order: the last candidate, then the picks among its survivors. */
  function Greedy(boxes: seq<Box>, idxs: seq<nat>, drop: (Box, Box) -> bool): (g: seq<nat>)
    requires ValidIndices(boxes, idxs)
    ensures |g| <= |idxs|
    ensures ValidIndices(boxes, g)
    ensures |idxs| > 0 ==> |g| > 0 && g[0] == idxs[|idxs| - 1]
    decreases |idxs|
  {
    if |idxs| == 0 then []
    else
      var last := idxs[|idxs| - 1];
      [last] + Greedy(boxes, Survivors(boxes, last, idxs[..|idxs| - 1], drop), drop)
  }

  /** Only candidates are picked. */
  lemma {:induction false} GreedyMember(boxes: seq<Box>, idxs: seq<nat>, drop: (Box, Box) -> bool, i: nat)
    requires ValidIndices(boxes, idxs)
    ensures i in Greedy(boxes, idxs, drop) ==> i in idxs
    decreases |idxs|
  {
    if |idxs| > 0 {
      var last := idxs[|idxs| - 1];
      var cands := idxs[..|idxs| - 1];
      var next := Survivors(boxes, last, cands, drop);
      GreedyMember(boxes, next, drop, i);
      SurvivorsMember(boxes, last, cands, drop, i);
      assert idxs == cands + [last];
    }
  }

  /** No index is picked twice. */
  lemma {:induction false} GreedyDistinct(boxes: seq<Box>, idxs: seq<nat>, drop: (Box, Box) -> bool)
    requires ValidIndices(boxes, idxs) && Distinct(idxs)
    ensures Distinct(Greedy(boxes, idxs, drop))
    decreases |idxs|
  {
    if |idxs| > 0 {
      var last := idxs[|idxs| - 1];
      var cands := idxs[..|idxs| - 1];
      var next := Survivors(boxes, last, cands, drop);
      SurvivorsDistinct(boxes, last, cands, drop);
      GreedyDistinct(boxes, next, drop);
      GreedyMember(boxes, next, drop, last);
      SurvivorsMember(boxes, last, cands, drop, last);
      assert last !in cands;
      var g, g' := Greedy(boxes, idxs, drop), Greedy(boxes, next, drop);
      assert g == [last] + g';
      assert forall k :: 0 < k < |g| ==> g[k] == g'[k - 1];
    }
  }

  /** Picks come in non-increasing order of bottom edge, and the first pick
      reaches at least as far down as every candidate. */
  lemma {:induction false} GreedyDescending(boxes: seq<Box>, idxs: seq<nat>, drop: (Box, Box) -> bool)
    requires ValidIndices(boxes, idxs) && SortedByBottom(boxes, idxs)
    ensures DescendingByBottom(boxes, Greedy(boxes, idxs, drop))
    ensures forall m :: 0 <= m < |idxs| ==> Y2(boxes[idxs[m]]) <= Y2(boxes[Greedy(boxes, idxs, drop)[0]])
    decreases |idxs|
  {
    if |idxs| > 0 {
      var last := idxs[|idxs| - 1];
      var cands := idxs[..|idxs| - 1];
      var next := Survivors(boxes, last, cands, drop);
      SurvivorsSorted(boxes, last, cands, drop);
      GreedyDescending(boxes, next, drop);
      var g, g' := Greedy(boxes, idxs, drop), Greedy(boxes, next, drop);
      assert g == [last] + g';
      forall j, k | 0 <= j < k < |g|
        ensures Y2(boxes[g[j]]) >= Y2(boxes[g[k]])
      {
        assert g[k] == g'[k - 1];
        if j == 0 {
          assert g'[k - 1] in g';
          GreedyMember(boxes, next, drop, g'[k - 1]);
          SurvivorsMember(boxes, last, cands, drop, g'[k - 1]);
          var m :| 0 <= m < |cands| && cands[m] == g'[k - 1];
          assert idxs[m] == g[k];
        } else {
          assert g[j] == g'[j - 1];
        }
      }
    }
  }

  /** Soundness: a later pick is never dropped by an earlier one. */
  lemma {:induction false} GreedySound(boxes: seq<Box>, idxs: seq<nat>, drop: (Box, Box) -> bool)
    requires ValidIndices(boxes, idxs)
    ensures NoneDroppedByEarlier(boxes, Greedy(boxes, idxs, drop), drop)
    decreases |idxs|
  {
    if |idxs| > 0 {
      var last := idxs[|idxs| - 1];
      var cands := idxs[..|idxs| - 1];
      var next := Survivors(boxes, last, cands, drop);
      GreedySound(boxes, next, drop);
      var g, g' := Greedy(boxes, idxs, drop), Greedy(boxes, next, drop);
      assert g == [last] + g';
      forall j, k | 0 <= j < k < |g|
        ensures !drop(boxes[g[j]], boxes[g[k]])
      {
        assert g[k] == g'[k - 1];
        if j == 0 {
          assert g'[k - 1] in g';
          GreedyMember(boxes, next, drop, g'[k - 1]);
          SurvivorsMember(boxes, last, cands, drop, g'[k - 1]);
        } else {
          assert g[j] == g'[j - 1];
        }
      }
    }
  }

  /** Completeness: every candidate is picked, or else dropped by a pick
      that reaches at least as far down as it does. */
  lemma {:induction false} GreedyComplete(boxes: seq<Box>, idxs: seq<nat>, drop: (Box, Box) -> bool)
    requires ValidIndices(boxes, idxs) && SortedByBottom(boxes, idxs)
    ensures PickedOrDropped(boxes, idxs, Greedy(boxes, idxs, drop), drop)
    decreases |idxs|
  {
    if |idxs| > 0 {
      var last := idxs[|idxs| - 1];
      var cands := idxs[..|idxs| - 1];
      var next := Survivors(boxes, last, cands, drop);
      SurvivorsSorted(boxes, last, cands, drop);
      GreedyComplete(boxes, next, drop);
      var g, g' := Greedy(boxes, idxs, drop), Greedy(boxes, next, drop);
      assert g == [last] + g';
      forall m | 0 <= m < |idxs| && idxs[m] !in g
        ensures DroppedByPick(boxes, g, drop, idxs[m])
      {
        CompleteStep(boxes, idxs, drop, m);
      }
    }
  }

  /** The inductive step of GreedyComplete for one candidate i. */
  lemma CompleteStep(boxes: seq<Box>, idxs: seq<nat>, drop: (Box, Box) -> bool, m: nat)
    requires ValidIndices(boxes, idxs) && SortedByBottom(boxes, idxs) && m < |idxs|
    requires var next := Survivors(boxes, idxs[|idxs| - 1], idxs[..|idxs| - 1], drop);
      PickedOrDropped(boxes, next, Greedy(boxes, next, drop), drop)
    requires idxs[m] !in Greedy(boxes, idxs, drop)
    ensures DroppedByPick(boxes, Greedy(boxes, idxs, drop), drop, idxs[m])
  {
    var i := idxs[m];
    var last := idxs[|idxs| - 1];
    var cands := idxs[..|idxs| - 1];
    var next := Survivors(boxes, last, cands, drop);
    var g, g' := Greedy(boxes, idxs, drop), Greedy(boxes, next, drop);
    assert g == [last] + g';
    assert m < |idxs| - 1 && cands[m] == i;
    assert Y2(boxes[i]) <= Y2(boxes[last]);
    if drop(boxes[last], boxes[i]) {
      assert g[0] == last;
    } else {
      SurvivorsMember(boxes, last, cands, drop, i);
      assert i !in g';
      var n :| 0 <= n < |next| && next[n] == i;
      var k' :| 0 <= k' < |g'| && drop(boxes[g'[k']], boxes[i]) && Y2(boxes[i]) <= Y2(boxes[g'[k']]);
      assert g[k' + 1] == g'[k'];
    }
  }

  /** A lone candidate is always kept. */
  lemma GreedySingle(boxes: seq<Box>, i: nat, drop: (Box, Box) -> bool)
    requires i < |boxes|
    ensures Greedy(boxes, [i], drop) == [i]
  {
    assert Survivors(boxes, i, [], drop) == [];
  }

  // ---------------------------------------------------------------------
  // The suppressor

  /** kept is what the suppressor may return for boxes at threshold t: the
      greedy picks over some ascending bottom-edge order of the indices. */
  ghost predicate IsNmsResult(boxes: seq<Box>, t: real, kept: seq<Box>): (b: bool)
    ensures b ==> |kept| <= |boxes| && forall k :: 0 <= k < |kept| ==> kept[k] in boxes
    ensures boxes == [] ==> (b <==> kept == [])
  {
    assert boxes == [] ==> IsBottomOrder(boxes, []) && Select(boxes, Greedy(boxes, [], OverlapExceeds(t))) == [];
    exists order :: IsBottomOrder(boxes, order) && kept == Select(boxes, Greedy(boxes, order, OverlapExceeds(t)))
  }

  /** The suppression loop: repeatedly keeps the last remaining candidate
      and discards it together with every candidate it drops. */
  method PickGreedily(boxes: seq<Box>, order: seq<nat>, drop: (Box, Box) -> bool) returns (pick: seq<nat>)
    requires ValidIndices(boxes, order)
    ensures pick == Greedy(boxes, order, drop)
  {
    pick := [];
    var idxs := order;
    while |idxs| > 0
      invariant ValidIndices(boxes, idxs)
      invariant pick + Greedy(boxes, idxs, drop) == Greedy(boxes, order, drop)
      decreases |idxs|
    {
      var last := idxs[|idxs| - 1];
      pick := pick + [last];
      idxs := Survivors(boxes, last, idxs[..|idxs| - 1], drop);
    }
    assert Greedy(boxes, idxs, drop) == [];
  }

  /** Greedy non-maximum suppression of detections: sort by bottom edge,
      run the suppression loop at threshold overlapThresh, and return the
      kept boxes in the order they were kept. */
  method NonMaxSuppressionFast(boxes: seq<Box>, overlapThresh: real) returns (kept: seq<Box>)
    requires AllWellFormed(boxes)
    ensures IsNmsResult(boxes, overlapThresh, kept)
  {
    if |boxes| == 0 {
      assert IsBottomOrder(boxes, []);
      return [];
    }
    var idxs := ArgsortBottom(boxes, |boxes|);
    ArgsortIsBottomOrder(boxes);
    var pick := PickGreedily(boxes, idxs, OverlapExceeds(overlapThresh));
    kept := Select(boxes, pick);
  }

  /** Everything the suppressor promises about its result, whichever
      ascending bottom-edge order the sort produced. */
  lemma NmsResultProperties(boxes: seq<Box>, t: real, kept: seq<Box>)
    requires AllWellFormed(boxes) && IsNmsResult(boxes, t, kept)
    ensures |boxes| == 0 ==> kept == []
    ensures |boxes| == 1 ==> kept == boxes
    ensures |kept| <= |boxes|
    ensures forall k :: 0 <= k < |kept| ==> kept[k] in boxes
    ensures multiset(kept) <= multiset(boxes)
    ensures |boxes| > 0 ==> |kept| > 0 && forall i :: 0 <= i < |boxes| ==> Y2(boxes[i]) <= Y2(kept[0])
    ensures forall j, k :: 0 <= j < k < |kept| ==> Y2(kept[j]) >= Y2(kept[k])
    ensures forall j, k :: 0 <= j < k < |kept| ==> Overlap(kept[j], kept[k]) <= t
    ensures t < 1.0 ==> forall j, k :: 0 <= j < k < |kept| ==> kept[j] != kept[k]
    ensures forall i :: 0 <= i < |boxes| ==> (boxes[i] in kept ||
      exists k :: 0 <= k < |kept| && Overlap(kept[k], boxes[i]) > t && Y2(boxes[i]) <= Y2(kept[k]))
  {
    var order :| IsBottomOrder(boxes, order) && kept == Select(boxes, Greedy(boxes, order, OverlapExceeds(t)));
    KeptSelection(boxes, t, order, kept);
    KeptOrder(boxes, t, order, kept);
    KeptSound(boxes, t, order, kept);
    KeptComplete(boxes, t, order, kept);
  }

  /** The result is a selection of input boxes: empty for no input, the box
      itself for one input, and no box more often than it was given. */
  lemma KeptSelection(boxes: seq<Box>, t: real, order: seq<nat>, kept: seq<Box>)
    requires AllWellFormed(boxes) && IsBottomOrder(boxes, order)
    requires kept == Select(boxes, Greedy(boxes, order, OverlapExceeds(t)))
    ensures IsNmsResult(boxes, t, kept)
    ensures |boxes| == 0 ==> kept == []
    ensures |boxes| == 1 ==> kept == boxes
    ensures |kept| <= |boxes|
    ensures forall k :: 0 <= k < |kept| ==> kept[k] in boxes
    ensures multiset(kept) <= multiset(boxes)
  {
    var pick := Greedy(boxes, order, OverlapExceeds(t));
    GreedyDistinct(boxes, order, OverlapExceeds(t));
    SelectSubMultiset(boxes, pick);
    if |boxes| == 1 {
      assert order == [0];
      GreedySingle(boxes, 0, OverlapExceeds(t));
    }
    forall k | 0 <= k < |kept|
      ensures kept[k] in boxes
    {
      assert kept[k] == boxes[pick[k]];
    }
  }

  /** The result runs from the lowest-reaching box upwards: its first box has
      the largest bottom edge of all inputs, and bottom edges never increase. */
  lemma KeptOrder(boxes: seq<Box>, t: real, order: seq<nat>, kept: seq<Box>)
    requires AllWellFormed(boxes) && IsBottomOrder(boxes, order)
    requires kept == Select(boxes, Greedy(boxes, order, OverlapExceeds(t)))
    ensures |boxes| > 0 ==> |kept| > 0 && forall i :: 0 <= i < |boxes| ==> Y2(boxes[i]) <= Y2(kept[0])
    ensures forall j, k :: 0 <= j < k < |kept| ==> Y2(kept[j]) >= Y2(kept[k])
  {
    var pick := Greedy(boxes, order, OverlapExceeds(t));
    GreedyDescending(boxes, order, OverlapExceeds(t));
    forall i | 0 <= i < |boxes|
      ensures Y2(boxes[i]) <= Y2(kept[0])
    {
      assert i in order;
    }
  }

  /** No kept box overlaps an earlier kept box by more than t; below full
      overlap this also rules out keeping the same box twice. */
  lemma KeptSound(boxes: seq<Box>, t: real, order: seq<nat>, kept: seq<Box>)
    requires AllWellFormed(boxes) && IsBottomOrder(boxes, order)
    requires kept == Select(boxes, Greedy(boxes, order, OverlapExceeds(t)))
    ensures forall j, k :: 0 <= j < k < |kept| ==> Overlap(kept[j], kept[k]) <= t
    ensures t < 1.0 ==> forall j, k :: 0 <= j < k < |kept| ==> kept[j] != kept[k]
  {
    var pick := Greedy(boxes, order, OverlapExceeds(t));
    GreedySound(boxes, order, OverlapExceeds(t));
    forall j, k | 0 <= j < k < |kept|
      ensures Overlap(kept[j], kept[k]) <= t
    {
      assert kept[j] == boxes[pick[j]] && kept[k] == boxes[pick[k]];
      OverlapExceedsMeans(t, kept[j], kept[k]);
    }
    if t < 1.0 {
      forall j, k | 0 <= j < k < |kept|
        ensures kept[j] != kept[k]
      {
        OverlapSelf(kept[j]);
      }
    }
  }

  /** Every input box is kept, or overlaps by more than t a kept box that
      reaches at least as far down. */
  lemma KeptComplete(boxes: seq<Box>, t: real, order: seq<nat>, kept: seq<Box>)
    requires AllWellFormed(boxes) && IsBottomOrder(boxes, order)
    requires kept == Select(boxes, Greedy(boxes, order, OverlapExceeds(t)))
    ensures forall i :: 0 <= i < |boxes| ==> (boxes[i] in kept ||
      exists k :: 0 <= k < |kept| && Overlap(kept[k], boxes[i]) > t && Y2(boxes[i]) <= Y2(kept[k]))
  {
    var exceeds := OverlapExceeds(t);
    var pick := Greedy(boxes, order, exceeds);
    GreedyComplete(boxes, order, exceeds);
    forall i | 0 <= i < |boxes|
      ensures boxes[i] in kept ||
        exists k :: 0 <= k < |kept| && Overlap(kept[k], boxes[i]) > t && Y2(boxes[i]) <= Y2(kept[k])
    {
      assert i in order;
      var m :| 0 <= m < |order| && order[m] == i;
      if i in pick {
        var k :| 0 <= k < |pick| && pick[k] == i;
        assert kept[k] == boxes[i];
      } else {
        assert DroppedByPick(boxes, pick, exceeds, i);
        var k :| 0 <= k < |pick| && exceeds(boxes[pick[k]], boxes[i]) && Y2(boxes[i]) <= Y2(boxes[pick[k]]);
        assert kept[k] == boxes[pick[k]];
        OverlapExceedsMeans(t, kept[k], boxes[i]);
      }
    }
  }
}
