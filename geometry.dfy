/** Axis-aligned detection boxes in pixel coordinates, and the pixel-inclusive
    area and overlap measures that greedy non-maximum suppression works with.
    Every edge coordinate counts as a pixel row or column of the box, so a box
    of width w spans w + 1 columns. */
module BoxGeometry {

  /** A detection: top-left corner (x, y), width w and height h. */
  datatype Box = Box(x: int, y: int, w: int, h: int)

  /** Boxes the suppressor accepts: no negative width or height. */
  predicate WellFormed(b: Box) {
    b.w >= 0 && b.h >= 0
  }

  /** Right edge column; never left of the left edge. */
  function X2(b: Box): (r: int)
    ensures WellFormed(b) ==> r >= b.x
  {
    b.x + b.w
  }

  /** Bottom edge row, the sort key of the suppressor; never above the top
      edge. */
  function Y2(b: Box): (r: int)
    ensures WellFormed(b) ==> r >= b.y
  {
    b.y + b.h
  }

  function Max(a: int, b: int): int {
    if a >= b then a else b
  }

  function Min(a: int, b: int): int {
    if a <= b then a else b
  }

  /** Number of pixel positions shared by the closed ranges [lo1, hi1] and
      [lo2, hi2], clamped at zero when they do not meet. */
  function Span(lo1: int, hi1: int, lo2: int, hi2: int): (r: int)
    requires lo1 <= hi1 && lo2 <= hi2
    ensures 0 <= r <= hi1 - lo1 + 1 && r <= hi2 - lo2 + 1
    ensures r == 0 <==> hi1 < lo2 || hi2 < lo1
    ensures hi1 == lo2 || hi2 == lo1 ==> r == 1
    ensures lo1 <= lo2 && hi2 <= hi1 ==> r == hi2 - lo2 + 1
  {
    Max(0, Min(hi1, hi2) - Max(lo1, lo2) + 1)
  }

  /** Pixel-inclusive area: the number of pixels the box covers. */
  function Area(b: Box): (a: int)
    requires WellFormed(b)
    ensures a >= 1
    ensures a >= b.w + 1 && a >= b.h + 1
  {
    (X2(b) - b.x + 1) * (Y2(b) - b.y + 1)
  }

  lemma MulMonotone(a: int, b: int, c: int, d: int)
    requires 0 <= a <= c && 0 <= b <= d
    ensures a * b <= c * d
  {
    assert a * b <= c * b;
    assert c * b <= c * d;
  }

  /** Pixels covered by both boxes, the widths and heights clamped at zero. */
  function Intersection(p: Box, c: Box): (r: int)
    requires WellFormed(p) && WellFormed(c)
    ensures 0 <= r <= Area(c) && r <= Area(p)
    ensures r == 0 <==> X2(p) < c.x || X2(c) < p.x || Y2(p) < c.y || Y2(c) < p.y
  {
    var iw := Span(p.x, X2(p), c.x, X2(c));
    var ih := Span(p.y, Y2(p), c.y, Y2(c));
    MulMonotone(iw, ih, c.w + 1, c.h + 1);
    MulMonotone(iw, ih, p.w + 1, p.h + 1);
    iw * ih
  }

  /** Overlap of candidate c with the kept box p, relative to the area of c
      alone (not the union): an asymmetric measure. */
  function Overlap(p: Box, c: Box): (r: real)
    requires WellFormed(p) && WellFormed(c)
    ensures 0.0 <= r <= 1.0
    ensures r == 0.0 <==> Intersection(p, c) == 0
    ensures r == 1.0 <==> Intersection(p, c) == Area(c)
  {
    var i, a := Intersection(p, c), Area(c);
    RatioBounds(i as real, a as real);
    i as real / a as real
  }

  lemma RatioBounds(i: real, a: real)
    requires 0.0 <= i <= a && a >= 1.0
    ensures 0.0 <= i / a <= 1.0
    ensures i / a == 0.0 <==> i == 0.0
    ensures i / a == 1.0 <==> i == a
  {
    var q := i / a;
    assert q * a == i;
  }

  lemma IntersectionSymmetric(p: Box, c: Box)
    requires WellFormed(p) && WellFormed(c)
    ensures Intersection(p, c) == Intersection(c, p)
  {
  }

  /** A box covered entirely by p overlaps p completely, however large p is. */
  lemma ContainedOverlapsFully(p: Box, c: Box)
    requires WellFormed(p) && WellFormed(c)
    requires p.x <= c.x && X2(c) <= X2(p) && p.y <= c.y && Y2(c) <= Y2(p)
    ensures Overlap(p, c) == 1.0
  {
  }

  /** Two equal boxes overlap completely. */
  lemma OverlapSelf(b: Box)
    requires WellFormed(b)
    ensures Overlap(b, b) == 1.0
  {
    ContainedOverlapsFully(b, b);
  }

  /** Under the pixel-inclusive convention, boxes that only share an edge
      still have a one-pixel-wide intersection. */
  lemma SharedEdgeOverlaps(p: Box, c: Box)
    requires WellFormed(p) && WellFormed(c)
    requires X2(p) == c.x && p.y == c.y && p.h == c.h
    ensures Intersection(p, c) == c.h + 1
    ensures Overlap(p, c) > 0.0
  {
  }
}
