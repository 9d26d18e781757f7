/**
 * Boxes and distances, and the boxes a descent recomputes: no node stores its
 * box, so each query carries the current box and the coordinate prefixes.
 */
module Geometry {
  import opened Numbers
  import opened Points
  import opened Sequences
  import opened Cells

  /** Both corners belong to the box. */
  datatype Box = Box(x1: int, y1: int, x2: int, y2: int)

  function Min(a: int, b: int): int { if a <= b then a else b }

  function Max(a: int, b: int): int { if a >= b then a else b }

  predicate PointInBox(p: Point, q: Box) {
    q.x1 <= p.x <= q.x2 && q.y1 <= p.y <= q.y2
  }

  function InQuery(q: Box): Point -> bool {
    (p: Point) => PointInBox(p, q)
  }

  /** -1: apart; 1: small lies inside large; 0: anything else. */
  function BoxRelation(small: Box, large: Box): int {
    var minX, minY := Max(small.x1, large.x1), Max(small.y1, large.y1);
    var maxX, maxY := Min(small.x2, large.x2), Min(small.y2, large.y2);
    if minX <= maxX && minY <= maxY then
      if minX == small.x1 && maxX == small.x2 && minY == small.y1 && maxY == small.y2 then 1 else 0
    else -1
  }

  /** The sign decides every point of the small box at once. */
  lemma BoxRelationSound(small: Box, large: Box, p: Point)
    requires PointInBox(p, small)
    ensures BoxRelation(small, large) < 0 ==> !PointInBox(p, large)
    ensures BoxRelation(small, large) > 0 ==> PointInBox(p, large)
  {
  }

  ghost predicate Inside(x: int, y: int, box: Box) { box.x1 <= x <= box.x2 && box.y1 <= y <= box.y2 }

  /** The sign is exact: negative when the boxes share no place, positive when all of the small box is shared. */
  lemma BoxRelationExact(small: Box, large: Box)
    requires small.x1 <= small.x2 && small.y1 <= small.y2
    ensures BoxRelation(small, large) < 0 <==> !exists x, y :: Inside(x, y, small) && Inside(x, y, large)
    ensures BoxRelation(small, large) > 0 <==> forall x, y :: Inside(x, y, small) ==> Inside(x, y, large)
  {
    var minX, minY := Max(small.x1, large.x1), Max(small.y1, large.y1);
    assert BoxRelation(small, large) >= 0 ==> Inside(minX, minY, small) && Inside(minX, minY, large);
    assert Inside(small.x1, small.y1, small) && Inside(small.x2, small.y2, small);
  }

  // ----- boxes along a path -----

  /** Left box, right box and the prefixes of the right half. */
  function ComputeCurBox(cur: Box, xPrefix: int, yPrefix: int, b: nat, xSplitter: bool): (Box, Box, int, int)
    requires b > 0
  {
    var split := Pow2((b + 1) / 2 - 1);
    if xSplitter then
      (cur.(x2 := Min(xPrefix + split - 1, cur.x2)), cur.(x1 := Max(xPrefix + split, cur.x1)), xPrefix + split, yPrefix)
    else
      (cur.(y2 := Min(yPrefix + split - 1, cur.y2)), cur.(y1 := Max(yPrefix + split, cur.y1)), xPrefix, yPrefix + split)
  }

  /** p has the coordinate prefixes of its node: b / 2 free bits in x, the others in y. */
  ghost predicate HasPrefix(p: Point, xPrefix: nat, yPrefix: nat, b: nat) {
    && xPrefix <= p.x < xPrefix + Pow2(b / 2)
    && yPrefix <= p.y < yPrefix + Pow2((b + 1) / 2)
  }

  /** Everything a descent knows at a node of height b: where its points are. */
  ghost predicate Located(s: seq<Point>, lo: nat, b: nat, cur: Box, xPrefix: int, yPrefix: int, xSplitter: bool) {
    && b <= ROOT_BITS && 0 <= xPrefix && 0 <= yPrefix
    && Aligned(lo, b) && Aligned(xPrefix, b / 2) && Aligned(yPrefix, (b + 1) / 2)
    && xSplitter == (b % 2 == 0)
    && InCell(s, lo, b)
    && forall p :: p in s ==> HasPrefix(p, xPrefix, yPrefix, b) && PointInBox(p, cur)
  }

  lemma RootLocated(s: seq<Point>, cur: Box)
    requires forall p :: p in s ==> PointInBox(p, cur)
    ensures Located(s, 0, ROOT_BITS, cur, 0, 0, true)
  {
    RootCell(s);
    ZeroAligned(32);
    Pow2Of32();
  }

  /** The split bit sends a point to the half whose prefix it has. */
  lemma PrefixOfHalf(p: Point, lo: nat, b: nat, xPrefix: nat, yPrefix: nat)
    requires 0 < b <= ROOT_BITS && Aligned(lo, b) && lo <= p.Code() < lo + Pow2(b)
    requires Aligned(xPrefix, b / 2) && Aligned(yPrefix, (b + 1) / 2) && HasPrefix(p, xPrefix, yPrefix, b)
    ensures b % 2 == 0 ==> (p.Code() < Mid(lo, b) <==> p.x < xPrefix + Pow2(b / 2 - 1))
    ensures b % 2 == 1 ==> (p.Code() < Mid(lo, b) <==> p.y < yPrefix + Pow2((b + 1) / 2 - 1))
  {
    var i := (b - 1) / 2;
    HalfBit(p.Code(), lo, b);
    BitCode(p, i);
    if b % 2 == 0 {
      assert b - 1 == 2 * i + 1 && b / 2 == i + 1;
      HalfBit(p.x, xPrefix, b / 2);
    } else {
      assert b - 1 == 2 * i && (b + 1) / 2 == i + 1;
      HalfBit(p.y, yPrefix, (b + 1) / 2);
    }
  }

  /** The two boxes share out the current one exactly as the codes share out the cell. */
  lemma BoxesFollowCodes(p: Point, lo: nat, b: nat, cur: Box, xPrefix: nat, yPrefix: nat)
    requires 0 < b <= ROOT_BITS && Aligned(lo, b) && lo <= p.Code() < lo + Pow2(b)
    requires Aligned(xPrefix, b / 2) && Aligned(yPrefix, (b + 1) / 2) && HasPrefix(p, xPrefix, yPrefix, b)
    ensures var boxes := ComputeCurBox(cur, xPrefix, yPrefix, b, b % 2 == 0);
            && (PointInBox(p, boxes.0) <==> PointInBox(p, cur) && p.Code() < Mid(lo, b))
            && (PointInBox(p, boxes.1) <==> PointInBox(p, cur) && Mid(lo, b) <= p.Code())
  {
    hide Aligned, Pow2, Interleave;
    PrefixOfHalf(p, lo, b, xPrefix, yPrefix);
  }

  /** The recomputed boxes and prefixes are right for both halves. */
  lemma LocatedHalves(L: seq<Point>, R: seq<Point>, lo: nat, b: nat, cur: Box, xPrefix: int, yPrefix: int,
        xSplitter: bool)
    requires b > 0 && Located(L + R, lo, b, cur, xPrefix, yPrefix, xSplitter) && Cut(L, Mid(lo, b), R)
    ensures var (lBox, rBox, rx, ry) := ComputeCurBox(cur, xPrefix, yPrefix, b, xSplitter);
            && Located(L, lo, b - 1, lBox, xPrefix, yPrefix, !xSplitter)
            && Located(R, Mid(lo, b), b - 1, rBox, rx, ry, !xSplitter)
  {
    SonsAligned(lo, b);
    if xSplitter {
      SonsAligned(xPrefix, b / 2);
    } else {
      SonsAligned(yPrefix, (b + 1) / 2);
    }
    hide Aligned, Pow2, Interleave, HasPrefix, PointInBox;
    forall p | p in L + R
      ensures var (lBox, rBox, rx, ry) := ComputeCurBox(cur, xPrefix, yPrefix, b, xSplitter);
              if p.Code() < Mid(lo, b) then HasPrefix(p, xPrefix, yPrefix, b - 1) && PointInBox(p, lBox)
              else HasPrefix(p, rx, ry, b - 1) && PointInBox(p, rBox)
    {
      PointInHalf(p, lo, b, cur, xPrefix, yPrefix);
    }
    forall p | p in L
      ensures p in L + R && lo <= p.Code() < lo + Pow2(b - 1)
    {
    }
    forall p | p in R
      ensures p in L + R && Mid(lo, b) <= p.Code() < Mid(lo, b) + Pow2(b - 1)
    {
      assert p in L + R;
    }
  }

  lemma PointInHalf(p: Point, lo: nat, b: nat, cur: Box, xPrefix: nat, yPrefix: nat)
    requires 0 < b <= ROOT_BITS && Aligned(lo, b) && lo <= p.Code() < lo + Pow2(b) && PointInBox(p, cur)
    requires Aligned(xPrefix, b / 2) && Aligned(yPrefix, (b + 1) / 2) && HasPrefix(p, xPrefix, yPrefix, b)
    ensures var (lBox, rBox, rx, ry) := ComputeCurBox(cur, xPrefix, yPrefix, b, b % 2 == 0);
            if p.Code() < Mid(lo, b) then HasPrefix(p, xPrefix, yPrefix, b - 1) && PointInBox(p, lBox)
            else HasPrefix(p, rx, ry, b - 1) && PointInBox(p, rBox)
  {
    hide Aligned, Interleave;
    PrefixOfHalf(p, lo, b, xPrefix, yPrefix);
  }

  // ----- distances -----

  function PointSqrDis(p: Point, q: Point): int {
    (p.x - q.x) * (p.x - q.x) + (p.y - q.y) * (p.y - q.y)
  }

  /** Squared distance from a point to a box, 0 inside. */
  function BoxSqrDis(p: Point, q: Box): int {
    var dx := Max(Max(q.x1 - p.x, 0), Max(p.x - q.x2, 0));
    var dy := Max(Max(q.y1 - p.y, 0), Max(p.y - q.y2, 0));
    dx * dx + dy * dy
  }

  lemma SquareMono(a: int, b: int)
    requires 0 <= a && (a <= b || a <= -b)
    ensures a * a <= b * b
  {
    var c := if b < 0 then -b else b;
    assert a * a <= a * c <= c * c;
  }

  /** The box distance is a lower bound for the points in the box. */
  lemma BoxSqrDisBound(q: Point, box: Box, p: Point)
    requires PointInBox(p, box)
    ensures BoxSqrDis(q, box) <= PointSqrDis(p, q)
  {
    SquareMono(Max(Max(box.x1 - q.x, 0), Max(q.x - box.x2, 0)), p.x - q.x);
    SquareMono(Max(Max(box.y1 - q.y, 0), Max(q.y - box.y2, 0)), p.y - q.y);
  }

  /** And some place in the box is exactly that far. */
  lemma BoxSqrDisAttained(q: Point, box: Box) returns (x: int, y: int)
    requires box.x1 <= box.x2 && box.y1 <= box.y2
    ensures Inside(x, y, box)
    ensures BoxSqrDis(q, box) == (x - q.x) * (x - q.x) + (y - q.y) * (y - q.y)
  {
    x := Max(box.x1, Min(q.x, box.x2));
    y := Max(box.y1, Min(q.y, box.y2));
    var dx, dy := Max(Max(box.x1 - q.x, 0), Max(q.x - box.x2, 0)), Max(Max(box.y1 - q.y, 0), Max(q.y - box.y2, 0));
    SameSquare(x - q.x, dx);
    SameSquare(y - q.y, dy);
  }

  lemma SameSquare(a: int, b: int)
    requires a == b || a == -b
    ensures a * a == b * b
  {
  }

  predicate BoxesWithinDis(a: Box, c: Box, dis: int) {
    !(a.x2 + dis - c.x1 < 0 || a.y2 + dis - c.y1 < 0 || c.x2 + dis - a.x1 < 0 || c.y2 + dis - a.y1 < 0)
  }

  /** What the box test means: places of the two boxes no farther apart than dis along either axis. */
  lemma BoxesWithinDisExact(a: Box, c: Box, dis: int)
    requires a.x1 <= a.x2 && a.y1 <= a.y2 && c.x1 <= c.x2 && c.y1 <= c.y2 && 0 <= dis
    ensures BoxesWithinDis(a, c, dis) <==>
            exists x, y, u, v :: Inside(x, y, a) && Inside(u, v, c) && -dis <= x - u <= dis && -dis <= y - v <= dis
  {
    if BoxesWithinDis(a, c, dis) {
      var x, y := Max(a.x1, Min(c.x1, a.x2)), Max(a.y1, Min(c.y1, a.y2));
      var u, v := Max(c.x1, Min(x, c.x2)), Max(c.y1, Min(y, c.y2));
      assert Inside(x, y, a) && Inside(u, v, c);
    }
  }

  /** Boxes that are pruned hold no pair within the distance. */
  lemma PrunedPairs(a: Box, c: Box, dis: int, p: Point, q: Point)
    requires 0 <= dis && PointInBox(p, a) && PointInBox(q, c) && !BoxesWithinDis(a, c, dis)
    ensures PointSqrDis(p, q) > dis * dis
  {
    var dx, dy := p.x - q.x, p.y - q.y;
    SquareMono(0, dx);
    SquareMono(0, dy);
    if dx > dis || -dx > dis {
      SquareMono(dis + 1, dx);
      assert (dis + 1) * (dis + 1) == dis * dis + 2 * dis + 1;
    } else {
      SquareMono(dis + 1, dy);
      assert (dis + 1) * (dis + 1) == dis * dis + 2 * dis + 1;
    }
  }
}
