/** Spatial join of two versions: box pruning and unequal depths report exactly the nested loop's pairs. */
module Joins {
  import opened Numbers
  import opened Points
  import opened Sequences
  import opened Cells
  import opened Tries
  import opened Mvq
  import opened Geometry
  import opened Ranges

  type Pair = (Point, Point)

  class PairList {
    var pairs: seq<Pair>

    constructor ()
      ensures pairs == []
    {
      pairs := [];
    }

    method Append(p: Point, q: Point)
      modifies this
      ensures pairs == old(pairs) + [(p, q)]
    {
      pairs := pairs + [(p, q)];
    }
  }

  predicate Hit(p: Point, q: Point, dis: int) {
    p.id != q.id && PointSqrDis(p, q) - dis * dis <= 0
  }

  /** The hits of one point with a run. */
  ghost function Row(p: Point, c: seq<Point>, dis: int): multiset<Pair> {
    if c == [] then multiset{}
    else (if Hit(p, c[0], dis) then multiset{(p, c[0])} else multiset{}) + Row(p, c[1..], dis)
  }

  /** All hits of one run with another, each once. */
  ghost function Pairs(a: seq<Point>, c: seq<Point>, dis: int): multiset<Pair> {
    if a == [] then multiset{} else Row(a[0], c, dis) + Pairs(a[1..], c, dis)
  }

  lemma RowHead(p: Point, c: seq<Point>, dis: int)
    requires c != []
    ensures Row(p, c, dis) == (if Hit(p, c[0], dis) then multiset{(p, c[0])} else multiset{}) + Row(p, c[1..], dis)
  {
  }

  lemma {:induction false} RowConcat(p: Point, c: seq<Point>, d: seq<Point>, dis: int)
    ensures Row(p, c + d, dis) == Row(p, c, dis) + Row(p, d, dis)
  {
    if c == [] {
      assert c + d == d;
      assert Row(p, c, dis) == multiset{};
    } else {
      hide Row, Hit;
      var s := c + d;
      assert s[0] == c[0] && s[1..] == c[1..] + d;
      RowConcat(p, c[1..], d, dis);
      RowHead(p, s, dis);
      RowHead(p, c, dis);
    }
  }

  lemma {:induction false} PairsLeft(a: seq<Point>, a': seq<Point>, c: seq<Point>, dis: int)
    ensures Pairs(a + a', c, dis) == Pairs(a, c, dis) + Pairs(a', c, dis)
  {
    hide Row;
    if a == [] {
      assert a + a' == a';
    } else {
      PairsLeft(a[1..], a', c, dis);
      assert (a + a')[1..] == a[1..] + a';
    }
  }

  lemma {:induction false} PairsRight(a: seq<Point>, c: seq<Point>, c': seq<Point>, dis: int)
    ensures Pairs(a, c + c', dis) == Pairs(a, c, dis) + Pairs(a, c', dis)
  {
    if a != [] {
      RowConcat(a[0], c, c', dis);
      hide Row;
      PairsRight(a[1..], c, c', dis);
    }
  }

  lemma {:induction false} RowNone(p: Point, c: seq<Point>, dis: int)
    requires forall q :: q in c ==> !Hit(p, q, dis)
    ensures Row(p, c, dis) == multiset{}
  {
    if c != [] {
      RowNone(p, c[1..], dis);
    }
  }

  lemma {:induction false} PairsNone(a: seq<Point>, c: seq<Point>, dis: int)
    requires forall p, q :: p in a && q in c ==> !Hit(p, q, dis)
    ensures Pairs(a, c, dis) == multiset{}
  {
    if a != [] {
      RowNone(a[0], c, dis);
      PairsNone(a[1..], c, dis);
    }
  }

  /** What the nested loop reports: the hits, each as often as its two points occur. */
  lemma {:induction false} RowCount(p: Point, c: seq<Point>, dis: int, o: Point, q: Point)
    ensures Row(p, c, dis)[(o, q)] == if o == p && Hit(p, q, dis) then multiset(c)[q] else 0
  {
    if c != [] {
      RowCount(p, c[1..], dis, o, q);
      Uncons(c);
    }
  }

  lemma PairsHead(a: seq<Point>, c: seq<Point>, dis: int)
    ensures a == [] ==> Pairs(a, c, dis) == multiset{}
    ensures a != [] ==> Pairs(a, c, dis) == Row(a[0], c, dis) + Pairs(a[1..], c, dis)
  {
  }

  lemma CountHead(s: seq<Point>, p: Point)
    requires s != []
    ensures multiset(s)[p] == multiset(s[1..])[p] + (if s[0] == p then 1 else 0)
  {
    Uncons(s);
  }

  lemma {:induction false} PairsCount(a: seq<Point>, c: seq<Point>, dis: int, p: Point, q: Point)
    ensures Pairs(a, c, dis)[(p, q)] == if Hit(p, q, dis) then Times(multiset(a)[p], multiset(c)[q]) else 0
  {
    hide Times, Hit, Row, Pairs;
    PairsHead(a, c, dis);
    if a == [] {
      TimesStep(0, multiset(c)[q]);
    } else {
      RowCount(a[0], c, dis, p, q);
      PairsCount(a[1..], c, dis, p, q);
      CountHead(a, p);
      TimesStep(multiset(a[1..])[p], multiset(c)[q]);
    }
  }

  ghost function Times(m: nat, n: nat): nat { m * n }

  lemma TimesStep(m: nat, n: nat)
    ensures Times(0, n) == 0 && Times(m + 1, n) == Times(m, n) + n
  {
  }

  method JoinRow(p: Point, c: seq<Point>, dis: int, res: PairList)
    modifies res
    ensures multiset(res.pairs) == old(multiset(res.pairs)) + Row(p, c, dis)
  {
    assert c[0..] == c;
    for j := 0 to |c|
      invariant multiset(res.pairs) + Row(p, c[j..], dis) == old(multiset(res.pairs)) + Row(p, c, dis)
    {
      assert c[j..][1..] == c[j + 1..];
      if p.id != c[j].id && PointSqrDis(p, c[j]) - dis * dis <= 0 {
        res.Append(p, c[j]);
      }
    }
  }

  method JoinLeaves(a: seq<Point>, c: seq<Point>, dis: int, res: PairList)
    modifies res
    ensures multiset(res.pairs) == old(multiset(res.pairs)) + Pairs(a, c, dis)
  {
    hide Row;
    assert a[0..] == a;
    for i := 0 to |a|
      invariant multiset(res.pairs) + Pairs(a[i..], c, dis) == old(multiset(res.pairs)) + Pairs(a, c, dis)
    {
      assert a[i..][1..] == a[i + 1..];
      JoinRow(a[i], c, dis, res);
    }
  }

  lemma PrunedJoin(a: seq<Point>, c: seq<Point>, box1: Box, box2: Box, dis: int)
    requires 0 <= dis && !BoxesWithinDis(box1, box2, dis)
    requires (forall p :: p in a ==> PointInBox(p, box1)) && (forall q :: q in c ==> PointInBox(q, box2))
    ensures Pairs(a, c, dis) == multiset{}
  {
    forall p, q | p in a && q in c
      ensures !Hit(p, q, dis)
    {
      PrunedPairs(box1, box2, dis, p, q);
    }
    PairsNone(a, c, dis);
  }

  /** A node together with everything the descent knows about it. */
  ghost predicate Placed(x: Node?, box: Box, xPrefix: int, yPrefix: int, b: nat, xSplitter: bool, lo: nat)
    reads x, ReprOf(x)
  {
    && ValidOrNull(x) && Well(TrieOf(x), lo, b)
    && Located(Contents(TrieOf(x)), lo, b, box, xPrefix, yPrefix, xSplitter)
  }

  lemma PlacedSons(x: Node, box: Box, xPrefix: int, yPrefix: int, b: nat, xSplitter: bool, lo: nat)
    requires Placed(x, box, xPrefix, yPrefix, b, xSplitter, lo) && !x.isLeaf
    ensures b > 0
    ensures var (lBox, rBox, rx, ry) := ComputeCurBox(box, xPrefix, yPrefix, b, xSplitter);
            && Placed(x.lSon, lBox, xPrefix, yPrefix, b - 1, !xSplitter, lo)
            && Placed(x.rSon, rBox, rx, ry, b - 1, !xSplitter, Mid(lo, b))
    ensures Contents(x.trie) == Contents(TrieOf(x.lSon)) + Contents(TrieOf(x.rSon))
  {
    SonsOf(x);
    SonsLocated(x.trie, lo, b, box, xPrefix, yPrefix, xSplitter);
  }

  lemma PlacedBox(x: Node?, box: Box, xPrefix: int, yPrefix: int, b: nat, xSplitter: bool, lo: nat)
    requires Placed(x, box, xPrefix, yPrefix, b, xSplitter, lo)
    ensures ValidOrNull(x) && forall p :: p in Contents(TrieOf(x)) ==> PointInBox(p, box)
  {
  }

  ghost function HitsOf(x: Node?, y: Node?, dis: int): multiset<Pair>
    reads x, y
  {
    Pairs(Contents(TrieOf(x)), Contents(TrieOf(y)), dis)
  }

  /** What a join may append: only hits, and all of them unless the distance is negative. */
  ghost predicate Found(before: multiset<Pair>, after: multiset<Pair>, hits: multiset<Pair>, dis: int) {
    && before <= after <= before + hits
    && (0 <= dis ==> after == before + hits)
  }

  lemma FoundBoth(before: multiset<Pair>, between: multiset<Pair>, after: multiset<Pair>,
                  h: multiset<Pair>, k: multiset<Pair>, dis: int)
    requires Found(before, between, h, dis) && Found(between, after, k, dis)
    ensures Found(before, after, h + k, dis)
  {
    assert before + (h + k) == before + h + k;
  }

  method SpatialJoin(node1: Node?, node2: Node?, dis: int, res: PairList,
                     box1: Box, xPrefix1: int, yPrefix1: int, b1: nat, xSplitter1: bool,
                     box2: Box, xPrefix2: int, yPrefix2: int, b2: nat, xSplitter2: bool,
                     ghost lo1: nat, ghost lo2: nat)
    requires Placed(node1, box1, xPrefix1, yPrefix1, b1, xSplitter1, lo1)
    requires Placed(node2, box2, xPrefix2, yPrefix2, b2, xSplitter2, lo2)
    modifies res
    ensures Found(old(multiset(res.pairs)), multiset(res.pairs), HitsOf(node1, node2, dis), dis)
    ensures !BoxesWithinDis(box1, box2, dis) ==> res.pairs == old(res.pairs)
    decreases b1 + b2, 1
  {
    if node1 == null || node2 == null {
      PairsNone(Contents(TrieOf(node1)), Contents(TrieOf(node2)), dis);
      return;
    }
    PlacedBox(node1, box1, xPrefix1, yPrefix1, b1, xSplitter1, lo1);
    PlacedBox(node2, box2, xPrefix2, yPrefix2, b2, xSplitter2, lo2);
    hide Placed;
    if !BoxesWithinDis(box1, box2, dis) {
      if 0 <= dis {
        PrunedJoin(Contents(node1.trie), Contents(node2.trie), box1, box2, dis);
      }
      return;
    }
    hide BoxesWithinDis, Pairs;
    if node1.isLeaf && node2.isLeaf {
      JoinLeaves(node1.LeafRecords(), node2.LeafRecords(), dis, res);
      return;
    }
    hide HitsOf, Node.Valid, Found;
    if !node1.isLeaf && !node2.isLeaf {
      JoinBoth(node1, node2, dis, res, box1, xPrefix1, yPrefix1, b1, xSplitter1,
               box2, xPrefix2, yPrefix2, b2, xSplitter2, lo1, lo2);
    } else if !node1.isLeaf {
      JoinFirst(node1, node2, dis, res, box1, xPrefix1, yPrefix1, b1, xSplitter1,
                box2, xPrefix2, yPrefix2, b2, xSplitter2, lo1, lo2);
    } else {
      JoinSecond(node1, node2, dis, res, box1, xPrefix1, yPrefix1, b1, xSplitter1,
                 box2, xPrefix2, yPrefix2, b2, xSplitter2, lo1, lo2);
    }
  }

  /** Two interior nodes: all four combinations of sons. */
  method JoinBoth(node1: Node, node2: Node, dis: int, res: PairList,
                  box1: Box, xPrefix1: int, yPrefix1: int, b1: nat, xSplitter1: bool,
                  box2: Box, xPrefix2: int, yPrefix2: int, b2: nat, xSplitter2: bool,
                  ghost lo1: nat, ghost lo2: nat)
    requires !node1.isLeaf && !node2.isLeaf
    requires Placed(node1, box1, xPrefix1, yPrefix1, b1, xSplitter1, lo1)
    requires Placed(node2, box2, xPrefix2, yPrefix2, b2, xSplitter2, lo2)
    modifies res
    ensures Found(old(multiset(res.pairs)), multiset(res.pairs), HitsOf(node1, node2, dis), dis)
    decreases b1 + b2, 0
  {
    hide Located, Well, Pairs, Contents, ComputeCurBox, Node.Valid;
    PlacedSons(node1, box1, xPrefix1, yPrefix1, b1, xSplitter1, lo1);
    HitsFirst(node1, node2, dis);
    ghost var before, l, r := multiset(res.pairs), HitsOf(node1.lSon, node2, dis), HitsOf(node1.rSon, node2, dis);
    hide HitsOf, Found;
    var (lBox1, rBox1, rx1, ry1) := ComputeCurBox(box1, xPrefix1, yPrefix1, b1, xSplitter1);
    JoinSecond(node1.lSon, node2, dis, res, lBox1, xPrefix1, yPrefix1, b1 - 1, !xSplitter1,
               box2, xPrefix2, yPrefix2, b2, xSplitter2, lo1, lo2);
    ghost var between := multiset(res.pairs);
    JoinSecond(node1.rSon, node2, dis, res, rBox1, rx1, ry1, b1 - 1, !xSplitter1,
               box2, xPrefix2, yPrefix2, b2, xSplitter2, Mid(lo1, b1), lo2);
    FoundBoth(before, between, multiset(res.pairs), l, r, dis);
  }

  /** An interior node against a leaf. */
  method JoinFirst(node1: Node, node2: Node, dis: int, res: PairList,
                   box1: Box, xPrefix1: int, yPrefix1: int, b1: nat, xSplitter1: bool,
                   box2: Box, xPrefix2: int, yPrefix2: int, b2: nat, xSplitter2: bool,
                   ghost lo1: nat, ghost lo2: nat)
    requires !node1.isLeaf
    requires Placed(node1, box1, xPrefix1, yPrefix1, b1, xSplitter1, lo1)
    requires Placed(node2, box2, xPrefix2, yPrefix2, b2, xSplitter2, lo2)
    modifies res
    ensures Found(old(multiset(res.pairs)), multiset(res.pairs), HitsOf(node1, node2, dis), dis)
    decreases b1 + b2, 0
  {
    hide Located, Well, Pairs, Contents, ComputeCurBox, Node.Valid;
    PlacedSons(node1, box1, xPrefix1, yPrefix1, b1, xSplitter1, lo1);
    HitsFirst(node1, node2, dis);
    ghost var before, l, r := multiset(res.pairs), HitsOf(node1.lSon, node2, dis), HitsOf(node1.rSon, node2, dis);
    hide HitsOf, Found;
    var (lBox1, rBox1, rx1, ry1) := ComputeCurBox(box1, xPrefix1, yPrefix1, b1, xSplitter1);
    SpatialJoin(node1.lSon, node2, dis, res, lBox1, xPrefix1, yPrefix1, b1 - 1, !xSplitter1,
                box2, xPrefix2, yPrefix2, b2, xSplitter2, lo1, lo2);
    ghost var between := multiset(res.pairs);
    SpatialJoin(node1.rSon, node2, dis, res, rBox1, rx1, ry1, b1 - 1, !xSplitter1,
                box2, xPrefix2, yPrefix2, b2, xSplitter2, Mid(lo1, b1), lo2);
    FoundBoth(before, between, multiset(res.pairs), l, r, dis);
  }

  /** A leaf, or one son, against an interior node. */
  method JoinSecond(node1: Node?, node2: Node, dis: int, res: PairList,
                    box1: Box, xPrefix1: int, yPrefix1: int, b1: nat, xSplitter1: bool,
                    box2: Box, xPrefix2: int, yPrefix2: int, b2: nat, xSplitter2: bool,
                    ghost lo1: nat, ghost lo2: nat)
    requires !node2.isLeaf
    requires Placed(node1, box1, xPrefix1, yPrefix1, b1, xSplitter1, lo1)
    requires Placed(node2, box2, xPrefix2, yPrefix2, b2, xSplitter2, lo2)
    modifies res
    ensures Found(old(multiset(res.pairs)), multiset(res.pairs), HitsOf(node1, node2, dis), dis)
    decreases b1 + b2, 0
  {
    hide Located, Well, Pairs, Contents, ComputeCurBox, Node.Valid;
    PlacedSons(node2, box2, xPrefix2, yPrefix2, b2, xSplitter2, lo2);
    HitsSecond(node1, node2, dis);
    ghost var before, l, r := multiset(res.pairs), HitsOf(node1, node2.lSon, dis), HitsOf(node1, node2.rSon, dis);
    hide HitsOf, Found;
    var (lBox2, rBox2, rx2, ry2) := ComputeCurBox(box2, xPrefix2, yPrefix2, b2, xSplitter2);
    SpatialJoin(node1, node2.lSon, dis, res, box1, xPrefix1, yPrefix1, b1, xSplitter1,
                lBox2, xPrefix2, yPrefix2, b2 - 1, !xSplitter2, lo1, lo2);
    ghost var between := multiset(res.pairs);
    SpatialJoin(node1, node2.rSon, dis, res, box1, xPrefix1, yPrefix1, b1, xSplitter1,
                rBox2, rx2, ry2, b2 - 1, !xSplitter2, lo1, Mid(lo2, b2));
    FoundBoth(before, between, multiset(res.pairs), l, r, dis);
  }

  lemma HitsFirst(x: Node, y: Node?, dis: int)
    requires Contents(x.trie) == Contents(TrieOf(x.lSon)) + Contents(TrieOf(x.rSon))
    ensures HitsOf(x, y, dis) == HitsOf(x.lSon, y, dis) + HitsOf(x.rSon, y, dis)
  {
    PairsLeft(Contents(TrieOf(x.lSon)), Contents(TrieOf(x.rSon)), Contents(TrieOf(y)), dis);
  }

  lemma HitsSecond(x: Node?, y: Node, dis: int)
    requires Contents(y.trie) == Contents(TrieOf(y.lSon)) + Contents(TrieOf(y.rSon))
    ensures HitsOf(x, y, dis) == HitsOf(x, y.lSon, dis) + HitsOf(x, y.rSon, dis)
  {
    PairsRight(Contents(TrieOf(x)), Contents(TrieOf(y.lSon)), Contents(TrieOf(y.rSon)), dis);
  }

  lemma HitCount(a: seq<Point>, c: seq<Point>, dis: int, p: Point, q: Point)
    ensures Pairs(a, c, dis)[(p, q)]
            == if p.id != q.id && (p.x - q.x) * (p.x - q.x) + (p.y - q.y) * (p.y - q.y) <= dis * dis
               then multiset(a)[p] * multiset(c)[q] else 0
  {
    hide Pairs;
    PairsCount(a, c, dis, p, q);
  }

  /**
   * What a join means for the points themselves: a pair of different ids within
   * the distance is reported once for every way of picking its two points.
   */
  lemma FoundPairs(before: multiset<Pair>, after: multiset<Pair>, a: seq<Point>, c: seq<Point>, dis: int)
    requires Found(before, after, Pairs(a, c, dis), dis)
    ensures forall p: Point, q: Point ::
              var m: int, n: int := multiset(a)[p], multiset(c)[q];
              var found: int :=
                if p.id != q.id && (p.x - q.x) * (p.x - q.x) + (p.y - q.y) * (p.y - q.y) <= dis * dis then m * n else 0;
              && before[(p, q)] <= after[(p, q)] <= before[(p, q)] + found
              && (0 <= dis ==> after[(p, q)] == before[(p, q)] + found)
  {
    hide Pairs;
    forall p: Point, q: Point
      ensures var m, n := multiset(a)[p], multiset(c)[q];
              var found: int :=
                if p.id != q.id && (p.x - q.x) * (p.x - q.x) + (p.y - q.y) * (p.y - q.y) <= dis * dis then m * n else 0;
              && before[(p, q)] <= after[(p, q)] <= before[(p, q)] + found
              && (0 <= dis ==> after[(p, q)] == before[(p, q)] + found)
    {
      HitCount(a, c, dis, p, q);
    }
  }

  /** For negative distances the join may miss hits; it never reports anything else. */
  method TwoVersionSpatialJoin(node1: Node?, node2: Node?, dis: int, res: PairList, world1: Box, world2: Box,
        ghost leafSize: nat)
    requires ValidOrNull(node1) && ValidOrNull(node2)
    requires IsRoot(TrieOf(node1), leafSize) && IsRoot(TrieOf(node2), leafSize)
    requires forall p :: p in Contents(TrieOf(node1)) ==> PointInBox(p, world1)
    requires forall p :: p in Contents(TrieOf(node2)) ==> PointInBox(p, world2)
    modifies res
    ensures forall p: Point, q: Point ::
              var before, after := old(multiset(res.pairs))[(p, q)], multiset(res.pairs)[(p, q)];
              var m: int, n: int := multiset(Contents(TrieOf(node1)))[p], multiset(Contents(TrieOf(node2)))[q];
              var found: int :=
                if p.id != q.id && (p.x - q.x) * (p.x - q.x) + (p.y - q.y) * (p.y - q.y) <= dis * dis then m * n else 0;
              before <= after <= before + found && (0 <= dis ==> after == before + found)
    ensures !BoxesWithinDis(world1, world2, dis) ==> res.pairs == old(res.pairs)
  {
    RootContents(TrieOf(node1), leafSize);
    RootContents(TrieOf(node2), leafSize);
    RootLocated(Contents(TrieOf(node1)), world1);
    RootLocated(Contents(TrieOf(node2)), world2);
    hide Located, Well, Contents, Pairs, Found, IsRoot, Node.Valid, PointInBox, BoxesWithinDis;
    ghost var before := multiset(res.pairs);
    SpatialJoin(node1, node2, dis, res, world1, 0, 0, ROOT_BITS, true, world2, 0, 0, ROOT_BITS, true, 0, 0);
    FoundPairs(before, multiset(res.pairs), Contents(TrieOf(node1)), Contents(TrieOf(node2)), dis);
  }

  /** No pruned pair of boxes hides a hit. */
  ghost predicate PruningIsSound(dis: int) {
    forall a: Box, c: Box, p: Point, q: Point ::
      PointInBox(p, a) && PointInBox(q, c) && Hit(p, q, dis) ==> BoxesWithinDis(a, c, dis)
  }

  /** Pruning loses nothing exactly for the distances that are not negative; a caller can check the sign. */
  lemma PruningNeedsDistance(dis: int)
    ensures PruningIsSound(dis) <==> 0 <= dis
  {
    if 0 <= dis {
      forall a: Box, c: Box, p: Point, q: Point | PointInBox(p, a) && PointInBox(q, c) && Hit(p, q, dis)
        ensures BoxesWithinDis(a, c, dis)
      {
        if !BoxesWithinDis(a, c, dis) {
          PrunedPairs(a, c, dis, p, q);
          assert false;
        }
      }
    } else {
      var p, q, box := Point(1, 0, 0), Point(2, 0, 0), Box(0, 0, 0, 0);
      SameSpot(p, q, dis);
      assert PointInBox(p, box) && PointInBox(q, box) && Hit(p, q, dis) && !BoxesWithinDis(box, box, dis);
    }
  }

  /** Whatever negative distance is asked for, two points at one place are a hit the join does not report. */
  method MissedHit(dis: int) returns (v: Node, w: Node, res: PairList)
    requires dis < 0
    ensures v.Valid() && Contents(v.trie) == [Point(1, 0, 0)] && w.Valid() && Contents(w.trie) == [Point(2, 0, 0)]
    ensures 0 <= dis * dis && res.pairs == []
  {
    var p, q, world := Point(1, 0, 0), Point(2, 0, 0), Box(0, 0, 0, 0);
    var tree := new Tree(1);
    RootCell([p]);
    RootCell([q]);
    v := tree.Build([p], ROOT_BITS, 0);
    w := tree.Build([q], ROOT_BITS, 0);
    VersionIsRoot([p], 1);
    VersionIsRoot([q], 1);
    SquareMono(0, dis);
    assert !BoxesWithinDis(world, world, dis);
    hide IsRoot, Node.Valid, BoxesWithinDis, Pow2, Interleave;
    res := new PairList();
    TwoVersionSpatialJoin(v, w, dis, res, world, world, 1);
  }

  lemma SameSpot(p: Point, q: Point, dis: int)
    requires p.id != q.id && p.x == q.x && p.y == q.y
    ensures Hit(p, q, dis)
  {
    SquareMono(0, dis);
  }
}
