/**
 * k nearest neighbours by branch and bound.  Pruning by recomputed boxes and
 * visiting the closer son first never lose a point that belongs to the answer.
 */
module Nearest {
  import opened Points
  import opened Sequences
  import opened Cells
  import opened Tries
  import opened Mvq
  import opened Geometry
  import opened Ranges

  /** A point with its squared distance to the query point. */
  datatype Cand = Cand(p: Point, dis: int)

  /** nn_pair_cmp: nearer first, and of two at the same distance the larger id first. */
  predicate Before(a: Cand, c: Cand) {
    a.dis < c.dis || (a.dis == c.dis && a.p.id > c.p.id)
  }

  ghost predicate Queued(s: seq<Cand>) {
    forall i, j :: 0 <= i < j < |s| ==> !Before(s[i], s[j])
  }

  lemma Inserted(s: seq<Cand>, n: nat, c: Cand)
    requires Queued(s) && n <= |s| && forall k :: 0 <= k < n ==> Before(c, s[k])
    requires n < |s| ==> !Before(c, s[n])
    ensures Queued(s[..n] + [c] + s[n..])
    ensures multiset(s[..n] + [c] + s[n..]) == multiset(s) + multiset{c}
  {
    assert s == s[..n] + s[n..];
    var t := s[..n] + [c] + s[n..];
    forall i, j | 0 <= i < j < |t|
      ensures !Before(t[i], t[j])
    {
      if i == n {
        assert t[j] == s[j - 1];
      }
    }
  }

  /** The priority queue: the last candidate in the order is on top. */
  class NnQueue {
    var items: seq<Cand>

    ghost predicate Valid()
      reads this
    {
      Queued(items)
    }

    ghost function Kept(): multiset<Cand>
      reads this
    {
      multiset(items)
    }

    constructor ()
      ensures Valid() && items == []
    {
      items := [];
    }

    function Size(): nat
      reads this
    {
      |items|
    }

    function Top(): Cand
      requires Size() > 0
      reads this
    {
      items[0]
    }

    method Push(c: Cand)
      requires Valid()
      modifies this
      ensures Valid() && Kept() == old(Kept()) + multiset{c}
    {
      var i := 0;
      while i < |items| && Before(c, items[i])
        invariant i <= |items|
        invariant forall k :: 0 <= k < i ==> Before(c, items[k])
      {
        i := i + 1;
      }
      Inserted(items, i, c);
      hide Before;
      items := items[..i] + [c] + items[i..];
    }

    method Pop()
      requires Valid() && Size() > 0
      modifies this
      ensures Valid() && Kept() == old(Kept()) - multiset{old(Top())}
    {
      assert items == [items[0]] + items[1..];
      items := items[1..];
    }
  }

  /** kept is an answer for k among all: full size, and nothing left out precedes anything kept. */
  ghost predicate KBest(kept: multiset<Cand>, all: multiset<Cand>, k: nat) {
    && kept <= all
    && |kept| == (if |all| <= k then |all| else k)
    && forall out, in_ :: out in all - kept && in_ in kept ==> !Before(out, in_)
  }

  ghost function CandsOf(s: seq<Point>, q: Point): (c: multiset<Cand>)
    ensures |c| == |s|
  {
    if s == [] then multiset{} else multiset{Cand(s[0], PointSqrDis(s[0], q))} + CandsOf(s[1..], q)
  }

  lemma CandsHead(s: seq<Point>, q: Point)
    requires s != []
    ensures CandsOf(s, q) == multiset{Cand(s[0], PointSqrDis(s[0], q))} + CandsOf(s[1..], q)
  {
  }

  lemma {:induction false} CandsConcat(a: seq<Point>, c: seq<Point>, q: Point)
    ensures CandsOf(a + c, q) == CandsOf(a, q) + CandsOf(c, q)
  {
    if a == [] {
      assert a + c == c;
      assert CandsOf(a, q) == multiset{};
    } else {
      hide CandsOf, PointSqrDis;
      var s := a + c;
      assert s[0] == a[0] && s[1..] == a[1..] + c;
      CandsConcat(a[1..], c, q);
      CandsHead(s, q);
      CandsHead(a, q);
    }
  }

  lemma {:induction false} CandsFrom(s: seq<Point>, q: Point, c: Cand)
    requires c in CandsOf(s, q)
    ensures c.p in s && c.dis == PointSqrDis(c.p, q)
  {
    if c != Cand(s[0], PointSqrDis(s[0], q)) {
      CandsFrom(s[1..], q, c);
    }
  }

  /** With room left everything seen so far has been kept. */
  lemma RoomKeepsAll(kept: multiset<Cand>, all: multiset<Cand>, k: nat)
    requires KBest(kept, all, k) && |kept| < k
    ensures kept == all
  {
    assert all == kept + (all - kept);
    assert |all| == |kept| + |all - kept|;
    assert all - kept == multiset{};
  }

  lemma OfferWithRoom(kept: multiset<Cand>, all: multiset<Cand>, k: nat, c: Cand)
    requires KBest(kept, all, k) && |kept| < k
    ensures KBest(kept + multiset{c}, all + multiset{c}, k)
  {
    RoomKeepsAll(kept, all, k);
  }

  ghost predicate IsTop(top: Cand, kept: multiset<Cand>) {
    top in kept && forall x :: x in kept ==> !Before(top, x)
  }

  lemma OfferBetter(kept: multiset<Cand>, all: multiset<Cand>, k: nat, top: Cand, c: Cand)
    requires KBest(kept, all, k) && |kept| == k && IsTop(top, kept) && Before(c, top)
    ensures KBest(kept - multiset{top} + multiset{c}, all + multiset{c}, k)
  {
    var kept', all' := kept - multiset{top} + multiset{c}, all + multiset{c};
    assert all' - kept' == (all - kept) + multiset{top};
    forall out, in_ | out in all' - kept' && in_ in kept'
      ensures !Before(out, in_)
    {
      if out != top {
        assert out in all - kept;
        assert !Before(out, top);
      }
    }
  }

  lemma OfferWorse(kept: multiset<Cand>, all: multiset<Cand>, k: nat, top: Cand, c: Cand)
    requires KBest(kept, all, k) && |kept| == k && IsTop(top, kept) && !Before(c, top)
    ensures KBest(kept, all + multiset{c}, k)
  {
    assert all + multiset{c} - kept == (all - kept) + multiset{c};
  }

  /** A subtree farther than the top of a full queue can be skipped. */
  lemma SkipFar(kept: multiset<Cand>, all: multiset<Cand>, k: nat, top: Cand, far: multiset<Cand>)
    requires KBest(kept, all, k) && |kept| == k && IsTop(top, kept)
    requires forall c :: c in far ==> top.dis < c.dis
    ensures KBest(kept, all + far, k)
  {
    assert all + far - kept == (all - kept) + far;
    assert |all + far| == |all| + |far|;
  }

  lemma TopOf(nn: NnQueue)
    requires nn.Valid() && nn.Size() > 0
    ensures IsTop(nn.Top(), nn.Kept())
  {
    var kept, top := nn.Kept(), nn.Top();
    assert top in kept;
    forall x | x in kept
      ensures !Before(top, x)
    {
      assert x in nn.items;
      var i :| 0 <= i < |nn.items| && nn.items[i] == x;
    }
  }

  method KnnLeaf(records: seq<Point>, k: nat, query: Point, nn: NnQueue, ghost seen: multiset<Cand>)
    requires k >= 1 && nn.Valid() && KBest(nn.Kept(), seen, k)
    modifies nn
    ensures nn.Valid() && KBest(nn.Kept(), seen + CandsOf(records, query), k)
  {
    hide KBest, IsTop, Before;
    ghost var all := seen;
    assert records[0..] == records;
    for i := 0 to |records|
      invariant nn.Valid() && KBest(nn.Kept(), all, k)
      invariant all + CandsOf(records[i..], query) == seen + CandsOf(records, query)
    {
      assert records[i..][1..] == records[i + 1..];
      Offer(Cand(records[i], PointSqrDis(records[i], query)), k, nn, all);
      all := all + multiset{Cand(records[i], PointSqrDis(records[i], query))};
    }
    assert CandsOf(records[|records|..], query) == multiset{};
    assert all == seen + CandsOf(records, query);
  }

  method Offer(c: Cand, k: nat, nn: NnQueue, ghost all: multiset<Cand>)
    requires k >= 1 && nn.Valid() && KBest(nn.Kept(), all, k)
    modifies nn
    ensures nn.Valid() && KBest(nn.Kept(), all + multiset{c}, k)
  {
    KeptSize(nn, all, k);
    hide KBest, NnQueue.Valid;
    if nn.Size() < k {
      OfferWithRoom(nn.Kept(), all, k, c);
      nn.Push(c);
    } else {
      TopOf(nn);
      if Before(c, nn.Top()) {
        OfferBetter(nn.Kept(), all, k, nn.Top(), c);
        nn.Pop();
        nn.Push(c);
      } else {
        OfferWorse(nn.Kept(), all, k, nn.Top(), c);
      }
    }
  }

  lemma KeptSize(nn: NnQueue, all: multiset<Cand>, k: nat)
    requires KBest(nn.Kept(), all, k)
    ensures nn.Size() == |nn.Kept()| <= k
  {
  }

  /** Distance bound of a son; a missing son is infinitely far. */
  datatype Bound = Fin(d: int) | Inf {
    predicate AtMost(other: Bound) {
      other.Inf? || (Fin? && d <= other.d)
    }
  }

  method KnnNode(x: Node?, k: nat, query: Point, cur: Box, xPrefix: int, yPrefix: int, b: nat, xSplitter: bool,
                 nn: NnQueue, ghost lo: nat, ghost seen: multiset<Cand>)
    requires ValidOrNull(x) && Well(TrieOf(x), lo, b)
    requires Located(Contents(TrieOf(x)), lo, b, cur, xPrefix, yPrefix, xSplitter)
    requires k >= 1 && nn.Valid() && KBest(nn.Kept(), seen, k)
    modifies nn
    ensures nn.Valid() && KBest(nn.Kept(), seen + CandsOf(Contents(TrieOf(x)), query), k)
    decreases b, 1
  {
    hide KBest, NnQueue.Valid, NnQueue.Kept, Located;
    if x == null {
      assert seen + multiset{} == seen;
    } else if x.isLeaf {
      KnnLeaf(x.LeafRecords(), k, query, nn, seen);
    } else {
      KnnInte(x, k, query, cur, xPrefix, yPrefix, b, xSplitter, nn, lo, seen);
    }
  }

  method KnnInte(x: Node, k: nat, query: Point, cur: Box, xPrefix: int, yPrefix: int, b: nat, xSplitter: bool,
                 nn: NnQueue, ghost lo: nat, ghost seen: multiset<Cand>)
    requires x.Valid() && !x.isLeaf && Well(x.trie, lo, b)
    requires Located(Contents(x.trie), lo, b, cur, xPrefix, yPrefix, xSplitter)
    requires k >= 1 && nn.Valid() && KBest(nn.Kept(), seen, k)
    modifies nn
    ensures nn.Valid() && KBest(nn.Kept(), seen + CandsOf(Contents(x.trie), query), k)
    decreases b, 0
  {
    hide KBest, NnQueue.Valid, NnQueue.Kept, Located, ComputeCurBox, BoxSqrDis, CandsOf, Contents, Node.Valid, Cut,
        Sorted;
    SonsOf(x);
    ghost var t := x.trie;
    SonsLocated(t, lo, b, cur, xPrefix, yPrefix, xSplitter);
    InteContents(t);
    CandsConcat(Contents(t.l), Contents(t.r), query);
    ghost var cl, cr := CandsOf(Contents(t.l), query), CandsOf(Contents(t.r), query);
    MultisetOrder(seen, cl, cr);
    hide Well;
    var (lBox, rBox, rx, ry) := ComputeCurBox(cur, xPrefix, yPrefix, b, xSplitter);
    var lDis := if x.lSon == null then Inf else Fin(BoxSqrDis(query, lBox));
    var rDis := if x.rSon == null then Inf else Fin(BoxSqrDis(query, rBox));
    if lDis.AtMost(rDis) {
      KnnSon(x.lSon, lDis, k, query, lBox, xPrefix, yPrefix, b - 1, !xSplitter, nn, lo, seen);
      KnnSon(x.rSon, rDis, k, query, rBox, rx, ry, b - 1, !xSplitter, nn, Mid(lo, b), seen + cl);
    } else {
      KnnSon(x.rSon, rDis, k, query, rBox, rx, ry, b - 1, !xSplitter, nn, Mid(lo, b), seen);
      KnnSon(x.lSon, lDis, k, query, lBox, xPrefix, yPrefix, b - 1, !xSplitter, nn, lo, seen + cr);
    }
  }

  lemma MultisetOrder(a: multiset<Cand>, c: multiset<Cand>, d: multiset<Cand>)
    ensures a + c + d == a + (c + d) && a + d + c == a + (c + d)
  {
  }

  /** Visits a son unless the queue is full and the son's box lies beyond its top. */
  method KnnSon(son: Node?, dis: Bound, k: nat, query: Point, box: Box, xPrefix: int, yPrefix: int, b: nat,
        xSplitter: bool,
                nn: NnQueue, ghost lo: nat, ghost seen: multiset<Cand>)
    requires ValidOrNull(son) && Well(TrieOf(son), lo, b)
    requires Located(Contents(TrieOf(son)), lo, b, box, xPrefix, yPrefix, xSplitter)
    requires dis == if son == null then Inf else Fin(BoxSqrDis(query, box))
    requires k >= 1 && nn.Valid() && KBest(nn.Kept(), seen, k)
    modifies nn
    ensures nn.Valid() && KBest(nn.Kept(), seen + CandsOf(Contents(TrieOf(son)), query), k)
    decreases b, 2
  {
    KeptSize(nn, seen, k);
    if nn.Size() < k || dis.AtMost(Fin(nn.Top().dis)) {
      hide KBest, Located;
      KnnNode(son, k, query, box, xPrefix, yPrefix, b, xSplitter, nn, lo, seen);
    } else {
      ghost var far := CandsOf(Contents(TrieOf(son)), query);
      FarCands(Contents(TrieOf(son)), query, box);
      TopOf(nn);
      hide KBest, Located, BoxSqrDis;
      SkipFar(nn.Kept(), seen, k, nn.Top(), far);
    }
  }

  lemma FarCands(s: seq<Point>, q: Point, box: Box)
    requires forall p :: p in s ==> PointInBox(p, box)
    ensures forall c :: c in CandsOf(s, q) ==> BoxSqrDis(q, box) <= c.dis
  {
    forall c | c in CandsOf(s, q)
      ensures BoxSqrDis(q, box) <= c.dis
    {
      CandsFrom(s, q, c);
      BoxSqrDisBound(q, box, c.p);
    }
  }

  /** Equal points are one candidate. */
  lemma {:induction false} CandsCount(s: seq<Point>, q: Point, p: Point)
    ensures CandsOf(s, q)[Cand(p, PointSqrDis(p, q))] == multiset(s)[p]
  {
    if s != [] {
      hide PointSqrDis;
      CandsCount(s[1..], q, p);
      CandsHead(s, q);
      Uncons(s);
    }
  }

  /** What an answer says of the points themselves. */
  lemma AnswerPoints(kept: multiset<Cand>, s: seq<Point>, q: Point, k: nat)
    requires KBest(kept, CandsOf(s, q), k)
    ensures |kept| == if |s| <= k then |s| else k
    ensures forall c :: c in kept ==>
              && c.dis == (c.p.x - q.x) * (c.p.x - q.x) + (c.p.y - q.y) * (c.p.y - q.y)
              && kept[c] <= multiset(s)[c.p]
  {
    hide CandsOf;
    forall c | c in kept
      ensures c.dis == (c.p.x - q.x) * (c.p.x - q.x) + (c.p.y - q.y) * (c.p.y - q.y)
      ensures kept[c] <= multiset(s)[c.p]
    {
      CandsFrom(s, q, c);
      CandsCount(s, q, c.p);
    }
  }

  /** What an answer leaves out. */
  lemma LeftOut(kept: multiset<Cand>, s: seq<Point>, q: Point, k: nat, o: Cand, i: Cand)
    requires KBest(kept, CandsOf(s, q), k) && i in kept
    requires o.dis == (o.p.x - q.x) * (o.p.x - q.x) + (o.p.y - q.y) * (o.p.y - q.y) && kept[o] < multiset(s)[o.p]
    ensures i.dis < o.dis || (i.dis == o.dis && o.p.id <= i.p.id)
  {
    hide CandsOf;
    CandsCount(s, q, o.p);
    assert o in CandsOf(s, q) - kept;
  }

  /** The queue keeps the worst candidate first. */
  lemma WorstFirst(nn: NnQueue)
    requires nn.Valid()
    ensures forall i, j :: 0 <= i < j < |nn.items| ==>
              nn.items[j].dis < nn.items[i].dis
              || (nn.items[j].dis == nn.items[i].dis && nn.items[i].p.id <= nn.items[j].p.id)
  {
  }

  method SearchRoot(x: Node?, k: nat, query: Point, world: Box) returns (nn: NnQueue)
    requires k >= 1 && ValidOrNull(x) && Well(TrieOf(x), 0, ROOT_BITS)
    requires Located(Contents(TrieOf(x)), 0, ROOT_BITS, world, 0, 0, true)
    ensures fresh(nn) && nn.Valid()
    ensures KBest(nn.Kept(), CandsOf(Contents(TrieOf(x)), query), k)
  {
    nn := new NnQueue();
    ghost var all := CandsOf(Contents(TrieOf(x)), query);
    KnnNode(x, k, query, world, 0, 0, ROOT_BITS, true, nn, 0, multiset{});
    assert multiset{} + all == all;
  }

  /**
   * The answer for a whole version: its min(k, n) points nearest to the query.
   * A point left out is farther than every point kept, or as far with no larger id.
   */
  method KnnReport(x: Node?, k: nat, query: Point, world: Box, ghost leafSize: nat) returns (nn: NnQueue)
    requires k >= 1 && ValidOrNull(x) && IsRoot(TrieOf(x), leafSize)
    requires forall p :: p in Contents(TrieOf(x)) ==> PointInBox(p, world)
    ensures fresh(nn) && nn.Valid()
    ensures KBest(nn.Kept(), CandsOf(Contents(TrieOf(x)), query), k)
    ensures var n := |Contents(TrieOf(x))|; |nn.items| == if n <= k then n else k
    ensures forall c :: c in nn.items ==>
              && c.dis == (c.p.x - query.x) * (c.p.x - query.x) + (c.p.y - query.y) * (c.p.y - query.y)
              && multiset(nn.items)[c] <= multiset(Contents(TrieOf(x)))[c.p]
    ensures forall o: Cand, i: Cand ::
              && o.dis == (o.p.x - query.x) * (o.p.x - query.x) + (o.p.y - query.y) * (o.p.y - query.y)
              && multiset(nn.items)[o] < multiset(Contents(TrieOf(x)))[o.p] && i in nn.items ==>
              i.dis < o.dis || (i.dis == o.dis && o.p.id <= i.p.id)
  {
    RootContents(TrieOf(x), leafSize);
    RootLocated(Contents(TrieOf(x)), world);
    hide Contents, Located, Well, IsRoot, Node.Valid, NnQueue.Valid, NnQueue.Kept, CandsOf, KBest, PointInBox;
    nn := SearchRoot(x, k, query, world);
    PlainAnswer(nn, Contents(TrieOf(x)), query, k);
  }

  lemma PlainAnswer(nn: NnQueue, s: seq<Point>, query: Point, k: nat)
    requires nn.Valid() && KBest(nn.Kept(), CandsOf(s, query), k)
    ensures |nn.items| == if |s| <= k then |s| else k
    ensures forall c :: c in nn.items ==>
              && c.dis == (c.p.x - query.x) * (c.p.x - query.x) + (c.p.y - query.y) * (c.p.y - query.y)
              && multiset(nn.items)[c] <= multiset(s)[c.p]
    ensures forall o: Cand, i: Cand ::
              && o.dis == (o.p.x - query.x) * (o.p.x - query.x) + (o.p.y - query.y) * (o.p.y - query.y)
              && multiset(nn.items)[o] < multiset(s)[o.p] && i in nn.items ==>
              i.dis < o.dis || (i.dis == o.dis && o.p.id <= i.p.id)
  {
    var kept := nn.Kept();
    assert forall c :: c in nn.items <==> c in kept;
    AnswerPoints(kept, s, query, k);
    forall o: Cand, i: Cand |
        && o.dis == (o.p.x - query.x) * (o.p.x - query.x) + (o.p.y - query.y) * (o.p.y - query.y)
        && kept[o] < multiset(s)[o.p] && i in nn.items
      ensures i.dis < o.dis || (i.dis == o.dis && o.p.id <= i.p.id)
    {
      LeftOut(kept, s, query, k, o, i);
    }
  }

  /** The distances of any two answers for the same candidates agree: the order leaves no freedom but ties. */
  lemma AnswersAgree(a: multiset<Cand>, c: multiset<Cand>, all: multiset<Cand>, k: nat, x: Cand)
    requires KBest(a, all, k) && KBest(c, all, k) && x in a && x !in c
    ensures exists y :: y in c && !Before(x, y) && !Before(y, x)
  {
    if c <= a {
      ProperlySmaller(c, a, x);
      assert false;
    }
    var y :| y in c && c[y] > a[y];
    assert y in all - a && x in all - c;
  }

  lemma ProperlySmaller(c: multiset<Cand>, a: multiset<Cand>, x: Cand)
    requires c <= a && x in a && x !in c
    ensures |c| < |a|
  {
    assert a == c + (a - c);
    assert x in a - c;
  }
}
