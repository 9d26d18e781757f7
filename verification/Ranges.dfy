/** Range queries on a version: counting and reporting refine a scan of its points. */
module Ranges {
  import opened Points
  import opened Sequences
  import opened Cells
  import opened Tries
  import opened Mvq
  import opened Geometry

  /** Both sons of an interior node know where their points are. */
  lemma SonsLocated(t: Trie, lo: nat, b: nat, cur: Box, xPrefix: int, yPrefix: int, xSplitter: bool)
    requires t.Inte? && Well(t, lo, b) && Located(Contents(t), lo, b, cur, xPrefix, yPrefix, xSplitter)
    ensures b > 0 && Well(t.l, lo, b - 1) && Well(t.r, Mid(lo, b), b - 1)
    ensures Cut(Contents(t.l), Mid(lo, b), Contents(t.r)) && Sorted(Contents(t.l)) && Sorted(Contents(t.r))
    ensures var (lBox, rBox, rx, ry) := ComputeCurBox(cur, xPrefix, yPrefix, b, xSplitter);
            && Located(Contents(t.l), lo, b - 1, lBox, xPrefix, yPrefix, !xSplitter)
            && Located(Contents(t.r), Mid(lo, b), b - 1, rBox, rx, ry, !xSplitter)
  {
    WellCut(t, lo, b);
    hide ComputeCurBox, Located;
    assert Contents(t) == Contents(t.l) + Contents(t.r);
    LocatedHalves(Contents(t.l), Contents(t.r), lo, b, cur, xPrefix, yPrefix, xSplitter);
  }

  lemma InteContents(t: Trie)
    requires t.Inte?
    ensures Contents(t) == Contents(t.l) + Contents(t.r)
  {
  }

  /** What the box test says about all points of a node. */
  lemma RelationDecides(s: seq<Point>, lo: nat, b: nat, cur: Box, xPrefix: int, yPrefix: int, xSplitter: bool,
        query: Box)
    requires Located(s, lo, b, cur, xPrefix, yPrefix, xSplitter)
    ensures BoxRelation(cur, query) < 0 ==> Filter(s, InQuery(query)) == []
    ensures BoxRelation(cur, query) > 0 ==> Filter(s, InQuery(query)) == s
  {
    var rel := BoxRelation(cur, query);
    forall p | p in s
      ensures rel < 0 ==> !InQuery(query)(p)
      ensures rel > 0 ==> InQuery(query)(p)
    {
      BoxRelationSound(cur, query, p);
    }
    hide BoxRelation;
    if rel < 0 {
      FilterNone(s, InQuery(query));
    } else if rel > 0 {
      FilterAll(s, InQuery(query));
    }
  }

  lemma SizeIsCount(t: Trie, lo: nat, b: nat)
    requires Well(t, lo, b)
    ensures TrieSize(t) == |Contents(t)|
  {
  }

  method CountLeaf(records: seq<Point>, query: Box) returns (ret: nat)
    ensures ret == |Filter(records, InQuery(query))|
  {
    ret := 0;
    assert records[..0] == [];
    for i := 0 to |records|
      invariant ret == |Filter(records[..i], InQuery(query))|
    {
      FilterConcat(records[..i], [records[i]], InQuery(query));
      assert records[..i + 1] == records[..i] + [records[i]];
      if PointInBox(records[i], query) {
        ret := ret + 1;
      }
    }
    assert records[..|records|] == records;
  }

  /** Number of points of a version in the query box, without visiting boxes inside or outside it. */
  method RangeCountNode(x: Node, query: Box, cur: Box, xPrefix: int, yPrefix: int, b: nat, xSplitter: bool,
        ghost lo: nat)
    returns (ret: nat)
    requires x.Valid() && Well(x.trie, lo, b)
    requires Located(Contents(x.trie), lo, b, cur, xPrefix, yPrefix, xSplitter)
    ensures ret == |Filter(Contents(x.trie), InQuery(query))|
    decreases b
  {
    hide BoxRelation, Located, ComputeCurBox, Well, Filter, InQuery, Node.Valid;
    RelationDecides(Contents(x.trie), lo, b, cur, xPrefix, yPrefix, xSplitter, query);
    NodeSize(x);
    var flag := BoxRelation(cur, query);
    if flag < 0 {
      return 0;
    }
    if flag > 0 {
      SizeIsCount(x.trie, lo, b);
      return x.GetNumPoints();
    }
    if x.isLeaf {
      ret := CountLeaf(x.LeafRecords(), query);
    } else {
      SonsOf(x);
      SonsLocated(x.trie, lo, b, cur, xPrefix, yPrefix, xSplitter);
      FilterConcat(Contents(x.trie.l), Contents(x.trie.r), InQuery(query));
      var (lBox, rBox, rx, ry) := ComputeCurBox(cur, xPrefix, yPrefix, b, xSplitter);
      hide Contents;
      var retL, retR := 0, 0;
      if x.lSon != null {
        retL := RangeCountNode(x.lSon, query, lBox, xPrefix, yPrefix, b - 1, !xSplitter, lo);
      }
      if x.rSon != null {
        retR := RangeCountNode(x.rSon, query, rBox, rx, ry, b - 1, !xSplitter, Mid(lo, b));
      }
      FilterNothing(query);
      ret := retL + retR;
    }
  }

  lemma Concat3(a: seq<Point>, b: seq<Point>, c: seq<Point>, ab: seq<Point>, abc: seq<Point>)
    requires ab == a + b && abc == ab + c
    ensures abc == a + (b + c) && |abc| == |a| + |b + c|
  {
  }

  lemma TailKept(a: seq<Point>, b: seq<Point>, i: nat, c: seq<Point>, j: nat)
    requires |a| == |b| == |c| && i <= j <= |a| && b[i..] == a[i..] && c[j..] == b[j..]
    ensures c[j..] == a[j..]
  {
    assert b[j..] == b[i..][j - i..] && a[j..] == a[i..][j - i..];
  }

  lemma FilterNothing(query: Box)
    ensures Filter([], InQuery(query)) == []
  {
  }

  method ReportLeaf(records: seq<Point>, query: Box, start: nat, out: array<Point>) returns (cnt: nat)
    requires start + |Filter(records, InQuery(query))| <= out.Length
    modifies out
    ensures cnt == start + |Filter(records, InQuery(query))|
    ensures out[..cnt] == old(out[..start]) + Filter(records, InQuery(query)) && out[..][cnt..] == old(out[..])[cnt..]
  {
    cnt := start;
    ghost var done := [];
    assert records[0..] == records;
    for i := 0 to |records|
      invariant cnt == start + |done| && done + Filter(records[i..], InQuery(query)) == Filter(records, InQuery(query))
      invariant cnt <= out.Length && out[..cnt] == old(out[..start]) + done && out[..][cnt..] == old(out[..])[cnt..]
    {
      assert records[i..][1..] == records[i + 1..];
      FilterHead(records[i..], InQuery(query));
      if PointInBox(records[i], query) {
        out[cnt] := records[i];
        cnt := cnt + 1;
        done := done + [records[i]];
      }
    }
  }

  /** Appends the points of a version that lie in the query box, in Morton order. */
  method RangeReportNode(x: Node?, query: Box, cur: Box, xPrefix: int, yPrefix: int, b: nat, xSplitter: bool,
                         start: nat, out: array<Point>, ghost lo: nat)
    returns (cnt: nat)
    requires ValidOrNull(x) && Well(TrieOf(x), lo, b)
    requires Located(Contents(TrieOf(x)), lo, b, cur, xPrefix, yPrefix, xSplitter)
    requires start + |Filter(Contents(TrieOf(x)), InQuery(query))| <= out.Length
    modifies out
    ensures cnt == start + |Filter(Contents(TrieOf(x)), InQuery(query))|
    ensures out[..cnt] == old(out[..start]) + Filter(Contents(TrieOf(x)), InQuery(query))
    ensures out[..][cnt..] == old(out[..])[cnt..]
    decreases b
  {
    cnt := start;
    if x == null {
      return;
    }
    hide BoxRelation, Located, ComputeCurBox, Well, Filter, InQuery, Node.Valid;
    RelationDecides(Contents(x.trie), lo, b, cur, xPrefix, yPrefix, xSplitter, query);
    if BoxRelation(cur, query) < 0 {
      return;
    }
    NodeSize(x);
    if x.isLeaf {
      cnt := ReportLeaf(x.LeafRecords(), query, start, out);
      return;
    }
    SonsOf(x);
    SonsLocated(x.trie, lo, b, cur, xPrefix, yPrefix, xSplitter);
    FilterConcat(Contents(x.trie.l), Contents(x.trie.r), InQuery(query));
    hide Contents;
    var (lBox, rBox, rx, ry) := ComputeCurBox(cur, xPrefix, yPrefix, b, xSplitter);
    ghost var t, before := x.trie, out[..start];
    ghost var fl, fr := Filter(Contents(t.l), InQuery(query)), Filter(Contents(t.r), InQuery(query));
    cnt := RangeReportNode(x.lSon, query, lBox, xPrefix, yPrefix, b - 1, !xSplitter, cnt, out, lo);
    ghost var between, mid, k := out[..cnt], out[..], cnt;
    cnt := RangeReportNode(x.rSon, query, rBox, rx, ry, b - 1, !xSplitter, cnt, out, Mid(lo, b));
    Concat3(before, fl, fr, between, out[..cnt]);
    TailKept(old(out[..]), mid, k, out[..], cnt);
  }

  // ----- whole versions -----

  /** A null root is dereferenced unless its box is apart from the query, so a caller must not count it otherwise. */
  method RangeCount(x: Node?, query: Box, world: Box, ghost leafSize: nat) returns (ret: nat)
    requires ValidOrNull(x) && IsRoot(TrieOf(x), leafSize)
    requires x == null ==> BoxRelation(world, query) < 0
    requires forall p :: p in Contents(TrieOf(x)) ==> PointInBox(p, world)
    ensures ret == |Filter(Contents(TrieOf(x)),
                           (p: Point) => query.x1 <= p.x <= query.x2 && query.y1 <= p.y <= query.y2)|
  {
    FilterSame(Contents(TrieOf(x)), InQuery(query),
               (p: Point) => query.x1 <= p.x <= query.x2 && query.y1 <= p.y <= query.y2);
    if x == null {
      return 0;
    }
    RootContents(x.trie, leafSize);
    RootLocated(Contents(x.trie), world);
    ret := RangeCountNode(x, query, world, 0, 0, ROOT_BITS, true, 0);
  }

  /**
   * Behind what was already written: each point in the box as often as the
   * version holds it, by code and within a code by id; nothing else is written.
   */
  method RangeReport(x: Node?, query: Box, world: Box, start: nat, out: array<Point>, ghost leafSize: nat)
    returns (cnt: nat)
    requires ValidOrNull(x) && IsRoot(TrieOf(x), leafSize)
    requires forall p :: p in Contents(TrieOf(x)) ==> PointInBox(p, world)
    requires start + |Filter(Contents(TrieOf(x)), InQuery(query))| <= out.Length
    modifies out
    ensures start <= cnt <= out.Length && out[..start] == old(out[..start]) && out[..][cnt..] == old(out[..])[cnt..]
    ensures forall p :: multiset(out[start..cnt])[p] ==
              if query.x1 <= p.x <= query.x2 && query.y1 <= p.y <= query.y2 then multiset(Contents(TrieOf(x)))[p] else 0
    ensures forall i, j :: start <= i < j < cnt ==>
              out[i].Code() < out[j].Code() || (out[i].Code() == out[j].Code() && out[i].id <= out[j].id)
  {
    RootContents(TrieOf(x), leafSize);
    RootLocated(Contents(TrieOf(x)), world);
    hide IsRoot, Located, Well, Filter, InQuery, Contents, Sorted, Node.Valid, Interleave, PointInBox;
    ghost var s, before := Contents(TrieOf(x)), out[..];
    assert before[..start] == out[..start];
    cnt := RangeReportNode(x, query, world, 0, 0, ROOT_BITS, true, start, out, 0);
    assert out[..][..cnt] == out[..cnt];
    Reported(s, query, before, start, out[..], cnt);
    assert out[..][start..cnt] == out[start..cnt] && out[..][..start] == out[..start];
  }

  lemma Reported(s: seq<Point>, query: Box, before: seq<Point>, start: nat, after: seq<Point>, cnt: nat)
    requires Sorted(s) && start <= |before| && cnt <= |after|
    requires cnt == start + |Filter(s, InQuery(query))| && after[..cnt] == before[..start] + Filter(s, InQuery(query))
    ensures after[..start] == before[..start]
    ensures forall p :: multiset(after[start..cnt])[p] ==
              if query.x1 <= p.x <= query.x2 && query.y1 <= p.y <= query.y2 then multiset(s)[p] else 0
    ensures forall i, j :: start <= i < j < cnt ==>
              after[i].Code() < after[j].Code() || (after[i].Code() == after[j].Code() && after[i].id <= after[j].id)
  {
    ReportedInBox(s, query);
    ReportedOrder(s, query);
    hide Filter, InQuery, Interleave, Sorted;
    var r, all := Filter(s, InQuery(query)), after[..cnt];
    assert all[start..] == r && all[..start] == before[..start];
    assert after[start..cnt] == all[start..] && after[..start] == all[..start];
    forall i, j | start <= i < j < cnt
      ensures after[i].Code() < after[j].Code() || (after[i].Code() == after[j].Code() && after[i].id <= after[j].id)
    {
      assert after[i] == r[i - start] && after[j] == r[j - start];
    }
  }

  lemma ReportedInBox(s: seq<Point>, query: Box)
    ensures forall p :: multiset(Filter(s, InQuery(query)))[p] ==
              if query.x1 <= p.x <= query.x2 && query.y1 <= p.y <= query.y2 then multiset(s)[p] else 0
  {
    forall p
      ensures multiset(Filter(s, InQuery(query)))[p] ==
              if query.x1 <= p.x <= query.x2 && query.y1 <= p.y <= query.y2 then multiset(s)[p] else 0
    {
      FilterCount(s, InQuery(query), p);
    }
  }

  lemma ReportedOrder(s: seq<Point>, query: Box)
    requires Sorted(s)
    ensures var r := Filter(s, InQuery(query));
            forall i, j :: 0 <= i < j < |r| ==>
              r[i].Code() < r[j].Code() || (r[i].Code() == r[j].Code() && r[i].id <= r[j].id)
  {
    var r := Filter(s, InQuery(query));
    FilterSorted(s, InQuery(query));
    hide Filter, InQuery, Interleave;
    forall i, j | 0 <= i < j < |r|
      ensures r[i].Code() < r[j].Code() || (r[i].Code() == r[j].Code() && r[i].id <= r[j].id)
    {
      SortedByCodeAndId(r, i, j);
    }
  }

  lemma {:induction false} FilterSorted(s: seq<Point>, f: Point -> bool)
    requires Sorted(s)
    ensures Sorted(Filter(s, f))
  {
    if s != [] {
      FilterSorted(s[1..], f);
      forall q | q in Filter(s[1..], f)
        ensures Leq(s[0], q)
      {
        FilterCount(s[1..], f, q);
        assert q in multiset(Filter(s[1..], f));
        assert q in multiset(s[1..]);
      }
      SortedConcat(Kept(s[0], f), Filter(s[1..], f));
      FilterHead(s, f);
    }
  }
}
