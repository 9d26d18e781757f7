/**
 * Differences between versions.  Shared subtrees are skipped by comparing
 * object identities; every other pair of shapes, leaf against interior node
 * included, ends in the exact multiset difference, in Morton order.
 */
module Diffs {
  import opened Points
  import opened Sequences
  import opened Cells
  import opened Tries
  import opened Operations
  import opened Mvq
  import opened Geometry
  import opened Ranges

  method CollectRecords(x: Node?) returns (ret: seq<Point>)
    requires ValidOrNull(x)
    ensures ret == Contents(TrieOf(x))
    decreases if x == null then {} else x.Repr
  {
    if x == null {
      return [];
    }
    if x.isLeaf {
      return x.LeafRecords();
    }
    SonsOf(x);
    ret := CollectRecords(x.lSon);
    var R := CollectRecords(x.rSon);
    ret := ret + R;
  }

  /** The run P of one version against the subtree x of the other, both over the same cell. */
  method LeafInteDiff(P: seq<Point>, x: Node?, b: nat, ghost lo: nat) returns (add: seq<Point>, remove: seq<Point>)
    requires b <= ROOT_BITS && Aligned(lo, b) && Sorted(P) && InCell(P, lo, b)
    requires ValidOrNull(x) && Well(TrieOf(x), lo, b)
    ensures add == Minus(Contents(TrieOf(x)), P) && remove == Minus(P, Contents(TrieOf(x)))
    decreases b
  {
    if x == null {
      return [], P;
    }
    if x.isLeaf {
      add, remove := MergePtsFresh(P, x.LeafRecords());
      return;
    }
    add, remove := LeafInteSplit(P, x, b, lo);
  }

  method LeafInteSplit(P: seq<Point>, x: Node, b: nat, ghost lo: nat) returns (add: seq<Point>, remove: seq<Point>)
    requires b <= ROOT_BITS && Aligned(lo, b) && Sorted(P) && InCell(P, lo, b)
    requires x.Valid() && !x.isLeaf && Well(x.trie, lo, b)
    ensures add == Minus(Contents(x.trie), P) && remove == Minus(P, Contents(x.trie))
    decreases b, 0
  {
    hide Minus, Sorted, InCell, Cut, Aligned, Mid, Node.Valid, Contents;
    SonsOf(x);
    InteContents(x.trie);
    WellCut(x.trie, lo, b);
    var PL, PR := SplitCell(P, b, lo);
    MinusCut(Contents(x.trie.l), Contents(x.trie.r), PL, PR, Mid(lo, b));
    MinusCut(PL, PR, Contents(x.trie.l), Contents(x.trie.r), Mid(lo, b));
    var lAdd, lRemove := LeafInteDiff(PL, x.lSon, b - 1, lo);
    var rAdd, rRemove := LeafInteDiff(PR, x.rSon, b - 1, Mid(lo, b));
    add, remove := lAdd + rAdd, lRemove + rRemove;
  }

  method Diff(node1: Node?, node2: Node?, b: nat, ghost lo: nat) returns (add: seq<Point>, remove: seq<Point>)
    requires b <= ROOT_BITS && Aligned(lo, b)
    requires ValidOrNull(node1) && ValidOrNull(node2) && Well(TrieOf(node1), lo, b) && Well(TrieOf(node2), lo, b)
    ensures add == Minus(Contents(TrieOf(node2)), Contents(TrieOf(node1)))
    ensures remove == Minus(Contents(TrieOf(node1)), Contents(TrieOf(node2)))
    decreases b
  {
    ghost var t1, t2 := TrieOf(node1), TrieOf(node2);
    WellContents(t1, lo, b);
    WellContents(t2, lo, b);
    if node1 == node2 {
      MinusSelf(Contents(t1));
      return [], [];
    }
    if node1 == null {
      add := CollectRecords(node2);
      return add, [];
    }
    if node2 == null {
      remove := CollectRecords(node1);
      return [], remove;
    }
    if node1.isLeaf && node2.isLeaf {
      add, remove := MergePtsFresh(node1.LeafRecords(), node2.LeafRecords());
    } else if node1.isLeaf {
      add, remove := LeafInteDiff(node1.LeafRecords(), node2, b, lo);
    } else if node2.isLeaf {
      remove, add := LeafInteDiff(node2.LeafRecords(), node1, b, lo);
    } else {
      add, remove := InteInteDiff(node1, node2, b, lo);
    }
  }

  method InteInteDiff(node1: Node, node2: Node, b: nat, ghost lo: nat) returns (add: seq<Point>, remove: seq<Point>)
    requires 0 < b <= ROOT_BITS && Aligned(lo, b) && node1.Valid() && node2.Valid()
    requires !node1.isLeaf && !node2.isLeaf && Well(node1.trie, lo, b) && Well(node2.trie, lo, b)
    ensures add == Minus(Contents(node2.trie), Contents(node1.trie))
    ensures remove == Minus(Contents(node1.trie), Contents(node2.trie))
    decreases b, 0
  {
    SonsOf(node1);
    SonsOf(node2);
    ghost var t1, t2 := node1.trie, node2.trie;
    WellCut(t1, lo, b);
    WellCut(t2, lo, b);
    MinusCut(Contents(t1.l), Contents(t1.r), Contents(t2.l), Contents(t2.r), Mid(lo, b));
    MinusCut(Contents(t2.l), Contents(t2.r), Contents(t1.l), Contents(t1.r), Mid(lo, b));
    hide Minus, Sorted, Cut, Aligned, Node.Valid;
    var lAdd, lRemove := Diff(node1.lSon, node2.lSon, b - 1, lo);
    var rAdd, rRemove := Diff(node1.rSon, node2.rSon, b - 1, Mid(lo, b));
    add, remove := lAdd + rAdd, lRemove + rRemove;
  }

  method TwoVersionDiff(node1: Node?, node2: Node?, ghost leafSize: nat) returns (add: seq<Point>, remove: seq<Point>)
    requires ValidOrNull(node1) && ValidOrNull(node2)
    requires IsRoot(TrieOf(node1), leafSize) && IsRoot(TrieOf(node2), leafSize)
    ensures add == DiffAdd(TrieOf(node1), TrieOf(node2))
    ensures remove == DiffRemove(TrieOf(node1), TrieOf(node2))
    ensures multiset(add) == multiset(Contents(TrieOf(node2))) - multiset(Contents(TrieOf(node1)))
    ensures multiset(remove) == multiset(Contents(TrieOf(node1))) - multiset(Contents(TrieOf(node2)))
    ensures forall i, j :: 0 <= i < j < |add| ==>
              add[i].Code() < add[j].Code() || (add[i].Code() == add[j].Code() && add[i].id <= add[j].id)
    ensures forall i, j :: 0 <= i < j < |remove| ==>
              remove[i].Code() < remove[j].Code()
              || (remove[i].Code() == remove[j].Code() && remove[i].id <= remove[j].id)
  {
    RootContents(TrieOf(node1), leafSize);
    RootContents(TrieOf(node2), leafSize);
    ZeroAligned(ROOT_BITS);
    hide Contents, Well, IsRoot, Node.Valid, Minus, Sorted, Aligned;
    add, remove := Diff(node1, node2, ROOT_BITS, 0);
    DiffExact(TrieOf(node1), TrieOf(node2), leafSize);
    SortedRun(add);
    SortedRun(remove);
  }

  lemma SortedRun(s: seq<Point>)
    requires Sorted(s)
    ensures forall i, j :: 0 <= i < j < |s| ==>
              s[i].Code() < s[j].Code() || (s[i].Code() == s[j].Code() && s[i].id <= s[j].id)
  {
    hide Sorted, Interleave;
    forall i, j | 0 <= i < j < |s|
      ensures s[i].Code() < s[j].Code() || (s[i].Code() == s[j].Code() && s[i].id <= s[j].id)
    {
      SortedByCodeAndId(s, i, j);
    }
  }

  ghost function DiffAdd(t1: Trie, t2: Trie): seq<Point> { Minus(Contents(t2), Contents(t1)) }

  ghost function DiffRemove(t1: Trie, t2: Trie): seq<Point> { Minus(Contents(t1), Contents(t2)) }

  /** The two sides of a diff are the exact multiset differences and have no point in common. */
  lemma DiffExact(t1: Trie, t2: Trie, leafSize: nat)
    requires IsRoot(t1, leafSize) && IsRoot(t2, leafSize)
    ensures multiset(DiffAdd(t1, t2)) == multiset(Contents(t2)) - multiset(Contents(t1))
    ensures multiset(DiffRemove(t1, t2)) == multiset(Contents(t1)) - multiset(Contents(t2))
    ensures multiset(DiffAdd(t1, t2)) !! multiset(DiffRemove(t1, t2))
    ensures Sorted(DiffAdd(t1, t2)) && Sorted(DiffRemove(t1, t2))
  {
    RootContents(t1, leafSize);
    RootContents(t2, leafSize);
    MinusContents(Contents(t1), Contents(t2));
    MinusContents(Contents(t2), Contents(t1));
    MinusSorted(Contents(t1), Contents(t2));
    MinusSorted(Contents(t2), Contents(t1));
  }

  /** Committing the difference of two versions onto the first one gives the second one's tree. */
  lemma DiffThenCommit(t1: Trie, t2: Trie, leafSize: nat)
    requires IsRoot(t1, leafSize) && IsRoot(t2, leafSize) && t2 != Nil
    ensures CommitTrie(t1, DiffAdd(t1, t2), DiffRemove(t1, t2), leafSize) == t2
  {
    DiffExact(t1, t2, leafSize);
    RootContents(t1, leafSize);
    RootContents(t2, leafSize);
    var s := Committed(Contents(t1), DiffAdd(t1, t2), DiffRemove(t1, t2));
    CommittedContents(Contents(t1), DiffAdd(t1, t2), DiffRemove(t1, t2));
    MultisetPatch(multiset(Contents(t1)), multiset(Contents(t2)));
    SortedUnique(s, Contents(t2));
    RootIsVersion(t2, leafSize);
  }

  lemma MultisetPatch(a: multiset<Point>, b: multiset<Point>)
    ensures a - (a - b) + (b - a) == b
  {
  }

  /** Conversely, the difference from a version to its commit holds no more than the two batches. */
  lemma CommitThenDiff(t: Trie, insertions: seq<Point>, deletions: seq<Point>, leafSize: nat)
    requires IsRoot(t, leafSize)
    ensures var u := CommitTrie(t, insertions, deletions, leafSize);
            && multiset(DiffAdd(t, u)) <= multiset(insertions)
            && multiset(DiffRemove(t, u)) <= multiset(deletions)
  {
    RootContents(t, leafSize);
    var s := Committed(Contents(t), insertions, deletions);
    CommittedContents(Contents(t), insertions, deletions);
    VersionIsRoot(s, leafSize);
    DiffExact(t, Version(s, leafSize), leafSize);
    MultisetDrift(multiset(Contents(t)), multiset(insertions), multiset(deletions));
  }

  lemma MultisetDrift(a: multiset<Point>, i: multiset<Point>, d: multiset<Point>)
    ensures (a - d + i) - a <= i && a - (a - d + i) <= d
  {
  }

  // ----- differences inside a query box -----

  lemma FilteredMinusHalves(a: seq<Point>, b: seq<Point>, a': seq<Point>, b': seq<Point>, m: nat, f: Point -> bool)
    requires Cut(a, m, b) && Cut(a', m, b')
    requires Sorted(a) && Sorted(b) && Sorted(a') && Sorted(b')
    ensures Filter(Minus(a + b, a' + b'), f) == Filter(Minus(a, a'), f) + Filter(Minus(b, b'), f)
  {
    MinusCut(a, b, a', b', m);
    FilterConcat(Minus(a, a'), Minus(b, b'), f);
  }

  /** Outside the box there is nothing to report. */
  lemma NothingInside(a: seq<Point>, c: seq<Point>, lo: nat, b: nat, cur: Box, xPrefix: int, yPrefix: int,
        xSplitter: bool, query: Box)
    requires Located(a, lo, b, cur, xPrefix, yPrefix, xSplitter) && Sorted(a) && BoxRelation(cur, query) < 0
    ensures Filter(Minus(a, c), InQuery(query)) == []
  {
    MinusSorted(a, c);
    forall p | p in Minus(a, c)
      ensures !InQuery(query)(p)
    {
      BoxRelationSound(cur, query, p);
    }
    FilterNone(Minus(a, c), InQuery(query));
  }

  /**
   * LeafInteDiff restricted to the query box, written into ret: what P lacks
   * goes to one side of ret and what it has too much to the other, with the
   * sides swapped when P belongs to the second version.
   */
  method SpatialLeafInteDiff(P: seq<Point>, x: Node?, query: Box, cur: Box, xPrefix: int, yPrefix: int, b: nat,
                             xSplitter: bool, ret: DiffType, reverse: bool, ghost lo: nat)
    requires ValidOrNull(x) && Well(TrieOf(x), lo, b) && Sorted(P)
    requires Located(P, lo, b, cur, xPrefix, yPrefix, xSplitter)
    requires Located(Contents(TrieOf(x)), lo, b, cur, xPrefix, yPrefix, xSplitter)
    requires ret.Valid()
    requires |ret.Side(reverse)| + |Filter(Minus(P, Contents(TrieOf(x))), InQuery(query))| <= ret.Capacity(reverse)
    requires |ret.Side(!reverse)| + |Filter(Minus(Contents(TrieOf(x)), P), InQuery(query))| <= ret.Capacity(!reverse)
    modifies ret`addCnt, ret`removeCnt, ret.add, ret.remove
    ensures ret.Valid()
    ensures ret.Side(reverse) == old(ret.Side(reverse)) + Filter(Minus(P, Contents(TrieOf(x))), InQuery(query))
    ensures ret.Side(!reverse) == old(ret.Side(!reverse)) + Filter(Minus(Contents(TrieOf(x)), P), InQuery(query))
    decreases b
  {
    WellContents(TrieOf(x), lo, b);
    if BoxRelation(cur, query) < 0 {
      NothingInside(P, Contents(TrieOf(x)), lo, b, cur, xPrefix, yPrefix, xSplitter, query);
      NothingInside(Contents(TrieOf(x)), P, lo, b, cur, xPrefix, yPrefix, xSplitter, query);
      return;
    }
    if x == null {
      assert P[0..] == P;
      DrainRemoved(P, 0, InQuery(query), ret, reverse);
      return;
    }
    if x.isLeaf {
      MergePts(P, x.LeafRecords(), InQuery(query), ret, reverse);
      return;
    }
    hide Filter, Minus, InQuery, Sorted, Cut, ComputeCurBox, Node.Valid, Located;
    SpatialLeafInteSplit(P, x, query, cur, xPrefix, yPrefix, b, xSplitter, ret, reverse, lo);
  }

  method SpatialLeafInteSplit(P: seq<Point>, x: Node, query: Box, cur: Box, xPrefix: int, yPrefix: int, b: nat,
                              xSplitter: bool, ret: DiffType, reverse: bool, ghost lo: nat)
    requires x.Valid() && !x.isLeaf && Well(x.trie, lo, b) && Sorted(P)
    requires Located(P, lo, b, cur, xPrefix, yPrefix, xSplitter)
    requires Located(Contents(x.trie), lo, b, cur, xPrefix, yPrefix, xSplitter)
    requires ret.Valid()
    requires |ret.Side(reverse)| + |Filter(Minus(P, Contents(x.trie)), InQuery(query))| <= ret.Capacity(reverse)
    requires |ret.Side(!reverse)| + |Filter(Minus(Contents(x.trie), P), InQuery(query))| <= ret.Capacity(!reverse)
    modifies ret`addCnt, ret`removeCnt, ret.add, ret.remove
    ensures ret.Valid()
    ensures ret.Side(reverse) == old(ret.Side(reverse)) + Filter(Minus(P, Contents(x.trie)), InQuery(query))
    ensures ret.Side(!reverse) == old(ret.Side(!reverse)) + Filter(Minus(Contents(x.trie), P), InQuery(query))
    decreases b, 0
  {
    hide Filter, Minus, InQuery, Sorted, Cut, ComputeCurBox, Node.Valid, Contents, DiffType.Side, DiffType.Valid;
    SonsOf(x);
    ghost var t, f := x.trie, InQuery(query);
    SonsLocated(t, lo, b, cur, xPrefix, yPrefix, xSplitter);
    var PL, PR := SplitCell(P, b, lo);
    LocatedHalves(PL, PR, lo, b, cur, xPrefix, yPrefix, xSplitter);
    ghost var L, R := Contents(t.l), Contents(t.r);
    FilteredMinusHalves(PL, PR, L, R, Mid(lo, b), f);
    FilteredMinusHalves(L, R, PL, PR, Mid(lo, b), f);
    InteContents(t);
    var (lBox, rBox, rx, ry) := ComputeCurBox(cur, xPrefix, yPrefix, b, xSplitter);
    hide Located, InCell, Aligned, Well;
    ghost var s0, a0 := ret.Side(reverse), ret.Side(!reverse);
    SpatialLeafInteDiff(PL, x.lSon, query, lBox, xPrefix, yPrefix, b - 1, !xSplitter, ret, reverse, lo);
    ghost var s1, a1 := ret.Side(reverse), ret.Side(!reverse);
    SpatialLeafInteDiff(PR, x.rSon, query, rBox, rx, ry, b - 1, !xSplitter, ret, reverse, Mid(lo, b));
    Concat3(s0, Filter(Minus(PL, L), f), Filter(Minus(PR, R), f), s1, ret.Side(reverse));
    Concat3(a0, Filter(Minus(L, PL), f), Filter(Minus(R, PR), f), a1, ret.Side(!reverse));
  }

  /** The difference of two versions inside the query box: the full difference, filtered. */
  method SpatialDiff(node1: Node?, node2: Node?, query: Box, cur: Box, xPrefix: int, yPrefix: int, b: nat,
                     xSplitter: bool, ret: DiffType, ghost lo: nat)
    requires ValidOrNull(node1) && ValidOrNull(node2) && Well(TrieOf(node1), lo, b) && Well(TrieOf(node2), lo, b)
    requires Located(Contents(TrieOf(node1)), lo, b, cur, xPrefix, yPrefix, xSplitter)
    requires Located(Contents(TrieOf(node2)), lo, b, cur, xPrefix, yPrefix, xSplitter)
    requires ret.Valid()
    requires |ret.Added()| + |Filter(Minus(Contents(TrieOf(node2)), Contents(TrieOf(node1))), InQuery(query))|
             <= ret.add.Length
    requires |ret.Removed()| + |Filter(Minus(Contents(TrieOf(node1)), Contents(TrieOf(node2))), InQuery(query))|
             <= ret.remove.Length
    modifies ret`addCnt, ret`removeCnt, ret.add, ret.remove
    ensures ret.Valid()
    ensures ret.Added() == old(ret.Added())
                           + Filter(Minus(Contents(TrieOf(node2)), Contents(TrieOf(node1))), InQuery(query))
    ensures ret.Removed() == old(ret.Removed())
                             + Filter(Minus(Contents(TrieOf(node1)), Contents(TrieOf(node2))), InQuery(query))
    decreases b
  {
    ghost var c1, c2 := Contents(TrieOf(node1)), Contents(TrieOf(node2));
    WellContents(TrieOf(node1), lo, b);
    WellContents(TrieOf(node2), lo, b);
    if BoxRelation(cur, query) < 0 {
      NothingInside(c1, c2, lo, b, cur, xPrefix, yPrefix, xSplitter, query);
      NothingInside(c2, c1, lo, b, cur, xPrefix, yPrefix, xSplitter, query);
      return;
    }
    if node1 == node2 {
      MinusSelf(c1);
      return;
    }
    hide InQuery, Located, BoxRelation;
    if node1 == null {
      ret.addCnt := RangeReportNode(node2, query, cur, xPrefix, yPrefix, b, xSplitter, ret.addCnt, ret.add, lo);
    } else if node2 == null {
      ret.removeCnt := RangeReportNode(node1, query, cur, xPrefix, yPrefix, b, xSplitter, ret.removeCnt, ret.remove,
          lo);
    } else if node1.isLeaf && node2.isLeaf {
      MergePts(node1.LeafRecords(), node2.LeafRecords(), InQuery(query), ret, false);
    } else if node1.isLeaf {
      hide Minus, Filter;
      SpatialLeafInteDiff(node1.LeafRecords(), node2, query, cur, xPrefix, yPrefix, b, xSplitter, ret, false, lo);
    } else if node2.isLeaf {
      hide Minus, Filter;
      SpatialLeafInteDiff(node2.LeafRecords(), node1, query, cur, xPrefix, yPrefix, b, xSplitter, ret, true, lo);
    } else {
      hide Minus, Filter;
      SpatialInteInteDiff(node1, node2, query, cur, xPrefix, yPrefix, b, xSplitter, ret, lo);
    }
  }

  method SpatialInteInteDiff(node1: Node, node2: Node, query: Box, cur: Box, xPrefix: int, yPrefix: int, b: nat,
                             xSplitter: bool, ret: DiffType, ghost lo: nat)
    requires node1.Valid() && node2.Valid() && Well(node1.trie, lo, b) && Well(node2.trie, lo, b)
    requires !node1.isLeaf && !node2.isLeaf
    requires Located(Contents(node1.trie), lo, b, cur, xPrefix, yPrefix, xSplitter)
    requires Located(Contents(node2.trie), lo, b, cur, xPrefix, yPrefix, xSplitter)
    requires ret.Valid()
    requires |ret.Added()| + |Filter(Minus(Contents(node2.trie), Contents(node1.trie)), InQuery(query))|
             <= ret.add.Length
    requires |ret.Removed()| + |Filter(Minus(Contents(node1.trie), Contents(node2.trie)), InQuery(query))|
             <= ret.remove.Length
    modifies ret`addCnt, ret`removeCnt, ret.add, ret.remove
    ensures ret.Valid()
    ensures ret.Added() == old(ret.Added()) + Filter(Minus(Contents(node2.trie), Contents(node1.trie)), InQuery(query))
    ensures ret.Removed() == old(ret.Removed())
             + Filter(Minus(Contents(node1.trie), Contents(node2.trie)), InQuery(query))
    decreases b, 0
  {
    hide Filter, Minus, InQuery, Sorted, Cut, ComputeCurBox, Node.Valid, Contents, DiffType.Side, DiffType.Valid;
    SonsOf(node1);
    SonsOf(node2);
    ghost var t1, t2, f := node1.trie, node2.trie, InQuery(query);
    SonsLocated(t1, lo, b, cur, xPrefix, yPrefix, xSplitter);
    SonsLocated(t2, lo, b, cur, xPrefix, yPrefix, xSplitter);
    ghost var L1, R1, L2, R2 := Contents(t1.l), Contents(t1.r), Contents(t2.l), Contents(t2.r);
    FilteredMinusHalves(L1, R1, L2, R2, Mid(lo, b), f);
    FilteredMinusHalves(L2, R2, L1, R1, Mid(lo, b), f);
    InteContents(t1);
    InteContents(t2);
    var (lBox, rBox, rx, ry) := ComputeCurBox(cur, xPrefix, yPrefix, b, xSplitter);
    hide Located, InCell, Aligned, Well;
    ghost var s0, a0 := ret.Removed(), ret.Added();
    SpatialDiff(node1.lSon, node2.lSon, query, lBox, xPrefix, yPrefix, b - 1, !xSplitter, ret, lo);
    ghost var s1, a1 := ret.Removed(), ret.Added();
    SpatialDiff(node1.rSon, node2.rSon, query, rBox, rx, ry, b - 1, !xSplitter, ret, Mid(lo, b));
    Concat3(s0, Filter(Minus(L1, L2), f), Filter(Minus(R1, R2), f), s1, ret.Removed());
    Concat3(a0, Filter(Minus(L2, L1), f), Filter(Minus(R2, R1), f), a1, ret.Added());
  }

  method SpatialRoots(node1: Node?, node2: Node?, query: Box, world: Box, ret: DiffType, ghost leafSize: nat)
    requires ValidOrNull(node1) && ValidOrNull(node2)
    requires IsRoot(TrieOf(node1), leafSize) && IsRoot(TrieOf(node2), leafSize)
    requires forall p :: p in Contents(TrieOf(node1)) || p in Contents(TrieOf(node2)) ==> PointInBox(p, world)
    requires ret.Valid()
    requires |ret.Added()| + |Filter(DiffAdd(TrieOf(node1), TrieOf(node2)), InQuery(query))| <= ret.add.Length
    requires |ret.Removed()| + |Filter(DiffRemove(TrieOf(node1), TrieOf(node2)), InQuery(query))| <= ret.remove.Length
    modifies ret`addCnt, ret`removeCnt, ret.add, ret.remove
    ensures ret.Valid()
    ensures ret.add[..ret.addCnt]
            == old(ret.add[..ret.addCnt]) + Filter(DiffAdd(TrieOf(node1), TrieOf(node2)), InQuery(query))
    ensures ret.remove[..ret.removeCnt]
            == old(ret.remove[..ret.removeCnt]) + Filter(DiffRemove(TrieOf(node1), TrieOf(node2)), InQuery(query))
  {
    RootContents(TrieOf(node1), leafSize);
    RootContents(TrieOf(node2), leafSize);
    RootLocated(Contents(TrieOf(node1)), world);
    RootLocated(Contents(TrieOf(node2)), world);
    hide Located, InQuery, Filter, Minus, Contents, Well, Node.Valid, IsRoot, Sorted;
    SpatialDiff(node1, node2, query, world, 0, 0, ROOT_BITS, true, ret, 0);
  }

  /**
   * Behind what the buffers held: inside the query box the points the second
   * version has more often go to `add`, those the first one has to `remove`,
   * by code and within a code by id.
   */
  method SpatialTwoVersionDiff(node1: Node?, node2: Node?, query: Box, world: Box, ret: DiffType, ghost leafSize: nat)
    requires ValidOrNull(node1) && ValidOrNull(node2)
    requires IsRoot(TrieOf(node1), leafSize) && IsRoot(TrieOf(node2), leafSize)
    requires forall p :: p in Contents(TrieOf(node1)) || p in Contents(TrieOf(node2)) ==> PointInBox(p, world)
    requires ret.Valid()
    requires |ret.Added()| + |Filter(DiffAdd(TrieOf(node1), TrieOf(node2)), InQuery(query))| <= ret.add.Length
    requires |ret.Removed()| + |Filter(DiffRemove(TrieOf(node1), TrieOf(node2)), InQuery(query))| <= ret.remove.Length
    modifies ret`addCnt, ret`removeCnt, ret.add, ret.remove
    ensures ret.Valid()
    ensures old(ret.addCnt) <= ret.addCnt <= ret.add.Length
    ensures ret.add[..old(ret.addCnt)] == old(ret.add[..ret.addCnt])
    ensures forall p :: multiset(ret.add[old(ret.addCnt)..ret.addCnt])[p] ==
              if query.x1 <= p.x <= query.x2 && query.y1 <= p.y <= query.y2
              then (multiset(Contents(TrieOf(node2))) - multiset(Contents(TrieOf(node1))))[p] else 0
    ensures forall i, j :: old(ret.addCnt) <= i < j < ret.addCnt ==>
              ret.add[i].Code() < ret.add[j].Code()
              || (ret.add[i].Code() == ret.add[j].Code() && ret.add[i].id <= ret.add[j].id)
    ensures old(ret.removeCnt) <= ret.removeCnt <= ret.remove.Length
    ensures ret.remove[..old(ret.removeCnt)] == old(ret.remove[..ret.removeCnt])
    ensures forall p :: multiset(ret.remove[old(ret.removeCnt)..ret.removeCnt])[p] ==
              if query.x1 <= p.x <= query.x2 && query.y1 <= p.y <= query.y2
              then (multiset(Contents(TrieOf(node1))) - multiset(Contents(TrieOf(node2))))[p] else 0
    ensures forall i, j :: old(ret.removeCnt) <= i < j < ret.removeCnt ==>
              ret.remove[i].Code() < ret.remove[j].Code()
              || (ret.remove[i].Code() == ret.remove[j].Code() && ret.remove[i].id <= ret.remove[j].id)
  {
    hide InQuery, Filter, Contents, Node.Valid, IsRoot, Sorted, Interleave, DiffAdd, DiffRemove, PointInBox;
    ghost var t1, t2 := TrieOf(node1), TrieOf(node2);
    ghost var a, c, r, d := ret.add[..], ret.addCnt, ret.remove[..], ret.removeCnt;
    assert a[..c] == ret.add[..c] && r[..d] == ret.remove[..d];
    DiffExact(t1, t2, leafSize);
    SpatialRoots(node1, node2, query, world, ret, leafSize);
    ReportedSide(DiffAdd(t1, t2), query, a, c, ret.add, ret.addCnt);
    ReportedSide(DiffRemove(t1, t2), query, r, d, ret.remove, ret.removeCnt);
  }

  lemma ReportedSide(s: seq<Point>, query: Box, before: seq<Point>, start: nat, buffer: array<Point>, cnt: nat)
    requires Sorted(s) && start <= |before| && cnt <= buffer.Length
    requires buffer[..cnt] == before[..start] + Filter(s, InQuery(query))
    ensures start <= cnt && buffer[..start] == before[..start]
    ensures forall p :: multiset(buffer[start..cnt])[p] ==
              if query.x1 <= p.x <= query.x2 && query.y1 <= p.y <= query.y2 then multiset(s)[p] else 0
    ensures forall i, j :: start <= i < j < cnt ==>
              buffer[i].Code() < buffer[j].Code()
              || (buffer[i].Code() == buffer[j].Code() && buffer[i].id <= buffer[j].id)
  {
    hide InQuery, Filter, Sorted, Interleave;
    var after := buffer[..];
    assert after[..cnt] == buffer[..cnt];
    Reported(s, query, before, start, after, cnt);
    assert after[start..cnt] == buffer[start..cnt] && after[..start] == buffer[..start];
  }
}
