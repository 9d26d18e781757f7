/**
 * The multi-version quadtree on the heap.  Updates write only to copies they
 * have made themselves, so nodes reachable from older versions never change,
 * and every update ends in the tree that build makes from the new points.
 */
module Mvq {
  import opened Numbers
  import opened Points
  import opened Sequences
  import opened Cells
  import opened Tries
  import opened Operations

  /** Which objects a version is made of. */
  datatype Shape = NoNode | LeafAt(node: Node) | InteAt(node: Node, l: Shape, r: Shape)

  /** A leaf or an interior node; `trie` is the value of the subtree
      below it and `shape` the objects it is made of. */
  class Node {
    const isLeaf: bool
    var records: seq<Point>
    var lSon: Node?
    var rSon: Node?
    var numPts: nat
    ghost var trie: Trie
    ghost var shape: Shape
    ghost var Repr: set<Node>

    ghost predicate Valid()
      reads this, Repr
      decreases Repr
    {
      && this in Repr
      && (isLeaf ==> lSon == null && rSon == null && trie == Leaf(records) && shape == LeafAt(this))
      && (!isLeaf ==>
            && (lSon != null ==> lSon in Repr && lSon.Repr <= Repr && this !in lSon.Repr && lSon.Valid())
            && (rSon != null ==> rSon in Repr && rSon.Repr <= Repr && this !in rSon.Repr && rSon.Valid())
            && trie == Inte(TrieOf(lSon), TrieOf(rSon), numPts)
            && shape == InteAt(this, ShapeOf(lSon), ShapeOf(rSon)))
    }

    constructor MakeLeaf(P: seq<Point>)
      ensures Valid() && Repr == {this} && isLeaf && trie == Leaf(P)
    {
      isLeaf, records, lSon, rSon, numPts := true, P, null, null, 0;
      trie, Repr := Leaf(P), {this};
      new;
      shape := LeafAt(this);
    }

    constructor MakeInte(l: Node?, r: Node?, n: nat)
      requires (l != null ==> l.Valid()) && (r != null ==> r.Valid())
      ensures Valid() && Repr == {this} + ReprOf(l) + ReprOf(r)
      ensures !isLeaf && lSon == l && rSon == r && trie == Inte(TrieOf(l), TrieOf(r), n)
      ensures shape == InteAt(this, ShapeOf(l), ShapeOf(r))
    {
      isLeaf, records, lSon, rSon, numPts := false, [], l, r, n;
      trie, Repr := Inte(TrieOf(l), TrieOf(r), n), {this} + ReprOf(l) + ReprOf(r);
      new;
      shape := InteAt(this, ShapeOf(l), ShapeOf(r));
    }

    function GetNumPoints(): nat
      reads this
    {
      if isLeaf then |records| else numPts
    }

    /** The records of a node that really is a leaf. */
    function LeafRecords(): seq<Point>
      requires isLeaf
      reads this
    {
      records
    }
  }

  ghost function TrieOf(x: Node?): Trie
    reads x
  {
    if x == null then Nil else x.trie
  }

  ghost function ShapeOf(x: Node?): Shape
    reads x
  {
    if x == null then NoNode else x.shape
  }

  ghost function ReprOf(x: Node?): set<Node>
    reads x
  {
    if x == null then {} else x.Repr
  }

  ghost predicate ValidOrNull(x: Node?)
    reads x, ReprOf(x)
  {
    x != null ==> x.Valid()
  }

  // ----- sharing between versions -----

  ghost predicate NoneIn(P: seq<Point>, lo: nat, b: nat) {
    forall p :: p in P ==> !(lo <= p.Code() < lo + Pow2(b))
  }

  /** Wherever no batch point falls, the new subtree is the very same objects as the old one. */
  ghost predicate SameOutside(o: Shape, n: Shape, P: seq<Point>, lo: nat, b: nat)
    decreases o, 1
  {
    (NoneIn(P, lo, b) ==> n == o) && SonsShare(o, n, P, lo, b)
  }

  /** As SameOutside, below two interior nodes. */
  ghost predicate SonsShare(o: Shape, n: Shape, P: seq<Point>, lo: nat, b: nat)
    decreases o, 0
  {
    b > 0 && o.InteAt? && n.InteAt? ==>
      SameOutside(o.l, n.l, P, lo, b - 1) && SameOutside(o.r, n.r, P, Mid(lo, b), b - 1)
  }

  lemma {:induction false} SameAsItself(o: Shape, P: seq<Point>, lo: nat, b: nat)
    ensures SameOutside(o, o, P, lo, b)
    decreases o
  {
    if b > 0 && o.InteAt? {
      SameAsItself(o.l, P, lo, b - 1);
      SameAsItself(o.r, P, Mid(lo, b), b - 1);
    }
  }

  /** A larger batch leaves fewer cells untouched. */
  lemma {:induction false} SameOutsideMore(o: Shape, n: Shape, P: seq<Point>, Q: seq<Point>, lo: nat, b: nat)
    requires SameOutside(o, n, P, lo, b) && forall p :: p in P ==> p in Q
    ensures SameOutside(o, n, Q, lo, b)
    decreases o
  {
    if b > 0 && o.InteAt? && n.InteAt? {
      SameOutsideMore(o.l, n.l, P, Q, lo, b - 1);
      SameOutsideMore(o.r, n.r, P, Q, Mid(lo, b), b - 1);
    }
  }

  /** The path (false: left, true: right) runs through interior nodes of s. */
  ghost predicate Reaches(s: Shape, path: seq<bool>)
    decreases path
  {
    path == [] || (s.InteAt? && Reaches(if path[0] then s.r else s.l, path[1..]))
  }

  ghost function Descend(s: Shape, path: seq<bool>): Shape
    requires Reaches(s, path)
    decreases path
  {
    if path == [] then s else Descend(if path[0] then s.r else s.l, path[1..])
  }

  /** First code of the cell a path leads to. */
  ghost function CellAt(lo: nat, b: nat, path: seq<bool>): nat
    requires |path| <= b
    decreases path
  {
    if path == [] then lo else CellAt(if path[0] then Mid(lo, b) else lo, b - 1, path[1..])
  }

  /** A subtree that both versions have and no batch point falls into is the same object in both. */
  lemma {:induction false} UntouchedSubtree(o: Shape, n: Shape, P: seq<Point>, lo: nat, b: nat, path: seq<bool>)
    requires SonsShare(o, n, P, lo, b) && 0 < |path| <= b
    requires Reaches(o, path) && Reaches(n, path)
    requires NoneIn(P, CellAt(lo, b, path), b - |path|)
    ensures Descend(o, path) == Descend(n, path)
    decreases path
  {
    var son := if path[0] then Mid(lo, b) else lo;
    var oSon, nSon := if path[0] then o.r else o.l, if path[0] then n.r else n.l;
    assert SameOutside(oSon, nSon, P, son, b - 1);
    if |path| > 1 {
      UntouchedSubtree(oSon, nSon, P, son, b - 1, path[1..]);
    } else {
      assert path[1..] == [];
      assert CellAt(lo, b, path) == son;
      assert Descend(oSon, path[1..]) == oSon && Descend(nSon, path[1..]) == nSon;
    }
  }

  lemma SomeIn(P: seq<Point>, lo: nat, b: nat)
    requires P != [] && InCell(P, lo, b)
    ensures !NoneIn(P, lo, b)
  {
    assert P[0] in P;
  }

  lemma HalvesShare(o: Shape, n: Shape, P: seq<Point>, PL: seq<Point>, PR: seq<Point>, lo: nat, b: nat)
    requires b > 0 && o.InteAt? && n.InteAt? && P == PL + PR
    requires SameOutside(o.l, n.l, PL, lo, b - 1) && SameOutside(o.r, n.r, PR, Mid(lo, b), b - 1)
    ensures SonsShare(o, n, P, lo, b)
  {
    SameOutsideMore(o.l, n.l, PL, P, lo, b - 1);
    SameOutsideMore(o.r, n.r, PR, P, Mid(lo, b), b - 1);
  }

  /** Sharing depends on the batch's points only, not on their order. */
  lemma SortedBatchShares(o: Shape, n: Shape, P: seq<Point>)
    requires SonsShare(o, n, Sort(P), 0, ROOT_BITS)
    ensures SonsShare(o, n, P, 0, ROOT_BITS)
  {
    SortSpec(P);
    forall p | p in Sort(P)
      ensures p in P
    {
      assert p in multiset(Sort(P));
    }
    if o.InteAt? && n.InteAt? {
      SameOutsideMore(o.l, n.l, Sort(P), P, 0, ROOT_BITS - 1);
      SameOutsideMore(o.r, n.r, Sort(P), P, Mid(0, ROOT_BITS), ROOT_BITS - 1);
    }
  }

  // ----- exactly what a commit shares -----

  ghost function NodesOf(s: Shape): set<Node> {
    match s
    case NoNode => {}
    case LeafAt(x) => {x}
    case InteAt(x, l, r) => {x} + NodesOf(l) + NodesOf(r)
  }

  /** Objects and value of a subtree have the same form. */
  ghost predicate Mirrors(s: Shape, t: Trie)
    decreases s
  {
    match s
    case NoNode => t == Nil
    case LeafAt(_) => t.Leaf?
    case InteAt(_, l, r) => t.Inte? && Mirrors(l, t.l) && Mirrors(r, t.r)
  }

  lemma {:induction false} ShapeMirrors(x: Node)
    requires x.Valid()
    ensures NodesOf(x.shape) <= x.Repr && Mirrors(x.shape, x.trie)
    decreases x.Repr
  {
    if !x.isLeaf {
      if x.lSon != null {
        ShapeMirrors(x.lSon);
      }
      if x.rSon != null {
        ShapeMirrors(x.rSon);
      }
    }
  }

  /** Below a new interior node where there was none before, no object is an old one. */
  ghost predicate Grown(o: Shape, n: Shape, olds: set<Node>)
    decreases n
  {
    n.InteAt? ==>
      if o.InteAt? then Grown(o.l, n.l, olds) && Grown(o.r, n.r, olds)
      else NodesOf(n.l) !! olds && NodesOf(n.r) !! olds
  }

  lemma {:induction false} GrownNowhere(s: Shape, olds: set<Node>)
    ensures Grown(s, s, olds)
  {
    if s.InteAt? {
      GrownNowhere(s.l, olds);
      GrownNowhere(s.r, olds);
    }
  }

  lemma GrownFresh(o: Shape, x: Node, olds: set<Node>)
    requires x.Valid() && !o.InteAt? && x.Repr !! olds
    ensures Grown(o, x.shape, olds)
  {
    ShapeMirrors(x);
  }

  lemma {:induction false} DescendNodes(s: Shape, path: seq<bool>)
    requires Reaches(s, path)
    ensures NodesOf(Descend(s, path)) <= NodesOf(s)
    decreases path
  {
    if path != [] {
      DescendNodes(if path[0] then s.r else s.l, path[1..]);
    }
  }

  lemma {:induction false} GrownBelow(o: Shape, n: Shape, olds: set<Node>, path: seq<bool>)
    requires Grown(o, n, olds) && Reaches(n, path) && !Reaches(o, path)
    ensures NodesOf(Descend(n, path)) !! olds
    decreases path
  {
    var son := if path[0] then n.r else n.l;
    if o.InteAt? {
      GrownBelow(if path[0] then o.r else o.l, son, olds, path[1..]);
    } else {
      DescendNodes(son, path[1..]);
    }
  }

  function InCodes(lo: nat, b: nat): Point -> bool {
    (p: Point) => lo <= p.Code() < lo + Pow2(b)
  }

  /** How many points of s lie in a cell. */
  function CountIn(s: seq<Point>, lo: nat, b: nat): nat { |Filter(s, InCodes(lo, b))| }

  lemma {:induction false} CellInside(lo: nat, b: nat, path: seq<bool>)
    requires |path| <= b
    ensures lo <= CellAt(lo, b, path) && CellAt(lo, b, path) + Pow2(b - |path|) <= lo + Pow2(b)
    decreases path
  {
    if path != [] {
      CellInside(if path[0] then Mid(lo, b) else lo, b - 1, path[1..]);
    }
  }

  /** A cell in one half counts no point of the other. */
  lemma CountInHalf(L: seq<Point>, R: seq<Point>, m: nat, lo: nat, b: nat, right: bool)
    requires Cut(L, m, R) && (if right then m <= lo else lo + Pow2(b) <= m)
    ensures CountIn(L + R, lo, b) == CountIn(if right then R else L, lo, b)
  {
    hide Pow2, Interleave;
    FilterConcat(L, R, InCodes(lo, b));
    FilterNone(if right then L else R, InCodes(lo, b));
  }

  /** Where a canonical version has interior nodes, by counting. */
  lemma {:induction false} ReachesByCount(s: Shape, t: Trie, lo: nat, b: nat, leafSize: nat, path: seq<bool>)
    requires Mirrors(s, t) && Canonical(t, lo, b, leafSize) && Aligned(lo, b) && 0 < |path| <= b
    ensures Reaches(s, path) <==>
            leafSize < CountIn(Contents(t), CellAt(lo, b, path[..|path| - 1]), b - (|path| - 1))
    decreases path
  {
    hide Canonical, Contents, CountIn, Pow2, CellAt;
    if |path| == 1 {
      OneStep(s, t, lo, b, leafSize, path);
    } else if t.Inte? {
      var son := if path[0] then Mid(lo, b) else lo;
      CanonicalSons(t, lo, b, leafSize);
      ReachesByCount(if path[0] then s.r else s.l, if path[0] then t.r else t.l, son, b - 1, leafSize, path[1..]);
      CountBelow(t, lo, b, leafSize, path);
    } else {
      FewInLeaf(t, lo, b, leafSize, CellAt(lo, b, path[..|path| - 1]), b - (|path| - 1));
    }
  }

  lemma OneStep(s: Shape, t: Trie, lo: nat, b: nat, leafSize: nat, path: seq<bool>)
    requires Mirrors(s, t) && Canonical(t, lo, b, leafSize) && Aligned(lo, b) && |path| == 1 <= b
    ensures Reaches(s, path) <==> leafSize < CountIn(Contents(t), CellAt(lo, b, path[..0]), b)
  {
    WellContents(t, lo, b);
    FilterAll(Contents(t), InCodes(lo, b));
    assert path[1..] == [] && path[..0] == [];
  }

  /** Only the half a path enters counts for the cells on it. */
  lemma CountBelow(t: Trie, lo: nat, b: nat, leafSize: nat, path: seq<bool>)
    requires t.Inte? && Canonical(t, lo, b, leafSize) && Aligned(lo, b) && 1 < |path| <= b
    ensures var son, half := if path[0] then Mid(lo, b) else lo, if path[0] then t.r else t.l;
            CountIn(Contents(t), CellAt(lo, b, path[..|path| - 1]), b - (|path| - 1))
            == CountIn(Contents(half), CellAt(son, b - 1, path[1..][..|path[1..]| - 1]), b - (|path| - 1))
  {
    var up := path[..|path| - 1];
    var son := if path[0] then Mid(lo, b) else lo;
    assert up[0] == path[0] && up[1..] == path[1..][..|path| - 2];
    WellCut(t, lo, b);
    CellInside(son, b - 1, up[1..]);
    hide Canonical, Pow2, CountIn;
    HalfEnds(lo, b);
    CountInHalf(Contents(t.l), Contents(t.r), Mid(lo, b), CellAt(lo, b, up), b - |up|, path[0]);
  }

  lemma HalfEnds(lo: nat, b: nat)
    requires b > 0
    ensures lo + Pow2(b - 1) == Mid(lo, b)
  {
  }

  lemma FewInLeaf(t: Trie, lo: nat, b: nat, leafSize: nat, cell: nat, height: nat)
    requires Canonical(t, lo, b, leafSize) && !t.Inte? && 0 < b
    ensures CountIn(Contents(t), cell, height) <= leafSize
  {
    FilterCount(Contents(t), InCodes(cell, height), Point(0, 0, 0));
  }

  /** A subtree both versions have, in a cell no point of the two batches falls into. */
  ghost predicate KeptAside(o: Shape, n: Shape, insertions: seq<Point>, deletions: seq<Point>, path: seq<bool>) {
    && 0 < |path| <= ROOT_BITS && Reaches(o, path) && Reaches(n, path)
    && !Descend(o, path).NoNode? && !Descend(n, path).NoNode?
    && NoneIn(insertions, CellAt(0, ROOT_BITS, path), ROOT_BITS - |path|)
    && NoneIn(deletions, CellAt(0, ROOT_BITS, path), ROOT_BITS - |path|)
  }

  /** Points left in the cell of a path's father, once the deletions are done. */
  ghost function LeftAround(s: seq<Point>, deletions: seq<Point>, path: seq<bool>): nat
    requires 0 < |path| <= ROOT_BITS
  {
    CountIn(Minus(s, Sort(deletions)), CellAt(0, ROOT_BITS, path[..|path| - 1]), ROOT_BITS - (|path| - 1))
  }

  /** Such a subtree is the same object in both versions exactly if its father survives the deletion. */
  ghost predicate CommitShares(o: Shape, n: Shape, s: seq<Point>, insertions: seq<Point>, deletions: seq<Point>,
                               leafSize: nat)
  {
    forall path :: KeptAside(o, n, insertions, deletions, path) ==>
      (Descend(o, path) == Descend(n, path) <==> leafSize < LeftAround(s, deletions, path))
  }

  lemma SharingDecided(o: Shape, mid: Shape, n: Shape, t: Trie, olds: set<Node>, s: seq<Point>,
                       insertions: seq<Point>, deletions: seq<Point>, leafSize: nat, path: seq<bool>)
    requires SonsShare(o, mid, deletions, 0, ROOT_BITS) && SonsShare(mid, n, insertions, 0, ROOT_BITS)
    requires NodesOf(o) <= olds && Grown(mid, n, olds) && Mirrors(mid, t)
    requires Canonical(t, 0, ROOT_BITS, leafSize) && Contents(t) == Minus(s, Sort(deletions))
    requires KeptAside(o, n, insertions, deletions, path)
    ensures Descend(o, path) == Descend(n, path) <==> leafSize < LeftAround(s, deletions, path)
  {
    hide SonsShare, Canonical, Contents, Minus, Sort, NoneIn, CountIn, Pow2, Grown, Mirrors;
    ZeroAligned(ROOT_BITS);
    ReachesByCount(mid, t, 0, ROOT_BITS, leafSize, path);
    if Reaches(mid, path) {
      UntouchedSubtree(o, mid, deletions, 0, ROOT_BITS, path);
      UntouchedSubtree(mid, n, insertions, 0, ROOT_BITS, path);
    } else {
      GrownBelow(mid, n, olds, path);
      DescendNodes(o, path);
      SomeNode(Descend(o, path));
    }
  }

  lemma SomeNode(s: Shape)
    requires !s.NoNode?
    ensures s.node in NodesOf(s)
  {
  }

  lemma SonsOf(x: Node)
    requires x.Valid() && !x.isLeaf
    ensures x.shape == InteAt(x, ShapeOf(x.lSon), ShapeOf(x.rSon))
    ensures ValidOrNull(x.lSon) && ValidOrNull(x.rSon)
    ensures x in x.Repr && ReprOf(x.lSon) <= x.Repr - {x} && ReprOf(x.rSon) <= x.Repr - {x}
    ensures x.trie == Inte(TrieOf(x.lSon), TrieOf(x.rSon), x.numPts)
  {
  }

  lemma NodeSize(x: Node)
    requires x.Valid()
    ensures x.GetNumPoints() == TrieSize(x.trie) && (x.isLeaf <==> x.trie.Leaf?)
    ensures x.isLeaf ==> x.LeafRecords() == x.trie.records
  {
  }

  // ----- facts about subtrees that were rebuilt half by half -----

  function TrieSize(t: Trie): nat {
    match t
    case Nil => 0
    case Leaf(records) => |records|
    case Inte(_, _, n) => n
  }

  lemma BuiltSize(s: seq<Point>, lo: nat, b: nat, leafSize: nat)
    ensures TrieSize(BuildSon(s, lo, b, leafSize)) == |s|
    ensures s != [] && |s| <= leafSize ==> BuildSon(s, lo, b, leafSize) == Leaf(s)
  {
  }

  lemma BuiltLeaf(s: seq<Point>, lo: nat, b: nat, leafSize: nat)
    requires b == 0 || |s| <= leafSize
    ensures BuildTrie(s, lo, b, leafSize) == Leaf(s)
  {
  }

  lemma BuildHalves(P: seq<Point>, PL: seq<Point>, PR: seq<Point>, lo: nat, b: nat, leafSize: nat)
    requires b > 0 && P == PL + PR && Cut(PL, Mid(lo, b), PR) && leafSize < |P|
    ensures var L, R := BuildSon(PL, lo, b - 1, leafSize), BuildSon(PR, Mid(lo, b), b - 1, leafSize);
            BuildTrie(P, lo, b, leafSize) == Inte(L, R, TrieSize(L) + TrieSize(R))
  {
    BuiltSize(PL, lo, b - 1, leafSize);
    BuiltSize(PR, Mid(lo, b), b - 1, leafSize);
    BuildOfCut(PL, Mid(lo, b), PR, lo, b, leafSize);
  }

  /** Inserting into the halves is inserting into the whole. */
  lemma InsertHalves(t: Trie, P: seq<Point>, PL: seq<Point>, PR: seq<Point>, lo: nat, b: nat, leafSize: nat)
    requires t.Inte? && Canonical(t, lo, b, leafSize) && Aligned(lo, b)
    requires P == PL + PR && Sorted(PL) && Sorted(PR) && Cut(PL, Mid(lo, b), PR)
    ensures var L := BuildSon(Merge(Contents(t.l), PL), lo, b - 1, leafSize);
            var R := BuildSon(Merge(Contents(t.r), PR), Mid(lo, b), b - 1, leafSize);
            BuildTrie(Merge(Contents(t), P), lo, b, leafSize) == Inte(L, R, TrieSize(L) + TrieSize(R))
  {
    WellCut(t, lo, b);
    MergeCut(Contents(t.l), Contents(t.r), PL, PR, Mid(lo, b));
    var L, R := Merge(Contents(t.l), PL), Merge(Contents(t.r), PR);
    MergeWithin(Contents(t.l), PL);
    MergeWithin(Contents(t.r), PR);
    BuildHalves(L + R, L, R, lo, b, leafSize);
  }

  /** Deleting from the halves is deleting from the whole. */
  lemma DeleteHalves(t: Trie, P: seq<Point>, PL: seq<Point>, PR: seq<Point>, lo: nat, b: nat)
    requires t.Inte? && Well(t, lo, b) && Aligned(lo, b)
    requires P == PL + PR && Sorted(PL) && Sorted(PR) && Cut(PL, Mid(lo, b), PR)
    ensures var L, R := Minus(Contents(t.l), PL), Minus(Contents(t.r), PR);
            Minus(Contents(t), P) == L + R && Sorted(L) && Sorted(R) && Cut(L, Mid(lo, b), R)
  {
    WellCut(t, lo, b);
    MinusCut(Contents(t.l), Contents(t.r), PL, PR, Mid(lo, b));
    MinusSorted(Contents(t.l), PL);
    MinusSorted(Contents(t.r), PR);
  }

  /** What the subtree over L + R is, by how many points are left in each half. */
  lemma CollapseCases(L: seq<Point>, R: seq<Point>, lo: nat, b: nat, leafSize: nat)
    requires b > 0 && Sorted(L) && Sorted(R) && Cut(L, Mid(lo, b), R)
    ensures var tl, tr := BuildSon(L, lo, b - 1, leafSize), BuildSon(R, Mid(lo, b), b - 1, leafSize);
            var t := BuildSon(L + R, lo, b, leafSize);
            && (tl == Nil && tr == Nil ==> t == Nil)
            && (tl == Nil && tr != Nil && TrieSize(tr) <= leafSize ==> t == tr)
            && (tl != Nil && tr == Nil && TrieSize(tl) <= leafSize ==> t == tl)
            && (tl != Nil && tr != Nil && TrieSize(tl) + TrieSize(tr) <= leafSize ==>
                  tl.Leaf? && tr.Leaf? && t == Leaf(Merge(tl.records, tr.records)))
            && (TrieSize(tl) + TrieSize(tr) > leafSize ==> t == Inte(tl, tr, TrieSize(tl) + TrieSize(tr)))
  {
    BuiltSize(L, lo, b - 1, leafSize);
    BuiltSize(R, Mid(lo, b), b - 1, leafSize);
    if L == [] {
      assert L + R == R;
    }
    if R == [] {
      assert L + R == L;
    }
    if |L + R| > leafSize {
      BuildHalves(L + R, L, R, lo, b, leafSize);
    } else {
      MergeOfCut(L, Mid(lo, b), R);
    }
  }

  lemma CanonicalSons(t: Trie, lo: nat, b: nat, leafSize: nat)
    requires t.Inte? && Canonical(t, lo, b, leafSize) && Aligned(lo, b)
    ensures b > 0 && Aligned(lo, b - 1) && Aligned(Mid(lo, b), b - 1)
    ensures Canonical(t.l, lo, b - 1, leafSize) && Canonical(t.r, Mid(lo, b), b - 1, leafSize)
  {
    SonsAligned(lo, b);
  }

  lemma MinusShrinks(a: seq<Point>, b: seq<Point>)
    ensures |Minus(a, b)| <= |a|
  {
    if a != [] && b != [] {
      MinusShrinks(a[1..], b);
      MinusShrinks(a, b[1..]);
      MinusShrinks(a[1..], b[1..]);
    }
  }

  lemma MergeOfCut(a: seq<Point>, m: nat, b: seq<Point>)
    requires Cut(a, m, b) && Sorted(a) && Sorted(b)
    ensures Merge(a, b) == a + b
  {
    MergeContents(a, b);
    MergeSorted(a, b);
    CutSorted(a, m, b);
    SortedUnique(Merge(a, b), a + b);
  }

  class Tree {
    const leafSize: nat

    constructor (leafSz: nat)
      ensures leafSize == leafSz
    {
      leafSize := leafSz;
    }

    method NodeCopy(x: Node?) returns (y: Node?)
      requires ValidOrNull(x)
      ensures x == null <==> y == null
      ensures y != null ==>
                && !x.shape.NoNode? && fresh(y) && y.Valid() && y.trie == x.trie && y.isLeaf == x.isLeaf
                && y.lSon == x.lSon && y.rSon == x.rSon
                && y.shape == x.shape.(node := y) && y.Repr == x.Repr - {x} + {y}
    {
      if x == null {
        return null;
      }
      if x.isLeaf {
        y := new Node.MakeLeaf(x.LeafRecords());
        y.Repr := x.Repr - {x} + {y};
      } else {
        y := new Node.MakeInte(x.lSon, x.rSon, x.numPts);
        y.Repr := x.Repr - {x} + {y};
      }
    }

    method Build(P: seq<Point>, b: nat, ghost lo: nat) returns (x: Node)
      requires b <= ROOT_BITS && Aligned(lo, b) && Sorted(P) && InCell(P, lo, b)
      ensures x.Valid() && fresh(x.Repr)
      ensures x.trie == BuildTrie(P, lo, b, leafSize)
      decreases b, 0
    {
      hide Sorted, Cut, BuildTrie, BuildSon, InCell, Aligned, Pow2, Node.Valid, ValidOrNull, TrieSize, ReprOf;
      if b == 0 || |P| <= leafSize {
        BuiltLeaf(P, lo, b, leafSize);
        x := new Node.MakeLeaf(P);
        return;
      }
      SonsAligned(lo, b);
      var PL, PR := SplitCell(P, b, lo);
      BuildHalves(P, PL, PR, lo, b, leafSize);
      var L := BuildHalf(PL, b - 1, lo);
      var R := BuildHalf(PR, b - 1, Mid(lo, b));
      x := CreateInternal(L, R);
    }

    /** The subtree over one half; null when no point falls into it. */
    method BuildHalf(P: seq<Point>, b: nat, ghost lo: nat) returns (x: Node?)
      requires b <= ROOT_BITS && Aligned(lo, b) && Sorted(P) && InCell(P, lo, b)
      ensures ValidOrNull(x) && fresh(ReprOf(x))
      ensures TrieOf(x) == BuildSon(P, lo, b, leafSize)
      decreases b, 1
    {
      x := null;
      if 0 < |P| {
        x := Build(P, b, lo);
      }
    }

    method CreateInternal(L: Node?, R: Node?) returns (x: Node)
      requires ValidOrNull(L) && ValidOrNull(R)
      ensures fresh(x) && x.Valid() && x.Repr == {x} + old(ReprOf(L)) + old(ReprOf(R))
      ensures x.trie == old(Inte(TrieOf(L), TrieOf(R), TrieSize(TrieOf(L)) + TrieSize(TrieOf(R))))
    {
      var lNum := if L == null then 0 else L.GetNumPoints();
      var rNum := if R == null then 0 else R.GetNumPoints();
      x := new Node.MakeInte(L, R, lNum + rNum);
    }

    /** Writes only to x, the copy its caller made; everything below x is copied before it is touched. */
    method InsertNode(x: Node?, P: seq<Point>, b: nat, ghost lo: nat, ghost olds: set<Node>) returns (y: Node)
      requires b <= ROOT_BITS && Aligned(lo, b) && Sorted(P) && InCell(P, lo, b)
      requires ValidOrNull(x)
      requires TrieOf(x) == Leaf([]) || Canonical(TrieOf(x), lo, b, leafSize)
      modifies if x == null then {} else {x}
      ensures y.Valid()
      ensures y.trie == BuildTrie(Merge(old(Contents(TrieOf(x))), P), lo, b, leafSize)
      ensures fresh(y.Repr - old(ReprOf(x)))
      ensures SonsShare(old(ShapeOf(x)), y.shape, P, lo, b)
      ensures old(ShapeOf(x)).InteAt? ==> y.shape.InteAt?
      ensures Grown(old(ShapeOf(x)), y.shape, olds)
      decreases b, 1
    {
      if x == null {
        y := Build(P, b, lo);
        GrownFresh(NoNode, y, olds);
      } else if x.isLeaf {
        y := InsertLeaf(x, P, b, lo, olds);
      } else {
        InsertInte(x, P, b, lo, olds);
        y := x;
      }
    }

    method InsertInte(x: Node, P: seq<Point>, b: nat, ghost lo: nat, ghost olds: set<Node>)
      requires b <= ROOT_BITS && Aligned(lo, b) && Sorted(P) && InCell(P, lo, b)
      requires x.Valid() && !x.isLeaf && Canonical(x.trie, lo, b, leafSize)
      modifies x
      ensures x.Valid()
      ensures x.trie == BuildTrie(Merge(old(Contents(x.trie)), P), lo, b, leafSize)
      ensures fresh(x.Repr - old(x.Repr))
      ensures SonsShare(old(x.shape), x.shape, P, lo, b) && x.shape.InteAt?
      ensures Grown(old(x.shape), x.shape, olds)
      decreases b, 0
    {
      hide BuildTrie, BuildSon, TrieSize, Merge, Contents, Sorted, Canonical, InCell, Aligned, Cut, Pow2, Node.Valid,
          ValidOrNull, SonsShare, SameOutside;
      ghost var t, o := x.trie, x.shape;
      SonsOf(x);
      CanonicalSons(t, lo, b, leafSize);
      var PL, PR := SplitCell(P, b, lo);
      InsertHalves(t, P, PL, PR, lo, b, leafSize);
      var newL := InsertSon(x.lSon, PL, b - 1, lo, olds);
      var newR := InsertSon(x.rSon, PR, b - 1, Mid(lo, b), olds);
      ghost var tl, tr, rl, rr := TrieOf(newL), TrieOf(newR), ReprOf(newL), ReprOf(newR);
      ghost var sl, sr := ShapeOf(newL), ShapeOf(newR);
      DeleteMergeNodes(newL, newR, x);
      HalvesShare(o, x.shape, P, PL, PR, lo, b);
      assert x.trie == Inte(tl, tr, TrieSize(tl) + TrieSize(tr));
      assert x.Repr == {x} + rl + rr;
    }

    method InsertLeaf(x: Node, P: seq<Point>, b: nat, ghost lo: nat, ghost olds: set<Node>) returns (y: Node)
      requires b <= ROOT_BITS && Aligned(lo, b) && Sorted(P) && InCell(P, lo, b)
      requires x.Valid() && x.isLeaf
      requires x.trie == Leaf([]) || Canonical(x.trie, lo, b, leafSize)
      modifies x
      ensures y.Valid()
      ensures y.trie == BuildTrie(Merge(old(Contents(x.trie)), P), lo, b, leafSize)
      ensures fresh(y.Repr - old(x.Repr))
      ensures old(x.shape).LeafAt? && Grown(old(x.shape), y.shape, olds)
    {
      var merged := Merge(x.LeafRecords(), P);
      MergeWithin(x.LeafRecords(), P);
      MergeSorted(x.LeafRecords(), P);
      hide Merge, Pow2, Interleave;
      if b == 0 || |x.LeafRecords()| + |P| <= leafSize {
        x.records := merged;
        x.trie, x.shape, x.Repr := Leaf(merged), LeafAt(x), {x};
        y := x;
      } else {
        y := Build(merged, b, lo);
        GrownFresh(x.shape, y, olds);
      }
    }

    /** One son of the new node: copied and updated if any batch point falls into it, else the same object. */
    method InsertSon(son: Node?, P: seq<Point>, b: nat, ghost lo: nat, ghost olds: set<Node>) returns (y: Node?)
      requires b <= ROOT_BITS && Aligned(lo, b) && Sorted(P) && InCell(P, lo, b)
      requires ValidOrNull(son) && Canonical(TrieOf(son), lo, b, leafSize)
      ensures ValidOrNull(y)
      ensures TrieOf(y) == BuildSon(Merge(Contents(TrieOf(son)), P), lo, b, leafSize)
      ensures fresh(ReprOf(y) - ReprOf(son))
      ensures P == [] ==> y == son
      ensures SameOutside(ShapeOf(son), ShapeOf(y), P, lo, b)
      ensures Grown(ShapeOf(son), ShapeOf(y), olds)
      decreases b, 2
    {
      hide Node.Valid;
      MergeWithin(Contents(TrieOf(son)), P);
      y := son;
      if P == [] {
        SameAsItself(ShapeOf(son), P, lo, b);
        GrownNowhere(ShapeOf(son), olds);
        CanonicalIsBuilt(TrieOf(son), lo, b, leafSize);
      } else {
        SomeIn(P, lo, b);
        hide BuildTrie, Contents, Sorted, Canonical, InCell, Aligned;
        y := NodeCopy(son);
        y := InsertNode(y, P, b, lo, olds);
      }
    }

    /** Hangs two subtrees below an interior node that is in neither. */
    method DeleteMergeNodes(L: Node?, R: Node?, cur: Node)
      requires ValidOrNull(L) && ValidOrNull(R) && !cur.isLeaf
      requires cur !in ReprOf(L) && cur !in ReprOf(R)
      modifies cur
      ensures cur.Valid() && cur.Repr == {cur} + old(ReprOf(L)) + old(ReprOf(R))
      ensures cur.lSon == L && cur.rSon == R
      ensures cur.shape == InteAt(cur, old(ShapeOf(L)), old(ShapeOf(R)))
      ensures cur.trie == old(Inte(TrieOf(L), TrieOf(R), TrieSize(TrieOf(L)) + TrieSize(TrieOf(R))))
    {
      var lNum := if L == null then 0 else L.GetNumPoints();
      var rNum := if R == null then 0 else R.GetNumPoints();
      cur.numPts := lNum + rNum;
      cur.lSon := L;
      cur.rSon := R;
      cur.trie := Inte(TrieOf(L), TrieOf(R), lNum + rNum);
      cur.shape := InteAt(cur, ShapeOf(L), ShapeOf(R));
      cur.Repr := {cur} + ReprOf(L) + ReprOf(R);
    }

    /** Deletes a sorted batch below x; the result is null once nothing is left. */
    method DeleteNode(x: Node?, P: seq<Point>, b: nat, ghost lo: nat) returns (y: Node?)
      requires b <= ROOT_BITS && Aligned(lo, b) && Sorted(P) && InCell(P, lo, b)
      requires ValidOrNull(x)
      requires TrieOf(x) == Leaf([]) || Canonical(TrieOf(x), lo, b, leafSize)
      modifies if x == null then {} else {x}
      ensures ValidOrNull(y)
      ensures TrieOf(y) == BuildSon(Minus(old(Contents(TrieOf(x))), P), lo, b, leafSize)
      ensures fresh(ReprOf(y) - old(ReprOf(x)))
      ensures SonsShare(old(ShapeOf(x)), ShapeOf(y), P, lo, b)
      ensures ShapeOf(y).InteAt? ==> old(ShapeOf(x)).InteAt?
      decreases b, 1
    {
      y := x;
      if x == null {
      } else if x.isLeaf {
        y := DeleteLeaf(x, P, b, lo);
      } else {
        y := DeleteInte(x, P, b, lo);
      }
    }

    method DeleteLeaf(x: Node, P: seq<Point>, b: nat, ghost lo: nat) returns (y: Node?)
      requires x.Valid() && x.isLeaf
      requires x.trie == Leaf([]) || Canonical(x.trie, lo, b, leafSize)
      modifies x
      ensures ValidOrNull(y)
      ensures TrieOf(y) == BuildSon(Minus(old(Contents(x.trie)), P), lo, b, leafSize)
      ensures fresh(ReprOf(y) - old(x.Repr))
      ensures old(x.shape).LeafAt? && !ShapeOf(y).InteAt?
    {
      var fTrue := (p: Point) => true;
      ghost var before := x.LeafRecords();
      var kept := GetDeleteP(x.LeafRecords(), P, 0, |P|, fTrue);
      assert P[0..|P|] == P;
      FilterAll(Minus(before, P), fTrue);
      MinusShrinks(before, P);
      x.records := kept;
      x.trie, x.shape, x.Repr := Leaf(kept), LeafAt(x), {x};
      y := if |kept| == 0 then null else x;
    }

    method DeleteInte(x: Node, P: seq<Point>, b: nat, ghost lo: nat) returns (y: Node?)
      requires b <= ROOT_BITS && Aligned(lo, b) && Sorted(P) && InCell(P, lo, b)
      requires x.Valid() && !x.isLeaf && Canonical(x.trie, lo, b, leafSize)
      modifies x
      ensures ValidOrNull(y)
      ensures TrieOf(y) == BuildSon(Minus(old(Contents(x.trie)), P), lo, b, leafSize)
      ensures fresh(ReprOf(y) - old(x.Repr))
      ensures SonsShare(old(x.shape), ShapeOf(y), P, lo, b) && old(x.shape).InteAt?
      decreases b, 0
    {
      hide BuildTrie, BuildSon, Minus, Contents, Sorted, InCell, Aligned, Cut, Pow2, Node.Valid, ValidOrNull,
          SameOutside;
      ghost var t, o := x.trie, x.shape;
      SonsOf(x);
      CanonicalSons(t, lo, b, leafSize);
      var PL, PR := SplitCell(P, b, lo);
      DeleteHalves(t, P, PL, PR, lo, b);
      hide Canonical;
      var newL := DeleteSon(x.lSon, PL, b - 1, lo);
      var newR := DeleteSon(x.rSon, PR, b - 1, Mid(lo, b));
      ghost var sl, sr := ShapeOf(newL), ShapeOf(newR);
      y := Collapse(newL, newR, x, Minus(Contents(t.l), PL), Minus(Contents(t.r), PR), b, lo);
      if ShapeOf(y).InteAt? {
        HalvesShare(o, ShapeOf(y), P, PL, PR, lo, b);
      }
    }

    /** One son after the deletion: copied and updated if any batch point falls into it, else the same object. */
    method DeleteSon(son: Node?, P: seq<Point>, b: nat, ghost lo: nat) returns (y: Node?)
      requires b <= ROOT_BITS && Aligned(lo, b) && Sorted(P) && InCell(P, lo, b)
      requires ValidOrNull(son) && Canonical(TrieOf(son), lo, b, leafSize)
      ensures ValidOrNull(y)
      ensures TrieOf(y) == BuildSon(Minus(Contents(TrieOf(son)), P), lo, b, leafSize)
      ensures fresh(ReprOf(y) - ReprOf(son))
      ensures P == [] ==> y == son
      ensures SameOutside(ShapeOf(son), ShapeOf(y), P, lo, b)
      decreases b, 2
    {
      y := son;
      if P == [] {
        SameAsItself(ShapeOf(son), P, lo, b);
        CanonicalIsBuilt(TrieOf(son), lo, b, leafSize);
      } else {
        SomeIn(P, lo, b);
        hide BuildSon, Contents, Sorted, Canonical, InCell, Aligned, Minus;
        y := NodeCopy(son);
        y := DeleteNode(y, P, b, lo);
      }
    }

    /**
     * Puts two updated sons below x, or drops x: an empty node goes, a half that
     * fits a leaf takes x's place, and two halves that fit one leaf are merged.
     */
    method Collapse(newL: Node?, newR: Node?, x: Node, ghost L: seq<Point>, ghost R: seq<Point>, b: nat, ghost lo: nat)
      returns (y: Node?)
      requires b > 0 && Sorted(L) && Sorted(R) && Cut(L, Mid(lo, b), R)
      requires ValidOrNull(newL) && ValidOrNull(newR)
      requires TrieOf(newL) == BuildSon(L, lo, b - 1, leafSize)
      requires TrieOf(newR) == BuildSon(R, Mid(lo, b), b - 1, leafSize)
      requires !x.isLeaf && x !in ReprOf(newL) && x !in ReprOf(newR)
      modifies x
      ensures ValidOrNull(y)
      ensures TrieOf(y) == BuildSon(L + R, lo, b, leafSize)
      ensures ShapeOf(y).InteAt? ==> ShapeOf(y) == InteAt(x, old(ShapeOf(newL)), old(ShapeOf(newR)))
      ensures newL == null && newR != null && |R| <= leafSize ==> y == newR
      ensures newR == null && newL != null && |L| <= leafSize ==> y == newL
      ensures fresh(ReprOf(y) - old(ReprOf(newL)) - old(ReprOf(newR)) - {x})
    {
      CollapseCases(L, R, lo, b, leafSize);
      hide BuildSon, Merge, Sorted, Cut, Pow2, Interleave;
      if newL == null && newR == null {
        return null;
      }
      DeleteMergeNodes(newL, newR, x);
      y := x;
      if newL == null {
        if newR.GetNumPoints() <= leafSize {
          y := newR;
        }
      } else if newR == null {
        if newL.GetNumPoints() <= leafSize {
          y := newL;
        }
      } else if newL.GetNumPoints() + newR.GetNumPoints() <= leafSize {
        y := new Node.MakeLeaf(Merge(newL.LeafRecords(), newR.LeafRecords()));
      }
    }

    method BatchInsert(P: seq<Point>, oldRoot: Node?, ghost olds: set<Node>) returns (newRoot: Node)
      requires Sorted(P) && ValidOrNull(oldRoot) && IsRoot(TrieOf(oldRoot), leafSize)
      ensures newRoot.Valid() && fresh(newRoot.Repr - ReprOf(oldRoot))
      ensures newRoot.trie == Version(Merge(Contents(TrieOf(oldRoot)), P), leafSize)
      ensures SonsShare(ShapeOf(oldRoot), newRoot.shape, P, 0, ROOT_BITS)
      ensures ShapeOf(oldRoot).InteAt? ==> newRoot.shape.InteAt?
      ensures Grown(ShapeOf(oldRoot), newRoot.shape, olds)
    {
      RootCell(P);
      hide Merge, Contents, Sorted, InCell, SameOutside, NoneIn, Node.Valid, BuildTrie;
      var x := NodeCopy(oldRoot);
      newRoot := InsertNode(x, P, ROOT_BITS, 0, olds);
    }

    method BatchDelete(P: seq<Point>, oldRoot: Node?) returns (newRoot: Node?)
      requires Sorted(P) && ValidOrNull(oldRoot) && IsRoot(TrieOf(oldRoot), leafSize)
      ensures ValidOrNull(newRoot) && fresh(ReprOf(newRoot) - ReprOf(oldRoot))
      ensures TrieOf(newRoot) == BuildSon(Minus(Contents(TrieOf(oldRoot)), P), 0, ROOT_BITS, leafSize)
      ensures SonsShare(ShapeOf(oldRoot), ShapeOf(newRoot), P, 0, ROOT_BITS)
      ensures ShapeOf(newRoot).InteAt? ==> ShapeOf(oldRoot).InteAt?
    {
      RootCell(P);
      hide Minus, Contents, Sorted, InCell, SameOutside, NoneIn, BuildSon, Node.Valid;
      var x := NodeCopy(oldRoot);
      newRoot := DeleteNode(x, P, ROOT_BITS, 0);
    }

    /**
     * A new version: delete one batch, insert another.  No object that existed
     * before is written.  A subtree aside of both batches is shared exactly if
     * the deletion leaves its father more points than a leaf holds.
     */
    method Commit(oldVersion: Node?, insertions: seq<Point>, deletions: seq<Point>) returns (newVersion: Node)
      requires ValidOrNull(oldVersion) && IsRoot(TrieOf(oldVersion), leafSize)
      ensures newVersion.Valid()
      ensures newVersion.trie == CommitTrie(TrieOf(oldVersion), insertions, deletions, leafSize)
      ensures multiset(Contents(newVersion.trie))
              == multiset(Contents(TrieOf(oldVersion))) - multiset(deletions) + multiset(insertions)
      ensures forall n :: n in newVersion.Repr ==> fresh(n) || n in ReprOf(oldVersion)
      ensures forall n :: n in ReprOf(oldVersion) ==> unchanged(n)
      ensures CommitShares(ShapeOf(oldVersion), newVersion.shape, Contents(TrieOf(oldVersion)),
                           insertions, deletions, leafSize)
    {
      SortSpec(deletions);
      SortSpec(insertions);
      hide Sorted, Sort, IsRoot, Minus, Merge, Contents, SonsShare, Node.Valid, BuildTrie, BuildSon, Grown,
          CommitShares;
      ghost var o, olds, t := ShapeOf(oldVersion), ReprOf(oldVersion), TrieOf(oldVersion);
      var batch := Sort(deletions);
      var tmp := BatchDelete(batch, oldVersion);
      ghost var mid, midTrie := ShapeOf(tmp), TrieOf(tmp);
      DeletedIsRoot(t, batch, leafSize);
      MirrorsOrNull(oldVersion);
      MirrorsOrNull(tmp);
      batch := Sort(insertions);
      newVersion := BatchInsert(batch, tmp, olds);
      SortedBatchShares(o, mid, deletions);
      SortedBatchShares(mid, newVersion.shape, insertions);
      SharingOfAll(o, mid, newVersion.shape, midTrie, olds, Contents(t), insertions, deletions, leafSize);
      CommitTrieContents(t, insertions, deletions, leafSize);
    }
  }

  lemma MirrorsOrNull(x: Node?)
    requires ValidOrNull(x)
    ensures NodesOf(ShapeOf(x)) <= ReprOf(x) && Mirrors(ShapeOf(x), TrieOf(x))
  {
    if x != null {
      ShapeMirrors(x);
    }
  }

  lemma SharingOfAll(o: Shape, mid: Shape, n: Shape, t: Trie, olds: set<Node>, s: seq<Point>,
                     insertions: seq<Point>, deletions: seq<Point>, leafSize: nat)
    requires SonsShare(o, mid, deletions, 0, ROOT_BITS) && SonsShare(mid, n, insertions, 0, ROOT_BITS)
    requires NodesOf(o) <= olds && Grown(mid, n, olds) && Mirrors(mid, t)
    requires t == BuildSon(Minus(s, Sort(deletions)), 0, ROOT_BITS, leafSize)
    requires IsRoot(t, leafSize) && Contents(t) == Minus(s, Sort(deletions))
    ensures CommitShares(o, n, s, insertions, deletions, leafSize)
  {
    RootNotEmptyLeaf(Minus(s, Sort(deletions)), leafSize);
    hide SonsShare, Canonical, Contents, Minus, Sort, Grown, Mirrors, BuildSon, NodesOf, NoneIn;
    forall path | KeptAside(o, n, insertions, deletions, path)
      ensures Descend(o, path) == Descend(n, path) <==> leafSize < LeftAround(s, deletions, path)
    {
      SharingDecided(o, mid, n, t, olds, s, insertions, deletions, leafSize, path);
    }
  }

  lemma RootNotEmptyLeaf(s: seq<Point>, leafSize: nat)
    ensures BuildSon(s, 0, ROOT_BITS, leafSize) != Leaf([])
  {
  }
}
