/**
 * A commit that copies a subtree no batch point falls into: the deletion
 * collapses the father to a leaf, and the insertion grows it again.
 */
module Regrowth {
  import opened Numbers
  import opened Words
  import opened Points
  import opened Sequences
  import opened Cells
  import opened Tries
  import opened Mvq

  /** Three points, two of them in the left half of all codes and FAR alone in the right one. */
  const A: Point := Point(1, 0, 0)
  const B: Point := Point(2, 1, 0)
  const FAR: Point := Point(3, 0x8000_0000, 0)
  const D: Point := Point(4, 2, 0)

  lemma SmallCode(id: nat, x: Coord)
    requires x < 4
    ensures Point(id, x, 0).Code() < Mid(0, ROOT_BITS)
  {
    var p := Point(id, x, 0);
    RootCell([p]);
    assert p in [p];
    BitClearIsLeftHalf(p, 0, ROOT_BITS);
    AndSingleBit(x, 31);
    BitAbove(x, 2, 31);
  }

  lemma FarCode()
    ensures Mid(0, ROOT_BITS) <= FAR.Code()
  {
    RootCell([FAR]);
    assert FAR in [FAR];
    BitClearIsLeftHalf(FAR, 0, ROOT_BITS);
    AndSingleBit(FAR.x, 31);
    BitOfPow2(31, 31);
    HalfOfAll();
  }

  lemma HalfOfAll()
    ensures Pow2(31) == 0x8000_0000
  {
    Pow2Of32();
  }

  lemma Codes()
    ensures A.Code() < B.Code() < D.Code() < Mid(0, ROOT_BITS) <= FAR.Code()
  {
    SmallCode(1, 0);
    SmallCode(2, 1);
    SmallCode(4, 2);
    FarCode();
    assert A.Code() == 0;
    assert B.Code() == 2;
    assert D.Code() == 8;
  }

  /** Two points in the left half and one in the right make an interior root over two leaves. */
  lemma SplitVersion(p: Point, q: Point)
    requires p.Code() < q.Code() < Mid(0, ROOT_BITS)
    ensures Sorted([p, q, FAR]) && [p, q, FAR] == [p, q] + [FAR]
    ensures Version([p, q, FAR], 2) == Inte(Leaf([p, q]), Leaf([FAR]), 3)
  {
    FarCode();
    hide Pow2, Interleave;
    BuildOfCut([p, q], Mid(0, ROOT_BITS), [FAR], 0, ROOT_BITS, 2);
  }

  lemma SortOne(p: Point)
    ensures Sort([p]) == [p]
  {
    SortSpec([p]);
    SortedUnique(Sort([p]), [p]);
  }

  lemma AfterDeletion()
    ensures Minus([A, B, FAR], Sort([A])) == [B, FAR]
  {
    Codes();
    SortOne(A);
    hide Pow2, Interleave, Sort, Minus, Sorted, Less;
    SplitVersion(A, B);
    SortedTail(A, B, FAR);
    MinusContents([A, B, FAR], [A]);
    MinusSorted([A, B, FAR], [A]);
    assert multiset([A, B, FAR]) - multiset([A]) == multiset([B, FAR]);
    SortedUnique(Minus([A, B, FAR], [A]), [B, FAR]);
  }

  lemma SortedTail(a: Point, b: Point, c: Point)
    requires Sorted([a, b, c])
    ensures Sorted([a]) && Sorted([b, c])
  {
    var s := [a, b, c];
    assert Leq(s[1], s[2]);
  }

  lemma AfterCommit()
    ensures Committed([A, B, FAR], [D], [A]) == [B, D, FAR]
  {
    Codes();
    hide Pow2, Interleave, Sort, Committed, Less, Sorted;
    SplitVersion(A, B);
    SplitVersion(B, D);
    CommittedContents([A, B, FAR], [D], [A]);
    Exchanged(A, B, FAR, D);
    SortedUnique(Committed([A, B, FAR], [D], [A]), [B, D, FAR]);
  }

  lemma Exchanged(a: Point, b: Point, c: Point, d: Point)
    ensures multiset([a, b, c]) - multiset([a]) + multiset([d]) == multiset([b, d, c])
  {
  }

  /** Both points left lie in the root's cell, so a leaf of two holds them. */
  lemma TwoLeft()
    ensures LeftAround([A, B, FAR], [A], [true]) == 2
  {
    AfterDeletion();
    RootCell([B, FAR]);
    FilterAll([B, FAR], InCodes(0, ROOT_BITS));
    assert [true][..0] == [];
  }

  /** The right half holds neither the deleted point nor the inserted one. */
  lemma RightHalfAside(o: Shape, n: Shape)
    requires o.InteAt? && n.InteAt? && !o.r.NoNode? && !n.r.NoNode?
    ensures KeptAside(o, n, [D], [A], [true])
    ensures Descend(o, [true]) == o.r && Descend(n, [true]) == n.r
  {
    Codes();
    assert [true][1..] == [];
    assert CellAt(0, ROOT_BITS, [true]) == Mid(0, ROOT_BITS);
  }

  lemma NotShared(o: Shape, n: Shape)
    requires o.InteAt? && n.InteAt? && !o.r.NoNode? && !n.r.NoNode?
    requires CommitShares(o, n, [A, B, FAR], [D], [A], 2)
    ensures o.r != n.r
  {
    hide LeftAround, KeptAside, Descend;
    RightHalfAside(o, n);
    TwoLeft();
  }

  lemma SonsDiffer(before: Node, after: Node)
    requires before.Valid() && before.trie == Inte(Leaf([A, B]), Leaf([FAR]), 3)
    requires after.Valid() && after.trie == Inte(Leaf([B, D]), Leaf([FAR]), 3)
    requires CommitShares(before.shape, after.shape, [A, B, FAR], [D], [A], 2)
    ensures before.rSon != null && after.rSon != null && before.rSon != after.rSon
    ensures before.rSon.trie == Leaf([FAR]) == after.rSon.trie
  {
    hide Node.Valid, CommitShares, Interleave;
    NodeSize(before);
    NodeSize(after);
    SonsOf(before);
    SonsOf(after);
    MirrorsOrNull(before);
    MirrorsOrNull(after);
    NotShared(before.shape, after.shape);
  }

  /** The two tries. */
  lemma BothTries()
    ensures BuildTrie([A, B, FAR], 0, ROOT_BITS, 2) == Version([A, B, FAR], 2) == Inte(Leaf([A, B]), Leaf([FAR]), 3)
    ensures CommitTrie(Version([A, B, FAR], 2), [D], [A], 2) == Inte(Leaf([B, D]), Leaf([FAR]), 3)
    ensures IsRoot(Version([A, B, FAR], 2), 2) && Contents(Version([A, B, FAR], 2)) == [A, B, FAR]
    ensures Sorted([A, B, FAR])
  {
    Codes();
    SplitVersion(A, B);
    SplitVersion(B, D);
    AfterCommit();
    VersionIsRoot([A, B, FAR], 2);
    VersionIs([A, B, FAR]);
    hide BuildTrie, Interleave, Committed, Version, IsRoot, Sorted;
  }

  /** FAR's leaf is aside of both batches, and yet the two versions hold it in different objects. */
  method CollapseAndRegrow() returns (tree: Tree, before: Node, after: Node)
    ensures tree.leafSize == 2 && before.Valid() && after.Valid()
    ensures before.trie == Version([A, B, FAR], 2) && after.trie == CommitTrie(before.trie, [D], [A], 2)
    ensures before.rSon != null && after.rSon != null && before.rSon != after.rSon
    ensures before.rSon.trie == Leaf([FAR]) == after.rSon.trie
  {
    BothTries();
    RootCell([A, B, FAR]);
    hide Pow2, Interleave, Version, CommitTrie, IsRoot, Node.Valid, Contents, CommitShares, BuildTrie, Sorted, Less,
         InCell, Aligned, Mid;
    tree := new Tree(2);
    before := tree.Build([A, B, FAR], ROOT_BITS, 0);
    after := tree.Commit(before, [D], [A]);
    SonsDiffer(before, after);
  }

  lemma VersionIs(s: seq<Point>)
    ensures BuildTrie(s, 0, ROOT_BITS, 2) == Version(s, 2)
  {
  }
}
