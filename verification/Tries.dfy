/**
 * The shape of one version as a value: a binary trie over the bits of the
 * codes.  Canonical tries are determined by their points, so a version's tree
 * depends on its contents only and not on how it came about.
 */
module Tries {
  import opened Numbers
  import opened Points
  import opened Sequences
  import opened Cells

  datatype Trie = Nil | Leaf(records: seq<Point>) | Inte(l: Trie, r: Trie, numPts: nat)

  /** All points of a version, left to right. */
  ghost function Contents(t: Trie): seq<Point> {
    match t
    case Nil => []
    case Leaf(records) => records
    case Inte(l, r, _) => Contents(l) + Contents(r)
  }

  /** Every point is in its cell, leaves are sorted, and every num_pts is exact. */
  ghost predicate Well(t: Trie, lo: nat, b: nat)
    decreases t
  {
    match t
    case Nil => true
    case Leaf(records) => Sorted(records) && InCell(records, lo, b)
    case Inte(l, r, numPts) =>
      && b > 0 && numPts == |Contents(t)|
      && Well(l, lo, b - 1) && Well(r, Mid(lo, b), b - 1)
  }

  /** Leaves hold 1 to leafSize points (more only at height 0), interior nodes hold more. */
  ghost predicate Sized(t: Trie, b: nat, leafSize: nat)
    decreases t
  {
    match t
    case Nil => true
    case Leaf(records) => records != [] && (b == 0 || |records| <= leafSize)
    case Inte(l, r, numPts) =>
      b > 0 && leafSize < |Contents(t)| && Sized(l, b - 1, leafSize) && Sized(r, b - 1, leafSize)
  }

  ghost predicate Canonical(t: Trie, lo: nat, b: nat, leafSize: nat) {
    Well(t, lo, b) && Sized(t, b, leafSize)
  }

  lemma {:induction false} WellContents(t: Trie, lo: nat, b: nat)
    requires Well(t, lo, b) && Aligned(lo, b)
    ensures Sorted(Contents(t)) && InCell(Contents(t), lo, b)
    decreases t
  {
    match t
    case Nil =>
    case Leaf(_) =>
    case Inte(l, r, _) =>
      SonsAligned(lo, b);
      WellContents(l, lo, b - 1);
      WellContents(r, Mid(lo, b), b - 1);
      hide Pow2, Points.Interleave;
      CutSorted(Contents(l), Mid(lo, b), Contents(r));
  }

  /** The halves of a well-formed interior node meet at the middle of its cell. */
  lemma WellCut(t: Trie, lo: nat, b: nat)
    requires Well(t, lo, b) && Aligned(lo, b) && t.Inte?
    ensures Aligned(lo, b - 1) && Aligned(Mid(lo, b), b - 1)
    ensures Cut(Contents(t.l), Mid(lo, b), Contents(t.r))
    ensures Sorted(Contents(t.l)) && Sorted(Contents(t.r))
  {
    SonsAligned(lo, b);
    WellContents(t.l, lo, b - 1);
    WellContents(t.r, Mid(lo, b), b - 1);
  }

  // ----- what build makes -----

  /** Number of leading points with code below m. */
  ghost function Below(s: seq<Point>, m: nat): (n: nat)
    ensures n <= |s|
  {
    if s == [] || m <= s[0].Code() then 0 else 1 + Below(s[1..], m)
  }

  lemma {:induction false} BelowOfCut(a: seq<Point>, m: nat, b: seq<Point>)
    requires Cut(a, m, b)
    ensures Below(a + b, m) == |a|
  {
    if a == [] {
      assert a + b == b;
    } else {
      assert (a + b)[1..] == a[1..] + b;
      BelowOfCut(a[1..], m, b);
    }
  }

  ghost function BuildTrie(s: seq<Point>, lo: nat, b: nat, leafSize: nat): Trie
    decreases b, 0
  {
    if b == 0 || |s| <= leafSize then Leaf(s)
    else
      var n := Below(s, Mid(lo, b));
      Inte(BuildSon(s[..n], lo, b - 1, leafSize), BuildSon(s[n..], Mid(lo, b), b - 1, leafSize), |s|)
  }

  ghost function BuildSon(s: seq<Point>, lo: nat, b: nat, leafSize: nat): Trie
    decreases b, 1
  {
    if s == [] then Nil else BuildTrie(s, lo, b, leafSize)
  }

  lemma BuildOfCut(a: seq<Point>, m: nat, c: seq<Point>, lo: nat, b: nat, leafSize: nat)
    requires b > 0 && m == Mid(lo, b) && Cut(a, m, c) && leafSize < |a + c|
    ensures BuildTrie(a + c, lo, b, leafSize)
            == Inte(BuildSon(a, lo, b - 1, leafSize), BuildSon(c, m, b - 1, leafSize), |a + c|)
  {
    BelowOfCut(a, m, c);
    assert (a + c)[..|a|] == a && (a + c)[|a|..] == c;
  }

  /** A canonical trie is exactly what build makes from its points. */
  lemma {:induction false} CanonicalIsBuilt(t: Trie, lo: nat, b: nat, leafSize: nat)
    requires Canonical(t, lo, b, leafSize) && Aligned(lo, b)
    ensures t == BuildSon(Contents(t), lo, b, leafSize)
    decreases t
  {
    match t
    case Nil =>
    case Leaf(_) =>
    case Inte(l, r, _) =>
      WellCut(t, lo, b);
      CanonicalIsBuilt(l, lo, b - 1, leafSize);
      CanonicalIsBuilt(r, Mid(lo, b), b - 1, leafSize);
      BuildOfCut(Contents(l), Mid(lo, b), Contents(r), lo, b, leafSize);
  }

  /** Build keeps the points and makes a canonical trie. */
  lemma {:induction false} BuiltIsCanonical(s: seq<Point>, lo: nat, b: nat, leafSize: nat)
    requires Sorted(s) && InCell(s, lo, b) && Aligned(lo, b) && s != []
    ensures Canonical(BuildTrie(s, lo, b, leafSize), lo, b, leafSize)
    ensures Contents(BuildTrie(s, lo, b, leafSize)) == s
    decreases b, 0
  {
    if b > 0 && leafSize < |s| {
      var m := Mid(lo, b);
      var n := Below(s, m);
      BelowSplits(s, m);
      SonsAligned(lo, b);
      CellHalves(s, n, lo, b);
      hide Below, Sorted, InCell, Aligned, Mid, Canonical, BuildTrie, BuildSon, Contents, Points.Interleave;
      SonIsCanonical(s[..n], lo, b - 1, leafSize);
      SonIsCanonical(s[n..], m, b - 1, leafSize);
      JoinedIsCanonical(s, n, lo, b, leafSize);
    }
  }

  lemma {:induction false} SonIsCanonical(s: seq<Point>, lo: nat, b: nat, leafSize: nat)
    requires Sorted(s) && InCell(s, lo, b) && Aligned(lo, b)
    ensures Canonical(BuildSon(s, lo, b, leafSize), lo, b, leafSize)
    ensures Contents(BuildSon(s, lo, b, leafSize)) == s
    decreases b, 1
  {
    if s != [] {
      BuiltIsCanonical(s, lo, b, leafSize);
    }
  }

  lemma CellHalves(s: seq<Point>, n: nat, lo: nat, b: nat)
    requires b > 0 && Sorted(s) && InCell(s, lo, b) && n <= |s| && Cut(s[..n], Mid(lo, b), s[n..])
    ensures Sorted(s[..n]) && InCell(s[..n], lo, b - 1) && Sorted(s[n..]) && InCell(s[n..], Mid(lo, b), b - 1)
  {
    hide Points.Interleave;
  }

  lemma JoinedIsCanonical(s: seq<Point>, n: nat, lo: nat, b: nat, leafSize: nat)
    requires b > 0 && leafSize < |s| && n == Below(s, Mid(lo, b))
    requires var l, r := BuildSon(s[..n], lo, b - 1, leafSize), BuildSon(s[n..], Mid(lo, b), b - 1, leafSize);
             && Canonical(l, lo, b - 1, leafSize) && Contents(l) == s[..n]
             && Canonical(r, Mid(lo, b), b - 1, leafSize) && Contents(r) == s[n..]
    ensures Canonical(BuildTrie(s, lo, b, leafSize), lo, b, leafSize)
    ensures Contents(BuildTrie(s, lo, b, leafSize)) == s
  {
    hide Below, Points.Interleave, Mid;
    assert s == s[..n] + s[n..];
  }

  lemma {:induction false} BelowSplits(s: seq<Point>, m: nat)
    requires Sorted(s)
    ensures Cut(s[..Below(s, m)], m, s[Below(s, m)..])
  {
    if s != [] {
      if m <= s[0].Code() {
        forall p | p in s
          ensures m <= p.Code()
        {
          HeadIsLeast(s, p);
        }
        assert s[0..] == s;
      } else {
        BelowSplits(s[1..], m);
        var n := Below(s[1..], m);
        assert s[..n + 1] == [s[0]] + s[1..][..n];
        assert s[n + 1..] == s[1..][n..];
      }
    }
  }

  // ----- whole versions -----

  /** The version built from a set of points; the empty version is one empty leaf. */
  ghost function Version(s: seq<Point>, leafSize: nat): Trie {
    BuildTrie(s, 0, ROOT_BITS, leafSize)
  }

  /** A root: null, the empty leaf, or a canonical trie over all codes. */
  ghost predicate IsRoot(t: Trie, leafSize: nat) {
    t == Leaf([]) || Canonical(t, 0, ROOT_BITS, leafSize)
  }

  lemma RootContents(t: Trie, leafSize: nat)
    requires IsRoot(t, leafSize)
    ensures Sorted(Contents(t)) && Well(t, 0, ROOT_BITS)
  {
    RootCell(Contents(t));
    WellContents(t, 0, ROOT_BITS);
  }

  /** The points of every version lie in the order of their codes, and of their ids within a code. */
  lemma RootOrder(t: Trie, leafSize: nat)
    requires IsRoot(t, leafSize)
    ensures var s := Contents(t);
            forall i, j :: 0 <= i < j < |s| ==>
              s[i].Code() < s[j].Code() || (s[i].Code() == s[j].Code() && s[i].id <= s[j].id)
  {
    RootContents(t, leafSize);
    var s := Contents(t);
    forall i, j | 0 <= i < j < |s|
      ensures s[i].Code() < s[j].Code() || (s[i].Code() == s[j].Code() && s[i].id <= s[j].id)
    {
      SortedByCodeAndId(s, i, j);
    }
  }

  lemma VersionIsRoot(s: seq<Point>, leafSize: nat)
    requires Sorted(s)
    ensures IsRoot(Version(s, leafSize), leafSize) && Contents(Version(s, leafSize)) == s
  {
    RootCell(s);
    if s != [] {
      BuiltIsCanonical(s, 0, ROOT_BITS, leafSize);
    }
  }

  /** Every root but null is the version of its own points. */
  lemma RootIsVersion(t: Trie, leafSize: nat)
    requires IsRoot(t, leafSize) && t != Nil
    ensures t == Version(Contents(t), leafSize)
  {
    RootCell(Contents(t));
    if t != Leaf([]) {
      CanonicalIsBuilt(t, 0, ROOT_BITS, leafSize);
      CanonicalNonempty(t, 0, ROOT_BITS, leafSize);
    }
  }

  lemma CanonicalNonempty(t: Trie, lo: nat, b: nat, leafSize: nat)
    requires Canonical(t, lo, b, leafSize)
    ensures t == Nil <==> Contents(t) == []
  {
  }

  /** Same points, in whatever order they arrived: same tree. */
  lemma SamePointsSameTree(t: Trie, u: Trie, leafSize: nat)
    requires IsRoot(t, leafSize) && IsRoot(u, leafSize) && t != Nil && u != Nil
    requires multiset(Contents(t)) == multiset(Contents(u))
    ensures t == u
  {
    RootContents(t, leafSize);
    RootContents(u, leafSize);
    SortedUnique(Contents(t), Contents(u));
    RootIsVersion(t, leafSize);
    RootIsVersion(u, leafSize);
  }

  // ----- commits as functions of the points -----

  /** The points after deleting one batch and inserting another, in order. */
  ghost function Committed(s: seq<Point>, insertions: seq<Point>, deletions: seq<Point>): seq<Point> {
    Merge(Minus(s, Sort(deletions)), Sort(insertions))
  }

  ghost function CommitTrie(t: Trie, insertions: seq<Point>, deletions: seq<Point>, leafSize: nat): Trie {
    Version(Committed(Contents(t), insertions, deletions), leafSize)
  }

  lemma CommittedContents(s: seq<Point>, insertions: seq<Point>, deletions: seq<Point>)
    requires Sorted(s)
    ensures Sorted(Committed(s, insertions, deletions))
    ensures multiset(Committed(s, insertions, deletions)) == multiset(s) - multiset(deletions) + multiset(insertions)
  {
    SortSpec(insertions);
    SortSpec(deletions);
    MinusContents(s, Sort(deletions));
    MinusSorted(s, Sort(deletions));
    MergeContents(Minus(s, Sort(deletions)), Sort(insertions));
    MergeSorted(Minus(s, Sort(deletions)), Sort(insertions));
  }

  /** A commit leaves a root with the old points less the deleted ones, one copy per match, and the inserted ones. */
  lemma CommitTrieContents(t: Trie, insertions: seq<Point>, deletions: seq<Point>, leafSize: nat)
    requires IsRoot(t, leafSize)
    ensures var u := CommitTrie(t, insertions, deletions, leafSize);
            && IsRoot(u, leafSize) && u != Nil
            && multiset(Contents(u)) == multiset(Contents(t)) - multiset(deletions) + multiset(insertions)
  {
    RootContents(t, leafSize);
    CommittedContents(Contents(t), insertions, deletions);
    VersionIsRoot(Committed(Contents(t), insertions, deletions), leafSize);
  }

  /** What a deletion leaves is null or canonical, with the remaining points. */
  lemma DeletedIsRoot(t: Trie, P: seq<Point>, leafSize: nat)
    requires IsRoot(t, leafSize) && Sorted(P)
    ensures var u := BuildSon(Minus(Contents(t), P), 0, ROOT_BITS, leafSize);
            IsRoot(u, leafSize) && Contents(u) == Minus(Contents(t), P)
  {
    RootContents(t, leafSize);
    var s := Minus(Contents(t), P);
    MinusSorted(Contents(t), P);
    RootCell(s);
    if s != [] {
      BuiltIsCanonical(s, 0, ROOT_BITS, leafSize);
    }
  }
}
