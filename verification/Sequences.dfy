/**
 * Sequences of points sorted by (code, id): merging, multiset difference,
 * sorting and filtering, with the laws that let a sequence be cut at a code.
 */
module Sequences {
  import opened Points

  predicate Less(p: Point, q: Point) {
    p.Code() < q.Code() || (p.Code() == q.Code() && p.id < q.id)
  }

  predicate Leq(p: Point, q: Point) { !Less(q, p) }

  /** (code, id) is a key: two points that tie are the same point. */
  lemma LeqAntisymmetric(p: Point, q: Point)
    requires Leq(p, q) && Leq(q, p)
    ensures p == q
  {
    MortonLessIsCodeOrder(p, q);
  }

  ghost predicate Sorted(s: seq<Point>) {
    forall i, j :: 0 <= i < j < |s| ==> Leq(s[i], s[j])
  }

  /** Every point has its code in [lo, hi). */
  ghost predicate Within(s: seq<Point>, lo: nat, hi: nat) {
    forall p :: p in s ==> lo <= p.Code() < hi
  }

  lemma SortedConcat(a: seq<Point>, b: seq<Point>)
    requires Sorted(a) && Sorted(b)
    requires forall p, q :: p in a && q in b ==> Leq(p, q)
    ensures Sorted(a + b)
  {
    var s := a + b;
    forall i, j | 0 <= i < j < |s|
      ensures Leq(s[i], s[j])
    {
      if i < |a| && |a| <= j {
        assert s[i] in a && s[j] in b;
      }
    }
  }

  lemma {:induction false} SortedUnique(a: seq<Point>, b: seq<Point>)
    requires Sorted(a) && Sorted(b) && multiset(a) == multiset(b)
    ensures a == b
  {
    if a == [] {
      assert |multiset(b)| == 0;
    } else {
      assert |multiset(b)| == |multiset(a)| == |a| > 0;
      HeadIsLeast(a, b[0]) by {
        assert b[0] in multiset(a);
      }
      HeadIsLeast(b, a[0]) by {
        assert a[0] in multiset(b);
      }
      LeqAntisymmetric(a[0], b[0]);
      hide Leq;
      SameTails(a, b);
      SortedUnique(a[1..], b[1..]);
    }
  }

  lemma SameTails(a: seq<Point>, b: seq<Point>)
    requires a != [] && b != [] && a[0] == b[0] && multiset(a) == multiset(b)
    ensures a == [a[0]] + a[1..] && b == [b[0]] + b[1..] && multiset(a[1..]) == multiset(b[1..])
  {
    assert a == [a[0]] + a[1..] && b == [b[0]] + b[1..];
    assert multiset(a) == multiset{a[0]} + multiset(a[1..]);
    assert multiset(b) == multiset{b[0]} + multiset(b[1..]);
    assert multiset(a[1..]) == multiset(a) - multiset{a[0]};
  }

  lemma HeadIsLeast(s: seq<Point>, p: Point)
    requires Sorted(s) && p in s
    ensures Leq(s[0], p)
  {
    var i :| 0 <= i < |s| && s[i] == p;
  }

  // ----- merge and difference of sorted sequences -----

  function Merge(a: seq<Point>, b: seq<Point>): seq<Point> {
    if a == [] then b
    else if b == [] then a
    else if Less(b[0], a[0]) then [b[0]] + Merge(a, b[1..])
    else [a[0]] + Merge(a[1..], b)
  }

  lemma {:induction false} MergeContents(a: seq<Point>, b: seq<Point>)
    ensures multiset(Merge(a, b)) == multiset(a) + multiset(b)
  {
    if a != [] && b != [] {
      assert a == [a[0]] + a[1..] && b == [b[0]] + b[1..];
      if Less(b[0], a[0]) {
        MergeContents(a, b[1..]);
      } else {
        MergeContents(a[1..], b);
      }
    }
  }

  lemma {:induction false} MergeSorted(a: seq<Point>, b: seq<Point>)
    requires Sorted(a) && Sorted(b)
    ensures Sorted(Merge(a, b))
  {
    if a != [] && b != [] {
      if Less(b[0], a[0]) {
        MergeSorted(a, b[1..]);
        PrependLeast(b[0], a, b[1..]);
      } else {
        MergeSorted(a[1..], b);
        PrependLeast(a[0], a[1..], b);
      }
    }
  }

  lemma PrependLeast(p: Point, a: seq<Point>, b: seq<Point>)
    requires Sorted(Merge(a, b))
    requires forall q :: q in a || q in b ==> Leq(p, q)
    ensures Sorted([p] + Merge(a, b))
  {
    MergeContents(a, b);
    forall q | q in Merge(a, b)
      ensures Leq(p, q)
    {
      assert q in multiset(Merge(a, b));
    }
    SortedConcat([p], Merge(a, b));
  }

  /** The points of a left over when each point of b cancels one equal point of a. */
  function Minus(a: seq<Point>, b: seq<Point>): seq<Point> {
    if a == [] || b == [] then a
    else if Less(a[0], b[0]) then [a[0]] + Minus(a[1..], b)
    else if Less(b[0], a[0]) then Minus(a, b[1..])
    else Minus(a[1..], b[1..])
  }

  lemma {:induction false} MinusContents(a: seq<Point>, b: seq<Point>)
    requires Sorted(a) && Sorted(b)
    ensures multiset(Minus(a, b)) == multiset(a) - multiset(b)
  {
    hide Interleave, Less, Leq;
    if a != [] && b != [] {
      Uncons(a);
      Uncons(b);
      var a', b' := multiset(a[1..]), multiset(b[1..]);
      if Less(a[0], b[0]) {
        MinusContents(a[1..], b);
        NotBelowHead(a[0], b);
        assert multiset{a[0]} + a' - multiset(b) == multiset{a[0]} + (a' - multiset(b));
      } else if Less(b[0], a[0]) {
        MinusContents(a, b[1..]);
        NotBelowHead(b[0], a);
        assert multiset(a) - (multiset{b[0]} + b') == multiset(a) - b';
      } else {
        LeqAntisymmetric(a[0], b[0]);
        MinusContents(a[1..], b[1..]);
        assert multiset{a[0]} + a' - (multiset{a[0]} + b') == a' - b';
      }
    }
  }

  lemma Uncons(s: seq<Point>)
    requires s != []
    ensures multiset(s) == multiset{s[0]} + multiset(s[1..])
  {
    assert s == [s[0]] + s[1..];
  }

  lemma NotBelowHead(p: Point, s: seq<Point>)
    requires Sorted(s) && s != [] && Less(p, s[0])
    ensures p !in s && p !in multiset(s)
  {
    if p in s {
      HeadIsLeast(s, p);
    }
  }

  lemma {:induction false} MinusSorted(a: seq<Point>, b: seq<Point>)
    requires Sorted(a)
    ensures Sorted(Minus(a, b))
    ensures forall p :: p in Minus(a, b) ==> p in a
    ensures |Minus(a, b)| <= |a|
  {
    if a != [] && b != [] {
      if Less(a[0], b[0]) {
        MinusSorted(a[1..], b);
        SortedConcat([a[0]], Minus(a[1..], b));
      } else if Less(b[0], a[0]) {
        MinusSorted(a, b[1..]);
      } else {
        MinusSorted(a[1..], b[1..]);
      }
    }
  }

  // ----- sorting -----

  function Sort(s: seq<Point>): seq<Point> {
    if s == [] then [] else Merge([s[0]], Sort(s[1..]))
  }

  lemma {:induction false} SortSpec(s: seq<Point>)
    ensures Sorted(Sort(s)) && multiset(Sort(s)) == multiset(s)
  {
    if s != [] {
      SortSpec(s[1..]);
      MergeSorted([s[0]], Sort(s[1..]));
      MergeContents([s[0]], Sort(s[1..]));
      assert s == [s[0]] + s[1..];
    }
  }

  // ----- cutting at a code -----

  /** a and b meet at a code that no point of a reaches and no point of b is below. */
  ghost predicate Cut(a: seq<Point>, m: nat, b: seq<Point>) {
    && (forall p :: p in a ==> p.Code() < m)
    && (forall p :: p in b ==> m <= p.Code())
  }

  lemma CutSorted(a: seq<Point>, m: nat, b: seq<Point>)
    requires Cut(a, m, b) && Sorted(a) && Sorted(b)
    ensures Sorted(a + b)
  {
    SortedConcat(a, b);
  }

  lemma MergeCut(a: seq<Point>, b: seq<Point>, a': seq<Point>, b': seq<Point>, m: nat)
    requires Cut(a, m, b) && Cut(a', m, b')
    requires Sorted(a) && Sorted(b) && Sorted(a') && Sorted(b')
    ensures Merge(a + b, a' + b') == Merge(a, a') + Merge(b, b')
    ensures Cut(Merge(a, a'), m, Merge(b, b'))
  {
    MergeContents(a, a');
    MergeContents(b, b');
    MergeContents(a + b, a' + b');
    MergeSorted(a, a');
    MergeSorted(b, b');
    MergeWithin(a, a');
    MergeWithin(b, b');
    CutSorted(a, m, b);
    CutSorted(a', m, b');
    MergeSorted(a + b, a' + b');
    CutSorted(Merge(a, a'), m, Merge(b, b'));
    SortedUnique(Merge(a + b, a' + b'), Merge(a, a') + Merge(b, b'));
  }

  lemma MergeWithin(a: seq<Point>, b: seq<Point>)
    ensures forall p :: p in Merge(a, b) <==> p in a || p in b
    ensures |Merge(a, b)| == |a| + |b|
  {
    MergeContents(a, b);
    assert |Merge(a, b)| == |multiset(Merge(a, b))|;
    forall p
      ensures p in Merge(a, b) <==> p in a || p in b
    {
      assert p in Merge(a, b) <==> p in multiset(Merge(a, b));
    }
  }

  lemma MinusCut(a: seq<Point>, b: seq<Point>, a': seq<Point>, b': seq<Point>, m: nat)
    requires Cut(a, m, b) && Cut(a', m, b')
    requires Sorted(a) && Sorted(b) && Sorted(a') && Sorted(b')
    ensures Minus(a + b, a' + b') == Minus(a, a') + Minus(b, b')
    ensures Cut(Minus(a, a'), m, Minus(b, b'))
  {
    MinusContents(a, a');
    MinusContents(b, b');
    CutSorted(a, m, b);
    CutSorted(a', m, b');
    MinusContents(a + b, a' + b');
    MinusSorted(a, a');
    MinusSorted(b, b');
    MinusSorted(a + b, a' + b');
    CutSorted(Minus(a, a'), m, Minus(b, b'));
    CutMultisets(a, b, a', b', m);
    SortedUnique(Minus(a + b, a' + b'), Minus(a, a') + Minus(b, b'));
  }

  lemma CutMultisets(a: seq<Point>, b: seq<Point>, a': seq<Point>, b': seq<Point>, m: nat)
    requires Cut(a, m, b) && Cut(a', m, b')
    ensures multiset(a + b) - multiset(a' + b')
            == (multiset(a) - multiset(a')) + (multiset(b) - multiset(b'))
  {
    forall p
      ensures (multiset(a + b) - multiset(a' + b'))[p]
              == ((multiset(a) - multiset(a')) + (multiset(b) - multiset(b')))[p]
    {
      if p.Code() < m {
        assert p !in multiset(b) && p !in multiset(b');
      } else {
        assert p !in multiset(a) && p !in multiset(a');
      }
    }
  }

  lemma MinusSelf(a: seq<Point>)
    requires Sorted(a)
    ensures Minus(a, a) == []
  {
    MinusContents(a, a);
    assert |multiset(Minus(a, a))| == 0;
  }

  // ----- filtering -----

  function Filter(s: seq<Point>, f: Point -> bool): seq<Point> {
    if s == [] then []
    else if f(s[0]) then [s[0]] + Filter(s[1..], f)
    else Filter(s[1..], f)
  }

  lemma {:induction false} FilterConcat(a: seq<Point>, b: seq<Point>, f: Point -> bool)
    ensures Filter(a + b, f) == Filter(a, f) + Filter(b, f)
  {
    if a == [] {
      assert a + b == b;
    } else {
      var s, t := a + b, a[1..];
      assert s[0] == a[0] && s[1..] == t + b;
      FilterConcat(t, b, f);
      hide Filter;
      FilterHead(s, f);
      FilterHead(a, f);
    }
  }

  lemma FilterHead(s: seq<Point>, f: Point -> bool)
    requires s != []
    ensures Filter(s, f) == Kept(s[0], f) + Filter(s[1..], f)
  {
  }

  function Kept(p: Point, f: Point -> bool): seq<Point> {
    if f(p) then [p] else []
  }

  lemma {:induction false} FilterNone(s: seq<Point>, f: Point -> bool)
    requires forall p :: p in s ==> !f(p)
    ensures Filter(s, f) == []
  {
    if s != [] {
      FilterNone(s[1..], f);
    }
  }

  lemma {:induction false} FilterAll(s: seq<Point>, f: Point -> bool)
    requires forall p :: p in s ==> f(p)
    ensures Filter(s, f) == s
  {
    if s != [] {
      FilterAll(s[1..], f);
    }
  }

  lemma {:induction false} FilterCount(s: seq<Point>, f: Point -> bool, p: Point)
    ensures multiset(Filter(s, f))[p] == if f(p) then multiset(s)[p] else 0
    ensures |Filter(s, f)| <= |s|
  {
    if s != [] {
      FilterCount(s[1..], f, p);
      assert s == [s[0]] + s[1..];
    }
  }

  lemma {:induction false} FilterSame(s: seq<Point>, f: Point -> bool, g: Point -> bool)
    requires forall p :: p in s ==> f(p) == g(p)
    ensures Filter(s, f) == Filter(s, g)
  {
    if s != [] {
      FilterSame(s[1..], f, g);
    }
  }

  /** What sorted means: codes never fall, and within a code ids never fall. */
  lemma SortedByCodeAndId(s: seq<Point>, i: nat, j: nat)
    requires Sorted(s) && i < j < |s|
    ensures s[i].Code() < s[j].Code() || (s[i].Code() == s[j].Code() && s[i].id <= s[j].id)
  {
    assert Leq(s[i], s[j]);
  }
}
