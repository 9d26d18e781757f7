/**
 * Three-way merge of versions whose ids are unique: classify what each branch
 * did since the base, set disagreements aside, and commit the rest.
 */
module Merges {
  import opened Points
  import opened Sequences
  import opened Tries
  import opened Mvq
  import opened Diffs

  ghost predicate UniqueIds(m: multiset<Point>) {
    && (forall p, q :: p in m && q in m && p.id == q.id ==> p == q)
    && (forall p :: m[p] <= 1)
  }

  ghost predicate HasId(s: seq<Point>, id: nat) {
    exists p :: p in s && p.id == id
  }

  ghost predicate Strict(s: seq<Point>) {
    forall i, j :: 0 <= i < j < |s| ==> s[i].id < s[j].id
  }

  // ----- sorting by id -----

  function InsertById(p: Point, s: seq<Point>): seq<Point> {
    if s == [] || p.id <= s[0].id then [p] + s else [s[0]] + InsertById(p, s[1..])
  }

  function SortById(s: seq<Point>): seq<Point> {
    if s == [] then [] else InsertById(s[0], SortById(s[1..]))
  }

  lemma {:induction false} InsertByIdSpec(p: Point, s: seq<Point>)
    ensures multiset(InsertById(p, s)) == multiset{p} + multiset(s)
    ensures Strict(s) && !HasId(s, p.id) ==> Strict(InsertById(p, s))
  {
    if s != [] && p.id > s[0].id {
      var t := InsertById(p, s[1..]);
      InsertByIdSpec(p, s[1..]);
      Uncons(s);
      assert InsertById(p, s) == [s[0]] + t;
      if Strict(s) && !HasId(s, p.id) {
        StrictTail(s);
        hide InsertById;
        forall q | q in t
          ensures s[0].id < q.id
        {
          assert q in multiset(t);
          assert q == p || q in multiset(s[1..]);
        }
        StrictCons(s[0], t);
      }
    } else if s != [] && Strict(s) && !HasId(s, p.id) {
      assert s[0] in s;
      StrictTail(s);
      StrictCons(p, s);
    }
  }

  lemma SamePoints(s: seq<Point>, t: seq<Point>)
    requires multiset(s) == multiset(t)
    ensures forall p :: p in s <==> p in t
    ensures forall id :: HasId(s, id) <==> HasId(t, id)
  {
    forall p
      ensures p in s <==> p in t
    {
      assert p in s <==> p in multiset(s);
      assert p in t <==> p in multiset(t);
    }
  }

  lemma {:induction false} SortByIdSpec(s: seq<Point>)
    ensures multiset(SortById(s)) == multiset(s)
    ensures UniqueIds(multiset(s)) ==> Strict(SortById(s))
  {
    if s != [] {
      var t := SortById(s[1..]);
      SortByIdSpec(s[1..]);
      hide InsertById, UniqueIds, Strict;
      InsertByIdSpec(s[0], t);
      Uncons(s);
      if UniqueIds(multiset(s)) {
        UniqueTail(s);
        SamePoints(t, s[1..]);
      }
    }
  }

  lemma UniqueTail(s: seq<Point>)
    requires s != [] && UniqueIds(multiset(s))
    ensures UniqueIds(multiset(s[1..])) && !HasId(s[1..], s[0].id)
  {
    Uncons(s);
    var m := multiset(s[1..]);
    assert m <= multiset(s);
    forall p | p in s[1..]
      ensures p.id != s[0].id
    {
      assert p in m && p in multiset(s) && s[0] in multiset(s);
      assert multiset(s)[p] == m[p] + (if p == s[0] then 1 else 0);
    }
  }

  lemma {:induction false} StrictIsUnique(s: seq<Point>)
    requires Strict(s)
    ensures UniqueIds(multiset(s))
  {
    if s != [] {
      StrictIsUnique(s[1..]);
      Uncons(s);
      forall p | p in multiset(s[1..])
        ensures s[0].id < p.id
      {
        assert p in s[1..];
      }
    }
  }

  // ----- what a branch did to the base -----

  datatype Delta = Delta(inserted: seq<Point>, deleted: seq<Point>, updated: seq<Point>)

  ghost function FilterRun(a: seq<Point>, r: seq<Point>): Delta {
    if a == [] then Delta([], r, [])
    else if r == [] then Delta(a, [], [])
    else if a[0].id < r[0].id then var d := FilterRun(a[1..], r); d.(inserted := [a[0]] + d.inserted)
    else if a[0].id == r[0].id then var d := FilterRun(a[1..], r[1..]); d.(updated := [a[0]] + d.updated)
    else var d := FilterRun(a, r[1..]); d.(deleted := [r[0]] + d.deleted)
  }

  /** The three runs of d hold exactly what their names say, each in id order. */
  ghost predicate IsDelta(d: Delta, add: seq<Point>, remove: seq<Point>) {
    && Strict(d.inserted) && Strict(d.deleted) && Strict(d.updated)
    && (forall p :: p in d.inserted <==> p in add && !HasId(remove, p.id))
    && (forall p :: p in d.deleted <==> p in remove && !HasId(add, p.id))
    && (forall p :: p in d.updated <==> p in add && HasId(remove, p.id))
  }

  lemma StrictTail(s: seq<Point>)
    requires Strict(s) && s != []
    ensures Strict(s[1..])
    ensures forall p :: p in s <==> p == s[0] || p in s[1..]
    ensures forall p :: p in s[1..] ==> s[0].id < p.id
    ensures forall id :: HasId(s, id) <==> id == s[0].id || HasId(s[1..], id)
  {
    assert s == [s[0]] + s[1..];
    assert s[0] in s;
  }

  lemma StrictCons(p: Point, s: seq<Point>)
    requires Strict(s) && forall q :: q in s ==> p.id < q.id
    ensures Strict([p] + s)
  {
  }

  lemma {:induction false} FilterRunSpec(a: seq<Point>, r: seq<Point>)
    requires Strict(a) && Strict(r)
    ensures IsDelta(FilterRun(a, r), a, r)
  {
    if a != [] && r != [] {
      StrictTail(a);
      StrictTail(r);
      if a[0].id < r[0].id {
        FilterRunSpec(a[1..], r);
        InsertHead(FilterRun(a[1..], r), a, r);
      } else if a[0].id == r[0].id {
        FilterRunSpec(a[1..], r[1..]);
        UpdateHead(FilterRun(a[1..], r[1..]), a, r);
      } else {
        FilterRunSpec(a, r[1..]);
        DeleteHead(FilterRun(a, r[1..]), a, r);
      }
    }
  }

  lemma InsertHead(d: Delta, a: seq<Point>, r: seq<Point>)
    requires a != [] && r != [] && Strict(a) && Strict(r) && a[0].id < r[0].id && IsDelta(d, a[1..], r)
    ensures IsDelta(d.(inserted := [a[0]] + d.inserted), a, r)
  {
    StrictTail(a);
    StrictTail(r);
    hide HasId, Strict;
    StrictCons(a[0], d.inserted);
  }

  lemma UpdateHead(d: Delta, a: seq<Point>, r: seq<Point>)
    requires a != [] && r != [] && Strict(a) && Strict(r) && a[0].id == r[0].id && IsDelta(d, a[1..], r[1..])
    ensures IsDelta(d.(updated := [a[0]] + d.updated), a, r)
  {
    StrictTail(a);
    StrictTail(r);
    hide HasId, Strict;
    StrictCons(a[0], d.updated);
  }

  lemma DeleteHead(d: Delta, a: seq<Point>, r: seq<Point>)
    requires a != [] && r != [] && Strict(a) && Strict(r) && r[0].id < a[0].id && IsDelta(d, a, r[1..])
    ensures IsDelta(d.(deleted := [r[0]] + d.deleted), a, r)
  {
    StrictTail(a);
    StrictTail(r);
    hide HasId, Strict;
    StrictCons(r[0], d.deleted);
  }

  /** d is what the loop has collected; the rest of the runs supplies what all lacks. */
  ghost predicate FilterOwes(a: seq<Point>, i: nat, r: seq<Point>, j: nat, d: Delta, all: Delta) {
    && i <= |a| && j <= |r|
    && var rest := FilterRun(a[i..], r[j..]);
       && d.inserted + rest.inserted == all.inserted
       && d.deleted + rest.deleted == all.deleted
       && d.updated + rest.updated == all.updated
  }

  lemma FilterStep(a: seq<Point>, i: nat, r: seq<Point>, j: nat, d: Delta, all: Delta)
    requires FilterOwes(a, i, r, j, d, all) && i <= |a| && j <= |r| && (i < |a| || j < |r|)
    ensures i < |a| && (j == |r| || a[i].id < r[j].id) ==>
              FilterOwes(a, i + 1, r, j, d.(inserted := d.inserted + [a[i]]), all)
    ensures i < |a| && j < |r| && a[i].id == r[j].id ==>
              FilterOwes(a, i + 1, r, j + 1, d.(updated := d.updated + [a[i]]), all)
    ensures j < |r| && (i == |a| || r[j].id < a[i].id) ==>
              FilterOwes(a, i, r, j + 1, d.(deleted := d.deleted + [r[j]]), all)
  {
    var A, R := a[i..], r[j..];
    if i < |a| {
      assert A[1..] == a[i + 1..];
    }
    if j < |r| {
      assert R[1..] == r[j + 1..];
    }
  }

  lemma FilterStart(a: seq<Point>, r: seq<Point>)
    ensures FilterOwes(a, 0, r, 0, Delta([], [], []), FilterRun(a, r))
  {
    assert a[0..] == a && r[0..] == r;
  }

  lemma FilterDone(a: seq<Point>, r: seq<Point>, d: Delta, all: Delta)
    requires FilterOwes(a, |a|, r, |r|, d, all)
    ensures d == all
  {
  }

  /** Walks both id-sorted runs: an id in both is an update, in one an insertion or a deletion. */
  method FilterDiffResults(add: seq<Point>, remove: seq<Point>) returns (d: Delta)
    ensures d == FilterRun(SortById(add), SortById(remove))
    ensures UniqueIds(multiset(add)) && UniqueIds(multiset(remove)) ==> IsDelta(d, add, remove)
  {
    hide SortById, UniqueIds, Strict, HasId, FilterOwes, FilterRun, IsDelta;
    var a, r := SortById(add), SortById(remove);
    if UniqueIds(multiset(add)) && UniqueIds(multiset(remove)) {
      FilterFacts(add, remove);
    }
    ghost var all := FilterRun(a, r);
    d := Delta([], [], []);
    FilterStart(a, r);
    var i, j := 0, 0;
    while i < |a| && j < |r|
      invariant i <= |a| && j <= |r| && FilterOwes(a, i, r, j, d, all)
    {
      FilterStep(a, i, r, j, d, all);
      if a[i].id < r[j].id {
        d := d.(inserted := d.inserted + [a[i]]);
        i := i + 1;
      } else if a[i].id == r[j].id {
        d := d.(updated := d.updated + [a[i]]);
        i, j := i + 1, j + 1;
      } else {
        d := d.(deleted := d.deleted + [r[j]]);
        j := j + 1;
      }
    }
    while i < |a|
      invariant i <= |a| && j <= |r| && (i < |a| ==> j == |r|) && FilterOwes(a, i, r, j, d, all)
    {
      FilterStep(a, i, r, j, d, all);
      d := d.(inserted := d.inserted + [a[i]]);
      i := i + 1;
    }
    while j < |r|
      invariant i == |a| && j <= |r| && FilterOwes(a, i, r, j, d, all)
    {
      FilterStep(a, i, r, j, d, all);
      d := d.(deleted := d.deleted + [r[j]]);
      j := j + 1;
    }
    FilterDone(a, r, d, all);
  }

  lemma FilterFacts(add: seq<Point>, remove: seq<Point>)
    requires UniqueIds(multiset(add)) && UniqueIds(multiset(remove))
    ensures IsDelta(FilterRun(SortById(add), SortById(remove)), add, remove)
  {
    hide SortById, FilterRun, UniqueIds, HasId, Strict;
    SortByIdSpec(add);
    SortByIdSpec(remove);
    SamePoints(SortById(add), add);
    SamePoints(SortById(remove), remove);
    FilterRunSpec(SortById(add), SortById(remove));
  }

  // ----- combining two branches -----

  datatype Combined = Combined(agreed: seq<Point>, conflict: seq<Point>)

  ghost function CombineRun(a: seq<Point>, b: seq<Point>): Combined {
    if a == [] then Combined(b, [])
    else if b == [] then Combined(a, [])
    else if a[0].id == b[0].id then
      var c := CombineRun(a[1..], b[1..]);
      if a[0] != b[0] then c.(conflict := [a[0], b[0]] + c.conflict) else c.(agreed := [a[0]] + c.agreed)
    else if a[0].id < b[0].id then
      var c := CombineRun(a[1..], b); c.(agreed := [a[0]] + c.agreed)
    else
      var c := CombineRun(a, b[1..]); c.(agreed := [b[0]] + c.agreed)
  }

  /** Neither run holds another point with p's id. */
  ghost predicate Undisputed(p: Point, a: seq<Point>, b: seq<Point>) {
    (forall q :: q in a && q.id == p.id ==> q == p) && (forall q :: q in b && q.id == p.id ==> q == p)
  }

  /** Undisputed points once, in id order; disputed ones only in the conflict run. */
  ghost predicate IsCombined(c: Combined, a: seq<Point>, b: seq<Point>) {
    && Strict(c.agreed)
    && (forall p :: p in c.agreed <==> (p in a || p in b) && Undisputed(p, a, b))
    && (forall p :: p in c.conflict <==> (p in a || p in b) && !Undisputed(p, a, b))
  }

  lemma {:induction false} CombineRunSpec(a: seq<Point>, b: seq<Point>)
    requires Strict(a) && Strict(b)
    ensures IsCombined(CombineRun(a, b), a, b)
  {
    if a == [] || b == [] {
      StrictAlone(a, b);
    } else {
      StrictTail(a);
      StrictTail(b);
      if a[0].id == b[0].id {
        CombineRunSpec(a[1..], b[1..]);
        CombineHeads(CombineRun(a[1..], b[1..]), a, b);
      } else if a[0].id < b[0].id {
        CombineRunSpec(a[1..], b);
        CombineLeft(CombineRun(a[1..], b), a, b);
      } else {
        CombineRunSpec(a, b[1..]);
        CombineRight(CombineRun(a, b[1..]), a, b);
      }
    }
  }

  lemma StrictAlone(a: seq<Point>, b: seq<Point>)
    requires Strict(a) && Strict(b) && (a == [] || b == [])
    ensures forall p :: p in a || p in b ==> Undisputed(p, a, b)
  {
    StrictIsUnique(a);
    StrictIsUnique(b);
    forall p | p in a || p in b
      ensures Undisputed(p, a, b)
    {
      OwnRun(p, a);
      OwnRun(p, b);
    }
  }

  /** In its own run a point has its id to itself. */
  lemma OwnRun(p: Point, s: seq<Point>)
    requires UniqueIds(multiset(s))
    ensures p in s ==> forall q :: q in s && q.id == p.id ==> q == p
  {
    if p in s {
      forall q | q in s && q.id == p.id
        ensures q == p
      {
        assert p in multiset(s) && q in multiset(s);
      }
    }
  }

  /** Points with another id do not affect whether p is disputed. */
  lemma UndisputedSkip(a: seq<Point>, b: seq<Point>, a': seq<Point>, b': seq<Point>, id: nat)
    requires forall q :: q in a && q.id != id <==> q in a' && q.id != id
    requires forall q :: q in b && q.id != id <==> q in b' && q.id != id
    ensures forall p: Point :: p.id != id ==> Undisputed(p, a, b) == Undisputed(p, a', b')
  {
  }

  lemma HeadUndisputed(a: seq<Point>, b: seq<Point>)
    requires a != [] && b != [] && Strict(a) && Strict(b) && a[0].id < b[0].id
    ensures Undisputed(a[0], a, b) && Undisputed(a[0], b, a)
  {
    StrictTail(a);
    StrictTail(b);
  }

  lemma CombineHeads(c: Combined, a: seq<Point>, b: seq<Point>)
    requires a != [] && b != [] && Strict(a) && Strict(b) && a[0].id == b[0].id && IsCombined(c, a[1..], b[1..])
    ensures IsCombined(if a[0] != b[0] then c.(conflict := [a[0], b[0]] + c.conflict)
             else c.(agreed := [a[0]] + c.agreed), a, b)
  {
    StrictTail(a);
    StrictTail(b);
    assert Undisputed(a[0], a, b) == (a[0] == b[0]) && Undisputed(b[0], a, b) == (a[0] == b[0]);
    UndisputedSkip(a, b, a[1..], b[1..], a[0].id);
    hide Undisputed, HasId, Strict;
    StrictCons(a[0], c.agreed);
  }

  lemma CombineLeft(c: Combined, a: seq<Point>, b: seq<Point>)
    requires a != [] && b != [] && Strict(a) && Strict(b) && a[0].id < b[0].id && IsCombined(c, a[1..], b)
    ensures IsCombined(c.(agreed := [a[0]] + c.agreed), a, b)
  {
    hide Undisputed, HasId, Strict;
    StrictTail(a);
    StrictTail(b);
    HeadUndisputed(a, b);
    UndisputedSkip(a, b, a[1..], b, a[0].id);
    StrictCons(a[0], c.agreed);
  }

  lemma CombineRight(c: Combined, a: seq<Point>, b: seq<Point>)
    requires a != [] && b != [] && Strict(a) && Strict(b) && b[0].id < a[0].id && IsCombined(c, a, b[1..])
    ensures IsCombined(c.(agreed := [b[0]] + c.agreed), a, b)
  {
    hide Undisputed, HasId, Strict;
    StrictTail(a);
    StrictTail(b);
    HeadUndisputed(b, a);
    UndisputedSkip(a, b, a, b[1..], b[0].id);
    StrictCons(b[0], c.agreed);
  }

  /** Which branch is named first makes no difference to what is agreed. */
  lemma {:induction false} CombineSymmetric(a: seq<Point>, b: seq<Point>)
    ensures CombineRun(a, b).agreed == CombineRun(b, a).agreed
    ensures multiset(CombineRun(a, b).conflict) == multiset(CombineRun(b, a).conflict)
  {
    if a != [] && b != [] {
      if a[0].id == b[0].id {
        CombineSymmetric(a[1..], b[1..]);
      } else if a[0].id < b[0].id {
        CombineSymmetric(a[1..], b);
      } else {
        CombineSymmetric(a, b[1..]);
      }
    }
  }

  ghost predicate CombineOwes(a: seq<Point>, i: nat, b: seq<Point>, j: nat, c: Combined, all: Combined) {
    && i <= |a| && j <= |b|
    && var rest := CombineRun(a[i..], b[j..]);
       c.agreed + rest.agreed == all.agreed && c.conflict + rest.conflict == all.conflict
  }

  lemma CombineStep(a: seq<Point>, i: nat, b: seq<Point>, j: nat, c: Combined, all: Combined)
    requires CombineOwes(a, i, b, j, c, all) && i <= |a| && j <= |b| && (i < |a| || j < |b|)
    ensures i < |a| && j < |b| && a[i].id == b[j].id && a[i] != b[j] ==>
              CombineOwes(a, i + 1, b, j + 1, c.(conflict := c.conflict + [a[i], b[j]]), all)
    ensures i < |a| && j < |b| && a[i] == b[j] ==>
              CombineOwes(a, i + 1, b, j + 1, c.(agreed := c.agreed + [a[i]]), all)
    ensures i < |a| && (j == |b| || a[i].id < b[j].id) ==>
              CombineOwes(a, i + 1, b, j, c.(agreed := c.agreed + [a[i]]), all)
    ensures j < |b| && (i == |a| || b[j].id < a[i].id) ==>
              CombineOwes(a, i, b, j + 1, c.(agreed := c.agreed + [b[j]]), all)
  {
    var A, B := a[i..], b[j..];
    if i < |a| {
      assert A[1..] == a[i + 1..];
    }
    if j < |b| {
      assert B[1..] == b[j + 1..];
    }
  }

  lemma CombineStart(a: seq<Point>, b: seq<Point>)
    ensures CombineOwes(a, 0, b, 0, Combined([], []), CombineRun(a, b))
  {
    assert a[0..] == a && b[0..] == b;
  }

  lemma CombineDone(a: seq<Point>, b: seq<Point>, c: Combined, all: Combined)
    requires CombineOwes(a, |a|, b, |b|, c, all)
    ensures c == all
  {
  }

  lemma CombineFacts(left: seq<Point>, right: seq<Point>)
    requires UniqueIds(multiset(left)) && UniqueIds(multiset(right))
    ensures IsCombined(CombineRun(SortById(left), SortById(right)), left, right)
  {
    hide SortById, CombineRun, UniqueIds, HasId, Strict, Undisputed;
    SortByIdSpec(left);
    SortByIdSpec(right);
    SamePoints(SortById(left), left);
    SamePoints(SortById(right), right);
    CombineRunSpec(SortById(left), SortById(right));
    SameDisputes(SortById(left), left, SortById(right), right);
  }

  lemma SameDisputes(a: seq<Point>, a': seq<Point>, b: seq<Point>, b': seq<Point>)
    requires (forall p :: p in a <==> p in a') && (forall p :: p in b <==> p in b')
    ensures forall p :: Undisputed(p, a, b) == Undisputed(p, a', b')
  {
  }

  /** Merges two runs by id; two different points with one id go to the conflict run. */
  method MergeByIdWithConflict(left: seq<Point>, right: seq<Point>) returns (c: Combined)
    ensures c == CombineRun(SortById(left), SortById(right))
    ensures UniqueIds(multiset(left)) && UniqueIds(multiset(right)) ==> IsCombined(c, left, right)
  {
    hide SortById, UniqueIds, Strict, CombineOwes, CombineRun, IsCombined;
    var a, b := SortById(left), SortById(right);
    if UniqueIds(multiset(left)) && UniqueIds(multiset(right)) {
      CombineFacts(left, right);
    }
    ghost var all := CombineRun(a, b);
    c := Combined([], []);
    CombineStart(a, b);
    var i, j := 0, 0;
    while i < |a| && j < |b|
      invariant i <= |a| && j <= |b| && CombineOwes(a, i, b, j, c, all)
    {
      CombineStep(a, i, b, j, c, all);
      if a[i].id == b[j].id {
        if a[i] != b[j] {
          c := c.(conflict := c.conflict + [a[i], b[j]]);
        } else {
          c := c.(agreed := c.agreed + [a[i]]);
        }
        i, j := i + 1, j + 1;
      } else if a[i].id < b[j].id {
        c := c.(agreed := c.agreed + [a[i]]);
        i := i + 1;
      } else {
        c := c.(agreed := c.agreed + [b[j]]);
        j := j + 1;
      }
    }
    while i < |a|
      invariant i <= |a| && j <= |b| && (i < |a| ==> j == |b|) && CombineOwes(a, i, b, j, c, all)
    {
      CombineStep(a, i, b, j, c, all);
      c := c.(agreed := c.agreed + [a[i]]);
      i := i + 1;
    }
    while j < |b|
      invariant i == |a| && j <= |b| && CombineOwes(a, i, b, j, c, all)
    {
      CombineStep(a, i, b, j, c, all);
      c := c.(agreed := c.agreed + [b[j]]);
      j := j + 1;
    }
    CombineDone(a, b, c, all);
  }

  // ----- the merge of two branches -----

  ghost function DeltaOf(b: Trie, t: Trie): Delta {
    FilterRun(SortById(DiffAdd(b, t)), SortById(DiffRemove(b, t)))
  }

  ghost function Combine(a: seq<Point>, b: seq<Point>): Combined {
    CombineRun(SortById(a), SortById(b))
  }

  ghost function MergedInsert(b: Trie, t1: Trie, t2: Trie): seq<Point> {
    Combine(DeltaOf(b, t1).inserted, DeltaOf(b, t2).inserted).agreed
  }

  /** A deletion in one branch, together with whatever the other branch updated and nobody disputes. */
  ghost function HalfDelete(b: Trie, t1: Trie, t2: Trie): seq<Point> {
    Combine(DeltaOf(b, t1).deleted, DeltaOf(b, t2).updated).agreed
  }

  ghost function MergedTrie(b: Trie, t1: Trie, t2: Trie, leafSize: nat): Trie {
    CommitTrie(b, MergedInsert(b, t1, t2), HalfDelete(b, t1, t2) + HalfDelete(b, t2, t1), leafSize)
  }

  ghost predicate IsVersion(t: Trie, leafSize: nat) {
    IsRoot(t, leafSize) && UniqueIds(multiset(Contents(t)))
  }

  lemma DeltaIsUnique(b: Trie, t: Trie, leafSize: nat)
    requires IsVersion(b, leafSize) && IsVersion(t, leafSize)
    ensures UniqueIds(multiset(DiffAdd(b, t))) && UniqueIds(multiset(DiffRemove(b, t)))
    ensures IsDelta(DeltaOf(b, t), DiffAdd(b, t), DiffRemove(b, t))
    ensures UniqueIds(multiset(DeltaOf(b, t).inserted)) && UniqueIds(multiset(DeltaOf(b, t).deleted))
    ensures UniqueIds(multiset(DeltaOf(b, t).updated))
  {
    hide DiffAdd, DiffRemove, FilterRun, SortById, HasId, UniqueIds, Strict, IsRoot;
    DiffExact(b, t, leafSize);
    UniqueSub(multiset(DiffAdd(b, t)), multiset(Contents(t)));
    UniqueSub(multiset(DiffRemove(b, t)), multiset(Contents(b)));
    FilterFacts(DiffAdd(b, t), DiffRemove(b, t));
    var d := DeltaOf(b, t);
    StrictIsUnique(d.inserted);
    StrictIsUnique(d.deleted);
    StrictIsUnique(d.updated);
  }

  lemma UniqueSub(m: multiset<Point>, n: multiset<Point>)
    requires m <= n && UniqueIds(n)
    ensures UniqueIds(m)
  {
    forall p
      ensures m[p] <= n[p] && (p in m ==> p in n)
    {
    }
  }

  /** Two diffs against the base, classified, combined and committed. */
  method Merge3(tree: Tree, base: Node?, node1: Node?, node2: Node?)
    returns (newVersion: Node, conflictInsert: seq<Point>, conflictUpdate: seq<Point>, conflictDelete: seq<Point>)
    requires ValidOrNull(base) && ValidOrNull(node1) && ValidOrNull(node2)
    requires IsRoot(TrieOf(base), tree.leafSize)
    requires IsRoot(TrieOf(node1), tree.leafSize) && IsRoot(TrieOf(node2), tree.leafSize)
    ensures newVersion.Valid()
    ensures newVersion.trie == MergedTrie(TrieOf(base), TrieOf(node1), TrieOf(node2), tree.leafSize)
    ensures var d1, d2 := DeltaOf(TrieOf(base), TrieOf(node1)), DeltaOf(TrieOf(base), TrieOf(node2));
            && conflictInsert == Combine(d1.inserted, d2.inserted).conflict
            && conflictUpdate == Combine(d1.updated, d2.updated).conflict
            && conflictDelete == Combine(d1.deleted, d2.updated).conflict + Combine(d2.deleted, d1.updated).conflict
  {
    hide IsRoot, UniqueIds, IsDelta, IsCombined, SortById, FilterRun, CombineRun, DiffAdd, DiffRemove, CommitTrie,
        Node.Valid;
    ghost var b, t1, t2 := TrieOf(base), TrieOf(node1), TrieOf(node2);
    var d1 := BranchDelta(base, node1, tree.leafSize);
    var d2 := BranchDelta(base, node2, tree.leafSize);
    hide DeltaOf;
    var insert := MergeByIdWithConflict(d1.inserted, d2.inserted);
    var update := MergeByIdWithConflict(d1.updated, d2.updated);
    var delete1 := MergeByIdWithConflict(d1.deleted, d2.updated);
    var delete2 := MergeByIdWithConflict(d2.deleted, d1.updated);
    newVersion := tree.Commit(base, insert.agreed, delete1.agreed + delete2.agreed);
    conflictInsert, conflictUpdate := insert.conflict, update.conflict;
    conflictDelete := delete1.conflict + delete2.conflict;
  }

  method BranchDelta(base: Node?, node: Node?, ghost leafSize: nat) returns (d: Delta)
    requires ValidOrNull(base) && ValidOrNull(node)
    requires IsRoot(TrieOf(base), leafSize) && IsRoot(TrieOf(node), leafSize)
    ensures d == DeltaOf(TrieOf(base), TrieOf(node))
  {
    hide IsRoot, UniqueIds, IsDelta, SortById, FilterRun, DiffAdd, DiffRemove, Node.Valid;
    var add, remove := TwoVersionDiff(base, node, leafSize);
    d := FilterDiffResults(add, remove);
  }

  /** Naming the branches the other way round gives the same tree. */
  lemma MergeSymmetric(b: Trie, t1: Trie, t2: Trie, leafSize: nat)
    ensures MergedTrie(b, t1, t2, leafSize) == MergedTrie(b, t2, t1, leafSize)
  {
    CombineSymmetric(SortById(DeltaOf(b, t1).inserted), SortById(DeltaOf(b, t2).inserted));
    var x, y := HalfDelete(b, t1, t2), HalfDelete(b, t2, t1);
    assert multiset(x + y) == multiset(y + x);
    SortSpec(x + y);
    SortSpec(y + x);
    SortedUnique(Sort(x + y), Sort(y + x));
  }

  /** The id is gone in c. */
  ghost predicate Absent(p: Point, c: seq<Point>) { !HasId(c, p.id) }

  /** The id is in c, at another place. */
  ghost predicate Moved(p: Point, c: seq<Point>) { HasId(c, p.id) && p !in c }

  /** A base point outlives the merge unless some branch deleted it and the other did not move it. */
  ghost predicate Survives(p: Point, cb: seq<Point>, c1: seq<Point>, c2: seq<Point>) {
    p in cb && !(Absent(p, c1) && !Moved(p, c2)) && !(Absent(p, c2) && !Moved(p, c1))
  }

  /** A point with a new id arrives unless the branches put that id at two places. */
  ghost predicate Arrives(p: Point, cb: seq<Point>, c1: seq<Point>, c2: seq<Point>) {
    Absent(p, cb) && (p in c1 || p in c2) && Undisputed(p, c1, c2)
  }

  lemma UniqueMinus(a: seq<Point>, c: seq<Point>, d: seq<Point>)
    requires UniqueIds(multiset(a)) && multiset(d) == multiset(a) - multiset(c)
    ensures forall p :: p in d <==> p in a && p !in c
  {
    forall p
      ensures p in d <==> p in a && p !in c
    {
      assert p in d <==> multiset(d)[p] > 0;
      assert p in a <==> multiset(a)[p] > 0;
      assert p in c <==> multiset(c)[p] > 0;
      assert multiset(a)[p] <= 1;
    }
  }

  /** The classification in terms of the two versions themselves. */
  lemma DeltaMeaning(b: Trie, t: Trie, leafSize: nat)
    requires IsVersion(b, leafSize) && IsVersion(t, leafSize)
    ensures var cb, c, d := Contents(b), Contents(t), DeltaOf(b, t);
            && (forall p :: p in d.inserted <==> p in c && Absent(p, cb))
            && (forall p :: p in d.deleted <==> p in cb && Absent(p, c))
            && (forall p :: p in d.updated <==> p in c && p !in cb && HasId(cb, p.id))
  {
    var cb, c, d, add, remove := Contents(b), Contents(t), DeltaOf(b, t), DiffAdd(b, t), DiffRemove(b, t);
    DeltaIsUnique(b, t, leafSize);
    DiffExact(b, t, leafSize);
    hide DiffAdd, DiffRemove, DeltaOf;
    UniqueMinus(c, cb, add);
    UniqueMinus(cb, c, remove);
    OneIdOnePoint(cb);
    OneIdOnePoint(c);
    hide UniqueIds, IsRoot, Strict;
    forall p
      ensures p in add && !HasId(remove, p.id) <==> p in c && Absent(p, cb)
      ensures p in remove && !HasId(add, p.id) <==> p in cb && Absent(p, c)
      ensures p in add && HasId(remove, p.id) <==> p in c && p !in cb && HasId(cb, p.id)
    {
      if p in c && p !in cb && HasId(cb, p.id) {
        var q :| q in cb && q.id == p.id;
        assert q !in c;
        assert q in remove;
      }
      if p in cb && p !in c && HasId(c, p.id) {
        var q :| q in c && q.id == p.id;
        assert q !in cb;
        assert q in add;
      }
    }
  }

  ghost predicate OnePointPerId(s: seq<Point>) {
    forall p, q :: p in s && q in s && p.id == q.id ==> p == q
  }

  lemma OneIdOnePoint(s: seq<Point>)
    requires UniqueIds(multiset(s))
    ensures OnePointPerId(s)
  {
    forall p | p in s
      ensures p in multiset(s)
    {
    }
  }

  lemma HalfDeleteCore(cb: seq<Point>, c1: seq<Point>, c2: seq<Point>, del1: seq<Point>, upd2: seq<Point>,
        c: Combined, p: Point)
    requires OnePointPerId(cb) && OnePointPerId(c2) && p in cb
    requires forall q :: q in del1 <==> q in cb && Absent(q, c1)
    requires forall q :: q in upd2 <==> q in c2 && q !in cb && HasId(cb, q.id)
    requires IsCombined(c, del1, upd2)
    ensures p in c.agreed <==> Absent(p, c1) && !Moved(p, c2)
  {
    hide Strict;
    if Moved(p, c2) {
      var q :| q in c2 && q.id == p.id;
      assert q in upd2;
      assert !Undisputed(p, del1, upd2);
    } else if p in del1 {
      assert Undisputed(p, del1, upd2);
    }
  }

  /** A deletion takes effect unless the other branch moved the point. */
  lemma HalfDeleteMeaning(b: Trie, t1: Trie, t2: Trie, leafSize: nat, p: Point)
    requires IsVersion(b, leafSize) && IsVersion(t1, leafSize) && IsVersion(t2, leafSize)
    requires p in Contents(b)
    ensures p in HalfDelete(b, t1, t2) <==> Absent(p, Contents(t1)) && !Moved(p, Contents(t2))
  {
    hide DeltaOf, CombineRun, SortById, UniqueIds, IsRoot, Strict, HasId, Absent, Moved, IsDelta, IsCombined, Contents;
    var d1, d2 := DeltaOf(b, t1), DeltaOf(b, t2);
    DeltaMeaning(b, t1, leafSize);
    DeltaMeaning(b, t2, leafSize);
    DeltaIsUnique(b, t1, leafSize);
    DeltaIsUnique(b, t2, leafSize);
    CombineFacts(d1.deleted, d2.updated);
    OneIdOnePoint(Contents(b));
    OneIdOnePoint(Contents(t2));
    HalfDeleteCore(Contents(b), Contents(t1), Contents(t2), d1.deleted, d2.updated, Combine(d1.deleted, d2.updated), p);
  }

  lemma MergedInsertCore(cb: seq<Point>, c1: seq<Point>, c2: seq<Point>, ins1: seq<Point>, ins2: seq<Point>,
        c: Combined, p: Point)
    requires forall q :: q in ins1 <==> q in c1 && Absent(q, cb)
    requires forall q :: q in ins2 <==> q in c2 && Absent(q, cb)
    requires IsCombined(c, ins1, ins2)
    ensures p in c.agreed <==> Arrives(p, cb, c1, c2)
    ensures p in c.conflict <==> Absent(p, cb) && (p in c1 || p in c2) && !Undisputed(p, c1, c2)
  {
    hide Strict;
    if Absent(p, cb) {
      assert forall q: Point :: q.id == p.id ==> Absent(q, cb);
      assert Undisputed(p, ins1, ins2) <==> Undisputed(p, c1, c2);
    }
  }

  /** What arrives is what both branches can agree on; what they cannot is reported. */
  lemma MergedInsertMeaning(b: Trie, t1: Trie, t2: Trie, leafSize: nat, p: Point)
    requires IsVersion(b, leafSize) && IsVersion(t1, leafSize) && IsVersion(t2, leafSize)
    ensures p in MergedInsert(b, t1, t2) <==> Arrives(p, Contents(b), Contents(t1), Contents(t2))
    ensures p in Combine(DeltaOf(b, t1).inserted, DeltaOf(b, t2).inserted).conflict <==>
              && Absent(p, Contents(b)) && (p in Contents(t1) || p in Contents(t2))
              && !Undisputed(p, Contents(t1), Contents(t2))
    ensures UniqueIds(multiset(MergedInsert(b, t1, t2)))
  {
    hide DeltaOf, CombineRun, SortById, UniqueIds, IsRoot, Strict, HasId, Absent, Undisputed, Arrives, IsDelta,
        Contents;
    var d1, d2 := DeltaOf(b, t1), DeltaOf(b, t2);
    DeltaMeaning(b, t1, leafSize);
    DeltaMeaning(b, t2, leafSize);
    DeltaIsUnique(b, t1, leafSize);
    DeltaIsUnique(b, t2, leafSize);
    CombineFacts(d1.inserted, d2.inserted);
    var c := Combine(d1.inserted, d2.inserted);
    StrictIsUnique(c.agreed);
    MergedInsertCore(Contents(b), Contents(t1), Contents(t2), d1.inserted, d2.inserted, c, p);
  }

  lemma MergeCount(b: Trie, t1: Trie, t2: Trie, leafSize: nat, p: Point)
    requires IsVersion(b, leafSize) && IsVersion(t1, leafSize) && IsVersion(t2, leafSize)
    ensures var cb, c1, c2 := Contents(b), Contents(t1), Contents(t2);
            multiset(Contents(MergedTrie(b, t1, t2, leafSize)))[p]
            == if Survives(p, cb, c1, c2) || Arrives(p, cb, c1, c2) then 1 else 0
  {
    var cb, c1, c2 := Contents(b), Contents(t1), Contents(t2);
    var ins, del := MergedInsert(b, t1, t2), HalfDelete(b, t1, t2) + HalfDelete(b, t2, t1);
    RootContents(b, leafSize);
    CommittedContents(cb, ins, del);
    VersionIsRoot(Committed(cb, ins, del), leafSize);
    hide Committed, Version, Sorted, HalfDelete, MergedInsert, IsRoot;
    MergedInsertMeaning(b, t1, t2, leafSize, p);
    if p in cb {
      HalfDeleteMeaning(b, t1, t2, leafSize, p);
      HalfDeleteMeaning(b, t2, t1, leafSize, p);
    }
    CountOfPatch(cb, ins, del, p);
  }

  lemma CountOfPatch(s: seq<Point>, ins: seq<Point>, del: seq<Point>, p: Point)
    requires UniqueIds(multiset(s)) && UniqueIds(multiset(ins)) && (p in ins ==> p !in s)
    ensures (multiset(s) - multiset(del) + multiset(ins))[p] == if (p in s && p !in del) || p in ins then 1 else 0
  {
    assert p in s <==> p in multiset(s);
    assert p in ins <==> p in multiset(ins);
    assert p in del <==> p in multiset(del);
  }

  /**
   * Exactly what a merge holds, for any two branches of any base with unique ids:
   * base points that no branch deletes without the other moving them, and points
   * with new ids unless the branches put the id at two places.  In particular an
   * update is never applied: the base point stays where it was.
   */
  lemma MergeExact(b: Trie, t1: Trie, t2: Trie, leafSize: nat, p: Point)
    requires IsVersion(b, leafSize) && IsVersion(t1, leafSize) && IsVersion(t2, leafSize)
    ensures var cb, c1, c2 := Contents(b), Contents(t1), Contents(t2);
            var gone1, gone2 := forall q :: q in c1 ==> q.id != p.id, forall q :: q in c2 ==> q.id != p.id;
            var stays := && p in cb
                         && (gone1 ==> !gone2 && p !in c2)
                         && (gone2 ==> !gone1 && p !in c1);
            var comes := && (forall q :: q in cb ==> q.id != p.id) && (p in c1 || p in c2)
                         && forall q :: (q in c1 || q in c2) && q.id == p.id ==> q == p;
            multiset(Contents(MergedTrie(b, t1, t2, leafSize)))[p] == if stays || comes then 1 else 0
  {
    hide MergedTrie, IsRoot, UniqueIds, Contents;
    MergeCount(b, t1, t2, leafSize, p);
  }

  /** The conflicts of two insertions: one new id, put at two places. */
  lemma InsertConflicts(b: Trie, t1: Trie, t2: Trie, leafSize: nat, p: Point)
    requires IsVersion(b, leafSize) && IsVersion(t1, leafSize) && IsVersion(t2, leafSize)
    ensures var cb, c1, c2 := Contents(b), Contents(t1), Contents(t2);
            p in Combine(DeltaOf(b, t1).inserted, DeltaOf(b, t2).inserted).conflict <==>
              && (p in c1 || p in c2) && (forall q :: q in cb ==> q.id != p.id)
              && exists q :: (q in c1 || q in c2) && q.id == p.id && q != p
  {
    hide DeltaOf, CombineRun, SortById, IsRoot, UniqueIds, Contents;
    MergedInsertMeaning(b, t1, t2, leafSize, p);
  }

  /** The conflicts of two updates: one old id, moved to two places. */
  lemma UpdateConflicts(b: Trie, t1: Trie, t2: Trie, leafSize: nat, p: Point)
    requires IsVersion(b, leafSize) && IsVersion(t1, leafSize) && IsVersion(t2, leafSize)
    ensures var cb, c1, c2 := Contents(b), Contents(t1), Contents(t2);
            p in Combine(DeltaOf(b, t1).updated, DeltaOf(b, t2).updated).conflict <==>
              && (p in c1 || p in c2) && p !in cb && (exists o :: o in cb && o.id == p.id)
              && exists q :: (q in c1 || q in c2) && q !in cb && q.id == p.id && q != p
  {
    hide DeltaOf, CombineRun, SortById, IsRoot, UniqueIds, Contents, IsDelta, Strict;
    var d1, d2 := DeltaOf(b, t1), DeltaOf(b, t2);
    DeltaMeaning(b, t1, leafSize);
    DeltaMeaning(b, t2, leafSize);
    DeltaIsUnique(b, t1, leafSize);
    DeltaIsUnique(b, t2, leafSize);
    CombineFacts(d1.updated, d2.updated);
  }

  /** The conflicts of a deletion and an update: a base point one branch deletes and the place the other moves it to. */
  lemma DeleteConflicts(b: Trie, t1: Trie, t2: Trie, leafSize: nat, p: Point)
    requires IsVersion(b, leafSize) && IsVersion(t1, leafSize) && IsVersion(t2, leafSize)
    ensures var cb, c1, c2 := Contents(b), Contents(t1), Contents(t2);
            p in Combine(DeltaOf(b, t1).deleted, DeltaOf(b, t2).updated).conflict <==>
              exists o, q :: && o in cb && q in c2 && q.id == o.id && q != o && (p == o || p == q)
                             && forall x :: x in c1 ==> x.id != o.id
  {
    hide DeltaOf, CombineRun, SortById, IsRoot, UniqueIds, Contents, IsDelta, Strict;
    var d1, d2 := DeltaOf(b, t1), DeltaOf(b, t2);
    DeltaMeaning(b, t1, leafSize);
    DeltaMeaning(b, t2, leafSize);
    DeltaIsUnique(b, t1, leafSize);
    DeltaIsUnique(b, t2, leafSize);
    CombineFacts(d1.deleted, d2.updated);
    OneIdOnePoint(Contents(b));
    OneIdOnePoint(Contents(t2));
    DeleteConflictsCore(Contents(b), Contents(t1), Contents(t2), d1.deleted, d2.updated,
                        Combine(d1.deleted, d2.updated), p);
  }

  lemma DeleteConflictsCore(cb: seq<Point>, c1: seq<Point>, c2: seq<Point>, del1: seq<Point>, upd2: seq<Point>,
                            c: Combined, p: Point)
    requires OnePointPerId(cb) && OnePointPerId(c2)
    requires forall q :: q in del1 <==> q in cb && Absent(q, c1)
    requires forall q :: q in upd2 <==> q in c2 && q !in cb && HasId(cb, q.id)
    requires IsCombined(c, del1, upd2)
    ensures p in c.conflict <==>
              exists o, q :: && o in cb && q in c2 && q.id == o.id && q != o && (p == o || p == q)
                             && forall x :: x in c1 ==> x.id != o.id
  {
    hide Strict;
    if p in c.conflict {
      if p in del1 {
        var q :| (q in del1 || q in upd2) && q.id == p.id && q != p;
        assert q in upd2;
      } else {
        var o :| (o in del1 || o in upd2) && o.id == p.id && o != p;
        assert o in del1;
      }
    }
    if o, q :| o in cb && q in c2 && q.id == o.id && q != o && (p == o || p == q)
               && forall x :: x in c1 ==> x.id != o.id {
      assert q !in cb && HasId(cb, q.id) && Absent(o, c1);
      assert o in del1 && q in upd2;
    }
  }

  /** Item i of a conflict run, with the one that follows it. */
  ghost predicate Paired(c: seq<Point>, i: nat, a: seq<Point>, b: seq<Point>)
    requires i < |c|
  {
    && c[i] in (if i % 2 == 0 then a else b)
    && (i % 2 == 0 ==> i + 1 < |c| && c[i].id == c[i + 1].id && c[i] != c[i + 1])
    && (i % 2 == 1 && i + 1 < |c| ==> c[i].id < c[i + 1].id)
  }

  lemma PairedTail(c: seq<Point>, i: nat, a: seq<Point>, b: seq<Point>, a': seq<Point>, b': seq<Point>)
    requires i < |c| && Paired(c, i, a, b) && (forall p :: p in a ==> p in a') && (forall p :: p in b ==> p in b')
    ensures Paired(c, i, a', b')
  {
  }

  lemma PairAhead(x: Point, y: Point, c: seq<Point>, i: nat, a: seq<Point>, b: seq<Point>)
    requires x in a && y in b && x.id == y.id && x != y && i < |c| + 2
    requires c != [] ==> y.id < c[0].id
    requires 1 < i ==> Paired(c, i - 2, a, b)
    ensures Paired([x, y] + c, i, a, b)
  {
  }

  lemma {:induction false} PairAt(a: seq<Point>, b: seq<Point>, i: nat)
    requires Strict(a) && Strict(b) && i < |CombineRun(a, b).conflict|
    ensures Paired(CombineRun(a, b).conflict, i, a, b)
  {
    StrictTail(a);
    StrictTail(b);
    hide Strict, HasId, Paired;
    var later := if a[0].id == b[0].id then CombineRun(a[1..], b[1..])
                 else if a[0].id < b[0].id then CombineRun(a[1..], b) else CombineRun(a, b[1..]);
    if a[0].id != b[0].id {
      if a[0].id < b[0].id {
        PairAt(a[1..], b, i);
        PairedTail(later.conflict, i, a[1..], b, a, b);
      } else {
        PairAt(a, b[1..], i);
        PairedTail(later.conflict, i, a, b[1..], a, b);
      }
    } else if a[0] == b[0] {
      PairAt(a[1..], b[1..], i);
      PairedTail(later.conflict, i, a[1..], b[1..], a, b);
    } else {
      if 1 < i {
        PairAt(a[1..], b[1..], i - 2);
        PairedTail(later.conflict, i - 2, a[1..], b[1..], a, b);
      }
      if later.conflict != [] {
        PairAt(a[1..], b[1..], 0);
        FirstInRun(later.conflict, a[1..], b[1..]);
      }
      PairAhead(a[0], b[0], later.conflict, i, a, b);
    }
  }

  lemma FirstInRun(c: seq<Point>, a: seq<Point>, b: seq<Point>)
    requires c != [] && Paired(c, 0, a, b)
    ensures c[0] in a
  {
  }

  /** Conflicts come in pairs, the first branch's point before the second's, by increasing id. */
  lemma ConflictPairs(left: seq<Point>, right: seq<Point>, i: nat)
    requires UniqueIds(multiset(left)) && UniqueIds(multiset(right)) && i < |Combine(left, right).conflict|
    ensures var c := Combine(left, right).conflict;
            && c[i] in (if i % 2 == 0 then left else right)
            && (i % 2 == 0 ==> i + 1 < |c| && c[i].id == c[i + 1].id && c[i] != c[i + 1])
            && (i % 2 == 1 && i + 1 < |c| ==> c[i].id < c[i + 1].id)
  {
    hide SortById, CombineRun, UniqueIds, Strict;
    SortByIdSpec(left);
    SortByIdSpec(right);
    SamePoints(SortById(left), left);
    SamePoints(SortById(right), right);
    PairAt(SortById(left), SortById(right), i);
  }

  /** The merged version has unique ids again, so it can be a branch of the next merge. */
  lemma MergeKeepsUniqueIds(b: Trie, t1: Trie, t2: Trie, leafSize: nat)
    requires IsVersion(b, leafSize) && IsVersion(t1, leafSize) && IsVersion(t2, leafSize)
    ensures IsVersion(MergedTrie(b, t1, t2, leafSize), leafSize)
  {
    hide UniqueIds, IsRoot, Contents, Survives, Arrives, MergedInsert, HalfDelete, CommitTrie;
    var m := Contents(MergedTrie(b, t1, t2, leafSize));
    CommitTrieContents(b, MergedInsert(b, t1, t2), HalfDelete(b, t1, t2) + HalfDelete(b, t2, t1), leafSize);
    OneIdOnePoint(Contents(b));
    hide MergedTrie;
    forall p
      ensures multiset(m)[p] <= 1
      ensures p in multiset(m) ==>
                || Survives(p, Contents(b), Contents(t1), Contents(t2))
                || Arrives(p, Contents(b), Contents(t1), Contents(t2))
    {
      MergeCount(b, t1, t2, leafSize, p);
    }
    UniqueMerged(Contents(b), Contents(t1), Contents(t2), multiset(m));
  }

  lemma UniqueMerged(cb: seq<Point>, c1: seq<Point>, c2: seq<Point>, m: multiset<Point>)
    requires OnePointPerId(cb) && forall p :: m[p] <= 1
    requires forall p :: p in m ==> Survives(p, cb, c1, c2) || Arrives(p, cb, c1, c2)
    ensures UniqueIds(m)
  {
    hide Absent, Moved;
    forall p, q | p in m && q in m && p.id == q.id
      ensures p == q
    {
      if p in cb && q !in cb {
        SomeAbsent(q, p, cb);
      } else if q in cb && p !in cb {
        SomeAbsent(p, q, cb);
      }
    }
  }

  lemma SomeAbsent(p: Point, q: Point, s: seq<Point>)
    requires q in s && p.id == q.id
    ensures !Absent(p, s)
  {
  }

  /** Two branches that put a new id at two places: both points are reported, neither arrives. */
  lemma DisagreementIsReported(b: Trie, t1: Trie, t2: Trie, leafSize: nat, p: Point, q: Point)
    requires IsVersion(b, leafSize) && IsVersion(t1, leafSize) && IsVersion(t2, leafSize)
    requires p in Contents(t1) && q in Contents(t2) && p.id == q.id && p != q && Absent(p, Contents(b))
    ensures var conflict := Combine(DeltaOf(b, t1).inserted, DeltaOf(b, t2).inserted).conflict;
            p in conflict && q in conflict
    ensures var m := Contents(MergedTrie(b, t1, t2, leafSize)); p !in m && q !in m
  {
    hide UniqueIds, IsRoot, Contents, MergedTrie, MergedInsert, Survives, Combine, DeltaOf, HasId;
    assert !Undisputed(p, Contents(t1), Contents(t2)) && !Undisputed(q, Contents(t1), Contents(t2));
    assert Absent(q, Contents(b)) && p !in Contents(b) && q !in Contents(b) by {
      SameAbsence(p, q, Contents(b));
    }
    MergedInsertMeaning(b, t1, t2, leafSize, p);
    MergedInsertMeaning(b, t1, t2, leafSize, q);
    var m := Contents(MergedTrie(b, t1, t2, leafSize));
    NotSurviving(p, Contents(b), Contents(t1), Contents(t2));
    NotSurviving(q, Contents(b), Contents(t1), Contents(t2));
    MergeCount(b, t1, t2, leafSize, p);
    MergeCount(b, t1, t2, leafSize, q);
    assert p in m <==> p in multiset(m);
    assert q in m <==> q in multiset(m);
  }

  lemma NotSurviving(p: Point, cb: seq<Point>, c1: seq<Point>, c2: seq<Point>)
    requires p !in cb
    ensures !Survives(p, cb, c1, c2)
  {
  }

  lemma SameAbsence(p: Point, q: Point, s: seq<Point>)
    requires Absent(p, s) && p.id == q.id
    ensures Absent(q, s) && p !in s && q !in s
  {
  }
}
