/**
 * The two-finger loops over sorted runs: comparing two leaves into a pair of
 * preallocated buffers, and removing a sorted batch from a leaf.
 */
module Operations {
  import opened Points
  import opened Sequences

  /** Two fixed-size buffers with their fill counts. */
  class DiffType {
    var add: array<Point>
    var remove: array<Point>
    var addCnt: nat
    var removeCnt: nat

    ghost predicate Valid()
      reads this
    {
      add != remove && addCnt <= add.Length && removeCnt <= remove.Length
    }

    /** What has been written so far: to `add` (true) or to `remove` (false). */
    ghost function Side(toAdd: bool): seq<Point>
      requires Valid()
      reads this, add, remove
    {
      if toAdd then add[..addCnt] else remove[..removeCnt]
    }

    ghost function Added(): seq<Point>
      requires Valid()
      reads this, add, remove
    {
      Side(true)
    }

    ghost function Removed(): seq<Point>
      requires Valid()
      reads this, add, remove
    {
      Side(false)
    }

    ghost function Capacity(toAdd: bool): nat
      reads this
    {
      if toAdd then add.Length else remove.Length
    }

    constructor (addSz: nat, removeSz: nat)
      ensures Valid() && fresh(add) && fresh(remove)
      ensures add.Length == addSz && remove.Length == removeSz
      ensures Added() == [] && Removed() == []
    {
      addCnt, removeCnt := 0, 0;
      add := new Point[addSz];
      remove := new Point[removeSz];
    }

    method AddPoint(p: Point, reverse: bool)
      requires Valid() && |Side(!reverse)| < Capacity(!reverse)
      modifies this`addCnt, this`removeCnt, add, remove
      ensures Valid()
      ensures Side(!reverse) == old(Side(!reverse)) + [p]
      ensures Side(reverse) == old(Side(reverse))
      ensures add[..addCnt] == old(add[..addCnt]) + if reverse then [] else [p]
      ensures remove[..removeCnt] == old(remove[..removeCnt]) + if reverse then [p] else []
    {
      if !reverse {
        add[addCnt] := p;
        addCnt := addCnt + 1;
      } else {
        remove[removeCnt] := p;
        removeCnt := removeCnt + 1;
      }
    }

    method RemovePoint(p: Point, reverse: bool)
      requires Valid() && |Side(reverse)| < Capacity(reverse)
      modifies this`addCnt, this`removeCnt, add, remove
      ensures Valid()
      ensures Side(reverse) == old(Side(reverse)) + [p]
      ensures Side(!reverse) == old(Side(!reverse))
      ensures add[..addCnt] == old(add[..addCnt]) + if reverse then [p] else []
      ensures remove[..removeCnt] == old(remove[..removeCnt]) + if reverse then [] else [p]
    {
      if !reverse {
        remove[removeCnt] := p;
        removeCnt := removeCnt + 1;
      } else {
        add[addCnt] := p;
        addCnt := addCnt + 1;
      }
    }

    /** Shrinks both buffers to what was written. */
    method Compact()
      requires Valid()
      modifies this
      ensures Valid() && fresh(add) && fresh(remove)
      ensures add[..] == old(add[..addCnt]) && remove[..] == old(remove[..removeCnt])
    {
      var a, r := add, remove;
      add := new Point[addCnt](i requires 0 <= i < a.Length reads a => a[i]);
      remove := new Point[removeCnt](i requires 0 <= i < r.Length reads r => r[i]);
    }
  }

  /** 0: same key, 1: first smaller, 2: second smaller. */
  function PtCmp(p: Point, q: Point): nat {
    if p.Code() == q.Code() then
      if p.id == q.id then 0 else if p.id < q.id then 1 else 2
    else if p.Code() < q.Code() then 1 else 2
  }

  /** One step of the two-finger loop consumes the head with the smaller key, or both heads. */
  lemma CompareHeads(a: seq<Point>, b: seq<Point>, f: Point -> bool)
    requires a != [] && b != []
    ensures PtCmp(a[0], b[0]) == 0 ==> Minus(a, b) == Minus(a[1..], b[1..])
    ensures PtCmp(a[0], b[0]) == 1 ==> Filter(Minus(a, b), f) == Kept(a[0], f) + Filter(Minus(a[1..], b), f)
    ensures PtCmp(a[0], b[0]) == 2 ==> Minus(a, b) == Minus(a, b[1..])
  {
    hide Filter;
    if PtCmp(a[0], b[0]) == 1 {
      var m := Minus(a, b);
      assert m == [a[0]] + Minus(a[1..], b);
      assert m[0] == a[0] && m[1..] == Minus(a[1..], b);
      FilterHead(m, f);
    }
  }

  /** all[..n] is written; writing k leaves rest to be written. */
  lemma Advance(all: seq<Point>, n: nat, k: seq<Point>, rest: seq<Point>)
    requires n <= |all| && all[n..] == k + rest
    ensures n + |k| <= |all| && all[..n + |k|] == all[..n] + k && all[n + |k|..] == rest
  {
    assert |all| == n + |k| + |rest|;
    assert forall i :: 0 <= i < |k| ==> all[n + i] == all[n..][i] == k[i];
    assert forall i :: 0 <= i < |rest| ==> all[n + |k| + i] == all[n..][|k| + i] == rest[i];
  }

  /** From indices i and j on, the comparison still owes all[n..]. */
  ghost predicate Owes(a: seq<Point>, i: nat, b: seq<Point>, j: nat, f: Point -> bool, all: seq<Point>, n: nat) {
    i <= |a| && j <= |b| && n <= |all| && Filter(Minus(a[i..], b[j..]), f) == all[n..]
  }

  lemma StartOwes(a: seq<Point>, b: seq<Point>, f: Point -> bool, all: seq<Point>, n: nat)
    requires n <= |all| && all[n..] == Filter(Minus(a, b), f)
    ensures Owes(a, 0, b, 0, f, all, n)
  {
    assert a[0..] == a && b[0..] == b;
  }

  /** One loop step: what it writes to all, and what is owed after it. */
  lemma StepOwes(a: seq<Point>, i: nat, b: seq<Point>, j: nat, f: Point -> bool, all: seq<Point>, n: nat)
    requires Owes(a, i, b, j, f, all, n) && i < |a| && j < |b|
    ensures n + (if PtCmp(a[i], b[j]) == 1 then |Kept(a[i], f)| else 0) <= |all|
    ensures PtCmp(a[i], b[j]) == 0 ==> Owes(a, i + 1, b, j + 1, f, all, n)
    ensures PtCmp(a[i], b[j]) == 1 ==>
              var k := Kept(a[i], f);
              Owes(a, i + 1, b, j, f, all, n + |k|) && all[..n + |k|] == all[..n] + k
    ensures PtCmp(a[i], b[j]) == 2 ==> Owes(a, i, b, j + 1, f, all, n)
  {
    hide Filter, Minus, PtCmp;
    var A, B := a[i..], b[j..];
    assert A[1..] == a[i + 1..] && B[1..] == b[j + 1..];
    CompareHeads(A, B, f);
    if PtCmp(a[i], b[j]) == 1 {
      Advance(all, n, Kept(a[i], f), Filter(Minus(A[1..], B), f));
    }
  }

  lemma PtCmpSymmetric(p: Point, q: Point)
    ensures PtCmp(p, q) <= 2 && PtCmp(q, p) == (3 - PtCmp(p, q)) % 3
  {
  }

  /** When one run is used up the rest of the other is owed. */
  lemma OwesRest(a: seq<Point>, i: nat, b: seq<Point>, j: nat, f: Point -> bool, all: seq<Point>, n: nat)
    requires Owes(a, i, b, j, f, all, n) && (i == |a| || j == |b|)
    ensures all[..n] + Filter(a[i..], f) == all
  {
  }

  /** A step when b is used up. */
  lemma StepRest(a: seq<Point>, i: nat, b: seq<Point>, f: Point -> bool, all: seq<Point>, n: nat)
    requires Owes(a, i, b, |b|, f, all, n) && i < |a|
    ensures n + |Kept(a[i], f)| <= |all|
    ensures var k := Kept(a[i], f);
            Owes(a, i + 1, b, |b|, f, all, n + |k|) && all[..n + |k|] == all[..n] + k
  {
    hide Filter;
    var A := a[i..];
    assert A[1..] == a[i + 1..];
    FilterHead(A, f);
    Advance(all, n, Kept(a[i], f), Filter(A[1..], f));
  }

  lemma FilterEmpty(s: seq<Point>, f: Point -> bool)
    requires s == []
    ensures Filter(s, f) == []
  {
  }

  /** remove_point for a point that passes f. */
  method RemoveIf(p: Point, f: Point -> bool, ret: DiffType, reverse: bool)
    requires ret.Valid() && |ret.Side(reverse)| + |Kept(p, f)| <= ret.Capacity(reverse)
    modifies ret`addCnt, ret`removeCnt, ret.add, ret.remove
    ensures ret.Valid()
    ensures ret.Side(reverse) == old(ret.Side(reverse)) + Kept(p, f)
    ensures ret.Side(!reverse) == old(ret.Side(!reverse))
  {
    if f(p) {
      ret.RemovePoint(p, reverse);
    }
  }

  /** add_point for a point that passes f. */
  method AddIf(p: Point, f: Point -> bool, ret: DiffType, reverse: bool)
    requires ret.Valid() && |ret.Side(!reverse)| + |Kept(p, f)| <= ret.Capacity(!reverse)
    modifies ret`addCnt, ret`removeCnt, ret.add, ret.remove
    ensures ret.Valid()
    ensures ret.Side(!reverse) == old(ret.Side(!reverse)) + Kept(p, f)
    ensures ret.Side(reverse) == old(ret.Side(reverse))
  {
    if f(p) {
      ret.AddPoint(p, reverse);
    }
  }

  /** Removes what is left of a, from index start, when the other run is used up. */
  method DrainRemoved(a: seq<Point>, start: nat, f: Point -> bool, ret: DiffType, reverse: bool)
    requires ret.Valid() && start <= |a|
    requires |ret.Side(reverse)| + |Filter(a[start..], f)| <= ret.Capacity(reverse)
    modifies ret`addCnt, ret`removeCnt, ret.add, ret.remove
    ensures ret.Valid()
    ensures ret.Side(reverse) == old(ret.Side(reverse)) + Filter(a[start..], f)
    ensures ret.Side(!reverse) == old(ret.Side(!reverse))
  {
    hide Filter, DiffType.Valid, DiffType.Side;
    ghost var all, n: nat := ret.Side(reverse) + Filter(a[start..], f), |ret.Side(reverse)|;
    for i := start to |a|
      invariant ret.Valid() && n <= |all|
      invariant ret.Side(reverse) == all[..n] && Filter(a[i..], f) == all[n..]
      invariant ret.Side(!reverse) == old(ret.Side(!reverse))
    {
      assert a[i..][1..] == a[i + 1..];
      FilterHead(a[i..], f);
      Advance(all, n, Kept(a[i], f), Filter(a[i + 1..], f));
      RemoveIf(a[i], f, ret, reverse);
      n := n + |Kept(a[i], f)|;
    }
    FilterEmpty(a[|a|..], f);
  }

  /** Adds what is left of b, from index start, when the other run is used up. */
  method DrainAdded(b: seq<Point>, start: nat, f: Point -> bool, ret: DiffType, reverse: bool)
    requires ret.Valid() && start <= |b|
    requires |ret.Side(!reverse)| + |Filter(b[start..], f)| <= ret.Capacity(!reverse)
    modifies ret`addCnt, ret`removeCnt, ret.add, ret.remove
    ensures ret.Valid()
    ensures ret.Side(!reverse) == old(ret.Side(!reverse)) + Filter(b[start..], f)
    ensures ret.Side(reverse) == old(ret.Side(reverse))
  {
    hide Filter, DiffType.Valid, DiffType.Side;
    ghost var all, n: nat := ret.Side(!reverse) + Filter(b[start..], f), |ret.Side(!reverse)|;
    for j := start to |b|
      invariant ret.Valid() && n <= |all|
      invariant ret.Side(!reverse) == all[..n] && Filter(b[j..], f) == all[n..]
      invariant ret.Side(reverse) == old(ret.Side(reverse))
    {
      assert b[j..][1..] == b[j + 1..];
      FilterHead(b[j..], f);
      Advance(all, n, Kept(b[j], f), Filter(b[j + 1..], f));
      AddIf(b[j], f, ret, reverse);
      n := n + |Kept(b[j], f)|;
    }
    FilterEmpty(b[|b|..], f);
  }

  /** What comparing run a with run b removes, then adds, among the points that pass f. */
  method MergePts(a: seq<Point>, b: seq<Point>, f: Point -> bool, ret: DiffType, reverse: bool)
    requires ret.Valid()
    requires |ret.Side(reverse)| + |Filter(Minus(a, b), f)| <= ret.Capacity(reverse)
    requires |ret.Side(!reverse)| + |Filter(Minus(b, a), f)| <= ret.Capacity(!reverse)
    modifies ret`addCnt, ret`removeCnt, ret.add, ret.remove
    ensures ret.Valid()
    ensures ret.Side(reverse) == old(ret.Side(reverse)) + Filter(Minus(a, b), f)
    ensures ret.Side(!reverse) == old(ret.Side(!reverse)) + Filter(Minus(b, a), f)
  {
    hide Filter, Minus, Owes, PtCmp, Kept, Interleave, DiffType.Valid, DiffType.Side;
    var i, j := 0, 0;
    ghost var removeAll, n: nat := ret.Side(reverse) + Filter(Minus(a, b), f), |ret.Side(reverse)|;
    ghost var addAll, m: nat := ret.Side(!reverse) + Filter(Minus(b, a), f), |ret.Side(!reverse)|;
    StartOwes(a, b, f, removeAll, n);
    StartOwes(b, a, f, addAll, m);
    while i < |a| && j < |b|
      invariant i <= |a| && j <= |b| && n <= |removeAll| && m <= |addAll|
      invariant ret.Valid() && Owes(a, i, b, j, f, removeAll, n) && Owes(b, j, a, i, f, addAll, m)
      invariant ret.Side(reverse) == removeAll[..n] && ret.Side(!reverse) == addAll[..m]
    {
      var flag := PtCmp(a[i], b[j]);
      PtCmpSymmetric(a[i], b[j]);
      StepOwes(a, i, b, j, f, removeAll, n);
      StepOwes(b, j, a, i, f, addAll, m);
      if flag == 0 {
        i, j := i + 1, j + 1;
      } else if flag == 1 {
        RemoveIf(a[i], f, ret, reverse);
        n := n + |Kept(a[i], f)|;
        i := i + 1;
      } else {
        AddIf(b[j], f, ret, reverse);
        m := m + |Kept(b[j], f)|;
        j := j + 1;
      }
    }
    OwesRest(a, i, b, j, f, removeAll, n);
    OwesRest(b, j, a, i, f, addAll, m);
    DrainRemoved(a, i, f, ret, reverse);
    DrainAdded(b, j, f, ret, reverse);
  }

  /** Fresh buffers sized |b| and |a| are always large enough. */
  method MergePtsFresh(a: seq<Point>, b: seq<Point>) returns (add: seq<Point>, remove: seq<Point>)
    requires Sorted(a) && Sorted(b)
    ensures add == Minus(b, a) && remove == Minus(a, b)
  {
    var ret := new DiffType(|b|, |a|);
    MinusSorted(a, b);
    MinusSorted(b, a);
    var fTrue := (p: Point) => true;
    FilterAll(Minus(a, b), fTrue);
    FilterAll(Minus(b, a), fTrue);
    MergePts(a, b, fTrue, ret, false);
    ret.Compact();
    add, remove := ret.add[..], ret.remove[..];
  }

  /** lhs without P[l..r], one copy per match, keeping only points that pass f. */
  method GetDeleteP(lhs: seq<Point>, P: seq<Point>, l: nat, r: nat, f: Point -> bool) returns (kept: seq<Point>)
    requires l <= r <= |P|
    ensures kept == Filter(Minus(lhs, P[l..r]), f)
  {
    hide Owes, Minus, Filter, PtCmp;
    var ret := new Point[|lhs|];
    var i, j, cnt := 0, l, 0;
    ghost var D := P[l..r];
    ghost var all := Filter(Minus(lhs, D), f);
    StartOwes(lhs, D, f, all, 0);
    while i < |lhs| && j < r
      invariant cnt <= i <= |lhs| && l <= j <= r && cnt <= |all|
      invariant Owes(lhs, i, D, j - l, f, all, cnt) && ret[..cnt] == all[..cnt]
    {
      var flag := PtCmp(lhs[i], P[j]);
      PtCmpSymmetric(lhs[i], P[j]);
      StepOwes(lhs, i, D, j - l, f, all, cnt);
      if flag == 0 {
        i, j := i + 1, j + 1;
      } else if flag == 1 {
        if f(lhs[i]) {
          ret[cnt] := lhs[i];
          cnt := cnt + 1;
        }
        i := i + 1;
      } else {
        j := j + 1;
      }
    }
    while i < |lhs|
      invariant cnt <= i <= |lhs| && (i < |lhs| ==> j == r) && l <= j <= r && cnt <= |all|
      invariant Owes(lhs, i, D, j - l, f, all, cnt) && ret[..cnt] == all[..cnt]
    {
      StepRest(lhs, i, D, f, all, cnt);
      if f(lhs[i]) {
        ret[cnt] := lhs[i];
        cnt := cnt + 1;
      }
      i := i + 1;
    }
    OwesRest(lhs, i, D, j - l, f, all, cnt);
    kept := ret[..cnt];
    FilterEmpty(lhs[i..], f);
  }
}
