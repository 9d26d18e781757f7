/**
 * The cells of the trie.  A node at height b covers the codes [lo, lo + 2^b)
 * with lo a multiple of 2^b; its sons cover the two halves.  The code test the
 * proofs use and the coordinate-bit test the program uses coincide.
 */
module Cells {
  import opened Numbers
  import opened Words
  import opened Points
  import opened Sequences

  const ROOT_BITS: nat := 64

  /** lo is a multiple of 2^b. */
  ghost predicate Aligned(lo: nat, b: nat) {
    b == 0 || (lo % 2 == 0 && Aligned(lo / 2, b - 1))
  }

  ghost predicate InCell(s: seq<Point>, lo: nat, b: nat) {
    Within(s, lo, lo + Pow2(b))
  }

  /** First code of the right half. */
  ghost function Mid(lo: nat, b: nat): nat
    requires b > 0
  {
    lo + Pow2(b - 1)
  }

  lemma {:induction false} SonsAligned(lo: nat, b: nat)
    requires b > 0 && Aligned(lo, b)
    ensures Aligned(lo, b - 1) && Aligned(Mid(lo, b), b - 1)
    ensures lo + Pow2(b) == Mid(lo, b) + Pow2(b - 1)
  {
    if b > 1 {
      SonsAligned(lo / 2, b - 1);
      assert Mid(lo, b) / 2 == Mid(lo / 2, b - 1);
    }
  }

  lemma {:induction false} ZeroAligned(b: nat)
    ensures Aligned(0, b)
  {
    if b > 0 {
      ZeroAligned(b - 1);
    }
  }

  lemma RootCell(s: seq<Point>)
    ensures Aligned(0, ROOT_BITS) && InCell(s, 0, ROOT_BITS)
  {
    forall p | p in s
      ensures 0 <= p.Code() < Pow2(ROOT_BITS)
    {
      CodeBound(p);
    }
    ZeroAligned(ROOT_BITS);
  }

  /** The single bit split_by_bit looks at is clear. */
  predicate BitClear(p: Point, b: nat)
    requires b > 0
  {
    var splitter := Shl(1, (b - 1) / 2);
    if b % 2 == 1 then And(p.y, splitter) == 0 else And(p.x, splitter) == 0
  }

  lemma AndSingleBit(v: nat, i: nat)
    requires i < WIDTH
    ensures And(v, Shl(1, i)) == 0 <==> !Bit(v, i)
  {
    var w := And(v, Shl(1, i));
    BitPicked(v, i, 0, i);
    forall j: nat
      ensures Bit(w, j) == (j == i && Bit(v, i))
    {
      BitBitwise(AndOp, v, Shl(1, i), j);
      BitShl(1, i, j);
      if i <= j {
        BitOfPow2(0, j - i);
      }
    }
    if w == 0 {
      BitOfZero(i);
    } else if !Bit(v, i) {
      forall j: nat
        ensures Bit(w, j) == Bit(0, j)
      {
        BitOfZero(j);
      }
      SameBits(w, 0);
    }
  }

  /** Bit b - 1 of a code in the cell tells the half it lies in. */
  lemma {:induction false} HalfBit(c: nat, lo: nat, b: nat)
    requires b > 0 && Aligned(lo, b) && lo <= c < lo + Pow2(b)
    ensures Bit(c, b - 1) <==> Mid(lo, b) <= c
  {
    if b > 1 {
      HalfBit(c / 2, lo / 2, b - 1);
      assert Mid(lo, b) == 2 * Mid(lo / 2, b - 1);
    }
  }

  lemma BitClearIsLeftHalf(p: Point, lo: nat, b: nat)
    requires 0 < b <= ROOT_BITS && Aligned(lo, b) && lo <= p.Code() < lo + Pow2(b)
    ensures BitClear(p, b) <==> p.Code() < Mid(lo, b)
  {
    hide Bit, Interleave, Pow2, And, Shl, Aligned, Mid;
    var i := (b - 1) / 2;
    BitCode(p, i);
    HalfBit(p.Code(), lo, b);
    AndSingleBit(p.x, i);
    AndSingleBit(p.y, i);
    if b % 2 == 1 {
      assert b - 1 == 2 * i;
    } else {
      assert b - 1 == 2 * i + 1;
    }
  }

  lemma BitCode(p: Point, i: nat)
    ensures Bit(p.Code(), 2 * i + 1) == Bit(p.x, i)
    ensures Bit(p.Code(), 2 * i) == Bit(p.y, i)
  {
    BitInterleave(p.x, p.y, i);
  }

  /**
   * Index of the first point in P[l..r] whose split bit is set: a binary search
   * down to sixteen candidates, then a scan.
   */
  method SplitByBit(P: seq<Point>, l: nat, r: nat, b: nat) returns (mid: nat)
    requires l <= r <= |P| && b > 0
    requires forall i, j :: l <= i < j < r && BitClear(P[j], b) ==> BitClear(P[i], b)
    ensures l <= mid <= r
    ensures forall i :: l <= i < mid ==> BitClear(P[i], b)
    ensures forall i :: mid <= i < r ==> !BitClear(P[i], b)
  {
    var start, end := l, r;
    while end - start > 16
      invariant l <= start <= end <= r
      invariant forall i :: l <= i < start ==> BitClear(P[i], b)
      invariant forall i :: end <= i < r ==> !BitClear(P[i], b)
    {
      mid := (start + end) / 2;
      if !BitClear(P[mid], b) {
        end := mid;
      } else {
        start := mid + 1;
      }
    }
    for i := start to end
      invariant forall k :: l <= k < i ==> BitClear(P[k], b)
    {
      if !BitClear(P[i], b) {
        return i;
      }
    }
    return end;
  }

  /** On a sorted run inside a cell, split_by_bit cuts the run at the cell's middle. */
  method SplitCell(P: seq<Point>, b: nat, ghost lo: nat) returns (left: seq<Point>, right: seq<Point>)
    requires 0 < b <= ROOT_BITS && Aligned(lo, b)
    requires Sorted(P) && InCell(P, lo, b)
    ensures P == left + right
    ensures Sorted(left) && InCell(left, lo, b - 1)
    ensures Sorted(right) && InCell(right, Mid(lo, b), b - 1)
    ensures Cut(left, Mid(lo, b), right)
  {
    hide BitClear, Aligned, Interleave, Pow2;
    SonsAligned(lo, b);
    forall i | 0 <= i < |P|
      ensures BitClear(P[i], b) <==> P[i].Code() < Mid(lo, b)
    {
      assert P[i] in P;
      BitClearIsLeftHalf(P[i], lo, b);
    }
    forall i, j | 0 <= i < j < |P| && BitClear(P[j], b)
      ensures BitClear(P[i], b)
    {
      assert Leq(P[i], P[j]);
    }
    var splitter := SplitByBit(P, 0, |P|, b);
    left, right := P[..splitter], P[splitter..];
  }
}
