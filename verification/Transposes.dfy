/**
 * Bit transposition: nDims fields of nBits bits become nBits fields of nDims
 * bits.  The log-step form and the bit-by-bit form both compute it.
 */
module Transposes {
  import opened Numbers
  import opened Words

  /** Output bit i comes from bit i / nDims of field i % nDims. */
  ghost function SourceBit(nDims: nat, nBits: nat, w: nat, i: nat): bool
    requires nDims > 0
  {
    Bit(w, At(nBits, Rem(nDims, i), Quot(nDims, i)))
  }

  ghost function TransposedBits(nDims: nat, nBits: nat, w: nat): nat -> bool {
    (i: nat) => nDims > 0 && SourceBit(nDims, nBits, w, i)
  }

  ghost function Transpose(nDims: nat, nBits: nat, w: nat): nat {
    FromBits(nDims * nBits, TransposedBits(nDims, nBits, w))
  }

  lemma BitTransposeAt(nDims: nat, nBits: nat, w: nat, i: nat)
    requires nDims > 0
    ensures Bit(Transpose(nDims, nBits, w), i) == (Quot(nDims, i) < nBits && SourceBit(nDims, nBits, w, i))
  {
    hide At, Quot, Rem, Bit;
    QuotBelow(nDims, i, nBits);
    BitFromBits(nDims * nBits, TransposedBits(nDims, nBits, w), i);
  }

  /** Bit b of field d moves to bit d of field b. */
  lemma BitTranspose(nDims: nat, nBits: nat, w: nat, d: nat, b: nat)
    requires d < nDims && b < nBits
    ensures Bit(Transpose(nDims, nBits, w), At(nDims, b, d)) == Bit(w, At(nBits, d, b))
  {
    hide At, Quot, Rem, Bit, Transpose;
    AtParts(nDims, b, d);
    BitTransposeAt(nDims, nBits, w, At(nDims, b, d));
  }

  lemma TransposeBound(nDims: nat, nBits: nat, w: nat)
    ensures Transpose(nDims, nBits, w) < Pow2(nDims * nBits)
  {
    FromBitsBound(nDims * nBits, TransposedBits(nDims, nBits, w));
  }

  /** Transposing back gives the word. */
  lemma TransposeInvolution(nDims: nat, nBits: nat, w: nat)
    requires nDims > 0 && nBits > 0 && w < Pow2(nDims * nBits)
    ensures Transpose(nBits, nDims, Transpose(nDims, nBits, w)) == w
  {
    var t := Transpose(nDims, nBits, w);
    TransposeBound(nBits, nDims, t);
    hide At, Quot, Rem, Bit, Transpose, Pow2;
    assert nBits * nDims == nDims * nBits;
    forall i: nat | i < nDims * nBits
      ensures Bit(Transpose(nBits, nDims, t), i) == Bit(w, i)
    {
      var d, b := Quot(nBits, i), Rem(nBits, i);
      PartsAt(nBits, i);
      QuotBelow(nBits, i, nDims);
      BitTranspose(nBits, nDims, t, b, d);
      BitTranspose(nDims, nBits, w, d, b);
    }
    SameLowBits(Transpose(nBits, nDims, t), w, nDims * nBits);
  }

  // ----- the bit-by-bit form -----

  /** One field spread out: its bit from + j at position nDims * j. */
  ghost predicate IsSpread(out: nat, nDims: nat, field: nat, from: nat, nBits: nat)
    requires nDims > 0
  {
    forall i: nat :: Bit(out, i) == SpreadBit(nDims, field, from, nBits, i)
  }

  ghost predicate SpreadBit(nDims: nat, field: nat, from: nat, nBits: nat, i: nat)
    requires nDims > 0
  {
    Rem(nDims, i) == 0 && from + Quot(nDims, i) < nBits && Bit(field, from + Quot(nDims, i))
  }

  /** Shifting by nDims and adding the next lower bit extends the spread. */
  lemma SpreadStep(out: nat, nDims: nat, field: nat, from: nat, nBits: nat, i: nat)
    requires nDims > 0 && 0 < from <= nBits && nDims * nBits <= WIDTH && IsSpread(out, nDims, field, from, nBits)
    ensures Bit(Or(Shl(out, nDims), And(Shr(field, from - 1), 1)), i) == SpreadBit(nDims, field, from - 1, nBits, i)
  {
    hide Bit, Quot, Rem, Or, And, Shl, Shr;
    BitOr(Shl(out, nDims), And(Shr(field, from - 1), 1), i);
    BitShl(out, nDims, i);
    BitAnd(Shr(field, from - 1), 1, i);
    BitShr(field, from - 1, i);
    BitOfPow2(0, i);
    QuotShift(nDims, i);
    QuotBelow(nDims, i, nBits);
    if i == 0 {
      assert Bit(1, 0) by {
        assert Pow2(0) == 1;
      }
    }
    PartsAt(nDims, i);
    ZeroGroup(nDims, i);
  }

  lemma ZeroGroup(n: nat, i: nat)
    requires 0 < n
    ensures Rem(n, i) == 0 && Quot(n, i) == 0 ==> i == 0
  {
  }

  lemma BitOr(a: nat, b: nat, i: nat)
    ensures Bit(Or(a, b), i) == (Bit(a, i) || Bit(b, i))
  {
    BitBitwise(OrOp, a, b, i);
  }

  lemma BitAnd(a: nat, b: nat, i: nat)
    ensures Bit(And(a, b), i) == (Bit(a, i) && Bit(b, i))
  {
    BitBitwise(AndOp, a, b, i);
  }

  method SpreadField(nDims: nat, nBits: nat, field: nat) returns (out: nat)
    requires nDims > 0 && nBits > 0 && nDims * nBits <= WIDTH
    ensures IsSpread(out, nDims, field, 0, nBits)
  {
    hide Bit, Or, And, Shl, Shr;
    out := 0;
    var b := nBits;
    forall i: nat
      ensures Bit(out, i) == SpreadBit(nDims, field, nBits, nBits, i)
    {
      BitOfZero(i);
    }
    hide SpreadBit;
    while b > 0
      invariant b <= nBits && IsSpread(out, nDims, field, b, nBits)
    {
      var next := Or(Shl(out, nDims), And(Shr(field, b - 1), 1));
      forall i: nat
        ensures Bit(next, i) == SpreadBit(nDims, field, b - 1, nBits, i)
      {
        SpreadStep(out, nDims, field, b, nBits, i);
      }
      b := b - 1;
      out := next;
    }
  }

  /** After d fields: exactly the output bits that come from them. */
  ghost predicate FieldsDone(coords: nat, nDims: nat, nBits: nat, w: nat, d: nat)
    requires nDims > 0
  {
    forall i: nat :: Bit(coords, i) == FieldBit(nDims, nBits, w, d, i)
  }

  ghost predicate FieldBit(nDims: nat, nBits: nat, w: nat, d: nat, i: nat)
    requires nDims > 0
  {
    Rem(nDims, i) < d && Quot(nDims, i) < nBits && SourceBit(nDims, nBits, w, i)
  }

  lemma FieldStep(coords: nat, out: nat, nDims: nat, nBits: nat, w: nat, d: nat, i: nat)
    requires d < nDims && nBits > 0 && nDims * nBits <= WIDTH && FieldsDone(coords, nDims, nBits, w, d)
    requires IsSpread(out, nDims, And(Shr(w, nBits * d), Ones(nBits)), 0, nBits)
    ensures Bit(Or(coords, Shl(out, d)), i) == FieldBit(nDims, nBits, w, d + 1, i)
  {
    var field := And(Shr(w, nBits * d), Ones(nBits));
    var q := Quot(nDims, i);
    hide Bit, Quot, Rem, Or, And, Shl, Shr, Ones, At;
    BitOr(coords, Shl(out, d), i);
    BitShl(out, d, i);
    QuotBelow(nDims, i, nBits);
    BitAnd(Shr(w, nBits * d), Ones(nBits), q);
    BitShr(w, nBits * d, q);
    BitOnes(nBits, q);
    AtIs(nBits, d, q);
    if d <= i {
      ShiftedGroup(nDims, i, d);
    } else {
      BelowRem(nDims, i, d);
    }
  }

  lemma AtIs(n: nat, q: nat, r: nat)
    ensures At(n, q, r) == n * q + r
  {
  }

  lemma BelowRem(n: nat, i: nat, d: nat)
    requires i < d < n
    ensures Rem(n, i) == i
  {
    QuotShift(n, i);
  }

  /** Shifted by d, a position heads its group exactly if it was item d, and the group stays the same. */
  lemma ShiftedGroup(n: nat, i: nat, d: nat)
    requires d < n && d <= i
    ensures Rem(n, i - d) == 0 <==> Rem(n, i) == d
    ensures Rem(n, i) == d ==> Quot(n, i - d) == Quot(n, i)
  {
    if Rem(n, i) == d {
      PartsAt(n, i);
      AtParts(n, Quot(n, i), 0);
    }
    if Rem(n, i - d) == 0 {
      PartsAt(n, i - d);
      AtParts(n, Quot(n, i - d), d);
    }
  }

  method BitTransposePlain(nDims: nat, nBits: nat, inCoords: nat) returns (coords: nat)
    requires nDims > 0 && nBits > 0 && nDims * nBits <= WIDTH
    ensures coords == Transpose(nDims, nBits, inCoords)
  {
    hide Bit, Quot, Rem, Or, And, Shl, Shr, Ones, At, Transpose, SourceBit;
    coords := 0;
    var rest := inCoords;
    ShrNone(inCoords, nBits);
    forall i: nat
      ensures Bit(coords, i) == FieldBit(nDims, nBits, inCoords, 0, i)
    {
      BitOfZero(i);
    }
    hide FieldBit;
    for d := 0 to nDims
      invariant rest == Shr(inCoords, nBits * d) && FieldsDone(coords, nDims, nBits, inCoords, d)
    {
      var out := SpreadField(nDims, nBits, And(rest, Ones(nBits)));
      var next := Or(coords, Shl(out, d));
      forall i: nat
        ensures Bit(next, i) == FieldBit(nDims, nBits, inCoords, d + 1, i)
      {
        FieldStep(coords, out, nDims, nBits, inCoords, d, i);
      }
      ShrShr(inCoords, nBits * d, nBits);
      assert nBits * d + nBits == nBits * (d + 1);
      rest := Shr(rest, nBits);
      coords := next;
    }
    AllFields(coords, nDims, nBits, inCoords);
  }

  lemma ShrNone(w: nat, n: nat)
    ensures Shr(w, n * 0) == w
  {
  }

  lemma AllFields(coords: nat, nDims: nat, nBits: nat, w: nat)
    requires nDims > 0 && FieldsDone(coords, nDims, nBits, w, nDims)
    ensures coords == Transpose(nDims, nBits, w)
  {
    hide Bit, Quot, Rem, At, Transpose, SourceBit;
    forall i: nat
      ensures Bit(coords, i) == Bit(Transpose(nDims, nBits, w), i)
    {
      BitTransposeAt(nDims, nBits, w, i);
      PartsAt(nDims, i);
    }
    SameBits(coords, Transpose(nDims, nBits, w));
  }

  lemma {:induction false} ShrShr(w: nat, j: nat, k: nat)
    ensures Shr(Shr(w, j), k) == Shr(w, j + k)
  {
    if j > 0 {
      ShrShr(w / 2, j - 1, k);
    }
  }
}
