/**
 * Gray coding by a shifted xor and its inverse, the loop of doubling shifts
 * that ends both halves of the Hilbert codec.
 */
module Grays {
  import opened Numbers
  import opened Words

  function Gray(s: nat, w: nat): nat { Xor(w, Shr(w, s)) }

  /** Each bit becomes the parity of the bits s, 2s, ... places above it and itself. */
  function Ungray(s: nat, w: nat): nat
    requires s > 0
  {
    if w == 0 then 0
    else
      ShrLess(w, s);
      Xor(w, Ungray(s, Shr(w, s)))
  }

  lemma {:induction false} ShrLess(w: nat, k: nat)
    ensures Shr(w, k) <= w
    ensures w > 0 && k > 0 ==> Shr(w, k) < w
  {
    if k > 0 {
      ShrLess(w / 2, k - 1);
    }
  }

  lemma BitXor(a: nat, b: nat, i: nat)
    ensures Bit(Xor(a, b), i) == (Bit(a, i) != Bit(b, i))
  {
    BitBitwise(XorOp, a, b, i);
  }

  lemma BitGray(s: nat, w: nat, i: nat)
    ensures Bit(Gray(s, w), i) == (Bit(w, i) != Bit(w, i + s))
  {
    hide Bit, Xor, Shr;
    BitXor(w, Shr(w, s), i);
    BitShr(w, s, i);
  }

  /** Two shifted xors commute, and doing one twice doubles its shift. */
  lemma GrayCommutes(s: nat, t: nat, w: nat)
    ensures Gray(s, Gray(t, w)) == Gray(t, Gray(s, w))
  {
    hide Bit, Gray;
    forall i: nat
      ensures Bit(Gray(s, Gray(t, w)), i) == Bit(Gray(t, Gray(s, w)), i)
    {
      GrayTwice(s, t, w, i);
      GrayTwice(t, s, w, i);
      assert i + s + t == i + t + s;
    }
    SameBits(Gray(s, Gray(t, w)), Gray(t, Gray(s, w)));
  }

  lemma GrayTwice(s: nat, t: nat, w: nat, i: nat)
    ensures Bit(Gray(s, Gray(t, w)), i) == ((Bit(w, i) != Bit(w, i + t)) != (Bit(w, i + s) != Bit(w, i + s + t)))
  {
    hide Bit, Gray;
    BitGray(s, Gray(t, w), i);
    BitGray(t, w, i);
    BitGray(t, w, i + s);
  }

  lemma GrayDoubles(b: nat, w: nat)
    ensures Gray(b, Gray(b, w)) == Gray(2 * b, w)
  {
    hide Bit, Gray;
    forall i: nat
      ensures Bit(Gray(b, Gray(b, w)), i) == Bit(Gray(2 * b, w), i)
    {
      GrayTwice(b, b, w, i);
      BitGray(2 * b, w, i);
      assert i + b + b == i + 2 * b;
    }
    SameBits(Gray(b, Gray(b, w)), Gray(2 * b, w));
  }

  // ----- the code is a bijection on n-bit words -----

  lemma {:induction false} BelowPow2(w: nat)
    ensures w < Pow2(w)
  {
    if w > 0 {
      BelowPow2(w - 1);
    }
  }

  lemma {:induction false} SameGrayBit(s: nat, a: nat, b: nat, n: nat, i: nat)
    requires s > 0 && a < Pow2(n) && b < Pow2(n) && Gray(s, a) == Gray(s, b)
    ensures Bit(a, i) == Bit(b, i)
    decreases n - i
  {
    hide Bit, Gray, Pow2;
    if n <= i {
      BitAbove(a, n, i);
      BitAbove(b, n, i);
    } else {
      SameGrayBit(s, a, b, n, i + s);
      BitGray(s, a, i);
      BitGray(s, b, i);
    }
  }

  lemma GrayInjective(s: nat, a: nat, b: nat)
    requires s > 0 && Gray(s, a) == Gray(s, b)
    ensures a == b
  {
    BelowPow2(a);
    BelowPow2(b);
    Pow2Mono(a, a + b);
    Pow2Mono(b, a + b);
    hide Bit, Gray, Pow2;
    forall i: nat
      ensures Bit(a, i) == Bit(b, i)
    {
      SameGrayBit(s, a, b, a + b, i);
    }
    SameBits(a, b);
  }

  lemma {:induction false} GrayOfUngray(s: nat, w: nat)
    requires s > 0
    ensures Gray(s, Ungray(s, w)) == w
    decreases w
  {
    ShrLess(w, s);
    if w > 0 {
      var v := Ungray(s, Shr(w, s));
      GrayOfUngray(s, Shr(w, s));
      GrayOfXor(s, w, v);
    }
  }

  /** If v decodes the shifted word, w xor v decodes w. */
  lemma GrayOfXor(s: nat, w: nat, v: nat)
    requires Gray(s, v) == Shr(w, s)
    ensures Gray(s, Xor(w, v)) == w
  {
    hide Bit, Gray, Xor, Shr;
    forall i: nat
      ensures Bit(Gray(s, Xor(w, v)), i) == Bit(w, i)
    {
      BitGray(s, Xor(w, v), i);
      BitXor(w, v, i);
      BitXor(w, v, i + s);
      BitGray(s, v, i);
      BitShr(w, s, i);
    }
    SameBits(Gray(s, Xor(w, v)), w);
  }

  lemma UngrayOfGray(s: nat, w: nat)
    requires s > 0
    ensures Ungray(s, Gray(s, w)) == w
  {
    GrayOfUngray(s, Gray(s, w));
    GrayInjective(s, Ungray(s, Gray(s, w)), w);
  }

  lemma GrayBound(s: nat, w: nat, n: nat)
    requires w < Pow2(n)
    ensures Gray(s, w) < Pow2(n)
  {
    hide Bit, Gray, Pow2;
    forall i: nat | n <= i
      ensures !Bit(Gray(s, w), i)
    {
      BitGray(s, w, i);
      BitAbove(w, n, i);
      BitAbove(w, n, i + s);
    }
    FitsBits(Gray(s, w), n);
  }

  lemma XorBound(a: nat, b: nat, n: nat)
    requires a < Pow2(n) && b < Pow2(n)
    ensures Xor(a, b) < Pow2(n)
  {
    hide Bit, Xor, Pow2;
    forall i: nat | n <= i
      ensures !Bit(Xor(a, b), i)
    {
      BitXor(a, b, i);
      BitAbove(a, n, i);
      BitAbove(b, n, i);
    }
    FitsBits(Xor(a, b), n);
  }

  lemma {:induction false} UngrayBound(s: nat, w: nat, n: nat)
    requires s > 0 && w < Pow2(n)
    ensures Ungray(s, w) < Pow2(n)
    decreases w
  {
    if w > 0 {
      ShrLess(w, s);
      UngrayBound(s, Shr(w, s), n);
      XorBound(w, Ungray(s, Shr(w, s)), n);
    }
  }

  // ----- the loop of doubling shifts -----

  lemma GrayStep(s: nat, b: nat, r: nat, w: nat)
    requires Gray(s, r) == Gray(b, w)
    ensures Gray(s, Gray(b, r)) == Gray(2 * b, w)
  {
    hide Gray;
    GrayCommutes(s, b, r);
    GrayDoubles(b, w);
  }

  lemma GrayBeyond(b: nat, w: nat, n: nat)
    requires w < Pow2(n) && n <= b
    ensures Gray(b, w) == w
  {
    hide Bit, Gray, Pow2;
    forall i: nat
      ensures Bit(Gray(b, w), i) == Bit(w, i)
    {
      BitGray(b, w, i);
      BitAbove(w, n, i + b);
    }
    SameBits(Gray(b, w), w);
  }

  method FoldShifts(s: nat, n: nat, w: nat) returns (r: nat)
    requires s > 0 && w < Pow2(n)
    ensures r == Ungray(s, w)
  {
    r := w;
    var b := s;
    hide Xor, Shr, Ungray, Pow2;
    while b < n
      invariant s <= b && Gray(s, r) == Gray(b, w)
      decreases n - b
    {
      GrayStep(s, b, r, w);
      r := Xor(r, Shr(r, b));
      b := b * 2;
    }
    GrayBeyond(b, w, n);
    GrayOfUngray(s, w);
    GrayInjective(s, r, Ungray(s, w));
  }

  /** Xor with the same word twice. */
  lemma XorTwice(a: nat, b: nat)
    ensures Xor(Xor(a, b), b) == a && Xor(a, b) == Xor(b, a)
  {
    hide Bit, Xor;
    forall i: nat
      ensures Bit(Xor(Xor(a, b), b), i) == Bit(a, i)
      ensures Bit(Xor(a, b), i) == Bit(Xor(b, a), i)
    {
      BitXor(a, b, i);
      BitXor(b, a, i);
      BitXor(Xor(a, b), b, i);
    }
    SameBits(Xor(Xor(a, b), b), a);
    SameBits(Xor(a, b), Xor(b, a));
  }

  lemma XorNone(w: nat)
    ensures Xor(w, 0) == w && Xor(0, w) == w
  {
    hide Bit, Xor;
    forall i: nat
      ensures Bit(Xor(w, 0), i) == Bit(w, i) && Bit(Xor(0, w), i) == Bit(w, i)
    {
      BitXor(w, 0, i);
      BitXor(0, w, i);
      BitOfZero(i);
    }
    SameBits(Xor(w, 0), w);
    SameBits(Xor(0, w), w);
  }

  lemma XorAssoc(a: nat, b: nat, c: nat)
    ensures Xor(Xor(a, b), c) == Xor(a, Xor(b, c))
  {
    hide Bit, Xor;
    forall i: nat
      ensures Bit(Xor(Xor(a, b), c), i) == Bit(Xor(a, Xor(b, c)), i)
    {
      BitXor(Xor(a, b), c, i);
      BitXor(a, b, i);
      BitXor(a, Xor(b, c), i);
      BitXor(b, c, i);
    }
    SameBits(Xor(Xor(a, b), c), Xor(a, Xor(b, c)));
  }
}
