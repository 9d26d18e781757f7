/** The digit operations of the Hilbert codec: rotating n-bit digits, and the rotation that follows a digit. */
module Rotations {
  import opened Numbers
  import opened Words
  import opened Transposes

  /** The places a rotation of at most n bits works in. */
  predicate Turns(n: nat, r: nat) { r < n <= WIDTH }

  function RotateLeft(w: nat, r: nat, n: nat): nat
    requires Turns(n, r)
  {
    And(Or(Shl(w, r), Shr(w, n - r)), Ones(n))
  }

  function RotateRight(w: nat, r: nat, n: nat): nat
    requires Turns(n, r)
  {
    And(Or(Shr(w, r), Shl(w, n - r)), Ones(n))
  }

  lemma BitRotateLeft(w: nat, r: nat, n: nat, i: nat)
    requires Turns(n, r) && w < Pow2(n)
    ensures Bit(RotateLeft(w, r, n), i) == (i < n && Bit(w, if r <= i then i - r else i + n - r))
  {
    hide Bit, And, Or, Shl, Shr, Ones, Pow2;
    BitAnd(Or(Shl(w, r), Shr(w, n - r)), Ones(n), i);
    BitOr(Shl(w, r), Shr(w, n - r), i);
    BitShl(w, r, i);
    BitShr(w, n - r, i);
    BitOnes(n, i);
    if r <= i {
      BitAbove(w, n, i + n - r);
    }
  }

  lemma BitRotateRight(w: nat, r: nat, n: nat, i: nat)
    requires Turns(n, r) && w < Pow2(n)
    ensures Bit(RotateRight(w, r, n), i) == (i < n && Bit(w, if i + r < n then i + r else i + r - n))
  {
    hide Bit, And, Or, Shl, Shr, Ones, Pow2;
    BitAnd(Or(Shr(w, r), Shl(w, n - r)), Ones(n), i);
    BitOr(Shr(w, r), Shl(w, n - r), i);
    BitShr(w, r, i);
    BitShl(w, n - r, i);
    BitOnes(n, i);
    if n <= i + r {
      BitAbove(w, n, i + r);
    }
  }

  lemma RotateBound(w: nat, r: nat, n: nat)
    requires Turns(n, r) && w < Pow2(n)
    ensures RotateLeft(w, r, n) < Pow2(n) && RotateRight(w, r, n) < Pow2(n)
  {
    hide Bit, RotateLeft, RotateRight, Pow2;
    forall i: nat | n <= i
      ensures !Bit(RotateLeft(w, r, n), i) && !Bit(RotateRight(w, r, n), i)
    {
      BitRotateLeft(w, r, n, i);
      BitRotateRight(w, r, n, i);
    }
    FitsBits(RotateLeft(w, r, n), n);
    FitsBits(RotateRight(w, r, n), n);
  }

  /** The two rotations undo each other. */
  lemma RotateBack(w: nat, r: nat, n: nat)
    requires Turns(n, r) && w < Pow2(n)
    ensures RotateRight(RotateLeft(w, r, n), r, n) == w
    ensures RotateLeft(RotateRight(w, r, n), r, n) == w
  {
    hide Bit, RotateLeft, RotateRight, Pow2;
    RotateBound(w, r, n);
    var left, right := RotateLeft(w, r, n), RotateRight(w, r, n);
    forall i: nat
      ensures Bit(RotateRight(left, r, n), i) == Bit(w, i) && Bit(RotateLeft(right, r, n), i) == Bit(w, i)
    {
      BitRotateRight(left, r, n, i);
      BitRotateLeft(w, r, n, if i + r < n then i + r else if n <= i + r then i + r - n else 0);
      BitRotateLeft(right, r, n, i);
      BitRotateRight(w, r, n, if r <= i then i - r else i + n - r);
      if n <= i {
        BitAbove(w, n, i);
      }
    }
    SameBits(RotateRight(left, r, n), w);
    SameBits(RotateLeft(right, r, n), w);
  }

  // ----- find first set -----

  /** One more than the position of the lowest one-bit; zero if there is none. */
  function Ffs(w: nat): nat {
    if w == 0 then 0 else if w % 2 == 1 then 1 else 1 + Ffs(w / 2)
  }

  /** What Ffs means: the bit it names is set and none below it is. */
  lemma {:induction false} FfsIsLowest(w: nat)
    ensures w > 0 ==> Ffs(w) > 0 && Bit(w, Ffs(w) - 1)
    ensures forall i: nat :: i + 1 < Ffs(w) ==> !Bit(w, i)
  {
    if w > 0 && w % 2 == 0 {
      FfsIsLowest(w / 2);
    }
  }

  lemma {:induction false} FfsBound(w: nat, n: nat)
    requires w < Pow2(n)
    ensures Ffs(w) <= n
  {
    if w > 0 && w % 2 == 0 {
      FfsBound(w / 2, n - 1);
    }
  }

  lemma {:induction false} AndComplement(w: nat, m: nat)
    requires w < Pow2(m)
    ensures And(w, Pow2(m) - 1 - w) == 0
  {
    if m > 0 {
      var c := Pow2(m) - 1 - w;
      assert c / 2 == Pow2(m - 1) - 1 - w / 2;
      assert c % 2 != w % 2;
      AndComplement(w / 2, m - 1);
    }
  }

  /** A word and its negation share exactly the lowest one-bit. */
  lemma {:induction false} LowestBit(w: nat, m: nat)
    requires 0 < w < Pow2(m)
    ensures And(w, Pow2(m) - w) == Pow2(Ffs(w) - 1)
  {
    var neg := Pow2(m) - w;
    if w % 2 == 1 {
      assert neg / 2 == Pow2(m - 1) - 1 - w / 2;
      AndComplement(w / 2, m - 1);
    } else {
      assert neg / 2 == Pow2(m - 1) - w / 2;
      LowestBit(w / 2, m - 1);
    }
  }

  lemma {:induction false} FfsIsolated(w: nat, m: nat)
    requires w < Pow2(WIDTH)
    ensures And(w, And(Neg(w), Ones(m))) == if 0 < Ffs(w) <= m then Pow2(Ffs(w) - 1) else 0
  {
    if w > 0 {
      FfsIsLowest(w);
      LowestBit(w, WIDTH);
    }
    hide Bit, And, Neg, Ones, Ffs;
    var k := if w > 0 then Ffs(w) else 0;
    var low := if 0 < k <= m then Pow2(k - 1) else 0;
    hide Pow2;
    forall i: nat
      ensures Bit(And(w, And(Neg(w), Ones(m))), i) == Bit(low, i)
    {
      BitAnd(w, And(Neg(w), Ones(m)), i);
      BitAnd(Neg(w), Ones(m), i);
      BitAnd(w, Neg(w), i);
      BitOnes(m, i);
      BitOfZero(i);
      if k > 0 {
        BitOfPow2(k - 1, i);
      }
    }
    SameBits(And(w, And(Neg(w), Ones(m))), low);
  }

  /** The rotation after a digit. */
  function NextRotation(n: nat, rotation: nat, bits: nat): (r: nat)
    requires n > 0
  {
    (rotation + 1 + Ffs(bits)) % n
  }

  /** Halving a power of two. */
  lemma HalfPow2(k: nat)
    ensures Shr(Pow2(k), 1) == if k > 0 then Pow2(k - 1) else 0
  {
    assert Shr(Pow2(k), 1) == Shr(Pow2(k) / 2, 0);
  }

  /** How many halvings clear the lowest of the n low bits; a higher one was masked away. */
  function Halvings(n: nat, bits: nat): nat {
    if Ffs(bits) < n then Ffs(bits) else 0
  }

  lemma HalvingsLeft(n: nat, bits: nat)
    requires 0 < n <= WIDTH && bits < Pow2(n)
    ensures And(bits, And(Neg(Kept(n, bits)), Ones(n - 1))) == Pending(Halvings(n, bits))
  {
    Pow2Mono(n, WIDTH);
    FfsIsolated(bits, n - 1);
  }

  /** The digit, known to fit a word. */
  function Kept(n: nat, bits: nat): (r: nat)
    requires n <= WIDTH && bits < Pow2(n)
    ensures r == bits && r < Pow2(WIDTH)
  {
    Pow2Mono(n, WIDTH);
    bits
  }

  /** The isolated bit when k more halvings clear it. */
  function Pending(k: nat): nat { if k > 0 then Pow2(k - 1) else 0 }

  lemma PendingStep(k: nat)
    ensures Pending(k) > 0 <==> k > 0
    ensures k > 0 ==> Shr(Pending(k), 1) == Pending(k - 1)
  {
    if k > 0 {
      HalfPow2(k - 1);
    }
  }

  method AdjustRotation(rotation: nat, nDims: nat, bits: nat) returns (r: nat)
    requires Turns(nDims, rotation) && bits < Pow2(nDims)
    ensures r == NextRotation(nDims, rotation, bits) && r < nDims
  {
    hide And, Neg, Ones, Ffs, Pow2, Shr, NextRotation, Pending, Halvings;
    HalvingsLeft(nDims, bits);
    WrapOnce(nDims, rotation, bits);
    var rest := And(bits, And(Neg(Kept(nDims, bits)), Ones(nDims - 1)));
    r := rotation;
    ghost var k := Halvings(nDims, bits);
    PendingStep(k);
    while rest > 0
      invariant r + k == rotation + Halvings(nDims, bits) && rest == Pending(k)
      invariant rest > 0 <==> k > 0
      decreases k
    {
      PendingStep(k);
      rest := Shr(rest, 1);
      r := r + 1;
      k := k - 1;
      PendingStep(k);
    }
    r := r + 1;
    if r >= nDims {
      r := r - nDims;
    }
  }

  lemma WrapOnce(n: nat, rotation: nat, bits: nat)
    requires rotation < n && bits < Pow2(n)
    ensures NextRotation(n, rotation, bits)
            == var r := rotation + Halvings(n, bits) + 1; if r >= n then r - n else r
    ensures NextRotation(n, rotation, bits) < n
    ensures rotation + Halvings(n, bits) + 1 < 2 * n
  {
    FfsBound(bits, n);
    var s := rotation + 1 + Ffs(bits);
    if s < n {
      DivUnique(n, 0, s);
    } else if s < 2 * n {
      DivUnique(n, 1, s - n);
      assert n * 1 == n;
    } else {
      DivUnique(n, 2, s - 2 * n);
    }
  }
}
