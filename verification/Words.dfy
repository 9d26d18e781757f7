/**
 * Machine words as natural numbers, with the C operators the sources use on
 * them: bitwise and/or/xor, logical right shift, and a left shift that drops
 * whatever moves past the 64th bit.  Every operator is characterised bit by
 * bit, and two words with the same bits are equal.
 */
module Words {
  import opened Numbers

  const WIDTH: nat := 64

  predicate Bit(w: nat, i: nat) {
    if i == 0 then w % 2 == 1 else Bit(w / 2, i - 1)
  }

  datatype BitOp = AndOp | OrOp | XorOp | AndNotOp {
    predicate On(x: bool, y: bool) {
      match this
      case AndOp => x && y
      case OrOp => x || y
      case XorOp => x != y
      case AndNotOp => x && !y
    }
  }

  function Bitwise(op: BitOp, a: nat, b: nat): nat
    decreases a + b
  {
    if a == 0 && b == 0 then 0
    else 2 * Bitwise(op, a / 2, b / 2) + (if op.On(a % 2 == 1, b % 2 == 1) then 1 else 0)
  }

  function And(a: nat, b: nat): nat { Bitwise(AndOp, a, b) }

  function Or(a: nat, b: nat): nat { Bitwise(OrOp, a, b) }

  function Xor(a: nat, b: nat): nat { Bitwise(XorOp, a, b) }

  /** a & ~b */
  function AndNot(a: nat, b: nat): nat { Bitwise(AndNotOp, a, b) }

  /** Two's complement negation of a 64-bit word. */
  function Neg(w: nat): nat
    requires w < Pow2(WIDTH)
  {
    if w == 0 then 0 else Pow2(WIDTH) - w
  }

  function Shr(w: nat, k: nat): nat {
    if k == 0 then w else Shr(w / 2, k - 1)
  }

  function Shl(w: nat, k: nat): nat { Low(Scaled(w, k), WIDTH) }

  /** w followed by k zero bits. */
  function Scaled(w: nat, k: nat): nat {
    if k == 0 then w else 2 * Scaled(w, k - 1)
  }

  /** The n low bits of w. */
  function Low(w: nat, n: nat): nat {
    if n == 0 then 0 else 2 * Low(w / 2, n - 1) + w % 2
  }

  /** The word of k one-bits. */
  function Ones(k: nat): nat { Pow2(k) - 1 }

  // ----- bit characterisations -----

  lemma {:induction false} BitOfZero(i: nat)
    ensures !Bit(0, i)
  {
    if i > 0 {
      BitOfZero(i - 1);
    }
  }

  lemma {:induction false} BitBitwise(op: BitOp, a: nat, b: nat, i: nat)
    ensures Bit(Bitwise(op, a, b), i) == op.On(Bit(a, i), Bit(b, i))
    decreases i
  {
    if a == 0 && b == 0 {
      BitOfZero(i);
    } else if i > 0 {
      BitBitwise(op, a / 2, b / 2, i - 1);
    }
  }

  lemma {:induction false} BitShr(w: nat, k: nat, i: nat)
    ensures Bit(Shr(w, k), i) == Bit(w, i + k)
  {
    if k > 0 {
      BitShr(w / 2, k - 1, i);
    }
  }

  lemma {:induction false} BitScaled(w: nat, k: nat, i: nat)
    ensures Bit(Scaled(w, k), i) == (k <= i && Bit(w, i - k))
  {
    if k > 0 && i > 0 {
      BitScaled(w, k - 1, i - 1);
    }
  }

  lemma {:induction false} BitLow(w: nat, n: nat, i: nat)
    ensures Bit(Low(w, n), i) == (i < n && Bit(w, i))
  {
    if n == 0 {
      BitOfZero(i);
    } else if i > 0 {
      BitLow(w / 2, n - 1, i - 1);
    }
  }

  lemma {:induction false} LowBound(w: nat, n: nat)
    ensures Low(w, n) < Pow2(n)
  {
    if n > 0 {
      LowBound(w / 2, n - 1);
    }
  }

  lemma BitShl(w: nat, k: nat, i: nat)
    ensures Bit(Shl(w, k), i) == (k <= i < WIDTH && Bit(w, i - k))
  {
    BitLow(Scaled(w, k), WIDTH, i);
    BitScaled(w, k, i);
  }

  lemma {:induction false} BitOnes(k: nat, i: nat)
    ensures Bit(Ones(k), i) == (i < k)
  {
    if k == 0 {
      BitOfZero(i);
    } else if i > 0 {
      assert Ones(k) / 2 == Ones(k - 1);
      BitOnes(k - 1, i - 1);
    }
  }

  lemma {:induction false} BitOfPow2(k: nat, i: nat)
    ensures Bit(Pow2(k), i) == (i == k)
  {
    if k == 0 {
      if i > 0 {
        BitOfZero(i - 1);
      }
    } else if i > 0 {
      BitOfPow2(k - 1, i - 1);
    }
  }

  lemma BitOfUnit(i: nat)
    ensures Bit(1, i) == (i == 0)
  {
    BitOfPow2(0, i);
    assert Pow2(0) == 1;
  }

  // ----- words are determined by their bits -----

  lemma {:induction false} SameBits(a: nat, b: nat)
    requires forall i: nat :: Bit(a, i) == Bit(b, i)
    ensures a == b
    decreases a + b
  {
    assert Bit(a, 0) == Bit(b, 0);
    if a > 0 || b > 0 {
      forall i: nat
        ensures Bit(a / 2, i) == Bit(b / 2, i)
      {
        assert Bit(a, i + 1) == Bit(b, i + 1);
      }
      SameBits(a / 2, b / 2);
    }
  }

  /** A word with no bit at n or above is below 2^n; BitAbove is the converse. */
  lemma FitsBits(w: nat, n: nat)
    requires forall i: nat :: n <= i ==> !Bit(w, i)
    ensures w < Pow2(n)
  {
    forall i: nat
      ensures Bit(Low(w, n), i) == Bit(w, i)
    {
      BitLow(w, n, i);
    }
    SameBits(Low(w, n), w);
    LowBound(w, n);
  }

  lemma {:induction false} BitAbove(w: nat, n: nat, i: nat)
    requires w < Pow2(n) && n <= i
    ensures !Bit(w, i)
  {
    if n == 0 {
      BitOfZero(i);
    } else {
      BitAbove(w / 2, n - 1, i - 1);
    }
  }

  // ----- words given bit by bit -----

  ghost function FromBits(n: nat, f: nat -> bool): nat {
    if n == 0 then 0 else FromBits(n - 1, f) + (if f(n - 1) then Pow2(n - 1) else 0)
  }

  lemma {:induction false} FromBitsBound(n: nat, f: nat -> bool)
    ensures FromBits(n, f) < Pow2(n)
  {
    if n > 0 {
      FromBitsBound(n - 1, f);
    }
  }

  lemma {:induction false} BitFromBits(n: nat, f: nat -> bool, i: nat)
    ensures Bit(FromBits(n, f), i) == (i < n && f(i))
  {
    if n == 0 {
      BitOfZero(i);
    } else {
      var w := FromBits(n - 1, f);
      FromBitsBound(n - 1, f);
      BitFromBits(n - 1, f, i);
      if f(n - 1) {
        BitOfTop(w, n - 1, i);
      }
    }
  }

  /** Adding 2^n to a word below it sets bit n. */
  lemma {:induction false} BitOfTop(w: nat, n: nat, i: nat)
    requires w < Pow2(n)
    ensures Bit(w + Pow2(n), i) == (i == n || Bit(w, i))
  {
    if n == 0 {
      BitOfPow2(0, i);
      BitOfZero(i);
    } else if i > 0 {
      assert (w + Pow2(n)) / 2 == w / 2 + Pow2(n - 1);
      BitOfTop(w / 2, n - 1, i - 1);
    }
  }

  /** Words below 2^n agree once their first n bits do. */
  lemma SameLowBits(a: nat, b: nat, n: nat)
    requires a < Pow2(n) && b < Pow2(n)
    requires forall i: nat :: i < n ==> Bit(a, i) == Bit(b, i)
    ensures a == b
  {
    forall i: nat
      ensures Bit(a, i) == Bit(b, i)
    {
      if n <= i {
        BitAbove(a, n, i);
        BitAbove(b, n, i);
      }
    }
    SameBits(a, b);
  }
}
