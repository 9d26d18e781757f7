/** Words as strings of n-bit digits, lowest digit first. */
module Digits {
  import opened Numbers
  import opened Words
  import opened Transposes

  function Digit(n: nat, w: nat, k: nat): nat { And(Shr(w, n * k), Ones(n)) }

  /** Append a digit below the others. */
  function Push(n: nat, w: nat, d: nat): nat { Or(Shl(w, n), d) }

  lemma BitDigit(n: nat, w: nat, k: nat, i: nat)
    ensures Bit(Digit(n, w, k), i) == (i < n && Bit(w, At(n, k, i)))
  {
    hide Bit, And, Shr, Ones;
    BitAnd(Shr(w, n * k), Ones(n), i);
    BitShr(w, n * k, i);
    BitOnes(n, i);
    assert i + n * k == At(n, k, i);
  }

  lemma DigitBound(n: nat, w: nat, k: nat)
    ensures Digit(n, w, k) < Pow2(n)
  {
    hide Bit, Digit, Pow2;
    forall i: nat | n <= i
      ensures !Bit(Digit(n, w, k), i)
    {
      BitDigit(n, w, k, i);
    }
    FitsBits(Digit(n, w, k), n);
  }

  /** A word of m digits of n bits. */
  ghost predicate HasDigits(n: nat, m: nat, w: nat) { w < Pow2(n * m) }

  lemma DigitBeyond(n: nat, m: nat, w: nat, k: nat)
    requires HasDigits(n, m, w) && m <= k
    ensures Digit(n, w, k) == 0
  {
    hide Bit, Digit, Pow2, At;
    forall i: nat
      ensures Bit(Digit(n, w, k), i) == Bit(0, i)
    {
      BitDigit(n, w, k, i);
      BitOfZero(i);
      if i < n {
        AtBelow(n, k, i, m);
        BitAbove(w, n * m, At(n, k, i));
      }
    }
    SameBits(Digit(n, w, k), 0);
  }

  lemma SameDigits(n: nat, m: nat, a: nat, b: nat)
    requires n > 0 && HasDigits(n, m, a) && HasDigits(n, m, b)
    requires forall k: nat :: k < m ==> Digit(n, a, k) == Digit(n, b, k)
    ensures a == b
  {
    hide Bit, Digit, Pow2, At, Quot, Rem;
    forall i: nat | i < n * m
      ensures Bit(a, i) == Bit(b, i)
    {
      var k := Quot(n, i);
      PartsAt(n, i);
      QuotBelow(n, i, m);
      assert Digit(n, a, k) == Digit(n, b, k);
      BitDigit(n, a, k, Rem(n, i));
      BitDigit(n, b, k, Rem(n, i));
    }
    SameLowBits(a, b, n * m);
  }

  lemma BitPush(n: nat, m: nat, w: nat, d: nat, i: nat)
    requires HasDigits(n, m, w) && d < Pow2(n) && n * (m + 1) <= WIDTH
    ensures Bit(Push(n, w, d), i) == if i < n then Bit(d, i) else Bit(w, i - n)
  {
    hide Bit, Shl, Or, Pow2;
    BitOr(Shl(w, n), d, i);
    BitShl(w, n, i);
    assert n * (m + 1) == n * m + n;
    if n <= i {
      BitAbove(d, n, i);
      if WIDTH <= i {
        BitAbove(w, n * m, i - n);
      }
    }
  }

  lemma PushBound(n: nat, m: nat, w: nat, d: nat)
    requires HasDigits(n, m, w) && d < Pow2(n) && n * (m + 1) <= WIDTH
    ensures HasDigits(n, m + 1, Push(n, w, d))
  {
    hide Bit, Push, Pow2;
    assert n * (m + 1) == n * m + n;
    forall i: nat | n * (m + 1) <= i
      ensures !Bit(Push(n, w, d), i)
    {
      BitPush(n, m, w, d, i);
      BitAbove(w, n * m, i - n);
    }
    FitsBits(Push(n, w, d), n * (m + 1));
  }

  /** The new digit comes first and the others move up. */
  lemma PushedDigits(n: nat, m: nat, w: nat, d: nat, k: nat)
    requires HasDigits(n, m, w) && d < Pow2(n) && n * (m + 1) <= WIDTH
    ensures Digit(n, Push(n, w, d), k) == if k == 0 then d else Digit(n, w, k - 1)
  {
    hide Bit, Push, Digit, Pow2, HasDigits;
    var e := if k == 0 then d else Digit(n, w, k - 1);
    forall i: nat
      ensures Bit(Digit(n, Push(n, w, d), k), i) == Bit(e, i)
    {
      BitDigit(n, Push(n, w, d), k, i);
      BitPush(n, m, w, d, At(n, k, i));
      if k > 0 {
        BitDigit(n, w, k - 1, i);
        AtStep(n, k - 1, i);
      } else {
        AtStep(n, 0, i);
        if n <= i {
          BitAbove(d, n, i);
        }
      }
    }
    SameBits(Digit(n, Push(n, w, d), k), e);
  }

  // ----- points packed into one word -----

  /** The first field lowest. */
  function Pack(n: nat, s: seq<nat>): nat {
    if |s| == 0 then 0 else Push(n, Pack(n, s[1..]), s[0])
  }

  ghost function Unpack(n: nat, m: nat, w: nat): (s: seq<nat>)
    ensures |s| == m
  {
    seq(m, k requires 0 <= k < m => Digit(n, w, k))
  }

  ghost predicate InRange(n: nat, s: seq<nat>) { forall k :: 0 <= k < |s| ==> s[k] < Pow2(n) }

  lemma {:induction false} PackedDigits(n: nat, s: seq<nat>)
    requires n * |s| <= WIDTH && InRange(n, s)
    ensures HasDigits(n, |s|, Pack(n, s))
    ensures Unpack(n, |s|, Pack(n, s)) == s
  {
    if |s| == 0 {
      assert n * 0 == 0;
    } else {
      var w := Pack(n, s[1..]);
      assert n * |s| == n * (|s| - 1) + n;
      hide Digit, Push, HasDigits, Pow2;
      PackedDigits(n, s[1..]);
      PushBound(n, |s| - 1, w, s[0]);
      forall k: nat | k < |s|
        ensures Digit(n, Push(n, w, s[0]), k) == s[k]
      {
        PushedDigits(n, |s| - 1, w, s[0], k);
        if k > 0 {
          assert Unpack(n, |s| - 1, w)[k - 1] == s[1..][k - 1];
        }
      }
    }
  }

  lemma PackUnpacked(n: nat, m: nat, w: nat)
    requires n > 0 && n * m <= WIDTH && HasDigits(n, m, w)
    ensures InRange(n, Unpack(n, m, w)) && Pack(n, Unpack(n, m, w)) == w
  {
    hide Digit, Pack, HasDigits, Pow2;
    var s := Unpack(n, m, w);
    forall k: nat | k < m
      ensures s[k] < Pow2(n)
    {
      DigitBound(n, w, k);
    }
    PackedDigits(n, s);
    forall k: nat | k < m
      ensures Digit(n, Pack(n, s), k) == Digit(n, w, k)
    {
      assert Unpack(n, m, Pack(n, s))[k] == s[k];
    }
    SameDigits(n, m, Pack(n, s), w);
  }
}
