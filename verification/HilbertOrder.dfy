/**
 * hilbert_cmp compares two points along the curve, digit by digit from the
 * top, without computing either index.  It agrees with comparing the indices.
 */
module HilbertOrder {
  import opened Numbers
  import opened Words
  import opened Grays
  import opened Rotations
  import opened Transposes
  import opened Digits
  import opened Hilbert

  // ----- the index from the digits of the levels -----

  ghost function LevelBits(n: nat, coord: seq<nat>): nat -> bool {
    (i: nat) => n > 0 && Rem(n, i) < |coord| && Bit(coord[Rem(n, i)], Quot(n, i))
  }

  /** Digit k holds bit k of every coordinate; nothing here is bounded by the width of a word. */
  ghost function Levels(n: nat, m: nat, coord: seq<nat>): nat { FromBits(n * m, LevelBits(n, coord)) }

  lemma BitLevels(n: nat, m: nat, coord: seq<nat>, k: nat, p: nat)
    requires p < n == |coord| && k < m
    ensures Bit(Levels(n, m, coord), At(n, k, p)) == Bit(coord[p], k)
  {
    hide Bit, At, Quot, Rem;
    AtParts(n, k, p);
    AtBelow(n, k, p, m);
    BitFromBits(n * m, LevelBits(n, coord), At(n, k, p));
  }

  lemma LevelsFit(n: nat, m: nat, coord: seq<nat>)
    ensures HasDigits(n, m, Levels(n, m, coord))
  {
    FromBitsBound(n * m, LevelBits(n, coord));
  }

  ghost function TurnedLevel(n: nat, m: nat, levels: nat, k: nat): nat
    requires 0 < n <= WIDTH && k < m
  {
    TurnedDigit(ToIndex, n, m, Gray(n, levels), k)
  }

  ghost predicate FlippedBit(n: nat, m: nat, levels: nat, k: nat, p: nat)
    requires 0 < n <= WIDTH && k < m
  {
    Bit(TurnedLevel(n, m, levels, k), p) != (p + 1 == n && k + 1 < m)
  }

  ghost function SummedBits(n: nat, m: nat, levels: nat): nat -> bool {
    (i: nat) => 0 < n <= WIDTH && Quot(n, i) < m && FlippedBit(n, m, levels, Quot(n, i), Rem(n, i))
  }

  /** The index before its last prefix sums: the turned levels, the top bit of all but the first one flipped. */
  ghost function Summed(n: nat, m: nat, levels: nat): nat { FromBits(n * m, SummedBits(n, m, levels)) }

  /** Where on the curve the point with these levels lies. */
  ghost function CurveIndex(n: nat, m: nat, levels: nat): nat { Ungray(1, Summed(n, m, levels)) }

  ghost function PlaceOnCurve(n: nat, m: nat, coord: seq<nat>): nat { CurveIndex(n, m, Levels(n, m, coord)) }

  lemma BitSummed(n: nat, m: nat, levels: nat, k: nat, p: nat)
    requires 0 < n <= WIDTH && k < m && p < n
    ensures Bit(Summed(n, m, levels), At(n, k, p))
            == (Bit(TurnedLevel(n, m, levels, k), p) != (p + 1 == n && k + 1 < m))
  {
    hide Bit, At, Quot, Rem, TurnedLevel;
    AtParts(n, k, p);
    AtBelow(n, k, p, m);
    BitFromBits(n * m, SummedBits(n, m, levels), At(n, k, p));
  }

  // ----- what the comparison carries from level to level -----

  /** The comparison starts with the top bit set, which the codec leaves clear. */
  ghost function CmpBits(n: nat, m: nat, levels: nat, k: nat): nat
    requires 0 < n <= WIDTH && k < m
  {
    Xor(TurnedLevel(n, m, levels, k), if k + 1 == m then Pow2(n - 1) else 0)
  }

  ghost function CmpIndex(n: nat, m: nat, levels: nat, k: nat): nat
    requires 0 < n <= WIDTH && k < m
    decreases m - k
  {
    if k + 1 == m then Pow2(n - 1) else Xor(CmpIndex(n, m, levels, k + 1), CmpBits(n, m, levels, k + 1))
  }

  /** The low bit of a prefix sum is the parity of the word. */
  ghost predicate Odd(w: nat) { Bit(Ungray(1, w), 0) }

  /** Whether the index bits of level k are the summed comparison bits or their complement. */
  ghost predicate Upright(n: nat, m: nat, levels: nat, k: nat)
    requires 0 < n <= WIDTH && k < m
  {
    Odd(CmpIndex(n, m, levels, k)) != ((m + k) % 2 == 1)
  }

  lemma UngrayOfXor(s: nat, a: nat, b: nat)
    requires s > 0
    ensures Ungray(s, Xor(a, b)) == Xor(Ungray(s, a), Ungray(s, b))
  {
    hide Bit, Gray, Ungray, Xor;
    var u, v := Ungray(s, a), Ungray(s, b);
    GrayOfUngray(s, a);
    GrayOfUngray(s, b);
    forall i: nat
      ensures Bit(Gray(s, Xor(u, v)), i) == Bit(Xor(a, b), i)
    {
      BitGray(s, Xor(u, v), i);
      BitXor(u, v, i);
      BitXor(u, v, i + s);
      BitXor(a, b, i);
      BitGray(s, u, i);
      BitGray(s, v, i);
    }
    SameBits(Gray(s, Xor(u, v)), Xor(a, b));
    UngrayOfGray(s, Xor(u, v));
  }

  lemma OddXor(a: nat, b: nat)
    ensures Odd(Xor(a, b)) == (Odd(a) != Odd(b))
  {
    hide Bit, Ungray, Xor;
    UngrayOfXor(1, a, b);
    BitXor(Ungray(1, a), Ungray(1, b), 0);
  }

  lemma OddPow2(k: nat)
    ensures Odd(Pow2(k))
  {
    hide Bit, Ungray;
    var u := Ungray(1, Pow2(k));
    GrayOfUngray(1, Pow2(k));
    assert Pow2(k) < Pow2(k + 1);
    UngrayBound(1, Pow2(k), k + 1);
    OnesUpTo(u, k, 0);
  }

  /** A word whose only change is at bit k is all ones up to it. */
  lemma {:induction false} OnesUpTo(u: nat, k: nat, i: nat)
    requires Gray(1, u) == Pow2(k) && u < Pow2(k + 1) && i <= k
    ensures Bit(u, i)
    decreases k - i
  {
    hide Bit, Gray, Pow2;
    BitGray(1, u, i);
    BitOfPow2(k, i);
    if i == k {
      BitAbove(u, k + 1, k + 1);
    } else {
      OnesUpTo(u, k, i + 1);
    }
  }

  lemma CmpBitsBound(n: nat, m: nat, levels: nat, k: nat)
    requires 0 < n <= WIDTH && k < m
    ensures CmpBits(n, m, levels, k) < Pow2(n)
  {
    hide Xor, TurnedDigit;
    TurnedDigitBound(ToIndex, n, m, Gray(n, levels), k);
    assert Pow2(n - 1) < Pow2(n);
    XorBound(TurnedLevel(n, m, levels, k), if k + 1 == m then Pow2(n - 1) else 0, n);
  }

  lemma BitCmpBits(n: nat, m: nat, levels: nat, k: nat, p: nat)
    requires 0 < n <= WIDTH && k < m && p < n
    ensures Bit(CmpBits(n, m, levels, k), p) == (Bit(TurnedLevel(n, m, levels, k), p) != (k + 1 == m && p + 1 == n))
  {
    hide Bit, Xor, Pow2, TurnedLevel;
    BitXor(TurnedLevel(n, m, levels, k), if k + 1 == m then Pow2(n - 1) else 0, p);
    BitOfPow2(n - 1, p);
    BitOfZero(p);
  }

  /** Within a level, index bits follow the summed comparison bits, upright or not. */
  lemma {:induction false} LevelBit(n: nat, m: nat, levels: nat, k: nat, p: nat)
    requires 0 < n <= WIDTH && k < m && p < n
    requires Bit(CurveIndex(n, m, levels), At(n, k + 1, 0)) == Upright(n, m, levels, k)
    ensures Bit(CurveIndex(n, m, levels), At(n, k, p))
            == (Bit(Ungray(1, CmpBits(n, m, levels, k)), p) == Upright(n, m, levels, k))
    decreases n - p
  {
    hide Bit, Ungray, At, Upright, CmpBits, CurveIndex, Pow2;
    LevelStep(n, m, levels, k, p);
    if p + 1 < n {
      LevelBit(n, m, levels, k, p + 1);
    } else {
      CmpBitsBound(n, m, levels, k);
      UngrayBound(1, CmpBits(n, m, levels, k), n);
      BitAbove(Ungray(1, CmpBits(n, m, levels, k)), n, p + 1);
    }
  }

  /** Down one place, the index and the summed bits change together, except on entering a level. */
  lemma LevelStep(n: nat, m: nat, levels: nat, k: nat, p: nat)
    requires 0 < n <= WIDTH && k < m && p < n
    ensures var i, u := CurveIndex(n, m, levels), Ungray(1, CmpBits(n, m, levels, k));
            (Bit(i, At(n, k, p)) == Bit(i, if p + 1 < n then At(n, k, p + 1) else At(n, k + 1, 0)))
            == ((Bit(u, p) == Bit(u, p + 1)) != (p + 1 == n))
  {
    hide Bit, Ungray, At, Summed, CmpBits, TurnedLevel, CurveIndex;
    SummedBit(n, m, levels, At(n, k, p));
    FoldedBit(CmpBits(n, m, levels, k), p);
    BitSummed(n, m, levels, k, p);
    BitCmpBits(n, m, levels, k, p);
    PlaceAfter(n, k, p);
  }

  lemma FoldedBit(w: nat, p: nat)
    ensures Bit(w, p) == (Bit(Ungray(1, w), p) != Bit(Ungray(1, w), p + 1))
  {
    hide Bit, Ungray, Gray;
    GrayOfUngray(1, w);
    BitGray(1, Ungray(1, w), p);
  }

  lemma SummedBit(n: nat, m: nat, levels: nat, i: nat)
    requires 0 < n <= WIDTH
    ensures Bit(Summed(n, m, levels), i) == (Bit(CurveIndex(n, m, levels), i) != Bit(CurveIndex(n, m, levels), i + 1))
  {
    hide Bit, Ungray, Summed;
    FoldedBit(Summed(n, m, levels), i);
  }

  lemma PlaceAfter(n: nat, k: nat, p: nat)
    requires p < n
    ensures At(n, k, p) + 1 == if p + 1 < n then At(n, k, p + 1) else At(n, k + 1, 0)
  {
  }

  lemma {:induction false} UprightIs(n: nat, m: nat, levels: nat, k: nat)
    requires 0 < n <= WIDTH && k < m
    ensures Bit(CurveIndex(n, m, levels), At(n, k + 1, 0)) == Upright(n, m, levels, k)
    decreases m - k
  {
    hide Bit, At, Odd, CurveIndex, CmpBits, Pow2;
    if k + 1 == m {
      OddPow2(n - 1);
      IndexBound(n, m, levels);
      AtStep(n, m, 0);
      assert At(n, m, 0) == n * m by { AtIs(n, m, 0); }
      BitAbove(CurveIndex(n, m, levels), n * m, At(n, m, 0));
    } else {
      UprightIs(n, m, levels, k + 1);
      LevelBit(n, m, levels, k + 1, 0);
      OddIs(CmpBits(n, m, levels, k + 1));
      OddXor(CmpIndex(n, m, levels, k + 1), CmpBits(n, m, levels, k + 1));
    }
  }

  lemma OddIs(w: nat)
    ensures Odd(w) == Bit(Ungray(1, w), 0)
  {
  }

  lemma IndexBound(n: nat, m: nat, levels: nat)
    ensures CurveIndex(n, m, levels) < Pow2(n * m)
  {
    FromBitsBound(n * m, SummedBits(n, m, levels));
    hide Pow2, Summed;
    UngrayBound(1, Summed(n, m, levels), n * m);
  }

  // ----- comparing words by their top difference -----

  lemma {:induction false} TopDifference(a: nat, b: nat) returns (p: nat)
    requires a != b
    ensures Bit(a, p) != Bit(b, p) && (a < b <==> Bit(b, p))
    ensures forall q: nat :: p < q ==> Bit(a, q) == Bit(b, q)
    decreases a + b
  {
    if a / 2 == b / 2 {
      p := 0;
    } else {
      p := TopDifference(a / 2, b / 2);
      p := p + 1;
      forall q: nat | p < q
        ensures Bit(a, q) == Bit(b, q)
      {
        assert Bit(a / 2, q - 1) == Bit(b / 2, q - 1);
      }
    }
  }

  lemma OrderAt(a: nat, b: nat, p: nat)
    requires Bit(a, p) != Bit(b, p) && forall q: nat :: p < q ==> Bit(a, q) == Bit(b, q)
    ensures a < b <==> Bit(b, p)
    ensures a != b
  {
    hide Bit;
    var t := TopDifference(a, b);
    assert t == p;
  }

  // ----- equal digits above a level -----

  ghost predicate SameFrom(n: nat, m: nat, a: nat, b: nat, k: nat) {
    forall j: nat :: k <= j < m ==> Digit(n, a, j) == Digit(n, b, j)
  }

  lemma SameGray(n: nat, m: nat, a: nat, b: nat, k: nat)
    requires HasDigits(n, m, a) && HasDigits(n, m, b) && SameFrom(n, m, a, b, k)
    ensures SameFrom(n, m, Gray(n, a), Gray(n, b), k)
  {
    hide Digit, Gray, Xor, HasDigits;
    forall j: nat | k <= j < m
      ensures Digit(n, Gray(n, a), j) == Digit(n, Gray(n, b), j)
    {
      DigitGray(n, a, j);
      DigitGray(n, b, j);
      if j + 1 == m {
        DigitBeyond(n, m, a, m);
        DigitBeyond(n, m, b, m);
      }
    }
  }

  lemma {:induction false} SameTurns(n: nat, m: nat, a: nat, b: nat, k: nat)
    requires 0 < n <= WIDTH && k <= m && SameFrom(n, m, a, b, k)
    ensures TurnAt(ToIndex, n, m, a, k) == TurnAt(ToIndex, n, m, b, k)
    decreases m - k
  {
    if k < m {
      SameTurns(n, m, a, b, k + 1);
      hide Digit, Way.IndexDigit, Follow;
      NextTurn(ToIndex, n, m, a, k);
      NextTurn(ToIndex, n, m, b, k);
    }
  }

  lemma SameCmpBits(n: nat, m: nat, a: nat, b: nat, k: nat, j: nat)
    requires 0 < n <= WIDTH && k < j < m && HasDigits(n, m, a) && HasDigits(n, m, b) && SameFrom(n, m, a, b, k + 1)
    ensures CmpBits(n, m, a, j) == CmpBits(n, m, b, j)
  {
    hide Xor, HasDigits, Way.Turned, Digit, Gray, TurnAt;
    SameGray(n, m, a, b, k + 1);
    SameTurns(n, m, Gray(n, a), Gray(n, b), j + 1);
  }

  lemma {:induction false} SameCmp(n: nat, m: nat, a: nat, b: nat, k: nat)
    requires 0 < n <= WIDTH && k < m && HasDigits(n, m, a) && HasDigits(n, m, b) && SameFrom(n, m, a, b, k + 1)
    ensures CmpIndex(n, m, a, k) == CmpIndex(n, m, b, k)
    ensures forall j: nat :: k < j < m ==> CmpBits(n, m, a, j) == CmpBits(n, m, b, j)
    decreases m - k
  {
    hide Xor, HasDigits, CmpBits, SameFrom;
    forall j: nat | k < j < m
      ensures CmpBits(n, m, a, j) == CmpBits(n, m, b, j)
    {
      SameCmpBits(n, m, a, b, k, j);
    }
    if k + 1 < m {
      SameHigher(n, m, a, b, k + 1);
      SameCmp(n, m, a, b, k + 1);
    }
  }

  lemma SameHigher(n: nat, m: nat, a: nat, b: nat, k: nat)
    requires SameFrom(n, m, a, b, k)
    ensures SameFrom(n, m, a, b, k + 1)
  {
  }

  /** The two indices agree on every bit above the level. */
  lemma SameIndexAbove(n: nat, m: nat, a: nat, b: nat, k: nat, q: nat)
    requires 0 < n <= WIDTH && k < m && HasDigits(n, m, a) && HasDigits(n, m, b)
             && SameFrom(n, m, a, b, k + 1)
    requires At(n, k + 1, 0) <= q
    ensures Bit(CurveIndex(n, m, a), q) == Bit(CurveIndex(n, m, b), q)
  {
    hide Bit, Ungray, CmpBits, CurveIndex, Pow2, At, Quot, Rem, HasDigits, SameFrom, CmpIndex, Odd;
    var j, p := Quot(n, q), Rem(n, q);
    PartsAt(n, q);
    QuotBelow(n, q, m);
    AboveLevel(n, k, q);
    if j < m {
      SameCmp(n, m, a, b, k);
      SameCmpIndexAbove(n, m, a, b, k, j);
      UprightIs(n, m, a, j);
      UprightIs(n, m, b, j);
      LevelBit(n, m, a, j, p);
      LevelBit(n, m, b, j, p);
    } else {
      IndexBound(n, m, a);
      IndexBound(n, m, b);
      BitAbove(CurveIndex(n, m, a), n * m, q);
      BitAbove(CurveIndex(n, m, b), n * m, q);
    }
  }

  lemma AboveLevel(n: nat, k: nat, q: nat)
    requires 0 < n && At(n, k + 1, 0) <= q
    ensures k < Quot(n, q)
  {
    AtIs(n, k + 1, 0);
    QuotBelow(n, q, k + 1);
  }

  lemma {:induction false} SameCmpIndexAbove(n: nat, m: nat, a: nat, b: nat, k: nat, j: nat)
    requires 0 < n <= WIDTH && k <= j < m && HasDigits(n, m, a) && HasDigits(n, m, b) && SameFrom(n, m, a, b, k + 1)
    ensures CmpIndex(n, m, a, j) == CmpIndex(n, m, b, j)
  {
    hide CmpIndex, Digit, HasDigits;
    SameCmp(n, m, a, b, j);
  }

  /** The first level that differs decides, upright or reversed. */
  lemma FirstLevelDecides(n: nat, m: nat, a: nat, b: nat, k: nat)
    requires 0 < n <= WIDTH && k < m && HasDigits(n, m, a) && HasDigits(n, m, b)
             && SameFrom(n, m, a, b, k + 1)
    requires CmpBits(n, m, a, k) != CmpBits(n, m, b, k)
    ensures CurveIndex(n, m, a) != CurveIndex(n, m, b)
    ensures CurveIndex(n, m, a) < CurveIndex(n, m, b)
            <==> ((Ungray(1, CmpBits(n, m, a, k)) < Ungray(1, CmpBits(n, m, b, k))) == Upright(n, m, a, k))
  {
    hide Bit, Ungray, CmpBits, CurveIndex, Pow2, At, HasDigits, SameFrom, CmpIndex, Odd;
    var i, j := CurveIndex(n, m, a), CurveIndex(n, m, b);
    var u, v := Ungray(1, CmpBits(n, m, a, k)), Ungray(1, CmpBits(n, m, b, k));
    GrayOfUngray(1, CmpBits(n, m, a, k));
    GrayOfUngray(1, CmpBits(n, m, b, k));
    var p := TopDifference(u, v);
    TopWithin(n, m, a, b, k, p);
    SameCmp(n, m, a, b, k);
    UprightIs(n, m, a, k);
    UprightIs(n, m, b, k);
    LevelBit(n, m, a, k, p);
    LevelBit(n, m, b, k, p);
    forall q: nat | At(n, k, p) < q
      ensures Bit(i, q) == Bit(j, q)
    {
      if At(n, k + 1, 0) <= q {
        SameIndexAbove(n, m, a, b, k, q);
      } else {
        var p' := PlaceWithin(n, k, p, q);
        LevelBit(n, m, a, k, p');
        LevelBit(n, m, b, k, p');
      }
    }
    OrderAt(i, j, At(n, k, p));
  }

  lemma TopWithin(n: nat, m: nat, a: nat, b: nat, k: nat, p: nat)
    requires 0 < n <= WIDTH && k < m
    requires Bit(Ungray(1, CmpBits(n, m, a, k)), p) != Bit(Ungray(1, CmpBits(n, m, b, k)), p)
    ensures p < n
  {
    hide Bit, Ungray, CmpBits, Pow2;
    CmpBitsBound(n, m, a, k);
    CmpBitsBound(n, m, b, k);
    UngrayBound(1, CmpBits(n, m, a, k), n);
    UngrayBound(1, CmpBits(n, m, b, k), n);
    if n <= p {
      BitAbove(Ungray(1, CmpBits(n, m, a, k)), n, p);
      BitAbove(Ungray(1, CmpBits(n, m, b, k)), n, p);
    }
  }

  lemma PlaceWithin(n: nat, k: nat, p: nat, q: nat) returns (p': nat)
    requires At(n, k, p) < q < At(n, k + 1, 0)
    ensures p < p' < n && q == At(n, k, p')
  {
    p' := q - At(n, k, 0);
  }

  // ----- hilbert_c2i in terms of the levels -----

  /** The levels of a point that fits a word are its transposed coordinates. */
  lemma LevelsAreTransposed(n: nat, m: nat, coord: seq<nat>)
    requires Fits(n, m) && |coord| == n && InRange(m, coord)
    ensures Levels(n, m, coord) == Transpose(n, m, Pack(m, coord)) && HasDigits(m, n, Pack(m, coord))
  {
    var w := Pack(m, coord);
    hide Bit, Digit, Pack, Transpose, At, Quot, Rem, InRange, Pow2, Levels;
    assert n * m == m * n;
    PackedDigits(m, coord);
    LevelsFit(n, m, coord);
    TransposeBound(n, m, w);
    forall i: nat | i < n * m
      ensures Bit(Levels(n, m, coord), i) == Bit(Transpose(n, m, w), i)
    {
      var k, p := Quot(n, i), Rem(n, i);
      PartsAt(n, i);
      QuotBelow(n, i, m);
      BitLevels(n, m, coord, k, p);
      BitTranspose(n, m, w, p, k);
      BitDigit(m, w, p, k);
      assert Unpack(m, n, w)[p] == coord[p];
    }
    SameLowBits(Levels(n, m, coord), Transpose(n, m, w), n * m);
  }

  ghost function WordSummed(n: nat, m: nat, levels: nat): nat
    requires 0 < n <= WIDTH
  {
    Xor(TurnedWord(ToIndex, n, m, Gray(n, levels)), Shr(NthBits(n, m), 1))
  }

  /** In a word the flipped bits are every n-th one, shifted down. */
  lemma SummedInWord(n: nat, m: nat, levels: nat)
    requires Fits(n, m) && n <= WIDTH
    ensures Summed(n, m, levels) == WordSummed(n, m, levels)
  {
    FromBitsBound(n * m, SummedBits(n, m, levels));
    WordSummedBound(n, m, levels);
    hide Bit, Summed, WordSummed, Pow2, At, Quot, Rem, TurnedLevel;
    forall i: nat | i < n * m
      ensures Bit(Summed(n, m, levels), i) == Bit(WordSummed(n, m, levels), i)
    {
      PartsAt(n, i);
      QuotBelow(n, i, m);
      BitSummed(n, m, levels, Quot(n, i), Rem(n, i));
      BitWordSummed(n, m, levels, Quot(n, i), Rem(n, i));
    }
    SameLowBits(Summed(n, m, levels), WordSummed(n, m, levels), n * m);
  }

  lemma BitWordSummed(n: nat, m: nat, levels: nat, k: nat, p: nat)
    requires Fits(n, m) && n <= WIDTH && k < m && p < n
    ensures Bit(WordSummed(n, m, levels), At(n, k, p))
            == (Bit(TurnedLevel(n, m, levels, k), p) != (p + 1 == n && k + 1 < m))
  {
    var w := TurnedWord(ToIndex, n, m, Gray(n, levels));
    hide Bit, Xor, Shr, NthBits, TurnedWord, Gray, At, Digit, Way.Turned, TurnAt;
    BitXor(w, Shr(NthBits(n, m), 1), At(n, k, p));
    BelowNth(n, m, k, p);
    BitDigit(n, w, k, p);
    DigitOfTurned(ToIndex, n, m, Gray(n, levels), k);
  }

  lemma BelowNth(n: nat, m: nat, k: nat, p: nat)
    requires k < m && p < n
    ensures Bit(Shr(NthBits(n, m), 1), At(n, k, p)) == (p + 1 == n && k + 1 < m)
  {
    hide Bit, Shr, NthBits, At, Rem;
    BitShr(NthBits(n, m), 1, At(n, k, p));
    BitNthBits(n, m, At(n, k, p) + 1);
    NextPlace(n, m, k, p);
  }

  lemma WordSummedBound(n: nat, m: nat, levels: nat)
    requires Fits(n, m) && n <= WIDTH
    ensures WordSummed(n, m, levels) < Pow2(n * m)
  {
    hide Pow2, TurnedWord, Xor, Shr, NthBits, Gray;
    TurnedBound(ToIndex, n, m, Gray(n, levels));
    NthBitsBound(n, m);
    XorBound(TurnedWord(ToIndex, n, m, Gray(n, levels)), Shr(NthBits(n, m), 1), n * m);
  }

  /** Where a point that fits a word lies on the curve is its index, in one dimension and with one bit as well. */
  lemma IndexFromLevels(n: nat, m: nat, coord: seq<nat>)
    requires Fits(n, m) && |coord| == n && InRange(m, coord)
    ensures IndexAt(n, m, coord) == PlaceOnCurve(n, m, coord)
  {
    hide Ungray, Gray, TurnedWord, Transpose, Xor, Shr, NthBits, Pow2, Summed, Pack, InRange, Levels;
    FitsSides(n, m);
    assert n * m == m * n;
    LevelsAreTransposed(n, m, coord);
    var w := Pack(m, coord);
    if n == 1 || m == 1 {
      FlatTranspose(n, m, w);
    }
    if n == 1 {
      LineSummed(m, w);
      UngrayOfGray(1, w);
    } else if m == 1 {
      PlainSummed(n, w);
    } else {
      SummedInWord(n, m, Transpose(n, m, w));
    }
  }

  /** One field, or fields of one bit, are already transposed. */
  lemma FlatTranspose(n: nat, m: nat, w: nat)
    requires (n == 1 || m == 1) && n > 0 && m > 0 && w < Pow2(n * m)
    ensures Transpose(n, m, w) == w
  {
    hide Bit, At, Quot, Rem, Transpose, Pow2;
    TransposeBound(n, m, w);
    forall i: nat | i < n * m
      ensures Bit(Transpose(n, m, w), i) == Bit(w, i)
    {
      BitTransposeAt(n, m, w, i);
      QuotBelow(n, i, m);
      FlatPlace(n, m, i);
    }
    SameLowBits(Transpose(n, m, w), w, n * m);
  }

  lemma FlatPlace(n: nat, m: nat, i: nat)
    requires (n == 1 || m == 1) && n > 0 && m > 0 && i < n * m
    ensures At(m, Rem(n, i), Quot(n, i)) == i
  {
    if n == 1 {
      DivUnique(1, i, 0);
    } else {
      DivUnique(n, 0, i);
    }
  }

  lemma {:induction false} RotateNone(w: nat, n: nat)
    requires 0 < n <= WIDTH && w < Pow2(n)
    ensures RotateRight(w, 0, n) == w
  {
    hide Bit, RotateRight, Pow2;
    RotateBound(w, 0, n);
    forall i: nat | i < n
      ensures Bit(RotateRight(w, 0, n), i) == Bit(w, i)
    {
      BitRotateRight(w, 0, n, i);
    }
    SameLowBits(RotateRight(w, 0, n), w, n);
  }

  /** The top level is turned by nothing. */
  lemma TopLevel(n: nat, m: nat, levels: nat)
    requires 0 < n <= WIDTH && 0 < m && HasDigits(n, m, levels)
    ensures TurnedLevel(n, m, levels, m - 1) == Digit(n, levels, m - 1)
  {
    var c := Gray(n, levels);
    hide Digit, Xor, RotateRight, Gray, HasDigits;
    assert TurnAt(ToIndex, n, m, c, m) == Turn(0, 0);
    DigitGray(n, levels, m - 1);
    DigitBeyond(n, m, levels, m);
    DigitBound(n, levels, m - 1);
    XorNone(Digit(n, levels, m - 1));
    RotateNone(Digit(n, levels, m - 1), n);
  }

  /** With one bit a coordinate there is one level, and nothing to add to it. */
  lemma PlainSummed(n: nat, w: nat)
    requires 0 < n <= WIDTH && w < Pow2(n * 1)
    ensures Summed(n, 1, w) == w
  {
    assert HasDigits(n, 1, w);
    FromBitsBound(n * 1, SummedBits(n, 1, w));
    hide Bit, Summed, TurnedLevel, Digit, Pow2, HasDigits;
    TopLevel(n, 1, w);
    forall i: nat | i < n
      ensures Bit(Summed(n, 1, w), i) == Bit(w, i)
    {
      BitSummed(n, 1, w, 0, i);
      BitDigit(n, w, 0, i);
      AtStep(n, 0, i);
    }
    SameLowBits(Summed(n, 1, w), w, n);
  }

  /** In one dimension the turns and the added bits cancel. */
  lemma LineSummed(m: nat, w: nat)
    requires 0 < m <= WIDTH && w < Pow2(1 * m)
    ensures Summed(1, m, w) == Gray(1, w)
  {
    FromBitsBound(1 * m, SummedBits(1, m, w));
    hide Bit, Summed, TurnedLevel, Digit, Pow2, Gray, At;
    GrayBound(1, w, m);
    forall i: nat | i < m
      ensures Bit(Summed(1, m, w), i) == Bit(Gray(1, w), i)
    {
      BitSummed(1, m, w, i, 0);
      AtIs(1, i, 0);
      LineLevel(m, w, i);
      BitDigit(1, Gray(1, w), i, 0);
    }
    SameLowBits(Summed(1, m, w), Gray(1, w), m);
  }

  lemma LineLevel(m: nat, w: nat, k: nat)
    requires k < m
    ensures Bit(TurnedLevel(1, m, w, k), 0) == (Bit(Digit(1, Gray(1, w), k), 0) != (k + 1 < m))
  {
    var c := Gray(1, w);
    var t := TurnAt(ToIndex, 1, m, c, k + 1);
    var d := Xor(t.flipBit, Digit(1, c, k));
    LineTurn(m, c, k + 1);
    hide Bit, Digit, RotateRight, Gray, TurnAt, Pow2, Xor;
    DigitBound(1, c, k);
    XorBound(t.flipBit, Digit(1, c, k), 1);
    RotateNone(d, 1);
    BitXor(t.flipBit, Digit(1, c, k), 0);
  }

  lemma LineTurn(m: nat, c: nat, k: nat)
    requires k <= m
    ensures var t := TurnAt(ToIndex, 1, m, c, k);
            t.rotation == 0 && t.flipBit < Pow2(1) && Bit(t.flipBit, 0) == (k < m)
  {
    var t := TurnAt(ToIndex, 1, m, c, k);
    assert Facing(1, t);
    hide Shl, Digit, Way.IndexDigit;
    if k < m {
      NextTurn(ToIndex, 1, m, c, k);
      var u := TurnAt(ToIndex, 1, m, c, k + 1);
      assert u.rotation == 0 by {
        assert Facing(1, u);
      }
      BitShl(1, 0, 0);
    }
  }

  // ----- one level of the comparison -----

  lemma RotateOfXor(a: nat, b: nat, r: nat, n: nat)
    requires Turns(n, r) && a < Pow2(n) && b < Pow2(n)
    ensures RotateRight(Xor(a, b), r, n) == Xor(RotateRight(a, r, n), RotateRight(b, r, n))
  {
    hide Bit, Xor, RotateRight, Pow2;
    XorBound(a, b, n);
    forall i: nat
      ensures Bit(RotateRight(Xor(a, b), r, n), i) == Bit(Xor(RotateRight(a, r, n), RotateRight(b, r, n)), i)
    {
      var j := if i + r < n then i + r else if n <= i + r then i + r - n else 0;
      BitXor(RotateRight(a, r, n), RotateRight(b, r, n), i);
      BitRotateRight(Xor(a, b), r, n, i);
      BitRotateRight(a, r, n, i);
      BitRotateRight(b, r, n, i);
      BitXor(a, b, j);
    }
    SameBits(RotateRight(Xor(a, b), r, n), Xor(RotateRight(a, r, n), RotateRight(b, r, n)));
  }

  lemma XorShuffle(a: nat, b: nat, c: nat)
    ensures Xor(Xor(a, b), c) == Xor(b, Xor(c, a))
  {
    hide Bit, Xor;
    forall i: nat
      ensures Bit(Xor(Xor(a, b), c), i) == Bit(Xor(b, Xor(c, a)), i)
    {
      BitXor(Xor(a, b), c, i);
      BitXor(a, b, i);
      BitXor(b, Xor(c, a), i);
      BitXor(c, a, i);
    }
    SameBits(Xor(Xor(a, b), c), Xor(b, Xor(c, a)));
  }

  /** The bits the comparison enters level k with. */
  ghost function EntryBits(n: nat, m: nat, levels: nat, k: nat): nat
    requires 0 < n <= WIDTH && k < m
  {
    if k + 1 == m then Pow2(n - 1)
    else Xor(Digit(n, levels, k + 1), TurnAt(ToIndex, n, m, Gray(n, levels), k + 1).flipBit)
  }

  lemma EntryBitsBound(n: nat, m: nat, levels: nat, k: nat)
    requires 0 < n <= WIDTH && k < m
    ensures EntryBits(n, m, levels, k) < Pow2(n)
  {
    hide Xor, Digit, Gray;
    assert Pow2(n - 1) < Pow2(n);
    DigitBound(n, levels, k + 1);
    XorBound(Digit(n, levels, k + 1), TurnAt(ToIndex, n, m, Gray(n, levels), k + 1).flipBit, n);
  }

  lemma CmpLevel(n: nat, m: nat, levels: nat, k: nat)
    requires 0 < n <= WIDTH && k < m && HasDigits(n, m, levels)
    ensures RotateRight(Xor(EntryBits(n, m, levels, k), Digit(n, levels, k)),
                        TurnAt(ToIndex, n, m, Gray(n, levels), k + 1).rotation, n)
            == CmpBits(n, m, levels, k)
  {
    var t := TurnAt(ToIndex, n, m, Gray(n, levels), k + 1);
    var d := Digit(n, levels, k);
    hide Xor, Digit, RotateRight, Gray, Pow2, HasDigits;
    DigitBound(n, levels, k);
    DigitGray(n, levels, k);
    if k + 1 == m {
      TopLevel(n, m, levels);
      EntryBitsBound(n, m, levels, k);
      RotateOfXor(Pow2(n - 1), d, 0, n);
      RotateNone(Pow2(n - 1), n);
      RotateNone(d, n);
      XorTwice(d, Pow2(n - 1));
    } else {
      XorShuffle(Digit(n, levels, k + 1), t.flipBit, d);
      XorNone(TurnedLevel(n, m, levels, k));
    }
  }

  /** The flipped top bit does not turn the next level otherwise. */
  lemma SameHalvings(n: nat, a: nat, b: nat)
    requires 0 < n && 0 < Ffs(a) < n && forall p: nat :: p + 1 < n ==> Bit(a, p) == Bit(b, p)
    ensures Ffs(b) == Ffs(a)
  {
    hide Bit, Ffs;
    FfsIsLowest(a);
    FfsIsLowest(b);
    FfsOfNone();
    assert Bit(b, Ffs(a) - 1);
    if b == 0 {
      BitOfZero(Ffs(a) - 1);
    }
  }

  lemma FfsOfNone()
    ensures Ffs(0) == 0
  {
  }

  lemma CmpRotation(n: nat, m: nat, levels: nat, k: nat, rotation: nat)
    requires 0 < n <= WIDTH && k < m && rotation < n
    ensures CmpBits(n, m, levels, k) < Pow2(n)
    ensures NextRotation(n, rotation, CmpBits(n, m, levels, k))
             == NextRotation(n, rotation, TurnedLevel(n, m, levels, k))
  {
    var a, b := CmpBits(n, m, levels, k), TurnedLevel(n, m, levels, k);
    CmpBitsBound(n, m, levels, k);
    TurnedDigitBound(ToIndex, n, m, Gray(n, levels), k);
    hide CmpBits, TurnedLevel, Bit, Ffs, NextRotation, Pow2;
    forall p: nat | p + 1 < n
      ensures Bit(a, p) == Bit(b, p)
    {
      BitCmpBits(n, m, levels, k, p);
    }
    WrapOnce(n, rotation, a);
    WrapOnce(n, rotation, b);
    if 0 < Ffs(a) < n {
      SameHalvings(n, a, b);
    } else if 0 < Ffs(b) < n {
      SameHalvings(n, b, a);
    }
  }

  // ----- the comparison -----

  /** Bit y of every coordinate. */
  ghost predicate IsSlice(bits: nat, coord: seq<nat>, y: nat) {
    forall i: nat :: Bit(bits, i) == (i < |coord| && Bit(coord[i], y))
  }

  method GetIntBits(nDims: nat, c: array<nat>, y: nat) returns (bits: nat)
    requires nDims <= WIDTH && nDims <= c.Length
    ensures IsSlice(bits, c[..nDims], y)
  {
    hide Bit, Or, Shl, Shr, And;
    bits := 0;
    forall i: nat
      ensures !Bit(bits, i)
    {
      BitOfZero(i);
    }
    for d := 0 to nDims
      invariant forall i: nat :: Bit(bits, i) == (i < d && Bit(c[i], y))
    {
      var next := Or(bits, Shl(And(Shr(c[d], y), 1), d));
      forall i: nat
        ensures Bit(next, i) == (i < d + 1 && Bit(c[i], y))
      {
        BitOr(bits, Shl(And(Shr(c[d], y), 1), d), i);
        BitShl(And(Shr(c[d], y), 1), d, i);
        if d <= i {
          BitAnd(Shr(c[d], y), 1, i - d);
          BitShr(c[d], y, i - d);
          BitOfUnit(i - d);
        }
      }
      bits := next;
    }
  }

  /** The bits read are a digit of the levels. */
  lemma IsLevel(n: nat, m: nat, coord: seq<nat>, y: nat, bits: nat)
    requires |coord| == n && y < m && IsSlice(bits, coord, y)
    ensures bits == Digit(n, Levels(n, m, coord), y)
  {
    hide Bit, Digit, At, Levels;
    forall i: nat
      ensures Bit(bits, i) == Bit(Digit(n, Levels(n, m, coord), y), i)
    {
      BitDigit(n, Levels(n, m, coord), y, i);
      if i < n {
        BitLevels(n, m, coord, y, i);
      }
    }
    SameBits(bits, Digit(n, Levels(n, m, coord), y));
  }

  /** Different points have different levels. */
  lemma LevelsInjective(n: nat, m: nat, a: seq<nat>, b: seq<nat>)
    requires |a| == |b| == n && InRange(m, a) && InRange(m, b) && Levels(n, m, a) == Levels(n, m, b)
    ensures a == b
  {
    hide Bit, At, Levels, Pow2;
    forall p: nat | p < n
      ensures a[p] == b[p]
    {
      forall k: nat | k < m
        ensures Bit(a[p], k) == Bit(b[p], k)
      {
        BitLevels(n, m, a, k, p);
        BitLevels(n, m, b, k, p);
      }
      SameLowBits(a[p], b[p], m);
    }
  }

  /** The state before level y - 1. */
  ghost predicate Comparing(n: nat, m: nat, a: nat, b: nat, y: nat, rotation: nat, bits: nat, index: nat)
    requires 0 < n <= WIDTH
  {
    && y <= m && SameFrom(n, m, a, b, y)
    && rotation == TurnAt(ToIndex, n, m, Gray(n, a), y).rotation
    && (y > 0 ==> bits == EntryBits(n, m, a, y - 1) && index == CmpIndex(n, m, a, y - 1))
  }

  lemma ComparingStarts(n: nat, m: nat, a: nat, b: nat)
    requires 0 < n <= WIDTH
    ensures Comparing(n, m, a, b, m, 0, Pow2(n - 1), Pow2(n - 1))
  {
  }

  /** Equal levels pass the state on. */
  lemma ComparingStep(n: nat, m: nat, a: nat, b: nat, y: nat, rotation: nat, bits: nat, index: nat)
    requires 0 < n <= WIDTH && 0 < y <= m && HasDigits(n, m, a) && Comparing(n, m, a, b, y, rotation, bits, index)
    ensures Turns(n, rotation) && bits < Pow2(n)
    ensures var cmp := RotateRight(Xor(bits, Digit(n, a, y - 1)), rotation, n);
            && cmp == CmpBits(n, m, a, y - 1) && cmp < Pow2(n)
            && (Digit(n, a, y - 1) == Digit(n, b, y - 1) ==>
                  Comparing(n, m, a, b, y - 1, NextRotation(n, rotation, cmp),
                            Xor(Digit(n, a, y - 1), Shl(1, rotation)), Xor(index, cmp)))
  {
    var k := y - 1;
    hide RotateRight, Xor, Digit, Gray, NextRotation, Shl, TurnAt, HasDigits, Pow2, CmpBits;
    var t := TurnAt(ToIndex, n, m, Gray(n, a), y);
    assert Facing(n, t);
    EntryBitsBound(n, m, a, k);
    CmpLevel(n, m, a, k);
    CmpRotation(n, m, a, k, rotation);
    NextTurn(ToIndex, n, m, Gray(n, a), k);
  }

  lemma CmpIndexBound(n: nat, m: nat, levels: nat, k: nat)
    requires 0 < n <= WIDTH && k < m
    ensures CmpIndex(n, m, levels, k) < Pow2(n)
    decreases m - k
  {
    hide CmpBits, Xor;
    if k + 1 == m {
      assert Pow2(n - 1) < Pow2(n);
    } else {
      CmpIndexBound(n, m, levels, k + 1);
      CmpBitsBound(n, m, levels, k + 1);
      XorBound(CmpIndex(n, m, levels, k + 1), CmpBits(n, m, levels, k + 1), n);
    }
  }

  /** The other point's comparison bits, from this one's and the rotated difference. */
  lemma OtherBits(n: nat, m: nat, a: nat, b: nat, k: nat)
    requires 0 < n <= WIDTH && k < m && HasDigits(n, m, a) && HasDigits(n, m, b) && SameFrom(n, m, a, b, k + 1)
    ensures var rotation := TurnAt(ToIndex, n, m, Gray(n, a), k + 1).rotation;
            CmpBits(n, m, b, k)
            == Xor(CmpBits(n, m, a, k), RotateRight(Xor(Digit(n, a, k), Digit(n, b, k)), rotation, n))
    ensures Digit(n, a, k) != Digit(n, b, k) ==> CmpBits(n, m, a, k) != CmpBits(n, m, b, k)
  {
    var t := TurnAt(ToIndex, n, m, Gray(n, a), k + 1);
    var entry, da, db := EntryBits(n, m, a, k), Digit(n, a, k), Digit(n, b, k);
    hide RotateRight, RotateLeft, Xor, Digit, Gray, TurnAt, HasDigits, Pow2, CmpBits;
    SameGray(n, m, a, b, k + 1);
    SameTurns(n, m, Gray(n, a), Gray(n, b), k + 1);
    assert EntryBits(n, m, b, k) == entry;
    hide EntryBits, SameFrom;
    EntryBitsBound(n, m, a, k);
    DigitBound(n, a, k);
    DigitBound(n, b, k);
    CmpLevel(n, m, a, k);
    CmpLevel(n, m, b, k);
    XorBound(entry, da, n);
    XorBound(da, db, n);
    XorBound(entry, db, n);
    XorOver(entry, da, db);
    RotateOfXor(Xor(entry, da), Xor(da, db), t.rotation, n);
    RotateBack(Xor(entry, da), t.rotation, n);
    RotateBack(Xor(entry, db), t.rotation, n);
    XorTwice(da, entry);
    XorTwice(db, entry);
  }

  lemma XorOver(e: nat, a: nat, b: nat)
    ensures Xor(e, b) == Xor(Xor(e, a), Xor(a, b))
  {
    hide Bit, Xor;
    forall i: nat
      ensures Bit(Xor(e, b), i) == Bit(Xor(Xor(e, a), Xor(a, b)), i)
    {
      BitXor(e, b, i);
      BitXor(e, a, i);
      BitXor(a, b, i);
      BitXor(Xor(e, a), Xor(a, b), i);
    }
    SameBits(Xor(e, b), Xor(Xor(e, a), Xor(a, b)));
  }

  /** Whether, by the state at the first difference, the first point comes first. */
  ghost predicate ComesFirst(m: nat, k: nat, index: nat, cmp: nat, diff: nat) {
    (Odd(index) != ((m + k) % 2 == 1)) == (Ungray(1, cmp) < Ungray(1, Xor(cmp, diff)))
  }

  lemma LevelDecided(n: nat, m: nat, a: nat, b: nat, k: nat, rotation: nat, entry: nat, index: nat, cmp: nat, diff: nat)
    requires 0 < n <= WIDTH && k < m && HasDigits(n, m, a) && HasDigits(n, m, b) && Turns(n, rotation)
    requires Comparing(n, m, a, b, k + 1, rotation, entry, index) && Digit(n, a, k) != Digit(n, b, k)
    requires cmp == CmpBits(n, m, a, k) && diff == RotateRight(Xor(Digit(n, a, k), Digit(n, b, k)), rotation, n)
    ensures index < Pow2(n) && cmp < Pow2(n) && diff < Pow2(n)
    ensures CurveIndex(n, m, a) < CurveIndex(n, m, b) <==> ComesFirst(m, k, index, cmp, diff)
    ensures CurveIndex(n, m, a) != CurveIndex(n, m, b)
  {
    hide RotateRight, Xor, Digit, Gray, TurnAt, HasDigits, Pow2, CmpBits, SameFrom, CurveIndex, Ungray, Odd, EntryBits;
    var t := TurnAt(ToIndex, n, m, Gray(n, a), k + 1);
    assert Facing(n, t);
    CmpIndexBound(n, m, a, k);
    CmpBitsBound(n, m, a, k);
    DigitBound(n, a, k);
    DigitBound(n, b, k);
    XorBound(Digit(n, a, k), Digit(n, b, k), n);
    RotateBound(Xor(Digit(n, a, k), Digit(n, b, k)), rotation, n);
    OtherBits(n, m, a, b, k);
    FirstLevelDecides(n, m, a, b, k);
  }

  lemma AllLevelsSame(n: nat, m: nat, a: nat, b: nat, rotation: nat, bits: nat, index: nat)
    requires 0 < n <= WIDTH && HasDigits(n, m, a) && HasDigits(n, m, b)
    requires Comparing(n, m, a, b, 0, rotation, bits, index)
    ensures a == b
  {
    hide Digit, HasDigits;
    SameDigits(n, m, a, b);
  }

  lemma XorZero(a: nat, b: nat)
    ensures Xor(a, b) == 0 <==> a == b
  {
    XorTwice(a, b);
    XorNone(b);
    hide Bit, Xor;
    forall i: nat
      ensures Bit(Xor(b, b), i) == Bit(0, i)
    {
      BitXor(b, b, i);
      BitOfZero(i);
    }
    SameBits(Xor(b, b), 0);
  }

  lemma TopBit(n: nat)
    requires 0 < n <= WIDTH
    ensures Shl(1, n - 1) == Pow2(n - 1)
  {
    hide Bit, Shl;
    var k := n - 1;
    forall i: nat
      ensures Bit(Shl(1, k), i) == Bit(Pow2(k), i)
    {
      BitShl(1, k, i);
      BitOfPow2(k, i);
      if k <= i {
        BitOfUnit(i - k);
      }
    }
    SameBits(Shl(1, k), Pow2(k));
  }

  lemma LowBit(w: nat)
    ensures (And(w, 1) == 1) == Bit(w, 0)
  {
    hide Bit, And;
    BitAnd(w, 1, 0);
    BitOfUnit(0);
    BitOfZero(0);
    if Bit(w, 0) {
      forall i: nat
        ensures Bit(And(w, 1), i) == Bit(1, i)
      {
        BitAnd(w, 1, i);
        BitOfUnit(i);
      }
      SameBits(And(w, 1), 1);
    }
  }

  /** The prefix sums of all three words, and the verdict. */
  method Verdict(nDims: nat, nBits: nat, y: nat, index0: nat, bits0: nat, diff0: nat) returns (r: int)
    requires nDims > 0 && index0 < Pow2(nDims) && bits0 < Pow2(nDims) && diff0 < Pow2(nDims)
    ensures r == if ComesFirst(nBits, y, index0, bits0, diff0) then -1 else 1
  {
    hide Xor, Shr, Ungray, Pow2, Bit, And;
    var index := FoldShifts(1, nDims, index0);
    var bits := FoldShifts(1, nDims, bits0);
    var diff := FoldShifts(1, nDims, diff0);
    UngrayOfXor(1, bits0, diff0);
    LowBit(Xor(Xor(index, y), nBits));
    BitXor(Xor(index, y), nBits, 0);
    BitXor(index, y, 0);
    ParityBits(nBits, y);
    return if (And(Xor(Xor(index, y), nBits), 1) == 1) == (bits < Xor(bits, diff)) then -1 else 1;
  }

  lemma ParityBits(m: nat, y: nat)
    ensures (Bit(m, 0) != Bit(y, 0)) == ((m + y) % 2 == 1)
  {
  }

  method HilbertCmp(nDims: nat, nBits: nat, coord1: array<nat>, coord2: array<nat>) returns (r: int)
    requires 0 < nDims <= WIDTH && nDims <= coord1.Length && nDims <= coord2.Length
    requires InRange(nBits, coord1[..nDims]) && InRange(nBits, coord2[..nDims])
    ensures r == -1 <==> PlaceOnCurve(nDims, nBits, coord1[..nDims]) < PlaceOnCurve(nDims, nBits, coord2[..nDims])
    ensures r == 1 <==> PlaceOnCurve(nDims, nBits, coord1[..nDims]) > PlaceOnCurve(nDims, nBits, coord2[..nDims])
    ensures r == 0 <==> coord1[..nDims] == coord2[..nDims]
    ensures Fits(nDims, nBits) ==>
              && (r == -1 <==> IndexAt(nDims, nBits, coord1[..nDims]) < IndexAt(nDims, nBits, coord2[..nDims]))
              && (r == 1 <==> IndexAt(nDims, nBits, coord1[..nDims]) > IndexAt(nDims, nBits, coord2[..nDims]))
    ensures r == -1 || r == 0 || r == 1
  {
    hide IndexAt, InRange, Pow2, Fits, CurveIndex, Levels, HasDigits;
    if Fits(nDims, nBits) {
      IndexFromLevels(nDims, nBits, coord1[..nDims]);
      IndexFromLevels(nDims, nBits, coord2[..nDims]);
    }
    r := CompareLevels(nDims, nBits, coord1, coord2);
    if r == 0 {
      LevelsInjective(nDims, nBits, coord1[..nDims], coord2[..nDims]);
    }
  }

  lemma StateFits(n: nat, m: nat, a: nat, b: nat, y: nat, rotation: nat, bits: nat, index: nat)
    requires 0 < n <= WIDTH && Comparing(n, m, a, b, y, rotation, bits, index)
    ensures Turns(n, rotation)
  {
    hide TurnAt, EntryBits, CmpIndex, SameFrom;
    assert Facing(n, TurnAt(ToIndex, n, m, Gray(n, a), y));
  }

  /** Past a level on which the points agree. */
  method NextLevel(nDims: nat, ghost m: nat, ghost a: nat, ghost b: nat, ghost y: nat,
                   rotation: nat, ghost entry: nat, index: nat, reflection: nat, bits: nat)
    returns (rotation': nat, bits': nat, index': nat)
    requires 0 < nDims <= WIDTH && y < m && HasDigits(nDims, m, a) && Turns(nDims, rotation)
    requires Comparing(nDims, m, a, b, y + 1, rotation, entry, index)
    requires reflection == Digit(nDims, a, y) == Digit(nDims, b, y)
    requires bits == RotateRight(Xor(entry, reflection), rotation, nDims)
    ensures Comparing(nDims, m, a, b, y, rotation', bits', index')
  {
    hide Comparing, RotateRight, Xor, NextRotation, Shl, Digit, HasDigits, Pow2, CmpBits;
    ComparingStep(nDims, m, a, b, y + 1, rotation, entry, index);
    index' := Xor(index, bits);
    bits' := Xor(reflection, Shl(1, rotation));
    rotation' := AdjustRotation(rotation, nDims, bits);
  }

  /** Level y of the first point, and where the second differs. */
  method ReadLevel(nDims: nat, ghost nBits: nat, coord1: array<nat>, coord2: array<nat>, y: nat)
    returns (reflection: nat, diff: nat)
    requires 0 < nDims <= WIDTH && nDims <= coord1.Length && nDims <= coord2.Length && y < nBits
    ensures reflection == Digit(nDims, Levels(nDims, nBits, coord1[..nDims]), y)
    ensures diff == Xor(reflection, Digit(nDims, Levels(nDims, nBits, coord2[..nDims]), y))
    ensures diff == 0 <==> reflection == Digit(nDims, Levels(nDims, nBits, coord2[..nDims]), y)
  {
    hide Levels, Xor, Digit, IsSlice;
    reflection := GetIntBits(nDims, coord1, y);
    IsLevel(nDims, nBits, coord1[..nDims], y, reflection);
    diff := GetIntBits(nDims, coord2, y);
    IsLevel(nDims, nBits, coord2[..nDims], y, diff);
    XorZero(reflection, diff);
    diff := Xor(reflection, diff);
  }

  method CompareLevels(nDims: nat, nBits: nat, coord1: array<nat>, coord2: array<nat>) returns (r: int)
    requires 0 < nDims <= WIDTH && nDims <= coord1.Length && nDims <= coord2.Length
    ensures var i, j := CurveIndex(nDims, nBits, Levels(nDims, nBits, coord1[..nDims])),
                        CurveIndex(nDims, nBits, Levels(nDims, nBits, coord2[..nDims]));
            (r == -1 <==> i < j) && (r == 1 <==> i > j) && (r == 0 <==> i == j)
    ensures r == 0 ==> Levels(nDims, nBits, coord1[..nDims]) == Levels(nDims, nBits, coord2[..nDims])
  {
    ghost var a, b := Levels(nDims, nBits, coord1[..nDims]), Levels(nDims, nBits, coord2[..nDims]);
    hide Levels, Comparing, RotateRight, Xor, NextRotation, Shl, Digit, CurveIndex, HasDigits, Pow2,
         CmpBits, ComesFirst;
    LevelsFit(nDims, nBits, coord1[..nDims]);
    LevelsFit(nDims, nBits, coord2[..nDims]);
    TopBit(nDims);
    ComparingStarts(nDims, nBits, a, b);
    var bits, index, rotation := Shl(1, nDims - 1), Shl(1, nDims - 1), 0;
    var y := nBits;
    while y > 0
      invariant 0 <= y <= nBits && Comparing(nDims, nBits, a, b, y, rotation, bits, index)
    {
      StateFits(nDims, nBits, a, b, y, rotation, bits, index);
      ghost var entry := bits;
      y := y - 1;
      var reflection, diff := ReadLevel(nDims, nBits, coord1, coord2, y);
      bits := RotateRight(Xor(bits, reflection), rotation, nDims);
      ComparingStep(nDims, nBits, a, b, y + 1, rotation, entry, index);
      if diff != 0 {
        diff := RotateRight(diff, rotation, nDims);
        LevelDecided(nDims, nBits, a, b, y, rotation, entry, index, bits, diff);
        r := Verdict(nDims, nBits, y, index, bits, diff);
        return;
      }
      rotation, bits, index := NextLevel(nDims, nBits, a, b, y, rotation, entry, index, reflection, bits);
    }
    AllLevelsSame(nDims, nBits, a, b, rotation, bits, index);
    return 0;
  }
}
