/**
 * Dropping low bits of every coordinate gives the coarser cell a point lies
 * in.  Its place along the coarser curve is the point's own place with the
 * low digits dropped, so places along a curve too long for a word refine the
 * indices of the codec.
 */
module HilbertScale {
  import opened Numbers
  import opened Words
  import opened Grays
  import opened Digits
  import opened Hilbert
  import opened HilbertOrder

  ghost function Coarse(coord: seq<nat>, j: nat): (s: seq<nat>)
    ensures |s| == |coord|
  {
    seq(|coord|, p requires 0 <= p < |coord| => Shr(coord[p], j))
  }

  /** Each digit of one word is a digit of the other, j places up. */
  ghost predicate Above(n: nat, j: nat, a: nat, b: nat) {
    forall k: nat :: Digit(n, a, k) == Digit(n, b, k + j)
  }

  lemma CoarseLevels(n: nat, m: nat, j: nat, coord: seq<nat>)
    requires |coord| == n
    ensures Above(n, j, Levels(n, m, Coarse(coord, j)), Levels(n, m + j, coord))
  {
    hide Digit, Levels, HasDigits;
    forall k: nat
      ensures Digit(n, Levels(n, m, Coarse(coord, j)), k) == Digit(n, Levels(n, m + j, coord), k + j)
    {
      if k < m {
        CoarseLevel(n, m, j, coord, k);
      } else {
        LevelsFit(n, m, Coarse(coord, j));
        LevelsFit(n, m + j, coord);
        DigitBeyond(n, m, Levels(n, m, Coarse(coord, j)), k);
        DigitBeyond(n, m + j, Levels(n, m + j, coord), k + j);
      }
    }
  }

  lemma CoarseLevel(n: nat, m: nat, j: nat, coord: seq<nat>, k: nat)
    requires |coord| == n && k < m
    ensures Digit(n, Levels(n, m, Coarse(coord, j)), k) == Digit(n, Levels(n, m + j, coord), k + j)
  {
    var a, b := Levels(n, m, Coarse(coord, j)), Levels(n, m + j, coord);
    hide Bit, Digit, Levels, Shr, At;
    forall p: nat
      ensures Bit(Digit(n, a, k), p) == Bit(Digit(n, b, k + j), p)
    {
      BitDigit(n, a, k, p);
      BitDigit(n, b, k + j, p);
      if p < n {
        BitLevels(n, m, Coarse(coord, j), k, p);
        BitLevels(n, m + j, coord, k + j, p);
        BitShr(coord[p], j, k);
      }
    }
    SameBits(Digit(n, a, k), Digit(n, b, k + j));
  }

  lemma CoarseGray(n: nat, j: nat, a: nat, b: nat)
    requires Above(n, j, a, b)
    ensures Above(n, j, Gray(n, a), Gray(n, b))
  {
    hide Digit, Gray, Xor;
    forall k: nat
      ensures Digit(n, Gray(n, a), k) == Digit(n, Gray(n, b), k + j)
    {
      DigitGray(n, a, k);
      DigitGray(n, b, k + j);
      var next := k + 1;
      assert Digit(n, a, next) == Digit(n, b, next + j);
    }
  }

  lemma {:induction false} CoarseTurns(n: nat, m: nat, j: nat, a: nat, b: nat, k: nat)
    requires 0 < n <= WIDTH && k <= m && Above(n, j, a, b)
    ensures TurnAt(ToIndex, n, m, a, k) == TurnAt(ToIndex, n, m + j, b, k + j)
    decreases m - k
  {
    hide TurnAt, Above;
    if k == m {
      FirstTurn(ToIndex, n, m, a);
      FirstTurn(ToIndex, n, m + j, b);
    } else {
      CoarseTurns(n, m, j, a, b, k + 1);
      CoarseTurn(n, m, j, a, b, k);
    }
  }

  lemma CoarseTurn(n: nat, m: nat, j: nat, a: nat, b: nat, k: nat)
    requires 0 < n <= WIDTH && k < m && Above(n, j, a, b)
    requires TurnAt(ToIndex, n, m, a, k + 1) == TurnAt(ToIndex, n, m + j, b, k + 1 + j)
    ensures TurnAt(ToIndex, n, m, a, k) == TurnAt(ToIndex, n, m + j, b, k + j)
  {
    hide Digit, Way.IndexDigit, Follow, TurnAt, Facing;
    NextTurn(ToIndex, n, m, a, k);
    NextTurn(ToIndex, n, m + j, b, k + j);
  }

  lemma CoarseCmpBits(n: nat, m: nat, j: nat, a: nat, b: nat, k: nat)
    requires 0 < n <= WIDTH && k < m && Above(n, j, a, b)
    ensures CmpBits(n, m, a, k) == CmpBits(n, m + j, b, k + j)
  {
    hide Xor, Way.Turned, Digit, Gray, TurnAt, Pow2;
    CoarseGray(n, j, a, b);
    CoarseTurns(n, m, j, Gray(n, a), Gray(n, b), k + 1);
  }

  lemma {:induction false} CoarseCmpIndex(n: nat, m: nat, j: nat, a: nat, b: nat, k: nat)
    requires 0 < n <= WIDTH && k < m && Above(n, j, a, b)
    ensures CmpIndex(n, m, a, k) == CmpIndex(n, m + j, b, k + j)
    decreases m - k
  {
    hide Xor, CmpBits, Above, Pow2;
    if k + 1 < m {
      CoarseCmpIndex(n, m, j, a, b, k + 1);
      CoarseCmpBits(n, m, j, a, b, k + 1);
    }
  }

  lemma CoarseUpright(n: nat, m: nat, j: nat, a: nat, b: nat, k: nat)
    requires 0 < n <= WIDTH && k < m && Above(n, j, a, b)
    ensures Upright(n, m, a, k) == Upright(n, m + j, b, k + j)
  {
    hide CmpIndex, Odd, Above;
    CoarseCmpIndex(n, m, j, a, b, k);
    assert (m + j + (k + j)) % 2 == (m + k) % 2;
  }

  /** Bits of the coarse place are bits of the fine place, one level's worth up for each level dropped. */
  lemma CoarseBit(n: nat, m: nat, j: nat, a: nat, b: nat, k: nat, p: nat)
    requires 0 < n <= WIDTH && k < m && p < n && Above(n, j, a, b)
    ensures Bit(CurveIndex(n, m, a), At(n, k, p)) == Bit(CurveIndex(n, m + j, b), At(n, k + j, p))
  {
    hide Bit, At, CurveIndex, Upright, CmpBits, Ungray, Above;
    UprightIs(n, m, a, k);
    UprightIs(n, m + j, b, k + j);
    LevelBit(n, m, a, k, p);
    LevelBit(n, m + j, b, k + j, p);
    CoarseCmpBits(n, m, j, a, b, k);
    CoarseUpright(n, m, j, a, b, k);
  }

  lemma LevelsUp(n: nat, k: nat, j: nat, p: nat)
    ensures At(n, k + j, p) == At(n, k, p) + n * j
  {
    assert n * (k + j) == n * k + n * j;
  }

  lemma CoarseIndexBit(n: nat, m: nat, j: nat, a: nat, b: nat, i: nat)
    requires 0 < n <= WIDTH && Above(n, j, a, b)
    ensures Bit(CurveIndex(n, m + j, b), i + n * j) == Bit(CurveIndex(n, m, a), i)
  {
    hide Bit, At, Quot, Rem, CurveIndex, Above, Pow2;
    var k, p := Quot(n, i), Rem(n, i);
    PartsAt(n, i);
    QuotBelow(n, i, m);
    if k < m {
      LevelsUp(n, k, j, p);
      CoarseBit(n, m, j, a, b, k, p);
    } else {
      assert n * (m + j) == n * m + n * j;
      IndexBound(n, m, a);
      IndexBound(n, m + j, b);
      BitAbove(CurveIndex(n, m, a), n * m, i);
      BitAbove(CurveIndex(n, m + j, b), n * (m + j), i + n * j);
    }
  }

  lemma CoarseIndex(n: nat, m: nat, j: nat, a: nat, b: nat)
    requires 0 < n <= WIDTH && Above(n, j, a, b)
    ensures Shr(CurveIndex(n, m + j, b), n * j) == CurveIndex(n, m, a)
  {
    var fine, coarse := CurveIndex(n, m + j, b), CurveIndex(n, m, a);
    var dropped := n * j;
    hide Bit, CurveIndex, Shr, Above;
    forall i: nat
      ensures Bit(Shr(fine, dropped), i) == Bit(coarse, i)
    {
      BitShr(fine, dropped, i);
      CoarseIndexBit(n, m, j, a, b, i);
    }
    SameBits(Shr(fine, dropped), coarse);
  }

  /** The coarser cell's place is the point's place, less the digits of the levels dropped. */
  lemma CellOnCurve(n: nat, m: nat, j: nat, coord: seq<nat>)
    requires 0 < n <= WIDTH && |coord| == n
    ensures Shr(PlaceOnCurve(n, m + j, coord), n * j) == PlaceOnCurve(n, m, Coarse(coord, j))
  {
    hide CurveIndex, Levels, Shr, Above;
    CoarseLevels(n, m, j, coord);
    CoarseIndex(n, m, j, Levels(n, m, Coarse(coord, j)), Levels(n, m + j, coord));
  }

  /** Where the coarser grid fits a word, that place is the index the codec gives its cell. */
  lemma CellIndex(n: nat, m: nat, j: nat, coord: seq<nat>)
    requires Fits(n, m) && |coord| == n && InRange(m + j, coord)
    ensures InRange(m, Coarse(coord, j))
    ensures Shr(PlaceOnCurve(n, m + j, coord), n * j) == IndexAt(n, m, Coarse(coord, j))
  {
    hide Bit, PlaceOnCurve, Shr, IndexAt, Pow2;
    forall p | 0 <= p < n
      ensures Shr(coord[p], j) < Pow2(m)
    {
      forall i: nat | m <= i
        ensures !Bit(Shr(coord[p], j), i)
      {
        BitShr(coord[p], j, i);
        BitAbove(coord[p], m + j, i + j);
      }
      FitsBits(Shr(coord[p], j), m);
    }
    FitsSides(n, m);
    CellOnCurve(n, m, j, coord);
    IndexFromLevels(n, m, Coarse(coord, j));
  }
}
