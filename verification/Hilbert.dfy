/**
 * The Hilbert codec: index to coordinates and back.  Between Gray coding and
 * the bit transpose, both directions run the same digit transducer, whose
 * state is a rotation and a bit to flip.
 */
module Hilbert {
  import opened Numbers
  import opened Words
  import opened Grays
  import opened Rotations
  import opened Transposes
  import opened LogTranspose
  import opened Digits

  datatype Turn = Turn(rotation: nat, flipBit: nat)

  ghost predicate Facing(n: nat, t: Turn) { Turns(n, t.rotation) && t.flipBit < Pow2(n) }

  function Follow(n: nat, t: Turn, bits: nat): Turn
    requires n > 0
  {
    Turn(NextRotation(n, t.rotation, bits), Shl(1, t.rotation))
  }

  lemma FollowFacing(n: nat, t: Turn, bits: nat)
    requires Facing(n, t)
    ensures Facing(n, Follow(n, t, bits))
  {
    hide Bit, Shl;
    forall i: nat | n <= i
      ensures !Bit(Shl(1, t.rotation), i)
    {
      BitShl(1, t.rotation, i);
      BitOfPow2(0, i - t.rotation);
      assert Pow2(0) == 1;
    }
    FitsBits(Shl(1, t.rotation), n);
  }

  /** Which way a digit is turned: index digits into coordinate digits, or back. */
  datatype Way = ToCoords | ToIndex {
    function Back(): Way {
      if this == ToCoords then ToIndex else ToCoords
    }

    function Turned(n: nat, t: Turn, bits: nat): nat
      requires Turns(n, t.rotation)
    {
      match this
      case ToCoords => Xor(RotateLeft(bits, t.rotation, n), t.flipBit)
      case ToIndex => RotateRight(Xor(t.flipBit, bits), t.rotation, n)
    }

    /** The digit of the index, which decides the next turn. */
    function IndexDigit(n: nat, t: Turn, bits: nat): nat
      requires Turns(n, t.rotation)
    {
      match this
      case ToCoords => bits
      case ToIndex => Turned(n, t, bits)
    }
  }

  lemma TurnedBack(way: Way, n: nat, t: Turn, bits: nat)
    requires Facing(n, t) && bits < Pow2(n)
    ensures way.Turned(n, t, bits) < Pow2(n)
    ensures way.Back().Turned(n, t, way.Turned(n, t, bits)) == bits
    ensures way.Back().IndexDigit(n, t, way.Turned(n, t, bits)) == way.IndexDigit(n, t, bits)
  {
    var r, f := t.rotation, t.flipBit;
    hide RotateLeft, RotateRight, Xor, Pow2;
    match way
    case ToCoords =>
      var left := RotateLeft(bits, r, n);
      RotateBound(bits, r, n);
      RotateBack(bits, r, n);
      XorTwice(left, f);
      XorTwice(Xor(left, f), f);
      XorBound(left, f, n);
    case ToIndex =>
      var c := Xor(f, bits);
      XorBound(f, bits, n);
      RotateBound(c, r, n);
      RotateBack(c, r, n);
      XorTwice(bits, f);
  }

  lemma DigitGray(n: nat, w: nat, k: nat)
    ensures Digit(n, Gray(n, w), k) == Xor(Digit(n, w, k), Digit(n, w, k + 1))
  {
    hide Bit, Digit, Gray, Xor, At;
    forall i: nat
      ensures Bit(Digit(n, Gray(n, w), k), i) == Bit(Xor(Digit(n, w, k), Digit(n, w, k + 1)), i)
    {
      BitXor(Digit(n, w, k), Digit(n, w, k + 1), i);
      BitDigit(n, Gray(n, w), k, i);
      BitDigit(n, w, k, i);
      BitDigit(n, w, k + 1, i);
      BitGray(n, w, At(n, k, i));
      AtStep(n, k, i);
    }
    SameBits(Digit(n, Gray(n, w), k), Xor(Digit(n, w, k), Digit(n, w, k + 1)));
  }

  // ----- the transducer over a word of m digits, the highest first -----

  ghost function TurnAt(way: Way, n: nat, m: nat, w: nat, k: nat): (t: Turn)
    requires 0 < n <= WIDTH && k <= m
    ensures Facing(n, t)
    decreases m - k
  {
    if k == m then Turn(0, 0)
    else
      var t := TurnAt(way, n, m, w, k + 1);
      FollowFacing(n, t, way.IndexDigit(n, t, Digit(n, w, k)));
      Follow(n, t, way.IndexDigit(n, t, Digit(n, w, k)))
  }

  ghost function TurnedDigit(way: Way, n: nat, m: nat, w: nat, k: nat): nat
    requires 0 < n <= WIDTH && k < m
  {
    way.Turned(n, TurnAt(way, n, m, w, k + 1), Digit(n, w, k))
  }

  /** What the digits from k up become. */
  ghost function TurnedFrom(way: Way, n: nat, m: nat, w: nat, k: nat): nat
    requires 0 < n <= WIDTH && k <= m
    decreases m - k
  {
    if k == m then 0 else Push(n, TurnedFrom(way, n, m, w, k + 1), TurnedDigit(way, n, m, w, k))
  }

  ghost function TurnedWord(way: Way, n: nat, m: nat, w: nat): nat
    requires 0 < n <= WIDTH
  {
    TurnedFrom(way, n, m, w, 0)
  }

  ghost predicate Fits(n: nat, m: nat) { n > 0 && m > 0 && n * m <= WIDTH }

  lemma FitsSides(n: nat, m: nat)
    requires Fits(n, m)
    ensures n <= WIDTH && m <= WIDTH && Fits(m, n)
  {
    assert n * m == m * n;
    MulMono(n, 1, m);
    MulMono(m, 1, n);
  }

  lemma TurnedDigitBound(way: Way, n: nat, m: nat, w: nat, k: nat)
    requires 0 < n <= WIDTH && k < m
    ensures TurnedDigit(way, n, m, w, k) < Pow2(n)
  {
    hide Way.Turned, TurnAt, Digit, Pow2;
    DigitBound(n, w, k);
    TurnedBack(way, n, TurnAt(way, n, m, w, k + 1), Digit(n, w, k));
  }

  lemma {:induction false} TurnedFromBound(way: Way, n: nat, m: nat, w: nat, k: nat)
    requires Fits(n, m) && n <= WIDTH && k <= m
    ensures HasDigits(n, m - k, TurnedFrom(way, n, m, w, k))
    decreases m - k
  {
    hide TurnedDigit, Push, HasDigits, Pow2;
    if k == m {
      NoDigits(n);
    } else {
      TurnedFromBound(way, n, m, w, k + 1);
      TurnedDigitBound(way, n, m, w, k);
      MulMono(n, m - k, m);
      PushBound(n, m - k - 1, TurnedFrom(way, n, m, w, k + 1), TurnedDigit(way, n, m, w, k));
    }
  }

  lemma NoDigits(n: nat)
    ensures HasDigits(n, 0, 0)
  {
  }

  lemma {:induction false} DigitTurned(way: Way, n: nat, m: nat, w: nat, k: nat, j: nat)
    requires Fits(n, m) && n <= WIDTH && k <= j < m
    ensures Digit(n, TurnedFrom(way, n, m, w, k), j - k) == TurnedDigit(way, n, m, w, j)
    decreases m - k
  {
    hide TurnedDigit, Digit, Push, HasDigits, Pow2;
    TurnedFromBound(way, n, m, w, k + 1);
    TurnedDigitBound(way, n, m, w, k);
    MulMono(n, m - k, m);
    PushedDigits(n, m - k - 1, TurnedFrom(way, n, m, w, k + 1), TurnedDigit(way, n, m, w, k), j - k);
    if k < j {
      DigitTurned(way, n, m, w, k + 1, j);
    }
  }

  lemma DigitOfTurned(way: Way, n: nat, m: nat, w: nat, k: nat)
    requires Fits(n, m) && n <= WIDTH && k < m
    ensures Digit(n, TurnedWord(way, n, m, w), k) == way.Turned(n, TurnAt(way, n, m, w, k + 1), Digit(n, w, k))
  {
    hide Way.Turned, TurnAt, Digit, TurnedFrom, Fits;
    DigitTurned(way, n, m, w, 0, k);
  }

  lemma NextTurn(way: Way, n: nat, m: nat, w: nat, k: nat)
    requires 0 < n <= WIDTH && k < m
    ensures TurnAt(way, n, m, w, k)
            == Follow(n, TurnAt(way, n, m, w, k + 1), way.IndexDigit(n, TurnAt(way, n, m, w, k + 1), Digit(n, w, k)))
  {
    hide Follow, Way.IndexDigit, Digit;
  }

  /** Fed the turned word, the other direction goes through the same turns. */
  lemma {:induction false} Lockstep(way: Way, n: nat, m: nat, w: nat, k: nat)
    requires Fits(n, m) && n <= WIDTH && k <= m
    ensures TurnAt(way.Back(), n, m, TurnedWord(way, n, m, w), k) == TurnAt(way, n, m, w, k)
    decreases m - k
  {
    hide TurnAt, TurnedWord, Way.Back;
    if k == m {
      FirstTurn(way, n, m, w);
      FirstTurn(way.Back(), n, m, TurnedWord(way, n, m, w));
    } else {
      Lockstep(way, n, m, w, k + 1);
      LockstepStep(way, n, m, w, k);
    }
  }

  lemma FirstTurn(way: Way, n: nat, m: nat, w: nat)
    requires 0 < n <= WIDTH
    ensures TurnAt(way, n, m, w, m) == Turn(0, 0)
  {
  }

  lemma LockstepStep(way: Way, n: nat, m: nat, w: nat, k: nat)
    requires Fits(n, m) && n <= WIDTH && k < m
    requires TurnAt(way.Back(), n, m, TurnedWord(way, n, m, w), k + 1) == TurnAt(way, n, m, w, k + 1)
    ensures TurnAt(way.Back(), n, m, TurnedWord(way, n, m, w), k) == TurnAt(way, n, m, w, k)
  {
    hide TurnedWord, Digit, Pow2, Way.Turned, Way.IndexDigit, Way.Back, Follow, TurnAt, Facing;
    DigitOfTurned(way, n, m, w, k);
    DigitBound(n, w, k);
    TurnedBack(way, n, TurnAt(way, n, m, w, k + 1), Digit(n, w, k));
    NextTurn(way, n, m, w, k);
    NextTurn(way.Back(), n, m, TurnedWord(way, n, m, w), k);
  }

  /** The two directions undo each other. */
  lemma TurnedThere(way: Way, n: nat, m: nat, w: nat)
    requires Fits(n, m) && n <= WIDTH && HasDigits(n, m, w)
    ensures TurnedWord(way.Back(), n, m, TurnedWord(way, n, m, w)) == w
  {
    hide TurnedWord, Digit, Pow2, Way.Turned, Way.Back, TurnAt, HasDigits, Facing;
    var c := TurnedWord(way, n, m, w);
    var back := TurnedWord(way.Back(), n, m, c);
    forall k: nat | k < m
      ensures Digit(n, back, k) == Digit(n, w, k)
    {
      DigitOfTurned(way.Back(), n, m, c, k);
      DigitOfTurned(way, n, m, w, k);
      Lockstep(way, n, m, w, k + 1);
      DigitBound(n, w, k);
      TurnedBack(way, n, TurnAt(way, n, m, w, k + 1), Digit(n, w, k));
    }
    TurnedBound(way.Back(), n, m, c);
    SameDigits(n, m, back, w);
  }

  lemma TurnedBound(way: Way, n: nat, m: nat, w: nat)
    requires Fits(n, m) && n <= WIDTH
    ensures HasDigits(n, m, TurnedWord(way, n, m, w))
  {
    TurnedFromBound(way, n, m, w, 0);
  }

  // ----- one in every n-th place -----

  /** One in every n-th place below n * m, computed as a quotient of two words of ones. */
  function NthBits(n: nat, m: nat): nat
    requires n > 0
  {
    assert Ones(n) > 0;
    Ones(n * m) / Ones(n)
  }

  lemma {:induction false} Pow2Add(a: nat, b: nat)
    ensures Pow2(a + b) == Pow2(a) * Pow2(b)
  {
    if b > 0 {
      Pow2Add(a, b - 1);
    }
  }

  /** The sum the quotient of ones is. */
  function EveryNth(n: nat, m: nat): nat { if m == 0 then 0 else EveryNth(n, m - 1) + Pow2(n * (m - 1)) }

  lemma {:induction false} EveryNthTimesOnes(n: nat, m: nat)
    ensures Ones(n) * EveryNth(n, m) == Ones(n * m)
  {
    if m > 0 {
      var q, p := EveryNth(n, m - 1), Pow2(n * (m - 1));
      EveryNthTimesOnes(n, m - 1);
      assert n * m == n * (m - 1) + n;
      Pow2Add(n * (m - 1), n);
      NextTerm(Pow2(n), q, p);
    }
  }

  lemma NextTerm(b: nat, q: nat, p: nat)
    ensures (b - 1) * (q + p) == (b - 1) * q + p * b - p
  {
  }

  lemma NthBitsIsSum(n: nat, m: nat)
    requires n > 0
    ensures NthBits(n, m) == EveryNth(n, m)
  {
    EveryNthTimesOnes(n, m);
    assert Ones(n) > 0;
    DivUnique(Ones(n), EveryNth(n, m), 0);
  }

  lemma {:induction false} BitEveryNth(n: nat, m: nat, i: nat)
    requires n > 0
    ensures Bit(EveryNth(n, m), i) == (Rem(n, i) == 0 && i < n * m)
    ensures EveryNth(n, m) < Pow2(n * m)
  {
    hide Bit, Rem;
    if m == 0 {
      BitOfZero(i);
      assert n * 0 == 0;
    } else {
      var low := n * (m - 1);
      BitEveryNth(n, m - 1, i);
      BitOfTop(EveryNth(n, m - 1), low, i);
      assert n * m == low + n;
      Pow2Mono(low, n * m);
      NextMultiple(n, m - 1, i);
    }
  }

  /** The quotient of ones really has a one in every n-th place. */
  lemma BitNthBits(n: nat, m: nat, i: nat)
    requires n > 0
    ensures Bit(NthBits(n, m), i) == (Rem(n, i) == 0 && i < n * m)
  {
    NthBitsIsSum(n, m);
    BitEveryNth(n, m, i);
  }

  lemma NextMultiple(n: nat, m: nat, i: nat)
    requires n > 0
    ensures n * m <= i < n * m + n ==> (Rem(n, i) == 0 <==> i == n * m)
  {
    if n * m <= i < n * m + n {
      DivUnique(n, m, i - n * m);
    }
  }

  lemma NextPlace(n: nat, m: nat, k: nat, p: nat)
    requires p < n
    ensures (Rem(n, At(n, k, p) + 1) == 0 && At(n, k, p) + 1 < n * m) == (p + 1 == n && k + 1 < m)
  {
    if p + 1 == n {
      assert At(n, k, p) + 1 == At(n, k + 1, 0);
      AtParts(n, k + 1, 0);
      AtBelow(n, k + 1, 0, m);
    } else {
      AtParts(n, k, p + 1);
    }
  }

  // ----- the whole codec -----

  lemma NthBitsBound(n: nat, m: nat)
    requires n > 0
    ensures Shr(NthBits(n, m), 1) < Pow2(n * m)
  {
    ShrLess(NthBits(n, m), 1);
    var a, b := Ones(n * m), Ones(n);
    assert a == b * (a / b) + a % b;
    MulMono(a / b, 1, b);
  }

  /** The grid point at an index, as one word of n fields of m bits. */
  ghost function PointWord(n: nat, m: nat, index: nat): nat
    requires Fits(n, m)
  {
    FitsSides(n, m);
    if n == 1 then index
    else if m == 1 then Gray(1, index)
    else Transpose(m, n, Ungray(n, TurnedWord(ToCoords, n, m, Xor(Gray(1, index), Shr(NthBits(n, m), 1)))))
  }

  /** The index of a grid point. */
  ghost function IndexOfWord(n: nat, m: nat, coords: nat): nat
    requires Fits(n, m)
  {
    FitsSides(n, m);
    if n == 1 then coords
    else if m == 1 then Ungray(1, coords)
    else Ungray(1, Xor(TurnedWord(ToIndex, n, m, Gray(n, Transpose(n, m, coords))), Shr(NthBits(n, m), 1)))
  }

  lemma PointWordBound(n: nat, m: nat, index: nat)
    requires Fits(n, m) && index < Pow2(n * m)
    ensures PointWord(n, m, index) < Pow2(m * n)
  {
    hide Gray, Transpose, Ungray, TurnedWord, Xor, Shr, NthBits, Pow2;
    FitsSides(n, m);
    assert n * m == m * n;
    if n > 1 && m == 1 {
      GrayBound(1, index, n * m);
    } else if n > 1 {
      TransposeBound(m, n, Ungray(n, TurnedWord(ToCoords, n, m, Xor(Gray(1, index), Shr(NthBits(n, m), 1)))));
    }
  }

  /** Coordinates lead back to the index they came from. */
  lemma WordRoundTrip(n: nat, m: nat, index: nat)
    requires Fits(n, m) && index < Pow2(n * m)
    ensures IndexOfWord(n, m, PointWord(n, m, index)) == index
  {
    hide Gray, Transpose, Ungray, TurnedWord, Xor, Shr, NthBits, Pow2;
    FitsSides(n, m);
    UngrayOfGray(1, index);
    if n > 1 && m > 1 {
      var g, h := Gray(1, index), Shr(NthBits(n, m), 1);
      var w := Xor(g, h);
      GrayBound(1, index, n * m);
      NthBitsBound(n, m);
      XorBound(g, h, n * m);
      var c := TurnedWord(ToCoords, n, m, w);
      TurnedBound(ToCoords, n, m, w);
      UngrayBound(n, c, n * m);
      assert n * m == m * n;
      TransposeInvolution(m, n, Ungray(n, c));
      GrayOfUngray(n, c);
      TurnedThere(ToCoords, n, m, w);
      XorTwice(g, h);
    }
  }

  /** An index leads back to the coordinates it came from. */
  lemma WordRoundTripBack(n: nat, m: nat, coords: nat)
    requires Fits(n, m) && coords < Pow2(n * m)
    ensures IndexOfWord(n, m, coords) < Pow2(n * m)
    ensures PointWord(n, m, IndexOfWord(n, m, coords)) == coords
  {
    hide Gray, Transpose, Ungray, TurnedWord, Xor, Shr, NthBits, Pow2;
    FitsSides(n, m);
    if n > 1 && m == 1 {
      UngrayBound(1, coords, n * m);
      GrayOfUngray(1, coords);
    } else if n > 1 {
      var y, h := Transpose(n, m, coords), Shr(NthBits(n, m), 1);
      TransposeBound(n, m, coords);
      var c := Gray(n, y);
      GrayBound(n, y, n * m);
      var w := TurnedWord(ToIndex, n, m, c);
      TurnedBound(ToIndex, n, m, c);
      NthBitsBound(n, m);
      XorBound(w, h, n * m);
      UngrayBound(1, Xor(w, h), n * m);
      GrayOfUngray(1, Xor(w, h));
      XorTwice(w, h);
      TurnedThere(ToIndex, n, m, c);
      UngrayOfGray(n, y);
      TransposeInvolution(n, m, coords);
    }
  }

  // ----- points -----

  ghost function PointAt(n: nat, m: nat, index: nat): (s: seq<nat>)
    requires Fits(n, m)
    ensures |s| == n
  {
    Unpack(m, n, PointWord(n, m, index))
  }

  ghost function IndexAt(n: nat, m: nat, coord: seq<nat>): nat
    requires Fits(n, m) && |coord| == n
  {
    IndexOfWord(n, m, Pack(m, coord))
  }

  /** hilbert_c2i after hilbert_i2c. */
  lemma RoundTrip(n: nat, m: nat, index: nat)
    requires Fits(n, m) && index < Pow2(n * m)
    ensures InRange(m, PointAt(n, m, index)) && IndexAt(n, m, PointAt(n, m, index)) == index
  {
    hide PointWord, IndexOfWord, Pack, Unpack;
    assert n * m == m * n;
    PointWordBound(n, m, index);
    PackUnpacked(m, n, PointWord(n, m, index));
    WordRoundTrip(n, m, index);
  }

  /** hilbert_i2c after hilbert_c2i. */
  lemma RoundTripBack(n: nat, m: nat, coord: seq<nat>)
    requires Fits(n, m) && |coord| == n && InRange(m, coord)
    ensures IndexAt(n, m, coord) < Pow2(n * m) && PointAt(n, m, IndexAt(n, m, coord)) == coord
  {
    hide PointWord, IndexOfWord, Pack, Unpack;
    assert n * m == m * n;
    PackedDigits(m, coord);
    WordRoundTripBack(n, m, Pack(m, coord));
  }

  // ----- the two loops over the digits -----

  /** The turn and the word so far, before digit k - 1. */
  ghost predicate Turning(way: Way, n: nat, m: nat, w: nat, k: nat, rotation: nat, flipBit: nat, out: nat)
    requires 0 < n <= WIDTH
  {
    k <= m && Turn(rotation, flipBit) == TurnAt(way, n, m, w, k) && out == TurnedFrom(way, n, m, w, k)
  }

  lemma TurningStarts(way: Way, n: nat, m: nat, w: nat)
    requires 0 < n <= WIDTH
    ensures Turning(way, n, m, w, m, 0, 0, 0)
  {
  }

  lemma TurningStep(way: Way, n: nat, m: nat, w: nat, k: nat, t: Turn, out: nat)
    requires 0 < n <= WIDTH && 0 < k && Turning(way, n, m, w, k, t.rotation, t.flipBit, out)
    ensures Facing(n, t)
    ensures var d := Digit(n, w, k - 1);
            var next := Follow(n, t, way.IndexDigit(n, t, d));
            && d < Pow2(n) && way.IndexDigit(n, t, d) < Pow2(n)
            && Turning(way, n, m, w, k - 1, next.rotation, next.flipBit, Push(n, out, way.Turned(n, t, d)))
  {
    hide Follow, Pow2, Push, Digit, Way.Turned, Way.IndexDigit, Facing, TurnAt, TurnedFrom;
    DigitBound(n, w, k - 1);
    TurnedBack(way, n, t, Digit(n, w, k - 1));
    IndexDigitBound(way, n, t, Digit(n, w, k - 1));
    NextTurn(way, n, m, w, k - 1);
    NextWord(way, n, m, w, k - 1);
  }

  lemma IndexDigitBound(way: Way, n: nat, t: Turn, bits: nat)
    requires Facing(n, t) && bits < Pow2(n)
    ensures way.IndexDigit(n, t, bits) < Pow2(n)
  {
    hide Way.Turned, Pow2;
    TurnedBack(way, n, t, bits);
  }

  lemma NextWord(way: Way, n: nat, m: nat, w: nat, k: nat)
    requires 0 < n <= WIDTH && k < m
    ensures TurnedFrom(way, n, m, w, k)
            == Push(n, TurnedFrom(way, n, m, w, k + 1), way.Turned(n, TurnAt(way, n, m, w, k + 1), Digit(n, w, k)))
  {
    hide Push, Way.Turned, TurnAt, Digit;
  }

  lemma TurningEnds(way: Way, n: nat, m: nat, w: nat, rotation: nat, flipBit: nat, out: nat)
    requires 0 < n <= WIDTH && Turning(way, n, m, w, 0, rotation, flipBit, out)
    ensures out == TurnedWord(way, n, m, w)
  {
  }

  lemma OneDigitLess(n: nat, k: nat)
    requires n > 0 && k > 0
    ensures n * k == n * (k - 1) + n && (n * (k - 1) > 0 <==> k - 1 > 0)
  {
  }

  method TurnToCoords(nDims: nat, nBits: nat, index: nat) returns (coords: nat)
    requires Fits(nDims, nBits) && nDims <= WIDTH
    ensures coords == TurnedWord(ToCoords, nDims, nBits, index)
  {
    hide And, Shr, Ones, Pow2, Or, Shl, Xor, RotateLeft, NextRotation, Turning, TurnedFrom;
    var b, rotation, flipBit := nDims * nBits, 0, 0;
    coords := 0;
    ghost var k := nBits;
    TurningStarts(ToCoords, nDims, nBits, index);
    while b > 0
      invariant b == nDims * k && (b > 0 <==> k > 0)
               && Turning(ToCoords, nDims, nBits, index, k, rotation, flipBit, coords)
      decreases k
    {
      OneDigitLess(nDims, k);
      TurningStep(ToCoords, nDims, nBits, index, k, Turn(rotation, flipBit), coords);
      k := k - 1;
      b := b - nDims;
      var bits := And(Shr(index, b), Ones(nDims));
      coords := Or(Shl(coords, nDims), Xor(RotateLeft(bits, rotation, nDims), flipBit));
      flipBit := Shl(1, rotation);
      rotation := AdjustRotation(rotation, nDims, bits);
    }
    TurningEnds(ToCoords, nDims, nBits, index, rotation, flipBit, coords);
  }

  method TurnToIndex(nDims: nat, nBits: nat, coords: nat) returns (index: nat)
    requires Fits(nDims, nBits) && nDims <= WIDTH
    ensures index == TurnedWord(ToIndex, nDims, nBits, coords)
  {
    hide And, Shr, Ones, Pow2, Or, Shl, Xor, RotateRight, NextRotation, Turning, TurnedFrom;
    var b, rotation, flipBit := nDims * nBits, 0, 0;
    index := 0;
    ghost var k := nBits;
    TurningStarts(ToIndex, nDims, nBits, coords);
    while b > 0
      invariant b == nDims * k && (b > 0 <==> k > 0)
               && Turning(ToIndex, nDims, nBits, coords, k, rotation, flipBit, index)
      decreases k
    {
      OneDigitLess(nDims, k);
      TurningStep(ToIndex, nDims, nBits, coords, k, Turn(rotation, flipBit), index);
      k := k - 1;
      b := b - nDims;
      var bits := RotateRight(Xor(flipBit, And(Shr(coords, b), Ones(nDims))), rotation, nDims);
      index := Or(Shl(index, nDims), bits);
      flipBit := Shl(1, rotation);
      rotation := AdjustRotation(rotation, nDims, bits);
    }
    TurningEnds(ToIndex, nDims, nBits, coords, rotation, flipBit, index);
  }

  // ----- hilbert_i2c and hilbert_c2i -----

  method IndexToWord(nDims: nat, nBits: nat, index: nat) returns (coords: nat)
    requires Fits(nDims, nBits) && nDims > 1 && index < Pow2(nDims * nBits)
    ensures coords == PointWord(nDims, nBits, index)
  {
    hide Xor, Shr, Pow2, TurnedWord, Transpose, Ungray, NthBits;
    FitsSides(nDims, nBits);
    if nBits > 1 {
      var w := Xor(index, Shr(Xor(index, NthBits(nDims, nBits)), 1));
      MixedGray(index, NthBits(nDims, nBits));
      coords := TurnToCoords(nDims, nBits, w);
      TurnedBound(ToCoords, nDims, nBits, w);
      coords := FoldShifts(nDims, nDims * nBits, coords);
      UngrayBound(nDims, TurnedWord(ToCoords, nDims, nBits, w), nDims * nBits);
      assert nDims * nBits == nBits * nDims;
      coords := BitTransposeLog(nBits, nDims, coords);
    } else {
      coords := Xor(index, Shr(index, 1));
    }
  }

  /** The index is Gray coded and mixed with every n-th bit in one step. */
  lemma MixedGray(index: nat, nth: nat)
    ensures Xor(index, Shr(Xor(index, nth), 1)) == Xor(Gray(1, index), Shr(nth, 1))
  {
    hide Bit, Xor, Shr, Gray;
    forall i: nat
      ensures Bit(Xor(index, Shr(Xor(index, nth), 1)), i) == Bit(Xor(Gray(1, index), Shr(nth, 1)), i)
    {
      BitXor(index, Shr(Xor(index, nth), 1), i);
      BitShr(Xor(index, nth), 1, i);
      BitXor(index, nth, i + 1);
      BitXor(Gray(1, index), Shr(nth, 1), i);
      BitGray(1, index, i);
      BitShr(nth, 1, i);
    }
    SameBits(Xor(index, Shr(Xor(index, nth), 1)), Xor(Gray(1, index), Shr(nth, 1)));
  }

  method HilbertI2C(nDims: nat, nBits: nat, index: nat, coord: array<nat>)
    requires Fits(nDims, nBits) && index < Pow2(nDims * nBits) && nDims <= coord.Length
    modifies coord
    ensures coord[..nDims] == PointAt(nDims, nBits, index)
    ensures coord[nDims..] == old(coord[nDims..])
  {
    hide Pow2, PointWord, Digit;
    if nDims > 1 {
      var word := IndexToWord(nDims, nBits, index);
      var coords := word;
      ShrNone(word, nBits);
      for d := 0 to nDims
        invariant coords == Shr(word, nBits * d)
        invariant coord[..d] == Unpack(nBits, nDims, word)[..d]
        invariant coord[nDims..] == old(coord[nDims..])
      {
        coord[d] := And(coords, Ones(nBits));
        IsDigit(nBits, word, d);
        NextDigit(nBits, word, d);
        coords := Shr(coords, nBits);
      }
    } else {
      OneDigit(nBits, index);
      coord[0] := index;
    }
  }

  lemma IsDigit(n: nat, w: nat, k: nat)
    ensures Digit(n, w, k) == And(Shr(w, n * k), Ones(n))
  {
  }

  lemma NextDigit(n: nat, w: nat, k: nat)
    ensures Shr(Shr(w, n * k), n) == Shr(w, n * (k + 1))
  {
    ShrShr(w, n * k, n);
    assert n * (k + 1) == n * k + n;
  }

  /** With one dimension the index is the coordinate. */
  lemma OneDigit(m: nat, index: nat)
    requires Fits(1, m) && index < Pow2(1 * m)
    ensures PointAt(1, m, index) == [index]
  {
    hide Bit, Pow2, Digit;
    forall i: nat
      ensures Bit(Digit(m, index, 0), i) == Bit(index, i)
    {
      BitDigit(m, index, 0, i);
      assert At(m, 0, i) == i;
      if m <= i {
        BitAbove(index, m, i);
      }
    }
    SameBits(Digit(m, index, 0), index);
  }

  method HilbertC2I(nDims: nat, nBits: nat, coord: array<nat>) returns (index: nat)
    requires Fits(nDims, nBits) && nDims <= coord.Length && InRange(nBits, coord[..nDims])
    ensures index == IndexAt(nDims, nBits, coord[..nDims])
  {
    hide Xor, Pow2, TurnedWord, Transpose, Ungray, NthBits, Digit, Shl, Or, InRange;
    FitsSides(nDims, nBits);
    if nDims > 1 {
      var coords := 0;
      var d := nDims;
      assert coord[nDims..nDims] == [];
      while d > 0
        invariant d <= nDims && coords == Pack(nBits, coord[d..nDims])
      {
        d := d - 1;
        assert coord[d..nDims] == [coord[d]] + coord[d + 1..nDims];
        coords := Or(Shl(coords, nBits), coord[d]);
      }
      assert coord[0..nDims] == coord[..nDims];
      PackedDigits(nBits, coord[..nDims]);
      assert nDims * nBits == nBits * nDims;
      index := WordToIndex(nDims, nBits, coords);
    } else {
      OneField(nBits, coord[..1]);
      index := coord[0];
    }
  }

  lemma OneField(m: nat, s: seq<nat>)
    requires Fits(1, m) && |s| == 1 && InRange(m, s)
    ensures Pack(m, s) == s[0]
  {
    hide Digit, Push, Bit, Pow2;
    assert Pack(m, s) == Push(m, 0, s[0]);
    NoDigits(m);
    assert m * (0 + 1) == m;
    forall i: nat
      ensures Bit(Push(m, 0, s[0]), i) == Bit(s[0], i)
    {
      BitPush(m, 0, 0, s[0], i);
      if m <= i {
        BitOfZero(i - m);
        BitAbove(s[0], m, i);
      }
    }
    SameBits(Push(m, 0, s[0]), s[0]);
  }

  method WordToIndex(nDims: nat, nBits: nat, word: nat) returns (index: nat)
    requires Fits(nDims, nBits) && nDims > 1 && word < Pow2(nDims * nBits)
    ensures index == IndexOfWord(nDims, nBits, word)
  {
    hide Xor, Shr, Pow2, TurnedWord, Transpose, Ungray, NthBits;
    FitsSides(nDims, nBits);
    if nBits > 1 {
      var coords := BitTransposeLog(nDims, nBits, word);
      coords := Xor(coords, Shr(coords, nDims));
      index := TurnToIndex(nDims, nBits, coords);
      TurnedBound(ToIndex, nDims, nBits, coords);
      NthBitsBound(nDims, nBits);
      XorBound(index, Shr(NthBits(nDims, nBits), 1), nDims * nBits);
      index := Xor(index, Shr(NthBits(nDims, nBits), 1));
    } else {
      index := word;
    }
    index := FoldShifts(1, nDims * nBits, index);
  }
}
