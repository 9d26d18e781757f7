/**
 * The log-step bit transpose.  The word is kept as fields that are halved in
 * every round: a field is a run of coordinate bits that is still contiguous in
 * each of the nDims coordinates.  A field of odd width first sends its top bits
 * to their final places.
 */
module LogTranspose {
  import opened Numbers
  import opened Words
  import opened Transposes

  // ----- which field a coordinate bit is in -----

  /** st[b] is the first bit of the field that holds coordinate bit b, or -1 once b is in its final place. */
  ghost predicate Fields(st: seq<int>, u: nat) {
    u > 0 && forall b :: 0 <= b < |st| && st[b] >= 0 ==> InOwnField(st, u, b)
  }

  ghost predicate InOwnField(st: seq<int>, u: nat, b: nat)
    requires b < |st|
  {
    && 0 <= st[b] <= b < st[b] + u <= |st|
    && forall c :: st[b] <= c < st[b] + u ==> st[c] == st[b]
  }

  ghost predicate IsStart(st: seq<int>, s: nat) {
    s < |st| && st[s] == s
  }

  /** The field after halving; the top bit of an odd field is done. */
  ghost function HalvedAt(s: int, b: int, u: nat): int {
    if s < 0 then -1
    else if b - s < u / 2 then s
    else if b - s < u / 2 + u / 2 then s + u / 2
    else -1
  }

  ghost function Halved(st: seq<int>, u: nat): seq<int> {
    seq(|st|, b requires 0 <= b < |st| => HalvedAt(st[b], b, u))
  }

  lemma HalvedFields(st: seq<int>, u: nat)
    requires Fields(st, u) && u >= 2
    ensures Fields(Halved(st, u), u / 2)
  {
    var st', v := Halved(st, u), u / 2;
    forall b | 0 <= b < |st'| && st'[b] >= 0
      ensures InOwnField(st', v, b)
    {
      assert InOwnField(st, u, b);
      forall c | st'[b] <= c < st'[b] + v
        ensures st'[c] == st'[b]
      {
        assert st[c] == st[b];
      }
    }
  }

  /** The starts after halving: the old ones, and each moved up by half. */
  lemma HalvedStarts(st: seq<int>, u: nat, s: nat)
    requires Fields(st, u) && u >= 2
    ensures IsStart(st, s) ==> IsStart(Halved(st, u), s) && IsStart(Halved(st, u), s + u / 2)
    ensures IsStart(Halved(st, u), s) ==> IsStart(st, s) || (u / 2 <= s && IsStart(st, s - u / 2))
  {
    if IsStart(st, s) {
      assert InOwnField(st, u, s);
    }
    if IsStart(Halved(st, u), s) {
      assert InOwnField(st, u, s);
    }
  }

  lemma StartsApart(st: seq<int>, u: nat, s: nat, t: nat)
    requires Fields(st, u) && IsStart(st, s) && IsStart(st, t) && s < t
    ensures s + u <= t
  {
    assert InOwnField(st, u, s);
  }

  // ----- which field a position is in -----

  ghost predicate Pending(st: seq<int>, n: nat, i: nat)
    requires n > 0
  {
    Quot(n, i) < |st| && st[Quot(n, i)] >= 0
  }

  ghost function Start(st: seq<int>, n: nat, i: nat): nat
    requires n > 0
  {
    if Pending(st, n, i) then st[Quot(n, i)] else 0
  }

  /** Distance from the first position of the field. */
  ghost function Off(st: seq<int>, n: nat, i: nat): nat
    requires n > 0
  {
    var base := At(n, Start(st, n, i), 0);
    if base <= i then i - base else 0
  }

  /** A pending position lies in the positions of one field. */
  lemma OfField(st: seq<int>, n: nat, u: nat, i: nat)
    requires n > 0 && Fields(st, u) && Pending(st, n, i)
    ensures var s := Start(st, n, i);
            IsStart(st, s) && i == At(n, s, 0) + Off(st, n, i)
  {
    OffBound(st, n, u, i);
  }

  lemma OffBound(st: seq<int>, n: nat, u: nat, i: nat)
    requires n > 0 && Fields(st, u) && Pending(st, n, i)
    ensures var s := Start(st, n, i);
            IsStart(st, s) && i == At(n, s, 0) + Off(st, n, i) && Off(st, n, i) < n * u
  {
    var q, r := Quot(n, i), Rem(n, i);
    assert InOwnField(st, u, q);
    var s := st[q];
    hide At, Quot, Rem;
    PartsAt(n, i);
    AtAdd(n, s, q - s, r);
    AtBelow(n, q - s, r, u);
  }

  /** The positions of a field are pending in it. */
  lemma InField(st: seq<int>, n: nat, u: nat, s: nat, off: nat)
    requires n > 0 && Fields(st, u) && IsStart(st, s) && off < n * u
    ensures var i := At(n, s, 0) + off;
            && Pending(st, n, i) && Start(st, n, i) == s && Off(st, n, i) == off
            && Quot(n, i) == s + Quot(n, off) && Rem(n, i) == Rem(n, off)
  {
    assert InOwnField(st, u, s);
    hide At, Quot, Rem;
    PartsAt(n, off);
    QuotBelow(n, off, u);
    AtAdd(n, s, Quot(n, off), Rem(n, off));
    AtParts(n, s + Quot(n, off), Rem(n, off));
  }

  /** The positions of a field that belong to coordinate 0. */
  lemma InFieldLow(st: seq<int>, n: nat, u: nat, s: nat, off: nat)
    requires n > 0 && Fields(st, u) && IsStart(st, s) && off < u
    ensures var i := At(n, s, 0) + off;
            Pending(st, n, i) && Start(st, n, i) == s && Off(st, n, i) == off
  {
    MulMono(u, 1, n);
    InField(st, n, u, s, off);
  }

  // ----- what the words hold, position by position -----

  ghost predicate EndAt(st: seq<int>, n: nat, i: nat)
    requires n > 0
  {
    Pending(st, n, i) && Off(st, n, i) == 0
  }

  ghost predicate MaskAt(st: seq<int>, n: nat, u: nat, i: nat)
    requires n > 0
  {
    Pending(st, n, i) && Off(st, n, i) < u
  }

  /** Bit b of coordinate d of the original word. */
  ghost predicate Coord(nBits: nat, w: nat, d: nat, b: nat) { Bit(w, At(nBits, d, b)) }

  /** A field of width u holds its bits for coordinate 0, then for coordinate 1, and so on. */
  ghost predicate InAt(st: seq<int>, n: nat, u: nat, w: nat, i: nat)
    requires n > 0 && u > 0
  {
    Pending(st, n, i) && Coord(|st|, w, Quot(u, Off(st, n, i)), Start(st, n, i) + Rem(u, Off(st, n, i)))
  }

  ghost predicate DoneAt(st: seq<int>, n: nat, w: nat, i: nat)
    requires n > 0
  {
    Quot(n, i) < |st| && st[Quot(n, i)] < 0 && Coord(|st|, w, Rem(n, i), Quot(n, i))
  }

  /** The invariant of the outer loop. */
  ghost predicate Round(st: seq<int>, n: nat, u: nat, w: nat, ends: nat, mask: nat, inCoords: nat, coords: nat)
    requires n > 0 && u > 0
  {
    && Fields(st, u)
    && (forall i: nat :: Bit(ends, i) == EndAt(st, n, i))
    && (forall i: nat :: Bit(mask, i) == MaskAt(st, n, u, i))
    && (forall i: nat :: Bit(inCoords, i) == InAt(st, n, u, w, i))
    && (forall i: nat :: Bit(coords, i) == DoneAt(st, n, w, i))
  }

  // ----- one coordinate's share of a round -----

  /** What `in` holds for coordinate d. */
  ghost predicate FieldAt(st: seq<int>, n: nat, width: nat, w: nat, d: nat, i: nat)
    requires n > 0
  {
    MaskAt(st, n, width, i) && Coord(|st|, w, d, Start(st, n, i) + Off(st, n, i))
  }

  lemma TakeField(st: seq<int>, n: nat, u: nat, w: nat, d: nat, mask: nat, inCoords: nat, i: nat)
    requires n > 0 && Fields(st, u) && d < n
    requires forall k: nat :: Bit(mask, k) == MaskAt(st, n, u, k)
    requires forall k: nat :: Bit(inCoords, k) == InAt(st, n, u, w, k)
    ensures Bit(And(Shr(inCoords, u * d), mask), i) == FieldAt(st, n, u, w, d, i)
  {
    AtTimes(u, d);
    assert u * d == d * u;
    hide FitsWord, Bit, And, Shr, At, Quot, Rem, Fields, Coord, Start, Off, Pending, IsStart;
    BitAnd(Shr(inCoords, u * d), mask, i);
    BitShr(inCoords, u * d, i);
    if MaskAt(st, n, u, i) {
      OfField(st, n, u, i);
      var s, j := Start(st, n, i), Off(st, n, i);
      AtAdd(u, d, 0, j);
      InFieldAt(st, n, u, s, d, j);
      AtParts(u, d, j);
    }
  }

  function ShiftAmt(n: nat, v: nat): nat
    requires n > 0
  {
    var n1: nat := n - 1;
    n1 * v
  }

  /** The shift that takes the top bit of an odd field to its final place. */
  lemma OddShift(n: nat, s: nat, v: nat, d: nat)
    requires n > 0
    ensures At(n, s + 2 * v, d) == At(n, s, 0) + 2 * v + (2 * ShiftAmt(n, v) + d)
  {
  }

  /** The newly finished bit of coordinate d. */
  ghost predicate SentAt(st: seq<int>, n: nat, u: nat, w: nat, d: nat, i: nat)
    requires n > 0
  {
    var q := Quot(n, i);
    q < |st| && st[q] >= 0 && q - st[q] == u - 1 && Rem(n, i) == d && Coord(|st|, w, d, q)
  }

  lemma SendTop(st: seq<int>, n: nat, u: nat, w: nat, d: nat, ends: nat, field: nat, i: nat)
    requires n > 0 && Fields(st, u) && d < n && u % 2 == 1 && FitsWord(st, n)
    requires forall k: nat :: Bit(ends, k) == EndAt(st, n, k)
    requires forall k: nat :: Bit(field, k) == FieldAt(st, n, u, w, d, k)
    ensures Bit(Shl(And(field, Shl(ends, u - 1)), 2 * ShiftAmt(n, u / 2) + d), i) == SentAt(st, n, u, w, d, i)
  {
    var v, shift := u / 2, 2 * ShiftAmt(n, u / 2) + d;
    var top := And(field, Shl(ends, u - 1));
    hide FitsWord, Bit, And, Shl, At, Quot, Rem, Coord, ShiftAmt, EndAt, FieldAt;
    BitShl(top, shift, i);
    if shift <= i {
      TopBits(st, n, u, w, d, ends, field, i - shift);
      if Pending(st, n, i - shift) && Off(st, n, i - shift) == u - 1 {
        OfField(st, n, u, i - shift);
        var s := Start(st, n, i - shift);
        assert InOwnField(st, u, s);
        OddShift(n, s, v, d);
        AtParts(n, s + 2 * v, d);
        PendingInWord(st, n, i);
      }
    }
    if SentAt(st, n, u, w, d, i) {
      SentFrom(st, n, u, w, d, i);
    }
  }

  lemma SentFrom(st: seq<int>, n: nat, u: nat, w: nat, d: nat, i: nat)
    requires n > 0 && Fields(st, u) && d < n && u % 2 == 1 && FitsWord(st, n)
    requires SentAt(st, n, u, w, d, i)
    ensures var shift := 2 * ShiftAmt(n, u / 2) + d;
            && shift <= i < WIDTH && Pending(st, n, i - shift) && Off(st, n, i - shift) == u - 1
            && Coord(|st|, w, d, Start(st, n, i - shift) + u - 1)
  {
    hide FitsWord, At, Quot, Rem, Coord, ShiftAmt;
    var q := Quot(n, i);
    assert InOwnField(st, u, q);
    PartsAt(n, i);
    OddShift(n, st[q], u / 2, d);
    PendingInWord(st, n, i);
    InFieldLow(st, n, u, st[q], u - 1);
  }

  /** The field ends, moved up to the top bits of the fields. */
  lemma TopBits(st: seq<int>, n: nat, u: nat, w: nat, d: nat, ends: nat, field: nat, i: nat)
    requires n > 0 && u > 0 && Fields(st, u) && FitsWord(st, n)
    requires forall k: nat :: Bit(ends, k) == EndAt(st, n, k)
    requires forall k: nat :: Bit(field, k) == FieldAt(st, n, u, w, d, k)
    ensures Bit(Shl(ends, u - 1), i) == (Pending(st, n, i) && Off(st, n, i) == u - 1)
    ensures Bit(And(field, Shl(ends, u - 1)), i)
            == (Pending(st, n, i) && Off(st, n, i) == u - 1 && Coord(|st|, w, d, Start(st, n, i) + u - 1))
  {
    hide FitsWord, Bit, And, Shl, At, Quot, Rem, Coord, Fields, Start, Off, Pending;
    BitAnd(field, Shl(ends, u - 1), i);
    BitShl(ends, u - 1, i);
    if u - 1 <= i && Pending(st, n, i - (u - 1)) && Off(st, n, i - (u - 1)) == 0 {
      OfField(st, n, u, i - (u - 1));
      InFieldLow(st, n, u, Start(st, n, i - (u - 1)), u - 1);
    }
    if Pending(st, n, i) {
      OfField(st, n, u, i);
      InFieldLow(st, n, u, Start(st, n, i), 0);
      PendingInWord(st, n, i);
    }
  }

  ghost predicate FitsWord(st: seq<int>, n: nat) { n * |st| <= WIDTH }

  lemma PendingInWord(st: seq<int>, n: nat, i: nat)
    requires n > 0 && FitsWord(st, n) && (Pending(st, n, i) || Quot(n, i) < |st|)
    ensures i < WIDTH
  {
    hide Quot;
    QuotBelow(n, i, |st|);
  }

  /** The top bit of an odd field is taken out of `in`. */
  lemma DropTop(st: seq<int>, n: nat, u: nat, w: nat, d: nat, ends: nat, field: nat, i: nat)
    requires n > 0 && u > 0 && u % 2 == 1 && Fields(st, u) && FitsWord(st, n)
    requires forall k: nat :: Bit(ends, k) == EndAt(st, n, k)
    requires forall k: nat :: Bit(field, k) == FieldAt(st, n, u, w, d, k)
    ensures Bit(AndNot(field, Shl(ends, u - 1)), i) == FieldAt(st, n, u - 1, w, d, i)
  {
    hide FitsWord, Bit, And, AndNot, Shl, At, Quot, Rem, Coord, Fields, Start, Off, Pending;
    BitBitwise(AndNotOp, field, Shl(ends, u - 1), i);
    AndNotIs(field, Shl(ends, u - 1));
    TopBits(st, n, u, w, d, ends, field, i);
  }

  lemma AndNotIs(a: nat, b: nat)
    ensures AndNot(a, b) == Bitwise(AndNotOp, a, b)
  {
  }

  /** Splitting the fields of one coordinate: each half to the start of its new field. */
  lemma SplitField(st: seq<int>, n: nat, u: nat, w: nat, d: nat, field: nat, newMask: nat, i: nat)
    requires n > 0 && u >= 2 && Fields(st, u) && FitsWord(st, n)
    requires forall k: nat :: Bit(field, k) == FieldAt(st, n, 2 * (u / 2), w, d, k)
    requires forall k: nat :: Bit(newMask, k) == MaskAt(Halved(st, u), n, u / 2, k)
    ensures Bit(And(Or(field, Shl(field, ShiftAmt(n, u / 2))), newMask), i) == FieldAt(Halved(st, u), n, u / 2, w, d, i)
  {
    var v, st', shift := u / 2, Halved(st, u), ShiftAmt(n, u / 2);
    hide FitsWord, Bit, And, Or, Shl, At, Quot, Rem, Coord, Fields, Pending, Start, Off, ShiftAmt, Halved;
    BitAnd(Or(field, Shl(field, shift)), newMask, i);
    BitOr(field, Shl(field, shift), i);
    BitShl(field, shift, i);
    if MaskAt(st', n, v, i) {
      HalfOf(st, n, u, i);
    }
  }

  /** Where a position of a new field finds its bit. */
  lemma HalfOf(st: seq<int>, n: nat, u: nat, i: nat)
    requires n > 0 && u >= 2 && Fields(st, u) && FitsWord(st, n) && MaskAt(Halved(st, u), n, u / 2, i)
    ensures var v, shift, b := u / 2, ShiftAmt(n, u / 2), Start(Halved(st, u), n, i) + Off(Halved(st, u), n, i);
            && i < WIDTH
            && (MaskAt(st, n, 2 * v, i) ==> Start(st, n, i) + Off(st, n, i) == b)
            && (shift <= i && MaskAt(st, n, 2 * v, i - shift) ==> Start(st, n, i - shift) + Off(st, n, i - shift) == b)
            && (MaskAt(st, n, 2 * v, i) || (shift <= i && MaskAt(st, n, 2 * v, i - shift)))
  {
    var v, st' := u / 2, Halved(st, u);
    hide FitsWord, At, Quot, Rem, Fields, Start, Off, Pending, Halved, IsStart, ShiftAmt, MaskAt;
    HalvedFields(st, u);
    HalvedFits(st, n, u);
    MaskPending(st', n, v, i);
    OfField(st', n, v, i);
    PendingInWord(st', n, i);
    HalfCases(st, n, u, Start(st', n, i), Off(st', n, i));
  }

  lemma HalfCases(st: seq<int>, n: nat, u: nat, s: nat, o: nat)
    requires n > 0 && u >= 2 && Fields(st, u) && IsStart(Halved(st, u), s) && o < u / 2
    ensures var v, shift, i := u / 2, ShiftAmt(n, u / 2), At(n, s, 0) + o;
            && (MaskAt(st, n, 2 * v, i) ==> Start(st, n, i) + Off(st, n, i) == s + o)
            && (shift <= i && MaskAt(st, n, 2 * v, i - shift) ==>
                  Start(st, n, i - shift) + Off(st, n, i - shift) == s + o)
            && (MaskAt(st, n, 2 * v, i) || (shift <= i && MaskAt(st, n, 2 * v, i - shift)))
  {
    hide At, Quot, Rem, Fields, Start, Off, Pending, Halved, IsStart, ShiftAmt, MaskAt;
    HalvedStarts(st, u, s);
    if IsStart(st, s) {
      LowerHalf(st, n, u, s, o);
    } else {
      UpperHalf(st, n, u, s - u / 2, o);
    }
  }

  lemma MaskPending(st: seq<int>, n: nat, u: nat, i: nat)
    requires n > 0 && MaskAt(st, n, u, i)
    ensures Pending(st, n, i) && Off(st, n, i) < u
  {
  }

  lemma HalvedLength(st: seq<int>, u: nat)
    ensures |Halved(st, u)| == |st|
  {
  }

  /** A position of a lower half: the unshifted word has its bit, the shifted one nothing else. */
  lemma LowerHalf(st: seq<int>, n: nat, u: nat, s: nat, o: nat)
    requires n > 0 && u >= 2 && Fields(st, u) && IsStart(st, s) && o < u / 2
    ensures var i := At(n, s, 0) + o;
            && MaskAt(st, n, 2 * (u / 2), i) && Start(st, n, i) == s && Off(st, n, i) == o
            && (ShiftAmt(n, u / 2) <= i && MaskAt(st, n, 2 * (u / 2), i - ShiftAmt(n, u / 2)) ==> n == 1)
    ensures n == 1 ==> ShiftAmt(n, u / 2) == 0
  {
    var i, v, shift := At(n, s, 0) + o, u / 2, ShiftAmt(n, u / 2);
    hide FitsWord, At, Quot, Rem, Pending, Start, Off, Fields, IsStart;
    InFieldLow(st, n, u, s, o);
    if n > 1 && shift <= i && MaskAt(st, n, 2 * v, i - shift) {
      OfField(st, n, u, i - shift);
      var t := Start(st, n, i - shift);
      ShiftFacts(n, v);
      if s <= t {
        AtMono(n, s, t);
      } else {
        StartsApart(st, u, t, s);
        AtMono(n, t + u, s);
        FieldSpan(n, t, u, v);
      }
      assert false;
    }
  }

  lemma ShiftFacts(n: nat, v: nat)
    requires n > 0
    ensures n == 1 ==> ShiftAmt(n, v) == 0
    ensures n > 1 ==> v <= ShiftAmt(n, v)
    ensures ShiftAmt(n, v) + v == At(n, v, 0)
  {
    if n > 1 {
      MulMono(v, 1, n - 1);
    }
  }

  lemma FieldSpan(n: nat, t: nat, u: nat, v: nat)
    requires n > 1 && v == u / 2 && v > 0
    ensures At(n, t, 0) + 2 * v + ShiftAmt(n, v) <= At(n, t + u, 0)
  {
    MulMono(n, 2 * v, u);
    ShiftFacts(n, v);
    AtIs(n, v, 0);
    assert n * (t + u) == n * t + n * u;
    assert n * (2 * v) == n * v + n * v;
    MulMono(v, 2, n);
  }

  /** A position of an upper half: the shifted word has its bit. */
  lemma UpperHalf(st: seq<int>, n: nat, u: nat, s: nat, o: nat)
    requires n > 0 && u >= 2 && Fields(st, u) && IsStart(st, s) && o < u / 2
    ensures var v, shift, i := u / 2, ShiftAmt(n, u / 2), At(n, s + u / 2, 0) + o;
            && shift <= i && MaskAt(st, n, 2 * v, i - shift)
            && Start(st, n, i - shift) == s && Off(st, n, i - shift) == v + o
            && (MaskAt(st, n, 2 * v, i) ==> n == 1)
    ensures n == 1 ==> ShiftAmt(n, u / 2) == 0
  {
    var v, shift := u / 2, ShiftAmt(n, u / 2);
    var i := At(n, s + v, 0) + o;
    hide FitsWord, At, Quot, Rem, Pending, Start, Off, Fields, IsStart;
    ShiftFacts(n, v);
    AtAdd(n, s, v, 0);
    InFieldLow(st, n, u, s, v + o);
    if n > 1 {
      AtIs(n, v, 0);
      TwoWide(n, v);
      UpperBound(n, u, v, o);
      InField(st, n, u, s, n * v + o);
    }
  }

  lemma TwoWide(n: nat, v: nat)
    requires n > 1
    ensures 2 * v <= n * v
  {
    MulMono(v, 2, n);
  }

  lemma UpperBound(n: nat, u: nat, v: nat, o: nat)
    requires n > 1 && v == u / 2 && o < v
    ensures n * v + o < n * u
  {
    MulMono(n, 2 * v, u);
    assert n * (2 * v) == n * v + n * v;
    MulMono(v, 1, n);
  }

  /** The part of the new word that comes from the first d coordinates. */
  ghost predicate InBelow(st: seq<int>, n: nat, u: nat, w: nat, d: nat, i: nat)
    requires n > 0 && u > 0
  {
    InAt(st, n, u, w, i) && Quot(u, Off(st, n, i)) < d
  }

  lemma Accumulate(st: seq<int>, n: nat, v: nat, w: nat, d: nat, utCoords: nat, split: nat, i: nat)
    requires n > 0 && v > 0 && Fields(st, v) && d < n && FitsWord(st, n)
    requires forall k: nat :: Bit(utCoords, k) == InBelow(st, n, v, w, d, k)
    requires forall k: nat :: Bit(split, k) == FieldAt(st, n, v, w, d, k)
    ensures Bit(Or(utCoords, Shl(split, d * v)), i) == InBelow(st, n, v, w, d + 1, i)
  {
    AtTimes(v, d);
    var shift := At(v, d, 0);
    hide FitsWord, Bit, Or, Shl, At, Quot, Rem, Coord, Fields, Start, Off, Pending;
    BitOr(utCoords, Shl(split, shift), i);
    BitShl(split, shift, i);
    if shift <= i && MaskAt(st, n, v, i - shift) {
      OfField(st, n, v, i - shift);
      var s, j := Start(st, n, i - shift), Off(st, n, i - shift);
      AtAdd(v, d, 0, j);
      AtParts(v, d, j);
      InFieldAt(st, n, v, s, d, j);
    }
    if Pending(st, n, i) && Quot(v, Off(st, n, i)) == d {
      OfField(st, n, v, i);
      var s, off := Start(st, n, i), Off(st, n, i);
      PartsAt(v, off);
      AtAdd(v, d, 0, Rem(v, off));
      InFieldLow(st, n, v, s, Rem(v, off));
      PendingInWord(st, n, i);
    }
  }

  lemma AtTimes(v: nat, d: nat)
    ensures At(v, d, 0) == d * v && forall j: nat :: At(v, 0, j) == j
  {
  }

  /** Bit j of coordinate d's share of a field. */
  lemma InFieldAt(st: seq<int>, n: nat, v: nat, s: nat, d: nat, j: nat)
    requires n > 0 && Fields(st, v) && IsStart(st, s) && d < n && j < v
    ensures var i := At(n, s, 0) + At(v, d, j);
            Pending(st, n, i) && Start(st, n, i) == s && Off(st, n, i) == At(v, d, j)
  {
    AtBelow(v, d, j, n);
    assert v * n == n * v;
    InField(st, n, v, s, At(v, d, j));
  }

  // ----- the new ends and the new mask -----

  lemma NewEnds(st: seq<int>, n: nat, u: nat, ends: nat, i: nat)
    requires n > 0 && u >= 2 && Fields(st, u) && FitsWord(st, n)
    requires forall k: nat :: Bit(ends, k) == EndAt(st, n, k)
    ensures Bit(Or(ends, Shl(ends, ShiftAmt(n, u / 2) + u / 2)), i) == EndAt(Halved(st, u), n, i)
  {
    var shift := ShiftAmt(n, u / 2) + u / 2;
    hide FitsWord, Bit, Or, Shl, Fields, EndAt, Halved, ShiftAmt;
    BitOr(ends, Shl(ends, shift), i);
    BitShl(ends, shift, i);
    if EndAt(st, n, i) {
      EndKept(st, n, u, i);
    }
    if shift <= i && EndAt(st, n, i - shift) {
      EndMoved(st, n, u, i - shift);
    }
    if EndAt(Halved(st, u), n, i) {
      EndFrom(st, n, u, i);
    }
  }

  lemma EndKept(st: seq<int>, n: nat, u: nat, i: nat)
    requires n > 0 && u >= 2 && Fields(st, u) && EndAt(st, n, i)
    ensures EndAt(Halved(st, u), n, i)
  {
    hide At, Quot, Rem, Fields, Start, Off, Pending, Halved, IsStart;
    HalvedFields(st, u);
    OfField(st, n, u, i);
    HalvedStarts(st, u, Start(st, n, i));
    InFieldLow(Halved(st, u), n, u / 2, Start(st, n, i), 0);
  }

  lemma EndMoved(st: seq<int>, n: nat, u: nat, i: nat)
    requires n > 0 && u >= 2 && Fields(st, u) && EndAt(st, n, i)
    ensures EndAt(Halved(st, u), n, i + ShiftAmt(n, u / 2) + u / 2)
  {
    hide At, Quot, Rem, Fields, Start, Off, Pending, Halved, IsStart, ShiftAmt;
    HalvedFields(st, u);
    OfField(st, n, u, i);
    var s, v := Start(st, n, i), u / 2;
    HalvedStarts(st, u, s);
    ShiftFacts(n, v);
    AtAdd(n, s, v, 0);
    InFieldLow(Halved(st, u), n, v, s + v, 0);
  }

  /** A new field end is an old one, or an old one moved up by half a field. */
  lemma EndFrom(st: seq<int>, n: nat, u: nat, i: nat)
    requires n > 0 && u >= 2 && Fields(st, u) && FitsWord(st, n) && EndAt(Halved(st, u), n, i)
    ensures i < WIDTH
    ensures var shift := ShiftAmt(n, u / 2) + u / 2; EndAt(st, n, i) || (shift <= i && EndAt(st, n, i - shift))
  {
    var v, st' := u / 2, Halved(st, u);
    hide FitsWord, At, Quot, Rem, Fields, Start, Off, Pending, Halved, IsStart, ShiftAmt;
    HalvedFields(st, u);
    HalvedLength(st, u);
    HalvedFits(st, n, u);
    OfField(st', n, v, i);
    PendingInWord(st', n, i);
    var s := Start(st', n, i);
    HalvedStarts(st, u, s);
    if IsStart(st, s) {
      InFieldLow(st, n, u, s, 0);
    } else {
      EndFromMoved(st, n, u, s - v);
    }
  }

  lemma EndFromMoved(st: seq<int>, n: nat, u: nat, t: nat)
    requires n > 0 && u >= 2 && Fields(st, u) && IsStart(st, t)
    ensures var shift := ShiftAmt(n, u / 2) + u / 2;
            shift <= At(n, t + u / 2, 0) && EndAt(st, n, At(n, t + u / 2, 0) - shift)
  {
    hide At, Quot, Rem, Fields, Start, Off, Pending, IsStart, ShiftAmt;
    AtAdd(n, t, u / 2, 0);
    ShiftFacts(n, u / 2);
    InFieldLow(st, n, u, t, 0);
  }

  lemma HalvedFits(st: seq<int>, n: nat, u: nat)
    requires FitsWord(st, n)
    ensures FitsWord(Halved(st, u), n)
  {
  }

  // ----- masks from field ends: (ends << v) - ends -----

  /** Subtraction of 64-bit words. */
  function Sub(a: nat, b: nat): nat
    requires b < Pow2(WIDTH)
  {
    if a >= b then a - b else a + Pow2(WIDTH) - b
  }

  /** The v positions from each set bit of x on. */
  ghost predicate Covered(x: nat, v: nat, i: nat) {
    exists p: nat :: Bit(x, p) && p <= i < p + v
  }

  ghost predicate Spaced(x: nat, v: nat) {
    forall p: nat, q: nat :: Bit(x, p) && Bit(x, q) && p < q ==> p + v <= q
  }

  lemma {:induction false} ScaledAdd(a: nat, b: nat, v: nat)
    ensures Scaled(a + b, v) == Scaled(a, v) + Scaled(b, v)
  {
    if v > 0 {
      ScaledAdd(a, b, v - 1);
    }
  }

  lemma {:induction false} ScaledOne(v: nat)
    ensures Scaled(1, v) == Pow2(v)
  {
    if v > 0 {
      ScaledOne(v - 1);
    }
  }

  lemma {:induction false} ScaledMono(a: nat, v: nat)
    ensures a <= Scaled(a, v)
    ensures Scaled(2 * a, v) == 2 * Scaled(a, v)
  {
    if v > 0 {
      ScaledMono(a, v - 1);
    }
  }

  /** An odd word whose next set bit is v positions up. */
  lemma SplitLow(x: nat, v: nat)
    requires v > 0 && Bit(x, 0) && Spaced(x, v)
    ensures x == 1 + Scaled(Shr(x, v), v) && Spaced(Shr(x, v), v) && Shr(x, v) < x
  {
    var y := Shr(x, v);
    hide Scaled, Shr;
    forall i: nat
      ensures Bit(x / 2, i) == Bit(Scaled(y, v) / 2, i)
    {
      assert Bit(x / 2, i) == Bit(x, i + 1) && Bit(Scaled(y, v) / 2, i) == Bit(Scaled(y, v), i + 1);
      BitScaled(y, v, i + 1);
      if v <= i + 1 {
        BitShr(x, v, i + 1 - v);
      }
    }
    SameBits(x / 2, Scaled(y, v) / 2);
    BitScaled(y, v, 0);
    forall p: nat, q: nat | Bit(y, p) && Bit(y, q) && p < q
      ensures p + v <= q
    {
      BitShr(x, v, p);
      BitShr(x, v, q);
    }
    ScaledMono(y, v);
  }

  /** Multiplying by 2^v - 1 turns each set bit into a run of v ones, if the runs do not meet. */
  lemma {:induction false} MaskBits(x: nat, v: nat, i: nat)
    requires v > 0 && Spaced(x, v)
    ensures x <= Scaled(x, v) && Bit(Scaled(x, v) - x, i) == Covered(x, v, i)
    decreases x, i
  {
    ScaledMono(x, v);
    if x == 0 {
      NoBits(v, i);
    } else if x % 2 == 0 {
      MaskEven(x, v, i);
    } else {
      MaskOdd(x, v, i);
    }
  }

  lemma NoBits(v: nat, i: nat)
    ensures Scaled(0, v) == 0 && !Bit(0, i) && !Covered(0, v, i)
  {
    ScaledMono(0, v);
    BitOfZero(i);
    forall p: nat
      ensures !Bit(0, p)
    {
      BitOfZero(p);
    }
  }

  lemma MaskEven(x: nat, v: nat, i: nat)
    requires v > 0 && Spaced(x, v) && x > 0 && x % 2 == 0
    ensures x <= Scaled(x, v) && Bit(Scaled(x, v) - x, i) == Covered(x, v, i)
    decreases x, i, 0
  {
    var h := x / 2;
    ScaledMono(h, v);
    hide Scaled;
    forall p: nat
      ensures Bit(h, p) == Bit(x, p + 1)
    {
    }
    assert Spaced(h, v);
    assert (Scaled(x, v) - x) / 2 == Scaled(h, v) - h;
    if i > 0 {
      MaskBits(h, v, i - 1);
      if Covered(x, v, i) {
        var p: nat :| Bit(x, p) && p <= i < p + v;
        assert Bit(h, p - 1);
      }
      if Covered(h, v, i - 1) {
        var p: nat :| Bit(h, p) && p <= i - 1 < p + v;
        assert Bit(x, p + 1);
      }
    }
  }

  lemma MaskOdd(x: nat, v: nat, i: nat)
    requires v > 0 && Spaced(x, v) && x % 2 == 1
    ensures x <= Scaled(x, v) && Bit(Scaled(x, v) - x, i) == Covered(x, v, i)
    decreases x, i, 0
  {
    var y := Shr(x, v);
    SplitLow(x, v);
    ScaledAdd(1, Scaled(y, v), v);
    ScaledOne(v);
    ScaledMono(y, v);
    var m := Scaled(y, v) - y;
    assert Scaled(x, v) - x == Ones(v) + Scaled(m, v) by {
      ScaledAdd(m, y, v);
    }
    OnesThen(m, v, i);
    hide Scaled, Shr, Ones;
    if v <= i {
      MaskBits(y, v, i - v);
      CoveredShift(x, v, i);
    } else {
      assert Bit(x, 0) && 0 <= i < 0 + v;
    }
  }

  lemma CoveredShift(x: nat, v: nat, i: nat)
    requires v <= i && Spaced(x, v) && Bit(x, 0)
    ensures Covered(x, v, i) == Covered(Shr(x, v), v, i - v)
  {
    var y := Shr(x, v);
    if Covered(x, v, i) {
      var p: nat :| Bit(x, p) && p <= i < p + v;
      if v <= p {
        BitShr(x, v, p - v);
        assert Bit(y, p - v);
      }
    }
    if Covered(y, v, i - v) {
      var p: nat :| Bit(y, p) && p <= i - v < p + v;
      BitShr(x, v, p);
      assert Bit(x, p + v);
    }
  }

  /** v ones below the bits of m. */
  lemma {:induction false} OnesThen(m: nat, v: nat, i: nat)
    ensures Bit(Ones(v) + Scaled(m, v), i) == (i < v || (v <= i && Bit(m, i - v)))
    decreases v
  {
    if v > 0 {
      assert (Ones(v) + Scaled(m, v)) / 2 == Ones(v - 1) + Scaled(m, v - 1);
      if i > 0 {
        OnesThen(m, v - 1, i - 1);
      }
    }
  }

  lemma NotCovered(x: nat, v: nat, j: nat)
    requires WIDTH <= j && forall p: nat :: Bit(x, p) ==> p + v <= WIDTH
    ensures !Covered(x, v, j)
  {
  }

  /** The 64-bit subtraction gives the same word. */
  lemma MaskWord(x: nat, v: nat, i: nat)
    requires v > 0 && x < Pow2(WIDTH) && Spaced(x, v)
    requires forall p: nat :: Bit(x, p) ==> p + v <= WIDTH
    ensures Bit(Sub(Shl(x, v), x), i) == Covered(x, v, i)
  {
    hide Covered, Bit, Spaced;
    MaskBits(x, v, i);
    var y: nat := Scaled(x, v) - x;
    forall j: nat | WIDTH <= j
      ensures !Bit(y, j)
    {
      MaskBits(x, v, j);
      NotCovered(x, v, j);
    }
    FitsBits(y, WIDTH);
    LowWrap(x + y, WIDTH);
  }

  lemma {:induction false} LowWrap(a: nat, n: nat)
    requires a < 2 * Pow2(n)
    ensures Low(a, n) == if a < Pow2(n) then a else a - Pow2(n)
  {
    if n > 0 {
      LowWrap(a / 2, n - 1);
    }
  }

  lemma NewMask(st: seq<int>, n: nat, v: nat, ends: nat)
    requires n > 0 && v > 0 && Fields(st, v) && FitsWord(st, n)
    requires forall k: nat :: Bit(ends, k) == EndAt(st, n, k)
    ensures ends < Pow2(WIDTH)
    ensures forall i: nat :: Bit(Sub(Shl(ends, v), ends), i) == MaskAt(st, n, v, i)
  {
    hide FitsWord, Bit, Shl, Sub, Fields, Pow2, EndAt, MaskAt;
    forall p: nat | Bit(ends, p)
      ensures p + v <= WIDTH
    {
      EndFits(st, n, v, p);
    }
    forall p: nat, q: nat | Bit(ends, p) && Bit(ends, q) && p < q
      ensures p + v <= q
    {
      EndsApart(st, n, v, p, q);
    }
    FitsBits(ends, WIDTH);
    forall i: nat
      ensures Bit(Sub(Shl(ends, v), ends), i) == MaskAt(st, n, v, i)
    {
      MaskWord(ends, v, i);
      MaskIsCover(st, n, v, ends, i);
    }
  }

  lemma EndFits(st: seq<int>, n: nat, v: nat, p: nat)
    requires n > 0 && v > 0 && Fields(st, v) && FitsWord(st, n) && EndAt(st, n, p)
    ensures p + v <= WIDTH
  {
    hide FitsWord, At, Quot, Rem, Fields, Start, Off, Pending, IsStart;
    OfField(st, n, v, p);
    InFieldLow(st, n, v, Start(st, n, p), v - 1);
    PendingInWord(st, n, p + v - 1);
  }

  lemma EndsApart(st: seq<int>, n: nat, v: nat, p: nat, q: nat)
    requires n > 0 && v > 0 && Fields(st, v) && EndAt(st, n, p) && EndAt(st, n, q) && p < q
    ensures p + v <= q
  {
    hide At, Quot, Rem, Fields, Start, Off, Pending, IsStart;
    OfField(st, n, v, p);
    OfField(st, n, v, q);
    var s, t := Start(st, n, p), Start(st, n, q);
    if t <= s {
      AtMono(n, t, s);
    } else {
      StartsApart(st, v, s, t);
      AtMono(n, s + v, t);
      AtAdd(n, s, v, 0);
      ShiftFacts(n, v);
    }
  }

  lemma MaskIsCover(st: seq<int>, n: nat, v: nat, ends: nat, i: nat)
    requires n > 0 && v > 0 && Fields(st, v)
    requires forall k: nat :: Bit(ends, k) == EndAt(st, n, k)
    ensures MaskAt(st, n, v, i) == Covered(ends, v, i)
  {
    hide Bit, At, Quot, Rem, Fields, Start, Off, Pending, IsStart;
    if MaskAt(st, n, v, i) {
      OfField(st, n, v, i);
      var p := At(n, Start(st, n, i), 0);
      InFieldLow(st, n, v, Start(st, n, i), 0);
      assert Bit(ends, p) && p <= i < p + v;
    }
    if Covered(ends, v, i) {
      var p: nat :| Bit(ends, p) && p <= i < p + v;
      OfField(st, n, v, p);
      InFieldLow(st, n, v, Start(st, n, p), i - p);
    }
  }

  // ----- the loops over the coordinates -----

  /** Final bits of the coordinates below d. */
  ghost predicate SentBelow(st: seq<int>, n: nat, u: nat, w: nat, d: nat, i: nat)
    requires n > 0
  {
    Rem(n, i) < d && SentAt(st, n, u, w, Rem(n, i), i)
  }

  lemma DoneAfter(st: seq<int>, n: nat, u: nat, w: nat, i: nat)
    requires n > 0 && u >= 2 && Fields(st, u)
    ensures DoneAt(Halved(st, u), n, w, i)
            == (DoneAt(st, n, w, i) || (u % 2 == 1 && SentBelow(st, n, u, w, n, i)))
  {
    hide At, Quot, Rem, Coord;
    PartsAt(n, i);
    var q := Quot(n, i);
    if q < |st| && st[q] >= 0 {
      assert InOwnField(st, u, q);
    }
  }

  lemma InBelowAll(st: seq<int>, n: nat, v: nat, w: nat, i: nat)
    requires n > 0 && v > 0 && Fields(st, v)
    ensures InBelow(st, n, v, w, n, i) == InAt(st, n, v, w, i)
  {
    if Pending(st, n, i) {
      hide At, Quot, Rem, Coord;
      OffBound(st, n, v, i);
      assert n * v == v * n;
      QuotBelow(v, Off(st, n, i), n);
    }
  }

  method HalveOdd(n: nat, u: nat, ends: nat, mask: nat, newMask: nat, inCoords: nat, oldCoords: nat,
                  ghost st: seq<int>, ghost w: nat) returns (utCoords: nat, coords: nat)
    requires n > 0 && u >= 2 && u % 2 == 1 && FitsWord(st, n)
    requires Round(st, n, u, w, ends, mask, inCoords, oldCoords)
    requires forall i: nat :: Bit(newMask, i) == MaskAt(Halved(st, u), n, u / 2, i)
    ensures forall i: nat :: Bit(utCoords, i) == InAt(Halved(st, u), n, u / 2, w, i)
    ensures forall i: nat :: Bit(coords, i) == DoneAt(Halved(st, u), n, w, i)
  {
    HalvedFields(st, u);
    HalvedFits(st, n, u);
    hide FitsWord, Bit, And, AndNot, Or, Shl, Shr, Fields, InAt, DoneAt, MaskAt, EndAt, FieldAt, InBelow, SentAt,
        Halved, ShiftAmt, Quot, Rem;
    ghost var st', v := Halved(st, u), u / 2;
    var starts := Shl(ends, u - 1);
    var oddShift := 2 * ShiftAmt(n, u / 2);
    var rest := inCoords;
    utCoords, coords := 0, oldCoords;
    NothingBelow(st', n, v, w);
    RestStart(inCoords, u);
    for d := 0 to n
      invariant rest == Shr(inCoords, u * d) && oddShift == 2 * ShiftAmt(n, u / 2) + d
      invariant forall i: nat :: Bit(utCoords, i) == InBelow(st', n, v, w, d, i)
      invariant forall i: nat :: Bit(coords, i) == (DoneAt(st, n, w, i) || SentBelow(st, n, u, w, d, i))
    {
      var field := And(rest, mask);
      rest := Shr(rest, u);
      RestNext(inCoords, u, d);
      var nextCoords := Or(coords, Shl(And(field, starts), oddShift));
      var low := AndNot(field, starts);
      var split := And(Or(low, Shl(low, ShiftAmt(n, u / 2))), newMask);
      var nextUt := Or(utCoords, Shl(split, d * (u / 2)));
      ShareOdd(st, n, u, w, d, ends, mask, newMask, inCoords);
      forall i: nat
        ensures Bit(nextCoords, i) == (DoneAt(st, n, w, i) || SentBelow(st, n, u, w, d + 1, i))
      {
        SendTop(st, n, u, w, d, ends, field, i);
        BitOr(coords, Shl(And(field, starts), oddShift), i);
        SentNext(st, n, u, w, d, i);
      }
      forall i: nat
        ensures Bit(nextUt, i) == InBelow(st', n, v, w, d + 1, i)
      {
        Accumulate(st', n, v, w, d, utCoords, split, i);
      }
      coords, utCoords := nextCoords, nextUt;
      oddShift := oddShift + 1;
    }
    forall i: nat
      ensures Bit(utCoords, i) == InAt(st', n, v, w, i) && Bit(coords, i) == DoneAt(st', n, w, i)
    {
      InBelowAll(st', n, v, w, i);
      DoneAfter(st, n, u, w, i);
    }
  }

  lemma NothingBelow(st: seq<int>, n: nat, v: nat, w: nat)
    requires n > 0 && v > 0
    ensures forall i: nat :: Bit(0, i) == InBelow(st, n, v, w, 0, i)
  {
    forall i: nat
      ensures !Bit(0, i)
    {
      BitOfZero(i);
    }
  }

  lemma RestStart(w: nat, u: nat)
    ensures Shr(w, u * 0) == w
  {
  }

  lemma RestNext(w: nat, u: nat, d: nat)
    ensures Shr(Shr(w, u * d), u) == Shr(w, u * (d + 1))
  {
    ShrShr(w, u * d, u);
    assert u * d + u == u * (d + 1);
  }

  lemma SentNext(st: seq<int>, n: nat, u: nat, w: nat, d: nat, i: nat)
    requires n > 0
    ensures SentBelow(st, n, u, w, d + 1, i) == (SentBelow(st, n, u, w, d, i) || SentAt(st, n, u, w, d, i))
  {
    hide At, Quot, Rem, Coord;
  }

  /** One coordinate's share of an odd round. */
  lemma ShareOdd(st: seq<int>, n: nat, u: nat, w: nat, d: nat, ends: nat, mask: nat, newMask: nat, inCoords: nat)
    requires n > 0 && u >= 2 && u % 2 == 1 && d < n && FitsWord(st, n) && Fields(st, u)
    requires forall k: nat :: Bit(ends, k) == EndAt(st, n, k)
    requires forall k: nat :: Bit(mask, k) == MaskAt(st, n, u, k)
    requires forall k: nat :: Bit(inCoords, k) == InAt(st, n, u, w, k)
    requires forall k: nat :: Bit(newMask, k) == MaskAt(Halved(st, u), n, u / 2, k)
    ensures var field := And(Shr(inCoords, u * d), mask);
            var low := AndNot(field, Shl(ends, u - 1));
            var split := And(Or(low, Shl(low, ShiftAmt(n, u / 2))), newMask);
            && (forall k: nat :: Bit(field, k) == FieldAt(st, n, u, w, d, k))
            && (forall k: nat :: Bit(split, k) == FieldAt(Halved(st, u), n, u / 2, w, d, k))
  {
    hide FitsWord, Bit, And, AndNot, Or, Shl, Shr, Fields, InAt, MaskAt, EndAt, FieldAt, Halved, ShiftAmt;
    var field := And(Shr(inCoords, u * d), mask);
    forall k: nat
      ensures Bit(field, k) == FieldAt(st, n, u, w, d, k)
    {
      TakeField(st, n, u, w, d, mask, inCoords, k);
    }
    var low := AndNot(field, Shl(ends, u - 1));
    assert u - 1 == 2 * (u / 2);
    forall k: nat
      ensures Bit(low, k) == FieldAt(st, n, 2 * (u / 2), w, d, k)
    {
      DropTop(st, n, u, w, d, ends, field, k);
    }
    forall k: nat
      ensures Bit(And(Or(low, Shl(low, ShiftAmt(n, u / 2))), newMask), k) == FieldAt(Halved(st, u), n, u / 2, w, d, k)
    {
      SplitField(st, n, u, w, d, low, newMask, k);
    }
  }

  method HalveEven(n: nat, u: nat, mask: nat, newMask: nat, inCoords: nat,
                   ghost st: seq<int>, ghost w: nat, ghost ends: nat, ghost coords: nat) returns (utCoords: nat)
    requires n > 0 && u >= 2 && u % 2 == 0 && FitsWord(st, n)
    requires Round(st, n, u, w, ends, mask, inCoords, coords)
    requires forall i: nat :: Bit(newMask, i) == MaskAt(Halved(st, u), n, u / 2, i)
    ensures forall i: nat :: Bit(utCoords, i) == InAt(Halved(st, u), n, u / 2, w, i)
    ensures forall i: nat :: Bit(coords, i) == DoneAt(Halved(st, u), n, w, i)
  {
    HalvedFields(st, u);
    HalvedFits(st, n, u);
    hide FitsWord, Bit, And, Or, Shl, Shr, Fields, InAt, DoneAt, MaskAt, EndAt, FieldAt, InBelow, SentBelow, Halved,
        ShiftAmt;
    ghost var st', v := Halved(st, u), u / 2;
    var rest := inCoords;
    utCoords := 0;
    NothingBelow(st', n, v, w);
    RestStart(inCoords, u);
    for d := 0 to n
      invariant rest == Shr(inCoords, u * d)
      invariant forall i: nat :: Bit(utCoords, i) == InBelow(st', n, v, w, d, i)
    {
      var field := And(rest, mask);
      rest := Shr(rest, u);
      RestNext(inCoords, u, d);
      var split := And(Or(field, Shl(field, ShiftAmt(n, u / 2))), newMask);
      var nextUt := Or(utCoords, Shl(split, d * (u / 2)));
      assert u == 2 * (u / 2);
      forall k: nat
        ensures Bit(field, k) == FieldAt(st, n, 2 * (u / 2), w, d, k)
      {
        TakeField(st, n, u, w, d, mask, inCoords, k);
      }
      forall k: nat
        ensures Bit(split, k) == FieldAt(st', n, v, w, d, k)
      {
        SplitField(st, n, u, w, d, field, newMask, k);
      }
      forall i: nat
        ensures Bit(nextUt, i) == InBelow(st', n, v, w, d + 1, i)
      {
        Accumulate(st', n, v, w, d, utCoords, split, i);
      }
      utCoords := nextUt;
    }
    forall i: nat
      ensures Bit(utCoords, i) == InAt(st', n, v, w, i) && Bit(coords, i) == DoneAt(st', n, w, i)
    {
      InBelowAll(st', n, v, w, i);
      DoneAfter(st, n, u, w, i);
    }
  }

  // ----- the whole transpose -----

  /** At first all coordinate bits are in one field. */
  ghost function OneField(nBits: nat): seq<int> { seq(nBits, _ => 0) }

  ghost predicate IsInput(n: nat, nBits: nat, w: nat) {
    n > 0 && nBits > 0 && n * nBits <= WIDTH && w < Pow2(n * nBits)
  }

  lemma FirstRound(n: nat, nBits: nat, w: nat)
    requires IsInput(n, nBits, w)
    ensures n > 0 && nBits > 0 && Round(OneField(nBits), n, nBits, w, 1, Ones(nBits), w, 0)
    ensures FitsWord(OneField(nBits), n) && |OneField(nBits)| == nBits
  {
    var st := OneField(nBits);
    forall b | 0 <= b < |st| && st[b] >= 0
      ensures InOwnField(st, nBits, b)
    {
    }
    hide Bit, Quot, Rem, Ones, Pow2;
    forall i: nat
      ensures Bit(1, i) == EndAt(st, n, i)
      ensures Bit(Ones(nBits), i) == MaskAt(st, n, nBits, i)
      ensures Bit(w, i) == InAt(st, n, nBits, w, i)
      ensures Bit(0, i) == DoneAt(st, n, w, i)
    {
      FirstRoundAt(st, n, nBits, w, i);
    }
  }

  lemma FirstRoundAt(st: seq<int>, n: nat, nBits: nat, w: nat, i: nat)
    requires n > 0 && nBits > 0 && w < Pow2(n * nBits) && st == OneField(nBits)
    ensures Bit(1, i) == EndAt(st, n, i)
    ensures Bit(Ones(nBits), i) == MaskAt(st, n, nBits, i)
    ensures Bit(w, i) == InAt(st, n, nBits, w, i)
    ensures Bit(0, i) == DoneAt(st, n, w, i)
  {
    assert Pow2(0) == 1;
    BitOfPow2(0, i);
    BitOfZero(i);
    BitOnes(nBits, i);
    AtTimes(n, 0);
    hide Bit, Quot, Rem, Ones, Pow2, At;
    QuotBelow(n, i, nBits);
    PartsAt(nBits, i);
    if Quot(n, i) >= nBits {
      BitAbove(w, n * nBits, i);
      SmallIndex(n, nBits, i);
    }
  }

  lemma SmallIndex(n: nat, nBits: nat, i: nat)
    requires n > 0 && nBits > 0 && n * nBits <= i
    ensures nBits <= i && 0 < i
  {
    MulMono(nBits, 1, n);
  }

  /** Fields of width 1 are in their final places. */
  lemma LastRound(st: seq<int>, n: nat, w: nat, ends: nat, mask: nat, inCoords: nat, coords: nat)
    requires n > 0 && Round(st, n, 1, w, ends, mask, inCoords, coords)
    ensures Or(coords, inCoords) == Transpose(n, |st|, w)
  {
    hide Bit, Or, At, Transpose, Quot, Rem;
    forall i: nat
      ensures Bit(Or(coords, inCoords), i) == Bit(Transpose(n, |st|, w), i)
    {
      BitOr(coords, inCoords, i);
      BitTransposeAt(n, |st|, w, i);
      LastRoundAt(st, n, w, i);
    }
    SameBits(Or(coords, inCoords), Transpose(n, |st|, w));
  }

  lemma LastRoundAt(st: seq<int>, n: nat, w: nat, i: nat)
    requires n > 0 && Fields(st, 1)
    ensures (InAt(st, n, 1, w, i) || DoneAt(st, n, w, i)) == (Quot(n, i) < |st| && SourceBit(n, |st|, w, i))
  {
    var q := Quot(n, i);
    if q < |st| && st[q] >= 0 {
      assert InOwnField(st, 1, q);
      UnitField(n, i);
    }
  }

  lemma UnitField(n: nat, i: nat)
    requires n > 0
    ensures At(n, Quot(n, i), 0) <= i && i - At(n, Quot(n, i), 0) == Rem(n, i)
    ensures Quot(1, Rem(n, i)) == Rem(n, i) && Rem(1, Rem(n, i)) == 0
  {
  }

  lemma NextEndsAndMask(st: seq<int>, n: nat, u: nat, w: nat, ends: nat, mask: nat, inCoords: nat, coords: nat)
    requires n > 0 && u >= 2 && FitsWord(st, n) && Round(st, n, u, w, ends, mask, inCoords, coords)
    ensures var utEnds := Or(ends, Shl(ends, ShiftAmt(n, u / 2) + u / 2));
            && utEnds < Pow2(WIDTH)
            && (forall i: nat :: Bit(utEnds, i) == EndAt(Halved(st, u), n, i))
            && (forall i: nat :: Bit(Sub(Shl(utEnds, u / 2), utEnds), i) == MaskAt(Halved(st, u), n, u / 2, i))
  {
    hide FitsWord, Bit, Or, Shl, Sub, Fields, InAt, DoneAt, MaskAt, EndAt, Halved, ShiftAmt, Pow2;
    var utEnds := Or(ends, Shl(ends, ShiftAmt(n, u / 2) + u / 2));
    HalvedFields(st, u);
    HalvedFits(st, n, u);
    forall i: nat
      ensures Bit(utEnds, i) == EndAt(Halved(st, u), n, i)
    {
      NewEnds(st, n, u, ends, i);
    }
    NewMask(Halved(st, u), n, u / 2, utEnds);
  }

  lemma NextRound(st: seq<int>, n: nat, u: nat, w: nat, ends: nat, mask: nat, inCoords: nat, coords: nat)
    requires n > 0 && u >= 2 && Fields(st, u) && FitsWord(st, n)
    requires forall i: nat :: Bit(ends, i) == EndAt(Halved(st, u), n, i)
    requires forall i: nat :: Bit(mask, i) == MaskAt(Halved(st, u), n, u / 2, i)
    requires forall i: nat :: Bit(inCoords, i) == InAt(Halved(st, u), n, u / 2, w, i)
    requires forall i: nat :: Bit(coords, i) == DoneAt(Halved(st, u), n, w, i)
    ensures Round(Halved(st, u), n, u / 2, w, ends, mask, inCoords, coords)
    ensures FitsWord(Halved(st, u), n) && |Halved(st, u)| == |st|
  {
    hide Bit, InAt, DoneAt, MaskAt, EndAt, Fields, FitsWord;
    HalvedFields(st, u);
    HalvedFits(st, n, u);
  }

  lemma RoundFields(st: seq<int>, n: nat, u: nat, w: nat, ends: nat, mask: nat, inCoords: nat, coords: nat)
    requires n > 0 && u > 0 && Round(st, n, u, w, ends, mask, inCoords, coords)
    ensures Fields(st, u)
  {
  }

  /** One pass of the outer loop: every field is halved. */
  method HalveFields(n: nat, inB: nat, inFieldEnds: nat, inMask: nat, inCoords: nat, oldCoords: nat,
                     ghost st: seq<int>, ghost w: nat)
    returns (utFieldEnds: nat, utMask: nat, utCoords: nat, coords: nat)
    requires n > 0 && inB >= 2 && FitsWord(st, n) && Round(st, n, inB, w, inFieldEnds, inMask, inCoords, oldCoords)
    ensures Round(Halved(st, inB), n, inB / 2, w, utFieldEnds, utMask, utCoords, coords)
    ensures FitsWord(Halved(st, inB), n) && |Halved(st, inB)| == |st|
  {
    hide Round, FitsWord, Pow2, Shl, Or, Sub, Bit, EndAt, MaskAt, InAt, DoneAt, Halved, ShiftAmt, Fields;
    var utB := inB / 2;
    var shiftAmt := ShiftAmt(n, utB);
    utFieldEnds := Or(inFieldEnds, Shl(inFieldEnds, shiftAmt + utB));
    RoundFields(st, n, inB, w, inFieldEnds, inMask, inCoords, oldCoords);
    NextEndsAndMask(st, n, inB, w, inFieldEnds, inMask, inCoords, oldCoords);
    utMask := Sub(Shl(utFieldEnds, utB), utFieldEnds);
    coords := oldCoords;
    if inB % 2 == 1 {
      utCoords, coords := HalveOdd(n, inB, inFieldEnds, inMask, utMask, inCoords, coords, st, w);
    } else {
      utCoords := HalveEven(n, inB, inMask, utMask, inCoords, st, w, inFieldEnds, coords);
    }
    NextRound(st, n, inB, w, utFieldEnds, utMask, utCoords, coords);
  }

  /** The fast form computes the plain transpose. */
  method BitTransposeLog(nDims: nat, nBits: nat, word: nat) returns (coords: nat)
    requires IsInput(nDims, nBits, word)
    ensures coords == Transpose(nDims, nBits, word)
  {
    hide IsInput, Round, FitsWord, Transpose, Ones, Pow2, Or, Halved, OneField;
    FirstRound(nDims, nBits, word);
    var inCoords, inB := word, nBits;
    var inFieldEnds, inMask := 1, Ones(inB);
    coords := 0;
    ghost var st := OneField(nBits);
    while inB / 2 != 0
      invariant inB > 0 && |st| == nBits && FitsWord(st, nDims)
      invariant Round(st, nDims, inB, word, inFieldEnds, inMask, inCoords, coords)
    {
      ghost var u := inB;
      inFieldEnds, inMask, inCoords, coords := HalveFields(nDims, inB, inFieldEnds, inMask, inCoords, coords, st, word);
      inB := inB / 2;
      st := Halved(st, u);
    }
    LastRound(st, nDims, word, inFieldEnds, inMask, inCoords, coords);
    coords := Or(coords, inCoords);
  }
}
