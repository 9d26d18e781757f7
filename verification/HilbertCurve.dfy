/**
 * The curve as a walk down a tree of cells, in any number of dimensions, and
 * its continuity: consecutive indices are neighbouring grid points.
 */
module HilbertCurve {
  import opened Numbers
  import opened Words
  import opened Grays
  import opened Rotations
  import opened Transposes
  import opened Digits
  import opened Hilbert

  /**
   * How the curve lies in a cell: by how much the axes are rotated, along
   * which it is reflected, and whether the top bit of the next digit is negated.
   */
  datatype Frame = Frame(rotation: nat, reflect: nat, carry: bool) {
    ghost predicate In(n: nat) { rotation < n <= WIDTH && reflect < Pow2(n) }

    /** The index digit Gray coded, the way the rotation reads it. */
    function Coded(n: nat, d: nat): nat
      requires n > 0
    {
      Xor(Gray(1, d), if carry then Pow2(n - 1) else 0)
    }

    /** The subcell of digit d: its half along every axis. */
    function Place(n: nat, d: nat): nat
      requires Turns(n, rotation)
    {
      Xor(RotateLeft(Coded(n, d), rotation, n), reflect)
    }

    function Into(n: nat, d: nat): Frame
      requires Turns(n, rotation)
    {
      Frame(NextRotation(n, rotation, Coded(n, d)), Xor(Place(n, d), Shl(1, rotation)), !Bit(d, 0))
    }
  }

  const START: Frame := Frame(0, 0, false)

  // ----- bits of a subcell -----

  /** Where rotating by r takes axis p, and where axis x came from. */
  function Fore(n: nat, r: nat, p: nat): nat { if p + r < n then p + r else p + r - n }

  function Back(n: nat, r: nat, x: nat): nat
    requires r <= n
  {
    if r <= x then x - r else x + n - r
  }

  lemma CodedBound(f: Frame, n: nat, d: nat)
    requires f.In(n) && d < Pow2(n)
    ensures f.Coded(n, d) < Pow2(n)
  {
    hide Gray, Xor;
    GrayBound(1, d, n);
    assert Pow2(n - 1) < Pow2(n);
    XorBound(Gray(1, d), if f.carry then Pow2(n - 1) else 0, n);
  }

  lemma BitCoded(f: Frame, n: nat, d: nat, p: nat)
    requires f.In(n) && d < Pow2(n) && p < n
    ensures Bit(f.Coded(n, d), p) == ((Bit(d, p) != (p + 1 < n && Bit(d, p + 1))) != (f.carry && p + 1 == n))
  {
    hide Bit, Gray, Xor, Pow2;
    BitXor(Gray(1, d), if f.carry then Pow2(n - 1) else 0, p);
    BitGray(1, d, p);
    BitOfPow2(n - 1, p);
    BitOfZero(p);
    if p + 1 == n {
      BitAbove(d, n, n);
    }
  }

  lemma BitPlace(f: Frame, n: nat, d: nat, x: nat)
    requires f.In(n) && d < Pow2(n) && x < n
    ensures Bit(f.Place(n, d), x) == (Bit(f.Coded(n, d), Back(n, f.rotation, x)) != Bit(f.reflect, x))
  {
    hide Bit, RotateLeft, Xor, Pow2, Frame.Coded;
    CodedBound(f, n, d);
    BitXor(RotateLeft(f.Coded(n, d), f.rotation, n), f.reflect, x);
    BitRotateLeft(f.Coded(n, d), f.rotation, n, x);
  }

  lemma PlaceBound(f: Frame, n: nat, d: nat)
    requires f.In(n) && d < Pow2(n)
    ensures f.Place(n, d) < Pow2(n)
  {
    hide RotateLeft, Xor, Pow2, Frame.Coded;
    CodedBound(f, n, d);
    RotateBound(f.Coded(n, d), f.rotation, n);
    XorBound(RotateLeft(f.Coded(n, d), f.rotation, n), f.reflect, n);
  }

  lemma IntoIn(f: Frame, n: nat, d: nat)
    requires f.In(n) && d < Pow2(n)
    ensures f.Into(n, d).In(n)
    ensures forall x: nat :: x < n ==> Bit(f.Into(n, d).reflect, x) == (Bit(f.Place(n, d), x) != (x == f.rotation))
  {
    hide Bit, Xor, Shl, NextRotation, Frame.Place, Frame.Coded;
    var t := Turn(f.rotation, 0);
    CodedBound(f, n, d);
    PlaceBound(f, n, d);
    WrapOnce(n, f.rotation, f.Coded(n, d));
    assert Facing(n, t);
    FollowFacing(n, t, 0);
    hide Pow2;
    XorBound(f.Place(n, d), Shl(1, f.rotation), n);
    forall x: nat | x < n
      ensures Bit(f.Into(n, d).reflect, x) == (Bit(f.Place(n, d), x) != (x == f.rotation))
    {
      BitXor(f.Place(n, d), Shl(1, f.rotation), x);
      BitShl(1, f.rotation, x);
      if f.rotation <= x {
        BitOfUnit(x - f.rotation);
      }
    }
  }

  // ----- the rotation after a digit -----

  lemma FfsIs(w: nat, t: nat)
    requires Bit(w, t) && forall j: nat :: j < t ==> !Bit(w, j)
    ensures Ffs(w) == t + 1
  {
    hide Bit, Ffs;
    FfsIsLowest(w);
    if w == 0 {
      BitOfZero(t);
    }
  }

  /** The lowest set bit below the top one turns the axes that much further. */
  lemma TurnedBy(n: nat, rotation: nat, w: nat, t: nat)
    requires rotation < n && w < Pow2(n) && t + 1 < n && Bit(w, t) && forall j: nat :: j < t ==> !Bit(w, j)
    ensures NextRotation(n, rotation, w) == Fore(n, rotation + 1, t + 1)
  {
    FfsIs(w, t);
    hide Bit, Ffs, NextRotation;
    WrapOnce(n, rotation, w);
  }

  /** A digit with at most its top bit set turns by one. */
  lemma TurnedByOne(n: nat, rotation: nat, w: nat)
    requires rotation < n && w < Pow2(n) && forall j: nat :: j + 1 < n ==> !Bit(w, j)
    ensures NextRotation(n, rotation, w) == Fore(n, rotation, 1)
  {
    FfsIsLowest(w);
    hide Bit, Ffs, NextRotation;
    WrapOnce(n, rotation, w);
    FfsOfZero();
  }

  lemma FfsOfZero()
    ensures Ffs(0) == 0
  {
  }

  // ----- the walk -----

  function Step(b: bool, size: nat): nat { if b then size else 0 }

  /** Coordinate x of the cell that the m lowest digits of the index lead to. */
  ghost function Along(n: nat, f: Frame, m: nat, index: nat, x: nat): nat
    requires f.In(n)
    decreases m
  {
    if m == 0 then 0
    else
      var d := Digit(n, index, m - 1);
      DigitBound(n, index, m - 1);
      IntoIn(f, n, d);
      Step(Bit(f.Place(n, d), x), Pow2(m - 1)) + Along(n, f.Into(n, d), m - 1, index, x)
  }

  lemma AlongStep(n: nat, f: Frame, m: nat, index: nat, x: nat)
    requires f.In(n) && m > 0
    ensures var d := Digit(n, index, m - 1);
            && d < Pow2(n) && f.Into(n, d).In(n)
            && Along(n, f, m, index, x)
               == Step(Bit(f.Place(n, d), x), Pow2(m - 1)) + Along(n, f.Into(n, d), m - 1, index, x)
  {
    DigitBound(n, index, m - 1);
    IntoIn(f, n, Digit(n, index, m - 1));
    hide Digit, Frame.Into, Frame.Place, Frame.In;
  }

  // ----- the corners where the walk enters and leaves a cell -----

  function Prev(n: nat, r: nat): nat
    requires n > 0
  {
    if r == 0 then n - 1 else r - 1
  }

  /** The corner of the first or the last index, along axis x. */
  ghost predicate Corner(n: nat, f: Frame, last: bool, x: nat)
    requires n > 0
  {
    Bit(f.reflect, x) != (f.carry != last && x == Prev(n, f.rotation))
  }

  /** The lowest or the highest digit. */
  function Extreme(n: nat, last: bool): nat { if last then Ones(n) else 0 }

  lemma BitExtreme(n: nat, last: bool, p: nat)
    ensures Extreme(n, last) < Pow2(n) && (p < n ==> Bit(Extreme(n, last), p) == last)
  {
    BitOnes(n, p);
    BitOfZero(p);
  }

  /** The first subcell has the corner of its cell, and so has the last. */
  lemma CornerStep(f: Frame, n: nat, last: bool, x: nat)
    requires f.In(n) && x < n && f.Into(n, Extreme(n, last)).In(n)
    ensures Bit(f.Place(n, Extreme(n, last)), x) == Corner(n, f, last, x)
    ensures Corner(n, f.Into(n, Extreme(n, last)), last, x) == Corner(n, f, last, x)
  {
    var d := Extreme(n, last);
    hide Bit, Extreme, Frame.Place, Frame.Coded, Pow2, NextRotation;
    BitExtreme(n, last, 0);
    forall p: nat | p < n
      ensures Bit(f.Coded(n, d), p) == (p + 1 == n && f.carry != last)
    {
      BitExtreme(n, last, p);
      BitExtreme(n, last, p + 1);
      BitCoded(f, n, d, p);
    }
    CodedBound(f, n, d);
    TurnedByOne(n, f.rotation, f.Coded(n, d));
    BitPlace(f, n, d, x);
    IntoIn(f, n, d);
  }

  ghost predicate AllDigits(n: nat, m: nat, index: nat, d: nat) {
    forall j: nat :: j < m ==> Digit(n, index, j) == d
  }

  lemma OneDigitFewer(n: nat, m: nat, index: nat, d: nat)
    requires m > 0 && AllDigits(n, m, index, d)
    ensures Digit(n, index, m - 1) == d && AllDigits(n, m - 1, index, d)
  {
  }

  lemma AlongNothing(n: nat, f: Frame, index: nat, x: nat)
    requires f.In(n)
    ensures Along(n, f, 0, index, x) == 0 && Pow2(0) == 1
  {
  }

  /** A walk over all lowest or all highest digits ends in that corner. */
  lemma {:induction false} AlongCorner(n: nat, f: Frame, m: nat, index: nat, last: bool, x: nat)
    requires f.In(n) && x < n && AllDigits(n, m, index, Extreme(n, last))
    ensures Along(n, f, m, index, x) == Step(Corner(n, f, last, x), Pow2(m) - 1)
    decreases m
  {
    hide Digit, Extreme, Frame.Into, Frame.Place, Corner, Along, AllDigits;
    if m == 0 {
      AlongNothing(n, f, index, x);
    } else {
      OneDigitFewer(n, m, index, Extreme(n, last));
      AlongStep(n, f, m, index, x);
      CornerStep(f, n, last, x);
      AlongCorner(n, f.Into(n, Extreme(n, last)), m - 1, index, last, x);
    }
  }

  // ----- one step -----

  /** Adding one: ones below p are cleared and p is set. */
  ghost predicate StepsAt(a: nat, b: nat, p: nat) {
    && (forall j: nat :: j < p ==> Bit(a, j) && !Bit(b, j))
    && !Bit(a, p) && Bit(b, p)
    && forall j: nat :: p < j ==> Bit(a, j) == Bit(b, j)
  }

  lemma {:induction false} NextSteps(i: nat) returns (t: nat)
    ensures StepsAt(i, i + 1, t)
  {
    if i % 2 == 0 {
      t := 0;
      forall j: nat | 0 < j
        ensures Bit(i, j) == Bit(i + 1, j)
      {
        assert i / 2 == (i + 1) / 2;
      }
    } else {
      assert (i + 1) / 2 == i / 2 + 1;
      t := NextSteps(i / 2);
      t := t + 1;
      forall j: nat
        ensures j < t ==> Bit(i, j) && !Bit(i + 1, j)
        ensures t < j ==> Bit(i, j) == Bit(i + 1, j)
      {
        if j > 0 {
          assert Bit(i, j) == Bit(i / 2, j - 1) && Bit(i + 1, j) == Bit(i / 2 + 1, j - 1);
        }
      }
    }
  }

  /** Neighbouring digits differ in one coded bit, and the bit below it is the lowest set in both. */
  lemma NextCoded(f: Frame, n: nat, d: nat, e: nat, p: nat)
    requires f.In(n) && d < Pow2(n) && e < Pow2(n) && p < n && StepsAt(d, e, p)
    ensures forall j: nat :: j < n ==> (Bit(f.Coded(n, d), j) == Bit(f.Coded(n, e), j) <==> j != p)
    ensures forall j: nat :: j + 1 < p ==> !Bit(f.Coded(n, d), j) && !Bit(f.Coded(n, e), j)
    ensures p > 0 ==> Bit(f.Coded(n, d), p - 1) && Bit(f.Coded(n, e), p - 1)
  {
    hide Bit, Frame.Coded, Pow2;
    forall j: nat | j < n
      ensures Bit(f.Coded(n, d), j) == Bit(f.Coded(n, e), j) <==> j != p
      ensures j + 1 < p ==> !Bit(f.Coded(n, d), j) && !Bit(f.Coded(n, e), j)
      ensures j + 1 == p ==> Bit(f.Coded(n, d), j) && Bit(f.Coded(n, e), j)
    {
      BitCoded(f, n, d, j);
      BitCoded(f, n, e, j);
    }
  }

  /** The next subcell lies along one axis; there the walk crosses, and along the others it stays. */
  lemma NextCell(f: Frame, n: nat, d: nat, e: nat, p: nat, x: nat)
    requires f.In(n) && d < Pow2(n) && e < Pow2(n) && p < n && StepsAt(d, e, p) && x < n
    ensures f.Into(n, d).In(n) && f.Into(n, e).In(n)
    ensures var exit, entry := Corner(n, f.Into(n, d), true, x), Corner(n, f.Into(n, e), false, x);
            var here, there := Bit(f.Place(n, d), x), Bit(f.Place(n, e), x);
            if x == Fore(n, f.rotation, p) then here != there && exit == there && entry == here
            else here == there && exit == entry
  {
    NextCoded(f, n, d, e, p);
    IntoIn(f, n, d);
    IntoIn(f, n, e);
    CodedBound(f, n, d);
    CodedBound(f, n, e);
    hide Bit, Frame.Place, Frame.Coded, Pow2, NextRotation;
    BitPlace(f, n, d, x);
    BitPlace(f, n, e, x);
    if p > 0 {
      TurnedBy(n, f.rotation, f.Coded(n, d), p - 1);
      TurnedBy(n, f.rotation, f.Coded(n, e), p - 1);
    }
  }

  /** One more at digit k, which carries through the digits below it. */
  ghost predicate StepsDigits(n: nat, m: nat, a: nat, b: nat, k: nat, p: nat) {
    && k < m && p < n && StepsAt(Digit(n, a, k), Digit(n, b, k), p)
    && (forall j: nat :: k < j < m ==> Digit(n, a, j) == Digit(n, b, j))
    && AllDigits(n, k, a, Extreme(n, true)) && AllDigits(n, k, b, Extreme(n, false))
  }

  function Distance(a: nat, b: nat): nat { if a <= b then b - a else a - b }

  /** The axis the walk moves along. */
  ghost function AxisOf(n: nat, f: Frame, m: nat, index: nat, k: nat, p: nat): nat
    requires f.In(n) && k < m
    decreases m
  {
    var d := Digit(n, index, m - 1);
    DigitBound(n, index, m - 1);
    IntoIn(f, n, d);
    if k == m - 1 then Fore(n, f.rotation, p) else AxisOf(n, f.Into(n, d), m - 1, index, k, p)
  }

  /** Consecutive cells of the walk are neighbours, whatever the frame. */
  lemma {:induction false} Continuous(n: nat, f: Frame, m: nat, a: nat, b: nat, k: nat, p: nat, x: nat)
    requires f.In(n) && x < n && StepsDigits(n, m, a, b, k, p)
    ensures Distance(Along(n, f, m, a, x), Along(n, f, m, b, x)) == if x == AxisOf(n, f, m, a, k, p) then 1 else 0
    decreases m
  {
    hide Digit, Frame.Into, Frame.Place, Along, AxisOf, StepsDigits, Distance, Pow2;
    StepsHead(n, f, m, a, b, k, p);
    if k < m - 1 {
      Continuous(n, f.Into(n, Digit(n, a, m - 1)), m - 1, a, b, k, p, x);
      StepBelow(n, f, m, a, b, k, p, x);
    } else {
      StepAcross(n, f, m, a, b, p, x);
    }
  }

  /** A step below the top digit stays inside the subcell. */
  lemma StepsHead(n: nat, f: Frame, m: nat, a: nat, b: nat, k: nat, p: nat)
    requires f.In(n) && StepsDigits(n, m, a, b, k, p)
    ensures m > 0 && k < m && p < n
    ensures var d := Digit(n, a, m - 1);
            && d < Pow2(n) && f.Into(n, d).In(n)
            && (k < m - 1 ==> StepsDigits(n, m - 1, a, b, k, p) && Digit(n, b, m - 1) == d
                              && AxisOf(n, f, m, a, k, p) == AxisOf(n, f.Into(n, d), m - 1, a, k, p))
            && (k == m - 1 ==> AxisOf(n, f, m, a, k, p) == Fore(n, f.rotation, p))
  {
    hide Digit, Frame.Into, Frame.Place, Frame.In, StepsAt, AllDigits;
    AlongStep(n, f, m, a, 0);
  }

  lemma StepBelow(n: nat, f: Frame, m: nat, a: nat, b: nat, k: nat, p: nat, x: nat)
    requires f.In(n) && k + 1 < m && Digit(n, a, m - 1) == Digit(n, b, m - 1) && f.Into(n, Digit(n, a, m - 1)).In(n)
    ensures var g := f.Into(n, Digit(n, a, m - 1));
            Distance(Along(n, f, m, a, x), Along(n, f, m, b, x))
            == Distance(Along(n, g, m - 1, a, x), Along(n, g, m - 1, b, x))
  {
    hide Digit, Frame.Into, Frame.Place, Frame.In, Along;
    AlongStep(n, f, m, a, x);
    AlongStep(n, f, m, b, x);
  }

  /** A step of the top digit crosses from the last corner of one subcell to the first of the next. */
  lemma StepAcross(n: nat, f: Frame, m: nat, a: nat, b: nat, p: nat, x: nat)
    requires f.In(n) && x < n && m > 0 && StepsDigits(n, m, a, b, m - 1, p)
    ensures Distance(Along(n, f, m, a, x), Along(n, f, m, b, x)) == if x == Fore(n, f.rotation, p) then 1 else 0
  {
    var d, e := Digit(n, a, m - 1), Digit(n, b, m - 1);
    hide Digit, Frame.Into, Frame.Place, Along, StepsAt, AllDigits, Corner, Pow2, Extreme, Step, Distance, Fore, Bit;
    AlongLast(n, f, m, a, true, x);
    AlongLast(n, f, m, b, false, x);
    hide Frame.In;
    NextCell(f, n, d, e, p, x);
    CrossOrStay(Bit(f.Place(n, d), x), Bit(f.Place(n, e), x),
                Corner(n, f.Into(n, d), true, x), Corner(n, f.Into(n, e), false, x),
                Pow2(m - 1), x == Fore(n, f.rotation, p));
  }

  lemma AlongLast(n: nat, f: Frame, m: nat, index: nat, last: bool, x: nat)
    requires f.In(n) && x < n && m > 0 && AllDigits(n, m - 1, index, Extreme(n, last))
    ensures var d := Digit(n, index, m - 1);
            && d < Pow2(n) && f.Into(n, d).In(n)
            && Along(n, f, m, index, x) == Step(Bit(f.Place(n, d), x), Pow2(m - 1))
                                           + Step(Corner(n, f.Into(n, d), last, x), Pow2(m - 1) - 1)
  {
    hide Digit, Frame.Into, Frame.Place, Along, AllDigits, Corner, Pow2, Extreme, Step, Bit;
    AlongStep(n, f, m, index, x);
    AlongCorner(n, f.Into(n, Digit(n, index, m - 1)), m - 1, index, last, x);
  }

  lemma CrossOrStay(here: bool, there: bool, exit: bool, entry: bool, size: nat, crossing: bool)
    requires size > 0
    requires if crossing then here != there && exit == there && entry == here else here == there && exit == entry
    ensures Distance(Step(here, size) + Step(exit, size - 1), Step(there, size) + Step(entry, size - 1))
            == if crossing then 1 else 0
  {
  }

  /** Consecutive indices, digit by digit. */
  lemma IndexSteps(n: nat, m: nat, index: nat) returns (k: nat, p: nat)
    requires n > 0 && index + 1 < Pow2(n * m)
    ensures StepsDigits(n, m, index, index + 1, k, p)
  {
    hide Bit, Digit, At, Quot, Rem, Pow2, Extreme;
    var t := NextSteps(index);
    k, p := Quot(n, t), Rem(n, t);
    PartsAt(n, t);
    StepFits(n, m, index, t);
    DigitSteps(n, index, index + 1, k, p);
    hide StepsAt;
    forall j: nat | k < j < m
      ensures Digit(n, index, j) == Digit(n, index + 1, j)
    {
      DigitSame(n, index, index + 1, t, j);
    }
    forall j: nat | j < k
      ensures Digit(n, index, j) == Extreme(n, true)
    {
      DigitBelow(n, index, index + 1, t, j);
    }
    var next := index + 1;
    forall j: nat | j < k
      ensures Digit(n, next, j) == Extreme(n, false)
    {
      DigitBelow(n, index, next, t, j);
    }
  }

  lemma StepFits(n: nat, m: nat, index: nat, t: nat)
    requires n > 0 && index + 1 < Pow2(n * m) && StepsAt(index, index + 1, t)
    ensures Quot(n, t) < m
  {
    hide Bit, Quot, Pow2;
    QuotBelow(n, t, m);
    if n * m <= t {
      BitAbove(index + 1, n * m, t);
    }
  }

  lemma DigitSteps(n: nat, a: nat, b: nat, k: nat, p: nat)
    requires p < n && StepsAt(a, b, At(n, k, p))
    ensures StepsAt(Digit(n, a, k), Digit(n, b, k), p)
  {
    hide Bit, Digit, At;
    forall j: nat
      ensures j < p ==> Bit(Digit(n, a, k), j) && !Bit(Digit(n, b, k), j)
      ensures j == p ==> !Bit(Digit(n, a, k), j) && Bit(Digit(n, b, k), j)
      ensures p < j ==> Bit(Digit(n, a, k), j) == Bit(Digit(n, b, k), j)
    {
      BitDigit(n, a, k, j);
      BitDigit(n, b, k, j);
      AtStep(n, k, j);
      AtStep(n, k, p);
    }
  }

  lemma DigitSame(n: nat, a: nat, b: nat, t: nat, j: nat)
    requires n > 0 && StepsAt(a, b, t) && Quot(n, t) < j
    ensures Digit(n, a, j) == Digit(n, b, j)
  {
    hide Bit, Digit, At, Quot, Rem;
    forall i: nat
      ensures Bit(Digit(n, a, j), i) == Bit(Digit(n, b, j), i)
    {
      BitDigit(n, a, j, i);
      BitDigit(n, b, j, i);
      if i < n {
        PlaceOrder(n, t, j, i);
      }
    }
    SameBits(Digit(n, a, j), Digit(n, b, j));
  }

  lemma PlaceOrder(n: nat, t: nat, j: nat, i: nat)
    requires i < n
    ensures Quot(n, t) < j ==> t < At(n, j, i)
    ensures j < Quot(n, t) ==> At(n, j, i) < t
  {
    hide At, Quot, Rem;
    AtIs(n, j, 0);
    AtIs(n, j + 1, 0);
    AtStep(n, j, i);
    QuotBelow(n, t, j);
    QuotBelow(n, t, j + 1);
  }

  lemma DigitBelow(n: nat, a: nat, b: nat, t: nat, j: nat)
    requires n > 0 && StepsAt(a, b, t) && j < Quot(n, t)
    ensures Digit(n, a, j) == Extreme(n, true) && Digit(n, b, j) == Extreme(n, false)
  {
    hide Bit, Digit, At, Quot, Rem, Extreme, Pow2;
    DigitBound(n, a, j);
    DigitBound(n, b, j);
    BitExtreme(n, true, 0);
    BitExtreme(n, false, 0);
    forall i: nat | i < n
      ensures Bit(Digit(n, a, j), i) == Bit(Extreme(n, true), i)
      ensures Bit(Digit(n, b, j), i) == Bit(Extreme(n, false), i)
    {
      BitDigit(n, a, j, i);
      BitDigit(n, b, j, i);
      BitExtreme(n, true, i);
      BitExtreme(n, false, i);
      PlaceOrder(n, t, j, i);
    }
    SameLowBits(Digit(n, a, j), Extreme(n, true), n);
    SameLowBits(Digit(n, b, j), Extreme(n, false), n);
  }

  // ----- the walk is what the codec computes -----

  /** The frame after the index digits from k up. */
  ghost function FrameAt(n: nat, m: nat, index: nat, k: nat): (f: Frame)
    requires 0 < n <= WIDTH && k <= m
    ensures f.In(n)
    decreases m - k
  {
    if k == m then START
    else
      var f := FrameAt(n, m, index, k + 1);
      DigitBound(n, index, k);
      IntoIn(f, n, Digit(n, index, k));
      f.Into(n, Digit(n, index, k))
  }

  lemma NextFrame(n: nat, m: nat, index: nat, k: nat)
    requires 0 < n <= WIDTH && k < m
    ensures Digit(n, index, k) < Pow2(n)
    ensures FrameAt(n, m, index, k) == FrameAt(n, m, index, k + 1).Into(n, Digit(n, index, k))
  {
    hide Digit, Frame.Into, Frame.In;
    DigitBound(n, index, k);
  }

  lemma CarryIs(n: nat, m: nat, index: nat, k: nat)
    requires 0 < n <= WIDTH && k <= m
    ensures FrameAt(n, m, index, k).carry == (k < m && !Bit(index, At(n, k, 0)))
  {
    if k < m {
      hide Bit, Digit, At, Frame.Place;
      BitDigit(n, index, k, 0);
      NextFrame(n, m, index, k);
    }
  }

  /** The digits the transducer reads. */
  ghost function Mixed(n: nat, m: nat, index: nat): nat
    requires n > 0
  {
    Xor(Gray(1, index), Shr(NthBits(n, m), 1))
  }

  lemma BitMixed(n: nat, m: nat, index: nat, k: nat, p: nat)
    requires n > 0 && p < n
    ensures Bit(Mixed(n, m, index), At(n, k, p))
            == ((Bit(index, At(n, k, p)) != Bit(index, if p + 1 < n then At(n, k, p + 1) else At(n, k + 1, 0)))
                != (p + 1 == n && k + 1 < m))
  {
    var i := At(n, k, p);
    hide Bit, Xor, Gray, Shr, NthBits, Rem, At;
    BitXor(Gray(1, index), Shr(NthBits(n, m), 1), i);
    BitGray(1, index, i);
    BitShr(NthBits(n, m), 1, i);
    BitNthBits(n, m, i + 1);
    NextPlace(n, m, k, p);
    AtStep(n, k, p);
    AtStep(n, k, p + 1);
    AtStep(n, k, 0);
  }

  /** The transducer's digit is the index digit as the frame codes it. */
  lemma MixedDigit(n: nat, m: nat, index: nat, k: nat)
    requires 0 < n <= WIDTH && k < m && index < Pow2(n * m)
    ensures Digit(n, Mixed(n, m, index), k) == FrameAt(n, m, index, k + 1).Coded(n, Digit(n, index, k))
  {
    var f, d := FrameAt(n, m, index, k + 1), Digit(n, index, k);
    hide Bit, Digit, FrameAt, Pow2, Frame.Coded, Mixed, At;
    DigitBound(n, index, k);
    DigitBound(n, Mixed(n, m, index), k);
    CodedBound(f, n, d);
    forall p: nat | p < n
      ensures Bit(Digit(n, Mixed(n, m, index), k), p) == Bit(f.Coded(n, d), p)
    {
      BitDigit(n, Mixed(n, m, index), k, p);
      BitMixed(n, m, index, k, p);
      BitCoded(f, n, d, p);
      BitDigit(n, index, k, p);
      BitDigit(n, index, k, p + 1);
      CarryIs(n, m, index, k + 1);
      TopClear(n, m, index);
    }
    SameLowBits(Digit(n, Mixed(n, m, index), k), f.Coded(n, d), n);
  }

  lemma TopClear(n: nat, m: nat, index: nat)
    requires index < Pow2(n * m)
    ensures !Bit(index, At(n, m, 0))
  {
    BitAbove(index, n * m, At(n, m, 0));
  }

  /** The coordinate digits before they are transposed. */
  ghost function Interleaved(n: nat, m: nat, index: nat): nat
    requires 0 < n <= WIDTH
  {
    Ungray(n, TurnedWord(ToCoords, n, m, Mixed(n, m, index)))
  }

  ghost function TurnOf(n: nat, m: nat, index: nat, k: nat): Turn
    requires 0 < n <= WIDTH && k <= m
  {
    TurnAt(ToCoords, n, m, Mixed(n, m, index), k)
  }

  /** The walk's frame in terms of the transducer's turn and the coordinate digit above. */
  ghost predicate Framed(n: nat, m: nat, index: nat, k: nat)
    requires 0 < n <= WIDTH && k <= m
  {
    var t, f := TurnOf(n, m, index, k), FrameAt(n, m, index, k);
    f.rotation == t.rotation && f.reflect == Xor(t.flipBit, Digit(n, Interleaved(n, m, index), k))
  }

  /** Under the frame above it, a coordinate digit is the subcell of the index digit. */
  lemma DigitInFrame(n: nat, m: nat, index: nat, k: nat)
    requires Fits(n, m) && n <= WIDTH && k < m && index < Pow2(n * m) && Framed(n, m, index, k + 1)
    ensures Digit(n, Interleaved(n, m, index), k) == FrameAt(n, m, index, k + 1).Place(n, Digit(n, index, k))
  {
    hide Digit, Gray, Ungray, TurnedWord, Mixed, FrameAt, TurnAt, Pow2, Xor, RotateLeft, Frame.Coded, Frame.In;
    var y, c, t := Interleaved(n, m, index), TurnedWord(ToCoords, n, m, Mixed(n, m, index)), TurnOf(n, m, index, k + 1);
    var w, above := Digit(n, Mixed(n, m, index), k), Digit(n, y, k + 1);
    GrayOfUngray(n, c);
    DigitGray(n, y, k);
    DigitOfTurned(ToCoords, n, m, Mixed(n, m, index), k);
    MixedDigit(n, m, index, k);
    XorTwice(Digit(n, y, k), above);
    XorAssoc(RotateLeft(w, t.rotation, n), t.flipBit, above);
  }

  lemma FrameStep(n: nat, m: nat, index: nat, k: nat)
    requires Fits(n, m) && n <= WIDTH && k < m && index < Pow2(n * m) && Framed(n, m, index, k + 1)
    ensures Framed(n, m, index, k)
  {
    DigitInFrame(n, m, index, k);
    hide Digit, Mixed, Interleaved, FrameAt, TurnAt, Pow2, Xor, Shl, Frame.Coded, Frame.Place, NextRotation;
    var t, y := TurnOf(n, m, index, k + 1), Digit(n, Interleaved(n, m, index), k);
    NextFrame(n, m, index, k);
    NextTurn(ToCoords, n, m, Mixed(n, m, index), k);
    MixedDigit(n, m, index, k);
    XorTwice(y, Shl(1, t.rotation));
  }

  lemma FramedAtTop(n: nat, m: nat, index: nat)
    requires Fits(n, m) && n <= WIDTH
    ensures Framed(n, m, index, m)
  {
    hide Pow2, Mixed, TurnedWord, Ungray, Digit, Xor;
    TurnedBound(ToCoords, n, m, Mixed(n, m, index));
    UngrayBound(n, TurnedWord(ToCoords, n, m, Mixed(n, m, index)), n * m);
    DigitBeyond(n, m, Interleaved(n, m, index), m);
    XorNone(0);
  }

  lemma {:induction false} FramesFollow(n: nat, m: nat, index: nat, k: nat)
    requires Fits(n, m) && n <= WIDTH && k <= m && index < Pow2(n * m)
    ensures Framed(n, m, index, k)
    decreases m - k
  {
    hide Framed, Pow2;
    if k == m {
      FramedAtTop(n, m, index);
    } else {
      FramesFollow(n, m, index, k + 1);
      FrameStep(n, m, index, k);
    }
  }

  /** Bit j of coordinate x: which half along axis x the subcell of digit j lies in. */
  ghost predicate HalfAt(n: nat, m: nat, index: nat, j: nat, x: nat)
    requires 0 < n <= WIDTH && j < m
  {
    Bit(FrameAt(n, m, index, j + 1).Place(n, Digit(n, index, j)), x)
  }

  lemma PointBit(n: nat, m: nat, index: nat, j: nat, x: nat)
    requires Fits(n, m) && 1 < n <= WIDTH && j < m && x < n && index < Pow2(n * m)
    ensures Bit(PointAt(n, m, index)[x], j) == HalfAt(n, m, index, j, x)
  {
    hide Bit, Pow2, PointWord, FrameAt, Digit, Frame.Place, At;
    BitDigit(m, PointWord(n, m, index), x, j);
    if m == 1 {
      OneLevel(n, index, x);
    } else {
      FramesFollow(n, m, index, j + 1);
      DigitInFrame(n, m, index, j);
      WordIsTransposed(n, m, index);
      hide Interleaved, Framed;
      BitTranspose(m, n, Interleaved(n, m, index), j, x);
      BitDigit(n, Interleaved(n, m, index), j, x);
    }
  }

  lemma WordIsTransposed(n: nat, m: nat, index: nat)
    requires Fits(n, m) && n > 1 && m > 1 && n <= WIDTH
    ensures PointWord(n, m, index) == Transpose(m, n, Interleaved(n, m, index))
  {
    hide Transpose, Ungray, TurnedWord, Gray, Xor, Shr, NthBits;
  }

  lemma OneLevel(n: nat, index: nat, x: nat)
    requires 1 < n <= WIDTH && x < n && index < Pow2(n * 1) && Fits(n, 1)
    ensures Bit(PointWord(n, 1, index), At(1, x, 0)) == HalfAt(n, 1, index, 0, x)
  {
    hide Bit, Gray, Pow2, Digit, Frame.Place, Frame.Coded;
    DigitBound(n, index, 0);
    BitPlace(START, n, Digit(n, index, 0), x);
    BitCoded(START, n, Digit(n, index, 0), x);
    BitOfZero(x);
    BitDigit(n, index, 0, x);
    BitDigit(n, index, 0, x + 1);
    AtStep(n, 0, x);
    AtStep(n, 0, x + 1);
    AtIs(1, x, 0);
    BitGray(1, index, x);
    if x + 1 == n {
      BitAbove(index, n, n);
    }
  }

  lemma {:induction false} AlongBound(n: nat, f: Frame, m: nat, index: nat, x: nat)
    requires f.In(n)
    ensures Along(n, f, m, index, x) < Pow2(m)
    decreases m
  {
    hide Digit, Frame.Into, Frame.Place, Along, Bit;
    if m == 0 {
      AlongNothing(n, f, index, x);
    } else {
      AlongStep(n, f, m, index, x);
      AlongBound(n, f.Into(n, Digit(n, index, m - 1)), m - 1, index, x);
    }
  }

  lemma AlongFrames(n: nat, m: nat, index: nat, k: nat, x: nat)
    requires 0 < n <= WIDTH && 0 < k <= m
    ensures Along(n, FrameAt(n, m, index, k), k, index, x)
            == Step(HalfAt(n, m, index, k - 1, x), Pow2(k - 1))
               + Along(n, FrameAt(n, m, index, k - 1), k - 1, index, x)
  {
    hide Bit, Digit, FrameAt, Frame.Into, Frame.Place, Along, Pow2;
    AlongStep(n, FrameAt(n, m, index, k), k, index, x);
    NextFrame(n, m, index, k - 1);
  }

  lemma {:induction false} BitAlong(n: nat, m: nat, index: nat, k: nat, x: nat, j: nat)
    requires 0 < n <= WIDTH && j < k <= m
    ensures Bit(Along(n, FrameAt(n, m, index, k), k, index, x), j) == HalfAt(n, m, index, j, x)
    decreases k
  {
    hide Bit, FrameAt, Along, Pow2, HalfAt, Frame.In;
    AlongFrames(n, m, index, k, x);
    var rest := Along(n, FrameAt(n, m, index, k - 1), k - 1, index, x);
    AlongBound(n, FrameAt(n, m, index, k - 1), k - 1, index, x);
    BitOfTop(rest, k - 1, j);
    if j + 1 < k {
      BitAlong(n, m, index, k - 1, x, j);
    } else {
      BitAbove(rest, k - 1, j);
    }
  }

  /** The codec's point is the walk's. */
  lemma PointIsWalk(n: nat, m: nat, index: nat, x: nat)
    requires Fits(n, m) && 1 < n <= WIDTH && x < n && index < Pow2(n * m)
    ensures PointAt(n, m, index)[x] == Along(n, START, m, index, x)
  {
    hide Bit, Pow2, PointAt, Along, HalfAt, FrameAt;
    StartFrame(n, m, index);
    RoundTrip(n, m, index);
    AlongBound(n, START, m, index, x);
    forall j: nat | j < m
      ensures Bit(PointAt(n, m, index)[x], j) == Bit(Along(n, START, m, index, x), j)
    {
      PointBit(n, m, index, j, x);
      BitAlong(n, m, index, m, x, j);
    }
    SameLowBits(PointAt(n, m, index)[x], Along(n, START, m, index, x), m);
  }

  lemma StartFrame(n: nat, m: nat, index: nat)
    requires 0 < n <= WIDTH
    ensures FrameAt(n, m, index, m) == START && START.In(n)
  {
  }

  lemma {:induction false} AxisBound(n: nat, f: Frame, m: nat, index: nat, k: nat, p: nat)
    requires f.In(n) && k < m && p < n
    ensures AxisOf(n, f, m, index, k, p) < n
    decreases m
  {
    DigitBound(n, index, m - 1);
    IntoIn(f, n, Digit(n, index, m - 1));
    hide Digit, Frame.Into;
    if k < m - 1 {
      AxisBound(n, f.Into(n, Digit(n, index, m - 1)), m - 1, index, k, p);
    }
  }

  /** Consecutive indices give points one apart along one axis, in every number of dimensions and bits. */
  lemma Adjacent(n: nat, m: nat, index: nat) returns (a: nat)
    requires Fits(n, m) && index + 1 < Pow2(n * m)
    ensures var p, q := PointAt(n, m, index), PointAt(n, m, index + 1);
            && a < n && (p[a] + 1 == q[a] || q[a] + 1 == p[a])
            && forall x :: 0 <= x < n && x != a ==> p[x] == q[x]
  {
    hide PointAt, Pow2;
    FitsSides(n, m);
    if n == 1 {
      OneDigit(m, index);
      OneDigit(m, index + 1);
      a := 0;
    } else {
      a := MovingAxis(n, m, index);
    }
  }

  lemma MovingAxis(n: nat, m: nat, index: nat) returns (a: nat)
    requires Fits(n, m) && 1 < n <= WIDTH && index + 1 < Pow2(n * m)
    ensures a < n && Distance(PointAt(n, m, index)[a], PointAt(n, m, index + 1)[a]) == 1
    ensures forall x: nat :: x < n && x != a ==> PointAt(n, m, index)[x] == PointAt(n, m, index + 1)[x]
  {
    hide PointAt, Along, Pow2, StepsDigits, AxisOf, Distance, Fits, Frame.In;
    var k, t := IndexSteps(n, m, index);
    StartFrame(n, m, index);
    StepsHead(n, START, m, index, index + 1, k, t);
    AxisBound(n, START, m, index, k, t);
    a := AxisOf(n, START, m, index, k, t);
    forall x: nat | x < n
      ensures Distance(PointAt(n, m, index)[x], PointAt(n, m, index + 1)[x]) == if x == a then 1 else 0
      ensures x != a ==> PointAt(n, m, index)[x] == PointAt(n, m, index + 1)[x]
    {
      PointIsWalk(n, m, index, x);
      PointIsWalk(n, m, index + 1, x);
      Continuous(n, START, m, index, index + 1, k, t, x);
      NoDistance(PointAt(n, m, index)[x], PointAt(n, m, index + 1)[x]);
    }
  }

  lemma NoDistance(a: nat, b: nat)
    ensures Distance(a, b) == 0 <==> a == b
  {
  }

  // ----- where the curve starts, ends, and turns first -----

  lemma ExtremeDigits(n: nat, m: nat, last: bool)
    ensures var index := if last then Pow2(n * m) - 1 else 0;
            index < Pow2(n * m) && AllDigits(n, m, index, Extreme(n, last))
  {
    var index := if last then Pow2(n * m) - 1 else 0;
    assert index == Ones(n * m) || index == 0;
    hide Bit, Digit, Extreme, Pow2, Ones, At;
    forall j: nat | j < m
      ensures Digit(n, index, j) == Extreme(n, last)
    {
      ExtremeDigit(n, m, last, j);
    }
  }

  lemma ExtremeDigit(n: nat, m: nat, last: bool, j: nat)
    requires j < m
    ensures Digit(n, if last then Ones(n * m) else 0, j) == Extreme(n, last)
  {
    var index := if last then Ones(n * m) else 0;
    hide Bit, Digit, Ones, At;
    forall p: nat
      ensures Bit(Digit(n, index, j), p) == Bit(Extreme(n, last), p)
    {
      BitDigit(n, index, j, p);
      BitOnes(n * m, At(n, j, p));
      BitOnes(n, p);
      BitOfZero(At(n, j, p));
      BitOfZero(p);
      if p < n {
        AtBelow(n, j, p, m);
      }
    }
    SameBits(Digit(n, index, j), Extreme(n, last));
  }

  /** The curve starts at the origin and ends at the far end of the last axis. */
  lemma Endpoints(n: nat, m: nat, x: nat)
    requires Fits(n, m) && x < n
    ensures PointAt(n, m, 0)[x] == 0
    ensures PointAt(n, m, Pow2(n * m) - 1)[x] == if x + 1 == n then Pow2(m) - 1 else 0
  {
    hide PointAt, Pow2, Along, Corner, AllDigits, Extreme, Frame.In;
    FitsSides(n, m);
    if n == 1 {
      LineEnds(m);
    } else {
      var last := Pow2(n * m) - 1;
      ExtremeDigits(n, m, false);
      ExtremeDigits(n, m, true);
      StartCorners(n, x);
      PointIsWalk(n, m, 0, x);
      PointIsWalk(n, m, last, x);
      AlongCorner(n, START, m, 0, false, x);
      AlongCorner(n, START, m, last, true, x);
    }
  }

  lemma LineEnds(m: nat)
    requires Fits(1, m)
    ensures PointAt(1, m, 0) == [0] && PointAt(1, m, Pow2(1 * m) - 1) == [Pow2(m) - 1]
  {
    hide PointAt;
    OneDigit(m, 0);
    OneDigit(m, Pow2(1 * m) - 1);
  }

  lemma StartCorners(n: nat, x: nat)
    requires 1 < n <= WIDTH && x < n
    ensures START.In(n) && !Corner(n, START, false, x) && Corner(n, START, true, x) == (x + 1 == n)
  {
    hide Bit;
    BitOfZero(x);
  }

  /** At the top the curve visits the halves of the axes in the order of the Gray code, the first axis lowest. */
  lemma TopHalves(n: nat, m: nat, index: nat, x: nat)
    requires Fits(n, m) && x < n && index < Pow2(n * m)
    ensures Bit(PointAt(n, m, index)[x], m - 1)
            == (Bit(index, At(n, m - 1, x)) != (x + 1 < n && Bit(index, At(n, m - 1, x) + 1)))
  {
    hide Bit, PointAt, Pow2, Fits, At;
    FitsSides(n, m);
    if n == 1 {
      LineTop(m, index);
    } else {
      CellTop(n, m, index, x);
    }
  }

  lemma LineTop(m: nat, index: nat)
    requires Fits(1, m) && index < Pow2(1 * m)
    ensures m > 0 && Bit(PointAt(1, m, index)[0], m - 1) == Bit(index, At(1, m - 1, 0))
  {
    hide Bit, PointAt, Pow2;
    OneDigit(m, index);
  }

  lemma CellTop(n: nat, m: nat, index: nat, x: nat)
    requires Fits(n, m) && 1 < n <= WIDTH && 0 < m && x < n && index < Pow2(n * m)
    ensures Bit(PointAt(n, m, index)[x], m - 1)
            == (Bit(index, At(n, m - 1, x)) != (x + 1 < n && Bit(index, At(n, m - 1, x) + 1)))
  {
    hide Bit, PointAt, Digit, Pow2, Frame.Coded, Frame.In, HalfAt, Fits, At;
    PointBit(n, m, index, m - 1, x);
    StartHalf(n, m, index, x);
    TopDigit(n, index, m - 1, x);
  }

  lemma TopDigit(n: nat, index: nat, k: nat, x: nat)
    requires START.In(n) && x < n
    ensures Bit(START.Coded(n, Digit(n, index, k)), x)
            == (Bit(index, At(n, k, x)) != (x + 1 < n && Bit(index, At(n, k, x) + 1)))
  {
    DigitBound(n, index, k);
    AtStep(n, k, x + 1);
    AtStep(n, k, x);
    hide Bit, Digit, Pow2, Frame.Coded, At;
    BitCoded(START, n, Digit(n, index, k), x);
    BitDigit(n, index, k, x);
    BitDigit(n, index, k, x + 1);
  }

  lemma StartHalf(n: nat, m: nat, index: nat, x: nat)
    requires 1 < n <= WIDTH && 0 < m && x < n
    ensures START.In(n) && HalfAt(n, m, index, m - 1, x) == Bit(START.Coded(n, Digit(n, index, m - 1)), x)
  {
    var d := Digit(n, index, m - 1);
    hide Bit, Digit, Frame.Coded;
    DigitBound(n, index, m - 1);
    BitPlace(START, n, d, x);
    BitOfZero(x);
  }
}
