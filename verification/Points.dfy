/**
 * Points, their Morton codes and the Morton order.  Coordinates are the 32-bit
 * integers the code is computed from.
 */
module Points {
  import opened Numbers
  import opened Words

  const COORD_BITS: nat := 32

  type Coord = c: nat | c < 0x1_0000_0000

  datatype Point = Point(id: nat, x: Coord, y: Coord) {
    /** The Z value: bit i of x becomes bit 2i+1, bit i of y becomes bit 2i. */
    function Code(): nat { Interleave(x, y) }
  }

  function Interleave(x: nat, y: nat): nat
    decreases x + y
  {
    if x == 0 && y == 0 then 0
    else 4 * Interleave(x / 2, y / 2) + 2 * (x % 2) + y % 2
  }

  /** Every bit of a code is a coordinate bit: odd positions from x, even ones from y. */
  lemma {:induction false} BitInterleave(x: nat, y: nat, i: nat)
    ensures Bit(Interleave(x, y), 2 * i + 1) == Bit(x, i)
    ensures Bit(Interleave(x, y), 2 * i) == Bit(y, i)
  {
    if x == 0 && y == 0 {
      BitOfZero(i);
      BitOfZero(2 * i);
      BitOfZero(2 * i + 1);
    } else {
      var w, v := Interleave(x, y), Interleave(x / 2, y / 2);
      assert w / 2 == 2 * v + x % 2 && w / 2 / 2 == v;
      assert Bit(w, 1) == Bit(w / 2, 0);
      if i > 0 {
        BitInterleave(x / 2, y / 2, i - 1);
        assert Bit(w, 2 * i + 1) == Bit(w / 2, 2 * i) == Bit(v, 2 * (i - 1) + 1);
        assert Bit(w, 2 * i) == Bit(w / 2, 2 * i - 1) == Bit(v, 2 * (i - 1));
      }
    }
  }

  lemma {:induction false} InterleaveBound(x: nat, y: nat, n: nat)
    requires x < Pow2(n) && y < Pow2(n)
    ensures Interleave(x, y) < Pow2(2 * n)
  {
    if n == 0 {
    } else if x > 0 || y > 0 {
      InterleaveBound(x / 2, y / 2, n - 1);
      assert Pow2(2 * n) == 4 * Pow2(2 * (n - 1)) by {
        assert Pow2(2 * n) == 2 * Pow2(2 * n - 1);
      }
    }
  }

  lemma {:induction false} InterleaveInjective(x: nat, y: nat, x': nat, y': nat)
    requires Interleave(x, y) == Interleave(x', y')
    ensures x == x' && y == y'
    decreases x + y + x' + y'
  {
    if x + y + x' + y' > 0 {
      var v, v' := Interleave(x / 2, y / 2), Interleave(x' / 2, y' / 2);
      assert Interleave(x, y) == 4 * v + 2 * (x % 2) + y % 2;
      assert Interleave(x', y') == 4 * v' + 2 * (x' % 2) + y' % 2;
      InterleaveInjective(x / 2, y / 2, x' / 2, y' / 2);
    }
  }

  /** The code grows with each coordinate. */
  lemma {:induction false} InterleaveMonotone(x: nat, y: nat, x': nat, y': nat)
    requires x <= x' && y <= y'
    ensures Interleave(x, y) <= Interleave(x', y')
    decreases x' + y'
  {
    if x' + y' > 0 {
      InterleaveMonotone(x / 2, y / 2, x' / 2, y' / 2);
      if Interleave(x / 2, y / 2) == Interleave(x' / 2, y' / 2) {
        InterleaveInjective(x / 2, y / 2, x' / 2, y' / 2);
      }
    }
  }

  lemma CodeBound(p: Point)
    ensures p.Code() < Pow2(64)
  {
    Pow2Of32();
    InterleaveBound(p.x, p.y, 32);
  }

  /** The loop that builds the code one bit pair at a time. */
  method InterleaveBits(p: Point) returns (ret: nat)
    ensures ret == p.Code()
  {
    ret := 0;
    forall j: nat
      ensures !Bit(ret, j)
    {
      BitOfZero(j);
    }
    for i := 0 to COORD_BITS
      invariant forall j: nat :: Bit(ret, j) == (j < 2 * i && Bit(p.Code(), j))
    {
      var xPart := Shl(And(p.x, Shl(1, i)), i + 1);
      var yPart := Shl(And(p.y, Shl(1, i)), i);
      var next := Or(ret, Or(xPart, yPart));
      forall j: nat
        ensures Bit(next, j) == (j < 2 * (i + 1) && Bit(p.Code(), j))
      {
        BitBitwise(OrOp, ret, Or(xPart, yPart), j);
        BitBitwise(OrOp, xPart, yPart, j);
        BitPicked(p.x, i, i + 1, j);
        BitPicked(p.y, i, i, j);
        BitInterleave(p.x, p.y, i);
      }
      ret := next;
    }
    CodeBound(p);
    forall j: nat
      ensures Bit(ret, j) == Bit(p.Code(), j)
    {
      if 64 <= j {
        BitAbove(p.Code(), 64, j);
      }
    }
    SameBits(ret, p.Code());
  }

  lemma BitPicked(v: nat, i: nat, k: nat, j: nat)
    requires i + k < WIDTH
    ensures Bit(Shl(And(v, Shl(1, i)), k), j) == (j == i + k && Bit(v, i))
  {
    var one := Shl(1, i);
    BitShl(And(v, one), k, j);
    if k <= j < WIDTH {
      BitBitwise(AndOp, v, one, j - k);
      BitShl(1, i, j - k);
      if i <= j - k {
        BitOfPow2(0, j - k - i);
      }
    }
  }

  // ----- the comparator that avoids building codes -----

  predicate LessMsb(x: nat, y: nat) {
    x < y && x < Xor(x, y)
  }

  predicate MortonLess(p: Point, q: Point) {
    if LessMsb(Xor(p.x, q.x), Xor(p.y, q.y)) then p.y < q.y else p.x < q.x
  }

  lemma {:induction false} XorZero(a: nat, b: nat)
    ensures Xor(a, b) == 0 <==> a == b
    decreases a + b
  {
    if a + b > 0 {
      XorZero(a / 2, b / 2);
    }
  }

  lemma {:induction false} XorFixed(a: nat, b: nat)
    ensures Xor(a, b) == a <==> b == 0
    decreases a + b
  {
    if a + b > 0 {
      XorFixed(a / 2, b / 2);
    }
  }

  lemma LessMsbHalves(a: nat, b: nat)
    ensures LessMsb(a, b) == if a < 2 && b < 2 then a == 0 && b == 1 else LessMsb(a / 2, b / 2)
  {
    XorFixed(a / 2, b / 2);
    XorZero(a / 2, b / 2);
  }

  lemma XorHalf(a: nat, b: nat)
    ensures Xor(a, b) / 2 == Xor(a / 2, b / 2) && Xor(a, b) % 2 == (a % 2 + b % 2) % 2
  {
  }

  /** The code of a point from the code of its halves. */
  lemma InterleaveHalf(x: nat, y: nat)
    ensures Interleave(x, y) == 4 * Interleave(x / 2, y / 2) + 2 * (x % 2) + y % 2
  {
  }

  /** Points with the same halves differ in their lowest bits only. */
  lemma MsbTie(x: nat, y: nat, x': nat, y': nat)
    requires x / 2 == x' / 2 && y / 2 == y' / 2
    ensures (if LessMsb(Xor(x, x'), Xor(y, y')) then y < y' else x < x')
            == (Interleave(x, y) < Interleave(x', y'))
  {
    XorHalf(x, x');
    XorHalf(y, y');
    XorZero(x / 2, x' / 2);
    XorZero(y / 2, y' / 2);
    InterleaveHalf(x, y);
    InterleaveHalf(x', y');
    hide Xor, Interleave, LessMsb;
    LessMsbHalves(Xor(x, x'), Xor(y, y'));
  }

  /** Otherwise their halves decide. */
  lemma MsbHalves(x: nat, y: nat, x': nat, y': nat)
    requires x / 2 != x' / 2 || y / 2 != y' / 2
    requires (if LessMsb(Xor(x / 2, x' / 2), Xor(y / 2, y' / 2)) then y / 2 < y' / 2 else x / 2 < x' / 2)
             == (Interleave(x / 2, y / 2) < Interleave(x' / 2, y' / 2))
    ensures (if LessMsb(Xor(x, x'), Xor(y, y')) then y < y' else x < x')
            == (Interleave(x, y) < Interleave(x', y'))
  {
    XorHalf(x, x');
    XorHalf(y, y');
    XorZero(x / 2, x' / 2);
    XorZero(y / 2, y' / 2);
    XorFixed(0, Xor(y / 2, y' / 2));
    InterleaveHalf(x, y);
    InterleaveHalf(x', y');
    hide Xor, Interleave;
    LessMsbHalves(Xor(x, x'), Xor(y, y'));
    if Interleave(x / 2, y / 2) == Interleave(x' / 2, y' / 2) {
      InterleaveInjective(x / 2, y / 2, x' / 2, y' / 2);
    }
  }

  /** The xor/msb test orders points exactly as their codes do. */
  lemma {:induction false} MsbOrder(x: nat, y: nat, x': nat, y': nat)
    ensures (if LessMsb(Xor(x, x'), Xor(y, y')) then y < y' else x < x')
            == (Interleave(x, y) < Interleave(x', y'))
    decreases x + y + x' + y'
  {
    hide Xor, Interleave, LessMsb;
    if x / 2 == x' / 2 && y / 2 == y' / 2 {
      MsbTie(x, y, x', y');
    } else {
      MsbOrder(x / 2, y / 2, x' / 2, y' / 2);
      MsbHalves(x, y, x', y');
    }
  }

  lemma MortonLessIsCodeOrder(p: Point, q: Point)
    ensures MortonLess(p, q) <==> p.Code() < q.Code()
    ensures p.Code() == q.Code() <==> p.x == q.x && p.y == q.y
  {
    MsbOrder(p.x, p.y, q.x, q.y);
    if p.Code() == q.Code() {
      InterleaveInjective(p.x, p.y, q.x, q.y);
    }
  }
}
