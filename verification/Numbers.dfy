/** Powers of two. */
module Numbers {

  function Pow2(n: nat): (r: nat)
    ensures r > 0
  {
    if n == 0 then 1 else 2 * Pow2(n - 1)
  }

  lemma {:induction false} Pow2Mono(a: nat, b: nat)
    requires a <= b
    ensures Pow2(a) <= Pow2(b)
    ensures a < b ==> 2 * Pow2(a) <= Pow2(b)
  {
    if a < b {
      Pow2Mono(a, b - 1);
    }
  }

  lemma Pow2Of32()
    ensures Pow2(32) == 0x1_0000_0000
  {
    assert Pow2(8) == 256;
    assert Pow2(16) == 0x1_0000;
    assert Pow2(24) == 0x100_0000;
  }

  // ----- quotients and remainders by a variable divisor -----

  lemma {:induction false} MulGap(d: nat, q: nat, q': nat)
    requires q < q'
    ensures d * q + d <= d * q'
    decreases q' - q
  {
    if q + 1 < q' {
      MulGap(d, q + 1, q');
    }
    assert d * (q + 1) == d * q + d;
  }

  lemma MulMono(d: nat, q: nat, q': nat)
    requires q <= q'
    ensures d * q <= d * q'
  {
    if q < q' {
      MulGap(d, q, q');
    }
  }

  lemma DivUnique(d: nat, q: nat, r: nat)
    requires r < d
    ensures (d * q + r) / d == q && (d * q + r) % d == r
  {
    var x := d * q + r;
    var q', r' := x / d, x % d;
    assert x == d * q' + r';
    if q < q' {
      MulGap(d, q, q');
    } else if q' < q {
      MulGap(d, q', q);
    }
  }

  /** Item r of group q when groups have n items; Quot and Rem take a position apart. */
  function At(n: nat, q: nat, r: nat): nat { n * q + r }

  function Quot(n: nat, i: nat): nat
    requires n > 0
  {
    i / n
  }

  function Rem(n: nat, i: nat): nat
    requires n > 0
  {
    i % n
  }

  lemma AtParts(n: nat, q: nat, r: nat)
    requires r < n
    ensures Quot(n, At(n, q, r)) == q && Rem(n, At(n, q, r)) == r
  {
    DivUnique(n, q, r);
  }

  lemma PartsAt(n: nat, i: nat)
    requires n > 0
    ensures At(n, Quot(n, i), Rem(n, i)) == i && Rem(n, i) < n
  {
  }

  /** The first m groups are the positions below n * m. */
  lemma QuotBelow(n: nat, i: nat, m: nat)
    requires n > 0
    ensures i < n * m <==> Quot(n, i) < m
  {
    var q, r := i / n, i % n;
    assert i == n * q + r;
    if q < m {
      MulGap(n, q, m);
    } else {
      MulMono(n, m, q);
    }
  }

  lemma AtBelow(n: nat, q: nat, r: nat, m: nat)
    requires r < n
    ensures At(n, q, r) < n * m <==> q < m
  {
    AtParts(n, q, r);
    QuotBelow(n, At(n, q, r), m);
  }

  lemma TimesZero(n: nat, q: nat)
    ensures q == 0 ==> n * q == 0
  {
  }

  /** Moving by one whole group. */
  lemma QuotShift(n: nat, i: nat)
    requires 0 < n
    ensures i < n ==> Quot(n, i) == 0 && Rem(n, i) == i
    ensures n <= i ==> Quot(n, i) > 0 && Rem(n, i - n) == Rem(n, i) && Quot(n, i - n) == Quot(n, i) - 1
  {
    var q, r := i / n, i % n;
    assert i == n * q + r;
    if i < n {
      DivUnique(n, 0, i);
    } else {
      TimesZero(n, q);
      assert n * (q - 1) == n * q - n;
      DivUnique(n, q - 1, r);
    }
  }

  lemma AtStep(n: nat, q: nat, r: nat)
    ensures At(n, q + 1, r) == At(n, q, r) + n && At(n, q, r) == At(n, q, 0) + r && At(n, 0, r) == r
  {
  }

  lemma AtAdd(n: nat, q: nat, q': nat, r: nat)
    ensures At(n, q + q', r) == At(n, q, 0) + At(n, q', r)
  {
  }

  lemma AtMono(n: nat, q: nat, q': nat)
    requires q <= q'
    ensures At(n, q, 0) <= At(n, q', 0)
  {
    MulMono(n, q, q');
  }
}
