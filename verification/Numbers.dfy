/** The conversion of an integer to a number of the script language: the nearest double, and of two equally
    near ones the one whose significand is even (ECMA-262, section 6.1.6.1). */
module Numbers {
  import opened Powers

  const TWO_53 := 0x20_0000_0000_0000

  function Abs(n: int): nat {
    if n < 0 then -n else n
  }

  /** `n` is a significand of at most 53 bits, scaled by a power of two. */
  ghost predicate IsDouble(n: int) {
    exists m: nat, e: nat :: Scaled(Abs(n), m, e)
  }

  ghost predicate Scaled(n: nat, m: nat, e: nat) {
    m < TWO_53 && n == m * Power2(e)
  }

  /** How far apart the doubles are where `n` lies: 2 to the power of this. */
  function Exponent(n: nat): nat {
    if n < TWO_53 then 0 else 1 + Exponent(n / 2)
  }

  function RoundNat(n: nat): int {
    var u := Power2(Exponent(n));
    var q, r := n / u, n % u;
    if 2 * r < u || (2 * r == u && q % 2 == 0) then q * u else (q + 1) * u
  }

  function ToNumber(n: int): int {
    if n < 0 then -RoundNat(-n) else RoundNat(n)
  }

  // ---------- arithmetic ----------

  lemma {:induction false} Halves(n: nat, k: nat)
    requires k > 0
    ensures n / 2 / Power2(k - 1) == n / Power2(k)
  {
    DivTwice(n, Power2(k - 1));
  }

  lemma DivTwice(n: nat, p: nat)
    requires p > 0
    ensures n / 2 / p == n / (2 * p)
  {
    var h := n / 2;
    var q, r := h / p, h % p;
    DivMod(h, p);
    Doubled(q, p);
    DivOf(q, 2 * r + n % 2, 2 * p);
    SameQuotient(n, q * (2 * p) + (2 * r + n % 2), 2 * p);
  }

  lemma SameQuotient(n: nat, x: nat, p: nat)
    requires n == x && p > 0
    ensures n / p == x / p
  {
  }

  lemma DivMod(n: nat, p: nat)
    requires p > 0
    ensures n == n / p * p + n % p && 0 <= n % p < p
  {
  }

  lemma Doubled(q: nat, p: nat)
    ensures q * (2 * p) == 2 * (q * p)
  {
  }

  lemma DivOf(q: nat, r: nat, p: nat)
    requires r < p
    ensures (q * p + r) / p == q
  {
    var x := q * p + r;
    assert x == x / p * p + x % p;
    if x / p < q {
      Below(x / p, q, p);
    } else if q < x / p {
      Below(q, x / p, p);
    }
  }

  lemma Below(a: nat, b: nat, p: nat)
    requires a < b
    ensures a * p + p <= b * p
  {
    assert (a + 1) * p == a * p + p;
    Monotone(a + 1, b, p);
  }

  lemma Monotone(a: nat, b: nat, p: nat)
    requires a <= b
    ensures a * p <= b * p
    decreases p
  {
    if p > 0 {
      Monotone(a, b, p - 1);
    }
  }

  lemma {:induction false} PowerSplits(d: nat, e: nat)
    ensures Power2(d + e) == Power2(d) * Power2(e)
    decreases d
  {
    if d > 0 {
      PowerSplits(d - 1, e);
      assert Power2(d) == 2 * Power2(d - 1) && Power2(d + e) == 2 * Power2(d - 1 + e);
      hide Power2;
      TwiceProduct(Power2(d - 1), Power2(e));
    }
  }

  lemma TwiceProduct(a: nat, b: nat)
    ensures 2 * (a * b) == 2 * a * b
  {
  }

  // ---------- the doubles near a number ----------

  /** The leading 53 bits of `n`. */
  lemma {:induction false} LeadingBits(n: nat)
    ensures n / Power2(Exponent(n)) < TWO_53
    ensures n >= TWO_53 ==> n / Power2(Exponent(n)) >= TWO_53 / 2
    decreases n
  {
    if n >= TWO_53 {
      LeadingBits(n / 2);
      Halves(n, Exponent(n));
    }
  }

  lemma RoundedIsDouble(n: nat)
    ensures RoundNat(n) >= 0 && IsDouble(RoundNat(n))
  {
    hide Power2;
    var e := Exponent(n);
    var q := n / Power2(e);
    LeadingBits(n);
    if RoundNat(n) == q * Power2(e) {
      MultipleIsDouble(q, e);
    } else {
      MultipleIsDouble(q + 1, e);
    }
  }

  /** A significand of 2^53 carries over into the next power of two. */
  lemma MultipleIsDouble(q: nat, e: nat)
    requires q <= TWO_53
    ensures q * Power2(e) >= 0 && IsDouble(q * Power2(e))
  {
    Monotone(0, q, Power2(e));
    if q < TWO_53 {
      assert Scaled(Abs(q * Power2(e)), q, e);
    } else {
      Doubled(TWO_53 / 2, Power2(e));
      assert Scaled(Abs(q * Power2(e)), TWO_53 / 2, e + 1);
    }
  }

  /** Rounding moves `n` at most as far as either neighbouring multiple of the spacing. */
  lemma RoundedIsNear(n: nat)
    ensures var u := Power2(Exponent(n));
            && Abs(RoundNat(n) - n) <= n % u
            && (n % u != 0 ==> Abs(RoundNat(n) - n) <= u - n % u)
            && (n % u == 0 ==> RoundNat(n) == n)
  {
    var u := Power2(Exponent(n));
    var q, r := n / u, n % u;
    assert n == q * u + r;
    assert (q + 1) * u == q * u + u;
  }

  /** Every double at or above the leading bits of `n` is a multiple of the spacing there. */
  lemma LargeDoublesAreMultiples(d: nat, n: nat, m: nat, e: nat) returns (k: nat)
    requires n >= TWO_53 && Scaled(d, m, e) && d >= TWO_53 / 2 * Power2(Exponent(n))
    ensures d == k * Power2(Exponent(n))
  {
    var x := Exponent(n);
    ScaledAtLeast(d, m, e, x);
    PowerSplits(e - x, x);
    k := m * Power2(e - x);
    Associates(m, Power2(e - x), Power2(x));
  }

  lemma Associates(a: nat, b: nat, c: nat)
    ensures a * (b * c) == a * b * c
  {
  }

  lemma ScaledAtLeast(d: nat, m: nat, e: nat, x: nat)
    requires Scaled(d, m, e) && d >= TWO_53 / 2 * Power2(x)
    ensures e >= x
  {
    if e < x {
      PowerSplits(x - 1 - e, e);
      TooLarge(m, Power2(x - 1 - e), Power2(e));
    }
  }

  lemma TooLarge(m: nat, h: nat, p: nat)
    requires m < TWO_53 && h > 0 && p > 0
    ensures m * p < TWO_53 / 2 * (2 * (h * p))
  {
    assert TWO_53 / 2 * (2 * (h * p)) == TWO_53 * h * p;
    Monotone(1, h, TWO_53 * p);
    assert h * (TWO_53 * p) == TWO_53 * h * p;
    Below(m, TWO_53, p);
  }

  /** No double lies between `n` and the multiples of the spacing around it. */
  lemma DoublesAround(n: nat, d: nat)
    requires IsDouble(d)
    ensures var u := Power2(Exponent(n));
            if d <= n then n - d >= n % u else d - n >= u - n % u
  {
    var u := Power2(Exponent(n));
    var q, r := n / u, n % u;
    assert n == q * u + r;
    LeadingBits(n);
    if n >= TWO_53 {
      var m: nat, e: nat :| Scaled(Abs(d), m, e);
      if d >= TWO_53 / 2 * u {
        var k := LargeDoublesAreMultiples(d, n, m, e);
        Neighbours(k, q, r, u);
      } else {
        Monotone(TWO_53 / 2, q, u);
      }
    }
  }

  /** No double is nearer to `n` than the one it is rounded to. */
  lemma NearestNat(n: nat, d: nat)
    requires IsDouble(d)
    ensures Abs(RoundNat(n) - n) <= Abs(d - n)
  {
    RoundedIsNear(n);
    DoublesAround(n, d);
  }

  /** A multiple of `u` is at least as far away as the nearer of the two around `q * u + r`. */
  lemma Neighbours(k: nat, q: nat, r: nat, u: nat)
    requires r < u
    ensures k <= q ==> q * u + r - k * u >= r
    ensures k > q ==> k * u - (q * u + r) >= u - r
  {
    if k <= q {
      Monotone(k, q, u);
    } else {
      Below(q, k, u);
    }
  }

  /** The conversion gives a double, and none is nearer. */
  lemma ToNumberIsNearest(n: int, d: int)
    requires IsDouble(d)
    ensures IsDouble(ToNumber(n))
    ensures Abs(ToNumber(n) - n) <= Abs(d - n)
  {
    RoundedIsDouble(Abs(n));
    var x: nat := RoundNat(Abs(n));
    assert Abs(ToNumber(n)) == x;
    var m: nat, e: nat :| Scaled(Abs(x), m, e);
    assert Scaled(Abs(ToNumber(n)), m, e);
    var m': nat, e': nat :| Scaled(Abs(d), m', e');
    assert IsDouble(Abs(d)) by {
      assert Scaled(Abs(Abs(d)), m', e');
    }
    NearestNat(Abs(n), Abs(d));
  }

  /** An integer survives the conversion exactly when it is a double. */
  lemma ToNumberExactIff(n: int)
    ensures ToNumber(n) == n <==> IsDouble(n)
  {
    assert Scaled(Abs(0), 0, 0);
    ToNumberIsNearest(n, 0);
    if IsDouble(n) {
      ToNumberIsNearest(n, n);
    }
  }

  /** All integers below 2^53 survive; 2^53 + 1 is the first that does not. */
  lemma FirstInexact()
    ensures ToNumber(TWO_53 + 1) == TWO_53
    ensures forall n: int :: -TWO_53 <= n <= TWO_53 ==> ToNumber(n) == n
  {
    assert Exponent(TWO_53 + 1) == 1 && Power2(1) == 2;
    assert Exponent(TWO_53) == 1;
    forall n: int | -TWO_53 <= n <= TWO_53 ensures ToNumber(n) == n {
      assert Power2(0) == 1;
    }
  }

  lemma EvenMultiple(q: nat, u: nat)
    requires u > 0 && q % 2 == 0
    ensures q * u % (2 * u) == 0
  {
    var k := q / 2;
    Doubled(k, u);
    assert q * u == k * (2 * u) + 0 by {
      assert q == 2 * k;
      TwiceProduct(k, u);
    }
    DivOf(k, 0, 2 * u);
    DivMod(q * u, 2 * u);
  }

  lemma TieRoundsToEven(n: nat)
    ensures var u := Power2(Exponent(n)); 2 * (n % u) == u ==> RoundNat(n) >= 0 && RoundNat(n) % (2 * u) == 0
  {
    var u := Power2(Exponent(n));
    var q := n / u;
    if 2 * (n % u) == u {
      if q % 2 == 0 {
        EvenMultiple(q, u);
      } else {
        EvenMultiple(q + 1, u);
      }
    }
  }

  /** Where two doubles are equally near, the one that is taken is an even multiple of their distance: its
      significand is even. */
  lemma TieGoesToEven(n: nat, a: nat, b: nat)
    requires a < n < b && n - a == b - n && IsDouble(a) && IsDouble(b)
    requires forall d :: IsDouble(d) ==> Abs(d - n) >= n - a
    ensures ToNumber(n) == a || ToNumber(n) == b
    ensures ToNumber(n) % (2 * (b - a)) == 0
  {
    hide Power2, IsDouble;
    ToNumberIsNearest(n, a);
    assert Abs(ToNumber(n) - n) == n - a;
    RoundedIsNear(n);
    DoublesAround(n, a);
    DoublesAround(n, b);
    TieRoundsToEven(n);
  }

  /** 2^53 + 1 and 2^53 + 3 lie halfway, and go down and up. */
  lemma HalfwayNumbers()
    ensures ToNumber(TWO_53 + 1) == TWO_53 && ToNumber(TWO_53 + 3) == TWO_53 + 4
  {
    HalfwayRounds(TWO_53 + 1);
    HalfwayRounds(TWO_53 + 3);
  }

  lemma HalfwayRounds(n: nat)
    requires TWO_53 <= n < 2 * TWO_53 && n % 2 == 1
    ensures ToNumber(n) % 4 == 0 && n - 1 <= ToNumber(n) <= n + 1
  {
    SpacingIsTwo(n);
    TieRoundsToEven(n);
    RoundedIsNear(n);
    hide RoundNat, Exponent, Power2;
  }

  lemma SpacingIsTwo(n: nat)
    requires TWO_53 <= n < 2 * TWO_53
    ensures Power2(Exponent(n)) == 2
  {
    assert n / 2 < TWO_53;
    assert Exponent(n) == 1;
    assert Power2(0) == 1 && Power2(1) == 2;
  }
}
