/** Integers that pass through a 32-bit float: 24 significant bits, ties to even (IEEE 754, binary32). */
module Float32 {

  const TWO23 := 0x80_0000
  const TWO24 := 0x100_0000

  /** The distance between floats around n. */
  function Unit(n: nat): (u: nat)
    ensures u > 0
  {
    if n < TWO24 then 1 else 2 * Unit(n / 2)
  }

  /** The multiple of u nearest to n, ties to even. */
  function RoundTo(n: nat, u: nat): nat
    requires u > 0
  {
    var down := n - n % u;
    if 2 * (n % u) < u || (2 * (n % u) == u && n / u % 2 == 0) then down else down + u
  }

  /** The float nearest to n. */
  function RoundNat(n: nat): nat {
    RoundTo(n, Unit(n))
  }

  function Round(n: int): int {
    if n < 0 then -(RoundNat(-n) as int) else RoundNat(n)
  }

  /** Ten times the distance between floats around t / 10, for t / 10 of 2^23 at least. */
  function TenthUnit(t: nat): (w: nat)
    ensures w > 0
  {
    if t < 10 * TWO24 then 10 else 2 * TenthUnit(t / 2)
  }

  /** The float nearest to t / 10. */
  function TenthNat(t: nat): real
    decreases 10 * TWO23 - t
  {
    if t == 0 then 0.0
    else if t < 10 * TWO23 then TenthNat(2 * t) / 2.0
    else RoundTo(t, TenthUnit(t)) as real / 10.0
  }

  function Tenth(t: int): real {
    if t < 0 then -TenthNat(-t) else TenthNat(t)
  }

  predicate PowerOfTwo(u: nat) {
    u == 1 || (u > 0 && u % 2 == 0 && PowerOfTwo(u / 2))
  }

  lemma {:induction false} UnitBounds(n: nat)
    ensures PowerOfTwo(Unit(n)) && n < TWO24 * Unit(n) && (Unit(n) > 1 ==> TWO23 * Unit(n) <= n)
  {
    if n >= TWO24 {
      UnitBounds(n / 2);
    }
  }

  lemma {:induction false} UnitUnique(n: nat, u: nat)
    requires PowerOfTwo(u) && n < TWO24 * u && (u > 1 ==> TWO23 * u <= n)
    ensures Unit(n) == u
  {
    if u > 1 {
      UnitUnique(n / 2, u / 2);
    }
  }

  lemma DivisionFacts(n: nat, u: nat)
    requires u > 0
    ensures n == u * (n / u) + n % u && 0 <= n % u < u
  {}

  lemma MultipleHasNoRest(k: nat, u: nat)
    requires u > 0
    ensures u * k % u == 0
  {
    var q := u * k / u;
    DivisionFacts(u * k, u);
    Monotone(q + 1, k, u);
    Monotone(k + 1, q, u);
    Distribute(u, q);
    Distribute(u, k);
  }

  lemma Distribute(u: nat, q: nat)
    ensures u * (q + 1) == u * q + u
  {}

  /** Below 2^24 nothing is lost; above, at most half a unit. */
  lemma RoundError(n: nat)
    ensures -(Unit(n) as int) <= 2 * (RoundNat(n) - n) <= Unit(n)
    ensures n < TWO24 ==> RoundNat(n) == n
  {
    DivisionFacts(n, Unit(n));
  }

  /** A float is its own nearest float. */
  lemma RoundTwice(n: int)
    ensures Round(Round(n)) == Round(n)
  {
    var a: nat := if n < 0 then -n else n;
    RoundNatTwice(a);
    RoundError(a);
  }

  lemma Representable(m: nat)
    requires m % Unit(m) == 0
    ensures RoundNat(m) == m
  {}

  lemma RoundIsMultiple(n: nat) returns (j: nat)
    ensures RoundNat(n) == Unit(n) * j && n / Unit(n) <= j <= n / Unit(n) + 1
  {
    hide Unit;
    var u := Unit(n);
    DivisionFacts(n, u);
    Distribute(u, n / u);
    j := if RoundNat(n) == n - n % u then n / u else n / u + 1;
  }

  lemma RoundNatTwice(n: nat)
    ensures RoundNat(RoundNat(n)) == RoundNat(n)
  {
    hide Unit, PowerOfTwo, RoundNat;
    var u, m := Unit(n), RoundNat(n);
    UnitBounds(n);
    var j := RoundIsMultiple(n);
    MultipleHasNoRest(j, u);
    if m < TWO24 * u {
      FloorAbove(n, u);
      DivisionFacts(n, u);
      Monotone(n / u, j, u);
      UnitUnique(m, u);
    } else {
      Carried(n, u, j);
      Doubled(u);
      UnitUnique(m, 2 * u);
      MultipleHasNoRest(TWO23, 2 * u);
    }
    Representable(m);
  }

  lemma Doubled(u: nat)
    requires PowerOfTwo(u)
    ensures PowerOfTwo(2 * u)
  {
    assert 2 * u / 2 == u;
  }

  /** Rounding down to a multiple of u does not fall below 2^23 units. */
  lemma FloorAbove(n: nat, u: nat)
    requires u > 0 && (u > 1 ==> TWO23 * u <= n)
    ensures u > 1 ==> TWO23 * u <= n - n % u
  {
    DivisionFacts(n, u);
    Monotone(n / u + 1, TWO23, u);
    Monotone(TWO23, n / u, u);
    Distribute(u, n / u);
  }

  lemma Monotone(a: int, b: int, u: nat)
    ensures a <= b ==> u * a <= u * b
  {}

  lemma Carried(n: nat, u: nat, j: nat)
    requires u > 0 && n < TWO24 * u && u * j >= TWO24 * u && j <= n / u + 1
    ensures u * j == TWO24 * u
  {
    DivisionFacts(n, u);
    if j > TWO24 {
      Monotone(TWO24, n / u, u);
    } else if j < TWO24 {
      Monotone(j, TWO24 - 1, u);
    }
  }

  /** From 2^30 to 2^31, floats are 128 apart. */
  lemma UnitOfTimes(n: nat)
    requires 0x4000_0000 <= n < 0x8000_0000
    ensures Unit(n) == 128
  {
    assert PowerOfTwo(2);
    assert PowerOfTwo(4);
    assert PowerOfTwo(8);
    assert PowerOfTwo(16);
    assert PowerOfTwo(32);
    assert PowerOfTwo(64);
    assert PowerOfTwo(128);
    UnitUnique(n, 128);
  }

  /** Rounding never turns anything into -1 or 0 but -1 or 0. */
  lemma RoundKeeps(n: int)
    ensures Round(n) == -1 <==> n == -1
    ensures Round(n) == 0 <==> n == 0
    ensures Round(n) > 0 <==> n > 0
  {
    var a: nat := if n < 0 then -n else n;
    RoundError(a);
    UnitBounds(a);
  }

  // ---- The nearest of all floats ----

  function Pow2(k: nat): (p: nat)
    ensures p > 0
  {
    if k == 0 then 1 else 2 * Pow2(k - 1)
  }

  /** A whole number with 24 significant bits. */
  ghost predicate IsFloat(f: nat) {
    exists m: nat, k: nat :: m < 0x100_0000 && f == Scaled(m, k)
  }

  function Scaled(m: nat, k: nat): nat {
    m * Pow2(k)
  }

  /** What n is rounded to is such a number, and no other is nearer to n. */
  lemma RoundIsNearest(n: nat, f: nat)
    requires IsFloat(f)
    ensures IsFloat(RoundNat(n))
    ensures var r := RoundNat(n); (if r < n then n - r else r - n) <= (if f < n then n - f else f - n)
  {
    hide IsFloat, Unit, RoundNat, PowerOfTwo, Pow2;
    RoundIsFloat(n);
    var u := Unit(n);
    UnitBounds(n);
    var m, k := FloatParts(f);
    var e := PowerIs(u);
    if k >= e {
      var q := MultipleOf(m, k, e);
      NearestMultiple(n, u, q);
    } else {
      var half := Smaller(m, k, e);
      NearestMultiple(n, u, TWO23);
    }
  }

  lemma FloatParts(f: nat) returns (m: nat, k: nat)
    requires IsFloat(f)
    ensures m < TWO24 && f == m * Pow2(k)
  {
    m, k :| m < 0x100_0000 && f == Scaled(m, k);
  }

  lemma {:induction false} PowerIs(u: nat) returns (e: nat)
    requires PowerOfTwo(u)
    ensures u == Pow2(e)
  {
    if u == 1 {
      e := 0;
    } else {
      e := PowerIs(u / 2);
      e := e + 1;
    }
  }

  lemma {:induction false} PowersMultiply(k: nat, e: nat)
    requires k >= e
    ensures Pow2(k) == Pow2(k - e) * Pow2(e)
    decreases e
  {
    if e > 0 {
      PowersMultiply(k - 1, e - 1);
    }
  }

  /** A float of a larger exponent is a multiple of the unit. */
  lemma MultipleOf(m: nat, k: nat, e: nat) returns (q: nat)
    requires k >= e
    ensures m * Pow2(k) == Pow2(e) * q
  {
    PowersMultiply(k, e);
    q := m * Pow2(k - e);
    Associate(m, Pow2(k - e), Pow2(e));
  }

  lemma Associate(a: nat, b: nat, c: nat)
    ensures a * (b * c) == c * (a * b)
  {}

  /** One of a smaller exponent is below 2^23 units. */
  lemma Smaller(m: nat, k: nat, e: nat) returns (half: nat)
    requires m < TWO24 && k < e
    ensures half == Pow2(e - 1) && Pow2(e) == 2 * half && m * Pow2(k) <= Pow2(e) * TWO23 && e > 0
  {
    half := Pow2(e - 1);
    PowersMultiply(e - 1, k);
    AtLeast(Pow2(e - 1 - k), Pow2(k));
    Times(m, TWO24, Pow2(k));
    Times(TWO24, TWO24, half);
    assert TWO24 * Pow2(k) <= TWO24 * half;
    assert Pow2(e) == 2 * half;
    assert Pow2(e) * TWO23 == TWO24 * half;
  }

  lemma AtLeast(a: nat, b: nat)
    requires a > 0
    ensures b <= a * b
  {}

  lemma Times(a: nat, b: nat, c: nat)
    requires a <= b
    ensures a * c <= b * c
  {}

  /** No multiple of the unit is nearer. */
  lemma NearestMultiple(n: nat, u: nat, q: nat)
    requires u == Unit(n)
    ensures var r, f := RoundNat(n), u * q; (if r < n then n - r else r - n) <= (if f < n then n - f else f - n)
  {
    hide Unit, RoundNat;
    var a, b, r, f := n / u, n % u, RoundNat(n), u * q;
    DivisionFacts(n, u);
    RoundSides(n);
    if q <= a {
      Monotone(q, a, u);
      assert f <= n - b;
    } else {
      Monotone(a + 1, q, u);
      Distribute(u, a);
      assert f >= n - b + u;
    }
    Nearer(n, u, b, r, f);
  }

  lemma Nearer(n: nat, u: nat, b: nat, r: nat, f: nat)
    requires b < u && b <= n && (f <= n - b || f >= n - b + u)
    requires if 2 * b < u then r == n - b else if 2 * b > u then r == n - b + u else r == n - b || r == n - b + u
    ensures (if r < n then n - r else r - n) <= (if f < n then n - f else f - n)
  {}

  lemma RoundSides(n: nat)
    ensures var u, r := Unit(n), RoundNat(n);
            if 2 * (n % u) < u then r == n - n % u
            else if 2 * (n % u) > u then r == n - n % u + u
            else r == n - n % u || r == n - n % u + u
  {
    hide Unit;
  }

  lemma RoundIsFloat(n: nat)
    ensures IsFloat(RoundNat(n))
  {
    hide IsFloat, Unit, RoundNat, PowerOfTwo, Pow2;
    var u := Unit(n);
    UnitBounds(n);
    var j := RoundIsMultiple(n);
    var e := PowerIs(u);
    DivisionFacts(n, u);
    if j >= TWO24 {
      Below(n / u, TWO24, u, n);
      HalfOfTwo24(u, e, j);
      AFloat(TWO23, e + 1, RoundNat(n));
    } else {
      AFloat(j, e, RoundNat(n));
    }
  }

  lemma AFloat(m: nat, k: nat, f: nat)
    requires m < TWO24 && f == m * Pow2(k)
    ensures IsFloat(f)
  {
    assert f == Scaled(m, k);
  }

  lemma Below(a: nat, b: nat, u: nat, n: nat)
    requires u > 0 && n < b * u && u * a <= n
    ensures a < b
  {
    if a >= b {
      Monotone(b, a, u);
    }
  }

  lemma HalfOfTwo24(u: nat, e: nat, j: nat)
    requires u == Pow2(e) && j == TWO24
    ensures u * j == TWO23 * Pow2(e + 1)
  {}

  // ---- Tenths ----

  lemma {:induction false} TenthUnitBound(t: nat)
    requires t >= 10 * TWO23
    ensures TWO23 * TenthUnit(t) <= t
  {
    if t >= 10 * TWO24 {
      TenthUnitBound(t / 2);
    }
  }

  lemma RoundToError(n: nat, u: nat)
    requires u > 0
    ensures -(u as int) <= 2 * (RoundTo(n, u) - n) <= u
  {
    DivisionFacts(n, u);
  }

  /** A tenth is off by at most one part in 2^24. */
  lemma {:induction false} TenthNatError(t: nat)
    ensures -(t as real) <= (10.0 * TenthNat(t) - t as real) * TWO24 as real <= t as real
    decreases 10 * TWO23 - t
  {
    if t == 0 {
    } else if t < 10 * TWO23 {
      TenthNatError(2 * t);
    } else {
      TenthUnitBound(t);
      RoundToError(t, TenthUnit(t));
      var r := RoundTo(t, TenthUnit(t));
      assert -(t as int) <= (r - t) * TWO24 <= t;
      assert 10.0 * TenthNat(t) == r as real;
    }
  }

  /** Whole numbers in tenths are exact below 2^24. */
  lemma {:induction false} WholeTenths(n: nat)
    requires n < TWO24
    ensures TenthNat(10 * n) == n as real
    decreases TWO23 - n
  {
    if 0 < n < TWO23 {
      WholeTenths(2 * n);
      assert 2 * (10 * n) == 10 * (2 * n);
    }
  }
}
