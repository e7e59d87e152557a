/** The 48-bit linear congruential generator: one step of the state, the values drawn
    from it, and the length of its period. */
module Rand48 {
  import opened Bytes

  const MULTIPLIER := 0x5DEECE66D
  const INCREMENT := 0xB

  /** The states are the numbers below 2^48, kept in a 64-bit word. */
  const PERIOD := 0x1_0000_0000_0000
  const WORD := 0x1_0000_0000_0000_0000

  type State = s: int | 0 <= s < PERIOD

  /** One step, with the multiplier, the increment and the period written out. */
  function Next(s: State): State {
    (0x5DEECE66D * s + 0xB) % 0x1_0000_0000_0000
  }

  /** The state after n draws. */
  function After(s: State, n: nat): State {
    if n == 0 then s else Next(After(s, n - 1))
  }

  // ---- the generator ----

  class RTPRandomRand48 {
    var state: State

    constructor (seed: u32)
      ensures state == seed * 0x10000 + 0x330E
    {
      new;
      SetSeed(seed);
    }

    method SetSeed(seed: u32)
      modifies this
      ensures state == seed * 0x10000 + 0x330E
    {
      state := seed * 0x10000 + 0x330E;
    }

    method GetRandom32() returns (x: u32)
      modifies this
      ensures state == Next(old(state)) && x == state / 0x10000
    {
      WrapDoesNotMatter(state);
      state := (MULTIPLIER * state % WORD + INCREMENT) % WORD % PERIOD;
      x := state / 0x10000 % 0x1_0000_0000;
    }

    method GetRandom16() returns (x: u16)
      modifies this
      ensures state == Next(old(state)) && x == state / 0x1_0000_0000
    {
      var r := GetRandom32();
      x := r / 0x10000 % 0x10000;
    }

    method GetRandom8() returns (x: byte)
      modifies this
      ensures state == Next(old(state)) && x == state / 0x100_0000_0000
    {
      var r := GetRandom32();
      x := r / 0x100_0000 % 0x100;
    }

    /** A number in [0, 1): the state divided by the period. */
    method GetRandomDouble() returns (y: real)
      modifies this
      ensures state == Next(old(state)) && 0.0 <= y < 1.0 && y * PERIOD as real == state as real
    {
      WrapDoesNotMatter(state);
      state := (MULTIPLIER * state % WORD + INCREMENT) % WORD % PERIOD;
      y := 0.000000000000003552713678800500929355621337890625 * state as real;
    }
  }

  /** The 64-bit product and sum wrap around, but the low 48 bits do not notice. */
  lemma WrapDoesNotMatter(s: State)
    ensures (MULTIPLIER * s % WORD + INCREMENT) % WORD % PERIOD == Next(s)
  {
    var x := MULTIPLIER * s;
    var q := x / WORD;
    assert x == q * WORD + x % WORD;
    var y := x % WORD + INCREMENT;
    var k := y / WORD;
    assert y == k * WORD + y % WORD;
    assert x + INCREMENT == (q + k) * 0x10000 * PERIOD + y % WORD;
    MultipleVanishes((q + k) * 0x10000, y % WORD, PERIOD);
  }

  // ---- arithmetic of remainders ----

  lemma MultipleVanishes(k: int, x: int, m: int)
    requires m > 0
    ensures (k * m + x) % m == x % m
  {
    var q, r := x / m, x % m;
    assert x == q * m + r;
    assert k * m + x == (k + q) * m + r;
    Quotient(k * m + x, k + q, r, m);
  }

  lemma AtLeastOnce(d: int, m: int)
    requires m > 0 && d >= 1
    ensures d * m >= m
  {
    assert (d - 1) * m >= 0;
  }

  lemma SmallMultiple(d: int, m: int)
    requires m > 0 && -m < d * m < m
    ensures d == 0
  {
    if d >= 1 {
      AtLeastOnce(d, m);
    } else if d <= -1 {
      AtLeastOnce(-d, m);
    }
  }

  lemma Quotient(x: int, q: int, r: int, m: int)
    requires m > 0 && x == q * m + r && 0 <= r < m
    ensures x % m == r && x / m == q
  {
    var d := q - x / m;
    assert d * m == x % m - r;
    SmallMultiple(d, m);
  }

  lemma StepOfResidue(x: int)
    ensures (MULTIPLIER * (x % PERIOD) + INCREMENT) % PERIOD == (MULTIPLIER * x + INCREMENT) % PERIOD
  {
    var q, r := x / PERIOD, x % PERIOD;
    assert x == q * PERIOD + r;
    assert MULTIPLIER * x + INCREMENT == MULTIPLIER * q * PERIOD + (MULTIPLIER * r + INCREMENT);
    MultipleVanishes(MULTIPLIER * q, MULTIPLIER * r + INCREMENT, PERIOD);
  }

  /** A number leaves the remainder s exactly when the modulus divides the difference. */
  lemma SameResidue(x: int, s: int, m: int)
    requires 0 <= s < m
    ensures x % m == s <==> (x - s) % m == 0
  {
    if x % m == s {
      assert x - s == x / m * m;
      Quotient(x - s, x / m, 0, m);
    } else if (x - s) % m == 0 {
      var q := (x - s) / m;
      assert x == q * m + s;
      Quotient(x, q, s, m);
      assert false;
    }
  }

  function Pow(b: int, n: nat): int {
    if n == 0 then 1 else b * Pow(b, n - 1)
  }

  function Pow2(k: nat): (p: int)
    ensures p > 0
  {
    if k == 0 then 1 else 2 * Pow2(k - 1)
  }

  /** 1 + a + ... + a^(n-1). */
  function Geometric(a: int, n: nat): int {
    if n == 0 then 0 else a * Geometric(a, n - 1) + 1
  }

  lemma {:induction false} GeometricSum(a: int, n: nat)
    ensures Pow(a, n) == (a - 1) * Geometric(a, n) + 1
  {
    if n > 0 {
      GeometricSum(a, n - 1);
      SumStep(a, Pow(a, n - 1), Geometric(a, n - 1));
    }
  }

  lemma SumStep(a: int, p: int, g: int)
    requires p == (a - 1) * g + 1
    ensures a * p == (a - 1) * (a * g + 1) + 1
  {
    assert a * p == a * ((a - 1) * g + 1);
  }

  lemma {:induction false} GeometricConcat(a: int, m: nat, n: nat)
    ensures Geometric(a, m + n) == Geometric(a, n) + Pow(a, n) * Geometric(a, m)
  {
    if n > 0 {
      GeometricConcat(a, m, n - 1);
      ConcatStep(a, Geometric(a, n - 1), Pow(a, n - 1), Geometric(a, m));
    }
  }

  lemma ConcatStep(a: int, g: int, p: int, h: int)
    ensures a * (g + p * h) + 1 == a * g + 1 + a * p * h
  {
  }

  lemma {:induction false} PowLeavesOne(a: int, n: nat)
    requires a % 4 == 1
    ensures Pow(a, n) % 4 == 1
  {
    if n > 0 {
      PowLeavesOne(a, n - 1);
      var p := Pow(a, n - 1);
      assert a * p == 4 * (a / 4 * p) + p;
    }
  }

  lemma HalfIsOdd(p: int) returns (q: int)
    requires p % 4 == 1
    ensures 1 + p == 2 * q && q % 2 == 1
  {
    q := (1 + p) / 2;
  }

  /** Doubling the number of terms brings in exactly one more factor of two. */
  lemma GeometricTwice(a: int, m: nat) returns (q: int)
    requires a % 4 == 1
    ensures Geometric(a, 2 * m) == 2 * (q * Geometric(a, m)) && q % 2 == 1
  {
    hide Geometric, Pow;
    GeometricConcat(a, m, m);
    PowLeavesOne(a, m);
    q := HalfIsOdd(Pow(a, m));
    TwiceOf(Pow(a, m), q, Geometric(a, m));
  }

  lemma TwiceOf(p: int, q: int, g: int)
    requires 1 + p == 2 * q
    ensures g + p * g == 2 * (q * g)
  {
    assert (2 * q - 1) * g == 2 * (q * g) - g;
  }

  lemma ParityOfProduct(q: int, x: int)
    requires q % 2 == 1
    ensures q * x % 2 == x % 2
  {
    var h := q / 2;
    assert (2 * h + 1) * x == 2 * (h * x) + x;
  }

  lemma ParityStep(q: int, x: int, n: int)
    requires q % 2 == 1 && x % 2 == n % 2
    ensures (q * x + 1) % 2 == (n + 1) % 2
  {
    ParityOfProduct(q, x);
    SuccessorParity(q * x, n);
  }

  lemma SuccessorParity(x: int, n: int)
    requires x % 2 == n % 2
    ensures (x + 1) % 2 == (n + 1) % 2
  {
  }

  lemma {:induction false} GeometricParity(a: int, n: nat)
    requires a % 2 == 1
    ensures Geometric(a, n) % 2 == n % 2
  {
    if n > 0 {
      GeometricParity(a, n - 1);
      ParityStep(a, Geometric(a, n - 1), n - 1);
    }
  }

  lemma HalvesDivide(x: int, p: int)
    requires p > 0
    ensures 2 * x % (2 * p) == 0 <==> x % p == 0
  {
    var q, r := x / p, x % p;
    assert x == q * p + r;
    assert 2 * x == q * (2 * p) + 2 * r;
    Quotient(2 * x, q, 2 * r, 2 * p);
  }

  lemma DividedIsEven(x: int, p: int)
    requires p > 0 && x % (2 * p) == 0
    ensures x % 2 == 0
  {
    assert x == 2 * (x / (2 * p) * p);
  }

  lemma OddIsNotDivided(x: int, p: int)
    requires p > 0 && x % 2 == 1
    ensures x % (2 * p) != 0
  {
    if x % (2 * p) == 0 {
      DividedIsEven(x, p);
    }
  }

  lemma {:induction false} OddFactorCancels(k: nat, q: int, x: int)
    requires q % 2 == 1
    ensures q * x % Pow2(k) == 0 <==> x % Pow2(k) == 0
  {
    if k > 0 {
      var p := Pow2(k - 1);
      ParityOfProduct(q, x);
      if x % 2 == 1 {
        OddIsNotDivided(x, p);
        OddIsNotDivided(q * x, p);
      } else {
        var y := x / 2;
        assert q * (2 * y) == 2 * (q * y);
        OddFactorCancels(k - 1, q, y);
        HalvesDivide(y, p);
        HalvesDivide(q * y, p);
      }
    }
  }

  /** A power of two divides the sum of n terms exactly when it divides n. */
  lemma {:induction false} GeometricDivisibility(a: int, k: nat, n: nat)
    requires a % 4 == 1
    ensures Geometric(a, n) % Pow2(k) == 0 <==> n % Pow2(k) == 0
  {
    if k > 0 {
      var p := Pow2(k - 1);
      if n % 2 == 1 {
        GeometricParity(a, n);
        OddIsNotDivided(n, p);
        OddIsNotDivided(Geometric(a, n), p);
      } else {
        var m := n / 2;
        var q := GeometricTwice(a, m);
        HalvesDivide(q * Geometric(a, m), p);
        OddFactorCancels(k - 1, q, Geometric(a, m));
        GeometricDivisibility(a, k - 1, m);
        HalvesDivide(m, p);
      }
    }
  }

  // ---- the period ----

  lemma ClosedStep(a: int, p: int, g: int, c: int, s: int)
    ensures a * (p * s + c * g) + c == a * p * s + c * (a * g + 1)
  {
  }

  lemma {:induction false} AfterInClosedForm(s: State, n: nat)
    ensures After(s, n) == (Pow(MULTIPLIER, n) * s + INCREMENT * Geometric(MULTIPLIER, n)) % PERIOD
  {
    if n > 0 {
      AfterInClosedForm(s, n - 1);
      var p, g := Pow(MULTIPLIER, n - 1), Geometric(MULTIPLIER, n - 1);
      StepOfResidue(p * s + INCREMENT * g);
      ClosedStep(MULTIPLIER, p, g, INCREMENT, s);
    }
  }

  lemma {:induction false} AfterAfter(s: State, i: nat, d: nat)
    ensures After(s, i + d) == After(After(s, i), d)
  {
    if d > 0 {
      AfterAfter(s, i, d - 1);
    }
  }

  lemma PeriodIsPowerOfTwo()
    ensures Pow2(48) == PERIOD
  {
    assert Pow2(12) == 0x1000;
    assert Pow2(24) == 0x100_0000;
    assert Pow2(36) == 0x10_0000_0000;
  }

  lemma Difference(b: int, g: int, c: int, s: int, p: int)
    requires p == b * g + 1
    ensures p * s + c * g - s == (b * s + c) * g
  {
    assert (b * g + 1) * s == b * s * g + s;
  }

  lemma {:induction false} Returns(s: State, d: nat)
    ensures After(s, d) == s <==> d % PERIOD == 0
  {
    hide Geometric, Pow, Pow2, After;
    AfterInClosedForm(s, d);
    GeometricSum(MULTIPLIER, d);
    PeriodIsPowerOfTwo();
    var p, g := Pow(MULTIPLIER, d), Geometric(MULTIPLIER, d);
    var odd := (MULTIPLIER - 1) * s + INCREMENT;
    SameResidue(p * s + INCREMENT * g, s, PERIOD);
    Difference(MULTIPLIER - 1, g, INCREMENT, s, p);
    OddFactorCancels(48, odd, g);
    GeometricDivisibility(MULTIPLIER, 48, d);
  }

  /** From any seed the state repeats after exactly 2^48 draws, not before. */
  lemma {:induction false} FullPeriod(s: State, i: nat, j: nat)
    requires i <= j
    ensures After(s, i) == After(s, j) <==> (j - i) % PERIOD == 0
  {
    hide After;
    AfterAfter(s, i, j - i);
    Returns(After(s, i), j - i);
  }

  // ---- no state is missed ----

  lemma NotWithinPeriod(s: State, i: nat, j: nat)
    requires i < j < i + PERIOD
    ensures After(s, i) != After(s, j)
  {
    hide After;
    FullPeriod(s, i, j);
  }

  ghost function Below(n: nat): (r: set<int>)
    ensures |r| == n && forall x :: x in r <==> 0 <= x < n
  {
    if n == 0 then {} else Below(n - 1) + {n - 1}
  }

  ghost function Visited(s: State, n: nat): set<int> {
    if n == 0 then {} else Visited(s, n - 1) + {After(s, n - 1)}
  }

  lemma {:induction false} VisitedWhen(s: State, n: nat, x: int) returns (i: nat)
    requires x in Visited(s, n)
    ensures i < n && After(s, i) == x
  {
    if x == After(s, n - 1) {
      i := n - 1;
    } else {
      i := VisitedWhen(s, n - 1, x);
    }
  }

  lemma {:induction false} VisitedCount(s: State, n: nat)
    requires n <= PERIOD
    ensures |Visited(s, n)| == n
  {
    hide After;
    if n > 0 {
      VisitedCount(s, n - 1);
      if After(s, n - 1) in Visited(s, n - 1) {
        var i := VisitedWhen(s, n - 1, After(s, n - 1));
        NotWithinPeriod(s, i, n - 1);
      }
    }
  }

  lemma SameSize(a: set<int>, b: set<int>)
    requires a <= b && |a| == |b|
    ensures a == b
  {
    assert b == a + (b - a);
    assert |b - a| == 0;
  }

  /** Every 48-bit state turns up within one period, whatever the seed. */
  lemma EveryStateOccurs(s: State, x: State)
    ensures exists i :: 0 <= i < PERIOD && After(s, i) == x
  {
    hide Visited, Below, After;
    var all := Visited(s, PERIOD);
    forall y | y in all
      ensures y in Below(PERIOD)
    {
      var i := VisitedWhen(s, PERIOD, y);
    }
    VisitedCount(s, PERIOD);
    SameSize(all, Below(PERIOD));
    var i := VisitedWhen(s, PERIOD, x);
  }
}
