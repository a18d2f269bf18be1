/** The reciprocal square root that paces CoDel's drops, in the fixed point of the source. */
module CodelRate {
  const U16: nat := 0x1_0000
  const U32: nat := 0x1_0000_0000
  const U64: nat := 0x1_0000_0000_0000_0000
  const RESET: nat := 0xFFFF

  /** A C unsigned subtraction or sum of the given width. */
  function Wrap(x: int, modulus: nat): (r: nat)
    requires modulus > 0
    ensures r < modulus
    ensures 0 <= x < modulus ==> r == x
  {
    x % modulus
  }

  /** The shifted estimate, squared, with the low half shifted out. */
  function InvSqrt2(rec: nat): (r: nat)
    requires rec < U16
    ensures r < U32
  {
    Wrap(rec * U16 * (rec * U16) / U32, U32)
  }

  /** The bracket of the Newton step, already divided by four. */
  function Bracket(count: nat, square: nat): (val: nat)
    ensures val < U64
  {
    Wrap(3 * U32 - count * square, U64) / 4
  }

  /** The final multiplication with its two shifts. */
  function Scale(val: nat, rec: nat): (r: nat)
    requires rec < U16
    ensures r < U16
  {
    Wrap(Wrap(val * (rec * U16), U64) / 0x8000_0000 / U16, U16)
  }

  /** One Newton step, with every intermediate width and truncation of the source. */
  function NewtonStep(count: nat, rec: nat): (r: nat)
    requires count < U32 && rec < U16
    ensures r < U16
  {
    Scale(Bracket(count, InvSqrt2(rec)), rec)
  }

  /** How far the control law moves the next drop: interval times the reciprocal square root. */
  function Gap(interval: nat, rec: nat): (d: nat)
    requires rec < U16
  {
    interval * (rec * U16) / U32
  }

  /** A zero estimate never moves the next drop. */
  lemma GapZero(interval: nat)
    ensures Gap(interval, 0) == 0
  {
    assert interval * (0 * U16) == 0;
  }

  /** The estimate never exceeds the true reciprocal square root. */
  ghost predicate Under(count: nat, rec: nat) {
    count * (rec * rec) <= U32
  }

  lemma SquareLess(a: nat, b: nat)
    requires a < b
    ensures a * a < b * b
  {
    assert b * b - a * a == (b - a) * (b + a);
  }

  lemma MonoMul(a: nat, b: nat, c: nat)
    requires a <= b
    ensures a * c <= b * c
  {
  }

  lemma DivBounds(x: int, d: nat)
    requires d > 0
    ensures d * (x / d) <= x < d * (x / d) + d
  {
  }

  lemma DivUnique(x: int, d: nat, q: int)
    requires d > 0 && d * q <= x < d * q + d
    ensures x / d == q
  {
    DivBounds(x, d);
    var k := x / d;
    if k < q {
      MulStep(d, k, q);
    } else if k > q {
      MulStep(d, q, k);
    }
  }

  lemma MulStep(d: nat, a: int, b: int)
    requires a < b
    ensures d * a + d <= d * b
  {
    MonoMul(1, b - a, d);
    assert d * b == d * a + (b - a) * d;
  }

  /** The square of the shifted estimate, shifted back, is exact. */
  lemma SquareShift(rec: nat)
    requires rec < U16
    ensures rec * U16 * (rec * U16) / U32 == rec * rec < U32
  {
    SquareLess(rec, U16);
    assert rec * U16 * (rec * U16) == U32 * (rec * rec);
    DivUnique(rec * U16 * (rec * U16), U32, rec * rec);
  }

  /** The last two shifts of the source are one division by 2^31. */
  lemma ShiftTwice(v: nat, rec: nat)
    ensures v * (rec * U16) / 0x8000_0000 / U16 == v * rec / 0x8000_0000
  {
    var q := v * rec / 0x8000_0000;
    DivBounds(v * rec, 0x8000_0000);
    assert v * (rec * U16) == v * rec * U16;
    var m := v * (rec * U16) / 0x8000_0000;
    DivBounds(v * (rec * U16), 0x8000_0000);
    DivUnique(m, U16, q);
  }

  /** The widened product of the step fits 64 bits. */
  lemma ProductFits(v: nat, rec: nat)
    requires v < U32 && rec < U16
    ensures v * (rec * U16) < U64
  {
    MonoMul(v, U32, rec * U16);
    assert U32 * (rec * U16) < U64;
  }

  /** With no underflow, the step is the exact rational step rounded down. */
  lemma StepExact(count: nat, rec: nat, u: nat, v: nat)
    requires count < U32 && rec < U16 && u == count * (rec * rec) <= 2 * U32
    requires v == (3 * U32 - u) / 4
    ensures U32 / 4 <= v < U32 && v * (rec * U16) < U64
    ensures NewtonStep(count, rec) == Wrap(v * rec / 0x8000_0000, U16)
  {
    InvSqrt2Exact(rec);
    BracketExact(count, rec * rec, v);
    ScaleExact(v, rec);
  }

  lemma InvSqrt2Exact(rec: nat)
    requires rec < U16
    ensures InvSqrt2(rec) == rec * rec
  {
    SquareShift(rec);
  }

  /** The bracket does not underflow below three times the bound. */
  lemma BracketExact(count: nat, square: nat, v: nat)
    requires count * square <= 2 * U32 && v == (3 * U32 - count * square) / 4
    ensures Bracket(count, square) == v && U32 / 4 <= v < U32
  {
  }

  lemma ScaleExact(v: nat, rec: nat)
    requires v < U32 && rec < U16
    ensures v * (rec * U16) < U64
    ensures Scale(v, rec) == Wrap(v * rec / 0x8000_0000, U16)
  {
    ProductFits(v, rec);
    ShiftTwice(v, rec);
  }

  /** The factored form of the cubic, with `d` the distance of `u` from `a`. */
  lemma CubicFactors(a: int, d: int)
    ensures (a - d) * ((2 * a + d) * (2 * a + d)) + d * d * (3 * a + d) == 4 * (a * a * a)
  {
    var aa, ad, dd := a * a, a * d, d * d;
    assert (2 * a + d) * (2 * a + d) == 4 * aa + 4 * ad + dd;
    assert a * (4 * aa + 4 * ad + dd) == 4 * (aa * a) + 4 * (aa * d) + a * dd;
    assert d * (4 * aa + 4 * ad + dd) == 4 * (aa * d) + 4 * (a * dd) + d * dd;
    assert dd * (3 * a + d) == 3 * (a * dd) + d * dd;
  }

  /** `u (3A - u)^2 <= 4 A^3` whenever `u <= 2A`, strictly unless `u == A`. */
  lemma CubicBound(u: nat, a: nat)
    requires u <= 2 * a
    ensures u * ((3 * a - u) * (3 * a - u)) <= 4 * (a * a * a)
    ensures u != a && a > 0 ==> u * ((3 * a - u) * (3 * a - u)) < 4 * (a * a * a)
  {
    var d := a - u;
    CubicFactors(a, d);
    assert a - d == u && 2 * a + d == 3 * a - u;
    assert 3 * a + d >= a;
    if d == 0 || a == 0 {
      assert d * d * (3 * a + d) == 0;
    } else {
      SquarePositive(d);
      Positive(d * d, 3 * a + d);
    }
  }

  lemma SquarePositive(d: int)
    requires d != 0
    ensures d * d > 0
  {
    if d > 0 {
      Positive(d, d);
    } else {
      Positive(-d, -d);
    }
  }

  lemma Positive(x: int, y: int)
    requires x > 0 && y > 0
    ensures x * y > 0
  {
  }

  /** The rounded-down step squared, against the cubic of the exact one. */
  lemma StepSquare(count: nat, rec: nat, r: nat, a: nat, u: nat)
    requires a > 0 && u == count * (rec * rec) <= 2 * a
    requires 2 * a * r <= rec * (3 * a - u)
    ensures count * (r * r) * (4 * a * a) <= 4 * (a * a * a)
    ensures u != a ==> count * (r * r) * (4 * a * a) < 4 * (a * a * a)
  {
    CubicBound(u, a);
    StepSquared(rec, r, a, 3 * a - u);
    StepScale(count, r * r, rec * rec, 4 * a * a, (3 * a - u) * (3 * a - u));
  }

  lemma StepSquared(rec: nat, r: nat, a: nat, w: nat)
    requires 2 * a * r <= rec * w
    ensures 4 * a * a * (r * r) <= rec * rec * (w * w)
  {
    SquareMono(2 * a * r, rec * w);
    SquareOfProduct(2 * a, r);
    SquareOfProduct(rec, w);
  }

  lemma StepScale(count: nat, rr: nat, cc: nat, k: nat, w: nat)
    requires k * rr <= cc * w
    ensures count * rr * k <= count * cc * w
  {
    MonoMul(k * rr, cc * w, count);
  }

  lemma SquareMono(x: nat, y: nat)
    requires x <= y
    ensures x * x <= y * y
  {
    if x < y { SquareLess(x, y); }
  }

  lemma SquareOfProduct(p: int, q: int)
    ensures p * q * (p * q) == p * p * (q * q)
  {
  }

  lemma CancelFactor(x: nat, y: nat, k: nat)
    requires k > 0
    ensures x * k <= y * k ==> x <= y
    ensures x * k < y * k ==> x < y
  {
    if x > y { MulStep(k, y, x); }
    if x >= y { MonoMul(y, x, k); }
  }

  /** The quotient `v * rec / 2^31` is a lower bound of the exact step. */
  lemma StepLower(u: nat, rec: nat)
    requires u <= 2 * U32
    ensures var r := (3 * U32 - u) / 4 * rec / 0x8000_0000;
      r >= 0 && 2 * U32 * r <= rec * (3 * U32 - u)
  {
    var v := (3 * U32 - u) / 4;
    assert 4 * v <= 3 * U32 - u;
    var r := v * rec / 0x8000_0000;
    DivBounds(v * rec, 0x8000_0000);
    assert 2 * U32 * r <= 4 * (v * rec);
    MonoMul(4 * v, 3 * U32 - u, rec);
    assert 4 * (v * rec) == 4 * v * rec;
  }

  /**
   * From any state in which the product is at most twice its bound (an incremented count), the
   * subtraction does not underflow, nothing is truncated, and the bound is restored.
   */
  lemma NewtonKeepsUnder(count: nat, rec: nat)
    requires count < U32 && rec < U16 && count * (rec * rec) <= 2 * U32
    ensures Under(count, NewtonStep(count, rec))
    ensures count > 0 ==> NewtonStep(count, rec) == (3 * U32 - count * (rec * rec)) / 4 * rec / 0x8000_0000
  {
    var u := count * (rec * rec);
    var r := (3 * U32 - u) / 4 * rec / 0x8000_0000;
    StepExact(count, rec, u, (3 * U32 - u) / 4);
    StepLower(u, rec);
    if count > 0 {
      StepSquare(count, rec, r, U32, u);
      CancelFactor(count * (r * r), U32, 4 * U32 * U32);
      NoTruncation(count, rec, r);
    }
  }

  lemma NoTruncation(count: nat, rec: nat, r: nat)
    requires 0 < count && rec < U16
    requires count * (r * r) <= U32 && (count * (rec * rec) != U32 ==> count * (r * r) < U32)
    ensures r < U16
  {
    if r >= U16 {
      SquareMono(U16, r);
      MonoMul(U32, r * r, count);
      assert count * U32 <= U32;
      assert count == 1;
      SquareLess(rec, U16);
    }
  }

  /** Zero is a fixed point of the step for every count, and nothing else is sent to it. */
  lemma NewtonZeroExact(count: nat, rec: nat)
    requires 0 < count < U32 && rec < U16 && count * (rec * rec) <= 2 * U32
    ensures NewtonStep(count, rec) == 0 <==> rec == 0
  {
    NewtonKeepsUnder(count, rec);
    var u := count * (rec * rec);
    var v := (3 * U32 - u) / 4;
    if rec > 0 {
      BracketLarge(count, rec, u, v);
    }
    QuotientZero(v * rec, rec, v);
  }

  lemma QuotientZero(x: nat, rec: nat, v: nat)
    requires x == v * rec && (rec > 0 ==> x >= 0x8000_0000)
    ensures x / 0x8000_0000 == 0 <==> rec == 0
  {
    if rec == 0 {
      assert x == 0;
    }
  }

  lemma BracketLarge(count: nat, rec: nat, u: nat, v: nat)
    requires count < U32 && rec >= 1 && u == count * (rec * rec) <= 2 * U32 && v == (3 * U32 - u) / 4
    ensures v * rec >= 0x8000_0000
  {
    if rec == 1 {
      assert u == count;
    } else {
      MonoMul(2, rec, v);
    }
  }

  /** The estimate stays below the bound when the count does not grow. */
  lemma UnderSmaller(count: nat, smaller: nat, rec: nat)
    requires Under(count, rec) && smaller <= count
    ensures Under(smaller, rec)
  {
    MonoMul(smaller, count, rec * rec);
  }

  /** One more drop at most doubles the product. */
  lemma UnderNext(count: nat, rec: nat)
    requires Under(count, rec) && count >= 1
    ensures (count + 1) * (rec * rec) <= 2 * U32
  {
    MonoMul(1, count, rec * rec);
    assert (count + 1) * (rec * rec) == count * (rec * rec) + rec * rec;
  }

  /** The gap is the interval times the estimate, as a fraction of 2^16, rounded down. */
  lemma GapExact(interval: nat, rec: nat)
    requires rec < U16
    ensures U16 * Gap(interval, rec) <= interval * rec < U16 * (Gap(interval, rec) + 1)
  {
    DivBounds(interval * (rec * U16), U32);
    assert interval * (rec * U16) == interval * rec * U16;
  }

  /** The largest estimate moves the next drop by almost the whole interval. */
  lemma GapReset(interval: nat)
    ensures interval - 1 - interval / U16 <= Gap(interval, 0xFFFF) <= interval
  {
    GapExact(interval, 0xFFFF);
    assert interval * 0xFFFF == U16 * interval - interval;
  }

  /** The paced gap is at most `interval / sqrt(count)`. */
  lemma GapBound(interval: nat, count: nat, rec: nat)
    requires rec < U16 && Under(count, rec)
    ensures count * (Gap(interval, rec) * Gap(interval, rec)) <= interval * interval
  {
    var d := Gap(interval, rec);
    GapExact(interval, rec);
    SquareMono(U16 * d, interval * rec);
    SquareOfProduct(U16, d);
    SquareOfProduct(interval, rec);
    assert U32 * (d * d) <= interval * interval * (rec * rec);
    GapScale(count, d * d, interval * interval, rec * rec);
  }

  lemma GapScale(count: nat, dd: nat, ii: nat, rr: nat)
    requires U32 * dd <= ii * rr && count * rr <= U32
    ensures count * dd <= ii
  {
    MonoMul(U32 * dd, ii * rr, count);
    MonoMul(count * rr, U32, ii);
    assert ii * rr * count == count * rr * ii;
    assert U32 * dd * count == count * dd * U32;
    assert count * dd * U32 <= ii * U32;
    CancelFactor(count * dd, ii, U32);
  }
}
