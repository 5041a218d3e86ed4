/** 32-bit integer square root by Newton's method, and the position of the most significant bit.
    Words are natural numbers below 2^32; every intermediate value is shown to stay below it. */
module Integers {

  const WORD := 0x1_0000_0000

  function Pow2(k: nat): (p: nat)
    ensures p > 0
  {
    if k == 0 then 1 else 2 * Pow2(k - 1)
  }

  // ----- The most significant bit

  function BitValue(x: nat): nat
    requires x < 16
  {
    [0, 4, 3, 3, 2, 2, 2, 2, 1, 1, 1, 1, 1, 1, 1, 1][x]
  }

  lemma {:induction false} Pow2Sum(i: nat, j: nat)
    ensures Pow2(i + j) == Pow2(i) * Pow2(j)
    decreases j
  {
    if j > 0 {
      Pow2Sum(i, j - 1);
      assert Pow2(i + j) == 2 * Pow2(i + j - 1) && Pow2(j) == 2 * Pow2(j - 1);
      hide Pow2;
      Doubled(Pow2(i), Pow2(j - 1));
    }
  }

  lemma Doubled(a: nat, b: nat)
    ensures 2 * (a * b) == a * (2 * b)
  {
  }

  lemma Pow2Values()
    ensures Pow2(4) == 16 && Pow2(8) == 256 && Pow2(16) == 65536 && Pow2(32) == WORD
  {
    assert Pow2(2) == 4;
    Pow2Sum(2, 2);
    Pow2Sum(4, 4);
    Pow2Sum(8, 8);
    Pow2Sum(16, 16);
  }

  /** The leading bit of `x` is bit `b`. */
  ghost predicate Leading(x: nat, b: nat) {
    Pow2(b) <= x < Pow2(b + 1)
  }

  lemma LeadingNibble(x: nat)
    requires 1 <= x < 16
    ensures 1 <= BitValue(x) <= 4 && Leading(x, 4 - BitValue(x))
  {
    assert Pow2(1) == 2 && Pow2(2) == 4 && Pow2(3) == 8 && Pow2(4) == 16;
  }

  lemma MulMonotone(a: int, b: int, c: nat)
    requires a <= b
    ensures a * c <= b * c
  {
  }

  lemma DivBounds(x: nat, d: nat)
    requires d > 0
    ensures (x / d) * d <= x < (x / d + 1) * d
  {
    assert x == d * (x / d) + x % d;
    assert (x / d + 1) * d == (x / d) * d + d;
  }

  lemma ScaleBounds(x: nat, q: nat, d: nat, lo: nat, hi: nat)
    requires q * d <= x < (q + 1) * d && lo <= q < hi
    ensures lo * d <= x < hi * d
  {
    MulMonotone(lo, q, d);
    MulMonotone(q + 1, hi, d);
  }

  /** If `q` is `x` shifted right by `k`, the leading bit of `x` is `k` higher. */
  lemma LeadingShift(x: nat, q: nat, k: nat, b: nat)
    requires q * Pow2(k) <= x < (q + 1) * Pow2(k) && Leading(q, b)
    ensures Leading(x, b + k)
  {
    hide Pow2;
    var lo, hi := Pow2(b), Pow2(b + 1);
    ScaleBounds(x, q, Pow2(k), lo, hi);
    assert lo * Pow2(k) == Pow2(b + k) by { Pow2Sum(b, k); }
    assert hi * Pow2(k) == Pow2(b + k + 1) by { Pow2Sum(b + 1, k); assert b + 1 + k == b + k + 1; }
  }

  /** One halving stage skips `k` bits of an empty upper half, or drops the lower half. */
  lemma StageLeading(x: nat, d: nat, k: nat, b: nat)
    requires d > 0 && d == Pow2(k) && Leading(if x < d then x else x / d, b)
    ensures Leading(x, if x < d then b else b + k)
  {
    hide Pow2, Leading;
    if x >= d {
      DivBounds(x, d);
      LeadingShift(x, x / d, k, b);
    }
  }

  method FfsMsb(x0: nat) returns (r: nat)
    requires x0 < WORD
    ensures x0 == 0 ==> r == 0
    ensures x0 != 0 ==> 1 <= r <= 32 && Leading(x0, 32 - r)
  {
    Pow2Values();
    hide Pow2, Leading;
    var add, x := 0, x0;
    if x < 65536 {
      if x == 0 { return 0; }
      add := add + 16;
    } else {
      x := x / 65536;
    }
    ghost var x1 := x;
    if x < 256 {
      add := add + 8;
    } else {
      x := x / 256;
    }
    ghost var x2 := x;
    if x < 16 {
      add := add + 4;
    } else {
      x := x / 16;
    }
    LeadingNibble(x);
    ghost var b := 4 - BitValue(x);
    StageLeading(x2, 16, 4, b);
    b := if x2 < 16 then b else b + 4;
    StageLeading(x1, 256, 8, b);
    b := if x1 < 256 then b else b + 8;
    StageLeading(x0, 65536, 16, b);
    r := add + BitValue(x);
  }

  // ----- Newton's method

  ghost predicate Root(x: nat, r: nat) {
    r * r <= x < (r + 1) * (r + 1)
  }

  /** A value at or above the root, as far as its successor's square shows. */
  ghost predicate High(x: nat, y: nat) {
    y >= 1 && x < (y + 1) * (y + 1)
  }

  lemma SquareDifference(m: int, d: int)
    ensures (m - d) * (m + d) <= m * m
  {
    assert (m - d) * (m + d) == m * m - d * d;
  }

  /** Half the sum of `y` and `q` bounds the product of `y` and `q + 1`. */
  lemma HalfSum(y: nat, q: nat)
    ensures y * (q + 1) <= ((y + q) / 2 + 1) * ((y + q) / 2 + 1)
  {
    var m := (y + q) / 2 + 1;
    var d := m - y;
    assert q + 1 <= m + d && y == m - d;
    MulMonotone(q + 1, m + d, y);
    SquareDifference(m, d);
    assert y * (q + 1) <= y * (m + d);
  }

  /** A Newton step never goes below the root. */
  lemma StepHigh(x: nat, y: nat)
    requires x >= 1 && y >= 1
    ensures High(x, (y + x / y) / 2)
  {
    var q, m := x / y, (y + x / y) / 2;
    HalfSum(y, q);
    assert x < y * (q + 1) by {
      assert x == y * q + x % y && x % y < y;
      assert y * (q + 1) == y * q + y;
    }
  }

  /** The sum a Newton step forms fits into a word. */
  lemma SumFits(x: nat, y: nat)
    requires x + 1 < WORD && 1 <= y <= x + 1
    ensures y + x / y <= x + 1 && (y + x / y) / 2 <= x + 1
  {
    var q := x / y;
    DivBounds(x, y);
    if q >= 1 {
      MulMonotone(0, q - 1, y - 1);
      assert (q - 1) * (y - 1) == q * y - y - q + 1;
    }
  }

  /** When a step no longer decreases, the step started at the root. */
  lemma StepStops(x: nat, z: nat)
    requires x >= 1 && High(x, z) && (z + x / z) / 2 >= z
    ensures Root(x, z)
  {
    assert x / z >= z;
    assert (x / z) * z <= x;
    assert z * z <= (x / z) * z;
  }

  lemma QuotientAtRoot(x: nat, z: nat)
    requires z >= 1 && Root(x, z)
    ensures x / z <= z + 2
  {
    DivBounds(x, z);
    assert (z + 1) * (z + 1) == z * z + 2 * z + 1;
    assert (z + 3) * z == z * z + 3 * z;
    if x / z >= z + 3 { MulMonotone(z + 3, x / z, z); }
  }

  lemma SquareOrder(a: nat, b: nat)
    ensures a >= b ==> a * a >= b * b
  {
    if a >= b {
      MulMonotone(b, a, a);
      MulMonotone(b, a, b);
    }
  }

  lemma RootFits(x: nat, z: nat)
    requires x + 1 < WORD && z >= 1 && z * z <= x
    ensures z <= 65535 && (z == 65535 ==> x / z <= 65536)
  {
    SquareOrder(z, 65536);
    DivBounds(x, z);
    if z == 65535 && x / z >= 65537 { MulMonotone(65537, x / z, 65535); }
  }

  lemma SquareFits(y: nat)
    requires y <= 65535
    ensures y * y < WORD
  {
    MulMonotone(y, 65535, y);
    MulMonotone(y, 65535, 65535);
  }

  /** From the root, a step overshoots by at most one, and not at all at the top of the range. */
  lemma StepFromRoot(x: nat, z: nat)
    requires 1 <= x && x + 1 < WORD && z >= 1 && Root(x, z)
    ensures (z + x / z) / 2 <= z + 1 && ((z + x / z) / 2) * ((z + x / z) / 2) < WORD
  {
    QuotientAtRoot(x, z);
    RootFits(x, z);
    SquareFits((z + x / z) / 2);
  }

  lemma FirstEstimate(x: nat)
    ensures High(x, x / 2 + 1)
  {
    var h := x / 2;
    assert (h + 2) * (h + 2) == h * h + 4 * h + 4;
  }

  lemma {:induction false} Pow2Monotone(i: nat, j: nat)
    requires i <= j
    ensures Pow2(i) <= Pow2(j)
    decreases j
  {
    if i < j { Pow2Monotone(i, j - 1); }
  }

  lemma Squared(p: nat)
    ensures (p + 1) * (p + 1) == p * p + 2 * p + 1
  {
  }

  lemma ShiftEstimate(x: nat, b: nat)
    requires b < 32 && Leading(x, b)
    ensures High(x, Pow2(b / 2 + 1)) && Pow2(b / 2 + 1) <= x + 1 && Pow2(b / 2 + 1) <= 65536
  {
    assert Pow2(0) == 1 && Pow2(1) == 2;
    hide Pow2;
    var k := b / 2 + 1;
    Pow2Sum(k, k);
    Pow2Monotone(b + 1, k + k);
    Squared(Pow2(k));
    if b >= 1 { Pow2Monotone(k, b); }
    Pow2Values();
    Pow2Monotone(k, 16);
  }

  /** `int_sqrt` on 32 bits, with either first estimate. */
  method IntSqrt(x: nat, halve: bool) returns (r: nat)
    requires x < WORD
    ensures Root(x, r)
  {
    if (x + 1) % WORD <= 1 {
      r := if x != 0 then 0xFFFF else 0;
      return;
    }
    var y: nat;
    if halve {
      y := x / 2 + 1;
      FirstEstimate(x);
    } else {
      var f := FfsMsb(x);
      ShiftEstimate(x, 32 - f);
      y := Pow2((32 - f) / 2 + 1);
    }
    y := Newton(x, y);
    while y * y > x
      invariant y * y < WORD && High(x, y)
    {
      assert y >= 1 && (y - 1 + 1) * (y - 1 + 1) == y * y;
      assert (y - 1) * (y - 1) <= y * y;
      y := y - 1;
    }
    r := y;
  }

  /** The loop: it ends at or just above the root, and no sum leaves the word. */
  method Newton(x: nat, y0: nat) returns (y: nat)
    requires 1 <= x && x + 1 < WORD && High(x, y0) && y0 <= x + 1
    ensures High(x, y) && y * y < WORD
  {
    hide High, Root;
    HighPositive(x, y0);
    var z := y0;
    SumFits(x, z);
    StepHigh(x, z);
    assert z + x / z < WORD;
    y := (z + x / z) / 2;
    while y < z
      invariant 1 <= z <= x + 1 && y == (z + x / z) / 2 && High(x, z) && High(x, y)
      decreases z
    {
      z := y;
      HighPositive(x, z);
      SumFits(x, z);
      StepHigh(x, z);
      assert z + x / z < WORD;
      y := (z + x / z) / 2;
    }
    StepStops(x, z);
    StepFromRoot(x, z);
  }

  lemma HighPositive(x: nat, y: nat)
    requires High(x, y)
    ensures y >= 1
  {
  }
}
