/** Integer to binary64 conversion, `i as f64`: round to nearest, ties to even
    (section 4.3.1 of IEEE 754-2008). Every result is an integer. */
module Float64 {
  import opened Power

  const TWO_52 := 0x10_0000_0000_0000
  const TWO_53 := 0x20_0000_0000_0000
  const TWO_63 := 0x8000_0000_0000_0000
  const TWO_64 := 0x1_0000_0000_0000_0000

  ghost predicate Scaled(x: int, significand: int, k: nat) {
    -TWO_53 < significand < TWO_53 && x == significand * Pow2(k)
  }

  /** The integers among the doubles: a 53-bit significand, scaled. */
  ghost predicate IsDouble(x: int) {
    exists significand, k :: Scaled(x, significand, k)
  }

  /** The exponent of the last place of a magnitude. */
  function Exponent(m: nat): (k: nat)
    ensures m < TWO_53 ==> k == 0
    ensures m >= TWO_53 ==> k > 0 && TWO_52 * Pow2(k) <= m
    ensures m < TWO_53 * Pow2(k)
  {
    if m < TWO_53 then 0 else 1 + Exponent(m / 2)
  }

  /** The multiple of the unit nearest to `m`; a tie goes to the even one. */
  function NearestMultiple(m: nat, unit: int): int
    requires unit >= 1
  {
    var q, r := m / unit, m % unit;
    if 2 * r < unit || (2 * r == unit && q % 2 == 0) then q else q + 1
  }

  function RoundMagnitude(m: nat): int {
    var unit := Pow2(Exponent(m));
    NearestMultiple(m, unit) * unit
  }

  function FromInt(i: int): int {
    if i < 0 then -RoundMagnitude(-i) else RoundMagnitude(i)
  }

  // ---------------------------------------------------------------------------
  // Multiples of the unit
  // ---------------------------------------------------------------------------

  function Distance(x: int, y: int): nat {
    if x < y then y - x else x - y
  }

  /** No other double is nearer to the integer than the one chosen, and one equally near
      means the choice has an even last place. */
  ghost predicate Beats(choice: int, x: int, m: nat) {
    && Distance(choice, m) <= Distance(x, m)
    && (Distance(choice, m) == Distance(x, m) && choice != x ==> NearestMultiple(m, Pow2(Exponent(m))) % 2 == 0)
  }

  lemma Scale(a: int, b: int, unit: int)
    requires a <= b && unit >= 1
    ensures a * unit <= b * unit
  {
  }

  lemma Apart(q: int, j: int, unit: int)
    requires unit >= 1
    ensures (q + 1) * unit == q * unit + unit
    ensures j < q ==> j * unit <= q * unit - unit
    ensures j > q + 1 ==> j * unit >= q * unit + unit + unit
  {
    if j < q {
      Scale(j, q - 1, unit);
    } else if j > q + 1 {
      Scale(q + 2, j, unit);
    }
  }

  lemma NearestAmongMultiples(m: nat, j: int)
    ensures Beats(RoundMagnitude(m), j * Pow2(Exponent(m)), m)
    ensures 2 * Distance(RoundMagnitude(m), m) <= Pow2(Exponent(m))
  {
    var unit := Pow2(Exponent(m));
    Apart(m / unit, j, unit);
    NearestOfTwo(m, unit, m / unit, m % unit, NearestMultiple(m, unit));
  }

  lemma NearestOfTwo(m: nat, unit: int, q: int, r: int, choice: int)
    requires unit >= 1 && q == m / unit && r == m % unit && choice == NearestMultiple(m, unit)
    ensures m == q * unit + r && 0 <= r < unit
    ensures choice == (if 2 * r < unit || (2 * r == unit && q % 2 == 0) then q else q + 1)
    ensures 2 * r == unit ==> choice % 2 == 0
  {
  }

  /** A double finer than the unit lies below every magnitude with that unit. */
  lemma FinerIsSmaller(x: int, significand: int, k: nat, m: nat)
    requires Scaled(x, significand, k) && k < Exponent(m)
    ensures x < TWO_52 * Pow2(Exponent(m)) <= m
  {
    var e := Exponent(m);
    Pow2Monotone(k, e - 1);
    Scale(significand, TWO_53 - 1, Pow2(k));
    assert TWO_52 * Pow2(e) == TWO_53 * Pow2(e - 1);
  }

  lemma NearestMagnitude(m: nat, x: int)
    requires IsDouble(x)
    ensures Beats(RoundMagnitude(m), x, m)
  {
    var significand, k :| Scaled(x, significand, k);
    var e := Exponent(m);
    if k >= e {
      Pow2Sum(k - e, e);
      Associative(significand, Pow2(k - e), Pow2(e));
      NearestAmongMultiples(m, significand * Pow2(k - e));
    } else {
      FinerIsSmaller(x, significand, k, m);
      NearestAmongMultiples(m, TWO_52);
    }
  }

  lemma QuotientBelow(m: nat, unit: int, bound: int)
    requires unit >= 1 && m < bound * unit
    ensures m / unit < bound
  {
    if m / unit >= bound {
      Scale(bound, m / unit, unit);
    }
  }

  lemma MagnitudeIsDouble(m: nat)
    ensures IsDouble(RoundMagnitude(m))
  {
    var e := Exponent(m);
    var unit := Pow2(e);
    var q := NearestMultiple(m, unit);
    QuotientBelow(m, unit, TWO_53);
    if q < TWO_53 {
      assert Scaled(RoundMagnitude(m), q, e);
    } else {
      assert Pow2(e + 1) == 2 * unit;
      assert Scaled(RoundMagnitude(m), TWO_52, e + 1);
    }
  }

  // ---------------------------------------------------------------------------
  // The conversion
  // ---------------------------------------------------------------------------

  function Magnitude(i: int): nat {
    if i < 0 then -i else i
  }

  lemma Negated(x: int)
    requires IsDouble(x)
    ensures IsDouble(-x)
  {
    var significand, k :| Scaled(x, significand, k);
    assert Scaled(-x, -significand, k);
  }

  lemma EvenQuotient(m: nat, x: int)
    requires Beats(RoundMagnitude(m), x, m)
    ensures RoundMagnitude(m) >= 0
    ensures Distance(RoundMagnitude(m), m) == Distance(x, m) && x != RoundMagnitude(m) ==>
      RoundMagnitude(m) / Pow2(Exponent(m)) % 2 == 0
  {
    ProductQuotient(NearestMultiple(m, Pow2(Exponent(m))), Pow2(Exponent(m)));
  }

  /** The conversion of `i` ends in a zero bit, counted in the last place of its magnitude. */
  predicate EvenLastPlace(i: int) {
    Magnitude(FromInt(i)) / Pow2(Exponent(Magnitude(i))) % 2 == 0
  }

  /** The result is a double, no integral double is nearer, and of two equally near ones the
      result is the one with the even last place. */
  lemma NearestAmongIntegers(i: int, x: int)
    requires IsDouble(x)
    ensures IsDouble(FromInt(i))
    ensures Distance(FromInt(i), i) <= Distance(x, i)
    ensures Distance(FromInt(i), i) == Distance(x, i) && x != FromInt(i) ==> EvenLastPlace(i)
  {
    var m := Magnitude(i);
    var y := if i < 0 then -x else x;
    MagnitudeIsDouble(m);
    Negated(RoundMagnitude(m));
    Negated(x);
    NearestMagnitude(m, y);
    EvenQuotient(m, y);
  }

  lemma ProductQuotient(q: int, unit: int)
    requires q >= 0 && unit >= 1
    ensures q * unit >= 0 && q * unit / unit == q
  {
    Scale(0, q, unit);
    QuotientOf(q * unit, q, unit, 0);
  }

  /** The conversion changes exactly the integers that are not doubles. */
  lemma ExactExactlyOnDoubles(i: int)
    ensures FromInt(i) == i <==> IsDouble(i)
  {
    assert Scaled(0, 0, 0);
    NearestAmongIntegers(i, 0);
    if IsDouble(i) {
      NearestAmongIntegers(i, i);
    }
  }

  lemma ExactUpTo53Bits(i: int)
    requires -TWO_53 <= i <= TWO_53
    ensures FromInt(i) == i
  {
    if i == TWO_53 || i == -TWO_53 {
      assert Pow2(1) == 2;
      assert Scaled(i, i / 2, 1);
    } else {
      assert Scaled(i, i, 0);
    }
    ExactExactlyOnDoubles(i);
  }

  /** A double, integral or not: a 53-bit significand scaled up or down. */
  ghost predicate IsBinary64(x: real) {
    exists significand: int, k: nat :: ScaledUp(x, significand, k) || ScaledDown(x, significand, k)
  }

  ghost predicate ScaledUp(x: real, significand: int, k: nat) {
    -TWO_53 < significand < TWO_53 && x == (significand * Pow2(k)) as real
  }

  ghost predicate ScaledDown(x: real, significand: int, k: nat) {
    -TWO_53 < significand < TWO_53 && x * Pow2(k) as real == significand as real
  }

  function Gap(x: real, y: real): real {
    if x < y then y - x else x - y
  }

  lemma ProductIsNotNegative(a: real, b: real)
    requires a >= 0.0 && b >= 0.0
    ensures a * b >= 0.0
  {
  }

  lemma SmallWhenScaled(x: real, p: real, bound: real)
    requires p >= 1.0 && -bound < x * p < bound
    ensures -bound < x < bound
  {
    if x >= 0.0 {
      ProductIsNotNegative(x, p - 1.0);
      assert x * p == x * (p - 1.0) + x;
    } else {
      ProductIsNotNegative(-x, p - 1.0);
      assert x * p == x - (-x) * (p - 1.0);
    }
  }

  lemma GapOfIntegers(x: int, y: int)
    ensures Gap(x as real, y as real) == Distance(x, y) as real
  {
  }

  /** The result is at least as near as `x`, and even where it is only equally near. */
  ghost predicate NoFarther(i: int, x: real) {
    var ours, theirs := Gap(FromInt(i) as real, i as real), Gap(x, i as real);
    ours <= theirs && (ours == theirs && x != FromInt(i) as real ==> EvenLastPlace(i))
  }

  lemma NoFartherThanInteger(i: int, x: int)
    requires IsDouble(x)
    ensures NoFarther(i, x as real)
  {
    NearestAmongIntegers(i, x);
    GapOfIntegers(FromInt(i), i);
    GapOfIntegers(x, i);
  }

  /** A double that is no integer is farther than the conversion: below 2^53 that is exact. */
  lemma NoFartherThanFraction(i: int, x: real)
    requires -TWO_53 as real < x < TWO_53 as real
    ensures NoFarther(i, x)
  {
    if -TWO_53 <= i <= TWO_53 {
      ExactUpTo53Bits(i);
    } else {
      var edge := if i < 0 then -TWO_53 else TWO_53;
      assert Pow2(1) == 2 && Scaled(edge, edge / 2, 1);
      NearestAmongIntegers(i, edge);
      GapOfIntegers(FromInt(i), i);
    }
  }

  lemma NoFartherThanScaledUp(i: int, x: real, significand: int, k: nat)
    requires ScaledUp(x, significand, k)
    ensures NoFarther(i, x)
  {
    var y := significand * Pow2(k);
    assert Scaled(y, significand, k);
    NoFartherThanInteger(i, y);
  }

  lemma NoFartherThanScaledDown(i: int, x: real, significand: int, k: nat)
    requires ScaledDown(x, significand, k)
    ensures NoFarther(i, x)
  {
    var p, bound := Pow2(k) as real, TWO_53 as real;
    assert -bound < significand as real < bound;
    SmallWhenScaled(x, p, bound);
    NoFartherThanFraction(i, x);
  }

  /** The result is a double, no double is nearer, and if another is equally near the result is
      the one with the even last place. */
  lemma RoundsToNearestEven(i: int, x: real)
    requires IsBinary64(x)
    ensures IsDouble(FromInt(i))
    ensures Gap(FromInt(i) as real, i as real) <= Gap(x, i as real)
    ensures Gap(FromInt(i) as real, i as real) == Gap(x, i as real) && x != FromInt(i) as real ==> EvenLastPlace(i)
  {
    ConversionIsDouble(i);
    var significand: int, k: nat :| ScaledUp(x, significand, k) || ScaledDown(x, significand, k);
    if ScaledUp(x, significand, k) {
      NoFartherThanScaledUp(i, x, significand, k);
    } else {
      NoFartherThanScaledDown(i, x, significand, k);
    }
    assert NoFarther(i, x);
  }

  lemma ConversionIsDouble(i: int)
    ensures IsDouble(FromInt(i))
  {
    assert Scaled(0, 0, 0);
    NearestAmongIntegers(i, 0);
  }

  /** Order is kept, across zero and across the two integer ranges. */
  lemma Monotone(i: int, j: int)
    requires i <= j
    ensures FromInt(i) <= FromInt(j)
  {
    assert Scaled(0, 0, 0);
    NearestAmongIntegers(i, 0);
    NearestAmongIntegers(j, 0);
    NearestAmongIntegers(i, FromInt(j));
    NearestAmongIntegers(j, FromInt(i));
  }

  lemma ExponentAbove(m: nat, bits: nat)
    requires Exponent(m) > bits
    ensures m >= TWO_53 * Pow2(bits)
  {
    var e := Exponent(m);
    Pow2Monotone(bits, e - 1);
    assert TWO_52 * Pow2(e) == TWO_53 * Pow2(e - 1);
  }

  lemma ExponentBelow(m: nat, bits: nat)
    requires m < TWO_53 * Pow2(bits)
    ensures Exponent(m) <= bits
  {
    if Exponent(m) > bits {
      ExponentAbove(m, bits);
    }
  }

  lemma ErrorWithin(i: int, bits: nat)
    requires bits > 0 && Magnitude(i) < TWO_53 * Pow2(bits)
    ensures Distance(FromInt(i), i) <= Pow2(bits - 1)
  {
    var m := Magnitude(i);
    NearestAmongMultiples(m, 0);
    ExponentBelow(m, bits);
    Pow2Monotone(Exponent(m), bits);
  }

  lemma SmallPowers()
    ensures Pow2(1) == 2 && Pow2(9) == 512 && Pow2(10) == 1024 && Pow2(11) == 2048
  {
    assert Pow2(5) == 32;
    Pow2Sum(5, 4);
    assert Pow2(4) == 16;
  }

  /** Off by at most 512 on `i64` and at most 1024 on `u64`. */
  lemma ErrorBound(i: int)
    ensures -TWO_63 <= i < TWO_63 ==> Distance(FromInt(i), i) <= 512
    ensures 0 <= i < TWO_64 ==> Distance(FromInt(i), i) <= 1024
  {
    SmallPowers();
    if -TWO_63 < i < TWO_63 {
      ErrorWithin(i, 10);
    } else if i == -TWO_63 {
      assert Scaled(i, -TWO_52, 11);
      ExactExactlyOnDoubles(i);
    } else if 0 <= i < TWO_64 {
      ErrorWithin(i, 11);
    }
  }

  /** Both bounds are reached. */
  lemma ErrorBoundIsTight()
    ensures Distance(FromInt(TWO_63 - 512), TWO_63 - 512) == 512
    ensures Distance(FromInt(TWO_64 - 1024), TWO_64 - 1024) == 1024
  {
    SmallPowers();
    TightAt(TWO_63 - 512, 10);
    TightAt(TWO_64 - 1024, 11);
  }

  lemma TightAt(m: nat, e: nat)
    requires e > 0 && m == TWO_53 * Pow2(e) - Pow2(e - 1)
    ensures Distance(FromInt(m), m) == Pow2(e - 1)
  {
    var half, unit := Pow2(e - 1), Pow2(e);
    assert unit == 2 * half;
    ExponentBelow(m, e);
    if Exponent(m) < e {
      Pow2Monotone(Exponent(m), e - 1);
      assert false;
    }
    QuotientOf(m, TWO_53 - 1, unit, half);
  }

  lemma QuotientOf(m: nat, q: int, unit: int, r: int)
    requires m == q * unit + r && 0 <= r < unit
    ensures m / unit == q && m % unit == r
  {
    QuotientBelow(m, unit, q + 1);
    if m / unit < q {
      Scale(m / unit + 1, q, unit);
    }
  }
}
