/** Timestamps: `u64::from_str` on the way in and `format!("{}", n)` on the way out. */
module Timestamp {
  import opened Wrappers
  import opened Text

  const U64_LIMIT := 0x1_0000_0000_0000_0000
  const ZERO: Byte := 48
  const PLUS: Byte := 43

  predicate IsDigit(b: Byte) {
    ZERO <= b <= ZERO + 9
  }

  predicate AllDigits(s: Str) {
    forall i :: 0 <= i < |s| ==> IsDigit(s[i])
  }

  /** The number a digit string denotes, without any bound. */
  function Value(s: Str): nat
    requires AllDigits(s)
  {
    if s == [] then 0 else Value(s[..|s| - 1]) * 10 + (s[|s| - 1] - ZERO)
  }

  /** The digits from the left, stopping at anything else and at the first overflow of 64 bits. */
  function Accumulate(s: Str): Option<nat> {
    if s == [] then Some(0)
    else
      match Accumulate(s[..|s| - 1])
      case None => None
      case Some(n) =>
        var digit := s[|s| - 1];
        if !IsDigit(digit) || n * 10 >= U64_LIMIT || n * 10 + (digit - ZERO) >= U64_LIMIT then None
        else Some(n * 10 + (digit - ZERO))
  }

  function Unsigned(s: Str): Str {
    if s != [] && s[0] == PLUS then s[1..] else s
  }

  function Parse(s: Str): Option<nat> {
    if Unsigned(s) == [] then None else Accumulate(Unsigned(s))
  }

  function Append(s: Str, digit: nat): (t: Str)
    requires AllDigits(s) && digit < 10
    ensures AllDigits(t) && |t| == |s| + 1 && t[..|s|] == s && t[|s|] == ZERO + digit
  {
    s + [ZERO + digit]
  }

  function Print(n: nat): (s: Str)
    ensures s != [] && AllDigits(s)
  {
    if n < 10 then [ZERO + n] else Append(Print(n / 10), n % 10)
  }

  /** The text without redundant zeros in front. */
  function StripZeros(s: Str): Str {
    if |s| > 1 && s[0] == ZERO then StripZeros(s[1..]) else s
  }

  lemma {:induction false} AccumulatesExactlyBelowLimit(s: Str)
    ensures AllDigits(s) && Value(s) < U64_LIMIT ==> Accumulate(s) == Some(Value(s))
    ensures Accumulate(s).Some? ==> AllDigits(s) && Value(s) < U64_LIMIT
  {
    if s != [] {
      var init, last := s[..|s| - 1], s[|s| - 1];
      AccumulatesExactlyBelowLimit(init);
      assert s == init + [last];
      assert AllDigits(s) <==> AllDigits(init) && IsDigit(last);
      if AllDigits(s) {
        assert Value(s) == Value(init) * 10 + (last - ZERO);
      }
    }
  }

  /** A text is accepted exactly when it is a string of digits, perhaps after a plus sign, that
      denotes a number below 2^64; that number is the result. */
  lemma ParsesExactly(s: Str, n: nat)
    ensures var digits := if s != [] && s[0] == '+' as int then s[1..] else s;
            Parse(s) == Some(n) <==>
              && digits != []
              && (forall i :: 0 <= i < |digits| ==> '0' as int <= digits[i] <= '9' as int)
              && Value(digits) == n && n < 18446744073709551616
  {
    AccumulatesExactlyBelowLimit(Unsigned(s));
  }

  function Pow10(k: nat): (p: nat)
    ensures p >= 1
  {
    if k == 0 then 1 else 10 * Pow10(k - 1)
  }

  lemma Scale(a: int, b: int, unit: nat)
    requires a <= b
    ensures a * unit <= b * unit
  {
  }

  lemma QuotientIs(n: nat, q: nat, unit: nat, r: nat)
    requires r < unit && n == q * unit + r
    ensures n / unit == q
  {
    if n / unit < q {
      Scale(n / unit + 1, q, unit);
    } else if n / unit > q {
      Scale(q + 1, n / unit, unit);
    }
  }

  lemma DividedTwice(n: nat, p: nat)
    requires p >= 1
    ensures n / 10 / p == n / (10 * p)
  {
    var q, r := n / 10 / p, n / 10 % p;
    assert n / 10 == q * p + r;
    assert n == q * (10 * p) + (10 * r + n % 10);
    QuotientIs(n, q, 10 * p, 10 * r + n % 10);
  }

  /** The k-th byte of a printed number from the right is its k-th decimal digit. */
  lemma {:induction false} PrintedDigit(n: nat, k: nat)
    requires k < |Print(n)|
    ensures Print(n)[|Print(n)| - 1 - k] == "0123456789"[n / Pow10(k) % 10] as int
  {
    if k > 0 {
      PrintedFront(n, k);
      PrintedDigit(n / 10, k - 1);
      DividedTwice(n, Pow10(k - 1));
    }
  }

  lemma PrintedFront(n: nat, k: nat)
    requires 0 < k < |Print(n)|
    ensures k - 1 < |Print(n / 10)| && Print(n)[|Print(n)| - 1 - k] == Print(n / 10)[|Print(n / 10)| - k]
  {
    if n >= 10 {
      LongerByOne(Print(n), Print(n / 10), k);
    }
  }

  lemma LongerByOne(s: Str, front: Str, k: nat)
    requires 0 < k < |s| && |s| == |front| + 1 && s[..|front|] == front
    ensures s[|s| - 1 - k] == front[|front| - k]
  {
    assert s[..|front|][|front| - k] == s[|front| - k];
  }

  /** No zero comes first, but for the number zero itself. */
  lemma {:induction false} PrintedWithoutZeros(n: nat)
    ensures Print(n)[0] == '0' as int ==> n == 0 && |Print(n)| == 1
  {
    if n >= 10 {
      PrintedWithoutZeros(n / 10);
      assert Print(n)[..|Print(n)| - 1] == Print(n / 10);
    }
  }

  lemma {:induction false} ValueOfPrint(n: nat)
    ensures Value(Print(n)) == n
  {
    if n >= 10 {
      ValueOfPrint(n / 10);
      assert Print(n)[..|Print(n)| - 1] == Print(n / 10);
    }
  }

  /** Parsing undoes printing on all of `u64`. */
  lemma ParsePrint(n: nat)
    requires n < U64_LIMIT
    ensures Parse(Print(n)) == Some(n)
  {
    ValueOfPrint(n);
    assert IsDigit(Print(n)[0]);
    ParsesExactly(Print(n), n);
  }

  lemma {:induction false} ValueFromLeft(s: Str)
    requires AllDigits(s) && |s| > 1 && s[0] == ZERO
    ensures Value(s) == Value(s[1..])
  {
    assert s[..|s| - 1][1..] == s[1..][..|s| - 2];
    if |s| > 2 {
      ValueFromLeft(s[..|s| - 1]);
    } else {
      assert s[..1] == [ZERO] && Value(s[..1]) == Value([]) * 10;
    }
  }

  lemma {:induction false} PrintOfCanonical(s: Str)
    requires AllDigits(s) && s != [] && (|s| == 1 || s[0] != ZERO)
    ensures Print(Value(s)) == s && (s[0] != ZERO ==> Value(s) >= 1)
  {
    var init, last := s[..|s| - 1], s[|s| - 1];
    assert s == init + [last];
    if |s| > 1 {
      PrintOfCanonical(init);
      assert Value(s) / 10 == Value(init) && Value(s) % 10 == last - ZERO;
    } else {
      assert Value(init) == 0;
    }
  }

  lemma {:induction false} PrintOfValue(s: Str)
    requires AllDigits(s) && s != []
    ensures Print(Value(s)) == StripZeros(s)
  {
    if |s| > 1 && s[0] == ZERO {
      ValueFromLeft(s);
      PrintOfValue(s[1..]);
    } else {
      PrintOfCanonical(s);
    }
  }

  /** Printing what was parsed gives the text without its plus sign and redundant zeros. */
  lemma PrintParse(s: Str)
    requires Parse(s).Some?
    ensures Print(Parse(s).value) == StripZeros(Unsigned(s))
  {
    ParsesExactly(s, Parse(s).value);
    PrintOfValue(Unsigned(s));
  }
}
