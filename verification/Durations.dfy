/**
  Durations given as a plain number of seconds, multiplied out in 64-bit arithmetic
  that wraps around, and the range check applied to them afterwards.
  */
module Durations {
  import opened Shared
  import opened Text

  const TWO_55: int := 0x80_0000_0000_0000
  const TWO_64: int := 0x1_0000_0000_0000_0000

  /** A product as 64-bit two's complement arithmetic leaves it. */
  function Wrap(x: int): (w: int)
    ensures InInt64(w) && (x - w) % TWO_64 == 0
  {
    var w := (x - MIN_INT64) % TWO_64 + MIN_INT64;
    DivMod(x - MIN_INT64, TWO_64);
    var k := (x - MIN_INT64) / TWO_64;
    assert x - w == TWO_64 * k;
    MultipleMod(k, TWO_64);
    w
  }

  /** A decimal integer with an optional sign that fits in 64 bits. */
  function Atoi(s: string): Option<int> {
    var signed := s != "" && (s[0] == '-' || s[0] == '+');
    var digits := if signed then s[1..] else s;
    if digits == "" || !AllDigits(digits) then None
    else
      var magnitude: int := DigitsValue(digits);
      var n := if s[0] == '-' then -magnitude else magnitude;
      if InInt64(n) then Some(n) else None
  }

  /** A standard duration string, or else a number of seconds. `standard` is the
      library's duration parser. */
  function ParseDuration(standard: string -> Option<int>, value: string): Option<int> {
    if standard(value).Some? then standard(value)
    else if Atoi(value).Some? then Some(Wrap(Atoi(value).value * SECOND))
    else None
  }

  // ------------------------------------------------------------------
  // Arithmetic
  // ------------------------------------------------------------------

  lemma DivMod(x: int, m: int)
    requires m > 0
    ensures x == m * (x / m) + x % m && 0 <= x % m < m
  {
  }

  lemma AtLeastOnce(m: int, j: int)
    requires m > 0 && j >= 1
    ensures m * j >= m
  {
    assert m * j == m * (j - 1) + m;
    assert m * (j - 1) >= 0;
  }

  lemma SmallMultiple(m: int, j: int, r: int)
    requires m > 0 && 0 <= r < m && m * j == r
    ensures r == 0
  {
    assert m * -j == -(m * j);
    if j >= 1 {
      AtLeastOnce(m, j);
    } else if j <= -1 {
      AtLeastOnce(m, -j);
    }
  }

  lemma MultipleMod(k: int, m: int)
    requires m > 0
    ensures (m * k) % m == 0
  {
    var x := m * k;
    DivMod(x, m);
    assert m * (k - x / m) == m * k - m * (x / m);
    SmallMultiple(m, k - x / m, x % m);
  }

  lemma WrapIsUnique(x: int, w: int)
    requires InInt64(w) && (x - w) % TWO_64 == 0
    ensures Wrap(x) == w
  {
    var a, b := (x - w) / TWO_64, (x - Wrap(x)) / TWO_64;
    assert x - w == TWO_64 * a && x - Wrap(x) == TWO_64 * b;
  }

  lemma SameWrap(x: int, y: int)
    ensures Wrap(x) == Wrap(y) <==> (x - y) % TWO_64 == 0
  {
    var a, b := (x - Wrap(x)) / TWO_64, (y - Wrap(y)) / TWO_64;
    assert x - Wrap(x) == TWO_64 * a && y - Wrap(y) == TWO_64 * b;
    if Wrap(x) == Wrap(y) {
      assert x - y == TWO_64 * (a - b);
      MultipleMod(a - b, TWO_64);
    }
    if (x - y) % TWO_64 == 0 {
      var c := (x - y) / TWO_64;
      assert x - Wrap(y) == TWO_64 * (c + b);
      MultipleMod(c + b, TWO_64);
      WrapIsUnique(x, Wrap(y));
    }
  }

  // A second is 5^9 * 2^9 nanoseconds, and 5^9 is invertible modulo 2^55.
  const FIVE_9: int := 1953125
  const INVERSE: int := 20_211_507_185_753_197
  const CARRY: int := 1_095_668

  lemma SecondsModulo(d: int)
    ensures (d * SECOND) % TWO_64 == 0 <==> d % TWO_55 == 0
  {
    assert SECOND == FIVE_9 * 512 && TWO_64 == TWO_55 * 512;
    assert FIVE_9 * INVERSE == 1 + CARRY * TWO_55;
    if d % TWO_55 == 0 {
      var k := d / TWO_55;
      assert d == TWO_55 * k;
      assert d * SECOND == TWO_64 * (k * FIVE_9);
      MultipleMod(k * FIVE_9, TWO_64);
    }
    if (d * SECOND) % TWO_64 == 0 {
      var q := (d * SECOND) / TWO_64;
      assert d * FIVE_9 == TWO_55 * q;
      InverseCancels(d, q);
      MultipleMod(q * INVERSE - d * CARRY, TWO_55);
    }
  }

  lemma InverseCancels(d: int, q: int)
    requires d * FIVE_9 == TWO_55 * q
    ensures d == TWO_55 * (q * INVERSE - d * CARRY)
  {
    assert FIVE_9 * INVERSE == 1 + CARRY * TWO_55;
    assert d * FIVE_9 * INVERSE == TWO_55 * q * INVERSE;
    assert d * FIVE_9 * INVERSE == d + d * CARRY * TWO_55;
  }

  // ------------------------------------------------------------------
  // What a plain number of seconds means
  // ------------------------------------------------------------------

  /** A number of seconds means that many seconds exactly when the product fits. */
  lemma MeansWhatItSays(n: int)
    ensures Wrap(n * SECOND) == n * SECOND <==> InInt64(n * SECOND)
  {
    if InInt64(n * SECOND) {
      WrapIsUnique(n * SECOND, n * SECOND);
    }
  }

  /** Two numbers give the same duration exactly when they agree modulo 2^55. */
  lemma SameDuration(n: int, m: int)
    ensures Wrap(n * SECOND) == Wrap(m * SECOND) <==> (n - m) % TWO_55 == 0
  {
    SameWrap(n * SECOND, m * SECOND);
    SecondsModulo(n - m);
    assert n * SECOND - m * SECOND == (n - m) * SECOND;
  }

  /** A decimal number behind an optional sign and any zeros. */
  ghost predicate Numeral(value: string, sign: string, zeros: string, n: nat) {
    && (sign == "" || sign == "+" || sign == "-")
    && Zeros(zeros)
    && value == sign + (zeros + Decimal(n))
  }

  lemma AtoiOfDigits(sign: string, digits: string)
    requires sign == "" || sign == "+" || sign == "-"
    requires digits != "" && AllDigits(digits)
    ensures Atoi(sign + digits)
            == var i: int := if sign == "-" then -(DigitsValue(digits) as int) else DigitsValue(digits);
               if InInt64(i) then Some(i) else None
  {
    var s := sign + digits;
    assert IsDigit(digits[0]);
    if sign == "" {
      assert s == digits;
    } else {
      assert s[0] == sign[0] && s[1..] == digits;
    }
  }

  lemma AtoiOfNumeral(value: string, sign: string, zeros: string, n: nat)
    requires Numeral(value, sign, zeros, n)
    ensures Atoi(value) == var i: int := if sign == "-" then -(n as int) else n; if InInt64(i) then Some(i) else None
  {
    DecimalValue(n);
    ZerosAddNothing(zeros, Decimal(n));
    AtoiOfDigits(sign, zeros + Decimal(n));
  }

  /** Strings the library's parser does not take: a numeral denotes that many seconds,
      wrapped, or is refused when out of the 64-bit range. */
  lemma BareSeconds(standard: string -> Option<int>, value: string, sign: string, zeros: string, n: nat)
    requires standard(value).None? && Numeral(value, sign, zeros, n)
    ensures var seconds: int := if sign == "-" then -(n as int) else n;
            ParseDuration(standard, value)
            == if InInt64(seconds) then Some(Wrap(seconds * SECOND)) else None
  {
    AtoiOfNumeral(value, sign, zeros, n);
  }

  /** A string the library's parser takes means what that parser says, numeral or not. */
  lemma StandardComesFirst(standard: string -> Option<int>, value: string)
    requires standard(value).Some?
    ensures ParseDuration(standard, value) == standard(value)
  {
  }

  /** And of those strings nothing but numerals is accepted. */
  lemma OnlyBareSeconds(standard: string -> Option<int>, value: string)
    requires standard(value).None? && ParseDuration(standard, value).Some?
    ensures exists sign, zeros, n :: Numeral(value, sign, zeros, n)
  {
    var signed := value[0] == '-' || value[0] == '+';
    var sign, digits := value[..if signed then 1 else 0], if signed then value[1..] else value;
    var zeros := DigitsAreDecimal(digits);
    assert value == sign + digits;
    assert sign == if signed then [value[0]] else "";
    assert Numeral(value, sign, zeros, DigitsValue(digits));
  }

  // ------------------------------------------------------------------
  // The range check
  // ------------------------------------------------------------------

  datatype Problem = NotPositive(field: string) | TooSmall(field: string) | TooLarge(field: string)

  function AppendRangeProblem(problems: seq<Problem>, field: string, d: int, minimum: int, maximum: int): seq<Problem> {
    if d <= 0 then problems + [NotPositive(field)]
    else if d < minimum then problems + [TooSmall(field)]
    else if d > maximum then problems + [TooLarge(field)]
    else problems
  }

  /** Whether the range check accepts `n` given as a plain number of seconds. */
  predicate Accepted(n: int, minimum: int, maximum: int) {
    AppendRangeProblem([], "", Wrap(n * SECOND), minimum, maximum) == []
  }

  /** Whether `n` seconds, as an operator means them, are in range. */
  predicate Intended(n: int, minimum: int, maximum: int) {
    minimum <= n * SECOND <= maximum
  }

  /** Acceptance depends on the number modulo 2^55 only. */
  lemma AcceptedByClass(n: int, m: int, minimum: int, maximum: int)
    requires (n - m) % TWO_55 == 0
    ensures Accepted(n, minimum, maximum) <==> Accepted(m, minimum, maximum)
  {
    SameDuration(n, m);
  }

  /** What is intended is below 2^55, so it is its own residue. */
  lemma IntendedIsResidue(n: int, m: int, maximum: int)
    requires maximum <= MAX_INT64 && Intended(m, 0, maximum) && (n - m) % TWO_55 == 0
    ensures m == n % TWO_55
  {
    assert 0 <= m < TWO_55;
    DivMod(n - m, TWO_55);
    DivMod(n, TWO_55);
    var j := (n - m) / TWO_55 - n / TWO_55;
    assert n % TWO_55 - m == TWO_55 * j;
    assert -TWO_55 < TWO_55 * j < TWO_55;
    assert j == 0;
  }

  /** An accepted number agrees with an intended one exactly when its wrapped duration is
      a whole number of seconds; and that is when its residue modulo 2^55 is intended. */
  lemma AcceptedMeansIntended(n: int, minimum: int, maximum: int)
    requires 0 < minimum <= maximum <= MAX_INT64
    ensures Accepted(n, minimum, maximum) && Wrap(n * SECOND) % SECOND == 0
            <==> exists m :: Intended(m, minimum, maximum) && (n - m) % TWO_55 == 0
    ensures Accepted(n, minimum, maximum) && Wrap(n * SECOND) % SECOND == 0
            <==> Intended(n % TWO_55, minimum, maximum)
  {
    if Accepted(n, minimum, maximum) && Wrap(n * SECOND) % SECOND == 0 {
      var m := Wrap(n * SECOND) / SECOND;
      assert m * SECOND == Wrap(n * SECOND);
      MeansWhatItSays(m);
      SameDuration(n, m);
      assert Intended(m, minimum, maximum);
    }
    if m :| Intended(m, minimum, maximum) && (n - m) % TWO_55 == 0 {
      SameDuration(n, m);
      MeansWhatItSays(m);
      MultipleMod(m, SECOND);
      assert SECOND * m == m * SECOND;
      IntendedIsResidue(n, m, maximum);
    }
    DivMod(n, TWO_55);
    MultipleMod(n / TWO_55, TWO_55);
    assert (n - n % TWO_55) % TWO_55 == 0;
  }

  /** An accepted number is one an operator means exactly when its product fits. */
  lemma AcceptedAsWritten(n: int, minimum: int, maximum: int)
    requires 0 < minimum <= maximum <= MAX_INT64
    ensures Accepted(n, minimum, maximum) ==> (Intended(n, minimum, maximum) <==> InInt64(n * SECOND))
    ensures Intended(n, minimum, maximum) ==> Accepted(n, minimum, maximum)
  {
    MeansWhatItSays(n);
  }

  /** The accepted numbers are more than the classes of the intended ones: this one is
      accepted as a duration of 1.000000512 seconds, and no intended number of seconds
      agrees with it modulo 2^55. */
  lemma AcceptedButNotIntended(maximum: int)
    requires 2 * SECOND <= maximum <= MAX_INT64
    ensures InInt64(INVERSE + 1)
    ensures Accepted(INVERSE + 1, SECOND, maximum)
    ensures forall m :: Intended(m, SECOND, maximum) ==> (INVERSE + 1 - m) % TWO_55 != 0
  {
    var n := INVERSE + 1;
    assert n * SECOND - (SECOND + 512) == TWO_64 * CARRY;
    MultipleMod(CARRY, TWO_64);
    WrapIsUnique(n * SECOND, SECOND + 512);
    assert (SECOND + 512) % SECOND == 512;
    AcceptedMeansIntended(n, SECOND, maximum);
  }

  lemma ReachedIsMultiple(n: int, d: int)
    requires Wrap(n * SECOND) == d
    ensures d % 512 == 0
  {
    var k := (n * SECOND - d) / TWO_64;
    assert n * SECOND - d == TWO_64 * k;
    assert d == 512 * (n * FIVE_9 - k * TWO_55);
    MultipleMod(n * FIVE_9 - k * TWO_55, 512);
  }

  lemma MultipleIsReached(d: int) returns (n: int)
    requires InInt64(d) && d % 512 == 0
    ensures InInt64(n) && Wrap(n * SECOND) == d
  {
    var k := d / 512;
    n := (k * INVERSE) % TWO_55;
    DivMod(k * INVERSE, TWO_55);
    var q := (k * INVERSE) / TWO_55;
    assert n == k * INVERSE - TWO_55 * q;
    InverseReaches(k, q, n);
    MultipleMod(k * CARRY - q * FIVE_9, TWO_64);
    WrapIsUnique(n * SECOND, d);
  }

  /** The durations that 64-bit numbers of seconds can produce are exactly the
      multiples of 512 nanoseconds. */
  lemma ReachableDurations(d: int)
    requires InInt64(d)
    ensures (exists n :: InInt64(n) && Wrap(n * SECOND) == d) <==> d % 512 == 0
  {
    if n :| InInt64(n) && Wrap(n * SECOND) == d {
      ReachedIsMultiple(n, d);
    }
    if d % 512 == 0 {
      var n := MultipleIsReached(d);
    }
  }

  lemma InverseReaches(k: int, q: int, n: int)
    requires n == k * INVERSE - TWO_55 * q
    ensures n * SECOND - 512 * k == TWO_64 * (k * CARRY - q * FIVE_9)
  {
    assert FIVE_9 * INVERSE == 1 + CARRY * TWO_55;
    assert n * FIVE_9 == k * (FIVE_9 * INVERSE) - TWO_55 * q * FIVE_9;
    assert n * FIVE_9 - k == TWO_55 * (k * CARRY - q * FIVE_9);
  }
}
