/**
 * The small pieces of Go's standard library the leaderboard relies on, as
 * functions over strings: decimal formatting (`fmt` with `%d` and `%05d`),
 * `strconv.Atoi`, `strings.Split` on one separator character, and 64-bit
 * integer wrap-around.
 */
module Text {

  const MinInt64: int := -0x8000_0000_0000_0000
  const MaxInt64: int := 0x7FFF_FFFF_FFFF_FFFF

  /** Go's `int` on a 64-bit platform. */
  predicate IsInt64(n: int) {
    MinInt64 <= n <= MaxInt64
  }

  /** Two's-complement wrap-around of a Go `int` addition. */
  function Wrap64(n: int): (r: int)
    ensures IsInt64(r)
    ensures (r - n) % 0x1_0000_0000_0000_0000 == 0
    ensures IsInt64(n) ==> r == n
  {
    (n - MinInt64) % 0x1_0000_0000_0000_0000 + MinInt64
  }

  // ---------------------------------------------------------------------
  // Decimal digits

  predicate IsDigit(c: char) {
    '0' <= c <= '9'
  }

  predicate AllDigits(s: string) {
    forall i :: 0 <= i < |s| ==> IsDigit(s[i])
  }

  function DigitChar(d: int): (c: char)
    requires 0 <= d < 10
    ensures IsDigit(c) && (c as int) - ('0' as int) == d
  {
    (('0' as int) + d) as char
  }

  function DigitValue(c: char): (d: nat)
    requires IsDigit(c)
    ensures d < 10 && DigitChar(d) == c
  {
    (c as int) - ('0' as int)
  }

  /** Decimal representation of a natural number, without leading zeros. */
  function FormatNat(n: nat): (s: string)
    ensures 1 <= |s| && AllDigits(s)
    ensures n < 10 <==> |s| == 1
    decreases n
  {
    if n < 10 then [DigitChar(n)] else FormatNat(n / 10) + [DigitChar(n % 10)]
  }

  /** The value of a string of decimal digits (the empty string is 0). */
  function ParseDigits(s: string): nat
    requires AllDigits(s)
  {
    if s == [] then 0 else ParseDigits(s[..|s| - 1]) * 10 + DigitValue(s[|s| - 1])
  }

  lemma {:induction false} ParseFormatNat(n: nat)
    ensures ParseDigits(FormatNat(n)) == n
    decreases n
  {
    if n >= 10 {
      var s := FormatNat(n);
      assert s[..|s| - 1] == FormatNat(n / 10);
      ParseFormatNat(n / 10);
    }
  }

  /** A number of digits never exceeds the width it is printed in. */
  lemma {:induction false} FormatNatLength(n: nat, width: nat)
    requires 1 <= width && n < Pow10(width)
    ensures |FormatNat(n)| <= width
    decreases n
  {
    if n >= 10 {
      assert width >= 2 && n / 10 < Pow10(width - 1);
      FormatNatLength(n / 10, width - 1);
    }
  }

  function Pow10(k: nat): (p: nat)
    ensures p >= 1
  {
    if k == 0 then 1 else 10 * Pow10(k - 1)
  }

  function Zeros(k: nat): (s: string)
    ensures |s| == k && AllDigits(s)
  {
    if k == 0 then [] else Zeros(k - 1) + ['0']
  }

  lemma {:induction false} ParseLeadingZeros(k: nat, s: string)
    requires AllDigits(s)
    ensures AllDigits(Zeros(k) + s)
    ensures ParseDigits(Zeros(k) + s) == ParseDigits(s)
    decreases |s|
  {
    var z := Zeros(k) + s;
    if s == [] {
      assert z == Zeros(k);
      ZerosValue(k);
    } else {
      assert z[..|z| - 1] == Zeros(k) + s[..|s| - 1];
      ParseLeadingZeros(k, s[..|s| - 1]);
    }
  }

  lemma {:induction false} ZerosValue(k: nat)
    ensures ParseDigits(Zeros(k)) == 0
  {
    if k > 0 {
      assert Zeros(k)[..k - 1] == Zeros(k - 1);
      ZerosValue(k - 1);
    }
  }

  /** `fmt.Sprintf("%0*d", width, n)` for a non-negative `n`. */
  function ZeroPad(n: nat, width: nat): string {
    var digits := FormatNat(n);
    (if |digits| < width then Zeros(width - |digits|) else []) + digits
  }

  /** Zero padding loses nothing: the padded text still reads back as `n`. */
  lemma ZeroPadValue(n: nat, width: nat)
    ensures AllDigits(ZeroPad(n, width))
    ensures ParseDigits(ZeroPad(n, width)) == n
  {
    var digits := FormatNat(n);
    ParseFormatNat(n);
    if |digits| < width {
      assert ZeroPad(n, width) == Zeros(width - |digits|) + digits;
      ParseLeadingZeros(width - |digits|, digits);
    } else {
      assert ZeroPad(n, width) == digits;
    }
  }

  lemma ZeroPadLength(n: nat, width: nat)
    requires 1 <= width && n < Pow10(width)
    ensures |ZeroPad(n, width)| == width
  {
    FormatNatLength(n, width);
  }

  /** Distinct numbers always have distinct padded forms. */
  lemma ZeroPadInjective(a: nat, b: nat, width: nat)
    requires ZeroPad(a, width) == ZeroPad(b, width)
    ensures a == b
  {
    ZeroPadValue(a, width);
    ZeroPadValue(b, width);
  }

  /** `fmt.Sprintf("%d", n)`. */
  function FormatInt(n: int): (s: string)
    ensures 1 <= |s| && ':' !in s
    ensures n >= 0 ==> AllDigits(s)
    ensures n < 0 ==> s[0] == '-' && AllDigits(s[1..])
  {
    if n < 0 then "-" + FormatNat(-n) else FormatNat(n)
  }

  /** `%d` writes a minus sign first exactly for negative numbers. */
  lemma FormatIntSign(n: int)
    ensures FormatInt(n)[0] == '-' <==> n < 0
  {
    if n >= 0 {
      assert IsDigit(FormatInt(n)[0]);
    }
  }

  /** After the sign, `%d` of a negative number is the digits of its magnitude. */
  lemma FormatIntNegative(n: int)
    requires n < 0
    ensures FormatInt(n)[1..] == FormatNat(-n)
  {
    assert FormatInt(n) == "-" + FormatNat(-n);
  }

  /** Distinct naturals have distinct decimal representations. */
  lemma FormatNatInjective(a: nat, b: nat)
    requires FormatNat(a) == FormatNat(b)
    ensures a == b
  {
    ParseFormatNat(a);
    ParseFormatNat(b);
  }

  // ---------------------------------------------------------------------
  // strconv.Atoi

  /**
   * The two results of `strconv.Atoi`: `Parsed(v)` with a nil error, or an
   * error together with the value Go returns beside it (0 after a syntax
   * error, the nearest 64-bit bound after a range error).
   */
  datatype ParseResult = Parsed(value: int) | Invalid(value: int)

  /** The largest value the digit scanner accumulates before it reports a range error. */
  const MaxUint64: int := 0xFFFF_FFFF_FFFF_FFFF

  /** The length of the run of digits `s` starts with. */
  function DigitRun(s: string): (k: nat)
    ensures k <= |s| && AllDigits(s[..k])
    ensures k < |s| ==> !IsDigit(s[k])
    decreases |s|
  {
    if s == [] || !IsDigit(s[0]) then 0
    else
      var k := 1 + DigitRun(s[1..]);
      assert forall j :: 1 <= j < k ==> s[..k][j] == s[1..][..k - 1][j - 1];
      k
  }

  /** Digits followed by a non-digit (or by nothing) form a run of exactly their length. */
  lemma {:induction false} DigitRunPrefix(d: string, t: string)
    requires AllDigits(d) && (t == [] || !IsDigit(t[0]))
    ensures DigitRun(d + t) == |d|
    decreases |d|
  {
    if d != [] {
      assert IsDigit(d[0]);
      assert (d + t)[1..] == d[1..] + t;
      DigitRunPrefix(d[1..], t);
    } else {
      assert d + t == t;
    }
  }

  /**
   * `strconv.Atoi` on a 64-bit platform: an optional sign, then decimal
   * digits scanned from the left. The scan stops with a range error as soon
   * as the digits read so far exceed 2^64 - 1, even when a non-digit follows
   * later; otherwise a non-digit, or the absence of any digit, is a syntax
   * error. A complete run of digits whose signed value leaves the 64-bit
   * range is a range error as well.
   */
  function Atoi(s: string): (r: ParseResult)
    ensures r.Parsed? ==> IsInt64(r.value)
    ensures s == [] ==> r == Invalid(0)
  {
    if s == [] then Invalid(0)
    else
      var negative := s[0] == '-';
      var digits := if s[0] == '+' || s[0] == '-' then s[1..] else s;
      var run := DigitRun(digits);
      if digits == [] then Invalid(0)
      else if ParseDigits(digits[..run]) > MaxUint64 then Invalid(if negative then MinInt64 else MaxInt64)
      else if run < |digits| then Invalid(0)
      else
        var v: int := if negative then -(ParseDigits(digits) as int) else ParseDigits(digits);
        if v < MinInt64 then Invalid(MinInt64)
        else if v > MaxInt64 then Invalid(MaxInt64)
        else Parsed(v)
  }

  /** A run of digits ends no later than the first non-digit. */
  lemma {:induction false} DigitRunStops(s: string, pos: int)
    requires 0 <= pos < |s| && !IsDigit(s[pos])
    ensures DigitRun(s) <= pos
    decreases |s|
  {
    if IsDigit(s[0]) {
      assert s[1..][pos - 1] == s[pos];
      DigitRunStops(s[1..], pos - 1);
    }
  }

  /** Any character other than a digit, past an optional leading sign, is an error. */
  lemma AtoiRejects(s: string, i: int)
    requires 0 <= i < |s| && !IsDigit(s[i]) && (i > 0 || (s[0] != '+' && s[0] != '-'))
    ensures Atoi(s).Invalid?
  {
    var digits := if s[0] == '+' || s[0] == '-' then s[1..] else s;
    var pos := if s[0] == '+' || s[0] == '-' then i - 1 else i;
    assert digits[pos] == s[i];
    DigitRunStops(digits, pos);
  }

  /** The value of `k` digits is below 10^k. */
  lemma {:induction false} ParseDigitsBound(s: string)
    requires AllDigits(s)
    ensures ParseDigits(s) < Pow10(|s|)
    decreases |s|
  {
    if s != [] {
      ParseDigitsBound(s[..|s| - 1]);
    }
  }

  lemma {:induction false} Pow10Monotone(j: nat, k: nat)
    requires j <= k
    ensures Pow10(j) <= Pow10(k)
    decreases k
  {
    if j < k {
      Pow10Monotone(j, k - 1);
    }
  }

  lemma Pow10Nineteen()
    ensures Pow10(19) == 10_000_000_000_000_000_000
  {
    assert Pow10(10) == 10_000_000_000;
  }

  /** No run of at most 19 digits exceeds 2^64 - 1. */
  lemma ShortRunFits(s: string)
    requires AllDigits(s) && |s| <= 19
    ensures ParseDigits(s) <= MaxUint64
  {
    ParseDigitsBound(s);
    Pow10Monotone(|s|, 19);
    Pow10Nineteen();
  }

  /**
   * A non-digit within the first 20 characters is reached before any range
   * error can be, so the result is the syntax error's 0.
   */
  lemma AtoiSyntaxError(s: string, i: int)
    requires 0 <= i < |s| && i < 20 && !IsDigit(s[i]) && (i > 0 || (s[0] != '+' && s[0] != '-'))
    ensures Atoi(s) == Invalid(0)
  {
    var digits := if s[0] == '+' || s[0] == '-' then s[1..] else s;
    var pos := if s[0] == '+' || s[0] == '-' then i - 1 else i;
    assert digits[pos] == s[i];
    DigitRunStops(digits, pos);
    ShortRunFits(digits[..DigitRun(digits)]);
  }

  /**
   * The quirk of the left-to-right scan: digits worth more than 2^64 - 1
   * give the range error's bound even when a non-digit follows them.
   */
  lemma AtoiOverflowFirst(d: string, t: string)
    requires d != [] && AllDigits(d) && ParseDigits(d) > MaxUint64
    requires t == [] || !IsDigit(t[0])
    ensures Atoi(d + t) == Invalid(MaxInt64)
  {
    assert IsDigit(d[0]);
    DigitRunPrefix(d, t);
    assert (d + t)[..|d|] == d;
  }

  /** Unsigned digits within range parse to their value. */
  lemma AtoiDigits(s: string)
    requires s != [] && AllDigits(s) && ParseDigits(s) <= MaxInt64
    ensures Atoi(s) == Parsed(ParseDigits(s))
  {
    assert IsDigit(s[0]);
    DigitRunPrefix(s, []);
    assert s + [] == s && s[..|s|] == s;
  }

  /** A minus sign followed by digits within range parses to the negated value. */
  lemma AtoiNegative(digits: string, m: int)
    requires digits != [] && AllDigits(digits) && ParseDigits(digits) == m <= -MinInt64
    ensures Atoi("-" + digits) == Parsed(-m)
  {
    assert ("-" + digits)[1..] == digits;
    DigitRunPrefix(digits, []);
    assert digits + [] == digits && digits[..|digits|] == digits;
  }

  /** Reading back what `%d` wrote gives the number, for every Go `int`. */
  lemma AtoiFormatInt(n: int)
    requires IsInt64(n)
    ensures Atoi(FormatInt(n)) == Parsed(n)
  {
    if n < 0 {
      ParseFormatNat(-n);
      AtoiNegative(FormatNat(-n), -n);
    } else {
      ParseFormatNat(n);
      AtoiDigits(FormatNat(n));
    }
  }

  // ---------------------------------------------------------------------
  // strings.Split with a one-character separator

  function IndexOf(s: string, c: char): (i: nat)
    requires c in s
    ensures i < |s| && s[i] == c && c !in s[..i]
  {
    if s[0] == c then 0 else 1 + IndexOf(s[1..], c)
  }

  /** `strings.Split(s, string(sep))`: always at least one part, none holding `sep`. */
  function Split(s: string, sep: char): (parts: seq<string>)
    ensures 1 <= |parts|
    ensures forall k :: 0 <= k < |parts| ==> sep !in parts[k]
    decreases |s|
  {
    if sep !in s then [s]
    else
      var i := IndexOf(s, sep);
      [s[..i]] + Split(s[i + 1..], sep)
  }

  /** `strings.Join(parts, string(sep))`. */
  function Join(parts: seq<string>, sep: char): string
    requires 1 <= |parts|
  {
    if |parts| == 1 then parts[0] else parts[0] + [sep] + Join(parts[1..], sep)
  }

  /** Joining the parts of a split gives back the original string. */
  lemma {:induction false} JoinSplit(s: string, sep: char)
    ensures Join(Split(s, sep), sep) == s
    decreases |s|
  {
    if sep in s {
      var i := IndexOf(s, sep);
      var rest := Split(s[i + 1..], sep);
      var parts := [s[..i]] + rest;
      assert Split(s, sep) == parts;
      assert parts[1..] == rest;
      JoinSplit(s[i + 1..], sep);
      assert s == s[..i] + [sep] + s[i + 1..];
    }
  }

  /** Splitting a join of separator-free parts gives back exactly those parts. */
  lemma {:induction false} SplitJoin(parts: seq<string>, sep: char)
    requires 1 <= |parts|
    requires forall k :: 0 <= k < |parts| ==> sep !in parts[k]
    ensures Split(Join(parts, sep), sep) == parts
    decreases |parts|
  {
    if |parts| > 1 {
      var s := Join(parts, sep);
      var p := parts[0];
      assert s == p + [sep] + Join(parts[1..], sep);
      assert s[|p|] == sep && s[..|p|] == p;
      assert sep in s;
      assert IndexOf(s, sep) == |p|;
      assert s[|p| + 1..] == Join(parts[1..], sep);
      SplitJoin(parts[1..], sep);
    }
  }

  // ---------------------------------------------------------------------
  // Substrings

  predicate IsPrefix(q: string, s: string) {
    |q| <= |s| && s[..|q|] == q
  }

  /** `strings.Contains(s, q)`. */
  predicate Contains(s: string, q: string) {
    exists i :: 0 <= i <= |s| && IsPrefix(q, s[i..])
  }
}
