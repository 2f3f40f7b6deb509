/** Base-10 integer parsing with the results of Go's
    `strconv.ParseUint(s, 10, 64)` and `strconv.ParseInt(s, 10, 64)` (on a
    64-bit platform `strconv.Atoi(s)` accepts, rejects and returns exactly
    what `ParseInt(s, 10, 64)` does): an optional sign (signed parsers
    only), then one or more decimal digits. The digits are read from the
    left and the first error met wins: a value that overflows 64 unsigned
    bits is a range error whose value is the nearest bound, even when a
    malformed character follows; a malformed string that has not
    overflowed by then is a syntax error with value 0. */
module Numbers {
  import opened Base

  datatype NumError = ErrSyntax | ErrRange

  const MAX_UINT64: int := 0xFFFF_FFFF_FFFF_FFFF
  const MAX_INT64: int := 0x7FFF_FFFF_FFFF_FFFF
  const MIN_INT64: int := -0x8000_0000_0000_0000

  type Uint64 = x: int | 0 <= x <= MAX_UINT64
  type Int64 = x: int | MIN_INT64 <= x <= MAX_INT64

  predicate IsDigit(c: char) { '0' <= c <= '9' }

  predicate AllDigits(s: string) { forall i :: 0 <= i < |s| ==> IsDigit(s[i]) }

  /** The number a string of decimal digits denotes. */
  function DecimalValue(s: string): nat
    requires AllDigits(s)
  {
    if s == [] then 0 else 10 * DecimalValue(s[..|s| - 1]) + (s[|s| - 1] as int - '0' as int)
  }

  /** The length of the run of digits `s` starts with. */
  function DigitRun(s: string): (k: nat)
    ensures k <= |s| && AllDigits(s[..k])
    ensures k < |s| ==> !IsDigit(s[k])
  {
    if s == [] || !IsDigit(s[0]) then 0
    else
      var k := 1 + DigitRun(s[1..]);
      assert s[..k] == [s[0]] + s[1..][..k - 1];
      k
  }

  /** The digits a left-to-right scan reads before it meets anything
      else. */
  function LeadingDigits(s: string): string
  {
    s[..DigitRun(s)]
  }

  /** `strconv.ParseUint(s, 10, 64)`: the digits read before the first
      other character decide a range error; only then does that character
      make a syntax error. */
  function ParseUint64(s: string): (r: (Uint64, Option<NumError>))
    ensures r.1 == None <==> s != "" && AllDigits(s) && DecimalValue(s) <= MAX_UINT64
    ensures r.1 == None ==> r.0 == DecimalValue(s)
    ensures r.1 == Some(ErrRange) <==> DecimalValue(LeadingDigits(s)) > MAX_UINT64
    ensures r.1 == Some(ErrRange) ==> r.0 == MAX_UINT64
    ensures r.1 == Some(ErrSyntax) <==> s == "" || (!AllDigits(s) && DecimalValue(LeadingDigits(s)) <= MAX_UINT64)
    ensures r.1 == Some(ErrSyntax) ==> r.0 == 0
  {
    var k := DigitRun(s);
    assert s[..|s|] == s;
    assert k < |s| ==> !AllDigits(s);
    if s == "" then (0, Some(ErrSyntax))
    else if DecimalValue(s[..k]) > MAX_UINT64 then (MAX_UINT64, Some(ErrRange))
    else if k < |s| then (0, Some(ErrSyntax))
    else (DecimalValue(s), None)
  }

  /** A longer run of digits never denotes less. */
  lemma {:induction false} DecimalValuePrefix(s: string, i: nat)
    requires AllDigits(s) && i <= |s|
    ensures DecimalValue(s[..i]) <= DecimalValue(s)
  {
    if i < |s| {
      var t := s[..|s| - 1];
      assert s[..i] == t[..i];
      assert IsDigit(s[|s| - 1]);
      DecimalValuePrefix(t, i);
    } else {
      assert s[..i] == s;
    }
  }

  /** The digits a signed number is written with: `s` without a leading
      '+' or '-'. */
  function Magnitude(s: string): string
  {
    if s != "" && (s[0] == '+' || s[0] == '-') then s[1..] else s
  }

  /** `strconv.ParseInt(s, 10, 64)`. */
  function ParseInt64(s: string): (r: (Int64, Option<NumError>))
    ensures r.1 == None <==>
      s != "" && Magnitude(s) != "" && AllDigits(Magnitude(s))
      && (if s[0] == '-' then DecimalValue(Magnitude(s)) <= -MIN_INT64
          else DecimalValue(Magnitude(s)) <= MAX_INT64)
    ensures r.1 == None ==>
      r.0 == if s[0] == '-' then -(DecimalValue(Magnitude(s)) as int) else DecimalValue(Magnitude(s))
    ensures r.1 == Some(ErrSyntax) <==>
      s == "" || Magnitude(s) == "" ||
      (!AllDigits(Magnitude(s)) && DecimalValue(LeadingDigits(Magnitude(s))) <= MAX_UINT64)
    ensures r.1 == Some(ErrSyntax) ==> r.0 == 0
    ensures r.1 == Some(ErrRange) ==> r.0 == if s[0] == '-' then MIN_INT64 else MAX_INT64
  {
    if s == "" then (0, Some(ErrSyntax))
    else
      var negative := s[0] == '-';
      var (u, err) := ParseUint64(Magnitude(s));
      if err == Some(ErrSyntax) then (0, Some(ErrSyntax))
      else if !negative && u > MAX_INT64 then (MAX_INT64, Some(ErrRange))
      else if negative && u > -MIN_INT64 then (MIN_INT64, Some(ErrRange))
      else if negative then (-(u as int), None)
      else (u, None)
  }

  /** Decimal rendering of a natural number, the inverse the parsers are
      checked against. */
  function Decimal(n: nat): (s: string)
    ensures s != "" && AllDigits(s)
    decreases n
  {
    var d := [('0' as int + n % 10) as char];
    if n < 10 then d else Decimal(n / 10) + d
  }

  lemma {:induction false} DecimalValueOfDecimal(n: nat)
    ensures DecimalValue(Decimal(n)) == n
    decreases n
  {
    var s := Decimal(n);
    if n >= 10 {
      DecimalValueOfDecimal(n / 10);
      assert s[..|s| - 1] == Decimal(n / 10);
    }
  }

  /** Every number in range is read back from its decimal rendering, with
      or without a sign. */
  lemma ParseDecimalRoundTrip(n: nat)
    ensures n <= MAX_UINT64 ==> ParseUint64(Decimal(n)) == (n, None)
    ensures n <= MAX_INT64 ==> ParseInt64(Decimal(n)) == (n, None)
    ensures n <= MAX_INT64 ==> ParseInt64("+" + Decimal(n)) == (n, None)
    ensures n <= -MIN_INT64 ==> ParseInt64("-" + Decimal(n)) == (-(n as int), None)
  {
    var d := Decimal(n);
    DecimalValueOfDecimal(n);
    ParseDigits(d);
  }

  /** A run of digits parses to the number it denotes, alone or after
      a sign, when that number is in range. */
  lemma ParseDigits(d: string)
    requires d != "" && AllDigits(d)
    ensures DecimalValue(d) <= MAX_UINT64 ==> ParseUint64(d) == (DecimalValue(d), None)
    ensures DecimalValue(d) <= MAX_INT64 ==> ParseInt64(d) == (DecimalValue(d), None)
    ensures DecimalValue(d) <= MAX_INT64 ==> ParseInt64("+" + d) == (DecimalValue(d), None)
    ensures DecimalValue(d) <= -MIN_INT64 ==> ParseInt64("-" + d) == (-(DecimalValue(d) as int), None)
  {
    assert IsDigit(d[0]);
    ParseSigned(d, d);
    assert ("+" + d)[1..] == d;
    ParseSigned("+" + d, d);
    assert ("-" + d)[1..] == d;
    ParseSigned("-" + d, d);
  }

  /** A signed number whose digits are `d` parses to the signed value of
      `d` when that is in range. */
  lemma ParseSigned(s: string, d: string)
    requires s != "" && Magnitude(s) == d && d != "" && AllDigits(d)
    ensures s[0] != '-' && DecimalValue(d) <= MAX_INT64 ==> ParseInt64(s) == (DecimalValue(d), None)
    ensures s[0] == '-' && DecimalValue(d) <= -MIN_INT64 ==> ParseInt64(s) == (-(DecimalValue(d) as int), None)
  {
  }

  /** Once the digits read so far overflow, a later malformed character
      no longer matters: both parsers report the range error. */
  lemma {:induction false} OverflowBeforeSyntax(d: string, i: nat, t: string)
    requires AllDigits(d) && i <= |d| && DecimalValue(d[..i]) > MAX_UINT64
    requires t == "" || !IsDigit(t[0])
    ensures ParseUint64(d + t) == (MAX_UINT64, Some(ErrRange))
    ensures ParseInt64(d + t) == (MAX_INT64, Some(ErrRange))
    ensures ParseInt64("-" + d + t) == (MIN_INT64, Some(ErrRange))
  {
    DecimalValuePrefix(d, i);
    var s := d + t;
    assert d[..0] == "";
    assert s[0] == d[0] && IsDigit(d[0]);
    DigitRunOfDigits(d, t);
    assert LeadingDigits(s) == d;
    ParseSignedOverflow(s, s);
    assert ("-" + d + t)[1..] == s;
    ParseSignedOverflow("-" + d + t, s);
  }

  /** A signed number whose digits overflow before anything else is met
      is a range error on the side of its sign. */
  lemma ParseSignedOverflow(s: string, m: string)
    requires s != "" && Magnitude(s) == m && DecimalValue(LeadingDigits(m)) > MAX_UINT64
    ensures ParseInt64(s) == (if s[0] == '-' then MIN_INT64 else MAX_INT64, Some(ErrRange))
  {
  }

  /** The scan reads exactly the digits `d` when a non-digit (or the end)
      follows them. */
  lemma {:induction false} DigitRunOfDigits(d: string, t: string)
    requires AllDigits(d)
    requires t == "" || !IsDigit(t[0])
    ensures DigitRun(d + t) == |d|
  {
    if d != [] {
      assert (d + t)[1..] == d[1..] + t;
      DigitRunOfDigits(d[1..], t);
    } else {
      assert d + t == t;
    }
  }
}
