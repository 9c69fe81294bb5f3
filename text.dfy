/** Decimal text as the handlers read and write it: `BigInt(s)` on request
    fields and `toString()` on ids. */
module Text {
  import opened Web

  predicate IsDigit(c: char) {
    '0' <= c <= '9'
  }

  function DigitValue(c: char): int {
    c as int - '0' as int
  }

  function Digit(d: int): (c: char)
    requires 0 <= d < 10
    ensures IsDigit(c) && DigitValue(c) == d
  {
    ('0' as int + d) as char
  }

  predicate AllDigits(s: string) {
    forall i :: 0 <= i < |s| ==> IsDigit(s[i])
  }

  /** The number a non-empty string of decimal digits denotes. */
  function DecimalValue(s: string): nat
    requires AllDigits(s)
  {
    if s == [] then 0 else 10 * DecimalValue(s[..|s| - 1]) + DigitValue(s[|s| - 1])
  }

  /** The decimal digits of `n`, without leading zeros. */
  function Decimal(n: nat): (s: string)
    ensures |s| > 0 && AllDigits(s)
  {
    if n < 10 then [Digit(n)] else Decimal(n / 10) + [Digit(n % 10)]
  }

  /** `n.toString()` of a bigint. */
  function IntToString(n: int): (s: string)
    ensures s != ""
  {
    if n < 0 then "-" + Decimal(-n) else Decimal(n)
  }

  /** `BigInt(s)` on a request field: the empty string is `0n`, a `-` or a
      `+` may precede the digits, and anything else throws (`None`). */
  function ParseBigInt(s: string): (r: Option<int>)
    ensures s == "" ==> r == Some(0)
    ensures r.Some? && s != "" ==> AllDigits(s) || (s[0] in "+-" && |s| > 1 && AllDigits(s[1..]))
    ensures s != "" && AllDigits(s) ==> r == Some(DecimalValue(s))
    ensures |s| > 1 && s[0] == '-' && AllDigits(s[1..]) ==> r == Some(-(DecimalValue(s[1..]) as int))
    ensures |s| > 1 && s[0] == '+' && AllDigits(s[1..]) ==> r == Some(DecimalValue(s[1..]) as int)
  {
    if s == "" then Some(0)
    else if s[0] == '-' || s[0] == '+' then
      if |s| > 1 && AllDigits(s[1..]) then
        Some(if s[0] == '-' then -(DecimalValue(s[1..]) as int) else DecimalValue(s[1..]))
      else None
    else if AllDigits(s) then Some(DecimalValue(s))
    else None
  }

  /** An optional parameter read with `BigInt` only when given: absent or
      empty is fine, anything else must be a number. */
  predicate Readable(p: Option<string>) {
    Given(p) ==> ParseBigInt(p.value).Some?
  }

  /** The value of an optional parameter; `None` when absent or empty. */
  function OptionalId(p: Option<string>): (r: Option<int>)
    requires Readable(p)
    ensures r.Some? <==> Given(p)
  {
    if Given(p) then ParseBigInt(p.value) else None
  }

  lemma {:induction false} DecimalRoundTrip(n: nat)
    ensures DecimalValue(Decimal(n)) == n
  {
    if n >= 10 {
      DecimalRoundTrip(n / 10);
      var s := Decimal(n);
      assert s[..|s| - 1] == Decimal(n / 10);
    }
  }

  /** `BigInt(n.toString())` gives `n` back. */
  lemma ParseIntToString(n: int)
    ensures ParseBigInt(IntToString(n)) == Some(n)
  {
    var s := IntToString(n);
    if n < 0 {
      DecimalRoundTrip(-n);
      assert s[1..] == Decimal(-n);
    } else {
      DecimalRoundTrip(n);
    }
  }

  /** Distinct ids print differently. */
  lemma IntToStringInjective(a: int, b: int)
    ensures IntToString(a) == IntToString(b) <==> a == b
  {
    if IntToString(a) == IntToString(b) {
      ParseIntToString(a);
      ParseIntToString(b);
    }
  }
}
