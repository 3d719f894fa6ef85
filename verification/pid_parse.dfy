/** The process id the DUMP request carries as text, read with
    wcstoul(inBuffer, &end, 10) (WdmDriver.c:642) and cast to a HANDLE.

    Modelled as a decimal-prefix parse: the longest run of leading decimal
    digits, no digits reading as 0, a value beyond ULONG_MAX saturating at
    ULONG_MAX. Leading white space and a sign, which wcstoul also accepts,
    are not modelled. */
module PidParse {

  /** ULONG is 32 bits wide on Windows. */
  const ULONG_MAX: nat := 0xFFFF_FFFF

  predicate IsDigit(c: char)
  {
    '0' <= c <= '9'
  }

  predicate AllDigits(s: string)
  {
    forall i :: 0 <= i < |s| ==> IsDigit(s[i])
  }

  function DigitValue(c: char): (d: nat)
    requires IsDigit(c)
    ensures d < 10
  {
    (c as int) - ('0' as int)
  }

  function DigitChar(d: nat): (c: char)
    requires d < 10
    ensures IsDigit(c) && DigitValue(c) == d
  {
    (('0' as int) + d) as char
  }

  /** The length of the leading run of digits: where wcstoul stops. */
  function DigitRun(s: string): (n: nat)
    ensures n <= |s|
    ensures AllDigits(s[..n])
    ensures n < |s| ==> !IsDigit(s[n])
  {
    if |s| == 0 || !IsDigit(s[0]) then 0 else 1 + DigitRun(s[1..])
  }

  /** The value of a string of decimal digits, most significant first. */
  function DecimalValue(digits: string): nat
    requires AllDigits(digits)
  {
    if |digits| == 0 then 0
    else DecimalValue(digits[..|digits| - 1]) * 10 + DigitValue(digits[|digits| - 1])
  }

  /** wcstoul in base 10, saturating at ULONG_MAX. */
  function Wcstoul(s: string): (v: nat)
    ensures v <= ULONG_MAX
  {
    var n := DigitRun(s);
    var d := DecimalValue(s[..n]);
    if d > ULONG_MAX then ULONG_MAX else d
  }

  /** The decimal text of `n`, without leading zeros: what a user types. */
  function Decimal(n: nat): (s: string)
    ensures |s| > 0 && AllDigits(s)
  {
    if n < 10 then [DigitChar(n)] else Decimal(n / 10) + [DigitChar(n % 10)]
  }

  lemma {:induction false} DecimalRoundTrip(n: nat)
    ensures DecimalValue(Decimal(n)) == n
  {
    if n >= 10 {
      var s := Decimal(n);
      assert s[..|s| - 1] == Decimal(n / 10);
      DecimalRoundTrip(n / 10);
    }
  }

  /** The digit run of a digit string followed by anything that does not
      start with a digit is the digit string itself. */
  lemma {:induction false} DigitRunStops(digits: string, rest: string)
    requires AllDigits(digits)
    requires |rest| == 0 || !IsDigit(rest[0])
    ensures DigitRun(digits + rest) == |digits|
    decreases |digits|
  {
    if |digits| > 0 {
      assert (digits + rest)[1..] == digits[1..] + rest;
      DigitRunStops(digits[1..], rest);
    } else {
      assert digits + rest == rest;
    }
  }

  function Pow10(k: nat): (p: nat)
    ensures p > 0
  {
    if k == 0 then 1 else 10 * Pow10(k - 1)
  }

  /** A number below 10^k has at most k decimal digits. */
  lemma {:induction false} DecimalLength(n: nat, k: nat)
    requires 0 < k && n < Pow10(k)
    ensures |Decimal(n)| <= k
  {
    if n >= 10 {
      assert k > 1;
      DecimalLength(n / 10, k - 1);
    }
  }

  /** The decimal text of a ULONG has at most ten digits. */
  lemma DecimalOfUlong(n: nat)
    requires n <= ULONG_MAX
    ensures |Decimal(n)| <= 10
  {
    assert Pow10(10) == 10_000_000_000;
    DecimalLength(n, 10);
  }

  /** Parsing the decimal text of an id in range, terminated by the end of
      the buffer or by any non-digit, gives the id back. */
  lemma WcstoulOfDecimal(n: nat, rest: string)
    requires n <= ULONG_MAX
    requires |rest| == 0 || !IsDigit(rest[0])
    ensures Wcstoul(Decimal(n) + rest) == n
  {
    var s := Decimal(n) + rest;
    DigitRunStops(Decimal(n), rest);
    assert s[..DigitRun(s)] == Decimal(n);
    DecimalRoundTrip(n);
  }
}
