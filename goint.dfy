/**
  Go's 64-bit integers: the range of int64, two's-complement wrap-around of
  `+`, and strconv.ParseInt(s, 10, 64) on decimal text.
*/
module GoInt {
  import opened Scan

  const MinInt64: int := -0x8000_0000_0000_0000
  const MaxInt64: int := 0x7FFF_FFFF_FFFF_FFFF
  const TwoTo64: int := 0x1_0000_0000_0000_0000

  type Int64 = x: int | MinInt64 <= x <= MaxInt64

  /** The int64 that Go's `+` yields for the mathematical sum `x`. */
  function Wrap(x: int): (r: Int64)
    ensures MinInt64 <= x <= MaxInt64 ==> r == x
    ensures x > MaxInt64 ==> r < x
    ensures x < MinInt64 ==> r > x
    ensures (x - r) % TwoTo64 == 0
  {
    var r := (x - MinInt64) % TwoTo64 + MinInt64;
    assert x - r == (x - MinInt64) / TwoTo64 * TwoTo64;
    r
  }

  /** Value of a run of decimal digits, read most significant first; 0 for the empty run. */
  function DecimalValue(ds: string): (n: nat)
    requires AllIn(ds, Digit)
    decreases |ds|
  {
    if ds == [] then 0
    else DecimalValue(ds[..|ds| - 1]) * 10 + (ds[|ds| - 1] as int - '0' as int)
  }

  /** The text of an optional sign followed by one or more decimal digits. */
  predicate IsDecimal(s: string) {
    if |s| > 0 && (s[0] == '-' || s[0] == '+') then Run1(s[1..], Digit) else Run1(s, Digit)
  }

  /** The digits of a decimal text, without its sign. */
  function Magnitude(s: string): (ds: string)
    requires IsDecimal(s)
    ensures Run1(ds, Digit)
  {
    if s[0] == '-' || s[0] == '+' then s[1..] else s
  }

  /**
    strconv.ParseInt(s, 10, 64), value only: an out-of-range number is clamped
    to the nearest int64 (Go returns that value alongside ErrRange), and text
    that is not a signed decimal number yields 0 (Go's value on ErrSyntax).
  */
  function ParseInt(s: string): Int64 {
    if !IsDecimal(s) then 0
    else
      var n := DecimalValue(Magnitude(s));
      if s[0] == '-' then (if n <= -MinInt64 then -(n as int) else MinInt64)
      else (if n <= MaxInt64 then n else MaxInt64)
  }

  /** A leading minus sign is the only way to get a negative value, and a non-zero magnitude is needed for it. */
  lemma ParseIntNegative(s: string)
    ensures ParseInt(s) < 0 <==> IsDecimal(s) && s[0] == '-' && DecimalValue(Magnitude(s)) > 0
  {
  }

  /** The decimal digits of `n`, most significant first, without leading zeros. */
  function Digits(n: nat): (ds: string)
    ensures Run1(ds, Digit)
  {
    var last := ['0' + ((n % 10) as char)];
    if n < 10 then last else Digits(n / 10) + last
  }

  /** fmt.Sprint of an integer: a minus sign for a negative value, then its digits. */
  function FormatInt(v: int): (r: string)
    ensures |r| > 0 && (r[0] == '-' <==> v < 0)
  {
    if v < 0 then "-" + Digits(-v) else Digits(v)
  }

  /** Reading the digits of `n` back gives `n`. */
  lemma {:induction false} DigitsValue(n: nat)
    ensures DecimalValue(Digits(n)) == n
  {
    var ds := Digits(n);
    if n >= 10 {
      DigitsValue(n / 10);
      assert ds[..|ds| - 1] == Digits(n / 10);
    }
  }

  /** strconv.ParseInt reads back every int64 that fmt.Sprint writes: the round trip of the stored expiry is exact. */
  lemma FormatParses(v: Int64)
    ensures IsDecimal(FormatInt(v))
    ensures ParseInt(FormatInt(v)) == v
  {
    var s := FormatInt(v);
    if v < 0 {
      DigitsValue(-(v as int));
      assert s[1..] == Digits(-(v as int));
    } else {
      DigitsValue(v);
    }
  }
}
