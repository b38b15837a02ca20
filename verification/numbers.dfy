/** Decimal integers as the protocol layer writes them (`fmt`'s `%d`) and reads them
    (`strconv.Atoi` on a 64-bit platform). */
module Numbers {
  import opened Results

  const MinInt64: int := -0x8000_0000_0000_0000
  const MaxInt64: int := 0x7FFF_FFFF_FFFF_FFFF

  predicate IsDigit(c: char) {
    '0' <= c <= '9'
  }

  predicate AllDigits(s: string) {
    forall i :: 0 <= i < |s| ==> IsDigit(s[i])
  }

  function DigitChar(d: int): (c: char)
    requires 0 <= d < 10
    ensures IsDigit(c)
  {
    ('0' as int + d) as char
  }

  function DigitValue(c: char): (d: nat)
    requires IsDigit(c)
    ensures d < 10
  {
    c as int - '0' as int
  }

  /** The value of a run of decimal digits, most significant first. */
  function DecimalValue(s: string): nat
    requires AllDigits(s)
  {
    if |s| == 0 then 0 else 10 * DecimalValue(s[..|s| - 1]) + DigitValue(s[|s| - 1])
  }

  /** The shortest decimal spelling of a natural number. */
  function NatToDecimal(n: nat): (r: string)
    ensures |r| >= 1 && AllDigits(r)
    ensures |r| > 1 ==> r[0] != '0'
  {
    if n < 10 then [DigitChar(n)] else NatToDecimal(n / 10) + [DigitChar(n % 10)]
  }

  /** `fmt`'s `%d`: a minus sign for negative numbers, then the decimal digits. */
  function IntToDecimal(n: int): (r: string)
    ensures |r| >= 1
    ensures n >= 0 ==> AllDigits(r)
    ensures n < 0 ==> r[0] == '-' && AllDigits(r[1..])
  {
    if n < 0 then "-" + NatToDecimal(-n) else NatToDecimal(n)
  }

  /** Reading back the digits of `NatToDecimal(n)` gives `n`. */
  lemma {:induction false} DecimalValueOfNat(n: nat)
    ensures DecimalValue(NatToDecimal(n)) == n
  {
    var r := NatToDecimal(n);
    if n >= 10 {
      DecimalValueOfNat(n / 10);
      assert r[..|r| - 1] == NatToDecimal(n / 10);
    }
  }

  /** Go's `strconv.Atoi` on a 64-bit platform: an optional `+` or `-`, then at least one
      decimal digit and nothing else, with a value that fits in an `int64`. `None` is the
      error return. */
  function Atoi(s: string): (r: Option<int>)
    ensures r.Some? ==> |s| >= 1 && MinInt64 <= r.value <= MaxInt64
    ensures r.Some? ==> (s[0] == '-' ==> r.value <= 0) && (s[0] != '-' ==> r.value >= 0)
  {
    var signed := |s| > 0 && (s[0] == '+' || s[0] == '-');
    var digits := if signed then s[1..] else s;
    if |digits| == 0 || !AllDigits(digits) then None
    else
      var v: int := if signed && s[0] == '-' then 0 - DecimalValue(digits) as int else DecimalValue(digits);
      if MinInt64 <= v <= MaxInt64 then Some(v) else None
  }

  /** `strconv.Atoi` reads back exactly what `%d` writes, for every `int64`. */
  lemma AtoiOfDecimal(n: int)
    requires MinInt64 <= n <= MaxInt64
    ensures Atoi(IntToDecimal(n)) == Some(n)
  {
    var r := IntToDecimal(n);
    if n < 0 {
      DecimalValueOfNat(-n);
      assert r[1..] == NatToDecimal(-n);
    } else {
      DecimalValueOfNat(n);
    }
  }
}
