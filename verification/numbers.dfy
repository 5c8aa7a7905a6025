/** Decimal text of integers, as produced by `QString::arg` on an integer
    and read back by `QString::toLongLong`. */
module Numbers {

  const Int64Min: int := -0x8000_0000_0000_0000
  const Int64Max: int := 0x7FFF_FFFF_FFFF_FFFF

  predicate IsDigitChar(c: char) {
    '0' <= c <= '9'
  }

  predicate AllDigits(s: string) {
    forall i :: 0 <= i < |s| ==> IsDigitChar(s[i])
  }

  function DigitChar(d: nat): (c: char)
    requires d < 10
    ensures IsDigitChar(c)
  {
    ('0' as int + d) as char
  }

  /** Value of a run of decimal digits, most significant first. */
  function ValueOf(s: string): nat
    requires AllDigits(s)
  {
    if s == [] then 0
    else ValueOf(s[..|s| - 1]) * 10 + (s[|s| - 1] as int - '0' as int)
  }

  /** The shortest decimal digits of `n`: no leading zero, and they read
      back as `n`. */
  function DigitsOf(n: nat): (s: string)
    ensures |s| >= 1 && AllDigits(s)
    ensures |s| > 1 ==> s[0] != '0'
    ensures ValueOf(s) == n
  {
    if n < 10 then [DigitChar(n)]
    else
      var s := DigitsOf(n / 10) + [DigitChar(n % 10)];
      assert s[..|s| - 1] == DigitsOf(n / 10);
      s
  }

  /** `QString::number(n)` and `QString("%1").arg(n)`: a minus sign for
      negative values, then the digits. */
  function Decimal(n: int): (s: string)
    ensures |s| >= 1
    ensures n >= 0 ==> AllDigits(s)
    ensures n < 0 ==> s[0] == '-' && AllDigits(s[1..])
  {
    if n < 0 then "-" + DigitsOf(-n) else DigitsOf(n)
  }

  /** `QString::toLongLong` in base 10 without an `ok` flag: an optional sign
      followed by at least one digit, whose value fits in 64 bits; anything
      else reads as 0. */
  function ParseLongLong(s: string): (v: int)
    ensures Int64Min <= v <= Int64Max
    ensures !(|s| >= 1 && (AllDigits(s) || ((s[0] == '-' || s[0] == '+') && |s| >= 2 && AllDigits(s[1..])))) ==> v == 0
  {
    if |s| >= 1 && AllDigits(s) then
      var v := ValueOf(s);
      if v <= Int64Max then v else 0
    else if |s| >= 2 && (s[0] == '-' || s[0] == '+') && AllDigits(s[1..]) then
      var m: int := ValueOf(s[1..]);
      var v: int := if s[0] == '-' then -m else m;
      if Int64Min <= v <= Int64Max then v else 0
    else 0
  }

  /** Reading back what `Decimal` wrote gives the number, across the whole
      64-bit range. */
  lemma ParseDecimal(n: int)
    requires Int64Min <= n <= Int64Max
    ensures ParseLongLong(Decimal(n)) == n
  {
    if n < 0 {
      var s := Decimal(n);
      assert s[1..] == DigitsOf(-n);
      assert !IsDigitChar(s[0]);
    }
  }
}
