/**
  `Skript.parseInt` and `Skript.parseLong`: parse a string already known to
  match `-?\d+`, and saturate instead of failing when the value does not fit.
*/
module NumberParsing {

  newtype int32 = x: int | -0x8000_0000 <= x < 0x8000_0000
  newtype int64 = x: int | -0x8000_0000_0000_0000 <= x < 0x8000_0000_0000_0000

  const IntMin: int := -0x8000_0000
  const IntMax: int := 0x7fff_ffff
  const LongMin: int := -0x8000_0000_0000_0000
  const LongMax: int := 0x7fff_ffff_ffff_ffff

  datatype Option<T> = None | Some(value: T)

  predicate IsDigit(c: char)
  {
    '0' <= c <= '9'
  }

  predicate AllDigits(s: string)
  {
    forall i :: 0 <= i < |s| ==> IsDigit(s[i])
  }

  predicate StartsWithMinus(s: string)
  {
    |s| > 0 && s[0] == '-'
  }

  /** The digits of a literal: everything after an optional leading minus sign. */
  function Magnitude(s: string): string
  {
    if StartsWithMinus(s) then s[1..] else s
  }

  /** `s` matches `-?\d+`. */
  predicate IsIntegerLiteral(s: string)
  {
    |Magnitude(s)| > 0 && AllDigits(Magnitude(s))
  }

  /** The value of a string of decimal digits, most significant first. */
  function DigitsValue(ds: string): nat
    requires AllDigits(ds)
  {
    if ds == [] then 0
    else 10 * DigitsValue(ds[..|ds| - 1]) + (ds[|ds| - 1] - '0') as nat
  }

  /** The exact integer a literal denotes. */
  function LiteralValue(s: string): int
    requires IsIntegerLiteral(s)
  {
    if StartsWithMinus(s) then -(DigitsValue(s[1..]) as int) else DigitsValue(s)
  }

  /**
    `Integer.parseInt` / `Long.parseLong` on a literal: its value when it lies
    in `[lo, hi]`, otherwise a `NumberFormatException` (`None`).
  */
  function LibraryParse(s: string, lo: int, hi: int): Option<int>
    requires IsIntegerLiteral(s)
  {
    var v := LiteralValue(s);
    if lo <= v <= hi then Some(v) else None
  }

  /**
    The shared body of `parseInt` and `parseLong`: the library's result, or on
    overflow the bound on the side of the literal's sign. It is the value
    clamped to `[lo, hi]`.
  */
  function ParseSaturating(s: string, lo: int, hi: int): (r: int)
    requires IsIntegerLiteral(s) && lo <= 0 <= hi
    ensures lo <= r <= hi
    ensures r == if LiteralValue(s) < lo then lo else if LiteralValue(s) > hi then hi else LiteralValue(s)
  {
    match LibraryParse(s, lo, hi)
    case Some(v) => v
    case None => if StartsWithMinus(s) then lo else hi
  }

  /** `Skript.parseInt`: the exact value when it fits in 32 bits, else `Integer.MIN_VALUE` or `Integer.MAX_VALUE`. */
  function ParseInt(s: string): (r: int32)
    requires IsIntegerLiteral(s)
    ensures IntMin <= LiteralValue(s) <= IntMax ==> r as int == LiteralValue(s)
    ensures LiteralValue(s) < IntMin ==> r as int == IntMin && StartsWithMinus(s)
    ensures LiteralValue(s) > IntMax ==> r as int == IntMax && !StartsWithMinus(s)
  {
    ParseSaturating(s, IntMin, IntMax) as int32
  }

  /** `Skript.parseLong`: the exact value when it fits in 64 bits, else `Long.MIN_VALUE` or `Long.MAX_VALUE`. */
  function ParseLong(s: string): (r: int64)
    requires IsIntegerLiteral(s)
    ensures LongMin <= LiteralValue(s) <= LongMax ==> r as int == LiteralValue(s)
    ensures LiteralValue(s) < LongMin ==> r as int == LongMin && StartsWithMinus(s)
    ensures LiteralValue(s) > LongMax ==> r as int == LongMax && !StartsWithMinus(s)
  {
    ParseSaturating(s, LongMin, LongMax) as int64
  }

  // ---------------------------------------------------------------------
  // Decimal rendering, as `Integer.toString` / `Long.toString` produce it

  function DigitChar(d: nat): char
    requires d < 10
  {
    ('0' as int + d) as char
  }

  function Digits(n: nat): string
  {
    if n < 10 then [DigitChar(n)] else Digits(n / 10) + [DigitChar(n % 10)]
  }

  function Decimal(n: int): string
  {
    if n < 0 then ['-'] + Digits(-n) else Digits(n)
  }

  lemma {:induction false} DigitsRoundTrip(n: nat)
    ensures |Digits(n)| > 0 && AllDigits(Digits(n)) && Digits(n)[0] != '-'
    ensures DigitsValue(Digits(n)) == n
  {
    if n >= 10 {
      DigitsRoundTrip(n / 10);
      var ds := Digits(n);
      assert ds[..|ds| - 1] == Digits(n / 10);
    }
  }

  /** A rendered integer is a literal that denotes that integer. */
  lemma DecimalRoundTrip(n: int)
    ensures IsIntegerLiteral(Decimal(n)) && LiteralValue(Decimal(n)) == n
  {
    if n < 0 {
      DigitsRoundTrip(-n);
      assert Decimal(n)[1..] == Digits(-n);
    } else {
      DigitsRoundTrip(n);
    }
  }

  /** `parseInt` gives back every 32-bit integer from its decimal rendering. */
  lemma ParseIntRoundTrip(n: int32)
    ensures IsIntegerLiteral(Decimal(n as int)) && ParseInt(Decimal(n as int)) == n
  {
    DecimalRoundTrip(n as int);
  }

  /** `parseLong` gives back every 64-bit integer from its decimal rendering. */
  lemma ParseLongRoundTrip(n: int64)
    ensures IsIntegerLiteral(Decimal(n as int)) && ParseLong(Decimal(n as int)) == n
  {
    DecimalRoundTrip(n as int);
  }

  /** Saturation keeps the order of the values parsed. */
  lemma ParseIntMonotonic(s: string, t: string)
    requires IsIntegerLiteral(s) && IsIntegerLiteral(t)
    requires LiteralValue(s) <= LiteralValue(t)
    ensures ParseInt(s) <= ParseInt(t)
  {
  }
}
