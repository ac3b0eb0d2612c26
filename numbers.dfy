/**
 * Integer parsing and printing as the JVM does it: `String.toLong(radix)` (which is
 * `java.lang.Long.parseLong`), Kotlin's `String.toIntOrNull()` and `Long.toString(radix)`.
 * Values are unbounded integers; the 64- and 32-bit ranges are explicit bounds.
 */
module Numbers {
  import opened Wrappers

  const LONG_MIN: int := -0x8000_0000_0000_0000
  const LONG_MAX: int := 0x7FFF_FFFF_FFFF_FFFF
  const INT_MIN: int := -0x8000_0000
  const INT_MAX: int := 0x7FFF_FFFF

  /** `Character.digit(c, radix)` on ASCII: the digit's value, or -1 when `c` is not a digit of `radix`. */
  function DigitOf(c: char, radix: nat): (d: int)
    ensures d == -1 || 0 <= d < radix
  {
    var v :=
      if '0' <= c <= '9' then c as int - '0' as int
      else if 'a' <= c <= 'z' then c as int - 'a' as int + 10
      else if 'A' <= c <= 'Z' then c as int - 'A' as int + 10
      else -1;
    if 0 <= v < radix then v else -1
  }

  /** The character `Long.toString(radix)` prints for a digit: `0`-`9`, then lower-case `a`-`z`. */
  function DigitChar(d: nat): (c: char)
    requires d < 36
    ensures '0' <= c <= '9' || 'a' <= c <= 'z'
  {
    if d < 10 then ('0' as int + d) as char else ('a' as int + d - 10) as char
  }

  predicate AllDigits(s: string, radix: nat) {
    forall i | 0 <= i < |s| :: DigitOf(s[i], radix) >= 0
  }

  /** The value of a run of digits, most significant first. */
  function DigitsValue(s: string, radix: nat): nat
    requires AllDigits(s, radix)
  {
    if |s| == 0 then 0
    else DigitsValue(s[..|s| - 1], radix) * radix + DigitOf(s[|s| - 1], radix)
  }

  /** The digits of `n` in `radix` without sign or leading zeros. */
  function Digits(n: nat, radix: nat): (s: string)
    requires 2 <= radix <= 36
    ensures |s| >= 1
    ensures forall i | 0 <= i < |s| :: '0' <= s[i] <= '9' || 'a' <= s[i] <= 'z'
    decreases n
  {
    if n < radix then [DigitChar(n)]
    else Digits(n / radix, radix) + [DigitChar(n % radix)]
  }

  /** `Long.toString(radix)`: a leading `-` for negative values, then the digits. */
  function ToStringRadix(v: int, radix: nat): string
    requires 2 <= radix <= 36
  {
    if v < 0 then "-" + Digits(-v, radix) else Digits(v, radix)
  }

  /** The decimal rendering Kotlin's string templates use for a count. */
  function NatToString(n: nat): string {
    Digits(n, 10)
  }

  /**
   * `Long.parseLong(s, radix)` (bounds LONG_MIN..LONG_MAX) and `toIntOrNull(radix)` (bounds
   * INT_MIN..INT_MAX): an optional `-` or `+`, then at least one digit of the radix, and the
   * value must lie within the bounds; anything else is None (a NumberFormatException or null).
   */
  function ParseSigned(s: string, radix: nat, min: int, max: int): Option<int>
  {
    if |s| == 0 then None
    else if s[0] < '0' && ((s[0] != '-' && s[0] != '+') || |s| == 1) then None
    else
      var digits := if s[0] < '0' then s[1..] else s;
      if !AllDigits(digits, radix) then None
      else
        var v: int := if s[0] == '-' then -(DigitsValue(digits, radix) as int) else DigitsValue(digits, radix);
        if min <= v <= max then Some(v) else None
  }

  lemma DigitOfDigitChar(d: nat, radix: nat)
    requires d < radix <= 36
    ensures DigitOf(DigitChar(d), radix) == d
  {
  }

  /** Printing a number and reading it back in the same radix gives the number again. */
  lemma {:induction false} DigitsRoundTrip(n: nat, radix: nat)
    requires 2 <= radix <= 36
    ensures AllDigits(Digits(n, radix), radix)
    ensures DigitsValue(Digits(n, radix), radix) == n
    decreases n
  {
    if n < radix {
      var s := [DigitChar(n)];
      assert s == Digits(n, radix);
      DigitOfDigitChar(n, radix);
      assert s[..0] == [];
      assert DigitsValue(s, radix) == 0 * radix + n;
    } else {
      var h, d := n / radix, n % radix;
      DivMod(n, radix);
      var hs := Digits(h, radix);
      assert Digits(n, radix) == hs + [DigitChar(d)];
      DigitsRoundTrip(h, radix);
      DigitOfDigitChar(d, radix);
      AppendDigit(hs, DigitChar(d), radix);
      assert DigitsValue(hs + [DigitChar(d)], radix) == h * radix + d;
    }
  }

  /** Appending one digit multiplies the value by the radix and adds the digit. */
  lemma AppendDigit(s: string, c: char, radix: nat)
    requires AllDigits(s, radix) && DigitOf(c, radix) >= 0
    ensures AllDigits(s + [c], radix)
    ensures DigitsValue(s + [c], radix) == DigitsValue(s, radix) * radix + DigitOf(c, radix)
  {
    assert (s + [c])[..|s|] == s;
  }

  lemma DivMod(n: nat, radix: nat)
    requires radix > 0
    ensures (n / radix) * radix + n % radix == n
    ensures 0 <= n % radix < radix
    ensures radix >= 2 && n >= radix ==> n / radix < n
  {
  }

  /** `parseLong(toString(v, radix), radix) == v` for every value in range. */
  lemma SignedRoundTrip(v: int, radix: nat, min: int, max: int)
    requires 2 <= radix <= 36
    requires min <= v <= max
    ensures ParseSigned(ToStringRadix(v, radix), radix, min, max) == Some(v)
  {
    var s := ToStringRadix(v, radix);
    if v < 0 {
      var d := Digits(-v, radix);
      DigitsRoundTrip(-v, radix);
      assert s == "-" + d;
      assert s[1..] == d;
      ParseNegative(s, radix, min, max);
    } else {
      var d := Digits(v, radix);
      DigitsRoundTrip(v, radix);
      assert '0' <= d[0];
      ParseUnsigned(d, radix, min, max);
    }
  }

  /** A `-` and a run of digits is read as the negated value of the digits. */
  lemma ParseNegative(s: string, radix: nat, min: int, max: int)
    requires |s| >= 2 && s[0] == '-' && AllDigits(s[1..], radix)
    ensures var v := -(DigitsValue(s[1..], radix) as int);
      ParseSigned(s, radix, min, max) == if min <= v <= max then Some(v) else None
  {
  }

  /** A run of digits without a sign is read as its value. */
  lemma ParseUnsigned(s: string, radix: nat, min: int, max: int)
    requires |s| >= 1 && '0' <= s[0] && AllDigits(s, radix)
    ensures var v := DigitsValue(s, radix) as int;
      ParseSigned(s, radix, min, max) == if min <= v <= max then Some(v) else None
  {
  }

  /** A natural number printed in decimal is read back by `toIntOrNull` exactly when it fits in 32 bits. */
  lemma ParseDecimal(n: nat)
    ensures AllDigits(NatToString(n), 10)
    ensures ParseSigned(NatToString(n), 10, INT_MIN, INT_MAX) == if n <= INT_MAX then Some(n) else None
  {
    DigitsRoundTrip(n, 10);
    assert NatToString(n)[0] >= '0';
    ParseUnsigned(NatToString(n), 10, INT_MIN, INT_MAX);
  }

  /** Whatever ParseSigned accepts lies within the bounds it was given. */
  lemma ParseSignedBounds(s: string, radix: nat, min: int, max: int)
    ensures ParseSigned(s, radix, min, max).Some? ==> min <= ParseSigned(s, radix, min, max).value <= max
  {
  }
}
