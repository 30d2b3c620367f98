/**
 * Integers as the server writes them (`%d`, `{code}`, `{size}`) in decimal,
 * and as MicroPython's `int()` reads them back
 * (`int(headers.get('Content-Length', 0))`).
 */
module Decimal {
  import opened Base
  import opened Text

  predicate IsDigit(c: char) {
    '0' <= c <= '9'
  }

  predicate AllDigits(s: string) {
    forall j :: 0 <= j < |s| ==> IsDigit(s[j])
  }

  function Digit(d: nat): (c: char)
    requires d < 10
    ensures IsDigit(c) && c as int - '0' as int == d
  {
    ('0' as int + d) as char
  }

  /** The digits of `n`, most significant first, without leading zeros. */
  function FormatNat(n: nat): (r: string)
    ensures |r| > 0 && AllDigits(r)
    ensures r[0] == '0' ==> n == 0
  {
    if n < 10 then [Digit(n)] else FormatNat(n / 10) + [Digit(n % 10)]
  }

  /** `"%d" % n`. */
  function FormatInt(n: int): string {
    if n < 0 then "-" + FormatNat(-n) else FormatNat(n)
  }

  /** The value of a string of digits. */
  function DigitsValue(s: string): nat
    requires AllDigits(s)
  {
    if s == [] then 0 else DigitsValue(s[..|s| - 1]) * 10 + (s[|s| - 1] as int - '0' as int)
  }

  /** The value of `c` as a digit of a base up to 36: `0`-`9`, then `a`-`z` in either case. */
  function DigitOf(c: char): Option<nat> {
    if '0' <= c <= '9' then Some(c as int - '0' as int)
    else if 'a' <= c <= 'z' then Some(c as int - 'a' as int + 10)
    else if 'A' <= c <= 'Z' then Some(c as int - 'A' as int + 10)
    else None
  }

  /**
   * The digit loop of the integer parser, left to right from the value `acc`:
   * `_` is skipped wherever it stands, and every other character must be a
   * digit below `base`.
   */
  function DigitsIn(u: string, base: nat, acc: nat): Option<nat>
    decreases |u|
  {
    if u == [] then Some(acc)
    else if u[0] == '_' then DigitsIn(u[1..], base, acc)
    else match DigitOf(u[0])
      case None => None
      case Some(d) => if d < base then DigitsIn(u[1..], base, acc * base + d) else None
  }

  /** The base an optional `0x`, `0o` or `0b` prefix selects, in either case, and what follows it; a lone `0` is no prefix. */
  function BaseOf(r: string): (string, nat) {
    if |r| <= 1 || r[0] != '0' then (r, 10)
    else if r[1] == 'x' || r[1] == 'X' then (r[2..], 16)
    else if r[1] == 'o' || r[1] == 'O' then (r[2..], 8)
    else if r[1] == 'b' || r[1] == 'B' then (r[2..], 2)
    else (r, 10)
  }

  /**
   * `int(s)` on a string, as MicroPython reads it with no base given:
   * surrounding whitespace, an optional sign, an optional base prefix, then
   * at least one character of digits of that base and `_`. Anything else is a
   * `ValueError`, here None.
   */
  function ParseInt(s: string): Option<int> {
    ParseSigned(Strip(s))
  }

  /** `int()` after the whitespace: an optional sign before the magnitude. */
  function ParseSigned(t: string): Option<int> {
    if t != [] && t[0] == '-' then
      match ParseMagnitude(t[1..]) case None => None case Some(v) => Some(-v)
    else if t != [] && t[0] == '+' then ParseMagnitude(t[1..])
    else ParseMagnitude(t)
  }

  /** `int()` after the sign: an optional base prefix, then at least one digit or `_`. */
  function ParseMagnitude(r: string): Option<int> {
    var (u, base) := BaseOf(r);
    if u == [] then None
    else match DigitsIn(u, base, 0) case None => None case Some(v) => Some(v)
  }

  /** One more character at the end: the loop continues from the value of the rest. */
  lemma {:induction false} DigitsInSnoc(u: string, c: char, base: nat, acc: nat)
    ensures DigitsIn(u + [c], base, acc) ==
      match DigitsIn(u, base, acc) case None => None case Some(v) => DigitsIn([c], base, v)
    decreases |u|
  {
    if u == [] {
      assert u + [c] == [c];
    } else {
      assert (u + [c])[0] == u[0] && (u + [c])[1..] == u[1..] + [c];
      if u[0] == '_' {
        DigitsInSnoc(u[1..], c, base, acc);
      } else if DigitOf(u[0]).Some? && DigitOf(u[0]).value < base {
        DigitsInSnoc(u[1..], c, base, acc * base + DigitOf(u[0]).value);
      }
    }
  }

  /** Plain decimal digits read with base 10 have their decimal value. */
  lemma {:induction false} DigitsInDecimal(s: string)
    requires AllDigits(s)
    ensures DigitsIn(s, 10, 0) == Some(DigitsValue(s))
    decreases |s|
  {
    if s != [] {
      var init := s[..|s| - 1];
      var c := s[|s| - 1];
      assert init + [c] == s;
      DigitsInDecimal(init);
      DigitsInSnoc(init, c, 10, 0);
    }
  }

  /** An underscore anywhere among the digits changes nothing. */
  lemma {:induction false} UnderscoreIgnored(a: string, b: string, base: nat, acc: nat)
    ensures DigitsIn(a + "_" + b, base, acc) == DigitsIn(a + b, base, acc)
    decreases |a|
  {
    if a == [] {
      assert a + "_" + b == "_" + b && ("_" + b)[1..] == b && a + b == b;
    } else {
      assert (a + "_" + b)[0] == a[0] && (a + "_" + b)[1..] == a[1..] + "_" + b;
      assert (a + b)[0] == a[0] && (a + b)[1..] == a[1..] + b;
      if a[0] == '_' {
        UnderscoreIgnored(a[1..], b, base, acc);
      } else if DigitOf(a[0]).Some? && DigitOf(a[0]).value < base {
        UnderscoreIgnored(a[1..], b, base, acc * base + DigitOf(a[0]).value);
      }
    }
  }

  /** `int()` skips digit separators: `1_0` is ten. */
  lemma SeparatorForm()
    ensures ParseInt("1_0") == Some(10)
  {
    StripTrimmedId("1_0");
    assert BaseOf("1_0") == ("1_0", 10);
    assert DigitsIn("0", 10, 1) == Some(10);
    assert DigitsIn("_0", 10, 1) == Some(10);
  }

  /** `int()` reads a hexadecimal prefix: `0x10` is sixteen. */
  lemma HexForm()
    ensures ParseInt("0x10") == Some(16)
  {
    StripTrimmedId("0x10");
    assert "0x10"[0] == '0' && "0x10"[1] == 'x' && "0x10"[2..] == "10";
    assert DigitsIn("0", 16, 1) == Some(16);
  }

  /** `int()` reads a binary prefix after a sign: `-0b11` is minus three. */
  lemma SignedBinaryForm()
    ensures ParseInt("-0b11") == Some(-3)
  {
    StripTrimmedId("-0b11");
    assert "-0b11"[0] == '-' && "-0b11"[1..] == "0b11";
    assert "0b11"[0] == '0' && "0b11"[1] == 'b' && "0b11"[2..] == "11";
    assert DigitsIn("1", 2, 1) == Some(3);
    assert ParseMagnitude("0b11") == Some(3);
  }

  /** A leading zero is not octal: `010` is ten. */
  lemma LeadingZeroForm()
    ensures ParseInt("010") == Some(10)
  {
    StripTrimmedId("010");
    assert BaseOf("010") == ("010", 10);
    assert DigitsIn("0", 10, 1) == Some(10);
    assert DigitsIn("10", 10, 0) == Some(10);
  }

  /** A base prefix with no digits after it is a `ValueError`. */
  lemma BarePrefixForm()
    ensures ParseInt("0x") == None
  {
    StripTrimmedId("0x");
    assert "0x"[0] == '0' && "0x"[1] == 'x' && "0x"[2..] == [];
  }

  lemma {:induction false} DigitsValueFormat(n: nat)
    ensures DigitsValue(FormatNat(n)) == n
  {
    if n >= 10 {
      var r := FormatNat(n);
      DigitsValueFormat(n / 10);
      assert r[..|r| - 1] == FormatNat(n / 10);
    }
  }

  /** `int()` reads back what `%d` writes. */
  lemma ParseFormat(n: int)
    ensures ParseInt(FormatInt(n)) == Some(n)
  {
    var s := FormatInt(n);
    FormatTrimmed(n);
    if n < 0 {
      assert s[0] == '-' && s[1..] == FormatNat(-n);
      MagnitudeFormat(-n);
    } else {
      assert s[0] != '-' && s[0] != '+';
      MagnitudeFormat(n);
    }
  }

  /** What `%d` writes has no surrounding whitespace. */
  lemma FormatTrimmed(n: int)
    ensures Strip(FormatInt(n)) == FormatInt(n)
  {
    var s := FormatInt(n);
    var f := FormatNat(if n < 0 then -n else n);
    assert s[|s| - 1] == f[|f| - 1];
    assert IsDigit(f[|f| - 1]);
    assert s[0] == '-' || IsDigit(s[0]);
    StripTrimmedId(s);
  }

  /** The digits `%d` writes for a magnitude read back with no prefix in base 10. */
  lemma MagnitudeFormat(m: nat)
    ensures ParseMagnitude(FormatNat(m)) == Some(m)
  {
    var f := FormatNat(m);
    assert BaseOf(f) == (f, 10);
    DigitsInDecimal(f);
    DigitsValueFormat(m);
  }
}
