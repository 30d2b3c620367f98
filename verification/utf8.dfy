/**
 * UTF-8 as `str.encode()` and `bytes.decode()` use it (RFC 3629): the
 * server decodes request lines, header lines and `filename=` lines, encodes
 * every response, and text-mode file reads and writes go through the same
 * pair. `Decode` is strict: it rejects overlong forms, surrogates and code
 * points above U+10FFFF. MicroPython's `bytes.decode()` is laxer and raises
 * `UnicodeError` only where lead and continuation bytes are out of place
 * (`Framed`); every input `Decode` accepts is framed (`DecodeFramed`), and
 * `LaxForms` shows inputs that are framed but not accepted.
 */
module Utf8 {
  import opened Base

  predicate IsContinuation(b: Byte) {
    0x80 <= b < 0xC0
  }

  /** The UTF-8 form of one character: one to four bytes. */
  function EncodeChar(c: char): (r: Bytes)
    ensures 1 <= |r| <= 4
  {
    var n := c as int;
    if n < 0x80 then [n]
    else if n < 0x800 then [0xC0 + n / 0x40, 0x80 + n % 0x40]
    else if n < 0x1_0000 then [0xE0 + n / 0x1000, 0x80 + n / 0x40 % 0x40, 0x80 + n % 0x40]
    else [0xF0 + n / 0x4_0000, 0x80 + n / 0x1000 % 0x40, 0x80 + n / 0x40 % 0x40, 0x80 + n % 0x40]
  }

  /** `s.encode()`: each character's bytes, in order. */
  function Encode(s: string): (r: Bytes) {
    Concat(seq(|s|, i requires 0 <= i < |s| => EncodeChar(s[i])))
  }

  /** Encoding a non-empty string: its first character's bytes, then the rest encoded. */
  lemma EncodeCons(s: string)
    requires s != []
    ensures Encode(s) == EncodeChar(s[0]) + Encode(s[1..])
  {
    var xs := seq(|s|, i requires 0 <= i < |s| => EncodeChar(s[i]));
    assert xs[1..] == seq(|s[1..]|, i requires 0 <= i < |s[1..]| => EncodeChar(s[1..][i]));
  }

  /** The first character of `b` and how many bytes it takes, or None if `b` does not start with one. */
  function DecodeChar(b: Bytes): (r: Option<(char, nat)>)
    requires |b| > 0
    ensures r.Some? ==> 1 <= r.value.1 <= |b|
  {
    var b0 := b[0] as int;
    if b0 < 0x80 then Some((b0 as char, 1))
    else if 0xC2 <= b0 < 0xE0 then
      if |b| >= 2 && IsContinuation(b[1]) then
        Some((((b0 - 0xC0) * 0x40 + (b[1] as int - 0x80)) as char, 2))
      else None
    else if 0xE0 <= b0 < 0xF0 then
      if |b| >= 3 && IsContinuation(b[1]) && IsContinuation(b[2]) then
        var n := (b0 - 0xE0) * 0x1000 + (b[1] as int - 0x80) * 0x40 + (b[2] as int - 0x80);
        if 0x800 <= n && !(0xD800 <= n < 0xE000) then Some((n as char, 3)) else None
      else None
    else if 0xF0 <= b0 < 0xF5 then
      if |b| >= 4 && IsContinuation(b[1]) && IsContinuation(b[2]) && IsContinuation(b[3]) then
        var n := (b0 - 0xF0) * 0x4_0000 + (b[1] as int - 0x80) * 0x1000 + (b[2] as int - 0x80) * 0x40 + (b[3] as int - 0x80);
        if 0x1_0000 <= n < 0x11_0000 then Some((n as char, 4)) else None
      else None
    else None
  }

  /** `b.decode()`: None where Python raises. */
  function Decode(b: Bytes): Option<string>
    decreases |b|
  {
    if b == [] then Some([])
    else
      match DecodeChar(b)
      case None => None
      case Some((c, k)) =>
        match Decode(b[k..])
        case None => None
        case Some(s) => Some([c] + s)
  }

  /** Division facts for the byte fields of a code point. */
  lemma Digits64(q: int, r: int)
    requires 0 <= r < 0x40
    ensures (q * 0x40 + r) / 0x40 == q && (q * 0x40 + r) % 0x40 == r
  {
  }

  lemma DecodeEncodeChar(c: char, rest: Bytes)
    ensures DecodeChar(EncodeChar(c) + rest) == Some((c, |EncodeChar(c)|))
  {
    var n := c as int;
    if n < 0x80 {
      assert (EncodeChar(c) + rest)[0] == n;
    } else if n < 0x800 {
      DecodeEncodeTwo(c, rest);
    } else if n < 0x1_0000 {
      DecodeEncodeThree(c, rest);
    } else {
      DecodeEncodeFour(c, rest);
    }
  }

  lemma DecodeEncodeTwo(c: char, rest: Bytes)
    requires 0x80 <= c as int < 0x800
    ensures DecodeChar(EncodeChar(c) + rest) == Some((c, 2))
  {
    var n := c as int;
    var b := EncodeChar(c) + rest;
    assert b[0] == 0xC0 + n / 0x40 && b[1] == 0x80 + n % 0x40;
    assert (n / 0x40) * 0x40 + n % 0x40 == n;
  }

  lemma DecodeEncodeThree(c: char, rest: Bytes)
    requires 0x800 <= c as int < 0x1_0000
    ensures DecodeChar(EncodeChar(c) + rest) == Some((c, 3))
  {
    var n := c as int;
    var b := EncodeChar(c) + rest;
    var q := n / 0x40;
    assert q * 0x40 + n % 0x40 == n;
    assert (q / 0x40) * 0x40 + q % 0x40 == q;
    assert n / 0x1000 == q / 0x40;
    assert b[0] == 0xE0 + n / 0x1000 && b[1] == 0x80 + q % 0x40 && b[2] == 0x80 + n % 0x40;
    assert (n / 0x1000) * 0x1000 + (q % 0x40) * 0x40 + n % 0x40 == n;
  }

  lemma DecodeEncodeFour(c: char, rest: Bytes)
    requires 0x1_0000 <= c as int
    ensures DecodeChar(EncodeChar(c) + rest) == Some((c, 4))
  {
    var n := c as int;
    var b := EncodeChar(c) + rest;
    var q := n / 0x40;
    var q2 := q / 0x40;
    assert q * 0x40 + n % 0x40 == n;
    assert q2 * 0x40 + q % 0x40 == q;
    assert (q2 / 0x40) * 0x40 + q2 % 0x40 == q2;
    assert n / 0x1000 == q2;
    assert n / 0x4_0000 == q2 / 0x40;
    assert b[0] == 0xF0 + q2 / 0x40 && b[1] == 0x80 + q2 % 0x40;
    assert b[2] == 0x80 + q % 0x40 && b[3] == 0x80 + n % 0x40;
    assert (q2 / 0x40) * 0x4_0000 + (q2 % 0x40) * 0x1000 + (q % 0x40) * 0x40 + n % 0x40 == n;
  }

  /** Decoding recovers every encoded string. */
  lemma {:induction false} DecodeEncode(s: string)
    ensures Decode(Encode(s)) == Some(s)
    decreases |s|
  {
    if s != [] {
      var e := EncodeChar(s[0]);
      var rest := Encode(s[1..]);
      EncodeCons(s);
      DecodeEncodeChar(s[0], rest);
      assert (e + rest)[|e|..] == rest;
      DecodeEncode(s[1..]);
      assert [s[0]] + s[1..] == s;
    }
  }

  lemma EncodeDecodeChar(b: Bytes)
    requires |b| > 0 && DecodeChar(b).Some?
    ensures EncodeChar(DecodeChar(b).value.0) == b[..DecodeChar(b).value.1]
  {
    var b0 := b[0] as int;
    if b0 < 0x80 {
      assert b[..1] == [b0];
    } else if b0 < 0xE0 {
      EncodeDecodeTwo(b);
    } else if b0 < 0xF0 {
      EncodeDecodeThree(b);
    } else {
      EncodeDecodeFour(b);
    }
  }

  lemma EncodeDecodeTwo(b: Bytes)
    requires |b| > 0 && DecodeChar(b).Some? && 0x80 <= b[0] < 0xE0
    ensures EncodeChar(DecodeChar(b).value.0) == b[..2]
  {
    Digits64(b[0] as int - 0xC0, b[1] as int - 0x80);
    assert b[..2] == [b[0], b[1]];
  }

  lemma EncodeDecodeThree(b: Bytes)
    requires |b| > 0 && DecodeChar(b).Some? && 0xE0 <= b[0] < 0xF0
    ensures EncodeChar(DecodeChar(b).value.0) == b[..3]
  {
    var n := DecodeChar(b).value.0 as int;
    var q := (b[0] as int - 0xE0) * 0x40 + (b[1] as int - 0x80);
    assert n == q * 0x40 + (b[2] as int - 0x80);
    Digits64(q, b[2] as int - 0x80);
    Digits64(b[0] as int - 0xE0, b[1] as int - 0x80);
    assert n / 0x1000 == q / 0x40;
    assert b[..3] == [b[0], b[1], b[2]];
  }

  lemma EncodeDecodeFour(b: Bytes)
    requires |b| > 0 && DecodeChar(b).Some? && 0xF0 <= b[0]
    ensures EncodeChar(DecodeChar(b).value.0) == b[..4]
  {
    var n := DecodeChar(b).value.0 as int;
    var q2 := (b[0] as int - 0xF0) * 0x40 + (b[1] as int - 0x80);
    var q := q2 * 0x40 + (b[2] as int - 0x80);
    assert n == q * 0x40 + (b[3] as int - 0x80);
    Digits64(q, b[3] as int - 0x80);
    Digits64(q2, b[2] as int - 0x80);
    Digits64(b[0] as int - 0xF0, b[1] as int - 0x80);
    assert n / 0x1000 == q2;
    assert n / 0x4_0000 == q2 / 0x40;
    assert b[..4] == [b[0], b[1], b[2], b[3]];
  }

  /** What decodes re-encodes to the very same bytes: a decoded file is written back unchanged. */
  lemma {:induction false} EncodeDecode(b: Bytes)
    requires Decode(b).Some?
    ensures Encode(Decode(b).value) == b
    decreases |b|
  {
    if b != [] {
      var k := DecodeChar(b).value.1;
      EncodeDecodeHead(b);
      EncodeDecode(b[k..]);
      TakeDropJoin(b, k);
    }
  }

  /** Re-encoding what decodes: the first character's bytes, then the rest re-encoded. */
  lemma EncodeDecodeHead(b: Bytes)
    requires b != [] && Decode(b).Some?
    ensures Decode(b[DecodeChar(b).value.1..]).Some?
    ensures Encode(Decode(b).value) == b[..DecodeChar(b).value.1] + Encode(Decode(b[DecodeChar(b).value.1..]).value)
  {
    var (c, k) := DecodeChar(b).value;
    var rest := Decode(b[k..]).value;
    assert Decode(b).value == [c] + rest;
    EncodeDecodeChar(b);
    EncodeCons([c] + rest);
    assert ([c] + rest)[1..] == rest;
  }

  /** An all-ASCII string: one byte per character. */
  predicate IsAscii(s: string) {
    forall j :: 0 <= j < |s| ==> s[j] as int < 0x80
  }

  lemma {:induction false} EncodeAscii(s: string)
    requires IsAscii(s)
    ensures |Encode(s)| == |s|
    ensures forall j :: 0 <= j < |s| ==> Encode(s)[j] == s[j] as int
    decreases |s|
  {
    if s != [] {
      EncodeCons(s);
      EncodeAscii(s[1..]);
    }
  }

  /** Encoding distributes over concatenation. */
  lemma {:induction false} EncodeAppend(s: string, t: string)
    ensures Encode(s + t) == Encode(s) + Encode(t)
    decreases |s|
  {
    if s != [] {
      assert (s + t)[0] == s[0];
      assert (s + t)[1..] == s[1..] + t;
      EncodeCons(s);
      EncodeCons(s + t);
      EncodeAppend(s[1..], t);
    } else {
      assert s + t == t;
    }
  }

  // ---- MicroPython's check ----

  /** How many continuation bytes MicroPython expects after a lead byte in `0xC0 .. 0xF7`. */
  function LeadNeed(lead: Byte): nat {
    if lead < 0xE0 then 1 else if lead < 0xF0 then 2 else 3
  }

  /**
   * MicroPython's `utf8_check`, still expecting `need` continuation bytes:
   * only the places of lead and continuation bytes are checked.
   */
  predicate Framed(b: Bytes, need: nat)
    decreases |b|
  {
    if b == [] then need == 0
    else if need > 0 then IsContinuation(b[0]) && Framed(b[1..], need - 1)
    else if b[0] < 0x80 then Framed(b[1..], 0)
    else if b[0] < 0xC0 || b[0] >= 0xF8 then false
    else Framed(b[1..], LeadNeed(b[0]))
  }

  lemma {:induction false} ContinuationsFramed(b: Bytes, n: nat)
    requires n <= |b| && forall j :: 0 <= j < n ==> IsContinuation(b[j])
    requires Framed(b[n..], 0)
    ensures Framed(b, n)
    decreases n
  {
    if n > 0 {
      assert b[1..][n - 1..] == b[n..];
      ContinuationsFramed(b[1..], n - 1);
    }
  }

  /** A character strict decoding accepts is framed, given that the rest is. */
  lemma FramedHead(b: Bytes)
    requires |b| > 0 && DecodeChar(b).Some?
    requires Framed(b[DecodeChar(b).value.1..], 0)
    ensures Framed(b, 0)
  {
    var k := DecodeChar(b).value.1;
    if k > 1 {
      assert b[1..][k - 1..] == b[k..];
      ContinuationsFramed(b[1..], k - 1);
    }
  }

  /** Whatever strict decoding accepts, MicroPython accepts too. */
  lemma {:induction false} DecodeFramed(b: Bytes)
    requires Decode(b).Some?
    ensures Framed(b, 0)
    decreases |b|
  {
    if b != [] {
      var k := DecodeChar(b).value.1;
      DecodeFramed(b[k..]);
      FramedHead(b);
    }
  }

  /** An overlong NUL, an encoded surrogate and a lead byte above `0xF4`: framed, yet refused by `Decode`. */
  lemma LaxForms()
    ensures Framed([0xC0, 0x80], 0) && Decode([0xC0, 0x80]).None?
    ensures Framed([0xED, 0xA0, 0x80], 0) && Decode([0xED, 0xA0, 0x80]).None?
    ensures Framed([0xF5, 0x80, 0x80, 0x80], 0) && Decode([0xF5, 0x80, 0x80, 0x80]).None?
  {
  }
}
