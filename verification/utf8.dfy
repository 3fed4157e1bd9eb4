/** UTF-8 (RFC 3629), the charset `File.appendText` writes with: the encoder the log
    writer uses, and a strict decoder that inverts it. */
module Utf8 {
  import opened Wrappers

  type Byte = b: int | 0 <= b < 256

  /** A Unicode scalar value: not a surrogate, at most 0x10FFFF. */
  predicate IsScalar(n: int) {
    0 <= n < 0xD800 || 0xE000 <= n < 0x11_0000
  }

  predicate IsContinuation(b: Byte) {
    0x80 <= b < 0xC0
  }

  /** The one to four bytes of section 3 of RFC 3629 for one character. */
  function EncodeChar(c: char): (r: seq<Byte>)
    ensures 1 <= |r| <= 4
    ensures |r| == 1 <==> c as int < 0x80
    ensures forall i :: 1 <= i < |r| ==> IsContinuation(r[i])
  {
    var n := c as int;
    if n < 0x80 then [n]
    else if n < 0x800 then [0xC0 + n / 64, 0x80 + n % 64]
    else if n < 0x1_0000 then [0xE0 + n / 4096, 0x80 + (n / 64) % 64, 0x80 + n % 64]
    else [0xF0 + n / 262144, 0x80 + (n / 4096) % 64, 0x80 + (n / 64) % 64, 0x80 + n % 64]
  }

  /** The encoding of a string: its characters' encodings, in order. */
  function Encode(s: string): seq<Byte>
    decreases |s|
  {
    if |s| == 0 then [] else EncodeChar(s[0]) + Encode(s[1..])
  }

  /** The payload bits of a continuation byte. */
  function Payload(b: Byte): int {
    b % 64
  }

  /** The character a well-formed sequence starts with and the number of bytes it takes, or
      None when the bytes are not the shortest encoding of a scalar value. */
  function DecodeFirst(b: seq<Byte>): (r: Option<(char, nat)>)
    requires |b| >= 1
    ensures r.Some? ==> 1 <= r.value.1 <= |b| && r.value.1 <= 4
  {
    var b0 := b[0];
    if b0 < 0x80 then Some((b0 as char, 1))
    else if 0xC2 <= b0 < 0xE0 && |b| >= 2 && IsContinuation(b[1]) then
      Some((((b0 - 0xC0) * 64 + Payload(b[1])) as char, 2))
    else if 0xE0 <= b0 < 0xF0 && |b| >= 3 && IsContinuation(b[1]) && IsContinuation(b[2]) then
      var n := (b0 - 0xE0) * 4096 + Payload(b[1]) * 64 + Payload(b[2]);
      if 0x800 <= n && IsScalar(n) then Some((n as char, 3)) else None
    else if 0xF0 <= b0 < 0xF5 && |b| >= 4 && IsContinuation(b[1]) && IsContinuation(b[2]) && IsContinuation(b[3]) then
      var n := (b0 - 0xF0) * 262144 + Payload(b[1]) * 4096 + Payload(b[2]) * 64 + Payload(b[3]);
      if 0x1_0000 <= n < 0x11_0000 then Some((n as char, 4)) else None
    else None
  }

  /** Strict decoding: None unless the bytes are well-formed UTF-8 throughout. */
  function Decode(b: seq<Byte>): Option<string>
    decreases |b|
  {
    if |b| == 0 then Some("")
    else
      match DecodeFirst(b)
      case None => None
      case Some((c, k)) =>
        match Decode(b[k..])
        case None => None
        case Some(rest) => Some([c] + rest)
  }

  lemma {:induction false} EncodeConcat(a: string, b: string)
    ensures Encode(a + b) == Encode(a) + Encode(b)
    decreases |a|
  {
    if |a| > 0 {
      assert (a + b)[1..] == a[1..] + b;
      EncodeConcat(a[1..], b);
    } else {
      assert a + b == b;
    }
  }

  lemma Split3(n: int)
    requires 0 <= n
    ensures n == (n / 4096) * 4096 + ((n / 64) % 64) * 64 + n % 64
  {
    var m := n / 64;
    assert n == m * 64 + n % 64;
    assert m == (m / 64) * 64 + m % 64;
    assert n / 4096 == m / 64;
  }

  lemma Split4(n: int)
    requires 0 <= n
    ensures n == (n / 262144) * 262144 + ((n / 4096) % 64) * 4096 + ((n / 64) % 64) * 64 + n % 64
  {
    var m := n / 4096;
    Split3(n);
    assert n / 4096 == (n / 4096 / 64) * 64 + m % 64;
    assert n / 262144 == m / 64;
  }

  lemma DecodeFirst2(c: char, rest: seq<Byte>)
    requires 0x80 <= c as int < 0x800
    ensures DecodeFirst(EncodeChar(c) + rest) == Some((c, 2))
  {
    var n := c as int;
    var b := EncodeChar(c) + rest;
    assert b[0] == 0xC0 + n / 64 && b[1] == 0x80 + n % 64;
    assert Payload(b[1]) == n % 64;
    assert (b[0] - 0xC0) * 64 + Payload(b[1]) == n;
  }

  lemma DecodeFirst3(c: char, rest: seq<Byte>)
    requires 0x800 <= c as int < 0x1_0000
    ensures DecodeFirst(EncodeChar(c) + rest) == Some((c, 3))
  {
    var n := c as int;
    var b := EncodeChar(c) + rest;
    Split3(n);
    assert b[0] == 0xE0 + n / 4096 && b[1] == 0x80 + (n / 64) % 64 && b[2] == 0x80 + n % 64;
    assert Payload(b[1]) == (n / 64) % 64 && Payload(b[2]) == n % 64;
    assert (b[0] - 0xE0) * 4096 + Payload(b[1]) * 64 + Payload(b[2]) == n;
  }

  lemma DecodeFirst4(c: char, rest: seq<Byte>)
    requires 0x1_0000 <= c as int
    ensures DecodeFirst(EncodeChar(c) + rest) == Some((c, 4))
  {
    var n := c as int;
    var b := EncodeChar(c) + rest;
    Split4(n);
    assert b[0] == 0xF0 + n / 262144 && b[1] == 0x80 + (n / 4096) % 64;
    assert b[2] == 0x80 + (n / 64) % 64 && b[3] == 0x80 + n % 64;
    assert Payload(b[1]) == (n / 4096) % 64 && Payload(b[2]) == (n / 64) % 64 && Payload(b[3]) == n % 64;
    assert (b[0] - 0xF0) * 262144 + Payload(b[1]) * 4096 + Payload(b[2]) * 64 + Payload(b[3]) == n;
  }

  /** A character's encoding, followed by anything, decodes to that character first. */
  lemma DecodeFirstOfEncode(c: char, rest: seq<Byte>)
    ensures DecodeFirst(EncodeChar(c) + rest) == Some((c, |EncodeChar(c)|))
  {
    var n := c as int;
    if n < 0x80 {
    } else if n < 0x800 {
      DecodeFirst2(c, rest);
    } else if n < 0x1_0000 {
      DecodeFirst3(c, rest);
    } else {
      DecodeFirst4(c, rest);
    }
  }

  /** Decoding an encoding gives the text back, so the encoding loses nothing. */
  lemma {:induction false} DecodeEncode(s: string)
    ensures Decode(Encode(s)) == Some(s)
    decreases |s|
  {
    if |s| > 0 {
      var e := EncodeChar(s[0]);
      DecodeFirstOfEncode(s[0], Encode(s[1..]));
      assert (e + Encode(s[1..]))[|e|..] == Encode(s[1..]);
      DecodeEncode(s[1..]);
      assert [s[0]] + s[1..] == s;
    }
  }

  /** Distinct texts have distinct encodings. */
  lemma EncodeInjective(s: string, t: string)
    requires Encode(s) == Encode(t)
    ensures s == t
  {
    DecodeEncode(s);
    DecodeEncode(t);
  }
}
