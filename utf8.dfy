/** The UTF-8 codec that `segment.encode('utf-8')` and
    `segment.decode('utf-8')` call: text is a Dafny `string` (a sequence of
    Unicode scalar values), its encoding a byte string.  Decoding is partial;
    it rejects overlong forms, surrogates and values above U+10FFFF. */
module Utf8 {
  import opened Wrappers
  import opened ByteStrings

  /** The one to four bytes that encode `c`. */
  function EncodeChar(c: char): (r: seq<byte>)
    ensures 1 <= |r| <= 4
  {
    var v := c as int;
    if v < 0x80 then [v]
    else if v < 0x800 then [0xC0 + v / 64, 0x80 + v % 64]
    else if v < 0x10000 then [0xE0 + v / 4096, 0x80 + (v / 64) % 64, 0x80 + v % 64]
    else [0xF0 + v / 262144, 0x80 + (v / 4096) % 64, 0x80 + (v / 64) % 64, 0x80 + v % 64]
  }

  /** `text.encode('utf-8')`. */
  function Encode(s: string): (r: seq<byte>)
    ensures |r| >= |s|
    decreases |s|
  {
    if |s| == 0 then [] else EncodeChar(s[0]) + Encode(s[1..])
  }

  predicate IsContinuation(b: byte)
  {
    0x80 <= b < 0xC0
  }

  predicate IsScalar(v: int)
  {
    (0 <= v < 0xD800) || (0xE000 <= v < 0x110000)
  }

  /** The character that `s` starts with and the number of bytes it takes,
      or `None` when `s` does not start with a well-formed UTF-8 sequence. */
  function DecodeChar(s: seq<byte>): (r: Option<(char, nat)>)
    requires |s| > 0
    ensures r.Some? ==> 1 <= r.value.1 <= |s|
  {
    var b0: int := s[0];
    if b0 < 0x80 then Some((b0 as char, 1))
    else if 0xC0 <= b0 < 0xE0 then
      if |s| >= 2 && IsContinuation(s[1]) then
        var v: int := (b0 - 0xC0) * 64 + (s[1] as int - 0x80);
        if 0x80 <= v then Some((v as char, 2)) else None
      else None
    else if 0xE0 <= b0 < 0xF0 then
      if |s| >= 3 && IsContinuation(s[1]) && IsContinuation(s[2]) then
        var v: int := (b0 - 0xE0) * 4096 + (s[1] as int - 0x80) * 64 + (s[2] as int - 0x80);
        if 0x800 <= v && IsScalar(v) then Some((v as char, 3)) else None
      else None
    else if 0xF0 <= b0 < 0xF8 then
      if |s| >= 4 && IsContinuation(s[1]) && IsContinuation(s[2]) && IsContinuation(s[3]) then
        var v: int := (b0 - 0xF0) * 262144 + (s[1] as int - 0x80) * 4096 + (s[2] as int - 0x80) * 64 + (s[3] as int - 0x80);
        if 0x10000 <= v < 0x110000 then Some((v as char, 4)) else None
      else None
    else None
  }

  /** `bytes.decode('utf-8')`: `None` stands for `UnicodeDecodeError`. */
  function Decode(s: seq<byte>): (r: Option<string>)
    ensures r.Some? ==> |r.value| <= |s|
    ensures r.Some? ==> (|r.value| == 0 <==> |s| == 0)
    decreases |s|
  {
    if |s| == 0 then Some([])
    else match DecodeChar(s)
      case None => None
      case Some((c, n)) =>
        match Decode(s[n..])
        case None => None
        case Some(t) => Some([c] + t)
  }

  lemma DivMod64(q: int, r: int)
    requires 0 <= q && 0 <= r < 64
    ensures (q * 64 + r) / 64 == q && (q * 64 + r) % 64 == r
  {
  }

  lemma DecodeEncodeChar(c: char, rest: seq<byte>)
    ensures DecodeChar(EncodeChar(c) + rest) == Some((c, |EncodeChar(c)|))
  {
    var v := c as int;
    if v < 0x80 {
    } else if v < 0x800 {
      DecodeEncodeTwo(c, rest);
    } else if v < 0x10000 {
      DecodeEncodeThree(c, rest);
    } else {
      DecodeEncodeFour(c, rest);
    }
  }

  /** The base-64 digits of `v` below `64 * 64 * 64 * 64` put it together again. */
  lemma Digits64(v: int)
    requires 0 <= v
    ensures (v / 64) * 64 + v % 64 == v
    ensures (v / 4096) * 64 + (v / 64) % 64 == v / 64
    ensures (v / 262144) * 64 + (v / 4096) % 64 == v / 4096
  {
  }

  lemma DecodeEncodeTwo(c: char, rest: seq<byte>)
    requires 0x80 <= c as int < 0x800
    ensures DecodeChar(EncodeChar(c) + rest) == Some((c, 2))
  {
    var v := c as int;
    var s := EncodeChar(c) + rest;
    assert s[0] == 0xC0 + v / 64 && s[1] == 0x80 + v % 64;
    Digits64(v);
  }

  lemma DecodeEncodeThree(c: char, rest: seq<byte>)
    requires 0x800 <= c as int < 0x10000
    ensures DecodeChar(EncodeChar(c) + rest) == Some((c, 3))
  {
    var v := c as int;
    var s := EncodeChar(c) + rest;
    assert s[0] == 0xE0 + v / 4096 && s[1] == 0x80 + (v / 64) % 64 && s[2] == 0x80 + v % 64;
    Digits64(v);
    assert (v / 4096) * 4096 + ((v / 64) % 64) * 64 + v % 64 == v;
  }

  lemma DecodeEncodeFour(c: char, rest: seq<byte>)
    requires 0x10000 <= c as int
    ensures DecodeChar(EncodeChar(c) + rest) == Some((c, 4))
  {
    var v := c as int;
    var s := EncodeChar(c) + rest;
    assert s[0] == 0xF0 + v / 262144 && s[1] == 0x80 + (v / 4096) % 64;
    assert s[2] == 0x80 + (v / 64) % 64 && s[3] == 0x80 + v % 64;
    Digits64(v);
    assert (v / 262144) * 262144 + ((v / 4096) % 64) * 4096 + ((v / 64) % 64) * 64 + v % 64 == v;
  }

  lemma EncodeDecodeChar(s: seq<byte>)
    requires |s| > 0 && DecodeChar(s).Some?
    ensures EncodeChar(DecodeChar(s).value.0) == s[..DecodeChar(s).value.1]
  {
    var b0: int := s[0];
    if b0 < 0x80 {
    } else if b0 < 0xE0 {
      EncodeDecodeTwo(s);
    } else if b0 < 0xF0 {
      EncodeDecodeThree(s);
    } else {
      EncodeDecodeFour(s);
    }
  }

  lemma EncodeDecodeTwo(s: seq<byte>)
    requires |s| > 0 && 0x80 <= s[0] < 0xE0 && DecodeChar(s).Some?
    ensures EncodeChar(DecodeChar(s).value.0) == s[..2]
  {
    DivMod64(s[0] - 0xC0, s[1] - 0x80);
  }

  lemma EncodeDecodeThree(s: seq<byte>)
    requires |s| > 0 && 0xE0 <= s[0] < 0xF0 && DecodeChar(s).Some?
    ensures EncodeChar(DecodeChar(s).value.0) == s[..3]
  {
    var hi: int := (s[0] - 0xE0) * 64 + (s[1] as int - 0x80);
    DivMod64(hi, s[2] - 0x80);
    DivMod64(s[0] - 0xE0, s[1] - 0x80);
  }

  lemma EncodeDecodeFour(s: seq<byte>)
    requires |s| > 0 && 0xF0 <= s[0] && DecodeChar(s).Some?
    ensures EncodeChar(DecodeChar(s).value.0) == s[..4]
  {
    var hi: int := (s[0] - 0xF0) * 64 + (s[1] as int - 0x80);
    var mid: int := hi * 64 + (s[2] as int - 0x80);
    DivMod64(mid, s[3] - 0x80);
    DivMod64(hi, s[2] - 0x80);
    DivMod64(s[0] - 0xF0, s[1] - 0x80);
  }

  /** Decoding undoes encoding. */
  lemma {:induction false} DecodeEncode(t: string)
    ensures Decode(Encode(t)) == Some(t)
    decreases |t|
  {
    if |t| > 0 {
      DecodeEncode(t[1..]);
      DecodeEncodeChar(t[0], Encode(t[1..]));
      assert (EncodeChar(t[0]) + Encode(t[1..]))[|EncodeChar(t[0])|..] == Encode(t[1..]);
      assert [t[0]] + t[1..] == t;
    }
  }

  /** Encoding undoes decoding, so a byte string decodes to at most one
      text and distinct texts have distinct encodings. */
  lemma {:induction false} EncodeDecode(s: seq<byte>)
    requires Decode(s).Some?
    ensures Encode(Decode(s).value) == s
    decreases |s|
  {
    if |s| > 0 {
      var n := DecodeChar(s).value.1;
      EncodeDecodeChar(s);
      EncodeDecode(s[n..]);
      assert s[..n] + s[n..] == s;
    }
  }
}
