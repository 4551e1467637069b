/** Percent-encoding of byte strings: `url_quote` (the quoting routine the
    traversal core imports from repoze/bfg/encode.py, which is not part of
    this model) and Python 2's `urllib.unquote`. */
module UrlQuoting {
  import opened ByteStrings

  /** The bytes `url_quote` never escapes: ASCII letters, digits, `_`, `.`
      and `-`.  The slash is not among them. */
  predicate IsSafe(b: byte)
  {
    (65 <= b <= 90) || (97 <= b <= 122) || (48 <= b <= 57) || b == 95 || b == DOT || b == 45
  }

  /** The upper-case hexadecimal digit for `n`. */
  function HexDigit(n: nat): (b: byte)
    requires n < 16
  {
    if n < 10 then 48 + n else 55 + n
  }

  predicate IsHex(b: byte)
  {
    (48 <= b <= 57) || (65 <= b <= 70) || (97 <= b <= 102)
  }

  /** The value of a hexadecimal digit of either case. */
  function HexValue(b: byte): (n: nat)
    requires IsHex(b)
    ensures n < 16
  {
    if b <= 57 then b - 48 else if b <= 70 then b - 55 else b - 87
  }

  /** One byte as `url_quote` writes it: itself when safe, `%XX` otherwise. */
  function QuoteByte(b: byte): (r: seq<byte>)
  {
    if IsSafe(b) then [b] else [PERCENT, HexDigit(b / 16), HexDigit(b % 16)]
  }

  /** `url_quote(s)`: every byte of `s` in turn, quoted. */
  function UrlQuote(s: seq<byte>): (r: seq<byte>)
    ensures |r| >= |s|
    ensures SLASH !in r
    decreases |s|
  {
    if |s| == 0 then [] else QuoteByte(s[0]) + UrlQuote(s[1..])
  }

  /** `urllib.unquote(s)`: each `%` followed by two hexadecimal digits
      becomes the byte they spell; every other byte, including a `%` that
      is not followed by two hexadecimal digits, is kept as it is. */
  function Unquote(s: seq<byte>): (r: seq<byte>)
    ensures |r| <= |s|
    decreases |s|
  {
    if |s| == 0 then []
    else if s[0] == PERCENT && |s| >= 3 && IsHex(s[1]) && IsHex(s[2]) then
      [HexValue(s[1]) * 16 + HexValue(s[2])] + Unquote(s[3..])
    else [s[0]] + Unquote(s[1..])
  }

  lemma UnquoteQuoteByte(b: byte, rest: seq<byte>)
    ensures Unquote(QuoteByte(b) + rest) == [b] + Unquote(rest)
  {
    var q := QuoteByte(b) + rest;
    if IsSafe(b) {
      assert q[1..] == rest;
    } else {
      assert q[3..] == rest;
      assert HexValue(HexDigit(b / 16)) == b / 16;
      assert HexValue(HexDigit(b % 16)) == b % 16;
    }
  }

  /** `urllib.unquote` undoes `url_quote`. */
  lemma {:induction false} UnquoteUrlQuote(s: seq<byte>)
    ensures Unquote(UrlQuote(s)) == s
    decreases |s|
  {
    if |s| > 0 {
      UnquoteUrlQuote(s[1..]);
      UnquoteQuoteByte(s[0], UrlQuote(s[1..]));
      assert [s[0]] + s[1..] == s;
    }
  }
}
