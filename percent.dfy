/** Percent-encoding (section 2.1 of RFC 3986) as `urllib.parse.quote` applies
    it to an index link, and `urllib.parse.unquote` as the handler applies it to
    the last path segment of a request. */
module Percent {
  import opened Strings
  import Utf8

  type byte = Utf8.byte

  /** The characters `quote` never escapes: the unreserved set of section 2.3
      of RFC 3986 plus '/', its default `safe` argument. */
  predicate IsSafeChar(c: char)
  {
    'A' <= c <= 'Z' || 'a' <= c <= 'z' || '0' <= c <= '9' || c == '-' || c == '.' || c == '_' || c == '~' || c == '/'
  }

  predicate IsHexChar(c: char) { '0' <= c <= '9' || 'a' <= c <= 'f' || 'A' <= c <= 'F' }

  /** Upper-case hexadecimal digit, as `quote` writes it. */
  function HexChar(d: nat): (c: char)
    requires d < 16
    ensures IsHexChar(c) && IsSafeChar(c)
  {
    if d < 10 then ('0' as int + d) as char else ('A' as int + d - 10) as char
  }

  function HexValue(c: char): (d: nat)
    requires IsHexChar(c)
    ensures d < 16
  {
    if '0' <= c <= '9' then c as int - '0' as int
    else if 'a' <= c <= 'f' then c as int - 'a' as int + 10
    else c as int - 'A' as int + 10
  }

  /** One byte: itself when it is a safe ASCII character, "%XX" otherwise. */
  function EscapeByte(b: byte): (r: string)
    ensures forall i :: 0 <= i < |r| ==> IsSafeChar(r[i]) || r[i] == '%'
  {
    if IsSafeChar(b as int as char) then [b as int as char]
    else ['%', HexChar(b as int / 16), HexChar(b as int % 16)]
  }

  function EscapeBytes(bs: seq<byte>): (r: string)
    ensures forall i :: 0 <= i < |r| ==> IsSafeChar(r[i]) || r[i] == '%'
  {
    if bs == [] then [] else EscapeByte(bs[0]) + EscapeBytes(bs[1..])
  }

  /** `urllib.parse.quote(s)`: the UTF-8 bytes of s, each escaped unless safe.
      The result is plain ASCII without quotes, angle brackets or spaces. */
  function Quote(s: string): (r: string)
    ensures forall i :: 0 <= i < |r| ==> IsSafeChar(r[i]) || r[i] == '%'
  {
    EscapeBytes(Utf8.Encode(s))
  }

  /** The string starts with an escape "%XX" (hexadecimal digits in either case). */
  predicate EscapeAt(s: string)
  {
    |s| >= 3 && s[0] == '%' && IsHexChar(s[1]) && IsHexChar(s[2])
  }

  /** How many characters the first unit of `s` takes: three for an escape, one otherwise. */
  function UnitLength(s: string): (k: nat)
    requires s != []
    ensures 1 <= k <= |s|
  {
    if EscapeAt(s) then 3 else 1
  }

  /** The bytes the first unit of `s` stands for. */
  function UnitBytes(s: string): seq<byte>
    requires s != []
  {
    if EscapeAt(s) then [(HexValue(s[1]) * 16 + HexValue(s[2])) as byte]
    else Utf8.EncodeChar(s[0])
  }

  /** The bytes a percent-encoded string stands for: "%XX" is one byte, any
      other character its UTF-8 bytes; a '%' not followed by two hexadecimal
      digits is kept as it is. */
  function UnescapeBytes(s: string): seq<byte>
  {
    if s == [] then [] else UnitBytes(s) + UnescapeBytes(s[UnitLength(s)..])
  }

  predicate IsAscii(c: char) { c as int < 0x80 }

  /** The length of the longest prefix of `s` made of ASCII characters. */
  function AsciiRunLength(s: string): (n: nat)
    ensures n <= |s|
    ensures forall i :: 0 <= i < n ==> IsAscii(s[i])
    ensures n == |s| || !IsAscii(s[n])
  {
    if s == [] || !IsAscii(s[0]) then 0 else 1 + AsciiRunLength(s[1..])
  }

  /** Each maximal run of ASCII characters turned into bytes ("%XX" escapes
      included) and decoded on its own; the characters between runs kept. */
  function UnquoteRuns(s: string): string
    decreases |s|
  {
    if s == [] then []
    else if !IsAscii(s[0]) then [s[0]] + UnquoteRuns(s[1..])
    else
      var n := AsciiRunLength(s);
      Utf8.Decode(UnescapeBytes(s[..n])) + UnquoteRuns(s[n..])
  }

  /** `urllib.parse.unquote(s)`, with UTF-8 and the "replace" error handler:
      a string without '%' is returned as it is. */
  function Unquote(s: string): string
  {
    if '%' !in s then s else UnquoteRuns(s)
  }

  lemma UnescapeByte(b: byte, rest: string)
    ensures UnescapeBytes(EscapeByte(b) + rest) == [b] + UnescapeBytes(rest)
  {
    var e := EscapeByte(b);
    var s := e + rest;
    if IsSafeChar(b as int as char) {
      assert s[0] == b as int as char && s[1..] == rest;
    } else {
      assert s[0] == '%' && s[1] == HexChar(b as int / 16) && s[2] == HexChar(b as int % 16);
      assert HexValue(s[1]) * 16 + HexValue(s[2]) == b as int;
      assert s[3..] == rest;
    }
  }

  lemma {:induction false} UnescapeEscape(bs: seq<byte>)
    ensures UnescapeBytes(EscapeBytes(bs)) == bs
  {
    if bs != [] {
      UnescapeByte(bs[0], EscapeBytes(bs[1..]));
      UnescapeEscape(bs[1..]);
    }
  }

  /** Without a '%', the bytes a string stands for are its UTF-8 encoding. */
  lemma {:induction false} UnescapePlain(s: string)
    requires '%' !in s
    ensures UnescapeBytes(s) == Utf8.Encode(s)
  {
    if s != [] {
      assert '%' !in s[1..] by {
        assert forall i :: 0 <= i < |s[1..]| ==> s[1..][i] == s[i + 1];
      }
      UnescapePlain(s[1..]);
    }
  }

  /** Appending a string that does not start with a hexadecimal digit does
      not change the first unit. */
  lemma UnitAppend(r: string, t: string)
    requires r != []
    requires t == [] || !IsHexChar(t[0])
    ensures UnitLength(r + t) == UnitLength(r) && UnitBytes(r + t) == UnitBytes(r)
  {
    var rt := r + t;
    assert rt[0] == r[0];
    assert |r| >= 2 ==> rt[1] == r[1];
    assert |r| >= 3 ==> rt[2] == r[2];
    assert |r| < |rt| ==> rt[|r|] == t[0];
  }

  /** A string cut before a character that is no hexadecimal digit stands for
      the bytes of its two halves: no "%XX" escape spans the cut. */
  lemma {:induction false} UnescapeAppend(r: string, t: string)
    requires t == [] || !IsHexChar(t[0])
    ensures UnescapeBytes(r + t) == UnescapeBytes(r) + UnescapeBytes(t)
  {
    var rt := r + t;
    if r == [] {
      assert rt == t;
    } else {
      UnitAppend(r, t);
      var k := UnitLength(r);
      assert rt[k..] == r[k..] + t;
      UnescapeAppend(r[k..], t);
    }
  }

  /** The bytes of a string that starts with a character other than ASCII
      start with a UTF-8 lead byte, never a continuation byte. */
  lemma UnescapeStartsWithLead(t: string)
    requires t != [] && !IsAscii(t[0])
    ensures UnescapeBytes(t) != [] && !Utf8.IsContinuation(UnescapeBytes(t)[0])
  {
  }

  /** Decoding each ASCII run on its own gives what decoding the bytes of the
      whole string gives: a sequence cut short at the end of a run becomes
      U+FFFD either way, since the next character starts with a lead byte. */
  lemma {:induction false} UnquoteRunsWhole(s: string)
    ensures UnquoteRuns(s) == Utf8.Decode(UnescapeBytes(s))
    decreases |s|
  {
    if s != [] {
      if !IsAscii(s[0]) {
        assert UnescapeBytes(s) == Utf8.EncodeChar(s[0]) + UnescapeBytes(s[1..]);
        Utf8.DecodeChar(s[0], UnescapeBytes(s[1..]));
        UnquoteRunsWhole(s[1..]);
      } else {
        var n := AsciiRunLength(s);
        var r, t := s[..n], s[n..];
        assert s == r + t;
        UnescapeAppend(r, t);
        if t != [] {
          UnescapeStartsWithLead(t);
        }
        Utf8.DecodeSplit(UnescapeBytes(r), UnescapeBytes(t));
        UnquoteRunsWhole(t);
      }
    }
  }

  /** `unquote` is UTF-8 decoding, with replacement, of the bytes the string
      stands for. */
  lemma UnquoteDecodes(s: string)
    ensures Unquote(s) == Utf8.Decode(UnescapeBytes(s))
  {
    if '%' !in s {
      UnescapePlain(s);
      Utf8.DecodeEncode(s);
    } else {
      UnquoteRunsWhole(s);
    }
  }

  /** Percent-decoding a quoted name recovers the name, whatever characters it holds. */
  lemma UnquoteQuote(s: string)
    ensures Unquote(Quote(s)) == s
  {
    UnquoteDecodes(Quote(s));
    UnescapeEscape(Utf8.Encode(s));
    Utf8.DecodeEncode(s);
  }

  /** The escaped first bytes of a character cut short decode as one U+FFFD,
      as Python's decoder replaces a maximal subpart: "%E2%82", the first two
      bytes of the euro sign, gives "\U{FFFD}". */
  lemma UnquoteTruncated(c: char, k: nat)
    requires 1 <= k < |Utf8.EncodeChar(c)|
    ensures Unquote(EscapeBytes(Utf8.EncodeChar(c)[..k])) == [Utf8.Replacement]
  {
    var p := Utf8.EncodeChar(c)[..k];
    UnquoteDecodes(EscapeBytes(p));
    UnescapeEscape(p);
    Utf8.DecodeTruncated(c, k, []);
    assert p + [] == p;
  }
}
