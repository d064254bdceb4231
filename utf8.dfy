/** UTF-8 as Python's `str.encode("utf-8")` and `bytes.decode("utf-8", "replace")`
    use it: the index page is sent encoded, and percent-escapes are read back
    through a decoder. */
module Utf8 {

  newtype byte = b: int | 0 <= b < 0x100

  /** U+FFFD, what the decoder yields for a byte it cannot use. */
  const Replacement: char := '\U{FFFD}'

  predicate IsContinuation(b: byte) { 0x80 <= b < 0xC0 }

  /** The bytes of one scalar value, in the shortest form. */
  function EncodeChar(c: char): (r: seq<byte>)
    ensures 1 <= |r| <= 4
    ensures |r| == 1 <==> c as int < 0x80
    ensures |r| == 1 ==> r[0] as int == c as int
  {
    var cp := c as int;
    if cp < 0x80 then
      [cp as byte]
    else if cp < 0x800 then
      [(0xC0 + cp / 64) as byte, (0x80 + cp % 64) as byte]
    else if cp < 0x10000 then
      [(0xE0 + cp / 4096) as byte, (0x80 + (cp / 64) % 64) as byte, (0x80 + cp % 64) as byte]
    else
      [(0xF0 + cp / 262144) as byte, (0x80 + (cp / 4096) % 64) as byte,
       (0x80 + (cp / 64) % 64) as byte, (0x80 + cp % 64) as byte]
  }

  function Encode(s: string): (r: seq<byte>)
    ensures |r| >= |s|
  {
    if s == [] then [] else EncodeChar(s[0]) + Encode(s[1..])
  }

  predicate IsScalar(cp: int) { 0 <= cp < 0xD800 || 0xE000 <= cp < 0x110000 }

  function Value2(b0: byte, b1: byte): int { (b0 as int - 0xC0) * 64 + (b1 as int - 0x80) }

  function Value3(b0: byte, b1: byte, b2: byte): int
  {
    (b0 as int - 0xE0) * 4096 + (b1 as int - 0x80) * 64 + (b2 as int - 0x80)
  }

  function Value4(b0: byte, b1: byte, b2: byte, b3: byte): int
  {
    (b0 as int - 0xF0) * 262144 + (b1 as int - 0x80) * 4096 + (b2 as int - 0x80) * 64 + (b3 as int - 0x80)
  }

  /** How many bytes a well-formed sequence starting with `b0` has; 0 when
      `b0` cannot start one (a continuation byte, 0xC0, 0xC1, 0xF5 and above). */
  function SequenceLength(b0: byte): (n: nat)
    ensures n <= 4
  {
    if b0 < 0x80 then 1
    else if 0xC2 <= b0 < 0xE0 then 2
    else if 0xE0 <= b0 < 0xF0 then 3
    else if 0xF0 <= b0 < 0xF5 then 4
    else 0
  }

  /** The second bytes that may follow a lead byte (table 3-7 of the Unicode
      standard): the narrower ranges after 0xE0, 0xED, 0xF0 and 0xF4 exclude
      overlong forms, surrogates and values above U+10FFFF. */
  predicate SecondOk(b0: byte, b1: byte)
  {
    if b0 == 0xE0 then 0xA0 <= b1 < 0xC0
    else if b0 == 0xED then 0x80 <= b1 < 0xA0
    else if b0 == 0xF0 then 0x90 <= b1 < 0xC0
    else if b0 == 0xF4 then 0x80 <= b1 < 0x90
    else IsContinuation(b1)
  }

  /** The length of the longest prefix of `bs` that begins a well-formed
      sequence of `n` bytes: `n` when the sequence is complete, fewer when it
      is cut short (a maximal subpart). */
  function Matched(bs: seq<byte>, n: nat): (k: nat)
    requires 2 <= n <= 4 && |bs| >= 1
    ensures 1 <= k <= n && k <= |bs|
  {
    if |bs| < 2 || !SecondOk(bs[0], bs[1]) then 1
    else if n == 2 || |bs| < 3 || !IsContinuation(bs[2]) then 2
    else if n == 3 || |bs| < 4 || !IsContinuation(bs[3]) then 3
    else 4
  }

  /** The character a complete well-formed sequence of 2 to 4 bytes stands for. */
  function CharOf(bs: seq<byte>): char
    requires 2 <= |bs| <= 4 && SequenceLength(bs[0]) == |bs| && Matched(bs, |bs|) == |bs|
  {
    if |bs| == 2 then Value2(bs[0], bs[1]) as char
    else if |bs| == 3 then
      assert bs[0] == 0xE0 ==> Value3(bs[0], bs[1], bs[2]) >= 0x800;
      assert bs[0] == 0xED ==> Value3(bs[0], bs[1], bs[2]) < 0xD800;
      Value3(bs[0], bs[1], bs[2]) as char
    else
      assert bs[0] == 0xF4 ==> Value4(bs[0], bs[1], bs[2], bs[3]) < 0x110000;
      Value4(bs[0], bs[1], bs[2], bs[3]) as char
  }

  /** How many bytes the decoder consumes at the start of `bs`: a whole
      well-formed sequence, a maximal subpart, or one unusable byte. */
  function StepLength(bs: seq<byte>): (k: nat)
    requires bs != []
    ensures 1 <= k <= |bs|
  {
    var n := SequenceLength(bs[0]);
    if n <= 1 then 1 else Matched(bs, n)
  }

  /** The character the decoder yields for those bytes. */
  function StepChar(bs: seq<byte>): char
    requires bs != []
  {
    var n := SequenceLength(bs[0]);
    if n == 1 then bs[0] as int as char
    else if n == 0 || Matched(bs, n) < n then Replacement
    else CharOf(bs[..n])
  }

  /** `bytes.decode("utf-8", "replace")`: well-formed sequences become their
      characters; a byte that cannot start one, and each maximal subpart (a
      sequence cut short), becomes one U+FFFD, and decoding resumes after it. */
  function Decode(bs: seq<byte>): (s: string)
    decreases |bs|
  {
    if bs == [] then [] else [StepChar(bs)] + Decode(bs[StepLength(bs)..])
  }

  /** The value of the two, three or four bytes of a character is the character. */
  lemma CharOfEncode(c: char)
    requires c as int >= 0x80
    requires SequenceLength(EncodeChar(c)[0]) == |EncodeChar(c)|
    requires Matched(EncodeChar(c), |EncodeChar(c)|) == |EncodeChar(c)|
    ensures CharOf(EncodeChar(c)) == c
  {
    var cp := c as int;
    var e := EncodeChar(c);
    if cp < 0x800 {
      assert Value2(e[0], e[1]) == (cp / 64) * 64 + cp % 64 == cp;
    } else if cp < 0x10000 {
      assert cp / 64 == (cp / 4096) * 64 + (cp / 64) % 64;
      assert Value3(e[0], e[1], e[2]) == (cp / 4096) * 4096 + ((cp / 64) % 64) * 64 + cp % 64 == cp;
    } else {
      assert cp / 4096 == (cp / 262144) * 64 + (cp / 4096) % 64;
      assert cp / 64 == (cp / 4096) * 64 + (cp / 64) % 64;
      assert Value4(e[0], e[1], e[2], e[3])
        == (cp / 262144) * 262144 + ((cp / 4096) % 64) * 4096 + ((cp / 64) % 64) * 64 + cp % 64 == cp;
    }
  }

  /** How far a sequence extends depends only on its first `n` bytes. */
  lemma MatchedPrefix(bs: seq<byte>, n: nat)
    requires 2 <= n <= 4 && |bs| >= n
    ensures Matched(bs, n) == Matched(bs[..n], n)
  {
    var p := bs[..n];
    assert p[0] == bs[0] && p[1] == bs[1];
    assert n >= 3 ==> p[2] == bs[2];
    assert n >= 4 ==> p[3] == bs[3];
  }

  /** The decoder reads one encoded character back and goes on after it. */
  lemma DecodeChar(c: char, rest: seq<byte>)
    ensures Decode(EncodeChar(c) + rest) == [c] + Decode(rest)
  {
    var e := EncodeChar(c);
    var bs := e + rest;
    var n := |e|;
    assert bs[0] == e[0] && bs[..n] == e && bs[n..] == rest;
    if c as int >= 0x80 {
      EncodeWellFormed(c);
      MatchedPrefix(bs, n);
      CharOfEncode(c);
    }
    assert StepLength(bs) == n && StepChar(bs) == c;
  }

  /** Decoding what was encoded gives back the text. */
  lemma {:induction false} DecodeEncode(s: string)
    ensures Decode(Encode(s)) == s
  {
    if s != [] {
      DecodeChar(s[0], Encode(s[1..]));
      DecodeEncode(s[1..]);
    }
  }

  /** Bytes appended after a point where no continuation byte follows do not
      change how far a sequence starting before that point extends. */
  lemma MatchedAppend(a: seq<byte>, b: seq<byte>, n: nat)
    requires 2 <= n <= 4 && |a| >= 1
    requires b == [] || !IsContinuation(b[0])
    ensures Matched(a + b, n) == Matched(a, n)
  {
    var ab := a + b;
    assert ab[0] == a[0];
    assert |a| >= 2 ==> ab[1] == a[1];
    assert |a| >= 3 ==> ab[2] == a[2];
    assert |a| >= 4 ==> ab[3] == a[3];
    assert |ab| > |a| ==> ab[|a|] == b[0];
  }

  /** The decoder's first step is the same before and after appending bytes
      that do not start with a continuation byte. */
  lemma StepAppend(a: seq<byte>, b: seq<byte>)
    requires a != []
    requires b == [] || !IsContinuation(b[0])
    ensures StepLength(a + b) == StepLength(a) && StepChar(a + b) == StepChar(a)
  {
    var ab := a + b;
    assert ab[0] == a[0];
    var n := SequenceLength(a[0]);
    if n >= 2 {
      MatchedAppend(a, b, n);
      assert Matched(a, n) == n ==> ab[..n] == a[..n];
    }
  }

  /** A byte string cut where no continuation byte follows decodes in two
      independent halves: no sequence, complete or cut short, spans the cut. */
  lemma {:induction false} DecodeSplit(a: seq<byte>, b: seq<byte>)
    requires b == [] || !IsContinuation(b[0])
    ensures Decode(a + b) == Decode(a) + Decode(b)
    decreases |a|
  {
    if a == [] {
      assert a + b == b;
    } else {
      var ab := a + b;
      var k := StepLength(a);
      StepAppend(a, b);
      assert ab[k..] == a[k..] + b;
      DecodeSplit(a[k..], b);
    }
  }

  /** The bytes of a character other than ASCII form a complete well-formed
      sequence of the length its lead byte announces. */
  lemma EncodeWellFormed(c: char)
    requires c as int >= 0x80
    ensures var e := EncodeChar(c);
      SequenceLength(e[0]) == |e| && Matched(e, |e|) == |e|
  {
    var cp := c as int;
    if 0x800 <= cp < 0x10000 {
      assert cp / 4096 < 16;
      if cp / 4096 == 0 { assert (cp / 64) % 64 >= 32; }
      if cp / 4096 == 13 { assert cp < 0xD800; assert (cp / 64) % 64 < 32; }
    } else if 0x10000 <= cp {
      assert cp < 0x110000;
      assert cp / 262144 < 5;
      if cp / 262144 == 0 { assert (cp / 4096) % 64 >= 16; }
      if cp / 262144 == 4 { assert (cp / 4096) % 64 < 16; }
    }
  }

  /** A character cut short after its first `k` bytes decodes as one U+FFFD
      (the maximal subpart), and the bytes after it are read as they are. */
  lemma DecodeTruncated(c: char, k: nat, rest: seq<byte>)
    requires 1 <= k < |EncodeChar(c)|
    requires rest == [] || !IsContinuation(rest[0])
    ensures Decode(EncodeChar(c)[..k] + rest) == [Replacement] + Decode(rest)
  {
    var e := EncodeChar(c);
    var p := e[..k];
    assert SequenceLength(p[0]) == |e| && Matched(p, |e|) == k by {
      EncodeWellFormed(c);
      assert p[0] == e[0];
      assert k >= 2 ==> p[1] == e[1];
      assert k >= 3 ==> p[2] == e[2];
    }
    assert Decode(p) == [Replacement] by {
      assert StepLength(p) == k && StepChar(p) == Replacement;
      assert p[k..] == [];
    }
    DecodeSplit(p, rest);
  }
}
