/** Byte ranges: `parse_range`, which reads the single-range form
    `bytes=<first>-[<last>]` of a byte-range-spec (section 2.1 of RFC 7233),
    the satisfiability test the handler applies to it, the `Content-Range`
    value of a 206 response (section 4.2 of RFC 7233) and the loop that copies
    the selected bytes out of the file in chunks. */
module Ranges {
  import opened Strings
  import Utf8

  type byte = Utf8.byte

  /** `int()` refuses a numeral of more than 4300 digits with a ValueError
      (the default of `sys.get_int_max_str_digits()`), which `parse_range`
      catches. */
  const MaxIntDigits: nat := 4300

  /** A parsed header: the first byte, and the last byte when one is given. */
  datatype RangeSpec = RangeSpec(first: nat, last: Option<nat>)

  /** Python's `int(s)` on an ASCII numeral, failing as it does on overlong ones. */
  function ParseInt(s: string): (r: Option<nat>)
    requires IsDigits(s)
    ensures r.Some? <==> |s| <= MaxIntDigits
    ensures r.Some? ==> r.value == DecimalValue(s)
  {
    if |s| <= MaxIntDigits then Some(DecimalValue(s)) else None
  }

  /** The number of ASCII digits at the front of s. */
  function DigitRun(s: string): (n: nat)
    ensures n <= |s|
    ensures forall i :: 0 <= i < n ==> IsDigit(s[i])
    ensures n < |s| ==> !IsDigit(s[n])
  {
    if s != [] && IsDigit(s[0]) then 1 + DigitRun(s[1..]) else 0
  }

  /** The part of `r'(\d+)-(\d*)$'` after "bytes=": a non-empty digit run, a
      '-', and digits up to the end. */
  function MatchSpec(rest: string): (m: Option<(string, string)>)
    ensures m.Some? ==> rest == m.value.0 + "-" + m.value.1
    ensures m.Some? ==> m.value.0 != [] && IsDigits(m.value.0) && IsDigits(m.value.1)
  {
    var n := DigitRun(rest);
    if n == 0 || n == |rest| || rest[n] != '-' then None
    else
      var tail := rest[n + 1..];
      if !IsDigits(tail) then None
      else
        AllDigits(rest[..n]);
        assert rest == rest[..n] + "-" + tail;
        Some((rest[..n], tail))
  }

  /** `re.match(r'bytes=(\d+)-(\d*)$', t)` on the already stripped and
      lower-cased header t: the two groups, or None when t does not match. */
  function MatchRange(t: string): (m: Option<(string, string)>)
    ensures m.Some? ==> t == "bytes=" + m.value.0 + "-" + m.value.1
    ensures m.Some? ==> m.value.0 != [] && IsDigits(m.value.0) && IsDigits(m.value.1)
  {
    if !StartsWith(t, "bytes=") then None
    else
      var m := MatchSpec(t[6..]);
      if m.Some? then
        assert t == t[..6] + t[6..];
        m
      else None
  }

  lemma MatchSpecComplete(d: string, e: string)
    requires d != [] && IsDigits(d) && IsDigits(e)
    ensures MatchSpec(d + "-" + e) == Some((d, e))
  {
    var rest := d + "-" + e;
    DigitsAll(d);
    assert rest == d + ("-" + e);
    DigitRunStops(d, "-" + e);
    assert rest[|d|] == '-';
    assert rest[..|d|] == d && rest[|d| + 1..] == e;
  }

  /** The regular expression matches every header of the form it describes,
      with the groups it should have. */
  lemma MatchRangeComplete(d: string, e: string)
    requires d != [] && IsDigits(d) && IsDigits(e)
    ensures MatchRange("bytes=" + d + "-" + e) == Some((d, e))
  {
    var rest := d + "-" + e;
    var t := "bytes=" + rest;
    assert "bytes=" + d + "-" + e == t;
    assert t[..6] == "bytes=" && t[6..] == rest;
    MatchSpecComplete(d, e);
  }

  lemma {:induction false} DigitRunStops(d: string, s: string)
    requires forall i :: 0 <= i < |d| ==> IsDigit(d[i])
    requires s != [] && !IsDigit(s[0])
    ensures DigitRun(d + s) == |d|
    decreases |d|
  {
    if d != [] {
      assert (d + s)[1..] == d[1..] + s;
      DigitRunStops(d[1..], s);
    } else {
      assert d + s == s;
    }
  }

  /** `parse_range(r)`; None stands for the pair `(None, None)`. */
  function ParseRange(r: string): Option<RangeSpec>
  {
    match MatchRange(Lower(Strip(r)))
    case None => None
    case Some((d, e)) =>
      if e == [] then
        (match ParseInt(d) case None => None case Some(first) => Some(RangeSpec(first, None)))
      else
        (match (ParseInt(d), ParseInt(e))
         case (Some(first), Some(last)) => Some(RangeSpec(first, Some(last)))
         case _ => None)
  }

  /** What `parse_range` returns for a header that matches: `bytes=D-`
      gives `(int(D), None)` and `bytes=D-E` gives `(int(D), int(E))`, unless a
      numeral is too long for `int()`. Leading and trailing white space and
      upper-case letters do not matter. */
  lemma ParseRangeMatches(r: string, d: string, e: string)
    requires Lower(Strip(r)) == "bytes=" + d + "-" + e
    requires d != [] && IsDigits(d) && IsDigits(e)
    ensures e == [] ==>
      ParseRange(r) == (if |d| <= MaxIntDigits then Some(RangeSpec(DecimalValue(d), None)) else None)
    ensures e != [] ==>
      ParseRange(r) == (if |d| <= MaxIntDigits && |e| <= MaxIntDigits
                        then Some(RangeSpec(DecimalValue(d), Some(DecimalValue(e)))) else None)
  {
    MatchRangeComplete(d, e);
  }

  /** Anything `parse_range` accepts has that form: the groups of the match
      (which MatchRange's contract ties to the header) give the numbers. */
  lemma ParseRangeSound(r: string)
    requires ParseRange(r).Some?
    ensures MatchRange(Lower(Strip(r))).Some?
    ensures ParseRange(r).value.first == DecimalValue(MatchRange(Lower(Strip(r))).value.0)
    ensures ParseRange(r).value.last ==
      (var e := MatchRange(Lower(Strip(r))).value.1; if e == [] then None else Some(DecimalValue(e)))
  {
  }

  /** A header that does not start with "bytes=" after stripping and lower-casing is refused. */
  lemma ParseRangeNeedsUnit(r: string)
    requires !StartsWith(Lower(Strip(r)), "bytes=")
    ensures ParseRange(r) == None
  {
  }

  /** A suffix range `bytes=-N`, which section 2.1 of RFC 7233 allows, is refused. */
  lemma SuffixRangeRejected(r: string, n: string)
    requires Lower(Strip(r)) == "bytes=-" + n
    ensures ParseRange(r) == None
  {
    SuffixUnmatched(n);
  }

  lemma SuffixUnmatched(n: string)
    ensures MatchRange("bytes=-" + n) == None
  {
    var t := "bytes=-" + n;
    assert t[6..] == "-" + n;
    assert DigitRun(t[6..]) == 0;
  }

  /** The characters a header `parse_range` accepts can hold, once stripped
      and lower-cased. */
  predicate IsRangeChar(c: char)
  {
    IsDigit(c) || c == '-' || c == '=' || c == 'b' || c == 'y' || c == 't' || c == 'e' || c == 's'
  }

  lemma FormChars(d: string, e: string)
    requires IsDigits(d) && IsDigits(e)
    ensures forall i :: 0 <= i < |"bytes=" + d + "-" + e| ==> IsRangeChar(("bytes=" + d + "-" + e)[i])
  {
    DigitsAll(d);
    DigitsAll(e);
    var t := "bytes=" + d + "-" + e;
    forall i | 0 <= i < |t| ensures IsRangeChar(t[i]) {
      if 6 <= i < 6 + |d| {
        assert t[i] == d[i - 6];
      } else if 6 + |d| < i {
        assert t[i] == e[i - 7 - |d|];
      }
    }
  }

  /** A header `parse_range` accepts holds nothing but "bytes", '=', '-' and digits. */
  lemma ParseRangeAlphabet(r: string)
    ensures ParseRange(r).Some? ==>
      forall i :: 0 <= i < |Lower(Strip(r))| ==> IsRangeChar(Lower(Strip(r))[i])
  {
    var m := MatchRange(Lower(Strip(r)));
    if m.Some? {
      FormChars(m.value.0, m.value.1);
    }
  }

  /** So a list of several ranges, or anything else with a comma, is refused. */
  lemma RangeListRejected(r: string, i: nat)
    requires i < |Lower(Strip(r))| && Lower(Strip(r))[i] == ','
    ensures ParseRange(r) == None
  {
    ParseRangeAlphabet(r);
  }

  /** The header a client sends for bytes first..last (last absent: to the end). */
  function RangeHeader(first: nat, last: Option<nat>): string
  {
    "bytes=" + DecimalString(first) + "-" + (if last.Some? then DecimalString(last.value) else "")
  }

  /** A header with no white space at either end and no upper-case letter is
      what `parse_range` matches against. */
  lemma Canonical(s: string)
    requires s != [] && !IsSpace(s[0]) && !IsSpace(s[|s| - 1])
    requires forall i :: 0 <= i < |s| ==> !('A' <= s[i] <= 'Z')
    ensures Lower(Strip(s)) == s
  {
  }

  /** `parse_range` reads back every header of the single-range form. */
  lemma ParseRangeHeader(first: nat, last: Option<nat>)
    requires |DecimalString(first)| <= MaxIntDigits
    requires last.Some? ==> |DecimalString(last.value)| <= MaxIntDigits
    ensures ParseRange(RangeHeader(first, last)) == Some(RangeSpec(first, last))
  {
    var d := DecimalString(first);
    var e := if last.Some? then DecimalString(last.value) else "";
    var h := RangeHeader(first, last);
    assert h == "bytes=" + d + "-" + e;
    FormChars(d, e);
    if e != [] {
      DigitsAll(e);
      assert h[|h| - 1] == e[|e| - 1];
    }
    Canonical(h);
    ParseRangeMatches(h, d, e);
    DecimalRoundTrip(first);
    if last.Some? { DecimalRoundTrip(last.value); }
  }

  /** The answer to a parsed header for a file of `size` bytes: the byte
      interval to send, or None for 416 Range Not Satisfiable. */
  function CheckRange(spec: Option<RangeSpec>, size: nat): (r: Option<(nat, nat)>)
    ensures r.Some? ==> r.value.0 <= r.value.1 < size
    ensures r.Some? ==> spec.Some? && r.value.0 == spec.value.first
  {
    match spec
    case None => None
    case Some(RangeSpec(first, last)) =>
      var l := if last.Some? then last.value else size - 1;
      if first >= size || l >= size || first > l then None else Some((first, l))
  }

  /** A header is satisfiable exactly when it parsed, its first byte lies in the
      file, and its last byte, `size - 1` when absent, lies in the file and not
      before the first; then the interval is exactly the requested one. */
  lemma CheckRangeIff(spec: Option<RangeSpec>, size: nat)
    ensures CheckRange(spec, size).Some? <==>
      && spec.Some?
      && spec.value.first < size
      && (spec.value.last.Some? ==> spec.value.first <= spec.value.last.value < size)
    ensures CheckRange(spec, size).Some? ==>
      CheckRange(spec, size).value.1 == (if spec.value.last.Some? then spec.value.last.value else size - 1)
  {
  }

  /** `bytes=0-` selects the whole of any non-empty file. */
  lemma OpenRangeWholeFile(size: nat)
    requires size > 0
    ensures CheckRange(ParseRange("bytes=0-"), size) == Some((0, size - 1))
  {
    assert DecimalString(0) == "0";
    assert RangeHeader(0, None) == "bytes=0-";
    ParseRangeHeader(0, None);
  }

  /** The `Content-Range` value of a 206 response: "bytes first-last/size". */
  function ContentRange(first: nat, last: nat, size: nat): (r: string)
    ensures StartsWith(r, "bytes ")
  {
    "bytes " + (DecimalString(first) + ("-" + (DecimalString(last) + ("/" + DecimalString(size)))))
  }

  /** Different intervals or sizes give different `Content-Range` values. */
  lemma ContentRangeInjective(f1: nat, l1: nat, s1: nat, f2: nat, l2: nat, s2: nat)
    requires ContentRange(f1, l1, s1) == ContentRange(f2, l2, s2)
    ensures f1 == f2 && l1 == l2 && s1 == s2
  {
    NumeralTriple(DecimalString(f1), DecimalString(l1), DecimalString(s1),
                  DecimalString(f2), DecimalString(l2), DecimalString(s2));
    DecimalStringInjective(f1, f2);
    DecimalStringInjective(l1, l2);
    DecimalStringInjective(s1, s2);
  }

  /** "bytes D-E/N" determines its three numerals. */
  lemma NumeralTriple(d1: string, e1: string, n1: string, d2: string, e2: string, n2: string)
    requires IsDigits(d1) && IsDigits(e1) && IsDigits(d2) && IsDigits(e2)
    requires "bytes " + (d1 + ("-" + (e1 + ("/" + n1)))) == "bytes " + (d2 + ("-" + (e2 + ("/" + n2))))
    ensures d1 == d2 && e1 == e2 && n1 == n2
  {
    SamePrefix("bytes ", d1 + ("-" + (e1 + ("/" + n1))), d2 + ("-" + (e2 + ("/" + n2))));
    NumeralBeforeMark(d1, "-" + (e1 + ("/" + n1)), d2, "-" + (e2 + ("/" + n2)));
    SamePrefix("-", e1 + ("/" + n1), e2 + ("/" + n2));
    NumeralBeforeMark(e1, "/" + n1, e2, "/" + n2);
    SamePrefix("/", n1, n2);
  }

  /** Two numerals, each followed by a non-digit, that spell the same text
      are the same numeral. */
  lemma NumeralBeforeMark(d1: string, r1: string, d2: string, r2: string)
    requires IsDigits(d1) && IsDigits(d2) && r1 != [] && r2 != []
    requires !IsDigit(r1[0]) && !IsDigit(r2[0])
    requires d1 + r1 == d2 + r2
    ensures d1 == d2 && r1 == r2
  {
    DigitsAll(d1);
    DigitsAll(d2);
    var k := Min(|d1|, |d2|);
    assert (d1 + r1)[k] == (d2 + r2)[k];
    assert |d1| == |d2|;
    assert d1 == (d1 + r1)[..|d1|];
    assert d2 == (d2 + r2)[..|d2|];
    assert r1 == (d1 + r1)[|d1|..];
    assert r2 == (d2 + r2)[|d2|..];
  }

  /** How much the loop asks for per read: 16 KiB. */
  const ChunkSize: nat := 16 * 1024

  /** The bytes of `data` from offset a up to offset b, both clipped to the end
      of the file, as a file positioned by `seek` yields them. */
  function Slice(data: seq<byte>, a: nat, b: nat): seq<byte>
  {
    var lo := Min(a, |data|);
    var hi := Min(b, |data|);
    if lo <= hi then data[lo..hi] else []
  }

  /** A slice is never longer than asked for, and is exactly the bytes asked
      for when the file holds them: the range loop writes no more than the
      range, and all of it for a file long enough. */
  lemma SliceBounds(data: seq<byte>, a: nat, b: nat)
    ensures |Slice(data, a, b)| <= (if a <= b then b - a else 0)
    ensures b <= |data| && a <= b ==> Slice(data, a, b) == data[a..b]
    ensures a >= |data| ==> Slice(data, a, b) == []
  {
  }

  /** `f.read(n)` at offset pos: at most n bytes, fewer only at the end of the file. */
  function Read(data: seq<byte>, pos: nat, n: nat): (r: seq<byte>)
    ensures r == Slice(data, pos, pos + n)
  {
    if pos >= |data| then [] else data[pos..Min(pos + n, |data|)]
  }

  /** The bytes of a list of chunks, one after the other. */
  function Flatten(chunks: seq<seq<byte>>): seq<byte>
  {
    if chunks == [] then [] else Flatten(chunks[..|chunks| - 1]) + chunks[|chunks| - 1]
  }

  /** Reading on from where a slice stops extends the slice. */
  lemma SliceGrow(data: seq<byte>, a: nat, b: nat, n: nat)
    requires a <= b < |data|
    ensures Slice(data, a, b) + Read(data, b, n) == Slice(data, a, b + n)
  {
    var c := Min(b + n, |data|);
    assert Slice(data, a, b) == data[a..b];
    assert Read(data, b, n) == data[b..c];
    assert Slice(data, a, b + n) == data[a..c];
    assert data[a..b] + data[b..c] == data[a..c];
  }

  /** Past the end of the file a slice no longer grows. */
  lemma SliceAtEnd(data: seq<byte>, a: nat, b: nat, c: nat)
    requires |data| <= b <= c
    ensures Slice(data, a, b) == Slice(data, a, c)
  {
  }

  /** Every chunk holds between 1 and ChunkSize bytes. */
  predicate ChunksFit(chunks: seq<seq<byte>>)
  {
    chunks == [] || (ChunksFit(chunks[..|chunks| - 1]) && 0 < |chunks[|chunks| - 1]| <= ChunkSize)
  }

  lemma {:induction false} ChunksFitAll(chunks: seq<seq<byte>>)
    requires ChunksFit(chunks)
    ensures forall i :: 0 <= i < |chunks| ==> 0 < |chunks[i]| <= ChunkSize
  {
    if chunks != [] {
      ChunksFitAll(chunks[..|chunks| - 1]);
    }
  }

  lemma FlattenAppend(chunks: seq<seq<byte>>, c: seq<byte>)
    ensures Flatten(chunks + [c]) == Flatten(chunks) + c
  {
    assert (chunks + [c])[..|chunks|] == chunks;
  }

  lemma ChunksFitAppend(chunks: seq<seq<byte>>, c: seq<byte>)
    requires ChunksFit(chunks) && 0 < |c| <= ChunkSize
    ensures ChunksFit(chunks + [c])
  {
    assert (chunks + [c])[..|chunks|] == chunks;
  }

  /** The range-copying loop of the handler: after `f.seek(first)` it reads
      at most 16 KiB, and never more than what remains of the range, writes what
      it read and stops when the range is complete or a read returns nothing.
      It writes exactly the range, cut short only where the file ends. */
  method StreamRange(data: seq<byte>, first: nat, length: nat) returns (written: seq<byte>, chunks: seq<seq<byte>>)
    ensures written == Slice(data, first, first + length)
    ensures Flatten(chunks) == written
    ensures ChunksFit(chunks)
  {
    var remaining: nat := length;
    var pos: nat := first;
    written := [];
    chunks := [];
    while remaining > 0
      invariant first <= pos && pos + remaining == first + length
      invariant written == Slice(data, first, pos)
      invariant Flatten(chunks) == written
      invariant ChunksFit(chunks)
      decreases remaining
    {
      var n := Min(ChunkSize, remaining);
      var buf := Read(data, pos, n);
      if buf == [] {
        SliceAtEnd(data, first, pos, first + length);
        break;
      }
      assert pos < |data|;
      SliceGrow(data, first, pos, n);
      FlattenAppend(chunks, buf);
      ChunksFitAppend(chunks, buf);
      remaining := remaining - |buf|;
      pos := pos + |buf|;
      written := written + buf;
      chunks := chunks + [buf];
    }
  }
}
