/** Character and string helpers shared by the rest of the model: ASCII digit
    runs and their values (Python's `int()` and `str()` on ASCII digits),
    Python's `str.strip()` and ASCII `str.lower()`, prefixes and path segments. */
module Strings {

  datatype Option<+T> = None | Some(value: T)

  function Min(a: int, b: int): int { if a <= b then a else b }

  predicate IsDigit(c: char) { '0' <= c <= '9' }

  /** Every character is an ASCII digit (read from the end, as numerals are valued). */
  predicate IsDigits(s: string)
    decreases |s|
  {
    s == [] || (IsDigit(s[|s| - 1]) && IsDigits(s[..|s| - 1]))
  }

  /** No character is an ASCII digit. */
  predicate HasNoDigit(s: string)
    decreases |s|
  {
    s == [] || (!IsDigit(s[|s| - 1]) && HasNoDigit(s[..|s| - 1]))
  }

  lemma {:induction false} DigitsCons(c: char, s: string)
    requires IsDigit(c) && IsDigits(s)
    ensures IsDigits([c] + s)
    decreases |s|
  {
    if s != [] {
      DigitsCons(c, s[..|s| - 1]);
      assert ([c] + s)[..|s|] == [c] + s[..|s| - 1];
    }
  }

  /** A string whose characters are all ASCII digits satisfies IsDigits. */
  lemma {:induction false} AllDigits(s: string)
    requires forall i :: 0 <= i < |s| ==> IsDigit(s[i])
    ensures IsDigits(s)
    decreases |s|
  {
    if s != [] {
      AllDigits(s[..|s| - 1]);
    }
  }

  /** Every character of a digit numeral is a digit. */
  lemma {:induction false} DigitsAll(s: string)
    requires IsDigits(s)
    ensures forall i :: 0 <= i < |s| ==> IsDigit(s[i])
    decreases |s|
  {
    if s != [] {
      DigitsAll(s[..|s| - 1]);
      assert forall i :: 0 <= i < |s| - 1 ==> s[..|s| - 1][i] == s[i];
    }
  }

  lemma {:induction false} NoDigitCons(c: char, s: string)
    requires !IsDigit(c) && HasNoDigit(s)
    ensures HasNoDigit([c] + s)
    decreases |s|
  {
    if s != [] {
      NoDigitCons(c, s[..|s| - 1]);
      assert ([c] + s)[..|s|] == [c] + s[..|s| - 1];
    }
  }

  lemma {:induction false} DigitsFirst(s: string)
    requires s != [] && IsDigits(s)
    ensures IsDigit(s[0])
    decreases |s|
  {
    if |s| > 1 {
      DigitsFirst(s[..|s| - 1]);
    }
  }

  lemma {:induction false} NoDigitFirst(s: string)
    requires s != [] && HasNoDigit(s)
    ensures !IsDigit(s[0])
    decreases |s|
  {
    if |s| > 1 {
      NoDigitFirst(s[..|s| - 1]);
    }
  }

  function DigitValue(c: char): nat
    requires IsDigit(c)
  {
    c as int - '0' as int
  }

  function DigitChar(d: nat): (c: char)
    requires d < 10
    ensures IsDigit(c) && DigitValue(c) == d
  {
    ('0' as int + d) as char
  }

  /** The value of an ASCII decimal numeral, leading zeros allowed ("007" is 7). */
  function DecimalValue(s: string): nat
    requires IsDigits(s)
  {
    if s == [] then 0 else DecimalValue(s[..|s| - 1]) * 10 + DigitValue(s[|s| - 1])
  }

  /** Python's `str(n)` for a non-negative integer: the shortest decimal numeral. */
  function DecimalString(n: nat): (r: string)
    ensures r != [] && IsDigits(r)
    ensures |r| > 1 ==> r[0] != '0'
    decreases n
  {
    if n < 10 then [DigitChar(n)]
    else
      var r := DecimalString(n / 10) + [DigitChar(n % 10)];
      assert r[..|r| - 1] == DecimalString(n / 10);
      r
  }

  /** Reading back what `str(n)` printed gives n. */
  lemma {:induction false} DecimalRoundTrip(n: nat)
    ensures DecimalValue(DecimalString(n)) == n
    decreases n
  {
    if n >= 10 {
      var s := DecimalString(n / 10);
      DecimalRoundTrip(n / 10);
      assert (s + [DigitChar(n % 10)])[..|s|] == s;
    }
  }

  /** `str()` is injective, so a decimal header value names exactly one number. */
  lemma DecimalStringInjective(m: nat, n: nat)
    requires DecimalString(m) == DecimalString(n)
    ensures m == n
  {
    DecimalRoundTrip(m);
    DecimalRoundTrip(n);
  }

  /** Python's `str.isspace()`: the ASCII separators and the Unicode white space characters. */
  predicate IsSpace(c: char)
  {
    c == ' ' || '\t' <= c <= '\r' || '\U{1C}' <= c <= '\U{1F}' || c == '\U{85}' || c == '\U{A0}'
    || c == '\U{1680}' || '\U{2000}' <= c <= '\U{200A}' || c == '\U{2028}' || c == '\U{2029}'
    || c == '\U{202F}' || c == '\U{205F}' || c == '\U{3000}'
  }

  function TrimStart(s: string): (r: string)
    ensures |r| <= |s| && r == s[|s| - |r|..]
    ensures r == [] || !IsSpace(r[0])
    ensures forall i :: 0 <= i < |s| - |r| ==> IsSpace(s[i])
  {
    if s != [] && IsSpace(s[0]) then TrimStart(s[1..]) else s
  }

  function TrimEnd(s: string): (r: string)
    ensures |r| <= |s| && r == s[..|r|]
    ensures r == [] || !IsSpace(r[|r| - 1])
    ensures forall i :: |r| <= i < |s| ==> IsSpace(s[i])
  {
    if s != [] && IsSpace(s[|s| - 1]) then TrimEnd(s[..|s| - 1]) else s
  }

  /** Python's `str.strip()` with no argument. */
  function Strip(s: string): string
  {
    TrimEnd(TrimStart(s))
  }

  /** Python's `str.lower()` on ASCII letters; every other character is kept. */
  function LowerChar(c: char): char
  {
    if 'A' <= c <= 'Z' then (c as int + 32) as char else c
  }

  function Lower(s: string): (r: string)
    ensures |r| == |s|
    ensures forall i :: 0 <= i < |s| ==> r[i] == LowerChar(s[i])
  {
    if s == [] then [] else [LowerChar(s[0])] + Lower(s[1..])
  }

  predicate StartsWith(s: string, prefix: string)
  {
    |prefix| <= |s| && s[..|prefix|] == prefix
  }

  predicate EndsWith(s: string, suffix: string)
  {
    |suffix| <= |s| && s[|s| - |suffix|..] == suffix
  }

  /** Strings that agree after a common prefix agree. */
  lemma SamePrefix(p: string, x: string, y: string)
    requires p + x == p + y
    ensures x == y
  {
    assert x == (p + x)[|p|..];
    assert y == (p + y)[|p|..];
  }

  /** Strings that agree before a common suffix agree. */
  lemma SameSuffix(x: string, y: string, d: string)
    requires x + d == y + d
    ensures x == y
  {
    assert x == (x + d)[..|x|];
    assert y == (y + d)[..|y|];
  }

  /** The text after the last '/', which is both `path.split("/")[-1]` and
      `os.path.basename(path)`; the whole string when it holds no '/'. */
  function LastSegment(s: string): string
  {
    if s == [] || s[|s| - 1] == '/' then [] else LastSegment(s[..|s| - 1]) + [s[|s| - 1]]
  }

  /** The last segment is a suffix without '/', preceded by a '/' unless it is the whole string. */
  lemma {:induction false} LastSegmentSuffix(s: string)
    ensures var r := LastSegment(s);
      && |r| <= |s| && r == s[|s| - |r|..]
      && '/' !in r
      && (|r| < |s| ==> s[|s| - |r| - 1] == '/')
    decreases |s|
  {
    if s != [] && s[|s| - 1] != '/' {
      var init := s[..|s| - 1];
      LastSegmentSuffix(init);
      var q := LastSegment(init);
      assert s == init + [s[|s| - 1]];
      assert init[|init| - |q|..] + [s[|s| - 1]] == s[|s| - |q| - 1..];
      if |q| < |init| {
        assert s[|s| - |q| - 2] == init[|init| - |q| - 1];
      }
    }
  }

  /** What follows the last '/' is the last segment. */
  lemma {:induction false} LastSegmentAfterSlash(a: string, n: string)
    requires '/' !in n
    ensures LastSegment(a + ("/" + n)) == n
    decreases |n|
  {
    var s := a + ("/" + n);
    if n == [] {
      assert s[|s| - 1] == '/';
    } else {
      var m := n[..|n| - 1];
      var c := n[|n| - 1];
      assert s[..|s| - 1] == a + ("/" + m) && s[|s| - 1] == c by {
        assert n == m + [c];
        assert s == (a + ("/" + m)) + [c];
      }
      assert '/' !in m by {
        assert forall i :: 0 <= i < |m| ==> m[i] == n[i];
      }
      assert c != '/';
      assert LastSegment(s) == LastSegment(a + ("/" + m)) + [c];
      LastSegmentAfterSlash(a, m);
      assert n == m + [c];
    }
  }

  /** Concatenation of a list of strings, `"".join(parts)`. */
  function Concat(parts: seq<string>): string
  {
    if parts == [] then [] else parts[0] + Concat(parts[1..])
  }

  /** `sep.join(parts)`. */
  function Join(parts: seq<string>, sep: string): string
  {
    if parts == [] then [] else if |parts| == 1 then parts[0] else parts[0] + sep + Join(parts[1..], sep)
  }
}
