/** The sort key of `natural_sort`: `alphanum_key` splits a name with
    `re.split('([0-9]+)', name)` into alternating text and ASCII digit runs,
    lower-cases the text runs and reads the digit runs as integers. */
module SortKey {
  import opened Strings

  /** One element of a sort key: a lower-cased text run or a digit run's value. */
  datatype Part = Text(text: string) | Num(value: nat)

  /** `re.split('([0-9]+)', s)`: text runs and digit runs, alternating,
      starting and ending with a text run (SplitAlternating, SplitConcat). Built from the back:
      a non-digit joins the first text run, a digit joins or opens the first
      digit run. */
  function Split(s: string): (parts: seq<string>)
    ensures parts != []
  {
    if s == [] then [[]]
    else
      var p := Split(s[1..]);
      if !IsDigit(s[0]) then [[s[0]] + p[0]] + p[1..]
      else if p[0] == [] && |p| > 1 then [[], [s[0]] + p[1]] + p[2..]
      else [[], [s[0]]] + p
  }

  /** A text run (no digit), then pairs of a non-empty digit run and a text
      run; only the first and the last text run may be empty, so every digit
      run is maximal. */
  predicate Alternating(parts: seq<string>)
    decreases |parts|
  {
    && parts != []
    && HasNoDigit(parts[0])
    && (|parts| == 1 ||
        (|parts| >= 3 && parts[1] != [] && IsDigits(parts[1])
         && (|parts| > 3 ==> parts[2] != []) && Alternating(parts[2..])))
  }

  lemma AlternatingText(c: char, p: seq<string>)
    requires !IsDigit(c) && Alternating(p)
    ensures Alternating([[c] + p[0]] + p[1..])
  {
    var parts := [[c] + p[0]] + p[1..];
    NoDigitCons(c, p[0]);
    assert parts[0] == [c] + p[0];
    if |p| > 1 {
      assert parts[1] == p[1] && parts[2..] == p[2..];
    }
  }

  lemma AlternatingDigitJoin(c: char, p: seq<string>)
    requires IsDigit(c) && |p| > 1 && p[0] == [] && Alternating(p)
    ensures Alternating([[], [c] + p[1]] + p[2..])
  {
    var parts := [[], [c] + p[1]] + p[2..];
    DigitsCons(c, p[1]);
    assert parts[0] == [] && parts[1] == [c] + p[1] && parts[2..] == p[2..];
  }

  lemma AlternatingDigitOpen(c: char, p: seq<string>)
    requires IsDigit(c) && Alternating(p) && (p[0] != [] || |p| == 1)
    ensures Alternating([[], [c]] + p)
  {
    var parts := [[], [c]] + p;
    DigitsCons(c, []);
    assert parts[0] == [] && parts[1] == [c] && parts[2..] == p;
  }

  /** The pieces of `re.split` alternate as Alternating says. */
  lemma {:induction false} SplitAlternating(s: string)
    ensures Alternating(Split(s))
  {
    if s != [] {
      var p := Split(s[1..]);
      SplitAlternating(s[1..]);
      if !IsDigit(s[0]) {
        AlternatingText(s[0], p);
      } else if p[0] == [] && |p| > 1 {
        AlternatingDigitJoin(s[0], p);
      } else {
        AlternatingDigitOpen(s[0], p);
      }
    }
  }

  lemma ConcatCons(a: string, q: seq<string>)
    ensures Concat([a] + q) == a + Concat(q)
  {
    assert ([a] + q)[1..] == q;
  }

  lemma ConcatEmptyCons(q: seq<string>)
    ensures Concat([[]] + q) == Concat(q)
  {
    ConcatCons([], q);
    assert [] + Concat(q) == Concat(q);
  }

  lemma ConcatFirst(q: seq<string>)
    requires q != []
    ensures Concat(q) == q[0] + Concat(q[1..])
  {
  }

  lemma ConcatText(c: char, p: seq<string>)
    requires p != []
    ensures Concat([[c] + p[0]] + p[1..]) == [c] + Concat(p)
  {
    ConcatFirst(p);
    ConcatCons([c] + p[0], p[1..]);
  }

  lemma ConcatEmptyThen(x: string, r: seq<string>)
    ensures Concat([[], x] + r) == x + Concat(r)
  {
    assert [[], x] + r == [[]] + ([x] + r);
    ConcatEmptyCons([x] + r);
    ConcatCons(x, r);
  }

  lemma ConcatSkipEmpty(p: seq<string>)
    requires |p| > 1 && p[0] == []
    ensures Concat(p) == p[1] + Concat(p[2..])
  {
    ConcatFirst(p);
    ConcatFirst(p[1..]);
    assert p[1..][1..] == p[2..];
  }

  lemma ConcatDigitJoin(c: char, x: string, r: seq<string>)
    ensures Concat([[], [c] + x] + r) == [c] + (x + Concat(r))
  {
    ConcatEmptyThen([c] + x, r);
  }

  lemma ConcatDigitOpen(c: char, p: seq<string>)
    ensures Concat([[], [c]] + p) == [c] + Concat(p)
  {
    ConcatCons([c], p);
    ConcatEmptyCons([[c]] + p);
    assert [[], [c]] + p == [[]] + ([[c]] + p);
  }

  /** Concatenated, the pieces of `re.split` give the name back. */
  lemma {:induction false} SplitConcat(s: string)
    ensures Concat(Split(s)) == s
  {
    if s == [] {
      ConcatCons([], []);
    } else {
      var p := Split(s[1..]);
      SplitConcat(s[1..]);
      if !IsDigit(s[0]) {
        ConcatText(s[0], p);
      } else if p[0] == [] && |p| > 1 {
        ConcatDigitJoin(s[0], p[1], p[2..]);
        ConcatSkipEmpty(p);
      } else {
        ConcatDigitOpen(s[0], p);
      }
      assert s == [s[0]] + s[1..];
    }
  }

  /** `int(text) if text.isdigit() else text.lower()`. */
  function Convert(p: string): Part
  {
    if p != [] && IsDigits(p) then Num(DecimalValue(p)) else Text(Lower(p))
  }

  function Converted(parts: seq<string>): (key: seq<Part>)
    ensures |key| == |parts|
    ensures forall i :: 0 <= i < |parts| ==> key[i] == Convert(parts[i])
  {
    if parts == [] then [] else [Convert(parts[0])] + Converted(parts[1..])
  }

  /** `alphanum_key(name)`. */
  function Key(name: string): seq<Part>
  {
    Converted(Split(name))
  }

  /** A key has a text element first and then pairs of a number and a text. */
  predicate KeyShape(key: seq<Part>)
    decreases |key|
  {
    && key != [] && key[0].Text?
    && (|key| == 1 || (|key| >= 3 && key[1].Num? && KeyShape(key[2..])))
  }

  lemma {:induction false} ConvertedShape(parts: seq<string>)
    requires Alternating(parts)
    ensures KeyShape(Converted(parts))
    decreases |parts|
  {
    if |parts| > 1 {
      ConvertedShape(parts[2..]);
      assert Converted(parts)[2..] == Converted(parts[2..]);
    }
  }

  /** Every key is text, number, text, ..., text: two keys are compared
      Text with Text and Num with Num at each position. Digits here are ASCII
      digits; a name with other Unicode digits makes the program raise. */
  lemma KeyAlternates(name: string)
    ensures KeyShape(Key(name))
  {
    SplitAlternating(name);
    ConvertedShape(Split(name));
  }

}
