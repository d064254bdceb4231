/** `natural_sort`: names ordered by a key that splits each name into
    alternating text and ASCII digit runs, lower-cases the text and reads the
    digit runs as integers, so "file2" comes before "file10". Python's
    `sorted` is stable, and so is the insertion sort below. */
module NaturalSort {
  import opened Strings
  import opened SortKey
  import Lex

  function CharLess(a: char, b: char): bool { a < b }

  /** Python's `<` between two key elements. Keys alternate Text and Num at
      the same positions (KeyAlternates), so a Text is only ever compared with
      a Text and a Num with a Num; the mixed case, a TypeError in Python, is
      given an arbitrary fixed answer to keep the order total. */
  function PartLess(x: Part, y: Part): bool
  {
    match (x, y)
    case (Text(s), Text(t)) => Lex.LexLess(s, t, CharLess)
    case (Num(m), Num(n)) => m < n
    case (Num(_), Text(_)) => true
    case (Text(_), Num(_)) => false
  }

  /** Python's `<` between two keys (lists). */
  function KeyLess(a: seq<Part>, b: seq<Part>): bool
  {
    Lex.LexLess(a, b, PartLess)
  }

  lemma PartLessIsStrictTotalOrder()
    ensures Lex.IsStrictTotalOrder(PartLess)
  {
    assert Lex.IsStrictTotalOrder(CharLess);
    forall x: Part ensures !PartLess(x, x) {
      if x.Text? { Lex.LexIrreflexive(x.text, CharLess); }
    }
    forall x: Part, y: Part, z: Part | PartLess(x, y) && PartLess(y, z) ensures PartLess(x, z) {
      if x.Text? && y.Text? && z.Text? { Lex.LexTransitive(x.text, y.text, z.text, CharLess); }
    }
    forall x: Part, y: Part | x != y ensures PartLess(x, y) || PartLess(y, x) {
      if x.Text? && y.Text? { Lex.LexTotal(x.text, y.text, CharLess); }
    }
  }

  lemma KeyLessIrreflexive(a: seq<Part>)
    ensures !KeyLess(a, a)
  {
    PartLessIsStrictTotalOrder();
    Lex.LexIrreflexive(a, PartLess);
  }

  lemma KeyLessTransitive(a: seq<Part>, b: seq<Part>, c: seq<Part>)
    requires KeyLess(a, b) && KeyLess(b, c)
    ensures KeyLess(a, c)
  {
    PartLessIsStrictTotalOrder();
    Lex.LexTransitive(a, b, c, PartLess);
  }

  lemma KeyLessTotal(a: seq<Part>, b: seq<Part>)
    requires a != b
    ensures KeyLess(a, b) || KeyLess(b, a)
  {
    PartLessIsStrictTotalOrder();
    Lex.LexTotal(a, b, PartLess);
  }

  /** "not b < a" is transitive: the order `sorted` establishes is a total preorder. */
  lemma KeyNotLessTransitive(a: seq<Part>, b: seq<Part>, c: seq<Part>)
    requires !KeyLess(b, a) && !KeyLess(c, b)
    ensures !KeyLess(c, a)
  {
    if KeyLess(c, a) {
      if a == b {
        assert false;
      } else {
        KeyLessTotal(a, b);
        KeyLessTransitive(c, a, b);
        assert false;
      }
    }
  }

  /** a may stand before b in a list sorted by key: b's key is not less than a's. */
  predicate InOrder(a: string, b: string, key: string -> seq<Part>)
  {
    !KeyLess(key(b), key(a))
  }

  predicate Sorted(s: seq<string>, key: string -> seq<Part>)
  {
    forall i, j :: 0 <= i < j < |s| ==> InOrder(s[i], s[j], key)
  }

  lemma SortedCons(y: string, r: seq<string>, key: string -> seq<Part>)
    requires Sorted(r, key)
    requires forall j :: 0 <= j < |r| ==> InOrder(y, r[j], key)
    ensures Sorted([y] + r, key)
  {
    var s := [y] + r;
    forall i, j | 0 <= i < j < |s| ensures InOrder(s[i], s[j], key) {
      if i > 0 { assert s[i] == r[i - 1] && s[j] == r[j - 1]; }
    }
  }

  lemma SortedTail(s: seq<string>, key: string -> seq<Part>)
    requires s != [] && Sorted(s, key)
    ensures Sorted(s[1..], key)
  {
    forall i, j | 0 <= i < j < |s[1..]| ensures InOrder(s[1..][i], s[1..][j], key) {
      assert s[1..][i] == s[i + 1] && s[1..][j] == s[j + 1];
    }
  }

  /** The names of s whose key is k, in their order in s. */
  function WithKey(s: seq<string>, k: seq<Part>, key: string -> seq<Part>): (r: seq<string>)
    ensures |r| <= |s|
  {
    if s == [] then [] else (if key(s[0]) == k then [s[0]] else []) + WithKey(s[1..], k, key)
  }

  /** Puts x in front of the first name whose key is not less than x's. */
  function Insert(x: string, s: seq<string>, key: string -> seq<Part>): seq<string>
  {
    if s == [] then [x]
    else if KeyLess(key(s[0]), key(x)) then [s[0]] + Insert(x, s[1..], key)
    else [x] + s
  }

  /** Python's `sorted(l, key=key)` with keys compared as lists. */
  function SortBy(l: seq<string>, key: string -> seq<Part>): seq<string>
  {
    if l == [] then [] else Insert(l[0], SortBy(l[1..], key), key)
  }

  /** `natural_sort(l)`. */
  function NaturalSort(l: seq<string>): seq<string>
  {
    SortBy(l, Key)
  }

  lemma InsertAfterSmaller(x: string, s: seq<string>, key: string -> seq<Part>)
    requires s != [] && Sorted(s, key) && KeyLess(key(s[0]), key(x))
    requires Sorted(Insert(x, s[1..], key), key)
    requires multiset(Insert(x, s[1..], key)) == multiset(s[1..]) + multiset{x}
    ensures Sorted(Insert(x, s, key), key)
  {
    var r := Insert(x, s[1..], key);
    forall j | 0 <= j < |r| ensures InOrder(s[0], r[j], key) {
      assert r[j] in multiset(r);
      if r[j] == x {
        if KeyLess(key(x), key(s[0])) {
          KeyLessTransitive(key(x), key(s[0]), key(x));
          KeyLessIrreflexive(key(x));
        }
      } else {
        assert r[j] in multiset(s[1..]);
        var k :| 0 <= k < |s[1..]| && s[1..][k] == r[j];
        assert s[k + 1] == r[j];
      }
    }
    SortedCons(s[0], r, key);
  }

  lemma InsertInFront(x: string, s: seq<string>, key: string -> seq<Part>)
    requires s != [] && Sorted(s, key) && !KeyLess(key(s[0]), key(x))
    ensures Sorted(Insert(x, s, key), key)
  {
    forall j | 0 <= j < |s| ensures InOrder(x, s[j], key) {
      if j > 0 {
        assert InOrder(s[0], s[j], key);
        KeyNotLessTransitive(key(x), key(s[0]), key(s[j]));
      }
    }
    SortedCons(x, s, key);
  }

  lemma {:induction false} InsertSorted(x: string, s: seq<string>, key: string -> seq<Part>)
    requires Sorted(s, key)
    ensures Sorted(Insert(x, s, key), key)
    ensures multiset(Insert(x, s, key)) == multiset(s) + multiset{x}
    decreases |s|
  {
    if s == [] {
    } else if KeyLess(key(s[0]), key(x)) {
      SortedTail(s, key);
      InsertSorted(x, s[1..], key);
      InsertAfterSmaller(x, s, key);
      assert s == [s[0]] + s[1..];
      assert Insert(x, s, key) == [s[0]] + Insert(x, s[1..], key);
    } else {
      InsertInFront(x, s, key);
    }
  }

  /** `sorted` returns a permutation of its input, ordered by key. */
  lemma {:induction false} SortBySortedPermutation(l: seq<string>, key: string -> seq<Part>)
    ensures Sorted(SortBy(l, key), key)
    ensures multiset(SortBy(l, key)) == multiset(l)
  {
    if l != [] {
      SortBySortedPermutation(l[1..], key);
      InsertSorted(l[0], SortBy(l[1..], key), key);
      assert l == [l[0]] + l[1..];
    }
  }

  lemma WithKeyCons(x: string, s: seq<string>, k: seq<Part>, key: string -> seq<Part>)
    ensures WithKey([x] + s, k, key) == (if key(x) == k then [x] else []) + WithKey(s, k, key)
  {
    assert ([x] + s)[0] == x && ([x] + s)[1..] == s;
  }

  lemma {:induction false} InsertWithKey(x: string, s: seq<string>, k: seq<Part>, key: string -> seq<Part>)
    ensures WithKey(Insert(x, s, key), k, key) == WithKey([x] + s, k, key)
    decreases |s|
  {
    if s != [] && KeyLess(key(s[0]), key(x)) {
      var y, rest := s[0], s[1..];
      var fx := if key(x) == k then [x] else [];
      var fy := if key(y) == k then [y] else [];
      assert fy + fx == fx + fy by {
        if key(y) == key(x) {
          KeyLessIrreflexive(key(x));
        }
      }
      assert s == [y] + rest;
      calc {
        WithKey(Insert(x, s, key), k, key);
        { assert Insert(x, s, key) == [y] + Insert(x, rest, key); }
        WithKey([y] + Insert(x, rest, key), k, key);
        { WithKeyCons(y, Insert(x, rest, key), k, key); }
        fy + WithKey(Insert(x, rest, key), k, key);
        { InsertWithKey(x, rest, k, key); WithKeyCons(x, rest, k, key); }
        fy + (fx + WithKey(rest, k, key));
        (fx + fy) + WithKey(rest, k, key);
        { WithKeyCons(y, rest, k, key); }
        fx + WithKey(s, k, key);
        { WithKeyCons(x, s, k, key); }
        WithKey([x] + s, k, key);
      }
    } else if s != [] {
      assert Insert(x, s, key) == [x] + s;
    }
  }

  /** `sorted` is stable: names with equal keys keep their relative order. */
  lemma {:induction false} SortByStable(l: seq<string>, k: seq<Part>, key: string -> seq<Part>)
    ensures WithKey(SortBy(l, key), k, key) == WithKey(l, k, key)
  {
    if l != [] {
      SortByStable(l[1..], k, key);
      InsertWithKey(l[0], SortBy(l[1..], key), k, key);
      WithKeyCons(l[0], SortBy(l[1..], key), k, key);
      WithKeyCons(l[0], l[1..], k, key);
      assert l == [l[0]] + l[1..];
    }
  }

  /** `natural_sort(l)` is a permutation of l, ordered by the natural key,
      and names with equal keys (such as "a01" and "a1", or "README" and
      "readme") keep their input order. */
  lemma NaturalSortCorrect(l: seq<string>)
    ensures multiset(NaturalSort(l)) == multiset(l)
    ensures Sorted(NaturalSort(l), Key)
    ensures forall k :: WithKey(NaturalSort(l), k, Key) == WithKey(l, k, Key)
  {
    SortBySortedPermutation(l, Key);
    forall k ensures WithKey(NaturalSort(l), k, Key) == WithKey(l, k, Key) {
      SortByStable(l, k, Key);
    }
  }
}
