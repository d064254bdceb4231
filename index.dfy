/** `make_index`: the HTML directory listing served at "/<secret>/". Each
    shared name becomes one list item whose link target is the percent-encoded
    name (relative to the listing, so it resolves to "/<secret>/<name>") and
    whose text is the HTML-escaped name, in natural-sort order. */
module Index {
  import opened Strings
  import Percent
  import Html
  import NaturalSort

  /** The fixed text of `index_template` around its three `{}` slots. */
  const Doctype: string :=
    "<!DOCTYPE HTML PUBLIC \"-//W3C//DTD HTML 4.01//EN\" \"http://www.w3.org/TR/html4/strict.dtd\">\n"
    + "<html>\n<head>\n<meta http-equiv=\"Content-Type\" content=\"text/html; charset=utf-8\">\n"
  const BodyOpen: string := "\n</head>\n<body>\n"
  const ListOpen: string := "\n<hr>\n<ul>\n"
  const Tail: string := "\n</ul>\n<hr>\n</body>\n</html>\n"

  const ItemOpen: string := "<li><a href=\""
  const HrefClose: string := "\">"
  const ItemClose: string := "</a></li>"

  /** The listing's own path, `f"/{secret}/"`. */
  function Directory(secret: string): string
  {
    "/" + secret + "/"
  }

  function Title(directory: string): string
  {
    "<title>Directory listing for " + directory + "</title>"
  }

  function Heading(directory: string): string
  {
    "<h1>Directory listing for " + directory + "</h1>"
  }

  /** The template up to the list, with the directory in the title and the heading. */
  function Head(directory: string): string
  {
    Doctype + (Title(directory) + (BodyOpen + (Heading(directory) + ListOpen)))
  }

  /** `f"<li><a href=\"{urllib.parse.quote(i)}\">{html.escape(i)}</a></li>"`. */
  function Item(name: string): string
  {
    ItemOpen + (Percent.Quote(name) + (HrefClose + (Html.Escape(name) + ItemClose)))
  }

  function Items(names: seq<string>): (r: seq<string>)
    ensures |r| == |names|
    ensures forall i :: 0 <= i < |names| ==> r[i] == Item(names[i])
  {
    if names == [] then [] else [Item(names[0])] + Items(names[1..])
  }

  /** `make_index(names)`. */
  function MakeIndex(secret: string, names: seq<string>): string
  {
    Head(Directory(secret)) + (Join(Items(NaturalSort.NaturalSort(names)), "\n") + Tail)
  }

  /** What a reader of the listing sees in one item: the link target and the text. */
  datatype Link = Link(href: string, text: string)

  /** The index of the first c in s, or |s| when there is none. */
  function IndexOf(s: string, c: char): (i: nat)
    ensures i <= |s|
    ensures i < |s| ==> s[i] == c
    ensures forall k :: 0 <= k < i ==> s[k] != c
  {
    if s == [] || s[0] == c then 0 else 1 + IndexOf(s[1..], c)
  }

  /** Reads `prefix`, then the text up to the next `stop`: that text and what follows it. */
  function ReadField(s: string, prefix: string, stop: char): (r: Option<(string, string)>)
    ensures r.Some? ==> |r.value.1| < |s| - |prefix| + 1
  {
    if !StartsWith(s, prefix) then None
    else
      var a := s[|prefix|..];
      var i := IndexOf(a, stop);
      Some((a[..i], a[i..]))
  }

  /** Reads one list item off the front of s: the text up to the next '"' is the
      target, the text up to the next '<' after it is the link text. */
  function ParseItem(s: string): (r: Option<(Link, string)>)
    ensures r.Some? ==> |r.value.1| < |s|
  {
    match ReadField(s, ItemOpen, '"')
    case None => None
    case Some((href, b)) =>
      match ReadField(b, HrefClose, '<')
      case None => None
      case Some((text, d)) =>
        if !StartsWith(d, ItemClose) then None
        else Some((Link(href, text), d[|ItemClose|..]))
  }

  /** Reads items separated by newlines. */
  function ParseList(s: string): Option<seq<Link>>
    decreases |s|
  {
    if s == [] then Some([])
    else
      match ParseItem(s)
      case None => None
      case Some((link, rest)) =>
        if rest == [] then Some([link])
        else if rest[0] != '\n' then None
        else
          match ParseList(rest[1..])
          case None => None
          case Some(links) => Some([link] + links)
  }

  /** Reads the items of a listing page for the given directory. */
  function ParseIndex(directory: string, page: string): Option<seq<Link>>
  {
    match Unframe(page, Head(directory), Tail)
    case None => None
    case Some(body) => ParseList(body)
  }

  /** The text of page between a leading h and a trailing t, if it has both. */
  function Unframe(page: string, h: string, t: string): Option<string>
  {
    if |page| < |h| + |t| || page[..|h|] != h || page[|page| - |t|..] != t then None
    else Some(page[|h|..|page| - |t|])
  }

  /** The links `make_index` writes for the names, in the given order. */
  function Links(names: seq<string>): (r: seq<Link>)
    ensures |r| == |names|
    ensures forall i :: 0 <= i < |names| ==> r[i] == Link(Percent.Quote(names[i]), Html.Escape(names[i]))
  {
    if names == [] then [] else [Link(Percent.Quote(names[0]), Html.Escape(names[0]))] + Links(names[1..])
  }

  lemma IndexOfAt(a: string, c: char, b: string)
    requires c !in a
    requires b != [] && b[0] == c
    ensures IndexOf(a + b, c) == |a|
    decreases |a|
  {
    if a != [] {
      assert (a + b)[1..] == a[1..] + b;
      assert a == [a[0]] + a[1..];
      IndexOfAt(a[1..], c, b);
    } else {
      assert a + b == b;
    }
  }

  /** ReadField reads a field that holds no `stop` and is followed by one. */
  lemma ReadFieldOf(prefix: string, field: string, stop: char, rest: string)
    requires stop !in field
    requires rest != [] && rest[0] == stop
    ensures ReadField(prefix + (field + rest), prefix, stop) == Some((field, rest))
  {
    var s := prefix + (field + rest);
    assert s[..|prefix|] == prefix && s[|prefix|..] == field + rest;
    IndexOfAt(field, stop, rest);
    assert (field + rest)[..|field|] == field && (field + rest)[|field|..] == rest;
  }

  lemma ParseItemFields(q: string, e: string, rest: string)
    requires '"' !in q && '<' !in e
    ensures ParseItem(ItemOpen + (q + (HrefClose + (e + (ItemClose + rest))))) == Some((Link(q, e), rest))
  {
    var d := ItemClose + rest;
    var b := HrefClose + (e + d);
    var s := ItemOpen + (q + b);
    assert ReadField(s, ItemOpen, '"') == Some((q, b)) by {
      assert b[0] == '"';
      ReadFieldOf(ItemOpen, q, '"', b);
    }
    assert ReadField(b, HrefClose, '<') == Some((e, d)) by {
      assert d[0] == '<';
      ReadFieldOf(HrefClose, e, '<', d);
    }
    assert StartsWith(d, ItemClose) && d[|ItemClose|..] == rest by {
      assert d[..|ItemClose|] == ItemClose;
    }
    assert ParseItem(s) == Some((Link(q, e), rest));
  }

  /** The parser reads one item back: its target is the quoted name, its text
      the escaped name. */
  lemma ParseItemOf(name: string, rest: string)
    ensures ParseItem(Item(name) + rest) == Some((Link(Percent.Quote(name), Html.Escape(name)), rest))
  {
    var q, e := Percent.Quote(name), Html.Escape(name);
    assert Item(name) + rest == ItemOpen + (q + (HrefClose + (e + (ItemClose + rest))));
    ParseItemFields(q, e, rest);
  }

  /** The parser reads back every item of the joined list, in order. */
  lemma {:induction false} ParseItems(names: seq<string>)
    ensures ParseList(Join(Items(names), "\n")) == Some(Links(names))
  {
    if names == [] {
    } else if |names| == 1 {
      ParseItemOf(names[0], []);
      assert Item(names[0]) + [] == Item(names[0]);
      assert Items(names) == [Item(names[0])];
      assert Links(names) == [Link(Percent.Quote(names[0]), Html.Escape(names[0]))];
    } else {
      var more := Join(Items(names[1..]), "\n");
      assert Items(names)[1..] == Items(names[1..]);
      assert Join(Items(names), "\n") == Item(names[0]) + ("\n" + more);
      ParseItemOf(names[0], "\n" + more);
      ParseItems(names[1..]);
      assert ("\n" + more)[1..] == more;
    }
  }

  /** Unframe takes off exactly the frame put around a text. */
  lemma Unwrap(h: string, body: string, t: string)
    ensures Unframe(h + (body + t), h, t) == Some(body)
  {
    var page := h + (body + t);
    assert page[..|h|] == h;
    assert page[|page| - |t|..] == t;
    assert page[|h|..|page| - |t|] == body;
  }

  /** `make_index` emits one item per name, in natural-sort order, each linking
      to the percent-encoding of its name and showing its HTML escape; reading a
      link back (percent-decoding the target, unescaping the text) gives the
      name, and the names listed are exactly the names given. */
  lemma MakeIndexLinks(secret: string, names: seq<string>)
    ensures ParseIndex(Directory(secret), MakeIndex(secret, names)) == Some(Links(NaturalSort.NaturalSort(names)))
    ensures var links := Links(NaturalSort.NaturalSort(names));
      && |links| == |names|
      && (forall i :: 0 <= i < |links| ==>
            && Percent.Unquote(links[i].href) == NaturalSort.NaturalSort(names)[i]
            && Html.Unescape(links[i].text) == NaturalSort.NaturalSort(names)[i])
    ensures multiset(NaturalSort.NaturalSort(names)) == multiset(names)
  {
    var sorted := NaturalSort.NaturalSort(names);
    NaturalSort.NaturalSortCorrect(names);
    assert |sorted| == |names| by {
      assert |multiset(sorted)| == |multiset(names)|;
    }
    assert ParseIndex(Directory(secret), MakeIndex(secret, names)) == Some(Links(sorted)) by {
      Unwrap(Head(Directory(secret)), Join(Items(sorted), "\n"), Tail);
      ParseItems(sorted);
    }
    forall i | 0 <= i < |sorted|
      ensures Percent.Unquote(Links(sorted)[i].href) == sorted[i]
      ensures Html.Unescape(Links(sorted)[i].text) == sorted[i]
    {
      Percent.UnquoteQuote(sorted[i]);
      Html.UnescapeEscape(sorted[i]);
    }
  }

  /** s holds t somewhere. */
  predicate Contains(s: string, t: string)
  {
    exists i :: 0 <= i <= |s| && StartsWith(s[i..], t)
  }

  lemma Located(a: string, t: string, b: string)
    ensures Contains(a + (t + b), t)
  {
    assert (a + (t + b))[|a|..] == t + b;
  }

  /** Text found in a string is found in any extension of it. */
  lemma ContainsExtend(a: string, b: string, t: string)
    requires Contains(a, t)
    ensures Contains(a + b, t)
  {
    var i :| 0 <= i <= |a| && StartsWith(a[i..], t);
    assert (a + b)[i..] == a[i..] + b;
    assert (a[i..] + b)[..|t|] == t;
  }

  lemma HeadContains(dir: string)
    ensures Contains(Head(dir), Title(dir))
    ensures Contains(Head(dir), Heading(dir))
  {
    var y := BodyOpen + (Heading(dir) + ListOpen);
    assert Contains(Head(dir), Title(dir)) by {
      Located(Doctype, Title(dir), y);
    }
    assert Contains(Head(dir), Heading(dir)) by {
      var a := Doctype + (Title(dir) + BodyOpen);
      assert Head(dir) == a + (Heading(dir) + ListOpen);
      Located(a, Heading(dir), ListOpen);
    }
  }

  /** Both the title and the heading of the listing name its directory. */
  lemma TitleAndHeading(secret: string, names: seq<string>)
    ensures Contains(MakeIndex(secret, names), Title(Directory(secret)))
    ensures Contains(MakeIndex(secret, names), Heading(Directory(secret)))
  {
    var dir := Directory(secret);
    var rest := Join(Items(NaturalSort.NaturalSort(names)), "\n") + Tail;
    HeadContains(dir);
    ContainsExtend(Head(dir), rest, Title(dir));
    ContainsExtend(Head(dir), rest, Heading(dir));
  }
}
