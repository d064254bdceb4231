/** The share registry, the `shares` dictionary from file names to absolute
    paths, and its two updates: `command_add`, which shares the regular,
    non-empty files a glob pattern matches under their base names, and
    `command_del`, which withdraws every name a shell-style pattern matches.
    A Python dictionary keeps its keys in insertion order, and the listing is
    built from that order, so the registry keeps the order beside the map. */
module Registry {
  import opened Strings

  /** One path the glob pattern matched, with what the file system says of
      it: whether it is a regular file, its size and its absolute path. */
  datatype Match = Match(path: string, isFile: bool, size: nat, absPath: string)

  /** `os.path.isfile(i) and os.path.getsize(i) > 0`. */
  predicate Eligible(m: Match)
  {
    m.isFile && m.size > 0
  }

  /** `os.path.basename(i)`. */
  function Basename(m: Match): string
  {
    LastSegment(m.path)
  }

  /** The match shares a file under the name. */
  predicate SharesAs(m: Match, name: string)
  {
    Eligible(m) && Basename(m) == name
  }

  predicate Distinct(s: seq<string>)
  {
    forall i, j :: 0 <= i < j < |s| ==> s[i] != s[j]
  }

  /** A sequence without repetitions holds each of its elements exactly once. */
  lemma {:induction false} DistinctOnce(s: seq<string>)
    requires Distinct(s)
    ensures multiset(s) == multiset(set x | x in s)
  {
    if s != [] {
      var rest := set x | x in s[1..];
      assert Distinct(s[1..]) by {
        forall i, j | 0 <= i < j < |s[1..]| ensures s[1..][i] != s[1..][j] {
          assert s[1..][i] == s[i + 1] && s[1..][j] == s[j + 1];
        }
      }
      DistinctOnce(s[1..]);
      assert s[0] !in rest;
      assert (set x | x in s) == {s[0]} + rest by {
        assert s == [s[0]] + s[1..];
      }
      assert s == [s[0]] + s[1..];
      calc {
        multiset(s);
        multiset([s[0]]) + multiset(s[1..]);
        multiset{s[0]} + multiset(rest);
        multiset({s[0]} + rest);
      }
    }
  }

  /** `list(shares.keys())` holds each shared name exactly once. */
  lemma KeysOnce(order: seq<string>, paths: map<string, string>)
    requires Consistent(order, paths)
    ensures multiset(order) == multiset(paths.Keys)
  {
    DistinctOnce(order);
    assert (set x | x in order) == paths.Keys;
  }

  /** Where `shares[name] = path` leaves the key order: a new key goes last,
      a key already present keeps its place. */
  function PutOrder(order: seq<string>, name: string): seq<string>
  {
    if name in order then order else order + [name]
  }

  /** The map after `command_add` has gone through the matches. */
  function AddPaths(paths: map<string, string>, ms: seq<Match>): map<string, string>
  {
    if ms == [] then paths
    else
      var before := AddPaths(paths, ms[..|ms| - 1]);
      var m := ms[|ms| - 1];
      if Eligible(m) then before[Basename(m) := m.absPath] else before
  }

  /** The key order after `command_add` has gone through the matches. */
  function AddOrder(order: seq<string>, ms: seq<Match>): seq<string>
  {
    if ms == [] then order
    else
      var before := AddOrder(order, ms[..|ms| - 1]);
      var m := ms[|ms| - 1];
      if Eligible(m) then PutOrder(before, Basename(m)) else before
  }

  /** The matched paths `command_add` reports as added, in match order. */
  function Accepted(ms: seq<Match>): (r: seq<string>)
    ensures |r| <= |ms|
  {
    if ms == [] then []
    else Accepted(ms[..|ms| - 1]) + (if Eligible(ms[|ms| - 1]) then [ms[|ms| - 1].path] else [])
  }

  /** The keys a pattern matches, in key order. */
  function Matching(order: seq<string>, pattern: string -> bool): (r: seq<string>)
    ensures |r| <= |order|
  {
    if order == [] then []
    else Matching(order[..|order| - 1], pattern) + (if pattern(order[|order| - 1]) then [order[|order| - 1]] else [])
  }

  /** The keys a pattern does not match, in key order. */
  function Remaining(order: seq<string>, pattern: string -> bool): (r: seq<string>)
    ensures |r| <= |order|
  {
    if order == [] then []
    else Remaining(order[..|order| - 1], pattern) + (if pattern(order[|order| - 1]) then [] else [order[|order| - 1]])
  }

  /** The map without the keys a pattern matches. */
  function Without(paths: map<string, string>, pattern: string -> bool): map<string, string>
  {
    map k | k in paths && !pattern(k) :: paths[k]
  }

  /** The last match that shares a file under `name`, if any. */
  function LastMatchFor(ms: seq<Match>, name: string): (r: Option<nat>)
    ensures r.Some? ==> r.value < |ms|
  {
    if ms == [] then None
    else if SharesAs(ms[|ms| - 1], name) then Some(|ms| - 1)
    else LastMatchFor(ms[..|ms| - 1], name)
  }

  /** The order lists every key of the map exactly once. */
  ghost predicate Consistent(order: seq<string>, paths: map<string, string>)
  {
    Distinct(order) && forall k :: k in paths <==> k in order
  }

  class Registry {
    /** `list(shares.keys())`. */
    var order: seq<string>
    /** `shares`. */
    var paths: map<string, string>

    /** The order lists every key of the map exactly once. */
    ghost predicate Valid()
      reads this
    {
      Consistent(order, paths)
    }

    constructor()
      ensures Valid()
      ensures order == [] && paths == map[]
    {
      order := [];
      paths := map[];
    }

    /** `command_add`: shares every eligible match under its base name, the
        later of two matches with one base name winning. */
    method Add(matches: seq<Match>) returns (added: seq<string>)
      requires Valid()
      modifies this
      ensures Valid()
      ensures paths == AddPaths(old(paths), matches)
      ensures order == AddOrder(old(order), matches)
      ensures added == Accepted(matches)
    {
      var p0, o0 := paths, order;
      var p, o := p0, o0;
      added := [];
      var i := 0;
      while i < |matches|
        invariant 0 <= i <= |matches|
        invariant Consistent(o, p)
        invariant p == AddPaths(p0, matches[..i])
        invariant o == AddOrder(o0, matches[..i])
        invariant added == Accepted(matches[..i])
      {
        var m := matches[i];
        AddStep(p0, o0, matches, i);
        if m.isFile && m.size > 0 {
          var name := LastSegment(m.path);
          PutConsistent(o, p, name, m.absPath);
          if name !in p {
            o := o + [name];
          }
          p := p[name := m.absPath];
          added := added + [m.path];
        }
        i := i + 1;
      }
      assert matches[..|matches|] == matches;
      paths, order := p, o;
    }

    /** `command_del`: collects the keys the pattern matches, in key order,
        and removes each of them. */
    method Del(pattern: string -> bool) returns (removed: seq<string>)
      requires Valid()
      modifies this
      ensures Valid()
      ensures removed == Matching(old(order), pattern)
      ensures order == Remaining(old(order), pattern)
      ensures paths == Without(old(paths), pattern)
    {
      var ks, p0 := order, paths;
      var p := p0;
      removed := [];
      var kept := [];
      var i := 0;
      while i < |ks|
        invariant 0 <= i <= |ks|
        invariant removed == Matching(ks[..i], pattern)
        invariant kept == Remaining(ks[..i], pattern)
        invariant forall k :: k in p <==> k in p0 && !(k in ks[..i] && pattern(k))
        invariant forall k :: k in p ==> p[k] == p0[k]
      {
        var k := ks[i];
        assert ks[..i + 1][..i] == ks[..i];
        assert ks[..i + 1] == ks[..i] + [k];
        if pattern(k) {
          removed := removed + [k];
          p := p - {k};
        } else {
          kept := kept + [k];
        }
        i := i + 1;
      }
      assert ks[..|ks|] == ks;
      assert p == Without(p0, pattern);
      RemainingDistinct(ks, pattern);
      RemainingMembers(ks, pattern);
      paths, order := p, kept;
    }
  }

  lemma AddStep(paths: map<string, string>, order: seq<string>, ms: seq<Match>, i: nat)
    requires i < |ms|
    ensures AddPaths(paths, ms[..i + 1])
         == if Eligible(ms[i]) then AddPaths(paths, ms[..i])[Basename(ms[i]) := ms[i].absPath] else AddPaths(paths, ms[..i])
    ensures AddOrder(order, ms[..i + 1])
         == if Eligible(ms[i]) then PutOrder(AddOrder(order, ms[..i]), Basename(ms[i])) else AddOrder(order, ms[..i])
    ensures Accepted(ms[..i + 1]) == Accepted(ms[..i]) + (if Eligible(ms[i]) then [ms[i].path] else [])
  {
    assert ms[..i + 1][..i] == ms[..i];
  }

  /** Setting a key keeps the order and the map consistent. */
  lemma PutConsistent(order: seq<string>, paths: map<string, string>, name: string, path: string)
    requires Consistent(order, paths)
    ensures Consistent(PutOrder(order, name), paths[name := path])
    ensures PutOrder(order, name) == if name in paths then order else order + [name]
  {
  }

  /** The index LastMatchFor finds is an eligible match for the name, and no
      later match is one; when it finds none, no match is one. */
  lemma {:induction false} LastMatchForSpec(ms: seq<Match>, name: string)
    ensures var r := LastMatchFor(ms, name);
      r.Some? ==> SharesAs(ms[r.value], name) && forall j :: r.value < j < |ms| ==> !SharesAs(ms[j], name)
    ensures LastMatchFor(ms, name).None? ==> forall j :: 0 <= j < |ms| ==> !SharesAs(ms[j], name)
    decreases |ms|
  {
    if ms == [] {
    } else if SharesAs(ms[|ms| - 1], name) {
      assert LastMatchFor(ms, name) == Some(|ms| - 1);
    } else {
      var init := ms[..|ms| - 1];
      var r := LastMatchFor(init, name);
      assert LastMatchFor(ms, name) == r;
      LastMatchForSpec(init, name);
      if r.Some? {
        assert SharesAs(ms[r.value], name) by {
          assert ms[r.value] == init[r.value];
        }
        forall j | r.value < j < |ms|
          ensures !SharesAs(ms[j], name)
        {
          if j < |ms| - 1 {
            assert ms[j] == init[j];
          }
        }
      } else {
        forall j | 0 <= j < |ms|
          ensures !SharesAs(ms[j], name)
        {
          if j < |ms| - 1 {
            assert ms[j] == init[j];
          }
        }
      }
    }
  }

  lemma {:induction false} MatchingMembers(order: seq<string>, pattern: string -> bool)
    ensures forall k :: k in Matching(order, pattern) <==> k in order && pattern(k)
  {
    if order != [] {
      MatchingMembers(order[..|order| - 1], pattern);
      assert order == order[..|order| - 1] + [order[|order| - 1]];
    }
  }

  lemma {:induction false} RemainingMembers(order: seq<string>, pattern: string -> bool)
    ensures forall k :: k in Remaining(order, pattern) <==> k in order && !pattern(k)
  {
    if order != [] {
      RemainingMembers(order[..|order| - 1], pattern);
      assert order == order[..|order| - 1] + [order[|order| - 1]];
    }
  }

  lemma {:induction false} RemainingDistinct(order: seq<string>, pattern: string -> bool)
    requires Distinct(order)
    ensures Distinct(Remaining(order, pattern))
  {
    if order != [] {
      var init := order[..|order| - 1];
      var last := order[|order| - 1];
      assert Distinct(init);
      RemainingDistinct(init, pattern);
      RemainingMembers(init, pattern);
      assert last !in init;
    }
  }

  /** `command_del` splits the keys into the removed ones and the kept ones:
      together they are the old keys, none is in both, every removed key
      matches and no kept key does. */
  lemma {:induction false} DelPartition(order: seq<string>, pattern: string -> bool)
    ensures multiset(Matching(order, pattern)) + multiset(Remaining(order, pattern)) == multiset(order)
    ensures forall k :: k in Matching(order, pattern) ==> pattern(k)
    ensures forall k :: k in Remaining(order, pattern) ==> !pattern(k)
  {
    MatchingMembers(order, pattern);
    RemainingMembers(order, pattern);
    DelSplit(order, pattern);
  }

  lemma {:induction false} DelSplit(order: seq<string>, pattern: string -> bool)
    ensures multiset(Matching(order, pattern)) + multiset(Remaining(order, pattern)) == multiset(order)
  {
    if order != [] {
      var init := order[..|order| - 1];
      var last := order[|order| - 1];
      DelSplit(init, pattern);
      assert order == init + [last];
      assert multiset(order) == multiset(init) + multiset{last};
    }
  }

  /** Deleting with the same pattern again removes nothing and changes nothing. */
  lemma DelIdempotent(order: seq<string>, paths: map<string, string>, pattern: string -> bool)
    ensures Matching(Remaining(order, pattern), pattern) == []
    ensures Remaining(Remaining(order, pattern), pattern) == Remaining(order, pattern)
    ensures Without(Without(paths, pattern), pattern) == Without(paths, pattern)
  {
    var rest := Remaining(order, pattern);
    RemainingMembers(order, pattern);
    MatchingMembers(rest, pattern);
    RemainingKeeps(rest, pattern);
    MatchingNone(rest, pattern);
  }

  lemma {:induction false} MatchingNone(order: seq<string>, pattern: string -> bool)
    requires forall k :: k in order ==> !pattern(k)
    ensures Matching(order, pattern) == []
  {
    if order != [] {
      MatchingNone(order[..|order| - 1], pattern);
    }
  }

  lemma {:induction false} RemainingKeeps(order: seq<string>, pattern: string -> bool)
    requires forall k :: k in order ==> !pattern(k)
    ensures Remaining(order, pattern) == order
  {
    if order != [] {
      RemainingKeeps(order[..|order| - 1], pattern);
      assert order == order[..|order| - 1] + [order[|order| - 1]];
    }
  }

  /** After `command_add` a name holds the absolute path of the last eligible
      match with that base name; a name no eligible match has keeps what it had. */
  lemma {:induction false} AddLastWins(paths: map<string, string>, ms: seq<Match>, name: string)
    ensures match LastMatchFor(ms, name)
      case Some(i) => name in AddPaths(paths, ms) && AddPaths(paths, ms)[name] == ms[i].absPath
      case None =>
        && (name in AddPaths(paths, ms) <==> name in paths)
        && (name in paths ==> AddPaths(paths, ms)[name] == paths[name])
  {
    if ms != [] {
      AddLastWins(paths, ms[..|ms| - 1], name);
    }
  }

  /** `command_add` never moves or drops a key: the old order is a prefix of
      the new one, and the new keys are the base names of eligible matches. */
  lemma {:induction false} AddKeepsOrder(order: seq<string>, ms: seq<Match>)
    ensures |order| <= |AddOrder(order, ms)| && AddOrder(order, ms)[..|order|] == order
    ensures forall k :: k in AddOrder(order, ms) <==>
      k in order || exists j :: 0 <= j < |ms| && Eligible(ms[j]) && Basename(ms[j]) == k
  {
    if ms != [] {
      var init := ms[..|ms| - 1];
      AddKeepsOrder(order, init);
      var before := AddOrder(order, init);
      forall k ensures k in AddOrder(order, ms) <==>
        k in order || exists j :: 0 <= j < |ms| && Eligible(ms[j]) && Basename(ms[j]) == k
      {
        if exists j :: 0 <= j < |ms| && Eligible(ms[j]) && Basename(ms[j]) == k {
          var j :| 0 <= j < |ms| && Eligible(ms[j]) && Basename(ms[j]) == k;
          if j < |ms| - 1 {
            assert init[j] == ms[j];
          }
        }
        if exists j :: 0 <= j < |init| && Eligible(init[j]) && Basename(init[j]) == k {
          var j :| 0 <= j < |init| && Eligible(init[j]) && Basename(init[j]) == k;
          assert ms[j] == init[j];
        }
      }
    }
  }

  /** `command_add` reports exactly the eligible matches, in match order. */
  lemma {:induction false} AcceptedEligible(ms: seq<Match>)
    ensures forall p :: p in Accepted(ms) <==> exists j :: 0 <= j < |ms| && Eligible(ms[j]) && ms[j].path == p
  {
    if ms != [] {
      var init := ms[..|ms| - 1];
      AcceptedEligible(init);
      forall p ensures p in Accepted(ms) <==> exists j :: 0 <= j < |ms| && Eligible(ms[j]) && ms[j].path == p {
        if exists j :: 0 <= j < |ms| && Eligible(ms[j]) && ms[j].path == p {
          var j :| 0 <= j < |ms| && Eligible(ms[j]) && ms[j].path == p;
          if j < |ms| - 1 {
            assert init[j] == ms[j];
          }
        }
        if exists j :: 0 <= j < |init| && Eligible(init[j]) && init[j].path == p {
          var j :| 0 <= j < |init| && Eligible(init[j]) && init[j].path == p;
          assert ms[j] == init[j];
        }
      }
    }
  }
}
