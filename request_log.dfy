/** `Handler.log_message`: the server keeps the last hundred request log
    lines in the `logs` list. Each message is appended, and then the oldest
    entries are popped from the front while there are more than a hundred. */
module RequestLog {
  import opened Strings

  /** `while len(logs) > 100`. */
  const Capacity: nat := 100

  /** The log lines kept of a history of messages: its last `Capacity`, or all of it. */
  function Recent(history: seq<string>): seq<string>
  {
    if |history| <= Capacity then history else history[|history| - Capacity..]
  }

  class Log {
    /** `logs`. */
    var entries: seq<string>
    /** Every message logged so far, oldest first. */
    ghost var history: seq<string>

    /** The log holds the recent part of the history. */
    ghost predicate Valid()
      reads this
    {
      entries == Recent(history)
    }

    constructor()
      ensures Valid()
      ensures entries == [] && history == []
    {
      entries := [];
      history := [];
    }

    /** `logs.append(msg)`, then `logs.pop(0)` while the log is over capacity. */
    method Append(msg: string)
      requires Valid()
      modifies this
      ensures Valid()
      ensures history == old(history) + [msg]
      ensures entries == Recent(old(entries) + [msg])
    {
      var appended := entries + [msg];
      var e := appended;
      while |e| > Capacity
        invariant Recent(e) == Recent(appended)
        decreases |e|
      {
        DropOldest(e);
        e := e[1..];
      }
      RecentAppend(old(history), msg);
      entries := e;
      history := old(history) + [msg];
    }
  }

  /** Popping the oldest line of an over-full log keeps its recent part. */
  lemma DropOldest(e: seq<string>)
    requires |e| > Capacity
    ensures Recent(e[1..]) == Recent(e)
  {
  }

  /** The log never holds more than `Capacity` lines, and holds every line
      while fewer than that many have been logged. */
  lemma RecentBound(history: seq<string>)
    ensures |Recent(history)| == Min(|history|, Capacity)
  {
  }

  /** The log is the newest part of the history, in arrival order. */
  lemma RecentSuffix(history: seq<string>)
    ensures |Recent(history)| <= |history|
    ensures Recent(history) == history[|history| - |Recent(history)|..]
    ensures forall i :: 0 <= i < |Recent(history)| ==>
      Recent(history)[i] == history[|history| - |Recent(history)| + i]
  {
  }

  /** Appending to a log that holds the recent part of a history gives the
      recent part of the longer history: the log can forget old lines. */
  lemma RecentAppend(history: seq<string>, msg: string)
    ensures Recent(Recent(history) + [msg]) == Recent(history + [msg])
  {
    var h := history + [msg];
    if |history| > Capacity {
      var r := Recent(history);
      assert r + [msg] == h[|h| - Capacity - 1..];
      assert (r + [msg])[1..] == h[|h| - Capacity..];
    }
  }

  /** The message just logged is the newest line. */
  lemma NewestLast(history: seq<string>, msg: string)
    ensures var r := Recent(history + [msg]);
      r != [] && r[|r| - 1] == msg
  {
  }
}
