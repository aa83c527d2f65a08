/** The append-only event ledger: what a consumer fetches above its cursor. */
module EventLog {
  /** A payload value; `Other` carries the text `str` gives. */
  datatype Field = Null | Flag(b: bool) | Number(n: int) | Words(s: string) | Other(text: string)

  /** An event of the ledger. Its id is its position, counted from 1. */
  datatype Event = Event(topic: string, payload: map<string, Field>, source: string)

  /** The ids after `cursor` on some topics, ascending, at most `limit` of them. */
  function Window(log: seq<Event>, topics: set<string>, cursor: nat, limit: nat): seq<nat>
    decreases |log| - cursor
  {
    if limit == 0 || cursor >= |log| then []
    else if log[cursor].topic in topics then [cursor + 1] + Window(log, topics, cursor + 1, limit - 1)
    else Window(log, topics, cursor + 1, limit)
  }

  /** All ids up to `n` on some topics, ascending. */
  function TopicIds(log: seq<Event>, topics: set<string>, n: nat): seq<nat>
    requires n <= |log|
  {
    if n == 0 then []
    else TopicIds(log, topics, n - 1) + (if log[n - 1].topic in topics then [n] else [])
  }

  lemma {:induction false} TopicIdsAppend(log: seq<Event>, more: seq<Event>, topics: set<string>, n: nat)
    requires n <= |log|
    ensures TopicIds(log + more, topics, n) == TopicIds(log, topics, n)
  {
    if n > 0 {
      TopicIdsAppend(log, more, topics, n - 1);
    }
  }

  /** A window picks up exactly where the cursor stands. */
  lemma {:induction false} WindowContinues(log: seq<Event>, topics: set<string>, cursor: nat, limit: nat, i: nat)
    requires cursor <= |log| && i < |Window(log, topics, cursor, limit)|
    ensures var w := Window(log, topics, cursor, limit);
      cursor < w[i] <= |log| && TopicIds(log, topics, w[i]) == TopicIds(log, topics, cursor) + w[..i + 1]
    decreases |log| - cursor
  {
    var w := Window(log, topics, cursor, limit);
    var before := TopicIds(log, topics, cursor);
    if log[cursor].topic in topics {
      var rest := Window(log, topics, cursor + 1, limit - 1);
      assert w == [cursor + 1] + rest;
      if i > 0 {
        WindowContinues(log, topics, cursor + 1, limit - 1, i - 1);
        assert before + [cursor + 1] + rest[..i] == before + w[..i + 1];
      } else {
        assert w[..1] == [cursor + 1];
      }
    } else {
      WindowContinues(log, topics, cursor + 1, limit, i);
      assert before + [] == before;
    }
  }

  lemma {:induction false} TopicIdsExact(log: seq<Event>, topics: set<string>, n: nat)
    requires n <= |log|
    ensures forall e :: e in TopicIds(log, topics, n) <==> 1 <= e <= n && log[e - 1].topic in topics
    ensures forall i, j :: 0 <= i < j < |TopicIds(log, topics, n)| ==>
      TopicIds(log, topics, n)[i] < TopicIds(log, topics, n)[j]
  {
    if n > 0 {
      var front := TopicIds(log, topics, n - 1);
      TopicIdsExact(log, topics, n - 1);
      assert forall i :: 0 <= i < |front| ==> front[i] in front;
    }
  }

  /** A pending event up to the `i`-th of a window is among the first ones of the window. */
  lemma PendingInWindow(log: seq<Event>, topics: set<string>, cursor: nat, limit: nat, i: nat, x: nat)
    requires cursor <= |log| && i < |Window(log, topics, cursor, limit)|
    requires cursor < x <= Window(log, topics, cursor, limit)[i] && x <= |log| && log[x - 1].topic in topics
    ensures x in Window(log, topics, cursor, limit)[..i + 1]
  {
    var window := Window(log, topics, cursor, limit);
    WindowContinues(log, topics, cursor, limit, i);
    TopicIdsExact(log, topics, window[i]);
    TopicIdsExact(log, topics, cursor);
    assert x in TopicIds(log, topics, cursor) + window[..i + 1];
  }

  lemma {:induction false} WindowAppend(log: seq<Event>, more: seq<Event>, topics: set<string>, cursor: nat, limit: nat)
    ensures Window(log, topics, cursor, limit) <= Window(log + more, topics, cursor, limit)
    decreases |log| - cursor
  {
    if limit != 0 && cursor < |log| {
      WindowAppend(log, more, topics, cursor + 1, if log[cursor].topic in topics then limit - 1 else limit);
    }
  }

  lemma {:induction false} WindowAtMost(log: seq<Event>, topics: set<string>, cursor: nat, limit: nat)
    ensures |Window(log, topics, cursor, limit)| <= limit
    decreases |log| - cursor
  {
    if limit != 0 && cursor < |log| {
      WindowAtMost(log, topics, cursor + 1, if log[cursor].topic in topics then limit - 1 else limit);
    }
  }

  /** A window takes as many as the limit allows; when it takes fewer, nothing is left. */
  lemma {:induction false} WindowTakesAll(log: seq<Event>, topics: set<string>, cursor: nat, limit: nat)
    requires cursor <= |log|
    ensures var w := Window(log, topics, cursor, limit);
      |w| <= limit && (|w| < limit ==> TopicIds(log, topics, |log|) == TopicIds(log, topics, cursor) + w)
    decreases |log| - cursor
  {
    var before := TopicIds(log, topics, cursor);
    if limit != 0 && cursor < |log| {
      if log[cursor].topic in topics {
        WindowTakesAll(log, topics, cursor + 1, limit - 1);
        Regrouped(before, [cursor + 1], Window(log, topics, cursor + 1, limit - 1));
      } else {
        WindowTakesAll(log, topics, cursor + 1, limit);
        assert before + [] == before;
      }
    } else {
      assert before + [] == before;
    }
  }

  lemma Regrouped(a: seq<nat>, b: seq<nat>, c: seq<nat>)
    ensures a + b + c == a + (b + c)
  {
  }

  ghost predicate Ascending(afterId: nat, window: seq<nat>, top: nat) {
    && (forall i :: 0 <= i < |window| ==> afterId < window[i] <= top)
    && forall i, j :: 0 <= i < j < |window| ==> window[i] < window[j]
  }

  lemma {:induction false} WindowAscends(log: seq<Event>, topics: set<string>, cursor: nat, limit: nat)
    ensures Ascending(cursor, Window(log, topics, cursor, limit), |log|)
    decreases |log| - cursor
  {
    if limit != 0 && cursor < |log| {
      if log[cursor].topic in topics {
        WindowAscends(log, topics, cursor + 1, limit - 1);
        AscendingCons(cursor, Window(log, topics, cursor + 1, limit - 1), |log|);
      } else {
        WindowAscends(log, topics, cursor + 1, limit);
      }
    }
  }

  lemma AscendingCons(afterId: nat, window: seq<nat>, top: nat)
    requires Ascending(afterId + 1, window, top) && afterId < top
    ensures Ascending(afterId, [afterId + 1] + window, top)
  {
  }
}
