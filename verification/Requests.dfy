/** The interpreter's drain of framework requests from the ledger. A handler may publish events and
    may raise, which ends the drain. */
module Requests {
  import opened EventLog
  import opened Numbers
  import opened Text

  const TOPICS: set<string> := {
    "shell.prompt.requested",
    "framework.console.alert.requested",
    "framework.console.output.requested",
    "framework.file.page.requested",
    "framework.process.run.requested",
    "framework.process.stream.requested",
    "framework.render.table.requested"
  }

  const LIMIT: nat := 1000

  /** What a handler does with one request. Events that other processes write meanwhile count as
      published too. */
  datatype Outcome = Outcome(published: seq<Event>, raises: bool)

  /** The handlers' answers in one drain, by event id. */
  type Handlers = nat -> Outcome

  /** The ledger, the interpreter's cursor and handled set, and the history of handler calls. */
  datatype Shell = Shell(log: seq<Event>, cursor: nat, handled: set<nat>, history: seq<nat>)

  function Handle(s: Shell, e: nat, handlers: Handlers): Shell {
    Shell(s.log + handlers(e).published, Max(s.cursor, e), s.handled + {e}, s.history + [e])
  }

  function DrainFrom(s: Shell, window: seq<nat>, handlers: Handlers): Shell
    decreases |window|
  {
    if window == [] then s
    else
      var e := window[0];
      if e in s.handled then DrainFrom(s.(cursor := Max(s.cursor, e)), window[1..], handlers)
      else if handlers(e).raises then Handle(s, e, handlers)
      else DrainFrom(Handle(s, e, handlers), window[1..], handlers)
  }

  function Pending(s: Shell): seq<nat> {
    Window(s.log, TOPICS, s.cursor, LIMIT)
  }

  /** `process_framework_requests` */
  function Drain(s: Shell, handlers: Handlers): Shell {
    DrainFrom(s, Pending(s), handlers)
  }

  datatype Step = Publish(event: Event) | DrainRequests(handlers: Handlers)

  function Apply(s: Shell, step: Step): Shell {
    match step
    case Publish(event) => s.(log := s.log + [event])
    case DrainRequests(handlers) => Drain(s, handlers)
  }

  function Run(s: Shell, steps: seq<Step>): Shell {
    if steps == [] then s
    else Apply(Run(s, steps[..|steps| - 1]), steps[|steps| - 1])
  }

  function Initial(log: seq<Event>, start: nat): Shell {
    Shell(log, start, {}, [])
  }

  // ---------- one drain ----------

  /** How many requests of a window are handed over: up to the first handler that raises. */
  function Reach(window: seq<nat>, handlers: Handlers): (n: nat)
    ensures n <= |window|
    ensures forall k :: 0 <= k < n - 1 ==> !handlers(window[k]).raises
    ensures n < |window| ==> n > 0 && handlers(window[n - 1]).raises
  {
    if window == [] then 0
    else if handlers(window[0]).raises then 1
    else 1 + Reach(window[1..], handlers)
  }

  function PublishedBy(ids: seq<nat>, handlers: Handlers): seq<Event> {
    if ids == [] then [] else handlers(ids[0]).published + PublishedBy(ids[1..], handlers)
  }

  /** Nothing above the cursor has been handled. */
  ghost predicate Fresh(s: Shell) {
    forall e :: e in s.handled ==> e <= s.cursor
  }

  /** `s'` is `s` after the requests `done` were handed over. */
  ghost predicate HandedOver(s: Shell, s': Shell, done: seq<nat>, handlers: Handlers) {
    && s'.history == s.history + done
    && s'.log == s.log + PublishedBy(done, handlers)
    && s'.cursor == (if done == [] then s.cursor else done[|done| - 1])
    && s'.handled == s.handled + (set e | e in done)
  }

  lemma HandedOneMore(s: Shell, s': Shell, e: nat, done: seq<nat>, handlers: Handlers)
    requires s.cursor <= e && HandedOver(Handle(s, e, handlers), s', done, handlers)
    ensures HandedOver(s, s', [e] + done, handlers)
  {
    Associative(s.history, [e], done);
    Associative(s.log, handlers(e).published, PublishedBy(done, handlers));
    assert ([e] + done)[0] == e && ([e] + done)[1..] == done;
    assert forall x :: x in [e] + done <==> x == e || x in done;
  }

  lemma {:induction false} DrainFromHands(s: Shell, window: seq<nat>, handlers: Handlers, top: nat)
    requires Fresh(s) && Ascending(s.cursor, window, top)
    ensures HandedOver(s, DrainFrom(s, window, handlers), window[..Reach(window, handlers)], handlers)
    decreases |window|
  {
    if window != [] {
      var e, rest := window[0], window[1..];
      var s1 := Handle(s, e, handlers);
      if handlers(e).raises {
        assert window[..1] == [e] + [];
        HandedOneMore(s, s1, e, [], handlers);
      } else {
        assert forall i :: 0 <= i < |rest| ==> rest[i] == window[i + 1];
        DrainFromHands(s1, rest, handlers, top);
        var done := rest[..Reach(rest, handlers)];
        assert window[..Reach(window, handlers)] == [e] + done;
        HandedOneMore(s, DrainFrom(s1, rest, handlers), e, done, handlers);
      }
    }
  }

  /** A drain hands over the lowest pending requests in order, as many as the limit allows or up to
      the first that raises, and its cursor ends on the last of them. */
  lemma DrainHands(s: Shell, handlers: Handlers)
    requires Fresh(s)
    ensures var s', done := Drain(s, handlers), Pending(s)[..Reach(Pending(s), handlers)];
      && s'.history == s.history + done
      && s'.log == s.log + PublishedBy(done, handlers)
      && s'.cursor == (if done == [] then s.cursor else done[|done| - 1])
      && s'.handled == s.handled + (set e | e in done)
      && s.cursor <= s'.cursor && Fresh(s')
  {
    WindowAscends(s.log, TOPICS, s.cursor, LIMIT);
    DrainFromHands(s, Pending(s), handlers, |s.log|);
  }

  // ---------- every run ----------

  /** Exactly the requests above the start and up to the cursor have been handed over, in order. */
  ghost predicate Inv(start: nat, s: Shell) {
    && start <= s.cursor <= |s.log|
    && TopicIds(s.log, TOPICS, start) + s.history == TopicIds(s.log, TOPICS, s.cursor)
    && s.handled == (set e | e in s.history)
    && Fresh(s)
  }

  lemma LogGrows(start: nat, s: Shell, more: seq<Event>)
    requires Inv(start, s)
    ensures Inv(start, s.(log := s.log + more))
  {
    TopicIdsAppend(s.log, more, TOPICS, start);
    TopicIdsAppend(s.log, more, TOPICS, s.cursor);
  }

  lemma DrainKeepsInv(start: nat, s: Shell, handlers: Handlers)
    requires Inv(start, s)
    ensures Inv(start, Drain(s, handlers))
  {
    var window := Pending(s);
    var n := Reach(window, handlers);
    DrainHands(s, handlers);
    if n > 0 {
      WindowContinues(s.log, TOPICS, s.cursor, LIMIT, n - 1);
      Associative(TopicIds(s.log, TOPICS, start), s.history, window[..n]);
      assert window[..n][n - 1] == window[n - 1];
      var quiet := Drain(s, handlers).(log := s.log);
      assert Inv(start, quiet);
      LogGrows(start, quiet, PublishedBy(window[..n], handlers));
    } else {
      assert s.history + window[..n] == s.history;
      LogGrows(start, s, PublishedBy(window[..n], handlers));
    }
  }

  lemma {:induction false} RunKeepsInv(log: seq<Event>, start: nat, steps: seq<Step>)
    requires start <= |log|
    ensures Inv(start, Run(Initial(log, start), steps))
  {
    if steps != [] {
      var s, step := Run(Initial(log, start), steps[..|steps| - 1]), steps[|steps| - 1];
      RunKeepsInv(log, start, steps[..|steps| - 1]);
      match step {
        case Publish(event) => LogGrows(start, s, [event]);
        case DrainRequests(handlers) => DrainKeepsInv(start, s, handlers);
      }
    }
  }

  /** Over any number of drains, with handlers that publish or raise: requests are handed over in
      strictly increasing id order, and exactly those above the start and up to the cursor. */
  lemma EachRequestHandledOnce(log: seq<Event>, start: nat, steps: seq<Step>)
    requires start <= |log|
    ensures var s := Run(Initial(log, start), steps);
      && (forall i, j :: 0 <= i < j < |s.history| ==> s.history[i] < s.history[j])
      && (forall e :: e in s.history <==> start < e <= s.cursor && e <= |s.log| && s.log[e - 1].topic in TOPICS)
  {
    RunKeepsInv(log, start, steps);
    var s := Run(Initial(log, start), steps);
    HistoryMeans(s.log, start, s.cursor, s.history);
  }

  lemma HistoryMeans(log: seq<Event>, start: nat, cursor: nat, history: seq<nat>)
    requires start <= cursor <= |log| && TopicIds(log, TOPICS, start) + history == TopicIds(log, TOPICS, cursor)
    ensures forall i, j :: 0 <= i < j < |history| ==> history[i] < history[j]
    ensures forall e :: e in history <==> start < e <= cursor && log[e - 1].topic in TOPICS
  {
    TopicIdsExact(log, TOPICS, start);
    TopicIdsExact(log, TOPICS, cursor);
    RestOfAscending(TopicIds(log, TOPICS, start), history);
  }

  lemma RestOfAscending(first: seq<nat>, rest: seq<nat>)
    requires forall i, j :: 0 <= i < j < |first + rest| ==> (first + rest)[i] < (first + rest)[j]
    ensures forall i, j :: 0 <= i < j < |rest| ==> rest[i] < rest[j]
    ensures forall e :: e in rest <==> e in first + rest && e !in first
  {
    forall i, j | 0 <= i < j < |rest|
      ensures rest[i] < rest[j]
    {
      assert (first + rest)[|first| + i] < (first + rest)[|first| + j];
    }
    forall i, k | 0 <= i < |rest| && 0 <= k < |first|
      ensures rest[i] != first[k]
    {
      assert (first + rest)[k] < (first + rest)[|first| + i];
    }
  }

  /** A request that waits is handed over by the next drain if it is the lowest one, whatever the
      handlers do: a request that raises is not retried and holds nothing up. */
  lemma DrainMakesProgress(s: Shell, handlers: Handlers, e: nat)
    requires Fresh(s) && s.cursor < e <= |s.log| && s.log[e - 1].topic in TOPICS
    requires forall x :: s.cursor <= x < e - 1 ==> s.log[x].topic !in TOPICS
    ensures s.history + [e] <= Drain(s, handlers).history
  {
    DrainHands(s, handlers);
    LowestFirst(s.log, s.cursor, e, LIMIT);
    assert Pending(s)[..Reach(Pending(s), handlers)][0] == e;
  }

  lemma {:induction false} LowestFirst(log: seq<Event>, cursor: nat, e: nat, limit: nat)
    requires limit > 0 && cursor < e <= |log| && log[e - 1].topic in TOPICS
    requires forall x :: cursor <= x < e - 1 ==> log[x].topic !in TOPICS
    ensures |Window(log, TOPICS, cursor, limit)| > 0 && Window(log, TOPICS, cursor, limit)[0] == e
    decreases e - cursor
  {
    if cursor + 1 < e {
      assert log[cursor].topic !in TOPICS;
      LowestFirst(log, cursor + 1, e, limit);
    }
  }

  // ---------- the handled set ----------

  /** The same steps by an interpreter that forgets its handled set before each of them. */
  function ForgetfulRun(s: Shell, steps: seq<Step>): Shell {
    if steps == [] then s
    else Apply(ForgetfulRun(s, steps[..|steps| - 1]).(handled := {}), steps[|steps| - 1])
  }

  /** The handled set never changes an outcome: the cursor alone gives the same ledger, the same
      cursor and the same handler calls. */
  lemma {:induction false} HandledSetIsRedundant(log: seq<Event>, start: nat, steps: seq<Step>)
    requires start <= |log|
    ensures var s, t := Run(Initial(log, start), steps), ForgetfulRun(Initial(log, start), steps);
      s.log == t.log && s.cursor == t.cursor && s.history == t.history
  {
    if steps != [] {
      var front, step := steps[..|steps| - 1], steps[|steps| - 1];
      HandledSetIsRedundant(log, start, front);
      if step.DrainRequests? {
        RunKeepsInv(log, start, front);
        DrainHands(Run(Initial(log, start), front), step.handlers);
        DrainHands(ForgetfulRun(Initial(log, start), front).(handled := {}), step.handlers);
      }
    }
  }

  // ---------- the interpreter's state ----------

  class Interpreter {
    var log: seq<Event>
    var afterId: nat
    var handledIds: set<nat>
    ghost var history: seq<nat>

    constructor (log: seq<Event>, start: nat)
      ensures Abstract() == Initial(log, start)
    {
      this.log, afterId, handledIds, history := log, start, {}, [];
    }

    ghost function Abstract(): Shell
      reads this
    {
      Shell(log, afterId, handledIds, history)
    }

    method HandleFrameworkRequest(eventId: nat, handlers: Handlers) returns (raised: bool)
      modifies this`log, this`history
      ensures log == old(log) + handlers(eventId).published && history == old(history) + [eventId]
      ensures raised == handlers(eventId).raises
    {
      history := history + [eventId];
      log := log + handlers(eventId).published;
      raised := handlers(eventId).raises;
    }

    method ProcessFrameworkRequests(handlers: Handlers) returns (raised: bool)
      modifies this
      ensures Abstract() == Apply(old(Abstract()), DrainRequests(handlers))
      ensures Fresh(old(Abstract())) ==>
        (raised <==> exists e :: e in Pending(old(Abstract())) && handlers(e).raises)
    {
      ghost var s := Abstract();
      var window := Window(log, TOPICS, afterId, LIMIT);
      WindowAscends(log, TOPICS, afterId, LIMIT);
      assert window[0..] == window;
      for i := 0 to |window|
        invariant DrainFrom(s, window, handlers) == DrainFrom(Abstract(), window[i..], handlers)
        invariant forall x :: x in handledIds ==> x in s.handled || x in window[..i]
        invariant Fresh(s) ==> forall k :: 0 <= k < i ==> !handlers(window[k]).raises
      {
        var eventId := window[i];
        assert window[i..][0] == eventId && window[i..][1..] == window[i + 1..];
        afterId := Max(afterId, eventId);
        if eventId in handledIds {
          continue;
        }
        handledIds := handledIds + {eventId};
        raised := HandleFrameworkRequest(eventId, handlers);
        if raised {
          return;
        }
      }
      raised := false;
    }
  }

  predicate IsRequest(topic: string) {
    || topic == "shell.prompt.requested"
    || topic == "framework.console.alert.requested" || topic == "framework.console.output.requested"
    || topic == "framework.file.page.requested" || topic == "framework.render.table.requested"
    || topic == "framework.process.run.requested" || topic == "framework.process.stream.requested"
  }

  /** Over any number of drains, the requests that were handed over are those of the seven kinds. */
  lemma SevenKindsAreHandled(log: seq<Event>, start: nat, steps: seq<Step>, e: nat)
    requires start <= |log|
    ensures var s := Run(Initial(log, start), steps);
      e in s.history <==> start < e <= s.cursor && e <= |s.log| && IsRequest(s.log[e - 1].topic)
  {
    EachRequestHandledOnce(log, start, steps);
  }

  /** One drain hands over a thousand requests at most. */
  lemma DrainIsLimited(s: Shell, handlers: Handlers)
    requires Fresh(s)
    ensures |Drain(s, handlers).history| <= |s.history| + 1000
  {
    DrainHands(s, handlers);
    WindowAtMost(s.log, TOPICS, s.cursor, LIMIT);
  }

  /** When fewer wait and no handler raises, none is left. */
  lemma DrainEmptiesQueue(s: Shell, handlers: Handlers)
    requires Fresh(s) && s.cursor <= |s.log| && |Pending(s)| < 1000
    requires forall e :: e in Pending(s) ==> !handlers(e).raises
    ensures forall e :: s.cursor < e <= |s.log| && s.log[e - 1].topic in TOPICS ==> e in Drain(s, handlers).history
  {
    DrainHands(s, handlers);
    WindowTakesAll(s.log, TOPICS, s.cursor, LIMIT);
    TopicIdsExact(s.log, TOPICS, |s.log|);
    TopicIdsExact(s.log, TOPICS, s.cursor);
    var window := Pending(s);
    assert forall k :: 0 <= k < |window| ==> window[k] in window;
    assert window[..|window|] == window;
    forall e | s.cursor < e <= |s.log| && s.log[e - 1].topic in TOPICS
      ensures e in Drain(s, handlers).history
    {
      assert e in TopicIds(s.log, TOPICS, s.cursor) + window;
    }
  }
}
