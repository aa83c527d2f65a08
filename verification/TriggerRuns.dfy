/** What every run of polls, enables, disables, restarts and crashes keeps, and what it means. */
module TriggerRuns {
  import opened EventLog
  import opened Results
  import opened Sorting
  import opened Text
  import opened Triggers

  // ---------- what every run keeps ----------

  /** The events a rule was tested against, in the order of the tests. */
  function TestsOf(tested: seq<Mark>, id: string): seq<nat> {
    if tested == [] then []
    else (if tested[0].trigger == id then [tested[0].event] else []) + TestsOf(tested[1..], id)
  }

  ghost predicate NoRepeats(pairs: seq<Mark>) {
    forall i, j :: 0 <= i < j < |pairs| ==> pairs[i] != pairs[j]
  }

  ghost predicate AtOrBelowCursor(rows: map<string, Row>, pairs: seq<Mark>) {
    forall p :: p in pairs ==> p.event <= Durable(rows, p.trigger)
  }

  ghost predicate Inv(triggers: Registry, s: State) {
    && (forall id :: id in s.cursors ==> s.cursors[id] == Durable(s.rows, id))
    && (forall id :: Durable(s.rows, id) <= |s.log|)
    && (forall p :: p in s.fired ==> p.event <= Durable(s.rows, p.trigger))
    && (forall id :: id in triggers ==>
          TestsOf(s.tested, id) == TopicIds(s.log, {triggers[id].topic}, Durable(s.rows, id)))
    && NoRepeats(s.firings)
    && AtOrBelowCursor(s.rows, s.firings)
  }

  // ---------- lemmas about windows ----------

  lemma {:induction false} TestsConcat(a: seq<Mark>, b: seq<Mark>, id: string)
    ensures TestsOf(a + b, id) == TestsOf(a, id) + TestsOf(b, id)
  {
    if a == [] {
      assert a + b == b;
    } else {
      assert (a + b)[1..] == a[1..] + b && (a + b)[0] == a[0];
      TestsConcat(a[1..], b, id);
      Associative(if a[0].trigger == id then [a[0].event] else [], TestsOf(a[1..], id), TestsOf(b, id));
    }
  }

  lemma {:induction false} TestsOfPairs(id: string, events: seq<nat>, other: string)
    ensures TestsOf(Pairs(id, events), other) == if other == id then events else []
  {
    if events != [] {
      TestsOfPairs(id, events[1..], other);
      assert Pairs(id, events)[1..] == Pairs(id, events[1..]);
      assert [events[0]] + events[1..] == events;
    }
  }

  /** The scan stops at the first match, having tested everything up to there. */
  ghost predicate HitAt(s: State, t: Trigger, window: seq<nat>, activeJobs: set<int>, i: nat) {
    var r := Scan(s, t, window, activeJobs);
    && i < |window| && r.hit == Some(window[i]) && r.tested == window[..i + 1]
    && MatchesAt(s.log, t, window[i], activeJobs)
    && forall k :: 0 <= k < i ==> !MatchesAt(s.log, t, window[k], activeJobs)
  }

  ghost predicate NoHit(s: State, t: Trigger, window: seq<nat>, activeJobs: set<int>) {
    var r := Scan(s, t, window, activeJobs);
    r.hit.None? && r.tested == window && forall k :: 0 <= k < |window| ==> !MatchesAt(s.log, t, window[k], activeJobs)
  }

  lemma {:induction false} ScanMeaning(s: State, t: Trigger, window: seq<nat>, activeJobs: set<int>) returns (i: nat)
    requires forall k :: 0 <= k < |window| ==> Mark(t.id, window[k]) !in s.fired
    ensures NoHit(s, t, window, activeJobs) || HitAt(s, t, window, activeJobs, i)
  {
    i := 0;
    if window != [] {
      var e, rest := window[0], window[1..];
      assert window == [e] + rest;
      if MatchesAt(s.log, t, e, activeJobs) {
        assert window[..1] == [e];
      } else {
        assert forall k :: 0 <= k < |rest| ==> rest[k] == window[k + 1];
        var j := ScanMeaning(s, t, rest, activeJobs);
        if HitAt(s, t, rest, activeJobs, j) {
          assert [e] + rest[..j + 1] == window[..j + 2];
          i := j + 1;
        }
      }
    }
  }

  // ---------- every step keeps the invariant ----------

  /** What a poll has to find in place: the cursors agree, and nothing above the cursor has fired. */
  lemma PollWindow(triggers: Registry, s: State, id: string, activeJobs: set<int>) returns (i: nat)
    requires Inv(triggers, s) && id in triggers
    ensures var t, cursor := triggers[id], Durable(s.rows, id);
      var window := Window(s.log, {t.topic}, cursor, WINDOW);
      && Cursor(s, id) == cursor
      && (forall k :: 0 <= k < |window| ==> cursor < window[k] <= |s.log|)
      && (NoHit(s, t, window, activeJobs) || HitAt(s, t, window, activeJobs, i))
  {
    var t, cursor := triggers[id], Durable(s.rows, id);
    var window := Window(s.log, {t.topic}, cursor, WINDOW);
    forall k | 0 <= k < |window|
      ensures cursor < window[k] <= |s.log| && Mark(t.id, window[k]) !in s.fired
    {
      WindowContinues(s.log, {t.topic}, cursor, WINDOW, k);
    }
    i := ScanMeaning(s, t, window, activeJobs);
  }

  lemma LogGrows(triggers: Registry, s: State, log: seq<Event>)
    requires Inv(triggers, s) && s.log <= log
    ensures Inv(triggers, s.(log := log))
  {
    forall id | id in triggers
      ensures TopicIds(log, {triggers[id].topic}, Durable(s.rows, id)) ==
        TopicIds(s.log, {triggers[id].topic}, Durable(s.rows, id))
    {
      TopicIdsAppend(s.log, log[|s.log|..], {triggers[id].topic}, Durable(s.rows, id));
      assert s.log + log[|s.log|..] == log;
    }
  }

  /** The tests up to a new cursor are recorded. */
  lemma MoreTests(triggers: Registry, s: State, t: Trigger, done: seq<nat>, rows: map<string, Row>, n: nat)
    requires Inv(triggers, s) && t.id in triggers && triggers[t.id] == t && n <= |s.log|
    requires TopicIds(s.log, {t.topic}, n) == TopicIds(s.log, {t.topic}, Durable(s.rows, t.id)) + done
    requires Durable(rows, t.id) == n && forall id :: id != t.id ==> Durable(rows, id) == Durable(s.rows, id)
    ensures forall id :: id in triggers ==>
      TestsOf(s.tested + Pairs(t.id, done), id) == TopicIds(s.log, {triggers[id].topic}, Durable(rows, id))
  {
    forall id | id in triggers
      ensures TestsOf(s.tested + Pairs(t.id, done), id) == TopicIds(s.log, {triggers[id].topic}, Durable(rows, id))
    {
      TestsConcat(s.tested, Pairs(t.id, done), id);
      TestsOfPairs(t.id, done, id);
      assert TestsOf(s.tested, id) + [] == TestsOf(s.tested, id);
    }
  }

  lemma NewFiring(rows: map<string, Row>, moved: map<string, Row>, firings: seq<Mark>, id: string, e: nat)
    requires NoRepeats(firings) && AtOrBelowCursor(rows, firings)
    requires Durable(rows, id) < e == Durable(moved, id)
    requires forall other :: other != id ==> Durable(moved, other) == Durable(rows, other)
    ensures NoRepeats(firings + [Mark(id, e)]) && AtOrBelowCursor(moved, firings + [Mark(id, e)])
  {
    assert Mark(id, e) !in firings;
  }

  lemma {:induction false} FireKeepsInv(triggers: Registry, s: State, t: Trigger, done: seq<nat>, e: nat)
    requires Inv(triggers, s) && t.id in triggers && triggers[t.id] == t
    requires Durable(s.rows, t.id) < e <= |s.log|
    requires TopicIds(s.log, {t.topic}, e) == TopicIds(s.log, {t.topic}, Durable(s.rows, t.id)) + done
    ensures Inv(triggers, Fire(s, t, done, e))
  {
    var rows := Upsert(s.rows, t.id, true, Some(e), Some(e));
    var quiet := Fire(s, t, done, e).(log := s.log);
    MoreTests(triggers, s, t, done, rows, e);
    NewFiring(s.rows, rows, s.firings, t.id, e);
    assert Inv(triggers, quiet);
    LogGrows(triggers, quiet, s.log + [FiredEvent(t, e, s.log[e - 1])]);
  }

  lemma {:induction false} AdvanceKeepsInv(triggers: Registry, s: State, t: Trigger, done: seq<nat>, latest: nat)
    requires Inv(triggers, s) && t.id in triggers && triggers[t.id] == t
    requires Durable(s.rows, t.id) <= latest <= |s.log|
    requires TopicIds(s.log, {t.topic}, latest) == TopicIds(s.log, {t.topic}, Durable(s.rows, t.id)) + done
    ensures Inv(triggers, Advance(s, t, done, latest))
  {
    MoreTests(triggers, s, t, done, Advance(s, t, done, latest).rows, latest);
  }

  lemma PollThatFires(triggers: Registry, s: State, id: string, activeJobs: set<int>, i: nat)
    requires Inv(triggers, s) && id in triggers
    requires HitAt(s, triggers[id], Window(s.log, {triggers[id].topic}, Durable(s.rows, id), WINDOW), activeJobs, i)
    requires Cursor(s, id) == Durable(s.rows, id)
    ensures var s' := Poll(s, triggers[id], activeJobs);
      Inv(triggers, s') && forall other :: Durable(s.rows, other) <= Durable(s'.rows, other)
  {
    var t, cursor := triggers[id], Durable(s.rows, id);
    var window := Window(s.log, {t.topic}, cursor, WINDOW);
    var done := Scan(s, t, window, activeJobs).tested;
    WindowContinues(s.log, {t.topic}, cursor, WINDOW, i);
    FireKeepsInv(triggers, s, t, done, window[i]);
  }

  lemma PollThatAdvances(triggers: Registry, s: State, id: string, activeJobs: set<int>)
    requires Inv(triggers, s) && id in triggers
    requires NoHit(s, triggers[id], Window(s.log, {triggers[id].topic}, Durable(s.rows, id), WINDOW), activeJobs)
    requires Cursor(s, id) == Durable(s.rows, id)
    ensures var s' := Poll(s, triggers[id], activeJobs);
      Inv(triggers, s') && forall other :: Durable(s.rows, other) <= Durable(s'.rows, other)
  {
    var t, cursor := triggers[id], Durable(s.rows, id);
    var window := Window(s.log, {t.topic}, cursor, WINDOW);
    if window != [] {
      WindowContinues(s.log, {t.topic}, cursor, WINDOW, |window| - 1);
      assert window[..|window|] == window;
      AdvanceKeepsInv(triggers, s, t, window, window[|window| - 1]);
    } else {
      assert TopicIds(s.log, {t.topic}, cursor) + [] == TopicIds(s.log, {t.topic}, cursor);
      AdvanceKeepsInv(triggers, s, t, window, cursor);
    }
  }

  lemma PollKeepsInv(triggers: Registry, s: State, id: string, activeJobs: set<int>)
    requires Inv(triggers, s) && id in triggers
    ensures var s' := Poll(s, triggers[id], activeJobs);
      Inv(triggers, s') && forall other :: Durable(s.rows, other) <= Durable(s'.rows, other)
  {
    var i := PollWindow(triggers, s, id, activeJobs);
    var window := Window(s.log, {triggers[id].topic}, Durable(s.rows, id), WINDOW);
    if HitAt(s, triggers[id], window, activeJobs, i) {
      PollThatFires(triggers, s, id, activeJobs, i);
    } else {
      PollThatAdvances(triggers, s, id, activeJobs);
    }
  }

  /** Writing a row without moving its cursor keeps the invariant. */
  lemma RowKeepsInv(triggers: Registry, s: State, id: string, enabled: bool, lastEvent: Option<nat>)
    requires Inv(triggers, s) && (lastEvent.None? || lastEvent.value == Durable(s.rows, id))
    ensures Inv(triggers, s.(rows := Upsert(s.rows, id, enabled, lastEvent, None)))
  {
    var rows := Upsert(s.rows, id, enabled, lastEvent, None);
    assert forall other :: Durable(rows, other) == Durable(s.rows, other);
  }

  lemma EnableKeepsInv(triggers: Registry, s: State, t: Trigger)
    requires Inv(triggers, s)
    ensures Inv(triggers, Enable(s, t))
  {
    if t.id !in s.enabled {
      var cursor := Durable(s.rows, t.id);
      var s1 := s.(rows := Upsert(s.rows, t.id, true, Some(cursor), None));
      RowKeepsInv(triggers, s, t.id, true, Some(cursor));
      LogGrows(triggers, s1, Enable(s, t).log);
    }
  }

  lemma {:induction false} DisableKeepsInv(triggers: Registry, s: State, ids: seq<string>)
    requires Inv(triggers, s)
    ensures Inv(triggers, DisableAll(s, triggers, ids))
    ensures forall id :: Durable(DisableAll(s, triggers, ids).rows, id) == Durable(s.rows, id)
    decreases |ids|
  {
    if ids != [] {
      var id := ids[0];
      var payload := if id in triggers then TriggerPayload(triggers[id]) else map["trigger_id" := Words(id)];
      var s1 := s.(rows := Upsert(s.rows, id, false, None, None));
      RowKeepsInv(triggers, s, id, false, None);
      var s2 := s1.(log := s.log + [AuditEvent("framework.trigger.disabled", payload)]);
      LogGrows(triggers, s1, s2.log);
      DisableKeepsInv(triggers, s2, ids[1..]);
    }
  }

  lemma PartlyKeepsInv(triggers: Registry, s: State, ids: seq<string>, done: nat, written: bool)
    requires Inv(triggers, s)
    ensures var t := PartlyDisabled(s, triggers, ids, done, written);
      Inv(triggers, t) && forall id :: Durable(t.rows, id) == Durable(s.rows, id)
  {
    if done >= |ids| {
      DisableKeepsInv(triggers, s, ids);
    } else {
      DisableKeepsInv(triggers, s, ids[..done]);
      RowKeepsInv(triggers, DisableAll(s, triggers, ids[..done]), ids[done], false, None);
    }
  }

  lemma RestartKeepsInv(triggers: Registry, s: State)
    requires Inv(triggers, s)
    ensures Inv(triggers, Restart(s))
  {
  }

  lemma HalfEnabledKeepsInv(triggers: Registry, s: State, id: string, written: bool)
    requires Inv(triggers, s)
    ensures var t := Apply(triggers, s, CrashInEnable(id, written));
      Inv(triggers, t) && forall other :: Durable(t.rows, other) == Durable(s.rows, other)
  {
    RowKeepsInv(triggers, s, id, true, Some(Durable(s.rows, id)));
    RestartKeepsInv(triggers, s);
    RestartKeepsInv(triggers, s.(rows := Upsert(s.rows, id, true, Some(Durable(s.rows, id)), None)));
  }

  lemma InterruptedKeepsInv(triggers: Registry, s: State, id: string, activeJobs: set<int>, point: CrashPoint)
    requires Inv(triggers, s) && id in triggers
    ensures var t := Interrupted(s, triggers[id], activeJobs, point);
      Inv(triggers, t) && forall other :: Durable(s.rows, other) <= Durable(t.rows, other)
  {
    match point {
      case BeforeRecord =>
      case BeforeRow => LogGrows(triggers, s, RecordOnly(s, triggers[id], activeJobs).log);
      case AfterRow => PollKeepsInv(triggers, s, id, activeJobs);
    }
  }

  /** So does the death of the process between two statements. */
  lemma CrashKeepsInv(triggers: Registry, s: State, step: Step)
    requires Inv(triggers, s) && (step.CrashInPoll? || step.CrashInEnable? || step.CrashInDisable?)
    ensures Inv(triggers, Apply(triggers, s, step))
    ensures forall id :: Durable(s.rows, id) <= Durable(Apply(triggers, s, step).rows, id)
  {
    match step {
      case CrashInPoll(id, activeJobs, point) =>
        if id in triggers {
          InterruptedKeepsInv(triggers, s, id, activeJobs, point);
          RestartKeepsInv(triggers, Interrupted(s, triggers[id], activeJobs, point));
        }
      case CrashInEnable(id, written) => HalfEnabledKeepsInv(triggers, s, id, written);
      case CrashInDisable(done, written) =>
        PartlyKeepsInv(triggers, s, SortedKeys(s.enabled), done, written);
        RestartKeepsInv(triggers, PartlyDisabled(s, triggers, SortedKeys(s.enabled), done, written));
    }
  }

  /** Every step keeps the invariant, and no durable cursor ever moves back. */
  lemma StepKeepsInv(triggers: Registry, s: State, step: Step)
    requires Inv(triggers, s)
    ensures Inv(triggers, Apply(triggers, s, step))
    ensures forall id :: Durable(s.rows, id) <= Durable(Apply(triggers, s, step).rows, id)
  {
    match step {
      case Publish(event) => LogGrows(triggers, s, s.log + [event]);
      case EnableTrigger(id) =>
        if id in triggers { EnableKeepsInv(triggers, s, triggers[id]); }
      case PollTrigger(id, activeJobs) =>
        if id in triggers { PollKeepsInv(triggers, s, id, activeJobs); }
      case DisableTriggers => DisableKeepsInv(triggers, s, SortedKeys(s.enabled));
      case CleanRestart => RestartKeepsInv(triggers, s);
      case CrashInPoll(_, _, _) => CrashKeepsInv(triggers, s, step);
      case CrashInEnable(_, _) => CrashKeepsInv(triggers, s, step);
      case CrashInDisable(_, _) => CrashKeepsInv(triggers, s, step);
    }
  }

  lemma {:induction false} RunKeepsInv(triggers: Registry, log: seq<Event>, steps: seq<Step>)
    ensures Inv(triggers, Run(triggers, Initial(log), steps))
  {
    if steps != [] {
      RunKeepsInv(triggers, log, steps[..|steps| - 1]);
      StepKeepsInv(triggers, Run(triggers, Initial(log), steps[..|steps| - 1]), steps[|steps| - 1]);
    }
  }

  // ---------- what the invariant says ----------

  ghost predicate TestsAre(log: seq<Event>, topic: string, cursor: nat, tests: seq<nat>) {
    && (forall e :: e in tests <==> 1 <= e <= cursor && e <= |log| && log[e - 1].topic == topic)
    && forall i, j :: 0 <= i < j < |tests| ==> tests[i] < tests[j]
  }

  /** The session's cursor of a rule agrees with the database, and the rule was tested against exactly the
      topic's events at or below the cursor, once each and in order. */
  ghost predicate TestedOnce(s: State, t: Trigger) {
    && (t.id in s.cursors ==> s.cursors[t.id] == Durable(s.rows, t.id))
    && TestsAre(s.log, t.topic, Durable(s.rows, t.id), TestsOf(s.tested, t.id))
  }

  lemma InvTestsOnce(triggers: Registry, s: State, id: string)
    requires Inv(triggers, s) && id in triggers
    ensures TestedOnce(s, triggers[id])
  {
    TopicIdsExact(s.log, {triggers[id].topic}, Durable(s.rows, id));
  }

  /** Over any run, restarts and crashes included, every rule was tested once against each event of its
      topic at or below its cursor, and no rule fired twice for an event. A pass that died before the
      write of its row is in neither history. */
  lemma TestedOnceFiredAtMostOnce(triggers: Registry, log: seq<Event>, steps: seq<Step>, id: string)
    requires id in triggers
    ensures TestedOnce(Run(triggers, Initial(log), steps), triggers[id])
    ensures NoRepeats(Run(triggers, Initial(log), steps).firings)
  {
    RunKeepsInv(triggers, log, steps);
    InvTestsOnce(triggers, Run(triggers, Initial(log), steps), id);
  }

  /** Event `e` is pending for a rule: on its topic and above its cursor. */
  ghost predicate PendingMatch(s: State, t: Trigger, e: nat, activeJobs: set<int>) {
    Durable(s.rows, t.id) < e <= |s.log| && s.log[e - 1].topic == t.topic && MatchesAt(s.log, t, e, activeJobs)
  }

  /** No pending match lies below the first match of the window. */
  lemma NothingPendingBelow(s: State, t: Trigger, activeJobs: set<int>, i: nat, x: nat)
    requires Durable(s.rows, t.id) <= |s.log|
    requires HitAt(s, t, Window(s.log, {t.topic}, Durable(s.rows, t.id), WINDOW), activeJobs, i)
    requires PendingMatch(s, t, x, activeJobs)
    ensures Window(s.log, {t.topic}, Durable(s.rows, t.id), WINDOW)[i] <= x
  {
    var window := Window(s.log, {t.topic}, Durable(s.rows, t.id), WINDOW);
    if x <= window[i] {
      PendingInWindow(s.log, {t.topic}, Durable(s.rows, t.id), WINDOW, i, x);
      var k :| 0 <= k < i + 1 && window[..i + 1][k] == x;
      assert window[k] == x;
    }
  }

  /** One poll fires the lowest pending match of its window, and nothing else. */
  lemma PollFiresLowestMatch(triggers: Registry, s: State, id: string, activeJobs: set<int>) returns (e: nat)
    requires Inv(triggers, s) && id in triggers
    ensures var t, s' := triggers[id], Poll(s, triggers[id], activeJobs);
      var window := Window(s.log, {t.topic}, Durable(s.rows, id), WINDOW);
      if exists x :: x in window && MatchesAt(s.log, t, x, activeJobs)
      then && e in window && PendingMatch(s, t, e, activeJobs)
           && (forall x :: PendingMatch(s, t, x, activeJobs) ==> e <= x)
           && s'.firings == s.firings + [Mark(id, e)] && Durable(s'.rows, id) == e
      else s'.firings == s.firings
  {
    var t, cursor := triggers[id], Durable(s.rows, id);
    var window := Window(s.log, {t.topic}, cursor, WINDOW);
    var i := PollWindow(triggers, s, id, activeJobs);
    e := 0;
    if HitAt(s, t, window, activeJobs, i) {
      e := window[i];
      WindowContinues(s.log, {t.topic}, cursor, WINDOW, i);
      TopicIdsExact(s.log, {t.topic}, e);
      assert window[..i + 1][i] == e;
      assert e in TopicIds(s.log, {t.topic}, cursor) + window[..i + 1];
      forall x | PendingMatch(s, t, x, activeJobs)
        ensures e <= x
      {
        NothingPendingBelow(s, t, activeJobs, i, x);
      }
    }
  }

  // ---------- the ledger's own record ----------

  predicate IsFiring(e: Event) {
    && e.topic == "framework.trigger.fired"
    && "trigger_id" in e.payload && e.payload["trigger_id"].Words?
    && "trigger_event_id" in e.payload && e.payload["trigger_event_id"].Number? && e.payload["trigger_event_id"].n >= 0
  }

  /** The firings the ledger records. */
  function Recorded(log: seq<Event>): seq<Mark> {
    if log == [] then []
    else
      (if IsFiring(log[0]) then [Mark(log[0].payload["trigger_id"].s, log[0].payload["trigger_event_id"].n)] else [])
      + Recorded(log[1..])
  }

  lemma {:induction false} RecordedConcat(a: seq<Event>, b: seq<Event>)
    ensures Recorded(a + b) == Recorded(a) + Recorded(b)
  {
    if a == [] {
      assert a + b == b;
    } else {
      assert (a + b)[1..] == a[1..] + b && (a + b)[0] == a[0];
      RecordedConcat(a[1..], b);
    }
  }

  lemma RecordedOne(log: seq<Event>, e: Event)
    ensures Recorded(log + [e]) == Recorded(log) +
      (if IsFiring(e) then [Mark(e.payload["trigger_id"].s, e.payload["trigger_event_id"].n)] else [])
  {
    RecordedConcat(log, [e]);
    assert [e][1..] == [];
  }

  /** A step that records no firing. */
  ghost predicate NothingRecorded(s: State, s': State) {
    Recorded(s'.log) == Recorded(s.log) && s'.firings == s.firings && s'.records == s.records &&
    s'.unsettled == s.unsettled
  }

  lemma {:induction false} DisableRecordsNothing(triggers: Registry, s: State, ids: seq<string>)
    ensures NothingRecorded(s, DisableAll(s, triggers, ids))
    decreases |ids|
  {
    if ids != [] {
      DisableOneRecordsNothing(triggers, s, ids[0]);
      DisableRecordsNothing(triggers, DisableOne(s, triggers, ids[0]), ids[1..]);
    }
  }

  lemma DisableOneRecordsNothing(triggers: Registry, s: State, id: string)
    ensures NothingRecorded(s, DisableOne(s, triggers, id))
  {
    var payload := if id in triggers then TriggerPayload(triggers[id]) else map["trigger_id" := Words(id)];
    RecordedOne(s.log, AuditEvent("framework.trigger.disabled", payload));
  }

  lemma PartlyRecordsNothing(triggers: Registry, s: State, ids: seq<string>, done: nat, written: bool)
    ensures NothingRecorded(s, PartlyDisabled(s, triggers, ids, done, written))
  {
    DisableRecordsNothing(triggers, s, if done >= |ids| then ids else ids[..done]);
  }

  lemma FiringFields(m: map<string, Field>, e: Field, topic: Field, source: Field)
    requires "trigger_id" in m
    ensures var p := m["trigger_event_id" := e]["trigger_event_topic" := topic]["trigger_event_source" := source];
      && "trigger_id" in p && p["trigger_id"] == m["trigger_id"]
      && "trigger_event_id" in p && p["trigger_event_id"] == e
  {
    assert |"trigger_id"| == 10 && |"trigger_event_id"| == 16;
    assert |"trigger_event_topic"| == 19 && |"trigger_event_source"| == 20;
  }

  lemma FiredIsFiring(t: Trigger, e: nat, event: Event)
    ensures var record := FiredEvent(t, e, event);
      && IsFiring(record)
      && Mark(record.payload["trigger_id"].s, record.payload["trigger_event_id"].n) == Mark(t.id, e)
  {
    assert |"trigger_id"| == 10 && |"topic"| == 5;
    assert TriggerPayload(t)["trigger_id"] == Words(t.id);
    FiringFields(TriggerPayload(t), Number(e), Words(event.topic), Words(event.source));
  }

  lemma FiringRecorded(log: seq<Event>, t: Trigger, e: nat)
    requires 1 <= e <= |log|
    ensures Recorded(log + [FiredEvent(t, e, log[e - 1])]) == Recorded(log) + [Mark(t.id, e)]
  {
    FiredIsFiring(t, e, log[e - 1]);
    RecordedOne(log, FiredEvent(t, e, log[e - 1]));
  }

  /** Nobody else writes firing records. */
  ghost predicate NoForgery(log: seq<Event>, steps: seq<Step>) {
    Recorded(log) == [] && forall k :: 0 <= k < |steps| && steps[k].Publish? ==> !IsFiring(steps[k].event)
  }

  lemma PollRecords(s: State, t: Trigger, activeJobs: set<int>)
    requires Recorded(s.log) == s.records
    ensures Recorded(Poll(s, t, activeJobs).log) == Poll(s, t, activeJobs).records
    ensures Recorded(RecordOnly(s, t, activeJobs).log) == RecordOnly(s, t, activeJobs).records
  {
    var scan := Scan(s, t, Window(s.log, {t.topic}, Cursor(s, t.id), WINDOW), activeJobs);
    if scan.hit.Some? {
      FiringRecorded(s.log, t, scan.hit.value);
    }
  }

  lemma InterruptedRecords(triggers: Registry, s: State, step: Step)
    requires step.CrashInPoll? && Recorded(s.log) == s.records
    ensures Recorded(Apply(triggers, s, step).log) == Apply(triggers, s, step).records
  {
    if step.id in triggers {
      PollRecords(s, triggers[step.id], step.activeJobs);
    }
  }

  lemma EnableRecordsNothing(s: State, t: Trigger)
    ensures NothingRecorded(s, Enable(s, t))
  {
    RecordedOne(s.log, AuditEvent("framework.trigger.enabled", TriggerPayload(t)));
  }

  lemma StepRecords(triggers: Registry, s: State, step: Step)
    requires step.Publish? ==> !IsFiring(step.event)
    requires Recorded(s.log) == s.records
    ensures Recorded(Apply(triggers, s, step).log) == Apply(triggers, s, step).records
  {
    match step {
      case Publish(event) => RecordedOne(s.log, event);
      case EnableTrigger(id) =>
        if id in triggers { EnableRecordsNothing(s, triggers[id]); }
      case PollTrigger(id, activeJobs) =>
        if id in triggers { PollRecords(s, triggers[id], activeJobs); }
      case DisableTriggers => DisableRecordsNothing(triggers, s, SortedKeys(s.enabled));
      case CleanRestart =>
      case CrashInPoll(_, _, _) => InterruptedRecords(triggers, s, step);
      case CrashInEnable(_, _) =>
      case CrashInDisable(done, written) => PartlyRecordsNothing(triggers, s, SortedKeys(s.enabled), done, written);
    }
  }

  /** The ledger records exactly the firings, in their order. */
  lemma {:induction false} LedgerRecordsFirings(triggers: Registry, log: seq<Event>, steps: seq<Step>)
    requires NoForgery(log, steps)
    ensures Recorded(Run(triggers, Initial(log), steps).log) == Run(triggers, Initial(log), steps).records
  {
    if steps != [] {
      var front, step := steps[..|steps| - 1], steps[|steps| - 1];
      assert forall k :: 0 <= k < |front| ==> front[k] == steps[k];
      LedgerRecordsFirings(triggers, log, front);
      StepRecords(triggers, Run(triggers, Initial(log), front), step);
    }
  }

  // ---------- a crash between the record and the row ----------

  /** How often a pass of the rule died between its record and its row. */
  function Cuts(steps: seq<Step>, id: string): nat {
    if steps == [] then 0
    else Cuts(steps[..|steps| - 1], id) + CutBy(steps[|steps| - 1], id)
  }

  function CutBy(step: Step, id: string): nat {
    if step.CrashInPoll? && step.id == id && step.point == BeforeRow then 1 else 0
  }

  /** Every record is that of a pass that wrote its row, or of one that did not. */
  ghost predicate Accounted(s: State) {
    multiset(s.records) == multiset(s.firings) + multiset(s.unsettled)
  }

  /** One more record, with its row or without. */
  ghost predicate OneMore(s: State, s': State, id: string, cut: bool) {
    exists e ::
      && s'.records == s.records + [Mark(id, e)]
      && s'.firings == (if cut then s.firings else s.firings + [Mark(id, e)])
      && s'.unsettled == (if cut then s.unsettled + [Mark(id, e)] else s.unsettled)
  }

  lemma OneMoreAccounts(s: State, s': State, id: string, cut: bool, m: Mark)
    requires Accounted(s) && OneMore(s, s', id, cut)
    ensures Accounted(s')
    ensures multiset(s'.unsettled)[m] <= multiset(s.unsettled)[m] + (if cut && m.trigger == id then 1 else 0)
  {
  }

  lemma PollAccounts(s: State, t: Trigger, activeJobs: set<int>, m: Mark)
    requires Accounted(s)
    ensures Accounted(Poll(s, t, activeJobs)) && Poll(s, t, activeJobs).unsettled == s.unsettled
  {
    var scan := Scan(s, t, Window(s.log, {t.topic}, Cursor(s, t.id), WINDOW), activeJobs);
    if scan.hit.Some? {
      assert OneMore(s, Poll(s, t, activeJobs), t.id, false);
      OneMoreAccounts(s, Poll(s, t, activeJobs), t.id, false, m);
    }
  }

  lemma CutAccounts(s: State, t: Trigger, activeJobs: set<int>, m: Mark)
    requires Accounted(s)
    ensures var s' := RecordOnly(s, t, activeJobs);
      && Accounted(s')
      && multiset(s'.unsettled)[m] <= multiset(s.unsettled)[m] + (if m.trigger == t.id then 1 else 0)
  {
    var scan := Scan(s, t, Window(s.log, {t.topic}, Cursor(s, t.id), WINDOW), activeJobs);
    if scan.hit.Some? {
      assert OneMore(s, RecordOnly(s, t, activeJobs), t.id, true);
      OneMoreAccounts(s, RecordOnly(s, t, activeJobs), t.id, true, m);
    }
  }

  lemma InterruptedAccounts(triggers: Registry, s: State, step: Step, m: Mark)
    requires Accounted(s) && step.CrashInPoll?
    ensures var s' := Apply(triggers, s, step);
      Accounted(s') && multiset(s'.unsettled)[m] <= multiset(s.unsettled)[m] + CutBy(step, m.trigger)
  {
    if step.id in triggers {
      match step.point {
        case BeforeRecord =>
        case BeforeRow => CutAccounts(s, triggers[step.id], step.activeJobs, m);
        case AfterRow => PollAccounts(s, triggers[step.id], step.activeJobs, m);
      }
    }
  }

  lemma StepAccounts(triggers: Registry, s: State, step: Step, m: Mark)
    requires Accounted(s)
    ensures var s' := Apply(triggers, s, step);
      Accounted(s') && multiset(s'.unsettled)[m] <= multiset(s.unsettled)[m] + CutBy(step, m.trigger)
  {
    match step {
      case Publish(_) =>
      case EnableTrigger(_) =>
      case PollTrigger(id, activeJobs) =>
        if id in triggers { PollAccounts(s, triggers[id], activeJobs, m); }
      case DisableTriggers => DisableRecordsNothing(triggers, s, SortedKeys(s.enabled));
      case CleanRestart =>
      case CrashInPoll(_, _, _) => InterruptedAccounts(triggers, s, step, m);
      case CrashInEnable(_, _) =>
      case CrashInDisable(done, written) => PartlyRecordsNothing(triggers, s, SortedKeys(s.enabled), done, written);
    }
  }

  lemma {:induction false} RunAccounts(triggers: Registry, log: seq<Event>, steps: seq<Step>, m: Mark)
    ensures Accounted(Run(triggers, Initial(log), steps))
    ensures multiset(Run(triggers, Initial(log), steps).unsettled)[m] <= Cuts(steps, m.trigger)
  {
    if steps != [] {
      RunAccounts(triggers, log, steps[..|steps| - 1], m);
      StepAccounts(triggers, Run(triggers, Initial(log), steps[..|steps| - 1]), steps[|steps| - 1], m);
    }
  }

  lemma {:induction false} AtMostOnce(marks: seq<Mark>, m: Mark)
    requires NoRepeats(marks)
    ensures multiset(marks)[m] <= 1
  {
    if marks != [] {
      var front, last := marks[..|marks| - 1], marks[|marks| - 1];
      assert marks == front + [last];
      AtMostOnce(front, m);
      assert last !in front;
    }
  }

  /** A rule is recorded to fire for an event at most once more than its passes died between the record
      and the row. */
  lemma RecordedOncePerCrash(triggers: Registry, log: seq<Event>, steps: seq<Step>, m: Mark)
    ensures multiset(Run(triggers, Initial(log), steps).records)[m] <= 1 + Cuts(steps, m.trigger)
  {
    RunKeepsInv(triggers, log, steps);
    RunAccounts(triggers, log, steps, m);
    AtMostOnce(Run(triggers, Initial(log), steps).firings, m);
  }

  lemma {:induction false} ScanPrefix(s: State, s': State, t: Trigger, window: seq<nat>, window': seq<nat>,
      activeJobs: set<int>)
    requires window <= window' && s.log <= s'.log
    requires forall k :: 0 <= k < |window'| ==>
      Mark(t.id, window'[k]) !in s.fired && Mark(t.id, window'[k]) !in s'.fired
    requires forall k :: 0 <= k < |window| ==> window[k] <= |s.log|
    requires Scan(s, t, window, activeJobs).hit.Some?
    ensures Scan(s', t, window', activeJobs).hit == Scan(s, t, window, activeJobs).hit
  {
    assert window[0] == window'[0];
    if !MatchesAt(s.log, t, window[0], activeJobs) {
      assert window[1..] <= window'[1..];
      ScanPrefix(s, s', t, window[1..], window'[1..], activeJobs);
    }
  }

  /** A poll that fires has hit in its window, and nothing of a window from there on has fired. */
  lemma WindowUnfired(triggers: Registry, s: State, log: seq<Event>, id: string, k: nat)
    requires Inv(triggers, s) && id in triggers && Durable(s.rows, id) <= |log|
    requires k < |Window(log, {triggers[id].topic}, Durable(s.rows, id), WINDOW)|
    ensures Mark(id, Window(log, {triggers[id].topic}, Durable(s.rows, id), WINDOW)[k]) !in s.fired
  {
    WindowContinues(log, {triggers[id].topic}, Durable(s.rows, id), WINDOW, k);
  }

  lemma FiringHits(s: State, t: Trigger, activeJobs: set<int>, e: nat)
    requires Poll(s, t, activeJobs).firings == s.firings + [Mark(t.id, e)]
    ensures Scan(s, t, Window(s.log, {t.topic}, Cursor(s, t.id), WINDOW), activeJobs).hit == Some(e)
  {
    assert (s.firings + [Mark(t.id, e)])[|s.firings|] == Mark(t.id, e);
  }

  lemma CutPoll(s: State, t: Trigger, activeJobs: set<int>, e: nat)
    requires Scan(s, t, Window(s.log, {t.topic}, Cursor(s, t.id), WINDOW), activeJobs).hit == Some(e)
    ensures var c := Restart(RecordOnly(s, t, activeJobs));
      && c.rows == s.rows && c.cursors == map[] && c.fired == {} && s.log <= c.log
      && c.records == s.records + [Mark(t.id, e)]
  {
  }

  lemma HitIsRecorded(s: State, t: Trigger, activeJobs: set<int>, e: nat)
    requires Scan(s, t, Window(s.log, {t.topic}, Cursor(s, t.id), WINDOW), activeJobs).hit == Some(e)
    ensures Poll(s, t, activeJobs).records == s.records + [Mark(t.id, e)]
  {
  }

  /** After the crash the poll finds the same event again. */
  lemma HitsAgain(triggers: Registry, s: State, c: State, id: string, activeJobs: set<int>, e: nat)
    requires Inv(triggers, s) && id in triggers && c.rows == s.rows && c.cursors == map[] && c.fired == {}
    requires s.log <= c.log
    requires Scan(s, triggers[id], Window(s.log, {triggers[id].topic}, Durable(s.rows, id), WINDOW), activeJobs).hit
          == Some(e)
    ensures Scan(c, triggers[id], Window(c.log, {triggers[id].topic}, Durable(s.rows, id), WINDOW), activeJobs).hit
         == Some(e)
  {
    var t, cursor := triggers[id], Durable(s.rows, id);
    var window, window' := Window(s.log, {t.topic}, cursor, WINDOW), Window(c.log, {t.topic}, cursor, WINDOW);
    assert c.log == s.log + c.log[|s.log|..];
    WindowAppend(s.log, c.log[|s.log|..], {t.topic}, cursor, WINDOW);
    forall k | 0 <= k < |window'|
      ensures Mark(id, window'[k]) !in s.fired
    {
      WindowUnfired(triggers, s, c.log, id, k);
    }
    WindowAscends(s.log, {t.topic}, cursor, WINDOW);
    ScanPrefix(s, c, t, window, window', activeJobs);
  }

  /** So the poll after the crash records the firing again. */
  lemma {:induction false} RecordedAgain(
      triggers: Registry, s: State, c: State, id: string, activeJobs: set<int>, e: nat)
    requires Inv(triggers, s) && id in triggers
    requires c == Restart(RecordOnly(s, triggers[id], activeJobs))
    requires Scan(s, triggers[id], Window(s.log, {triggers[id].topic}, Durable(s.rows, id), WINDOW), activeJobs).hit
          == Some(e)
    ensures Poll(c, triggers[id], activeJobs).records == s.records + [Mark(id, e), Mark(id, e)]
  {
    CutPoll(s, triggers[id], activeJobs, e);
    HitsAgain(triggers, s, c, id, activeJobs, e);
    HitIsRecorded(c, triggers[id], activeJobs, e);
    assert s.records + [Mark(id, e)] + [Mark(id, e)] == s.records + [Mark(id, e), Mark(id, e)];
  }

  lemma CrashState(triggers: Registry, s: State, id: string, activeJobs: set<int>) returns (c: State)
    requires id in triggers
    ensures c == Apply(triggers, s, CrashInPoll(id, activeJobs, BeforeRow))
    ensures c == Restart(RecordOnly(s, triggers[id], activeJobs))
    ensures Apply(triggers, c, PollTrigger(id, activeJobs)) == Poll(c, triggers[id], activeJobs)
  {
    c := Restart(RecordOnly(s, triggers[id], activeJobs));
  }

  /** Such a crash does cost one more: the rule fires for the same event at the next poll. */
  lemma CrashFiresTwice(triggers: Registry, s: State, id: string, activeJobs: set<int>, e: nat) returns (c: State)
    requires Inv(triggers, s) && id in triggers
    requires Poll(s, triggers[id], activeJobs).firings == s.firings + [Mark(id, e)]
    ensures c == Apply(triggers, s, CrashInPoll(id, activeJobs, BeforeRow))
    ensures Apply(triggers, c, PollTrigger(id, activeJobs)).records == s.records + [Mark(id, e), Mark(id, e)]
  {
    FiringHits(s, triggers[id], activeJobs, e);
    c := CrashState(triggers, s, id, activeJobs);
    RecordedAgain(triggers, s, c, id, activeJobs, e);
  }
}
