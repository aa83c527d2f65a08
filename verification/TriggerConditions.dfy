/** What keeps a rule from firing for an event, in terms of their fields; no run ever fires against it,
    and a poll fires for the first event that nothing keeps it from. */
module TriggerConditions {
  import opened EventLog
  import opened Results
  import opened Sorting
  import opened Text
  import opened Triggers
  import opened TriggerRuns

  // ---------- the conditions ----------

  predicate LacksCapability(t: Trigger, e: Event) {
    t.capability.Some? && !("capability" in e.payload && e.payload["capability"] == Words(t.capability.value))
  }

  /** Decimal digits without a superfluous zero, after a minus sign for a negative number. */
  predicate IsNumberText(text: string, n: int) {
    if n < 0 then "-" <= text && IsNumeral(text[1..]) && DecimalValue(text[1..]) == -n
    else IsNumeral(text) && DecimalValue(text) == n
  }

  /** The text of the payload value under `key`. */
  predicate Shows(payload: map<string, Field>, key: string, text: string) {
    if key !in payload then text == ""
    else
      match payload[key]
      case Null => text == "None"
      case Flag(true) => text == "True"
      case Flag(false) => text == "False"
      case Number(n) => IsNumberText(text, n)
      case Words(s) => text == s
      case Other(s) => text == s
  }

  predicate ShowsOtherwise(t: Trigger, e: Event) {
    exists i :: 0 <= i < |t.payloadEquals| && !Shows(e.payload, t.payloadEquals[i].0, t.payloadEquals[i].1)
  }

  predicate IsExcluded(t: Trigger, e: Event) {
    exists name :: name in t.excludeCommandlets && "commandlet" in e.payload && e.payload["commandlet"] == Words(name)
  }

  predicate IsOwnEvent(t: Trigger, e: Event) {
    t.suppressSelfTrigger && e.source == t.actionName
  }

  /** Python booleans are integers. */
  predicate BelongsTo(e: Event, job: int) {
    "job_id" in e.payload &&
    match e.payload["job_id"]
    case Number(n) => n == job
    case Flag(true) => job == 1
    case Flag(false) => job == 0
    case _ => false
  }

  predicate HasNoActiveJob(t: Trigger, e: Event, activeJobs: set<int>) {
    t.activeJob && forall job :: job in activeJobs ==> !BelongsTo(e, job)
  }

  predicate Barred(t: Trigger, e: Event, activeJobs: set<int>) {
    LacksCapability(t, e) || ShowsOtherwise(t, e) || IsExcluded(t, e) || IsOwnEvent(t, e) ||
    HasNoActiveJob(t, e, activeJobs)
  }

  // ---------- matching ----------

  lemma NumberText(text: string, n: nat)
    ensures text == Decimal(n) <==> IsNumeral(text) && DecimalValue(text) == n
  {
    DecimalRoundTrip(n);
    if IsNumeral(text) {
      NumeralRoundTrip(text);
    }
  }

  lemma FieldShows(payload: map<string, Field>, key: string, text: string)
    ensures Shows(payload, key, text) <==> PayloadText(payload, key) == text
  {
    if key in payload && payload[key].Number? {
      var n := payload[key].n;
      if n < 0 {
        if "-" <= text {
          assert text == "-" + text[1..];
          NumberText(text[1..], -n);
        }
        assert ("-" + Decimal(-n))[1..] == Decimal(-n);
      } else {
        NumberText(text, n);
      }
    }
  }

  lemma JobActive(t: Trigger, e: Event, activeJobs: set<int>)
    ensures HasNoActiveJob(t, e, activeJobs) <==>
      t.activeJob && !(JobIdOf(e.payload).Some? && JobIdOf(e.payload).value in activeJobs)
  {
    forall job
      ensures BelongsTo(e, job) <==> JobIdOf(e.payload) == Some(job)
    {
    }
  }

  /** A rule matches an event exactly when nothing keeps it from firing. */
  lemma MatchesUnlessBarred(t: Trigger, e: Event, activeJobs: set<int>)
    ensures TriggerMatches(t, e, activeJobs) <==> !Barred(t, e, activeJobs)
  {
    JobActive(t, e, activeJobs);
    forall i | 0 <= i < |t.payloadEquals|
      ensures Shows(e.payload, t.payloadEquals[i].0, t.payloadEquals[i].1)
         <==> PayloadText(e.payload, t.payloadEquals[i].0) == t.payloadEquals[i].1
    {
      FieldShows(e.payload, t.payloadEquals[i].0, t.payloadEquals[i].1);
    }
  }

  // ---------- over all runs ----------

  /** The event is on the rule's topic, and nothing kept the rule from firing for it. */
  ghost predicate Warranted(triggers: Registry, log: seq<Event>, m: Mark, activeJobs: set<int>) {
    && m.trigger in triggers && 1 <= m.event <= |log|
    && log[m.event - 1].topic == triggers[m.trigger].topic
    && !Barred(triggers[m.trigger], log[m.event - 1], activeJobs)
  }

  /** Some pass of the rule, complete or not, had reason to fire. */
  ghost predicate PassedIn(triggers: Registry, log: seq<Event>, steps: seq<Step>, m: Mark) {
    exists k :: 0 <= k < |steps| && (steps[k].PollTrigger? || steps[k].CrashInPoll?)
      && steps[k].id == m.trigger && Warranted(triggers, log, m, steps[k].activeJobs)
  }

  lemma {:induction false} WindowOnTopic(log: seq<Event>, topics: set<string>, cursor: nat, limit: nat, x: nat)
    requires x in Window(log, topics, cursor, limit)
    ensures 1 <= x <= |log| && log[x - 1].topic in topics
    decreases |log| - cursor
  {
    if log[cursor].topic in topics {
      if x != cursor + 1 {
        WindowOnTopic(log, topics, cursor + 1, limit - 1, x);
      }
    } else {
      WindowOnTopic(log, topics, cursor + 1, limit, x);
    }
  }

  lemma {:induction false} HitInWindow(s: State, t: Trigger, window: seq<nat>, activeJobs: set<int>)
    requires Scan(s, t, window, activeJobs).hit.Some?
    ensures Scan(s, t, window, activeJobs).hit.value in window
  {
    if Mark(t.id, window[0]) in s.fired || !MatchesAt(s.log, t, window[0], activeJobs) {
      HitInWindow(s, t, window[1..], activeJobs);
    }
  }

  /** What a pass records is warranted. */
  lemma {:induction false} HitIsWarranted(triggers: Registry, s: State, id: string, activeJobs: set<int>)
    requires id in triggers
    ensures var scan := Scan(s, triggers[id], Window(s.log, {triggers[id].topic}, Cursor(s, id), WINDOW), activeJobs);
      scan.hit.Some? ==> Warranted(triggers, s.log, Mark(id, scan.hit.value), activeJobs)
  {
    var t := triggers[id];
    var window := Window(s.log, {t.topic}, Cursor(s, id), WINDOW);
    var scan := Scan(s, t, window, activeJobs);
    if scan.hit.Some? {
      HitInWindow(s, t, window, activeJobs);
      WindowOnTopic(s.log, {t.topic}, Cursor(s, id), WINDOW, scan.hit.value);
      MatchesUnlessBarred(t, s.log[scan.hit.value - 1], activeJobs);
    }
  }

  /** A step records nothing, or one warranted firing of the rule it polls. */
  ghost predicate RecordsWarranted(triggers: Registry, s: State, s': State, step: Step) {
    && s.log <= s'.log
    && (s'.records == s.records || exists e ::
          (step.PollTrigger? || step.CrashInPoll?) && s'.records == s.records + [Mark(step.id, e)]
          && Warranted(triggers, s.log, Mark(step.id, e), step.activeJobs))
  }

  lemma {:induction false} DisableLogGrows(triggers: Registry, s: State, ids: seq<string>)
    ensures s.log <= DisableAll(s, triggers, ids).log && DisableAll(s, triggers, ids).records == s.records
    decreases |ids|
  {
    if ids != [] {
      DisableLogGrows(triggers, DisableOne(s, triggers, ids[0]), ids[1..]);
    }
  }

  lemma {:induction false} PassRecordsWarranted(triggers: Registry, s: State, step: Step)
    requires step.PollTrigger? || step.CrashInPoll?
    ensures RecordsWarranted(triggers, s, Apply(triggers, s, step), step)
  {
    if step.id in triggers {
      HitIsWarranted(triggers, s, step.id, step.activeJobs);
    }
  }

  lemma {:induction false} StepRecordsWarranted(triggers: Registry, s: State, step: Step)
    ensures RecordsWarranted(triggers, s, Apply(triggers, s, step), step)
  {
    match step {
      case PollTrigger(_, _) => PassRecordsWarranted(triggers, s, step);
      case CrashInPoll(_, _, _) => PassRecordsWarranted(triggers, s, step);
      case DisableTriggers => DisableLogGrows(triggers, s, SortedKeys(s.enabled));
      case CrashInDisable(done, _) =>
        DisableLogGrows(triggers, s, SortedKeys(s.enabled));
        if done < |SortedKeys(s.enabled)| {
          DisableLogGrows(triggers, s, SortedKeys(s.enabled)[..done]);
        }
      case _ =>
    }
  }

  lemma StaysWarranted(triggers: Registry, log: seq<Event>, longer: seq<Event>, steps: seq<Step>, step: Step, m: Mark)
    requires log <= longer && PassedIn(triggers, log, steps, m)
    ensures PassedIn(triggers, longer, steps + [step], m)
  {
    var k :| 0 <= k < |steps| && (steps[k].PollTrigger? || steps[k].CrashInPoll?)
      && steps[k].id == m.trigger && Warranted(triggers, log, m, steps[k].activeJobs);
    assert (steps + [step])[k] == steps[k];
  }

  /** Over every run: no firing is recorded, let alone completed, against the rule's conditions at the pass
      that recorded it. */
  lemma {:induction false} FiringsAreWarranted(triggers: Registry, log: seq<Event>, steps: seq<Step>, m: Mark)
    requires m in Run(triggers, Initial(log), steps).records
    ensures PassedIn(triggers, Run(triggers, Initial(log), steps).log, steps, m)
  {
    if steps != [] {
      var front, step := steps[..|steps| - 1], steps[|steps| - 1];
      assert steps == front + [step];
      var s, s' := Run(triggers, Initial(log), front), Run(triggers, Initial(log), steps);
      StepRecordsWarranted(triggers, s, step);
      if m in s.records {
        FiringsAreWarranted(triggers, log, front, m);
        StaysWarranted(triggers, s.log, s'.log, front, step, m);
      } else {
        assert steps[|steps| - 1] == step && Warranted(triggers, s.log, m, step.activeJobs);
      }
    }
  }

  // ---------- one poll ----------

  /** Nothing keeps the rule from firing for `e`, but something does for every earlier one. */
  ghost predicate FirstUnbarred(log: seq<Event>, t: Trigger, window: seq<nat>, activeJobs: set<int>, e: nat) {
    && e in window && 1 <= e <= |log| && !Barred(t, log[e - 1], activeJobs)
    && forall x :: x in window && 1 <= x < e ==> Barred(t, log[x - 1], activeJobs)
  }

  ghost predicate AllBarred(log: seq<Event>, t: Trigger, window: seq<nat>, activeJobs: set<int>) {
    forall x :: x in window ==> 1 <= x <= |log| && Barred(t, log[x - 1], activeJobs)
  }

  lemma {:induction false} HitIsFirstUnbarred(
      s: State, t: Trigger, cursor: nat, window: seq<nat>, activeJobs: set<int>, i: nat)
    requires Ascending(cursor, window, |s.log|) && HitAt(s, t, window, activeJobs, i)
    ensures FirstUnbarred(s.log, t, window, activeJobs, window[i])
  {
    MatchesUnlessBarred(t, s.log[window[i] - 1], activeJobs);
    forall x | x in window && 1 <= x < window[i]
      ensures Barred(t, s.log[x - 1], activeJobs)
    {
      EarlierIsBarred(s, t, cursor, window, activeJobs, i, x);
    }
  }

  lemma {:induction false} EarlierIsBarred(
      s: State, t: Trigger, cursor: nat, window: seq<nat>, activeJobs: set<int>, i: nat, x: nat)
    requires Ascending(cursor, window, |s.log|) && HitAt(s, t, window, activeJobs, i)
    requires x in window && 1 <= x < window[i]
    ensures x <= |s.log| && Barred(t, s.log[x - 1], activeJobs)
  {
    var k :| 0 <= k < |window| && window[k] == x;
    assert k < i;
    MatchesUnlessBarred(t, s.log[x - 1], activeJobs);
  }

  lemma {:induction false} NoHitIsBarred(s: State, t: Trigger, cursor: nat, window: seq<nat>, activeJobs: set<int>)
    requires Ascending(cursor, window, |s.log|) && NoHit(s, t, window, activeJobs)
    ensures AllBarred(s.log, t, window, activeJobs)
  {
    forall x | x in window
      ensures 1 <= x <= |s.log| && Barred(t, s.log[x - 1], activeJobs)
    {
      var k :| 0 <= k < |window| && window[k] == x;
      MatchesUnlessBarred(t, s.log[x - 1], activeJobs);
    }
  }

  lemma PollByScan(triggers: Registry, s: State, id: string, activeJobs: set<int>, window: seq<nat>)
    requires id in triggers && window == Window(s.log, {triggers[id].topic}, Cursor(s, id), WINDOW)
    ensures var hit := Scan(s, triggers[id], window, activeJobs).hit;
      var s' := Apply(triggers, s, PollTrigger(id, activeJobs));
      if hit.Some?
      then s'.firings == s.firings + [Mark(id, hit.value)] && s'.records == s.records + [Mark(id, hit.value)]
      else s'.firings == s.firings && s'.records == s.records
  {
  }

  /** From every state that runs keep: a poll fires for the first of the next ten thousand events on the
      topic that nothing keeps the rule from firing for, and records nothing if there is none. */
  lemma {:induction false} PollFiresUnlessBarred(triggers: Registry, s: State, id: string, activeJobs: set<int>)
    returns (e: nat)
    requires Inv(triggers, s) && id in triggers
    ensures var t, s' := triggers[id], Apply(triggers, s, PollTrigger(id, activeJobs));
      var window := Window(s.log, {t.topic}, Durable(s.rows, id), 10000);
      if AllBarred(s.log, t, window, activeJobs)
      then s'.firings == s.firings && s'.records == s.records
      else && FirstUnbarred(s.log, t, window, activeJobs, e)
           && s'.firings == s.firings + [Mark(id, e)] && s'.records == s.records + [Mark(id, e)]
  {
    var t, cursor := triggers[id], Durable(s.rows, id);
    var window := Window(s.log, {t.topic}, cursor, WINDOW);
    var i := PollWindow(triggers, s, id, activeJobs);
    WindowAscends(s.log, {t.topic}, cursor, WINDOW);
    PollByScan(triggers, s, id, activeJobs, window);
    if HitAt(s, t, window, activeJobs, i) {
      e := window[i];
      HitIsFirstUnbarred(s, t, cursor, window, activeJobs, i);
    } else {
      e := 0;
      NoHitIsBarred(s, t, cursor, window, activeJobs);
    }
  }
}
