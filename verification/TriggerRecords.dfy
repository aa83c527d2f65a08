/** What the rows and the event log tell of the rules: the last firing, the enabled rules, and the text
    of each audit record. */
module TriggerRecords {
  import opened EventLog
  import opened Results
  import opened Sorting
  import opened Triggers

  function LastFiring(firings: seq<Mark>, id: string): Option<nat> {
    if firings == [] then None
    else
      var last := firings[|firings| - 1];
      if last.trigger == id then Some(last.event) else LastFiring(firings[..|firings| - 1], id)
  }

  ghost predicate HoldLast(rows: map<string, Row>, firings: seq<Mark>) {
    forall id :: LastFired(rows, id) == LastFiring(firings, id)
  }

  function LastFired(rows: map<string, Row>, id: string): Option<nat> {
    if id in rows then rows[id].lastFired else None
  }

  /** Each row holds the rule's last firing, and the rules of this session are marked as enabled. */
  ghost predicate RowsTell(s: State) {
    HoldLast(s.rows, s.firings) && forall id :: id in s.enabled ==> id in s.rows && s.rows[id].enabled
  }

  lemma {:induction false} DisableAllRows(s: State, triggers: map<string, Trigger>, ids: seq<string>)
    requires HoldLast(s.rows, s.firings)
    ensures HoldLast(DisableAll(s, triggers, ids).rows, DisableAll(s, triggers, ids).firings)
    decreases |ids|
  {
    if ids != [] {
      DisableAllRows(DisableOne(s, triggers, ids[0]), triggers, ids[1..]);
    }
  }

  lemma {:induction false} PollTells(triggers: Registry, s: State, id: string, activeJobs: set<int>)
    requires RowsTell(s) && id in triggers
    ensures RowsTell(Poll(s, triggers[id], activeJobs))
  {
    var s' := Poll(s, triggers[id], activeJobs);
    if s'.firings != s.firings {
      assert s'.firings[..|s'.firings| - 1] == s.firings;
    }
  }

  lemma {:induction false} RestartTells(s: State)
    requires HoldLast(s.rows, s.firings)
    ensures RowsTell(Restart(s))
  {
  }

  lemma {:induction false} CrashInPollTells(
      triggers: Registry, s: State, id: string, activeJobs: set<int>, point: CrashPoint)
    requires RowsTell(s) && id in triggers
    ensures HoldLast(Interrupted(s, triggers[id], activeJobs, point).rows,
      Interrupted(s, triggers[id], activeJobs, point).firings)
  {
    PollTells(triggers, s, id, activeJobs);
  }

  lemma {:induction false} CrashInDisableTells(triggers: Registry, s: State, ids: seq<string>, done: nat, written: bool)
    requires RowsTell(s)
    ensures HoldLast(PartlyDisabled(s, triggers, ids, done, written).rows,
      PartlyDisabled(s, triggers, ids, done, written).firings)
  {
    DisableAllRows(s, triggers, ids);
    if done < |ids| {
      DisableAllRows(s, triggers, ids[..done]);
    }
  }

  lemma {:induction false} StepTells(triggers: Registry, s: State, step: Step)
    requires RowsTell(s)
    ensures RowsTell(Apply(triggers, s, step))
  {
    match step {
      case PollTrigger(id, activeJobs) =>
        if id in triggers {
          PollTells(triggers, s, id, activeJobs);
        }
      case DisableTriggers => DisableAllRows(s, triggers, SortedKeys(s.enabled));
      case CrashInPoll(id, activeJobs, point) =>
        if id in triggers {
          CrashInPollTells(triggers, s, id, activeJobs, point);
          RestartTells(Interrupted(s, triggers[id], activeJobs, point));
        } else {
          RestartTells(s);
        }
      case CrashInDisable(done, written) =>
        CrashInDisableTells(triggers, s, SortedKeys(s.enabled), done, written);
        RestartTells(PartlyDisabled(s, triggers, SortedKeys(s.enabled), done, written));
      case _ =>
    }
  }

  /** Over every run with restarts and crashes: each row holds the last firing of its rule, whatever was
      enabled, disabled or passed over since, and every rule enabled in this session is marked so. */
  lemma {:induction false} RowsTellOfRuns(triggers: Registry, log: seq<Event>, steps: seq<Step>)
    ensures RowsTell(Run(triggers, Initial(log), steps))
  {
    if steps != [] {
      RowsTellOfRuns(triggers, log, steps[..|steps| - 1]);
      StepTells(triggers, Run(triggers, Initial(log), steps[..|steps| - 1]), steps[|steps| - 1]);
    }
  }

  // ---------- the audit records ----------

  /** A poll records nothing, or one firing that names the rule and tells the event that set it off. */
  lemma {:induction false} PollRecords(triggers: Registry, s: State, id: string, activeJobs: set<int>)
    requires id in triggers
    ensures var s' := Apply(triggers, s, PollTrigger(id, activeJobs));
      || (s'.firings == s.firings && s'.log == s.log)
      || exists e ::
           && 1 <= e <= |s.log| && s'.firings == s.firings + [Mark(id, e)]
           && s'.log == s.log + [Event("framework.trigger.fired",
                map["trigger_id" := Words(id), "topic" := Words(triggers[id].topic),
                    "trigger_event_id" := Number(e), "trigger_event_topic" := Words(s.log[e - 1].topic),
                    "trigger_event_source" := Words(s.log[e - 1].source)], "framework")]
  {
    var t := triggers[id];
    var scan := Scan(s, t, Window(s.log, {t.topic}, Cursor(s, t.id), WINDOW), activeJobs);
    if scan.hit.Some? {
      var e, event := scan.hit.value, s.log[scan.hit.value - 1];
      assert FiredEvent(t, e, event).payload ==
        map["trigger_id" := Words(id), "topic" := Words(t.topic),
            "trigger_event_id" := Number(e), "trigger_event_topic" := Words(event.topic),
            "trigger_event_source" := Words(event.source)];
      assert Apply(triggers, s, PollTrigger(id, activeJobs)).firings == s.firings + [Mark(id, e)];
    }
  }

  lemma {:induction false} NothingAhead(log: seq<Event>, topic: string, cursor: nat, limit: nat)
    requires forall i :: cursor <= i < |log| ==> log[i].topic != topic
    ensures Window(log, {topic}, cursor, limit) == []
    decreases |log| - cursor
  {
    if cursor < |log| {
      NothingAhead(log, topic, cursor + 1, limit);
    }
  }

  /** A poll without a new event on the topic writes nothing. */
  lemma {:induction false} IdlePollWritesNothing(triggers: Registry, s: State, id: string, activeJobs: set<int>)
    requires id in triggers
    requires forall i :: Cursor(s, id) <= i < |s.log| ==> s.log[i].topic != triggers[id].topic
    ensures var s' := Apply(triggers, s, PollTrigger(id, activeJobs));
      s'.log == s.log && s'.rows == s.rows && s'.firings == s.firings && s'.fired == s.fired
  {
    NothingAhead(s.log, triggers[id].topic, Cursor(s, id), WINDOW);
  }

  /** Enabling a rule tells so once. */
  lemma {:induction false} EnableTells(triggers: Registry, s: State, id: string)
    requires id in triggers
    ensures var s' := Apply(triggers, s, EnableTrigger(id));
      && s'.enabled == s.enabled + {id}
      && s'.log == s.log + if id in s.enabled then [] else
           [Event("framework.trigger.enabled",
              map["trigger_id" := Words(id), "topic" := Words(triggers[id].topic)], "framework")]
  {
    assert s.log + [] == s.log;
  }

  ghost predicate DisablingIsTold(triggers: Registry, before: seq<Event>, after: seq<Event>, ids: seq<string>) {
    && |after| == |before| + |ids| && before <= after
    && forall i :: 0 <= i < |ids| ==> after[|before| + i] == Event("framework.trigger.disabled",
         if ids[i] in triggers
         then map["trigger_id" := Words(ids[i]), "topic" := Words(triggers[ids[i]].topic)]
         else map["trigger_id" := Words(ids[i])], "framework")
  }

  /** Disabling tells so once for each rule that was enabled, in the order of their names. */
  lemma {:induction false} DisableTells(triggers: Registry, s: State)
    ensures Apply(triggers, s, DisableTriggers).enabled == {}
    ensures DisablingIsTold(triggers, s.log, Apply(triggers, s, DisableTriggers).log, SortedKeys(s.enabled))
  {
    DisableAllTells(triggers, s, SortedKeys(s.enabled));
    DisableIs(triggers, s, SortedKeys(s.enabled));
  }

  lemma {:induction false} DisableIs(triggers: Registry, s: State, ids: seq<string>)
    requires ids == SortedKeys(s.enabled)
    ensures Apply(triggers, s, DisableTriggers).log == DisableAll(s, triggers, ids).log
    ensures Apply(triggers, s, DisableTriggers).enabled == {}
  {
    DisableState(triggers, s, ids);
    StepIsDisable(triggers, s);
  }

  lemma {:induction false} StepIsDisable(triggers: Registry, s: State)
    ensures Apply(triggers, s, DisableTriggers) == Disable(s, triggers)
  {
  }

  lemma {:induction false} DisableState(triggers: Registry, s: State, ids: seq<string>)
    requires ids == SortedKeys(s.enabled)
    ensures Disable(s, triggers).log == DisableAll(s, triggers, ids).log && Disable(s, triggers).enabled == {}
  {
  }

  lemma {:induction false} DisableAllTells(triggers: Registry, s: State, ids: seq<string>)
    ensures DisablingIsTold(triggers, s.log, DisableAll(s, triggers, ids).log, ids)
    decreases |ids|
  {
    if ids != [] {
      var next := DisableOne(s, triggers, ids[0]);
      DisableAllTells(triggers, next, ids[1..]);
      var after := DisableAll(s, triggers, ids).log;
      assert after[|s.log|] == next.log[|s.log|];
      forall i | 1 <= i < |ids|
        ensures after[|s.log| + i] == after[|next.log| + (i - 1)] && ids[1..][i - 1] == ids[i]
      {
      }
    }
  }

  // ---------- what a crash leaves ----------

  /** Dying before the firing record is a clean restart, and dying after the row is a poll and a clean
      restart. */
  lemma {:induction false} CrashesAroundPoll(triggers: Registry, s: State, id: string, activeJobs: set<int>)
    requires id in triggers
    ensures Apply(triggers, s, CrashInPoll(id, activeJobs, BeforeRecord)) == Apply(triggers, s, CleanRestart)
    ensures Apply(triggers, s, CrashInPoll(id, activeJobs, AfterRow)) ==
      Apply(triggers, Apply(triggers, s, PollTrigger(id, activeJobs)), CleanRestart)
  {
  }

  /** Dying before the row of an enabled rule is a clean restart; dying after it only loses the record. */
  lemma {:induction false} CrashesInEnable(triggers: Registry, s: State, id: string)
    requires id in triggers
    ensures Apply(triggers, s, CrashInEnable(id, false)) == Apply(triggers, s, CleanRestart)
    ensures Apply(triggers, s, CrashInEnable(id, true)) ==
      Apply(triggers, Apply(triggers, s, EnableTrigger(id)), CleanRestart).(log := s.log)
  {
  }

  /** The rows of those rules are marked as disabled and keep the rest; the others are as before. */
  ghost predicate RowsDisabled(before: map<string, Row>, after: map<string, Row>, ids: seq<string>) {
    forall id ::
      && (id in after <==> id in before || id in ids)
      && (id in after && id in ids ==> after[id] == Row(false, Durable(before, id), LastFired(before, id)))
      && (id in before && id !in ids ==> after[id] == before[id])
  }

  lemma {:induction false} DisableAllMarks(triggers: Registry, s: State, ids: seq<string>)
    ensures RowsDisabled(s.rows, DisableAll(s, triggers, ids).rows, ids)
    decreases |ids|
  {
    if ids != [] {
      var next := DisableOne(s, triggers, ids[0]);
      DisableAllMarks(triggers, next, ids[1..]);
      DisabledTwice(s.rows, next.rows, DisableAll(s, triggers, ids).rows, ids[0], ids[1..], ids);
    }
  }

  lemma {:induction false} DisabledTwice(before: map<string, Row>, next: map<string, Row>, after: map<string, Row>,
      first: string, rest: seq<string>, ids: seq<string>)
    requires next == Upsert(before, first, false, None, None) && RowsDisabled(next, after, rest)
    requires ids == [first] + rest
    ensures RowsDisabled(before, after, ids)
  {
    forall id
      ensures Durable(next, id) == Durable(before, id) && LastFired(next, id) == LastFired(before, id)
      ensures id in ids <==> id == first || id in rest
    {
    }
  }

  /** How many rows a pass over `n` rules has written when it dies with `done` of them told. */
  function RowsWritten(n: nat, done: nat, written: bool): nat {
    if done >= n then n else if written then done + 1 else done
  }

  ghost predicate PartlyMarked(triggers: Registry, s: State, s': State, ids: seq<string>, done: nat, written: bool) {
    && RowsDisabled(s.rows, s'.rows, ids[..RowsWritten(|ids|, done, written)])
    && DisablingIsTold(triggers, s.log, s'.log, ids[..RowsWritten(|ids|, done, false)])
  }

  lemma {:induction false} DisabledSoFar(triggers: Registry, s: State, ids: seq<string>, done: nat)
    requires done < |ids|
    ensures PartlyMarked(triggers, s, DisableAll(s, triggers, ids[..done]), ids, done, false)
  {
    DisableAllMarks(triggers, s, ids[..done]);
    DisableAllTells(triggers, s, ids[..done]);
  }

  lemma {:induction false} AllMarked(triggers: Registry, s: State, ids: seq<string>, done: nat, written: bool)
    requires done >= |ids|
    ensures PartlyMarked(triggers, s, DisableAll(s, triggers, ids), ids, done, written)
  {
    assert ids[..|ids|] == ids;
    DisableAllMarks(triggers, s, ids);
    DisableAllTells(triggers, s, ids);
  }

  lemma {:induction false} LastMarked(triggers: Registry, s: State, t: State, ids: seq<string>, done: nat)
    requires done < |ids| && PartlyMarked(triggers, s, t, ids, done, false)
    ensures PartlyMarked(triggers, s, t.(rows := Upsert(t.rows, ids[done], false, None, None)), ids, done, true)
  {
    OneMoreMarked(s.rows, t.rows, ids[..done], ids[done]);
    assert ids[..done + 1] == ids[..done] + [ids[done]];
  }

  lemma {:induction false} PartlyMarks(triggers: Registry, s: State, ids: seq<string>, done: nat, written: bool)
    ensures PartlyMarked(triggers, s, PartlyDisabled(s, triggers, ids, done, written), ids, done, written)
  {
    if done >= |ids| {
      AllMarked(triggers, s, ids, done, written);
    } else {
      DisabledSoFar(triggers, s, ids, done);
      LastMarked(triggers, s, DisableAll(s, triggers, ids[..done]), ids, done);
    }
  }

  /** A process that dies while it disables has marked the rules up to some point of their order, and told of
      those before the last one. */
  lemma {:induction false} CrashInDisableMarks(triggers: Registry, s: State, done: nat, written: bool)
    ensures var s' := Apply(triggers, s, CrashInDisable(done, written));
      s'.enabled == {} && s'.cursors == map[] && PartlyMarked(triggers, s, s', SortedKeys(s.enabled), done, written)
  {
    var t := PartlyDisabled(s, triggers, SortedKeys(s.enabled), done, written);
    PartlyMarks(triggers, s, SortedKeys(s.enabled), done, written);
    StepIsCrash(triggers, s, done, written, t);
    RestartKeepsMarks(triggers, s, t, SortedKeys(s.enabled), done, written);
  }

  lemma {:induction false} StepIsCrash(triggers: Registry, s: State, done: nat, written: bool, t: State)
    requires t == PartlyDisabled(s, triggers, SortedKeys(s.enabled), done, written)
    ensures Apply(triggers, s, CrashInDisable(done, written)) == Restart(t)
  {
  }

  lemma {:induction false} RestartKeepsMarks(
      triggers: Registry, s: State, t: State, ids: seq<string>, done: nat, written: bool)
    requires PartlyMarked(triggers, s, t, ids, done, written)
    ensures PartlyMarked(triggers, s, Restart(t), ids, done, written)
    ensures Restart(t).enabled == {} && Restart(t).cursors == map[]
  {
  }

  lemma {:induction false} OneMoreMarked(
      before: map<string, Row>, after: map<string, Row>, ids: seq<string>, id: string)
    requires RowsDisabled(before, after, ids)
    ensures RowsDisabled(before, Upsert(after, id, false, None, None), ids + [id])
  {
    forall x
      ensures Durable(after, x) == Durable(before, x) && LastFired(after, x) == LastFired(before, x)
      ensures x in ids + [id] <==> x in ids || x == id
    {
    }
  }
}
