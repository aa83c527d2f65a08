/** Trigger rules that poll the event log: the durable and in-memory cursors, and why a rule fires
    at most once for an event over any number of sessions. */
module Triggers {
  import opened EventLog
  import opened Results
  import opened Sorting
  import opened Text

  // ---------- events and rules ----------

  datatype Trigger = Trigger(
    id: string,
    topic: string,
    actionName: string,
    capability: Option<string>,
    payloadEquals: seq<(string, string)>,
    activeJob: bool,
    excludeCommandlets: set<string>,
    suppressSelfTrigger: bool)

  function FieldText(f: Field): string {
    match f
    case Null => "None"
    case Flag(b) => if b then "True" else "False"
    case Number(n) => if n < 0 then "-" + Decimal(-n) else Decimal(n)
    case Words(s) => s
    case Other(text) => text
  }

  function PayloadText(payload: map<string, Field>, key: string): string {
    if key in payload then FieldText(payload[key]) else ""
  }

  /** Python booleans are integers. */
  function JobIdOf(payload: map<string, Field>): Option<int> {
    if "job_id" !in payload then None
    else
      match payload["job_id"]
      case Number(n) => Some(n)
      case Flag(b) => Some(if b then 1 else 0)
      case _ => None
  }

  predicate TriggerMatches(t: Trigger, e: Event, activeJobs: set<int>) {
    && (t.capability.Some? ==> "capability" in e.payload && e.payload["capability"] == Words(t.capability.value))
    && (forall i :: 0 <= i < |t.payloadEquals| ==> PayloadText(e.payload, t.payloadEquals[i].0) == t.payloadEquals[i].1)
    && !("commandlet" in e.payload && e.payload["commandlet"].Words? &&
      e.payload["commandlet"].s in t.excludeCommandlets)
    && !(t.suppressSelfTrigger && e.source == t.actionName)
    && (t.activeJob ==> JobIdOf(e.payload).Some? && JobIdOf(e.payload).value in activeJobs)
  }

  /** The event with id `e` is in the log and matches. */
  predicate MatchesAt(log: seq<Event>, t: Trigger, e: nat, activeJobs: set<int>) {
    1 <= e <= |log| && TriggerMatches(t, log[e - 1], activeJobs)
  }

  // ---------- what a step does ----------

  /** A row of the `trigger_state` table. */
  datatype Row = Row(enabled: bool, lastEvent: nat, lastFired: Option<nat>)

  /** A rule and an event. */
  datatype Mark = Mark(trigger: string, event: nat)

  /** The database (`log`, `rows`), the session (`cursors`, `fired`, `enabled`), and four histories:
      the tests and the firings of the passes that wrote their row, every record of a firing, and
      the records whose row was never written. */
  datatype State = State(
    log: seq<Event>,
    rows: map<string, Row>,
    cursors: map<string, nat>,
    fired: set<Mark>,
    enabled: set<string>,
    tested: seq<Mark>,
    firings: seq<Mark>,
    records: seq<Mark>,
    unsettled: seq<Mark>)

  const WINDOW: nat := 10000

  /** `trigger_cursor` */
  function Durable(rows: map<string, Row>, id: string): nat {
    if id in rows then rows[id].lastEvent else 0
  }

  /** `update_trigger_state` */
  function Upsert(rows: map<string, Row>, id: string, enabled: bool, lastEvent: Option<nat>,
      lastFired: Option<nat>): map<string, Row> {
    var last := if lastEvent.Some? then lastEvent.value else Durable(rows, id);
    var kept := if lastFired.Some? then lastFired else if id in rows then rows[id].lastFired else None;
    rows[id := Row(enabled, last, kept)]
  }

  function Cursor(s: State, id: string): nat {
    if id in s.cursors then s.cursors[id] else Durable(s.rows, id)
  }

  /** The rule would fire for the event: it matches and has not fired yet in this session. */
  predicate Hits(s: State, t: Trigger, e: nat, activeJobs: set<int>) {
    Mark(t.id, e) !in s.fired && MatchesAt(s.log, t, e, activeJobs)
  }

  datatype ScanResult = ScanResult(tested: seq<nat>, hit: Option<nat>)

  /** Goes through a window up to the first event that is not yet fired and matches. */
  function Scan(s: State, t: Trigger, window: seq<nat>, activeJobs: set<int>): (r: ScanResult)
    ensures r.hit.Some? ==> MatchesAt(s.log, t, r.hit.value, activeJobs)
  {
    if window == [] then ScanResult([], None)
    else
      var e := window[0];
      if Mark(t.id, e) in s.fired then Scan(s, t, window[1..], activeJobs)
      else if MatchesAt(s.log, t, e, activeJobs) then ScanResult([e], Some(e))
      else
        var rest := Scan(s, t, window[1..], activeJobs);
        ScanResult([e] + rest.tested, rest.hit)
  }

  /** The events of a window that have not fired in this session. */
  function Unfired(s: State, t: Trigger, window: seq<nat>): seq<nat> {
    if window == [] then []
    else (if Mark(t.id, window[0]) in s.fired then [] else [window[0]]) + Unfired(s, t, window[1..])
  }

  /** The scan stops at the first event that would fire, or nowhere, and has tested exactly the unfired
      events up to there. */
  lemma {:induction false} ScanFindsFirst(s: State, t: Trigger, window: seq<nat>, activeJobs: set<int>) returns (i: nat)
    ensures var r := Scan(s, t, window, activeJobs);
      && i <= |window| && (forall k :: 0 <= k < i ==> !Hits(s, t, window[k], activeJobs))
      && (r.hit == if i < |window| then Some(window[i]) else None)
      && (i < |window| ==> Hits(s, t, window[i], activeJobs))
      && r.tested == Unfired(s, t, if i < |window| then window[..i + 1] else window)
  {
    i := 0;
    if window != [] {
      var rest := window[1..];
      if Hits(s, t, window[0], activeJobs) {
        assert window[..1] == [window[0]] && [window[0]][1..] == [];
      } else {
        var j := ScanFindsFirst(s, t, rest, activeJobs);
        i := j + 1;
        assert forall k :: 0 <= k < |rest| ==> rest[k] == window[k + 1];
        if i < |window| {
          assert window[..i + 1][0] == window[0] && window[..i + 1][1..] == rest[..j + 1];
        }
      }
    }
  }

  function Pairs(id: string, events: seq<nat>): (r: seq<Mark>)
    ensures |r| == |events|
  {
    if events == [] then [] else [Mark(id, events[0])] + Pairs(id, events[1..])
  }

  function TriggerPayload(t: Trigger): map<string, Field> {
    map["trigger_id" := Words(t.id), "topic" := Words(t.topic)]
  }

  /** The audit event of one firing. */
  function FiredEvent(t: Trigger, e: nat, event: Event): Event {
    Event("framework.trigger.fired",
          TriggerPayload(t)["trigger_event_id" := Number(e)]["trigger_event_topic" := Words(event.topic)]
                           ["trigger_event_source" := Words(event.source)],
          "framework")
  }

  /** The rule fires for event `e`, after testing `done`. */
  function Fire(s: State, t: Trigger, done: seq<nat>, e: nat): State
    requires 1 <= e <= |s.log|
  {
    s.(log := s.log + [FiredEvent(t, e, s.log[e - 1])],
       rows := Upsert(s.rows, t.id, true, Some(e), Some(e)),
       cursors := s.cursors[t.id := e],
       fired := s.fired + {Mark(t.id, e)},
       tested := s.tested + Pairs(t.id, done),
       firings := s.firings + [Mark(t.id, e)],
       records := s.records + [Mark(t.id, e)])
  }

  /** Nothing matched up to `latest`; an unmoved cursor is not written. */
  function Advance(s: State, t: Trigger, done: seq<nat>, latest: nat): State {
    s.(rows := if latest != Cursor(s, t.id) then Upsert(s.rows, t.id, true, Some(latest), None) else s.rows,
       cursors := s.cursors[t.id := latest],
       tested := s.tested + Pairs(t.id, done))
  }

  /** `framework_trigger_fired` */
  function Poll(s: State, t: Trigger, activeJobs: set<int>): State {
    var cursor := Cursor(s, t.id);
    var window := Window(s.log, {t.topic}, cursor, WINDOW);
    var scan := Scan(s, t, window, activeJobs);
    match scan.hit
    case Some(e) => Fire(s, t, scan.tested, e)
    case None => Advance(s, t, scan.tested, if window == [] then cursor else window[|window| - 1])
  }

  /** A poll that dies between the record of its firing and the write of the row. */
  function RecordOnly(s: State, t: Trigger, activeJobs: set<int>): State {
    var scan := Scan(s, t, Window(s.log, {t.topic}, Cursor(s, t.id), WINDOW), activeJobs);
    match scan.hit
    case Some(e) =>
      s.(log := s.log + [FiredEvent(t, e, s.log[e - 1])],
         records := s.records + [Mark(t.id, e)],
         unsettled := s.unsettled + [Mark(t.id, e)])
    case None => s
  }

  function AuditEvent(topic: string, payload: map<string, Field>): Event {
    Event(topic, payload, "framework")
  }

  /** `enable_session_trigger` */
  function Enable(s: State, t: Trigger): State {
    if t.id in s.enabled then s
    else
      var cursor := Durable(s.rows, t.id);
      s.(enabled := s.enabled + {t.id},
         cursors := if cursor != 0 && t.id !in s.cursors then s.cursors[t.id := cursor] else s.cursors,
         rows := Upsert(s.rows, t.id, true, Some(cursor), None),
         log := s.log + [AuditEvent("framework.trigger.enabled", TriggerPayload(t))])
  }

  function DisableAll(s: State, triggers: map<string, Trigger>, ids: seq<string>): State
    decreases |ids|
  {
    if ids == [] then s else DisableAll(DisableOne(s, triggers, ids[0]), triggers, ids[1..])
  }

  function DisableOne(s: State, triggers: map<string, Trigger>, id: string): State {
    var payload := if id in triggers then TriggerPayload(triggers[id]) else map["trigger_id" := Words(id)];
    s.(rows := Upsert(s.rows, id, false, None, None),
       log := s.log + [AuditEvent("framework.trigger.disabled", payload)])
  }

  /** A clean restart loses the session's memory and nothing else. */
  function Restart(s: State): State {
    s.(cursors := map[], fired := {}, enabled := {})
  }

  /** `disable_session_triggers` */
  function Disable(s: State, triggers: map<string, Trigger>): State {
    DisableAll(s, triggers, SortedKeys(s.enabled)).(enabled := {})
  }

  // ---------- runs ----------

  /** Where a poll dies: before its record of a firing, between the record and the write of the row,
      or after that write. */
  datatype CrashPoint = BeforeRecord | BeforeRow | AfterRow

  /** The process may also die between two statements. What it did to its memory is lost then, so the
      rest of a poll is visible only from its record on, and a pass that dies before the write of its row
      leaves no test and no firing in the histories. */
  datatype Step =
    | Publish(event: Event)
    | EnableTrigger(id: string)
    | PollTrigger(id: string, activeJobs: set<int>)
    | DisableTriggers
    | CleanRestart
    | CrashInPoll(id: string, activeJobs: set<int>, point: CrashPoint)
    | CrashInEnable(id: string, written: bool)
    | CrashInDisable(done: nat, written: bool)

  /** The registry, by trigger id. */
  type Registry = triggers: map<string, Trigger> | forall id :: id in triggers ==> triggers[id].id == id
    witness map[]

  function Apply(triggers: Registry, s: State, step: Step): State {
    match step
    case Publish(event) => s.(log := s.log + [event])
    case EnableTrigger(id) => if id in triggers then Enable(s, triggers[id]) else s
    case PollTrigger(id, activeJobs) => if id in triggers then Poll(s, triggers[id], activeJobs) else s
    case DisableTriggers => Disable(s, triggers)
    case CleanRestart => Restart(s)
    case CrashInPoll(id, activeJobs, point) =>
      Restart(if id in triggers then Interrupted(s, triggers[id], activeJobs, point) else s)
    case CrashInEnable(id, written) =>
      Restart(if id in triggers && id !in s.enabled && written
              then s.(rows := Upsert(s.rows, id, true, Some(Durable(s.rows, id)), None)) else s)
    case CrashInDisable(done, written) => Restart(PartlyDisabled(s, triggers, SortedKeys(s.enabled), done, written))
  }

  function Interrupted(s: State, t: Trigger, activeJobs: set<int>, point: CrashPoint): State {
    match point
    case BeforeRecord => s
    case BeforeRow => RecordOnly(s, t, activeJobs)
    case AfterRow => Poll(s, t, activeJobs)
  }

  /** The first `done` rules are disabled, and the row of the next one may be written. */
  function PartlyDisabled(s: State, triggers: map<string, Trigger>, ids: seq<string>, done: nat, written: bool): State {
    if done >= |ids| then DisableAll(s, triggers, ids)
    else
      var t := DisableAll(s, triggers, ids[..done]);
      if written then t.(rows := Upsert(t.rows, ids[done], false, None, None)) else t
  }

  function Run(triggers: Registry, s: State, steps: seq<Step>): State {
    if steps == [] then s
    else Apply(triggers, Run(triggers, s, steps[..|steps| - 1]), steps[|steps| - 1])
  }

  /** A new database with some ledger, and a new session. */
  function Initial(log: seq<Event>): State {
    State(log, map[], map[], {}, {}, [], [], [], [])
  }
}
