/** The trigger functions as they update the store and the session in place. */
module TriggerServices {
  import opened EventLog
  import opened Numbers
  import opened Results
  import opened Sorting
  import opened Text
  import opened Triggers

  // ---------- the running service ----------

  /** The store and the session of one process, updated in place. */
  class TriggerService {
    const registry: Registry
    var log: seq<Event>
    var rows: map<string, Row>
    var cursors: map<string, nat>
    var fired: set<Mark>
    var enabled: set<string>
    ghost var tested: seq<Mark>
    ghost var firings: seq<Mark>
    ghost var records: seq<Mark>
    ghost var unsettled: seq<Mark>

    constructor (registry: Registry, log: seq<Event>)
      ensures this.registry == registry && Abstract() == Initial(log)
    {
      this.registry := registry;
      this.log, rows, cursors, fired, enabled := log, map[], map[], {}, {};
      tested, firings, records, unsettled := [], [], [], [];
    }

    ghost function Abstract(): State
      reads this
    {
      State(log, rows, cursors, fired, enabled, tested, firings, records, unsettled)
    }

    method PublishEvent(event: Event)
      modifies this`log
      ensures log == old(log) + [event]
    {
      log := log + [event];
    }

    method UpdateTriggerState(id: string, isEnabled: bool, lastEvent: Option<nat>, lastFired: Option<nat>)
      modifies this`rows
      ensures rows == Upsert(old(rows), id, isEnabled, lastEvent, lastFired)
    {
      var next := if lastEvent.Some? then lastEvent.value else Durable(rows, id);
      var kept := if lastFired.Some? then lastFired else if id in rows then rows[id].lastFired else None;
      rows := rows[id := Row(isEnabled, next, kept)];
    }

    method EnableSessionTrigger(t: Trigger)
      requires t.id in registry && registry[t.id] == t
      modifies this
      ensures Abstract() == Apply(registry, old(Abstract()), EnableTrigger(t.id))
    {
      if t.id in enabled {
        return;
      }
      enabled := enabled + {t.id};
      var cursor := Durable(rows, t.id);
      if cursor != 0 && t.id !in cursors {
        cursors := cursors[t.id := cursor];
      }
      UpdateTriggerState(t.id, true, Some(cursor), None);
      PublishEvent(AuditEvent("framework.trigger.enabled", TriggerPayload(t)));
    }

    method DisableSessionTriggers()
      modifies this
      ensures Abstract() == Apply(registry, old(Abstract()), DisableTriggers)
    {
      if enabled == {} {
        NothingToDisable(Abstract(), registry);
        return;
      }
      DisableEach(SortedKeys(enabled));
      enabled := {};
    }

    /** The loop of that function, over the enabled rules in order. */
    method DisableEach(ids: seq<string>)
      modifies this`rows, this`log
      ensures Abstract() == DisableAll(old(Abstract()), registry, ids)
    {
      ghost var goal := DisableAll(Abstract(), registry, ids);
      DisableStarts(Abstract(), registry, ids);
      for i := 0 to |ids|
        invariant DisableFrom(Abstract(), registry, ids, i) == goal
      {
        DisableStep(Abstract(), registry, ids, i);
        DisableOneTrigger(ids[i]);
      }
      DisableEnds(Abstract(), registry, ids);
    }

    /** Its body. */
    method DisableOneTrigger(id: string)
      modifies this`rows, this`log
      ensures Abstract() == DisableOne(old(Abstract()), registry, id)
    {
      var payload := if id in registry then TriggerPayload(registry[id]) else map["trigger_id" := Words(id)];
      UpdateTriggerState(id, false, None, None);
      PublishEvent(AuditEvent("framework.trigger.disabled", payload));
    }

    /** The loop of a polling pass, up to the event to fire for. */
    method FindMatch(t: Trigger, afterId: nat, window: seq<nat>, activeJobs: set<int>)
      returns (hit: Option<nat>, latestSeen: nat, ghost done: seq<nat>)
      requires Ascending(afterId, window, |log|)
      ensures ScanResult(done, hit) == Scan(Abstract(), t, window, activeJobs)
      ensures latestSeen == if hit.Some? then hit.value else if window == [] then afterId else window[|window| - 1]
    {
      ghost var s := Abstract();
      latestSeen, done := afterId, [];
      assert window[0..] == window;
      for i := 0 to |window|
        invariant latestSeen == if i == 0 then afterId else window[i - 1]
        invariant Scan(s, t, window, activeJobs) == AfterTesting(done, Scan(s, t, window[i..], activeJobs))
      {
        var eventId := window[i];
        ScanStep(s, t, window, i, done, activeJobs);
        latestSeen := Max(latestSeen, eventId);
        if Mark(t.id, eventId) in fired {
          continue;
        }
        done := done + [eventId];
        if MatchesAt(log, t, eventId, activeJobs) {
          return Some(eventId), latestSeen, done;
        }
      }
      hit := None;
    }

    /** One polling pass. */
    method FrameworkTriggerFired(t: Trigger, activeJobs: set<int>) returns (fires: bool)
      requires t.id in registry && registry[t.id] == t
      modifies this
      ensures Abstract() == Apply(registry, old(Abstract()), PollTrigger(t.id, activeJobs))
      ensures fires <==> |firings| == |old(firings)| + 1
    {
      var afterId := if t.id in cursors then cursors[t.id] else Durable(rows, t.id);
      var window := Window(log, {t.topic}, afterId, WINDOW);
      WindowAscends(log, {t.topic}, afterId, WINDOW);
      ghost var done;
      var hit, latestSeen;
      hit, latestSeen, done := FindMatch(t, afterId, window, activeJobs);
      if hit.Some? {
        RecordFiring(t, hit.value, done);
      } else {
        RecordProgress(t, afterId, latestSeen, done);
      }
      fires := hit.Some?;
    }

    /** Nothing matched: the cursor moves on, and is written only if it moved. */
    method RecordProgress(t: Trigger, afterId: nat, latestSeen: nat, ghost done: seq<nat>)
      requires afterId == Cursor(Abstract(), t.id)
      modifies this
      ensures Abstract() == Advance(old(Abstract()), t, done, latestSeen)
    {
      cursors := cursors[t.id := latestSeen];
      if latestSeen != afterId {
        UpdateTriggerState(t.id, true, Some(latestSeen), None);
      }
      tested := tested + Pairs(t.id, done);
    }

    method RecordFiring(t: Trigger, eventId: nat, ghost done: seq<nat>)
      requires 1 <= eventId <= |log|
      modifies this
      ensures Abstract() == Fire(old(Abstract()), t, done, eventId)
    {
      fired := fired + {Mark(t.id, eventId)};
      PublishEvent(FiredEvent(t, eventId, log[eventId - 1]));
      UpdateTriggerState(t.id, true, Some(eventId), Some(eventId));
      cursors := cursors[t.id := eventId];
      tested := tested + Pairs(t.id, done);
      firings, records := firings + [Mark(t.id, eventId)], records + [Mark(t.id, eventId)];
    }
  }

  /** What is left of the loop of `DisableEach`. */
  function DisableFrom(s: State, triggers: map<string, Trigger>, ids: seq<string>, i: nat): State
    requires i <= |ids|
  {
    DisableAll(s, triggers, ids[i..])
  }

  lemma NothingToDisable(s: State, triggers: map<string, Trigger>)
    requires s.enabled == {}
    ensures Disable(s, triggers) == s
  {
    assert SortedKeys(s.enabled) == [];
  }

  lemma DisableStarts(s: State, triggers: map<string, Trigger>, ids: seq<string>)
    ensures DisableFrom(s, triggers, ids, 0) == DisableAll(s, triggers, ids)
  {
    assert ids[0..] == ids;
  }

  lemma DisableStep(s: State, triggers: map<string, Trigger>, ids: seq<string>, i: nat)
    requires i < |ids|
    ensures DisableFrom(DisableOne(s, triggers, ids[i]), triggers, ids, i + 1) == DisableFrom(s, triggers, ids, i)
  {
    assert ids[i..][0] == ids[i] && ids[i..][1..] == ids[i + 1..];
  }

  lemma DisableEnds(s: State, triggers: map<string, Trigger>, ids: seq<string>)
    ensures DisableFrom(s, triggers, ids, |ids|) == s
  {
  }

  function AfterTesting(done: seq<nat>, rest: ScanResult): ScanResult {
    ScanResult(done + rest.tested, rest.hit)
  }

  lemma ScanStep(s: State, t: Trigger, window: seq<nat>, i: nat, done: seq<nat>, activeJobs: set<int>)
    requires i < |window|
    ensures var e, rest := window[i], Scan(s, t, window[i + 1..], activeJobs);
      AfterTesting(done, Scan(s, t, window[i..], activeJobs))
      == if Mark(t.id, e) in s.fired then AfterTesting(done, rest)
         else if MatchesAt(s.log, t, e, activeJobs) then ScanResult(done + [e], Some(e))
         else AfterTesting(done + [e], rest)
  {
    assert window[i..][0] == window[i] && window[i..][1..] == window[i + 1..];
    Associative(done, [window[i]], Scan(s, t, window[i + 1..], activeJobs).tested);
  }
}
