/** When a job's terminal status stays: exactly when nobody is left who may write another. */
module JobStatuses {
  import opened JobRuns
  import opened Jobs

  ghost predicate IsTerminal(s: State, job: nat) {
    job in s.rows && s.rows[job].status !in ACTIVE
  }

  /** A process that may go on to give the job another terminal or running status: a worker on its way
      to a status other than this one, or a sweep that has already picked the job. */
  predicate MayStillWrite(pc: Process, job: nat, status: string) {
    match pc
    case Won(j) => j == job
    case Starting(j) => j == job
    case Announcing(j) => j == job
    case Working(j) => j == job
    case Failing(j) => j == job && status != "failed"
    case EndingFailed(j) => j == job && status != "failed"
    case Succeeding(j) => j == job && status != "finished"
    case EndingFinished(j) => j == job && status != "finished"
    case Sweeping(stale) => job in stale && status != "stale"
    case _ => false
  }

  ghost predicate Settled(s: State, job: nat)
    requires job in s.rows
  {
    forall p: nat :: !MayStillWrite(Pc(s, p), job, s.rows[job].status)
  }

  /** No command writes the job's status in between. */
  ghost predicate Quiet(steps: seq<Step>, job: nat) {
    forall k :: 0 <= k < |steps| && steps[k].SetStatus? ==> steps[k].job != job
  }

  ghost predicate Keeps(s: State, steps: seq<Step>, job: nat)
    requires job in s.rows
  {
    var t := Run(s, steps);
    job in t.rows && t.rows[job].status == s.rows[job].status
  }

  // ---------- settled jobs stay as they are ----------

  lemma OneProcessMoved(s: State, t: State, p: nat, job: nat)
    requires IsTerminal(s, job) && Settled(s, job)
    requires job in t.rows && t.rows[job].status == s.rows[job].status
    requires forall q: nat :: q != p ==> Pc(t, q) == Pc(s, q)
    requires !MayStillWrite(Pc(t, p), job, s.rows[job].status)
    ensures Settled(t, job)
  {
  }

  lemma SettledStays(s: State, step: Step, job: nat)
    requires Inv(s) && IsTerminal(s, job) && Settled(s, job) && (step.SetStatus? ==> step.job != job)
    ensures var t := Apply(s, step);
      IsTerminal(t, job) && t.rows[job].status == s.rows[job].status && Settled(t, job)
  {
    var t := Apply(s, step);
    match step {
      case Advance(p) => NextStaysSettled(s, p, job);
      case SetStatus(_, _) =>
        assert !MayStillWrite(Pc(s, 0), job, s.rows[job].status);
        OneProcessMoved(s, t, 0, job);
      case SetPid(_, _) =>
        assert !MayStillWrite(Pc(s, 0), job, s.rows[job].status);
        OneProcessMoved(s, t, 0, job);
      case _ =>
        assert !MayStillWrite(Pc(s, step.p), job, s.rows[job].status);
        OneProcessMoved(s, t, step.p, job);
    }
  }

  lemma NextStaysSettled(s: State, p: nat, job: nat)
    requires IsTerminal(s, job) && Settled(s, job)
    ensures var t := Next(s, p);
      IsTerminal(t, job) && t.rows[job].status == s.rows[job].status && Settled(t, job)
  {
    var t := Next(s, p);
    assert !MayStillWrite(Pc(s, p), job, s.rows[job].status);
    NextKeepsStatus(s, p, job);
    assert forall q: nat :: q != p ==> Pc(t, q) == Pc(s, q);
  }

  lemma NextKeepsStatus(s: State, p: nat, job: nat)
    requires IsTerminal(s, job) && !MayStillWrite(Pc(s, p), job, s.rows[job].status)
    ensures var t := Next(s, p);
      && job in t.rows && t.rows[job].status == s.rows[job].status
      && !MayStillWrite(Pc(t, p), job, s.rows[job].status)
  {
  }

  lemma {:induction false} SettledIsKept(s: State, steps: seq<Step>, job: nat)
    requires Inv(s) && IsTerminal(s, job) && Settled(s, job) && Quiet(steps, job)
    ensures Inv(Run(s, steps)) && Keeps(s, steps, job) && Settled(Run(s, steps), job)
    decreases |steps|
  {
    if steps != [] {
      var front, step := steps[..|steps| - 1], steps[|steps| - 1];
      assert forall k :: 0 <= k < |front| ==> front[k] == steps[k];
      SettledIsKept(s, front, job);
      ApplyKeepsInv(Run(s, front), step);
      SettledStays(Run(s, front), step, job);
    }
  }

  // ---------- unsettled jobs may change ----------

  lemma {:induction false} RunFirst(s: State, step: Step, steps: seq<Step>)
    ensures Run(s, [step] + steps) == Run(Apply(s, step), steps)
    decreases |steps|
  {
    var all := [step] + steps;
    if steps == [] {
      assert all == [step] && all[..0] == [];
    } else {
      assert all[..|all| - 1] == [step] + steps[..|steps| - 1];
      RunFirst(s, step, steps[..|steps| - 1]);
    }
  }

  /** How many statements a process is from such a write. */
  function Distance(pc: Process): nat {
    match pc
    case Won(_) => 2
    case Announcing(_) => 4
    case Working(_) => 3
    case Failing(_) => 2
    case Succeeding(_) => 2
    case Sweeping(stale) => |stale|
    case _ => 1
  }

  /** The next step of a process towards another status: a worker with a choice fails unless the job is
      marked failed already. */
  function Toward(p: nat, pc: Process, status: string): Step {
    if pc.Working? && status != "failed" then Raise(p) else Advance(p)
  }

  lemma OneStepToward(s: State, p: nat, job: nat)
    requires IsTerminal(s, job) && MayStillWrite(Pc(s, p), job, s.rows[job].status)
    ensures var status := s.rows[job].status;
      var t := Apply(s, Toward(p, Pc(s, p), status));
      && job in t.rows
      && (t.rows[job].status != status ||
            (MayStillWrite(Pc(t, p), job, status) && Distance(Pc(t, p)) < Distance(Pc(s, p))))
  {
    var pc := Pc(s, p);
    assert "running" in ACTIVE;
    if pc.Sweeping? && pc.stale[0] != job {
      assert pc.stale == [pc.stale[0]] + pc.stale[1..];
    }
  }

  lemma {:induction false} MayChange(s: State, p: nat, job: nat) returns (steps: seq<Step>)
    requires IsTerminal(s, job) && MayStillWrite(Pc(s, p), job, s.rows[job].status)
    ensures Quiet(steps, job) && !Keeps(s, steps, job)
    decreases Distance(Pc(s, p))
  {
    var step := Toward(p, Pc(s, p), s.rows[job].status);
    var t := Apply(s, step);
    OneStepToward(s, p, job);
    var more: seq<Step> := [];
    if t.rows[job].status == s.rows[job].status {
      more := MayChange(t, p, job);
    }
    RunFirst(s, step, more);
    steps := [step] + more;
  }

  /** A terminal status stays through every continuation that does not set it by command, exactly when
      no worker is on its way to another status and no sweep has already picked the job. */
  lemma TerminalStaysExactly(s: State, job: nat)
    requires Inv(s) && IsTerminal(s, job)
    ensures (forall steps :: Quiet(steps, job) ==> Keeps(s, steps, job)) <==> Settled(s, job)
  {
    if Settled(s, job) {
      forall steps | Quiet(steps, job)
        ensures Keeps(s, steps, job)
      {
        SettledIsKept(s, steps, job);
      }
    } else {
      var p: nat :| MayStillWrite(Pc(s, p), job, s.rows[job].status);
      var steps := MayChange(s, p, job);
    }
  }
}
