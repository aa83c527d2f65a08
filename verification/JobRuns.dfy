/** What every interleaving of creators, workers, sweeps and other writers keeps: one claim for a job
    at most, and the order of its events. */
module JobRuns {
  import opened Jobs
  import opened Results

  /** After a successful claim. */
  predicate HasClaim(pc: Process) {
    || pc.Won? || pc.Starting? || pc.Announcing? || pc.Working?
    || pc.Failing? || pc.EndingFailed? || pc.Succeeding? || pc.EndingFinished?
  }

  /** The process is the one that may publish the next event of its job. */
  predicate Owns(pc: Process, job: nat) {
    (pc.Requesting? || HasClaim(pc)) && pc.job == job
  }

  /** The phase a process takes its job to be in. */
  predicate Fits(pc: Process, phase: Phase) {
    match pc
    case Idle => true
    case Sweeping(_) => true
    case Requesting(_) => phase == Unknown
    case Claiming(_) => phase != Unknown
    case Lost(_) => phase != Unknown
    case Won(_) => phase == Asked
    case Starting(_) => phase == Taken
    case Announcing(_) => phase == Taken
    case Working(_) => phase == Begun
    case Failing(_) => phase == Taken || phase == Begun
    case EndingFailed(_) => phase == Ended
    case Succeeding(_) => phase == Begun
    case EndingFinished(_) => phase == Ended
  }

  predicate HasJob(pc: Process) {
    !pc.Idle? && !pc.Sweeping?
  }

  ghost predicate ProcessesFit(s: State) {
    && (forall p: nat :: HasJob(Pc(s, p)) ==> Fits(Pc(s, p), Track(s.log, Pc(s, p).job)))
    && (forall p: nat :: HasClaim(Pc(s, p)) ==> Pc(s, p).job in s.claims)
    && (forall p: nat :: Pc(s, p).Requesting? ==> Pc(s, p).job <= s.last)
    && (forall p: nat, q: nat, j: nat :: Owns(Pc(s, p), j) && Owns(Pc(s, q), j) ==> p == q)
  }

  ghost predicate LogFits(log: seq<Entry>, claims: seq<nat>, last: nat) {
    && (forall j: nat :: Track(log, j) != Broken)
    && (forall j: nat :: Track(log, j) == Unknown || Track(log, j) == Asked || j in claims)
    && (forall j: nat :: Track(log, j) == Unknown || j <= last)
  }

  ghost predicate RowsFit(rows: Rows, claims: seq<nat>, last: nat) {
    && (forall j: nat :: j in rows <==> 1 <= j <= last)
    && (forall j :: j in claims ==> j in rows && rows[j].status != "queued")
    && (forall i, k :: 0 <= i < k < |claims| ==> claims[i] != claims[k])
  }

  ghost predicate Inv(s: State) {
    ProcessesFit(s) && LogFits(s.log, s.claims, s.last) && RowsFit(s.rows, s.claims, s.last)
  }

  // ---------- kinds of moves ----------

  /** A process moves on without writing. */
  lemma MoveKeeps(s: State, p: nat, pc: Process)
    requires Inv(s)
    requires HasJob(pc) ==> Fits(pc, Track(s.log, pc.job))
    requires HasClaim(pc) ==> HasClaim(Pc(s, p)) && pc.job == Pc(s, p).job
    requires !pc.Requesting?
    ensures Inv(At(s, p, pc))
  {
    var s' := At(s, p, pc);
    assert forall q: nat :: Pc(s', q) == if q == p then pc else Pc(s, q);
    assert forall j :: Owns(pc, j) ==> Owns(Pc(s, p), j);
  }

  /** Statuses other than `queued` may be written over anything. */
  lemma WriteKeeps(s: State, job: nat, status: string)
    requires Inv(s) && status != "queued"
    ensures Inv(Write(s, job, status))
  {
    assert forall p: nat :: Pc(Write(s, job, status), p) == Pc(s, p);
  }

  /** The owner of a job publishes its next event. */
  lemma PublishKeeps(s: State, p: nat, topic: Topic, pc: Process)
    requires Inv(s) && HasJob(Pc(s, p)) && Owns(Pc(s, p), Pc(s, p).job)
    requires Then(Track(s.log, Pc(s, p).job), topic) !in {Unknown, Broken}
    requires Then(Track(s.log, Pc(s, p).job), topic) == Asked || HasClaim(Pc(s, p))
    requires pc.Idle? ||
      (HasClaim(pc) && HasClaim(Pc(s, p)) && pc.job == Pc(s, p).job && Fits(pc, Then(Track(s.log, pc.job), topic)))
    ensures Inv(At(Publish(s, topic, Pc(s, p).job), p, pc))
  {
    LogStillFits(s.log, s.claims, s.last, topic, Pc(s, p).job);
    OthersStillFit(s, p, topic, pc);
  }

  lemma LogStillFits(log: seq<Entry>, claims: seq<nat>, last: nat, topic: Topic, job: nat)
    requires LogFits(log, claims, last) && job <= last
    requires Then(Track(log, job), topic) !in {Unknown, Broken}
    requires Then(Track(log, job), topic) == Asked || job in claims
    ensures LogFits(log + [Entry(topic, job)], claims, last)
  {
    forall j: nat
      ensures Track(log + [Entry(topic, job)], j) == if j == job then Then(Track(log, j), topic) else Track(log, j)
    {
      TrackOneMore(log, topic, job, j);
    }
  }

  lemma OthersStillFit(s: State, p: nat, topic: Topic, pc: Process)
    requires ProcessesFit(s) && HasJob(Pc(s, p)) && Owns(Pc(s, p), Pc(s, p).job)
    requires Then(Track(s.log, Pc(s, p).job), topic) !in {Unknown, Broken}
    requires pc.Idle? ||
      (HasClaim(pc) && HasClaim(Pc(s, p)) && pc.job == Pc(s, p).job && Fits(pc, Then(Track(s.log, pc.job), topic)))
    ensures ProcessesFit(At(Publish(s, topic, Pc(s, p).job), p, pc))
  {
    var job := Pc(s, p).job;
    var s' := At(Publish(s, topic, job), p, pc);
    assert forall q: nat :: Pc(s', q) == if q == p then pc else Pc(s, q);
    forall q: nat | HasJob(Pc(s', q))
      ensures Fits(Pc(s', q), Track(s'.log, Pc(s', q).job))
    {
      TrackOneMore(s.log, topic, job, Pc(s', q).job);
      assert q != p && Pc(s, q).job == job ==> !Owns(Pc(s, q), job);
    }
  }

  lemma DeniedKeeps(s: State, p: nat)
    requires Inv(s) && Pc(s, p).Lost?
    ensures Inv(Next(s, p))
  {
    var job := Pc(s, p).job;
    var s' := Next(s, p);
    assert forall q: nat :: Pc(s', q) == if q == p then Idle else Pc(s, q);
    forall j
      ensures Track(s'.log, j) == Track(s.log, j)
    {
      TrackOneMore(s.log, Denied, job, j);
    }
  }

  lemma ClaimKeeps(s: State, p: nat)
    requires Inv(s) && Pc(s, p).Claiming? && Claimable(s.rows, Pc(s, p).job)
    ensures Inv(Next(s, p))
  {
    var job := Pc(s, p).job;
    var s' := Next(s, p);
    assert forall q: nat :: Pc(s', q) == if q == p then Won(job) else Pc(s, q);
    assert job !in s.claims && Track(s.log, job) == Asked;
    assert s'.claims[|s.claims|] == job;
  }

  lemma CreateKeeps(s: State, p: nat, pid: Option<nat>)
    requires Inv(s) && Pc(s, p).Idle?
    ensures Inv(Apply(s, Create(p, pid)))
  {
    var job := s.last + 1;
    var s' := Apply(s, Create(p, pid));
    assert forall q: nat :: Pc(s', q) == if q == p then Requesting(job) else Pc(s, q);
    assert Track(s.log, job) == Unknown;
  }

  // ---------- every step ----------

  lemma PublishingKeepsInv(s: State, p: nat)
    requires Inv(s)
    requires var pc := Pc(s, p);
      pc.Requesting? || pc.Won? || pc.Announcing? || pc.Failing? || pc.Succeeding?
    ensures Inv(Next(s, p))
  {
    match Pc(s, p) {
      case Requesting(job) => PublishKeeps(s, p, Requested, Idle);
      case Won(job) => PublishKeeps(s, p, Claimed, Starting(job));
      case Announcing(job) => PublishKeeps(s, p, Started, Working(job));
      case Failing(job) => PublishKeeps(s, p, Failed, EndingFailed(job));
      case Succeeding(job) => PublishKeeps(s, p, Finished, EndingFinished(job));
    }
  }

  lemma WritingKeepsInv(s: State, p: nat)
    requires Inv(s) && (Pc(s, p).Starting? || Pc(s, p).EndingFailed? || Pc(s, p).EndingFinished?)
    ensures Inv(Next(s, p))
  {
    match Pc(s, p) {
      case Starting(job) => WriteAndMove(s, p, job, "running", Announcing(job));
      case EndingFailed(job) => WriteAndMove(s, p, job, "failed", Idle);
      case EndingFinished(job) => WriteAndMove(s, p, job, "finished", Idle);
    }
  }

  lemma WriteAndMove(s: State, p: nat, job: nat, status: string, pc: Process)
    requires Inv(s) && status != "queued" && !pc.Requesting?
    requires HasJob(pc) ==> Fits(pc, Track(s.log, pc.job))
    requires HasClaim(pc) ==> HasClaim(Pc(s, p)) && pc.job == Pc(s, p).job
    ensures Inv(At(Write(s, job, status), p, pc))
  {
    WriteKeeps(s, job, status);
    MoveKeeps(Write(s, job, status), p, pc);
  }

  lemma NextKeepsInv(s: State, p: nat)
    requires Inv(s)
    ensures Inv(Next(s, p))
  {
    match Pc(s, p) {
      case Idle =>
      case Claiming(job) =>
        if Claimable(s.rows, job) { ClaimKeeps(s, p); } else { MoveKeeps(s, p, Lost(job)); }
      case Lost(_) => DeniedKeeps(s, p);
      case Working(job) => MoveKeeps(s, p, Succeeding(job));
      case Sweeping(_) => SweepKeeps(s, p);
      case Starting(_) => WritingKeepsInv(s, p);
      case EndingFailed(_) => WritingKeepsInv(s, p);
      case EndingFinished(_) => WritingKeepsInv(s, p);
      case _ => PublishingKeepsInv(s, p);
    }
  }

  lemma SweepKeeps(s: State, p: nat)
    requires Inv(s) && Pc(s, p).Sweeping?
    ensures Inv(Next(s, p))
  {
    var stale := Pc(s, p).stale;
    if stale == [] {
      MoveKeeps(s, p, Idle);
    } else {
      WriteKeeps(s, stale[0], "stale");
      MoveKeeps(Write(s, stale[0], "stale"), p, Sweeping(stale[1..]));
    }
  }

  lemma PidKeeps(s: State, job: nat, pid: Option<nat>)
    requires Inv(s)
    ensures Inv(Apply(s, SetPid(job, pid)))
  {
    assert forall p: nat :: Pc(Apply(s, SetPid(job, pid)), p) == Pc(s, p);
  }

  lemma ApplyKeepsInv(s: State, step: Step)
    requires Inv(s)
    ensures Inv(Apply(s, step))
  {
    match step {
      case Create(p, pid) => if Pc(s, p).Idle? { CreateKeeps(s, p, pid); }
      case Spawn(p, job) =>
        if Pc(s, p).Idle? && Entry(Requested, job) in s.log {
          RequestedIsKnown(s.log, job);
          MoveKeeps(s, p, Claiming(job));
        }
      case Advance(p) => NextKeepsInv(s, p);
      case Raise(p) => MoveKeeps(s, p, AfterException(Pc(s, p)));
      case Die(p) => MoveKeeps(s, p, Idle);
      case Sweep(p, gone) => if Pc(s, p).Idle? { MoveKeeps(s, p, Sweeping(StaleIds(s.rows, s.last, gone))); }
      case SetStatus(job, status) => if status != "queued" { WriteKeeps(s, job, status); }
      case SetPid(job, pid) => PidKeeps(s, job, pid);
    }
  }

  lemma {:induction false} RunKeepsInv(steps: seq<Step>)
    ensures Inv(Run(EMPTY, steps))
  {
    if steps != [] {
      RunKeepsInv(steps[..|steps| - 1]);
      ApplyKeepsInv(Run(EMPTY, steps[..|steps| - 1]), steps[|steps| - 1]);
    }
  }

  // ---------- what every run shows ----------

  /** Under every interleaving a job is claimed successfully at most once; nothing of it is in the
      ledger as claimed or started without that claim; and its events are in order. */
  lemma OneClaimAndEventsInOrder(steps: seq<Step>, job: nat)
    ensures var s := Run(EMPTY, steps);
      && (forall i, k :: 0 <= i < k < |s.claims| ==> s.claims[i] != s.claims[k])
      && InOrder(Story(s.log, job))
      && (Claimed in Story(s.log, job) ==> job in s.claims)
  {
    RunKeepsInv(steps);
    var s := Run(EMPTY, steps);
    TrackTells(s.log, job);
    TellsInOrder(Track(s.log, job), Story(s.log, job));
  }

  /** Moved off `queued` with no successful claim so far. */
  ghost predicate MovedOff(s: State, job: nat) {
    job in s.rows && s.rows[job].status != "queued" && job !in s.claims
  }

  lemma StaysMovedOff(s: State, job: nat, step: Step)
    requires MovedOff(s, job) && Inv(s)
    ensures MovedOff(Apply(s, step), job)
  {
    if step.Advance? && Pc(s, step.p).Claiming? && Claimable(s.rows, Pc(s, step.p).job) {
      assert Pc(s, step.p).job != job;
    }
  }

  /** A job moved off `queued` before its claim, by a sweep, a cancellation or anything else, is never
      claimed or started, however the run goes on. */
  lemma {:induction false} MovedOffIsNeverStarted(steps: seq<Step>, k: nat, job: nat)
    requires k <= |steps| && MovedOff(Run(EMPTY, steps[..k]), job)
    ensures var s := Run(EMPTY, steps);
      MovedOff(s, job) && Claimed !in Story(s.log, job) && Started !in Story(s.log, job)
    decreases |steps|
  {
    if k == |steps| {
      assert steps[..k] == steps;
    } else {
      var front := steps[..|steps| - 1];
      assert front[..k] == steps[..k];
      MovedOffIsNeverStarted(front, k, job);
      RunKeepsInv(front);
      StaysMovedOff(Run(EMPTY, front), job, steps[|steps| - 1]);
    }
    OneClaimAndEventsInOrder(steps, job);
    TrackTells(Run(EMPTY, steps).log, job);
    RunKeepsInv(steps);
    TellsInOrder(Track(Run(EMPTY, steps).log, job), Story(Run(EMPTY, steps).log, job));
  }

  // ---------- terminal statuses are not final ----------

  lemma OneMore(steps: seq<Step>, step: Step)
    ensures Run(EMPTY, steps + [step]) == Apply(Run(EMPTY, steps), step)
  {
    assert (steps + [step])[..|steps|] == steps;
  }

  /** A sweep that read a job before its worker recorded a pid marks it stale after it has finished:
      the order of events is safe, the status column is not. */
  lemma FinishedJobMarkedStale() returns (steps: seq<Step>)
    ensures var s := Run(EMPTY, steps);
      1 in s.rows && s.rows[1].status == "stale" && Story(s.log, 1) == [Requested, Claimed, Started, Finished]
  {
    steps := RequestedAndRead();
    steps := WorkerFinishes(steps, 2, 1);
    assert Run(EMPTY, steps).log == [Entry(Requested, 1), Entry(Claimed, 1), Entry(Started, 1), Entry(Finished, 1)];
    StoryOfFour(1);
    assert Pc(Run(EMPTY, steps), 3) == Sweeping([1]);
    steps := Do(steps, Advance(3));
  }

  lemma RequestedAndRead() returns (steps: seq<Step>)
    ensures var s := Run(EMPTY, steps);
      && s.rows == map[1 := Row("queued", None)] && s.log == [Entry(Requested, 1)]
      && Pc(s, 2) == Claiming(1) && Pc(s, 3) == Sweeping([1])
  {
    steps := RequestedOnly();
    steps := Do(steps, Spawn(2, 1));
    SweepFinds(Run(EMPTY, steps).rows);
    steps := Do(steps, Sweep(3, {}));
  }

  lemma RequestedOnly() returns (steps: seq<Step>)
    ensures var s := Run(EMPTY, steps);
      && s.rows == map[1 := Row("queued", None)] && s.last == 1 && s.log == [Entry(Requested, 1)]
      && Pc(s, 2).Idle? && Pc(s, 3).Idle?
  {
    steps := Do([], Create(1, None));
    assert Run(EMPTY, steps).processes == map[1 := Requesting(1)];
    steps := Do(steps, Advance(1));
  }

  lemma Do(steps: seq<Step>, step: Step) returns (more: seq<Step>)
    ensures more == steps + [step] && Run(EMPTY, more) == Apply(Run(EMPTY, steps), step)
  {
    more := steps + [step];
    OneMore(steps, step);
  }

  lemma SweepFinds(rows: Rows)
    requires rows == map[1 := Row("queued", None)]
    ensures StaleIds(rows, 1, {}) == [1]
  {
    assert StaleIds(rows, 0, {}) == [];
  }

  lemma WorkerStarts(steps: seq<Step>, p: nat, job: nat) returns (more: seq<Step>)
    requires Pc(Run(EMPTY, steps), p) == Claiming(job) && Claimable(Run(EMPTY, steps).rows, job)
    ensures var s, t := Run(EMPTY, steps), Run(EMPTY, more);
      && t.rows == s.rows[job := Row("running", Some(p))]
      && t.log == s.log + [Entry(Claimed, job), Entry(Started, job)]
      && Pc(t, p) == Working(job) && forall q: nat :: q != p ==> Pc(t, q) == Pc(s, q)
  {
    var s := Run(EMPTY, steps);
    more := Do(steps, Advance(p));
    more := Do(more, Advance(p));
    assert Run(EMPTY, more).log == s.log + [Entry(Claimed, job)] && Pc(Run(EMPTY, more), p) == Starting(job);
    more := Do(more, Advance(p));
    more := Do(more, Advance(p));
  }

  /** An undisturbed worker takes a claimable job through to its end. */
  lemma WorkerFinishes(steps: seq<Step>, p: nat, job: nat) returns (more: seq<Step>)
    requires Pc(Run(EMPTY, steps), p) == Claiming(job) && Claimable(Run(EMPTY, steps).rows, job)
    ensures var s, t := Run(EMPTY, steps), Run(EMPTY, more);
      && t.rows == s.rows[job := Row("finished", Some(p))]
      && t.log == s.log + [Entry(Claimed, job), Entry(Started, job), Entry(Finished, job)]
      && forall q: nat :: q != p ==> Pc(t, q) == Pc(s, q)
  {
    more := WorkerStarts(steps, p, job);
    more := Do(more, Advance(p));
    more := Do(more, Advance(p));
    more := Do(more, Advance(p));
  }

  lemma StoryOfFour(job: nat)
    ensures Story([Entry(Requested, job), Entry(Claimed, job), Entry(Started, job), Entry(Finished, job)], job)
         == [Requested, Claimed, Started, Finished]
  {
    var a, b, c, d := Entry(Requested, job), Entry(Claimed, job), Entry(Started, job), Entry(Finished, job);
    assert [a][..0] == [];
    assert [a, b][..1] == [a] && Story([a], job) == [Requested];
    assert [a, b, c][..2] == [a, b] && Story([a, b], job) == [Requested, Claimed];
    assert [a, b, c, d][..3] == [a, b, c] && Story([a, b, c], job) == [Requested, Claimed, Started];
  }
}
