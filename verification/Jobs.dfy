/** Job rows, the job ledger, and the processes that create, claim, run, sweep and cancel jobs. Each
    SQL statement and each published event is one atomic step. */
module Jobs {
  import opened Results

  /** The `job.*` events of the ledger. */
  datatype Topic = Requested | Claimed | Denied | Started | Failed | Finished

  datatype Entry = Entry(topic: Topic, job: nat)

  datatype Row = Row(status: string, pid: Option<nat>)

  type Rows = map<nat, Row>

  const ACTIVE: set<string> := {"queued", "claimed", "running", "pausing", "paused", "cancelling"}

  // ---------- statements ----------

  /** `update_job_status` and `finish_job`: unconditional, and without effect on a missing row. */
  function WithStatus(rows: Rows, job: nat, status: string): Rows {
    if job in rows then rows[job := rows[job].(status := status)] else rows
  }

  function WithPid(rows: Rows, job: nat, pid: Option<nat>): Rows {
    if job in rows then rows[job := rows[job].(pid := pid)] else rows
  }

  predicate Claimable(rows: Rows, job: nat) {
    job in rows && rows[job].status == "queued"
  }

  /** `claim_job` on a claimable row. */
  function WithClaim(rows: Rows, job: nat, pid: Option<nat>): Rows
    requires Claimable(rows, job)
  {
    rows[job := Row("claimed", pid)]
  }

  /** A row that `mark_stale_jobs` picks, when the processes in `gone` do not exist. */
  predicate LooksStale(row: Row, gone: set<nat>) {
    row.status in ACTIVE && (row.pid.None? || row.pid.value in gone)
  }

  function StaleIds(rows: Rows, last: nat, gone: set<nat>): (ids: seq<nat>)
    ensures forall id :: id in ids <==> 1 <= id <= last && id in rows && LooksStale(rows[id], gone)
  {
    if last == 0 then []
    else StaleIds(rows, last - 1, gone) + (if last in rows && LooksStale(rows[last], gone) then [last] else [])
  }

  // ---------- processes ----------

  /** Where a process stands: as the creator of a job, as a worker, or in a sweep. */
  datatype Process =
    | Idle
    | Requesting(job: nat)
    | Claiming(job: nat)
    | Lost(job: nat)
    | Won(job: nat)
    | Starting(job: nat)
    | Announcing(job: nat)
    | Working(job: nat)
    | Failing(job: nat)
    | EndingFailed(job: nat)
    | Succeeding(job: nat)
    | EndingFinished(job: nat)
    | Sweeping(stale: seq<nat>)

  /** The job rows 1 to `last`, the ledger, the processes, and the history of successful claims. */
  datatype State = State(rows: Rows, last: nat, log: seq<Entry>, processes: map<nat, Process>, claims: seq<nat>)

  /** `Raise` is an exception in a process, `Die` its end at any point. `SetStatus` stands for the
      commands that cancel, kill, pause or resume a job; none of them writes `queued`. */
  datatype Step =
    | Create(p: nat, pid: Option<nat>)
    | Spawn(p: nat, job: nat)
    | Advance(p: nat)
    | Raise(p: nat)
    | Die(p: nat)
    | Sweep(p: nat, gone: set<nat>)
    | SetStatus(job: nat, status: string)
    | SetPid(job: nat, pid: Option<nat>)

  function Pc(s: State, p: nat): Process {
    if p in s.processes then s.processes[p] else Idle
  }

  function At(s: State, p: nat, pc: Process): State {
    s.(processes := s.processes[p := pc])
  }

  function Publish(s: State, topic: Topic, job: nat): State {
    s.(log := s.log + [Entry(topic, job)])
  }

  function Write(s: State, job: nat, status: string): State {
    s.(rows := WithStatus(s.rows, job, status))
  }

  /** The next statement of a process. */
  function Next(s: State, p: nat): State {
    match Pc(s, p)
    case Idle => s
    case Requesting(job) => At(Publish(s, Requested, job), p, Idle)
    case Claiming(job) =>
      if Claimable(s.rows, job)
      then At(s.(rows := WithClaim(s.rows, job, Some(p)), claims := s.claims + [job]), p, Won(job))
      else At(s, p, Lost(job))
    case Lost(job) => At(Publish(s, Denied, job), p, Idle)
    case Won(job) => At(Publish(s, Claimed, job), p, Starting(job))
    case Starting(job) => At(Write(s, job, "running"), p, Announcing(job))
    case Announcing(job) => At(Publish(s, Started, job), p, Working(job))
    case Working(job) => At(s, p, Succeeding(job))
    case Failing(job) => At(Publish(s, Failed, job), p, EndingFailed(job))
    case EndingFailed(job) => At(Write(s, job, "failed"), p, Idle)
    case Succeeding(job) => At(Publish(s, Finished, job), p, EndingFinished(job))
    case EndingFinished(job) => At(Write(s, job, "finished"), p, Idle)
    case Sweeping(stale) =>
      if stale == [] then At(s, p, Idle) else At(Write(s, stale[0], "stale"), p, Sweeping(stale[1..]))
  }

  /** A worker turns an exception in its start or its pipeline into a failure of the job; every other
      exception ends the process. */
  function AfterException(pc: Process): Process {
    if pc.Starting? || pc.Announcing? || pc.Working? then Failing(pc.job) else Idle
  }

  function Apply(s: State, step: Step): State {
    match step
    case Create(p, pid) =>
      if Pc(s, p).Idle?
      then At(s.(rows := s.rows[s.last + 1 := Row("queued", pid)], last := s.last + 1), p, Requesting(s.last + 1))
      else s
    case Spawn(p, job) =>
      if Pc(s, p).Idle? && Entry(Requested, job) in s.log then At(s, p, Claiming(job)) else s
    case Advance(p) => Next(s, p)
    case Raise(p) => At(s, p, AfterException(Pc(s, p)))
    case Die(p) => At(s, p, Idle)
    case Sweep(p, gone) => if Pc(s, p).Idle? then At(s, p, Sweeping(StaleIds(s.rows, s.last, gone))) else s
    case SetStatus(job, status) => if status != "queued" then Write(s, job, status) else s
    case SetPid(job, pid) => s.(rows := WithPid(s.rows, job, pid))
  }

  function Run(s: State, steps: seq<Step>): State {
    if steps == [] then s else Apply(Run(s, steps[..|steps| - 1]), steps[|steps| - 1])
  }

  const EMPTY: State := State(map[], 0, [], map[], [])

  // ---------- the order of a job's events ----------

  datatype Phase = Unknown | Asked | Taken | Begun | Ended | Broken

  function Then(phase: Phase, topic: Topic): Phase {
    match topic
    case Denied => phase
    case Requested => if phase == Unknown then Asked else Broken
    case Claimed => if phase == Asked then Taken else Broken
    case Started => if phase == Taken then Begun else Broken
    case Failed => if phase == Taken || phase == Begun then Ended else Broken
    case Finished => if phase == Begun then Ended else Broken
  }

  function Track(log: seq<Entry>, job: nat): Phase {
    if log == [] then Unknown
    else
      var last, before := log[|log| - 1], Track(log[..|log| - 1], job);
      if last.job == job then Then(before, last.topic) else before
  }

  /** The events of a job but for denied claims. */
  function Story(log: seq<Entry>, job: nat): seq<Topic> {
    if log == [] then []
    else
      var last, before := log[|log| - 1], Story(log[..|log| - 1], job);
      if last.job == job && last.topic != Denied then before + [last.topic] else before
  }

  /** Requested, claimed, started, then failed or finished; a failure may come without a start, and
      the story may stop anywhere. */
  predicate InOrder(story: seq<Topic>) {
    || story <= [Requested, Claimed, Started, Finished]
    || story <= [Requested, Claimed, Started, Failed]
    || story == [Requested, Claimed, Failed]
  }

  predicate Tells(phase: Phase, story: seq<Topic>) {
    match phase
    case Unknown => story == []
    case Asked => story == [Requested]
    case Taken => story == [Requested, Claimed]
    case Begun => story == [Requested, Claimed, Started]
    case Ended =>
      || story == [Requested, Claimed, Failed]
      || story == [Requested, Claimed, Started, Failed]
      || story == [Requested, Claimed, Started, Finished]
    case Broken => true
  }

  lemma {:induction false} TrackTells(log: seq<Entry>, job: nat)
    ensures Tells(Track(log, job), Story(log, job))
  {
    if log != [] {
      TrackTells(log[..|log| - 1], job);
    }
  }

  lemma TellsInOrder(phase: Phase, story: seq<Topic>)
    requires phase != Broken && Tells(phase, story)
    ensures InOrder(story)
    ensures Claimed in story <==> phase !in {Unknown, Asked}
    ensures Started in story ==> Claimed in story
  {
  }

  lemma TrackOneMore(log: seq<Entry>, topic: Topic, job: nat, j: nat)
    ensures Track(log + [Entry(topic, job)], j) == if j == job then Then(Track(log, j), topic) else Track(log, j)
  {
    assert (log + [Entry(topic, job)])[..|log|] == log;
  }

  lemma {:induction false} RequestedIsKnown(log: seq<Entry>, job: nat)
    requires Entry(Requested, job) in log
    ensures Track(log, job) != Unknown
  {
    var last := log[|log| - 1];
    assert log == log[..|log| - 1] + [last];
    if last != Entry(Requested, job) {
      RequestedIsKnown(log[..|log| - 1], job);
    }
  }

  // ---------- the texts of the statuses ----------

  /** The status of a new job, of a claimed one, and what a worker writes from there. */
  lemma StatusTexts(s: State, p: nat, job: nat)
    requires job in s.rows
    ensures Pc(s, p).Idle? ==> forall pid ::
      Apply(s, Create(p, pid)).rows[s.last + 1] == Row("queued", pid)
    ensures Pc(s, p) == Claiming(job) ==>
      Next(s, p).rows[job] == if s.rows[job].status == "queued" then Row("claimed", Some(p)) else s.rows[job]
    ensures Pc(s, p) == Starting(job) ==> Next(s, p).rows[job] == Row("running", s.rows[job].pid)
    ensures Pc(s, p) == EndingFailed(job) ==> Next(s, p).rows[job] == Row("failed", s.rows[job].pid)
    ensures Pc(s, p) == EndingFinished(job) ==> Next(s, p).rows[job] == Row("finished", s.rows[job].pid)
    ensures (Pc(s, p).Sweeping? && Pc(s, p).stale != [] && Pc(s, p).stale[0] == job) ==>
      Next(s, p).rows[job] == Row("stale", s.rows[job].pid)
  {
  }

  /** A command that sets a pid or a status writes that and nothing else. */
  lemma CommandsWrite(s: State, job: nat, pid: Option<nat>, status: string)
    requires status != "queued"
    ensures Apply(s, SetPid(job, pid)) ==
      if job in s.rows then s.(rows := s.rows[job := Row(s.rows[job].status, pid)]) else s
    ensures Apply(s, SetStatus(job, status)) ==
      if job in s.rows then s.(rows := s.rows[job := Row(status, s.rows[job].pid)]) else s
  {
  }

  /** A sweep takes a job exactly when its status is one of the six before an end, and it has no process or
      one that is gone. */
  lemma SweepTakes(s: State, p: nat, gone: set<nat>, job: nat)
    requires Pc(s, p).Idle? && 1 <= job <= s.last && job in s.rows
    ensures var swept, row := Apply(s, Sweep(p, gone)), s.rows[job];
      Pc(swept, p).Sweeping? && (job in Pc(swept, p).stale <==>
        (row.status == "queued" || row.status == "claimed" || row.status == "running" || row.status == "pausing"
          || row.status == "paused" || row.status == "cancelling")
        && (row.pid == None || row.pid.value in gone))
  {
  }

  /** An exception in a worker that has claimed and told so is told, and the job fails. */
  lemma {:induction false} ExceptionFails(s: State, p: nat, job: nat)
    requires job in s.rows && (Pc(s, p) == Starting(job) || Pc(s, p) == Announcing(job) || Pc(s, p) == Working(job))
    ensures var t := Apply(Apply(Apply(s, Raise(p)), Advance(p)), Advance(p));
      && t.log == s.log + [Entry(Failed, job)] && t.rows == s.rows[job := Row("failed", s.rows[job].pid)]
      && Pc(t, p).Idle?
  {
    var raised := Apply(s, Raise(p));
    assert Pc(raised, p) == Failing(job);
    var told := Apply(raised, Advance(p));
    assert Pc(told, p) == EndingFailed(job);
  }

  /** Anywhere else it only ends the process. */
  lemma {:induction false} ExceptionEnds(s: State, p: nat)
    requires !Pc(s, p).Starting? && !Pc(s, p).Announcing? && !Pc(s, p).Working?
    ensures Apply(s, Raise(p)) == s.(processes := s.processes[p := Idle])
  {
  }
}
