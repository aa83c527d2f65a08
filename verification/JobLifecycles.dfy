/** The job table and the lifecycle publisher as they update the store in place. */
module JobLifecycles {
  import opened Jobs
  import opened Results

  /** A sweep's updates, one after the other. */
  function Swept(rows: Rows, ids: seq<nat>): Rows {
    if ids == [] then rows else Swept(WithStatus(rows, ids[0], "stale"), ids[1..])
  }

  lemma {:induction false} SweptMeans(rows: Rows, ids: seq<nat>)
    ensures Swept(rows, ids).Keys == rows.Keys
    ensures forall id :: id in rows ==>
      Swept(rows, ids)[id] == if id in ids then rows[id].(status := "stale") else rows[id]
  {
    if ids != [] {
      SweptMeans(WithStatus(rows, ids[0], "stale"), ids[1..]);
    }
  }

  /** What a background worker on its own does to the rows and the ledger. */
  function WorkerRun(s: State, p: nat, succeeds: bool): State {
    var s1 := Next(s, p);
    if Pc(s1, p).Lost? then Next(s1, p)
    else
      var working := Next(Next(Next(s1, p), p), p);
      var ending := if succeeds then Next(working, p) else Apply(working, Raise(p));
      Next(Next(ending, p), p)
  }

  /** It is denied, or claims the job and takes it to its end under its own pid. */
  lemma WorkerRunMeans(s: State, p: nat, job: nat, succeeds: bool)
    requires Pc(s, p) == Claiming(job)
    ensures var t := WorkerRun(s, p, succeeds);
      if Claimable(s.rows, job)
      then && t.rows == s.rows[job := Row(if succeeds then "finished" else "failed", Some(p))]
           && t.log == s.log + [Entry(Claimed, job)] + [Entry(Started, job)]
                       + [Entry(if succeeds then Finished else Failed, job)]
      else t.rows == s.rows && t.log == s.log + [Entry(Denied, job)]
    ensures WorkerRun(s, p, succeeds).last == s.last
  {
    if Claimable(s.rows, job) {
      var working := Next(Next(Next(Next(s, p), p), p), p);
      assert Pc(working, p) == Working(job) && working.rows == s.rows[job := Row("running", Some(p))];
      assert working.log == s.log + [Entry(Claimed, job)] + [Entry(Started, job)];
    }
  }

  class JobStore {
    var rows: Rows
    var last: nat
    var log: seq<Entry>

    constructor ()
      ensures rows == map[] && last == 0 && log == []
    {
      rows, last, log := map[], 0, [];
    }

    // ---------- the table ----------

    method RecordJob(pid: Option<nat>) returns (job: nat)
      modifies this`rows, this`last
      ensures job == last == old(last) + 1 && rows == old(rows)[job := Row("queued", pid)]
    {
      last := last + 1;
      rows := rows[last := Row("queued", pid)];
      job := last;
    }

    method ClaimJob(job: nat, pid: Option<nat>) returns (claimed: bool)
      modifies this`rows
      ensures claimed == Claimable(old(rows), job)
      ensures rows == if claimed then WithClaim(old(rows), job, pid) else old(rows)
    {
      claimed := Claimable(rows, job);
      if claimed { rows := rows[job := Row("claimed", pid)]; }
    }

    method UpdateJobStatus(job: nat, status: string)
      modifies this`rows
      ensures rows == WithStatus(old(rows), job, status)
    {
      if job in rows { rows := rows[job := rows[job].(status := status)]; }
    }

    method FinishJob(job: nat, status: string)
      modifies this`rows
      ensures rows == WithStatus(old(rows), job, status)
    {
      UpdateJobStatus(job, status);
    }

    /** Marks exactly the active jobs without a living process. */
    method MarkStaleJobs(gone: set<nat>) returns (count: nat)
      requires forall id :: id in rows <==> 1 <= id <= last
      modifies this`rows
      ensures rows.Keys == old(rows).Keys
      ensures forall id :: id in rows ==>
        rows[id] == if LooksStale(old(rows)[id], gone) then old(rows)[id].(status := "stale") else old(rows)[id]
      ensures count == |StaleIds(old(rows), last, gone)|
    {
      var ids := StaleIds(rows, last, gone);
      SweptMeans(rows, ids);
      assert ids[0..] == ids;
      for i := 0 to |ids|
        invariant Swept(rows, ids[i..]) == Swept(old(rows), ids)
      {
        assert ids[i..][0] == ids[i] && ids[i..][1..] == ids[i + 1..];
        FinishJob(ids[i], "stale");
      }
      count := |ids|;
    }

    // ---------- the lifecycle ----------

    /** The store as a state of the process model in which only `p` does something. */
    ghost function View(p: nat, pc: Process): State
      reads this
    {
      State(rows, last, log, map[p := pc], [])
    }

    /** The store holds the rows and the ledger of `s`. */
    ghost predicate Shows(s: State)
      reads this
    {
      rows == s.rows && last == s.last && log == s.log
    }

    method Publish(topic: Topic, job: nat)
      modifies this`log
      ensures log == old(log) + [Entry(topic, job)]
    {
      log := log + [Entry(topic, job)];
    }

    /** The creator's two statements. */
    method Create(p: nat, pid: Option<nat>) returns (job: nat)
      modifies this
      ensures Shows(Next(Apply(old(View(p, Idle)), Step.Create(p, pid)), p)) && job == last
    {
      job := RecordJob(pid);
      Publish(Requested, job);
    }

    /** A worker's first two statements. */
    method Claim(job: nat, p: nat) returns (claimed: bool)
      modifies this`rows, this`log
      ensures var s := Next(Next(old(View(p, Claiming(job))), p), p);
        Shows(s) && (claimed <==> Pc(s, p) == Starting(job))
    {
      claimed := ClaimJob(job, Some(p));
      if !claimed {
        Publish(Denied, job);
        return;
      }
      Publish(Claimed, job);
    }

    method Start(job: nat, p: nat)
      modifies this`rows, this`log
      ensures Shows(Next(Next(old(View(p, Starting(job))), p), p))
    {
      UpdateJobStatus(job, "running");
      Publish(Started, job);
    }

    method Fail(job: nat, p: nat)
      modifies this`rows, this`log
      ensures Shows(Next(Next(old(View(p, Failing(job))), p), p))
    {
      Publish(Failed, job);
      FinishJob(job, "failed");
    }

    method Finish(job: nat, p: nat)
      modifies this`rows, this`log
      ensures Shows(Next(Next(old(View(p, Succeeding(job))), p), p))
    {
      Publish(Finished, job);
      FinishJob(job, "finished");
    }

    /** The worker's entry point after its claim; `succeeds` says whether its pipeline ends without an
        exception. */
    method RunClaimedJob(job: nat, p: nat, succeeds: bool)
      modifies this`rows, this`log
      ensures rows == WithStatus(old(rows), job, if succeeds then "finished" else "failed")
      ensures log == old(log) + [Entry(Started, job)] + [Entry(if succeeds then Finished else Failed, job)]
    {
      Start(job, p);
      assert log == old(log) + [Entry(Started, job)] && rows == WithStatus(old(rows), job, "running");
      if succeeds {
        Finish(job, p);
      } else {
        Fail(job, p);
      }
    }

    /** The worker's entry point does what the statements of the process model do, one after the
        other. */
    method RunBackgroundJob(job: nat, p: nat, succeeds: bool)
      modifies this`rows, this`log
      ensures Shows(WorkerRun(old(View(p, Claiming(job))), p, succeeds))
    {
      WorkerRunMeans(View(p, Claiming(job)), p, job, succeeds);
      var claimed := Claim(job, p);
      if claimed {
        RunClaimedJob(job, p, succeeds);
      }
    }
  }
}
