/** Local ids for durable serials: double-checked allocation by any number of processes under one
    write lock, and the lookups that turn a local id back into its serial. */
module RuntimeEntities {
  import opened Results
  import Serials
  import opened Sorting
  import opened Text

  /** The primary key of the `runtime_entities` table. */
  datatype Key = Key(kind: string, serial: string)

  /** The table: a local id for each key. */
  type Rows = map<Key, nat>

  function IdsOf(rows: Rows, kind: string): set<nat> {
    set k | k in rows && k.kind == kind :: rows[k]
  }

  /** The largest of some ids, or 0. */
  ghost function Largest(ids: set<nat>): (n: nat)
    ensures forall id :: id in ids ==> id <= n
    ensures n == 0 || n in ids
  {
    if ids == {} then 0
    else
      var id :| id in ids;
      var rest := Largest(ids - {id});
      assert forall x :: x in ids ==> x == id || x in ids - {id};
      if id > rest then id else rest
  }

  /** `COALESCE(MAX(local_id), 0)` over one entity type. */
  ghost function Top(rows: Rows, kind: string): nat {
    Largest(IdsOf(rows, kind))
  }

  lemma TopIs(rows: Rows, kind: string, n: nat)
    ensures Top(rows, kind) == n <==>
      (forall k :: k in rows && k.kind == kind ==> rows[k] <= n) && (n == 0 || HasId(rows, kind, n))
  {
    var top := Top(rows, kind);
    assert top == 0 || HasId(rows, kind, top) by {
      if top != 0 {
        var k :| k in rows && k.kind == kind && rows[k] == top;
        assert Key(kind, k.serial) == k;
      }
    }
    assert forall k :: k in rows && k.kind == kind ==> rows[k] in IdsOf(rows, kind);
    if n != 0 && HasId(rows, kind, n) {
      var s :| Key(kind, s) in rows && rows[Key(kind, s)] == n;
      assert n in IdsOf(rows, kind);
    }
  }

  ghost predicate HasId(rows: Rows, kind: string, id: nat) {
    exists s :: Key(kind, s) in rows && rows[Key(kind, s)] == id
  }

  /** One allocation, done at once. */
  ghost function Ensured(rows: Rows, key: Key): Rows {
    if key in rows then rows else rows[key := Top(rows, key.kind) + 1]
  }

  /** No given id is lost or changed. */
  ghost predicate Extends(rows: Rows, later: Rows) {
    forall k :: k in rows ==> k in later && later[k] == rows[k]
  }

  // ---------- processes ----------

  /** Where a process stands in `ensure_runtime_entity`. */
  datatype Process =
    | Idle
    | Reading(key: Key)
    | Waiting(key: Key)
    | Locked(key: Key)
    | Missed(key: Key)
    | Inserting(key: Key, id: nat)
    | Inserted(key: Key, id: nat)
    | Found(key: Key, id: nat)
    | Done(key: Key, id: nat)

  datatype Return = Return(key: Key, id: nat)

  /** The committed table, the holder of the write lock and its uncommitted view, the processes, and
      the history of returns. */
  datatype State = State(
    committed: Rows,
    writer: Option<nat>,
    draft: Rows,
    processes: map<nat, Process>,
    returned: seq<Return>)

  /** `Fail` is an exception or the death of the process at any point: its transaction is rolled back. */
  datatype Step = Call(p: nat, key: Key) | Advance(p: nat) | Fail(p: nat)

  function Pc(s: State, p: nat): Process {
    if p in s.processes then s.processes[p] else Idle
  }

  function At(s: State, p: nat, pc: Process): State {
    s.(processes := s.processes[p := pc])
  }

  function Returns(s: State, p: nat, key: Key, id: nat): State {
    At(s.(returned := s.returned + [Return(key, id)]), p, Idle)
  }

  function Rollback(s: State, p: nat): State {
    At(s.(writer := if s.writer == Some(p) then None else s.writer), p, Idle)
  }

  function Commit(s: State): State {
    s.(committed := s.draft, writer := None)
  }

  ghost predicate Violates(rows: Rows, key: Key, id: nat) {
    key in rows || exists k :: k in rows && k.kind == key.kind && rows[k] == id
  }

  /** The next statement of a process. Only a free lock lets a waiting process on. */
  ghost function Next(s: State, p: nat): State {
    match Pc(s, p)
    case Idle => s
    case Reading(key) =>
      At(s, p, if key in s.committed then Done(key, s.committed[key]) else Waiting(key))
    case Waiting(key) =>
      if s.writer.Some? then s else At(s.(writer := Some(p), draft := s.committed), p, Locked(key))
    case Locked(key) =>
      At(s, p, if key in s.draft then Found(key, s.draft[key]) else Missed(key))
    case Missed(key) => At(s, p, Inserting(key, Top(s.draft, key.kind) + 1))
    case Inserting(key, id) =>
      if Violates(s.draft, key, id) then Rollback(s, p)
      else At(s.(draft := s.draft[key := id]), p, Inserted(key, id))
    case Inserted(key, id) => At(Commit(s), p, Done(key, id))
    case Found(key, id) => At(Commit(s), p, Done(key, id))
    case Done(key, id) => Returns(s, p, key, id)
  }

  ghost function Apply(s: State, step: Step): State {
    match step
    case Call(p, key) => if Pc(s, p).Idle? then At(s, p, Reading(key)) else s
    case Advance(p) => Next(s, p)
    case Fail(p) => Rollback(s, p)
  }

  ghost function Run(s: State, steps: seq<Step>): State {
    if steps == [] then s else Apply(Run(s, steps[..|steps| - 1]), steps[|steps| - 1])
  }

  const EMPTY: State := State(map[], None, map[], map[], [])

  // ---------- the invariant ----------

  /** Per entity type the local ids are exactly 1 to n, and different serials have different ids. */
  ghost predicate Dense(rows: Rows) {
    && (forall k :: k in rows ==> rows[k] > 0)
    && (forall k, l :: k in rows && l in rows && k.kind == l.kind && rows[k] == rows[l] ==> k == l)
    && (forall kind, id: nat :: 1 <= id <= Top(rows, kind) ==> HasId(rows, kind, id))
  }

  predicate HoldsLock(pc: Process) {
    pc.Locked? || pc.Missed? || pc.Inserting? || pc.Inserted? || pc.Found?
  }

  /** What the holder of the lock sees and knows. */
  ghost predicate WriterKnows(pc: Process, committed: Rows, draft: Rows) {
    match pc
    case Locked(_) => draft == committed
    case Missed(key) => draft == committed && key !in committed
    case Inserting(key, id) => draft == committed && key !in committed && id == Top(committed, key.kind) + 1
    case Inserted(key, id) => key !in committed && draft == Ensured(committed, key) && id == draft[key]
    case Found(key, id) => draft == committed && key in committed && committed[key] == id
    case _ => false
  }

  /** One process at most is between the start and the end of its transaction: the holder of the lock. */
  ghost predicate LockInv(s: State) {
    && (forall p: nat :: HoldsLock(Pc(s, p)) <==> s.writer == Some(p))
    && (s.writer.Some? ==> WriterKnows(Pc(s, s.writer.value), s.committed, s.draft))
  }

  /** What was returned, or is about to be, is in the table. */
  ghost predicate ReturnsHold(s: State) {
    && (forall r :: r in s.returned ==> r.key in s.committed && s.committed[r.key] == r.id)
    && (forall p: nat :: Pc(s, p).Done? ==> Pc(s, p).key in s.committed && s.committed[Pc(s, p).key] == Pc(s, p).id)
  }

  ghost predicate Inv(s: State) {
    Dense(s.committed) && LockInv(s) && ReturnsHold(s)
  }

  /** A new row takes the next id of its type and leaves the other types alone. */
  lemma TopAfter(rows: Rows, key: Key, kind: string)
    requires key !in rows
    ensures Top(Ensured(rows, key), kind) == Top(rows, kind) + (if kind == key.kind then 1 else 0)
  {
    var more, n := Ensured(rows, key), Top(rows, kind);
    TopIs(rows, kind, n);
    if kind == key.kind {
      assert more[Key(kind, key.serial)] == n + 1;
      TopIs(more, kind, n + 1);
    } else {
      if n > 0 { IdStays(rows, more, kind, n); }
      TopIs(more, kind, n);
    }
  }

  lemma IdStays(rows: Rows, more: Rows, kind: string, id: nat)
    requires HasId(rows, kind, id) && Extends(rows, more)
    ensures HasId(more, kind, id)
  {
    var s :| Key(kind, s) in rows && rows[Key(kind, s)] == id;
    assert more[Key(kind, s)] == id;
  }

  /** Every id up to the largest is still there after an insertion. */
  lemma IdsStayCovered(rows: Rows, key: Key, kind: string, id: nat)
    requires Dense(rows) && key !in rows && 1 <= id <= Top(Ensured(rows, key), kind)
    ensures HasId(Ensured(rows, key), kind, id)
  {
    TopAfter(rows, key, kind);
    TopIs(rows, kind, Top(rows, kind));
    if id <= Top(rows, kind) {
      IdStays(rows, Ensured(rows, key), kind, id);
    } else {
      assert Ensured(rows, key)[Key(kind, key.serial)] == id;
    }
  }

  lemma IdsStayDistinct(rows: Rows, key: Key, id: nat)
    requires key !in rows && forall k :: k in rows && k.kind == key.kind ==> rows[k] < id
    requires forall k, l :: k in rows && l in rows && k.kind == l.kind && rows[k] == rows[l] ==> k == l
    ensures var more := rows[key := id];
      forall k, l :: k in more && l in more && k.kind == l.kind && more[k] == more[l] ==> k == l
  {
  }

  /** One allocation keeps the ids dense and every given id. */
  lemma EnsuredKeepsDense(rows: Rows, key: Key)
    requires Dense(rows)
    ensures Dense(Ensured(rows, key)) && key in Ensured(rows, key)
    ensures Extends(rows, Ensured(rows, key))
  {
    if key !in rows {
      TopIs(rows, key.kind, Top(rows, key.kind));
      IdsStayDistinct(rows, key, Top(rows, key.kind) + 1);
      forall kind, id: nat | 1 <= id <= Top(Ensured(rows, key), kind)
        ensures HasId(Ensured(rows, key), kind, id)
      {
        IdsStayCovered(rows, key, kind, id);
      }
    }
  }

  // ---------- every step ----------

  /** The insert never meets a row with the same serial or the same id. */
  lemma InsertNeverCollides(s: State, p: nat)
    requires LockInv(s) && Pc(s, p).Inserting?
    ensures Pc(s, p).key !in s.draft
    ensures forall k :: k in s.draft && k.kind == Pc(s, p).key.kind ==> s.draft[k] != Pc(s, p).id
  {
    assert s.writer == Some(p);
    var kind := Pc(s, p).key.kind;
    TopIs(s.committed, kind, Top(s.committed, kind));
  }

  lemma MoveInside(s: State, p: nat, draft: Rows, pc: Process)
    requires LockInv(s) && s.writer == Some(p) && HoldsLock(pc) && WriterKnows(pc, s.committed, draft)
    ensures LockInv(At(s.(draft := draft), p, pc))
  {
    assert Pc(At(s, p, pc), p) == pc;
  }

  lemma MoveOutside(s: State, p: nat, pc: Process, returned: seq<Return>)
    requires LockInv(s) && s.writer != Some(p) && !HoldsLock(pc)
    ensures LockInv(At(s.(returned := returned), p, pc))
  {
    assert forall q: nat :: Pc(At(s, p, pc), q) == if q == p then pc else Pc(s, q);
  }

  lemma TakeLock(s: State, p: nat, key: Key)
    requires LockInv(s) && s.writer.None?
    ensures LockInv(At(s.(writer := Some(p), draft := s.committed), p, Locked(key)))
  {
    assert forall q: nat :: Pc(At(s, p, Locked(key)), q) == if q == p then Locked(key) else Pc(s, q);
  }

  lemma ReleaseLock(s: State, p: nat, committed: Rows, pc: Process)
    requires LockInv(s) && s.writer == Some(p) && !HoldsLock(pc)
    ensures LockInv(At(s.(committed := committed, writer := None), p, pc))
  {
    assert forall q: nat :: Pc(At(s, p, pc), q) == if q == p then pc else Pc(s, q);
  }

  lemma HolderMovesOn(s: State, p: nat)
    requires LockInv(s) && s.writer == Some(p)
    requires Pc(s, p).Locked? || Pc(s, p).Missed? || Pc(s, p).Inserting?
    ensures LockInv(Next(s, p))
  {
    var pc := Pc(s, p);
    match pc {
      case Locked(key) => MoveInside(s, p, s.draft, if key in s.draft then Found(key, s.draft[key]) else Missed(key));
      case Missed(key) => MoveInside(s, p, s.draft, Inserting(key, Top(s.draft, key.kind) + 1));
      case Inserting(key, id) =>
        InsertNeverCollides(s, p);
        MoveInside(s, p, s.draft[key := id], Inserted(key, id));
    }
  }

  /** Every statement keeps the lock discipline. */
  lemma NextKeepsLock(s: State, p: nat)
    requires LockInv(s)
    ensures LockInv(Next(s, p))
  {
    var pc := Pc(s, p);
    assert HoldsLock(pc) <==> s.writer == Some(p);
    match pc {
      case Idle =>
      case Reading(key) => MoveOutside(s, p, Pc(Next(s, p), p), Next(s, p).returned);
      case Waiting(key) =>
        if s.writer.None? { TakeLock(s, p, key); }
      case Inserted(key, id) => ReleaseLock(s, p, s.draft, Done(key, id));
      case Found(key, id) => ReleaseLock(s, p, s.draft, Done(key, id));
      case Done(key, id) => MoveOutside(s, p, Idle, s.returned + [Return(key, id)]);
      case _ => HolderMovesOn(s, p);
    }
  }

  /** A statement leaves the committed table alone or, as a commit, performs one whole allocation. */
  lemma NextAllocates(s: State, p: nat)
    requires LockInv(s)
    ensures Next(s, p).committed == s.committed
         || (HoldsLock(Pc(s, p)) && Next(s, p).committed == Ensured(s.committed, Pc(s, p).key))
  {
    assert HoldsLock(Pc(s, p)) <==> s.writer == Some(p);
  }

  lemma ReturnsStay(s: State, s': State, p: nat)
    requires ReturnsHold(s) && Extends(s.committed, s'.committed) && s'.returned == s.returned
    requires s'.processes == s.processes[p := Pc(s', p)]
    requires var pc := Pc(s', p); pc.Done? ==> pc.key in s'.committed && s'.committed[pc.key] == pc.id
    ensures ReturnsHold(s')
  {
    assert forall q: nat :: q != p ==> Pc(s', q) == Pc(s, q);
  }

  /** What a statement returns, or is about to return, is in the table then. */
  lemma {:induction false} NextReturns(s: State, p: nat)
    requires LockInv(s) && ReturnsHold(s) && Extends(s.committed, Next(s, p).committed)
    ensures ReturnsHold(Next(s, p))
  {
    assert HoldsLock(Pc(s, p)) <==> s.writer == Some(p);
    if Pc(s, p).Done? {
      ReturnsStay(s, At(s, p, Idle), p);
      assert forall q: nat :: Pc(Next(s, p), q) == Pc(At(s, p, Idle), q);
    } else if Next(s, p) != s {
      ReturnsStay(s, Next(s, p), p);
    }
  }

  lemma ApplyKeepsInv(s: State, step: Step)
    requires Inv(s)
    ensures Inv(Apply(s, step)) && Extends(s.committed, Apply(s, step).committed)
  {
    match step {
      case Call(p, key) =>
        if Pc(s, p).Idle? {
          MoveOutside(s, p, Reading(key), s.returned);
          ReturnsStay(s, At(s, p, Reading(key)), p);
        }
      case Advance(p) =>
        NextKeepsLock(s, p);
        NextAllocates(s, p);
        if Next(s, p).committed != s.committed {
          EnsuredKeepsDense(s.committed, Pc(s, p).key);
        }
        NextReturns(s, p);
      case Fail(p) =>
        FailKeepsLock(s, p);
        ReturnsStay(s, Rollback(s, p), p);
    }
  }

  lemma FailKeepsLock(s: State, p: nat)
    requires LockInv(s)
    ensures LockInv(Rollback(s, p))
  {
    assert forall q: nat :: Pc(At(s, p, Idle), q) == if q == p then Idle else Pc(s, q);
  }

  lemma {:induction false} RunKeepsInv(steps: seq<Step>)
    ensures Inv(Run(EMPTY, steps))
  {
    if steps == [] {
      EmptyTable();
    } else {
      RunKeepsInv(steps[..|steps| - 1]);
      ApplyKeepsInv(Run(EMPTY, steps[..|steps| - 1]), steps[|steps| - 1]);
    }
  }

  lemma EmptyTable()
    ensures Dense(map[])
  {
    forall kind
      ensures Top(map[], kind) == 0
    {
      TopIs(map[], kind, 0);
    }
  }

  /** An id once given is never lost or changed, however the run goes on. */
  lemma {:induction false} IdsNeverChange(steps: seq<Step>, k: nat)
    requires k <= |steps|
    ensures Extends(Run(EMPTY, steps[..k]).committed, Run(EMPTY, steps).committed)
    decreases |steps|
  {
    if k == |steps| {
      assert steps[..k] == steps;
    } else {
      var front := steps[..|steps| - 1];
      assert front[..k] == steps[..k];
      IdsNeverChange(front, k);
      RunKeepsInv(front);
      ApplyKeepsInv(Run(EMPTY, front), steps[|steps| - 1]);
    }
  }

  /** Under every interleaving the ids of each type are 1 to n, one for each serial; all callers with
      the same serial got the same id, callers with different serials of a type different ones, and
      those ids are in the table. */
  lemma SameIdForEveryCaller(steps: seq<Step>)
    ensures var s := Run(EMPTY, steps);
      && Dense(s.committed)
      && (forall r :: r in s.returned ==> r.key in s.committed && s.committed[r.key] == r.id)
      && (forall r, t :: r in s.returned && t in s.returned && r.key.kind == t.key.kind ==>
            (r.key.serial == t.key.serial <==> r.id == t.id))
  {
    RunKeepsInv(steps);
    var s := Run(EMPTY, steps);
    assert forall r, t :: r in s.returned && t in s.returned ==>
      (r.key.kind == t.key.kind && r.key.serial == t.key.serial ==> r.key == t.key);
  }

  // ---------- one allocation after the other ----------

  ghost function EnsuredAll(keys: seq<Key>): Rows {
    if keys == [] then map[] else Ensured(EnsuredAll(keys[..|keys| - 1]), keys[|keys| - 1])
  }

  /** Every interleaving leaves the table that its committed allocations leave one after the other. */
  lemma {:induction false} InterleavingsAreSerial(steps: seq<Step>) returns (keys: seq<Key>)
    ensures Run(EMPTY, steps).committed == EnsuredAll(keys)
  {
    keys := [];
    if steps != [] {
      var front, step := steps[..|steps| - 1], steps[|steps| - 1];
      var s := Run(EMPTY, front);
      keys := InterleavingsAreSerial(front);
      RunKeepsInv(front);
      if step.Advance? {
        NextAllocates(s, step.p);
        if Next(s, step.p).committed != s.committed {
          var more := keys + [Pc(s, step.p).key];
          assert more[..|more| - 1] == keys;
          keys := more;
        }
      }
    }
  }

  ghost function Times(s: State, p: nat, n: nat): State
    decreases n
  {
    if n == 0 then s else Times(Next(s, p), p, n - 1)
  }

  /** `done` is `s` after process `p` has allocated an id for `key` and returned it. */
  ghost predicate Allocated(s: State, done: State, p: nat, key: Key) {
    && done.committed == Ensured(s.committed, key)
    && done.returned == s.returned + [Return(key, Ensured(s.committed, key)[key])]
    && done.writer.None? && Pc(done, p).Idle?
  }

  lemma HolderCommits(s: State, p: nat)
    requires LockInv(s) && s.writer == Some(p) && (Pc(s, p).Inserted? || Pc(s, p).Found?)
    ensures Times(s, p, 1).writer.None? && Allocated(s, Times(s, p, 2), p, Pc(s, p).key)
  {
    var s' := Next(s, p);
    assert Times(s, p, 1) == Times(s', p, 0);
    assert Times(s, p, 2) == Times(s', p, 1) == Times(Next(s', p), p, 0);
  }

  /** Whoever holds the lock is at most four statements from releasing it, and one more from returning
      its id. */
  lemma {:induction false} HolderFinishes(s: State, p: nat, left: nat) returns (n: nat)
    requires LockInv(s) && s.writer == Some(p)
    requires left == (match Pc(s, p) case Locked(_) => 5 case Missed(_) => 4 case Inserting(_, _) => 3 case _ => 2)
    ensures 1 <= n <= left && Times(s, p, n - 1).writer.None?
    ensures Allocated(s, Times(s, p, n), p, Pc(s, p).key)
    decreases left
  {
    var s' := Next(s, p);
    if left == 2 {
      HolderCommits(s, p);
      n := 2;
    } else {
      HolderMovesOn(s, p);
      if Pc(s, p).Inserting? { InsertNeverCollides(s, p); }
      n := HolderFinishes(s', p, if Pc(s', p).Found? then 2 else left - 1);
      n := n + 1;
    }
  }

  /** Left alone, a call returns the id of the serial and leaves the table one allocation further. */
  lemma Undisturbed(s: State, p: nat, key: Key) returns (n: nat)
    requires LockInv(s) && s.writer.None? && Pc(s, p).Idle?
    ensures n <= 7 && Allocated(s, Times(Apply(s, Call(p, key)), p, n), p, key)
  {
    var s0 := Apply(s, Call(p, key));
    MoveOutside(s, p, Reading(key), s.returned);
    var s1 := Next(s0, p);
    if key in s.committed {
      n := 2;
      assert Times(s0, p, 2) == Times(s1, p, 1) == Times(Next(s1, p), p, 0);
    } else {
      MoveOutside(s0, p, Waiting(key), s.returned);
      TakeLock(s1, p, key);
      n := HolderFinishes(Next(s1, p), p, 5);
      n := n + 2;
    }
  }

  // ---------- the allocation in place ----------

  class EntityTable {
    var rows: Rows

    constructor ()
      ensures rows == map[]
    {
      rows := map[];
    }

    /** `COALESCE(MAX(local_id), 0) + 1` */
    method NextId(kind: string) returns (id: nat)
      ensures id == Top(rows, kind) + 1
    {
      var ids := IdsOf(rows, kind);
      var rest := ids;
      id := 1;
      while rest != {}
        invariant rest <= ids
        invariant forall x :: x in ids && x !in rest ==> x < id
        invariant id == 1 || id - 1 in ids
      {
        var x :| x in rest;
        if x >= id { id := x + 1; }
        rest := rest - {x};
      }
    }

    /** The same statements by one process on its own. */
    method EnsureRuntimeEntity(kind: string, serial: string) returns (id: nat)
      modifies this
      ensures rows == Ensured(old(rows), Key(kind, serial))
      ensures Key(kind, serial) in rows && id == rows[Key(kind, serial)]
    {
      var key := Key(kind, serial);
      if key in rows {
        return rows[key];
      }
      id := NextId(kind);
      rows := rows[key := id];
    }
  }

  // ---------- lookups ----------

  /** `runtime_aliases` */
  function RuntimeAliases(rows: Rows, kind: string): map<string, string> {
    map k | k in rows && k.kind == kind :: k.serial := Decimal(rows[k])
  }

  /** `resolve_runtime_serial`: a local id, a serial or a unique prefix of one, or the value itself. */
  function ResolveRuntimeSerial(rows: Rows, kind: string, value: string): Result<string> {
    var withId := if IsDigits(value)
      then SortedKeys(set k | k in rows && k.kind == kind && rows[k] == DecimalValue(value) :: k.serial) else [];
    if withId != [] then Ok(withId[0])
    else
      match Serials.ResolveSerialMatch(value, SortedKeys(SerialsOf(rows, kind)))
      case Error(message) => Error(message)
      case Ok(found) => Ok(if found.None? || found.value == "" then value else found.value)
  }

  function SerialsOf(rows: Rows, kind: string): set<string> {
    set k | k in rows && k.kind == kind :: k.serial
  }

  /** The decimal id, with any leading zeros, gives the serial back. */
  lemma IdGivesSerialBack(rows: Rows, key: Key, value: string)
    requires Dense(rows) && key in rows && IsDigits(value) && DecimalValue(value) == rows[key]
    ensures ResolveRuntimeSerial(rows, key.kind, value) == Ok(key.serial)
  {
    var serials := set k | k in rows && k.kind == key.kind && rows[k] == rows[key] :: k.serial;
    assert key.serial in serials;
    assert forall s :: s in SortedKeys(serials) ==> s == key.serial;
  }

  /** Over every run: an id that any caller was ever given, printed or listed as an alias, resolves
      to the serial it was given for. */
  lemma ReturnedIdsResolve(steps: seq<Step>, k: nat, r: Return)
    requires k <= |steps| && r in Run(EMPTY, steps[..k]).returned
    ensures var rows := Run(EMPTY, steps).committed;
      && ResolveRuntimeSerial(rows, r.key.kind, Decimal(r.id)) == Ok(r.key.serial)
      && r.key.serial in RuntimeAliases(rows, r.key.kind)
      && RuntimeAliases(rows, r.key.kind)[r.key.serial] == Decimal(r.id)
  {
    RunKeepsInv(steps[..k]);
    RunKeepsInv(steps);
    IdsNeverChange(steps, k);
    DecimalRoundTrip(r.id);
    IdGivesSerialBack(Run(EMPTY, steps).committed, r.key, Decimal(r.id));
  }

  /** A stored serial of that kind that the text matches. */
  predicate IsMatch(rows: Rows, kind: string, value: string, k: Key) {
    k in rows && k.kind == kind && Serials.SerialMatches(k.serial, value)
  }

  /** Looking among the texts of the table is looking among its rows. */
  lemma {:induction false} MatchesAreRows(rows: Rows, kind: string, value: string, s: string)
    ensures s in SortedKeys(SerialsOf(rows, kind)) && Serials.SerialMatches(s, value) <==>
      IsMatch(rows, kind, value, Key(kind, s))
  {
    var serials := SerialsOf(rows, kind);
    assert s in SortedKeys(serials) <==> s in serials;
    assert Key(kind, s) in rows ==> Key(kind, s).serial in serials;
  }

  lemma {:induction false} OtherTextIsLookedUp(rows: Rows, kind: string, value: string)
    requires IsDigits(value) ==> forall k :: k in rows && k.kind == kind ==> rows[k] != DecimalValue(value)
    ensures ResolveRuntimeSerial(rows, kind, value) ==
      match Serials.ResolveSerialMatch(value, SortedKeys(SerialsOf(rows, kind)))
      case Error(message) => Error(message)
      case Ok(found) => Ok(if found.None? || found.value == "" then value else found.value)
  {
    assert IsDigits(value) ==>
      (set k | k in rows && k.kind == kind && rows[k] == DecimalValue(value) :: k.serial) == {};
  }

  /** A text that is not a local id in use resolves to the only stored serial that it matches, or to itself
      if there is none; several are an error. */
  lemma {:induction false} OtherTextResolves(rows: Rows, kind: string, value: string)
    requires IsDigits(value) ==> forall k :: k in rows && k.kind == kind ==> rows[k] != DecimalValue(value)
    ensures var r := ResolveRuntimeSerial(rows, kind, value);
      && (r.Error? <==> exists s, t ::
            s != t && IsMatch(rows, kind, value, Key(kind, s)) && IsMatch(rows, kind, value, Key(kind, t)))
      && (r.Ok? ==> forall s :: IsMatch(rows, kind, value, Key(kind, s)) ==> r.value == if s == "" then value else s)
      && (r.Ok? && (forall s :: !IsMatch(rows, kind, value, Key(kind, s))) ==> r.value == value)
  {
    var stored := SortedKeys(SerialsOf(rows, kind));
    OtherTextIsLookedUp(rows, kind, value);
    forall s
      ensures s in stored && Serials.SerialMatches(s, value) <==> IsMatch(rows, kind, value, Key(kind, s))
    {
      MatchesAreRows(rows, kind, value, s);
    }
    OneOrSeveral(rows, kind, value, stored);
  }

  lemma {:induction false} OneOrSeveral(rows: Rows, kind: string, value: string, stored: seq<string>)
    requires forall s ::
      s in stored && Serials.SerialMatches(s, value) <==> IsMatch(rows, kind, value, Key(kind, s))
    ensures var r := Serials.ResolveSerialMatch(value, stored);
      && (r.Error? <==> exists s, t ::
            s != t && IsMatch(rows, kind, value, Key(kind, s)) && IsMatch(rows, kind, value, Key(kind, t)))
      && (r.Ok? ==> forall s :: IsMatch(rows, kind, value, Key(kind, s)) ==> r.value == Some(s))
      && (r.Ok? && (forall s :: !IsMatch(rows, kind, value, Key(kind, s))) ==> r.value == None)
  {
    var r := Serials.ResolveSerialMatch(value, stored);
    if r.Ok? && r.value.Some? {
      var found := r.value.value;
      assert r == Ok(Some(found));
      assert IsMatch(rows, kind, value, Key(kind, found));
    }
  }
}
