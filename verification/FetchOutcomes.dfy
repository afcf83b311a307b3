/** What a request for an artifact owes its caller: an error only for a cause, a row that is there answered from disk,
    a fetched artifact returned and found again, and no lock left behind. */
module FetchOutcomes {
  import opened Bytes
  import opened Records
  import opened SingleFlight

  // ---- errors have a cause ----

  /** The ways in which a request can fail from outside. */
  predicate Fails(e: Event) {
    e == FileLock(false) || e.FetchFailed? || e.Cancel? || (e.WriteRow? && !e.ok)
  }

  /** At most request `j` itself has moved. */
  predicate OnlyMoved(s: State, t: State, j: nat) { t.tasks - {j} == s.tasks - {j} }

  lemma GoMoves(s: State, j: nat, pc: Pc)
    requires j in s.tasks
    ensures OnlyMoved(s, s.Go(j, pc), j) && OnlyMoved(s, s.Leave(j, pc), j)
  {
    assert s.tasks[j := s.tasks[j].(pc := pc)] - {j} == s.tasks - {j};
  }

  lemma StepMoves(s: State, j: nat, e: Event)
    ensures OnlyMoved(s, Step(s, j, e), j)
  {
    hide OnlyMoved;
    hide State.Go;
    hide State.Leave;
    if j !in s.tasks {
      SpawnMoves(s, j, e);
    } else {
      var Task(key, pc) := s.tasks[j];
      forall u: State, p | u.tasks == s.tasks ensures OnlyMoved(s, u.Go(j, p), j) && OnlyMoved(s, u.Leave(j, p), j) {
        GoMoves(u, j, p);
        SameMoved(s, u, u.Go(j, p), j);
        SameMoved(s, u, u.Leave(j, p), j);
      }
      NoneMoved(s, j);
    }
  }

  lemma SpawnMoves(s: State, j: nat, e: Event)
    requires j !in s.tasks
    ensures OnlyMoved(s, Step(s, j, e), j)
  {
    if e.Spawn? {
      assert Step(s, j, e).tasks == s.tasks[j := Task(e.key, Start)];
    }
  }

  lemma SameMoved(s: State, u: State, t: State, j: nat)
    requires u.tasks == s.tasks && OnlyMoved(u, t, j)
    ensures OnlyMoved(s, t, j)
  {
  }

  lemma NoneMoved(s: State, j: nat)
    ensures OnlyMoved(s, s, j)
  {
  }

  lemma OthersStay(s: State, i: nat, j: nat, e: Event)
    requires j != i
    ensures i in Step(s, j, e).tasks <==> i in s.tasks
    ensures i in s.tasks ==> Step(s, j, e).tasks[i] == s.tasks[i]
  {
    hide Step;
    StepMoves(s, j, e);
    assert i in s.tasks ==> i in s.tasks - {j};
    assert i in Step(s, j, e).tasks ==> i in Step(s, j, e).tasks - {j};
  }

  lemma OwnStepToError(s: State, i: nat, e: Event)
    requires StoreOk(s) && i in s.tasks && Step(s, i, e).tasks[i].pc.Error?
    ensures s.tasks[i].pc.Error? || Fails(e)
  {
    if (e.LookUp? || e.LookAgain?) && s.tasks[i].key in s.index {
      assert s.index[s.tasks[i].key] in s.cas;
    }
    hide StoreOk;
  }

  lemma StepToError(s: State, i: nat, j: nat, e: Event)
    requires StoreOk(s) && i in Step(s, j, e).tasks && Step(s, j, e).tasks[i].pc.Error?
    ensures (i in s.tasks && s.tasks[i].pc.Error?) || (j == i && Fails(e))
  {
    if j != i {
      OthersStay(s, i, j, e);
    } else if i in s.tasks {
      OwnStepToError(s, i, e);
    }
    hide StoreOk;
  }

  /** In every interleaving, a request ends in an error only if its file lock timed out, its fetch failed, its row
      could not be written or it was cancelled. */
  lemma {:induction false} ErrorHasCause(s: State, steps: seq<(nat, Event)>, i: nat) returns (k: nat)
    requires Quiet(s) && i in Run(s, steps).tasks && Run(s, steps).tasks[i].pc.Error?
    ensures k < |steps| && steps[k].0 == i && Fails(steps[k].1)
  {
    hide Step;
    var n := |steps| - 1;
    var t := Run(s, steps[..n]);
    RunKeepsInv(s, steps[..n]);
    InvParts(t, i);
    hide StoreOk;
    StepToError(t, i, steps[n].0, steps[n].1);
    if i in t.tasks && t.tasks[i].pc.Error? {
      k := ErrorHasCause(s, steps[..n], i);
    } else {
      k := n;
    }
  }

  // ---- a row that is there ----

  predicate Looks(pc: Pc, e: Event) { (pc.Locked? && e.LookUp?) || (pc.FileLocked? && e.LookAgain?) }

  /** A request that looks, the first or the second time, while its row is there is answered from disk, with the bytes
      stored under the row's digest. */
  lemma LookAnswers(s: State, i: nat, e: Event)
    requires StoreOk(s) && i in s.tasks && Looks(s.tasks[i].pc, e) && s.tasks[i].key in s.index
    ensures var t, h := Step(s, i, e), s.index[s.tasks[i].key];
      && i in t.tasks && t.tasks[i].pc.Disk? && t.tasks[i].key == s.tasks[i].key
      && h in s.cas && t.tasks[i].pc.bytes == s.cas[h] && Sha256(t.tasks[i].pc.bytes) == h
  {
  }

  // ---- locks ----

  /** Every mutex that is held is held by a request that is inside the section it guards. */
  ghost predicate LocksHeld(s: State) { forall m <- s.holder :: HeldRightly(s, m) }

  predicate HeldRightly(s: State, m: nat)
    requires m in s.holder
  {
    var i := s.holder[m];
    && i in s.tasks && InSection(s.tasks[i].pc)
    && LockOf(s.tasks[i].key) in s.mutexes && s.mutexes[LockOf(s.tasks[i].key)] == m
  }

  /** A step that takes no lock and lets go of none: the request stays inside its section if it was there. */
  lemma StaysKeepsLocks(s: State, i: nat, pc: Pc)
    requires LocksHeld(s) && i in s.tasks && (InSection(s.tasks[i].pc) ==> InSection(pc))
    ensures LocksHeld(s.Go(i, pc))
  {
    forall m <- s.holder ensures HeldRightly(s.Go(i, pc), m) {
      assert HeldRightly(s, m);
    }
  }

  /** Letting go of a lock on leaving the section. */
  lemma LeaveKeepsLocks(s: State, i: nat, pc: Pc)
    requires LocksHeld(s) && i in s.tasks && TaskOk(s, i) && InSection(s.tasks[i].pc)
    ensures LocksHeld(s.Leave(i, pc)) && LockFree(s.Leave(i, pc), s.tasks[i].key)
  {
    forall m <- s.Leave(i, pc).holder ensures HeldRightly(s.Leave(i, pc), m) {
      assert HeldRightly(s, m);
    }
  }

  predicate LockFree(s: State, k: Key) { LockOf(k) in s.mutexes ==> s.mutexes[LockOf(k)] !in s.holder }

  lemma AcquireKeepsLocks(s: State, i: nat)
    requires LocksHeld(s) && i in s.tasks && TaskOk(s, i)
    ensures LocksHeld(Step(s, i, Acquire))
  {
    var t := Step(s, i, Acquire);
    forall m <- t.holder ensures HeldRightly(t, m) {
      if m in s.holder { assert HeldRightly(s, m); }
    }
  }

  lemma NewMutexKeepsLocks(s: State, i: nat, newId: nat)
    requires LocksHeld(s) && i in s.tasks
    ensures LocksHeld(Step(s, i, GetMutex(newId)))
  {
    var t := Step(s, i, GetMutex(newId));
    forall m <- t.holder ensures HeldRightly(t, m) {
      assert HeldRightly(s, m);
    }
  }

  lemma SpawnKeepsLocks(s: State, i: nat, k: Key)
    requires LocksHeld(s) && i !in s.tasks
    ensures LocksHeld(Step(s, i, Spawn(k)))
  {
    var t := Step(s, i, Spawn(k));
    forall m <- t.holder ensures HeldRightly(t, m) {
      assert HeldRightly(s, m);
    }
  }

  lemma SameLocks(s: State, t: State)
    requires LocksHeld(s) && t.holder == s.holder && t.mutexes == s.mutexes && t.tasks == s.tasks
    ensures LocksHeld(t)
  {
    forall m <- t.holder ensures HeldRightly(t, m) {
      assert HeldRightly(s, m);
    }
  }

  lemma StepKeepsLocks(s: State, i: nat, e: Event)
    requires Inv(s) && LocksHeld(s)
    ensures LocksHeld(Step(s, i, e))
  {
    InvParts(s, i);
    hide Inv;
    hide LocksHeld;
    var t := Step(s, i, e);
    if t == s {
    } else if i !in s.tasks {
      SpawnKeepsLocks(s, i, e.key);
    } else {
      var pc := t.tasks[i].pc;
      match e
      case GetMutex(newId) => NewMutexKeepsLocks(s, i, newId);
      case Acquire => AcquireKeepsLocks(s, i);
      case Fetched(bytes) => FetchedKeepsLocks(s, i, bytes);
      case WriteRow(written, ok) => WriteKeepsLocks(s, i, written, ok);
      case _ => MoveKeepsLocks(s, i, e);
    }
  }

  lemma FetchedKeepsLocks(s: State, i: nat, bytes: Bytes)
    requires LocksHeld(s) && i in s.tasks && s.tasks[i].pc.Fetching?
    ensures LocksHeld(Step(s, i, Fetched(bytes)))
  {
    hide LocksHeld;
    var u := s.(cas := if Sha256(bytes) in s.cas then s.cas else s.cas[Sha256(bytes) := bytes]);
    SameLocks(s, u);
    StaysKeepsLocks(u, i, Stored(bytes));
  }

  lemma WriteKeepsLocks(s: State, i: nat, written: bool, ok: bool)
    requires LocksHeld(s) && i in s.tasks && s.tasks[i].pc.Stored? && TaskOk(s, i)
    ensures var t := Step(s, i, WriteRow(written, ok));
      LocksHeld(t) && LockFree(t, s.tasks[i].key) && LockOf(s.tasks[i].key) in t.mutexes
  {
    var pc := Step(s, i, WriteRow(written, ok)).tasks[i].pc;
    LeaveKeepsLocks(s, i, pc);
    hide LocksHeld;
    SameLocks(s.Leave(i, pc), Step(s, i, WriteRow(written, ok)));
  }

  lemma MoveKeepsLocks(s: State, i: nat, e: Event)
    requires LocksHeld(s) && i in s.tasks && TaskOk(s, i) && Step(s, i, e) != s
    requires e.LookUp? || e.LookAgain? || e.FileLock? || e.FetchFailed? || e.Cancel?
    ensures LocksHeld(Step(s, i, e))
  {
    hide LocksHeld;
    hide TaskOk;
    hide State.Go;
    hide State.Leave;
    var Task(key, pc) := s.tasks[i];
    if InSection(pc) {
      LeaveKeepsLocks(s, i, Error);
      if key in s.index && s.index[key] in s.cas {
        LeaveKeepsLocks(s, i, Disk(s.cas[s.index[key]]));
      }
      StaysKeepsLocks(s, i, Missed);
      StaysKeepsLocks(s, i, FileLocked);
      StaysKeepsLocks(s, i, Fetching);
    } else {
      StaysKeepsLocks(s, i, Error);
    }
  }

  /** In every interleaving, no request leaves its lock behind. */
  lemma {:induction false} NoLockLeftBehind(s: State, steps: seq<(nat, Event)>)
    requires Quiet(s)
    ensures LocksHeld(Run(s, steps))
  {
    hide Step;
    if steps != [] {
      var n := |steps| - 1;
      NoLockLeftBehind(s, steps[..n]);
      RunKeepsInv(s, steps[..n]);
      StepKeepsLocks(Run(s, steps[..n]), steps[n].0, steps[n].1);
    }
  }

  // ---- a request that keeps going ----

  lemma Then(s: State, steps: seq<(nat, Event)>, i: nat, e: Event)
    ensures Run(s, steps + [(i, e)]) == Step(Run(s, steps), i, e)
  {
    hide Step;
    assert (steps + [(i, e)])[..|steps|] == steps;
  }

  /** Where request `i` for `k` is, and what is stored. */
  predicate Stands(s: State, i: nat, k: Key, pc: Pc, index: map<Key, Digest>, cas: map<Digest, Bytes>) {
    i in s.tasks && s.tasks[i] == Task(k, pc) && s.index == index && s.cas == cas
  }

  function Enter(i: nat, k: Key, newId: nat): seq<(nat, Event)> {
    [(i, Spawn(k))] + [(i, GetMutex(newId))] + [(i, Acquire)]
  }

  predicate CanEnter(s: State, i: nat, k: Key, newId: nat) {
    i !in s.tasks && LockFree(s, k) && (LockOf(k) !in s.mutexes ==> newId !in s.mutexes.Values)
  }

  lemma DoSpawn(s: State, i: nat, k: Key)
    requires i !in s.tasks
    ensures var t := Step(s, i, Spawn(k));
      Stands(t, i, k, Start, s.index, s.cas) && t.mutexes == s.mutexes && t.holder == s.holder
  {
  }

  lemma DoGetMutex(s: State, i: nat, k: Key, newId: nat)
    requires Stands(s, i, k, Start, s.index, s.cas)
    requires LockOf(k) !in s.mutexes ==> newId !in s.mutexes.Values
    ensures var t, m := Step(s, i, GetMutex(newId)), if LockOf(k) in s.mutexes then s.mutexes[LockOf(k)] else newId;
      Stands(t, i, k, Waiting(m), s.index, s.cas) && t.holder == s.holder
  {
  }

  lemma DoAcquire(s: State, i: nat, k: Key, m: nat)
    requires Stands(s, i, k, Waiting(m), s.index, s.cas) && m !in s.holder
    ensures Stands(Step(s, i, Acquire), i, k, Locked, s.index, s.cas)
  {
  }

  /** Whenever its lock is free, a new request gets into its section. */
  lemma Enters(s: State, i: nat, k: Key, newId: nat)
    requires LocksHeld(s) && CanEnter(s, i, k, newId)
    ensures Stands(Run(s, Enter(i, k, newId)), i, k, Locked, s.index, s.cas)
  {
    hide Step;
    hide Run;
    FreshNotHeld(s, newId);
    var one: seq<(nat, Event)> := [(i, Spawn(k))];
    assert [] + one == one;
    Then(s, [], i, Spawn(k));
    RunNothing(s);
    DoSpawn(s, i, k);
    Then(s, one, i, GetMutex(newId));
    DoGetMutex(Run(s, one), i, k, newId);
    Then(s, one + [(i, GetMutex(newId))], i, Acquire);
    DoAcquire(Run(s, one + [(i, GetMutex(newId))]), i, k,
              if LockOf(k) in s.mutexes then s.mutexes[LockOf(k)] else newId);
  }

  lemma RunNothing(s: State)
    ensures Run(s, []) == s
  {
  }

  lemma FreshNotHeld(s: State, newId: nat)
    requires LocksHeld(s)
    ensures newId in s.holder ==> newId in s.mutexes.Values
  {
    if newId in s.holder {
      assert HeldRightly(s, newId);
    }
  }

  /** A new request for a row that is there, in any state that can arise, is answered from disk as soon as it gets its
      lock, and lets go of the lock. */
  lemma AnsweredFromDisk(s: State, i: nat, k: Key, newId: nat)
    requires Inv(s) && LocksHeld(s) && CanEnter(s, i, k, newId) && k in s.index
    ensures s.index[k] in s.cas && Sha256(s.cas[s.index[k]]) == s.index[k]
    ensures var t := Run(s, Enter(i, k, newId) + [(i, LookUp)]);
      Stands(t, i, k, Disk(s.cas[s.index[k]]), s.index, s.cas) && LockFree(t, k)
  {
    hide Run;
    var t := Run(s, Enter(i, k, newId));
    Enters(s, i, k, newId);
    RunKeepsInv(s, Enter(i, k, newId));
    RunKeepsLocks(s, Enter(i, k, newId));
    hide Enter;
    InvParts(s, i);
    InvParts(t, i);
    hide Inv;
    Then(s, Enter(i, k, newId), i, LookUp);
    LeaveKeepsLocks(t, i, Disk(s.cas[s.index[k]]));
    hide LocksHeld;
    hide TaskOk;
  }

  lemma {:induction false} RunKeepsLocks(s: State, steps: seq<(nat, Event)>)
    requires Inv(s) && LocksHeld(s)
    ensures LocksHeld(Run(s, steps))
  {
    hide Step;
    if steps != [] {
      var n := |steps| - 1;
      RunKeepsLocks(s, steps[..n]);
      RunKeepsInv(s, steps[..n]);
      StepKeepsLocks(Run(s, steps[..n]), steps[n].0, steps[n].1);
    }
  }

  lemma DoMiss(s: State, i: nat, k: Key)
    requires i in s.tasks && s.tasks[i].key == k && k !in s.index
    ensures s.tasks[i].pc.Locked? ==> Stands(Step(s, i, LookUp), i, k, Missed, s.index, s.cas)
    ensures s.tasks[i].pc.Missed? ==> Stands(Step(s, i, FileLock(true)), i, k, FileLocked, s.index, s.cas)
    ensures s.tasks[i].pc.FileLocked? ==> Stands(Step(s, i, LookAgain), i, k, Fetching, s.index, s.cas)
  {
  }

  function Kept(cas: map<Digest, Bytes>, bytes: Bytes): map<Digest, Bytes> {
    if Sha256(bytes) in cas then cas else cas[Sha256(bytes) := bytes]
  }

  lemma DoFetched(s: State, i: nat, k: Key, bytes: Bytes)
    requires Stands(s, i, k, Fetching, s.index, s.cas)
    ensures Stands(Step(s, i, Fetched(bytes)), i, k, Stored(bytes), s.index, Kept(s.cas, bytes))
  {
  }

  lemma DoWriteRow(s: State, i: nat, k: Key, bytes: Bytes)
    requires Stands(s, i, k, Stored(bytes), s.index, s.cas)
    ensures Stands(Step(s, i, WriteRow(true, true)), i, k, Remote(bytes), s.index[k := Sha256(bytes)], s.cas)
  {
  }

  function FetchSteps(i: nat, k: Key, newId: nat, bytes: Bytes): seq<(nat, Event)> {
    MissSteps(i, k, newId) + [(i, Fetched(bytes))] + [(i, WriteRow(true, true))]
  }

  function MissSteps(i: nat, k: Key, newId: nat): seq<(nat, Event)> {
    Enter(i, k, newId) + [(i, LookUp)] + [(i, FileLock(true))] + [(i, LookAgain)]
  }

  lemma Misses(s: State, i: nat, k: Key, newId: nat)
    requires LocksHeld(s) && CanEnter(s, i, k, newId) && k !in s.index
    ensures Stands(Run(s, MissSteps(i, k, newId)), i, k, Fetching, s.index, s.cas)
  {
    hide Step;
    hide Run;
    hide Enter;
    var enter := Enter(i, k, newId);
    Enters(s, i, k, newId);
    Then(s, enter, i, LookUp);
    DoMiss(Run(s, enter), i, k);
    Then(s, enter + [(i, LookUp)], i, FileLock(true));
    DoMiss(Run(s, enter + [(i, LookUp)]), i, k);
    Then(s, enter + [(i, LookUp)] + [(i, FileLock(true))], i, LookAgain);
    DoMiss(Run(s, enter + [(i, LookUp)] + [(i, FileLock(true))]), i, k);
  }

  /** A new request for a row that is not there, whose fetch succeeds, returns the fetched bytes, has them stored and
      its row written, and lets go of the lock. */
  lemma AnsweredFromNetwork(s: State, i: nat, k: Key, newId: nat, bytes: Bytes)
    requires Inv(s) && LocksHeld(s) && CanEnter(s, i, k, newId) && k !in s.index
    ensures var t := Run(s, FetchSteps(i, k, newId, bytes));
      && Stands(t, i, k, Remote(bytes), s.index[k := Sha256(bytes)], Kept(s.cas, bytes))
      && LockFree(t, k) && LockOf(k) in t.mutexes
  {
    hide Step;
    hide Run;
    var steps := MissSteps(i, k, newId);
    Misses(s, i, k, newId);
    hide MissSteps;
    Then(s, steps, i, Fetched(bytes));
    DoFetched(Run(s, steps), i, k, bytes);
    var u := Run(s, steps + [(i, Fetched(bytes))]);
    Then(s, steps + [(i, Fetched(bytes))], i, WriteRow(true, true));
    DoWriteRow(u, i, k, bytes);
    RunKeepsInv(s, steps + [(i, Fetched(bytes))]);
    RunKeepsLocks(s, steps + [(i, Fetched(bytes))]);
    InvParts(u, i);
    WriteKeepsLocks(u, i, true, true);
  }

  /** From every state that can arise: a request that fetches an artifact gets it from the network, and the next one for
      the same artifact gets it from disk: the same bytes, or if other bytes were stored under their digest before,
      bytes of the same digest. */
  lemma FetchedThenFound(s: State, steps: seq<(nat, Event)>, i: nat, j: nat, k: Key, newId: nat, bytes: Bytes)
    requires Quiet(s)
    requires var t := Run(s, steps); CanEnter(t, i, k, newId) && k !in t.index && j !in t.tasks && j != i
    ensures var t := Run(s, steps);
      var u := Run(t, FetchSteps(i, k, newId, bytes));
      var v := Run(u, Enter(j, k, newId) + [(j, LookUp)]);
      && i in u.tasks && u.tasks[i] == Task(k, Remote(bytes))
      && j in v.tasks && v.tasks[j] == Task(k, Disk(Kept(t.cas, bytes)[Sha256(bytes)]))
      && Sha256(v.tasks[j].pc.bytes) == Sha256(bytes)
  {
    hide Step;
    hide Run;
    hide Enter;
    var t := Run(s, steps);
    RunKeepsInv(s, steps);
    NoLockLeftBehind(s, steps);
    AnsweredFromNetwork(t, i, k, newId, bytes);
    var fetch := FetchSteps(i, k, newId, bytes);
    var u := Run(t, fetch);
    RunKeepsInv(t, fetch);
    RunKeepsLocks(t, fetch);
    FetchStepsOwn(i, k, newId, bytes);
    StillAbsent(t, fetch, i, j);
    InvParts(u, i);
    hide Inv;
    hide LocksHeld;
    AnsweredFromDisk(u, j, k, newId);
  }

  lemma FetchStepsOwn(i: nat, k: Key, newId: nat, bytes: Bytes)
    ensures forall x <- FetchSteps(i, k, newId, bytes) :: x.0 == i
  {
  }

  lemma {:induction false} StillAbsent(s: State, steps: seq<(nat, Event)>, i: nat, j: nat)
    requires j != i && j !in s.tasks && forall x <- steps :: x.0 == i
    ensures j !in Run(s, steps).tasks
  {
    hide Step;
    if steps != [] {
      var n := |steps| - 1;
      assert forall x <- steps[..n] :: x in steps;
      StillAbsent(s, steps[..n], i, j);
      OthersStay(Run(s, steps[..n]), j, steps[n].0, steps[n].1);
    }
  }
}
