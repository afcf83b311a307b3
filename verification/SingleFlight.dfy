/** Tasks of one process asking one source for artifacts at the same time. */
module SingleFlight {
  import opened Bytes
  import opened Records
  import opened CoordLocks

  function LockOf(k: Key): LockKey { LockKey(k.coords, k.version) }

  datatype Pc =
    | Start
    | Waiting(mutex: nat)
    | Locked                    // in-process lock held
    | Missed                    // first look-up found nothing; waiting for the file lock
    | FileLocked                // file lock held as well
    | Fetching                  // second look-up found nothing either
    | Stored(bytes: Bytes)      // fetched and stored, row not written yet
    | Disk(bytes: Bytes)        // succeeded from disk
    | Remote(bytes: Bytes)      // succeeded from the network
    | Error

  datatype Task = Task(key: Key, pc: Pc)

  predicate InSection(pc: Pc) { pc.Locked? || pc.Missed? || pc.FileLocked? || pc.Fetching? || pc.Stored? }

  /** `mutexes` is the lock map read flat; `holder` says which task holds a mutex. */
  datatype State = State(mutexes: map<LockKey, nat>, holder: map<nat, nat>, index: map<Key, Digest>,
                         cas: map<Digest, Bytes>, tasks: map<nat, Task>)
  {
    function Go(i: nat, pc: Pc): State
      requires i in tasks
    {
      this.(tasks := tasks[i := tasks[i].(pc := pc)])
    }

    /** Dropping the guard. */
    function Leave(i: nat, pc: Pc): State
      requires i in tasks
    {
      var m := LockOf(tasks[i].key);
      (if m in mutexes then this.(holder := holder - {mutexes[m]}) else this).Go(i, pc)
    }
  }

  datatype Event =
    | Spawn(key: Key)
    | GetMutex(newId: nat)      // the identity a new mutex would get
    | Acquire
    | LookUp
    | FileLock(granted: bool)
    | LookAgain
    | Fetched(bytes: Bytes)     // remote cache or upstream, already checked
    | FetchFailed
    | WriteRow(written: bool, ok: bool)  // a failed write may still have put the row in memory
    | Cancel

  function Found(s: State, i: nat): State
    requires i in s.tasks && s.tasks[i].key in s.index
  {
    var h := s.index[s.tasks[i].key];
    if h in s.cas then s.Leave(i, Disk(s.cas[h])) else s.Leave(i, Error)
  }

  /** Task `i` takes one step; an event that is not enabled changes nothing. */
  function Step(s: State, i: nat, e: Event): State {
    if i !in s.tasks then (if e.Spawn? then s.(tasks := s.tasks[i := Task(e.key, Start)]) else s) else
    var Task(key, pc) := s.tasks[i];
    match e
    case Spawn(_) => s
    case GetMutex(newId) =>
      if !pc.Start? then s
      else if LockOf(key) in s.mutexes then s.Go(i, Waiting(s.mutexes[LockOf(key)]))
      else if newId in s.mutexes.Values then s
      else s.(mutexes := s.mutexes[LockOf(key) := newId]).Go(i, Waiting(newId))
    case Acquire =>
      if pc.Waiting? && pc.mutex !in s.holder then s.(holder := s.holder[pc.mutex := i]).Go(i, Locked) else s
    case LookUp => if !pc.Locked? then s else if key in s.index then Found(s, i) else s.Go(i, Missed)
    case FileLock(granted) => if !pc.Missed? then s else if granted then s.Go(i, FileLocked) else s.Leave(i, Error)
    case LookAgain => if !pc.FileLocked? then s else if key in s.index then Found(s, i) else s.Go(i, Fetching)
    case Fetched(bytes) =>
      if !pc.Fetching? then s
      else s.(cas := if Sha256(bytes) in s.cas then s.cas else s.cas[Sha256(bytes) := bytes]).Go(i, Stored(bytes))
    case FetchFailed => if pc.Fetching? then s.Leave(i, Error) else s
    case WriteRow(written, ok) =>
      if !pc.Stored? then s else
      var t := if written || ok then s.(index := s.index[key := Sha256(pc.bytes)]) else s;
      t.Leave(i, if ok then Remote(pc.bytes) else Error)
    case Cancel => if InSection(pc) then s.Leave(i, Error) else if pc.Waiting? || pc.Start? then s.Go(i, Error) else s
  }

  // ---- the invariant ----

  ghost predicate TaskOk(s: State, i: nat)
    requires i in s.tasks
  {
    var Task(key, pc) := s.tasks[i];
    && (pc.Waiting? ==> LockOf(key) in s.mutexes && pc.mutex == s.mutexes[LockOf(key)])
    && (InSection(pc) ==>
          LockOf(key) in s.mutexes && s.mutexes[LockOf(key)] in s.holder && s.holder[s.mutexes[LockOf(key)]] == i)
    && (InSection(pc) && !pc.Locked? ==> key !in s.index)
    && (pc.Stored? ==> Sha256(pc.bytes) in s.cas)
    && (pc.Remote? ==> key in s.index && s.index[key] == Sha256(pc.bytes))
    && (pc.Disk? ==> key in s.index && s.index[key] in s.cas && pc.bytes == s.cas[s.index[key]])
  }

  /** Everything but the claims about tasks. */
  ghost predicate StoreOk(s: State) {
    && (forall a, b | a in s.mutexes && b in s.mutexes && s.mutexes[a] == s.mutexes[b] :: a == b)
    && (forall k <- s.index :: s.index[k] in s.cas)
    && (forall h <- s.cas :: Sha256(s.cas[h]) == h)
  }

  predicate OneRemote(s: State) {
    forall i, j | i in s.tasks && j in s.tasks && s.tasks[i].pc.Remote? && s.tasks[j].pc.Remote?
                  && s.tasks[i].key == s.tasks[j].key :: i == j
  }

  ghost predicate Inv(s: State) { (forall i <- s.tasks :: TaskOk(s, i)) && StoreOk(s) && OneRemote(s) }

  lemma InvParts(s: State, i: nat)
    requires Inv(s)
    ensures StoreOk(s) && (i in s.tasks ==> TaskOk(s, i))
  {
  }

  /** What a step of task `i` leaves alone: it adds mutexes and blobs but replaces none, takes the lock from nobody
      else, and writes a row only for its own key and only when it has fetched it. */
  ghost predicate Framed(s: State, t: State, i: nat) {
    && i in t.tasks && t.tasks.Keys == s.tasks.Keys + {i}
    && (forall j <- s.tasks :: j != i ==> t.tasks[j] == s.tasks[j])
    && (forall m <- s.mutexes :: m in t.mutexes && t.mutexes[m] == s.mutexes[m])
    && (forall m <- s.holder :: s.holder[m] != i ==> m in t.holder && t.holder[m] == s.holder[m])
    && (forall h <- s.cas :: h in t.cas && t.cas[h] == s.cas[h])
    && (t.index == s.index || (i in s.tasks && s.tasks[i].pc.Stored? && s.tasks[i].key !in s.index
                               && t.index == s.index[s.tasks[i].key := Sha256(s.tasks[i].pc.bytes)]))
  }

  lemma OthersKeep(s: State, t: State, i: nat)
    requires Inv(s) && Framed(s, t, i)
    ensures forall j <- s.tasks :: j != i ==> TaskOk(t, j)
  {
    assert i in s.tasks ==> TaskOk(s, i);
    forall j | j in s.tasks && j != i ensures TaskOk(t, j) {
      assert TaskOk(s, j);
    }
  }

  lemma GoFramed(s: State, i: nat, pc: Pc)
    requires i in s.tasks
    ensures Framed(s, s.Go(i, pc), i)
  {
  }

  lemma LeaveFramed(s: State, i: nat, pc: Pc)
    requires i in s.tasks && TaskOk(s, i) && InSection(s.tasks[i].pc)
    ensures Framed(s, s.Leave(i, pc), i)
    ensures !InSection(pc) && !pc.Waiting? && !pc.Remote? && !pc.Disk? ==> TaskOk(s.Leave(i, pc), i)
  {
  }

  /** A framed step that leaves task `i` and the store in order keeps the invariant, provided a task that now succeeded
      from the network is the one that wrote the row. */
  lemma FramedKeepsInv(s: State, t: State, i: nat)
    requires Inv(s) && Framed(s, t, i) && TaskOk(t, i) && StoreOk(t)
    requires t.tasks[i].pc.Remote? ==> i in s.tasks && t.tasks[i].key == s.tasks[i].key && s.tasks[i].key !in s.index
    ensures Inv(t)
  {
    hide TaskOk;
    OthersKeep(s, t, i);
    StillOneRemote(s, t, i);
  }

  lemma StillOneRemote(s: State, t: State, i: nat)
    requires Inv(s) && Framed(s, t, i)
    requires t.tasks[i].pc.Remote? ==> i in s.tasks && t.tasks[i].key == s.tasks[i].key && s.tasks[i].key !in s.index
    ensures OneRemote(t)
  {
    forall j | j in t.tasks && j != i && t.tasks[j].pc.Remote? && t.tasks[i].pc.Remote?
      ensures t.tasks[j].key != t.tasks[i].key
    {
      assert TaskOk(s, j);
    }
  }

  lemma GoKeeps(s: State, i: nat, pc: Pc)
    requires Inv(s) && i in s.tasks && TaskOk(s.Go(i, pc), i) && !pc.Remote?
    ensures Inv(s.Go(i, pc))
  {
    hide TaskOk;
    GoFramed(s, i, pc);
    FramedKeepsInv(s, s.Go(i, pc), i);
  }

  lemma LeaveKeeps(s: State, i: nat, pc: Pc)
    requires Inv(s) && i in s.tasks && InSection(s.tasks[i].pc) && TaskOk(s.Leave(i, pc), i) && !pc.Remote?
    ensures Inv(s.Leave(i, pc))
  {
    hide TaskOk;
    LeaveFramed(s, i, pc);
    FramedKeepsInv(s, s.Leave(i, pc), i);
  }

  lemma MutexesDistinct(mutexes: map<LockKey, nat>, k: LockKey, newId: nat)
    requires forall a, b | a in mutexes && b in mutexes && mutexes[a] == mutexes[b] :: a == b
    requires newId !in mutexes.Values && k !in mutexes
    ensures var m := mutexes[k := newId]; forall a, b | a in m && b in m && m[a] == m[b] :: a == b
  {
    assert forall x <- mutexes :: mutexes[x] in mutexes.Values;
  }

  lemma NewMutex(s: State, i: nat, newId: nat)
    requires StoreOk(s) && i in s.tasks && LockOf(s.tasks[i].key) !in s.mutexes && newId !in s.mutexes.Values
    ensures var t := s.(mutexes := s.mutexes[LockOf(s.tasks[i].key) := newId]).Go(i, Waiting(newId));
      Framed(s, t, i) && TaskOk(t, i) && StoreOk(t)
  {
    MutexesDistinct(s.mutexes, LockOf(s.tasks[i].key), newId);
  }

  lemma GetMutexStep(s: State, i: nat, newId: nat)
    requires Inv(s) && Step(s, i, GetMutex(newId)) != s
    ensures Inv(Step(s, i, GetMutex(newId)))
  {
    hide Inv;
    hide StoreOk;
    hide Framed;
    InvParts(s, i);
    var k := LockOf(s.tasks[i].key);
    if k in s.mutexes {
      GoKeeps(s, i, Waiting(s.mutexes[k]));
    } else {
      NewMutex(s, i, newId);
      FramedKeepsInv(s, Step(s, i, GetMutex(newId)), i);
    }
  }

  lemma SpawnStep(s: State, i: nat, key: Key)
    requires Inv(s) && i !in s.tasks
    ensures Inv(Step(s, i, Spawn(key)))
  {
    hide Inv;
    InvParts(s, i);
    FramedKeepsInv(s, Step(s, i, Spawn(key)), i);
  }

  lemma AcquireStep(s: State, i: nat)
    requires Inv(s) && Step(s, i, Acquire) != s
    ensures Inv(Step(s, i, Acquire))
  {
    hide Inv;
    InvParts(s, i);
    FramedKeepsInv(s, Step(s, i, Acquire), i);
  }

  lemma LookStep(s: State, i: nat, e: Event)
    requires Inv(s) && (e.LookUp? || e.FileLock? || e.LookAgain?) && Step(s, i, e) != s
    ensures Inv(Step(s, i, e))
  {
    hide Inv;
    hide StoreOk;
    InvParts(s, i);
    var task, t := s.tasks[i], Step(s, i, e);
    if !e.FileLock? && task.key in s.index {
      FoundOk(s, i);
      LeaveKeeps(s, i, t.tasks[i].pc);
    } else if e == FileLock(false) {
      LeaveKeeps(s, i, Error);
    } else {
      GoKeeps(s, i, t.tasks[i].pc);
    }
  }

  lemma FoundOk(s: State, i: nat)
    requires StoreOk(s) && i in s.tasks && s.tasks[i].key in s.index
    ensures TaskOk(Found(s, i), i) && !Found(s, i).tasks[i].pc.Remote?
    ensures Found(s, i) == s.Leave(i, Found(s, i).tasks[i].pc)
  {
  }

  lemma FetchedStep(s: State, i: nat, bytes: Bytes)
    requires Inv(s) && Step(s, i, Fetched(bytes)) != s
    ensures Inv(Step(s, i, Fetched(bytes)))
  {
    hide Inv;
    InvParts(s, i);
    FramedKeepsInv(s, Step(s, i, Fetched(bytes)), i);
  }

  lemma GiveUpStep(s: State, i: nat, e: Event)
    requires Inv(s) && (e.FetchFailed? || e.Cancel?) && Step(s, i, e) != s
    ensures Inv(Step(s, i, e))
  {
    hide Inv;
    InvParts(s, i);
    if InSection(s.tasks[i].pc) {
      LeaveKeeps(s, i, Error);
    } else {
      GoKeeps(s, i, Error);
    }
  }

  lemma WriteStep(s: State, i: nat, written: bool, ok: bool)
    requires Inv(s) && Step(s, i, WriteRow(written, ok)) != s
    ensures Inv(Step(s, i, WriteRow(written, ok)))
  {
    hide Inv;
    InvParts(s, i);
    WriteFramed(s, i, written, ok);
    hide Framed;
    hide TaskOk;
    hide StoreOk;
    FramedKeepsInv(s, Step(s, i, WriteRow(written, ok)), i);
  }

  lemma WriteFramed(s: State, i: nat, written: bool, ok: bool)
    requires StoreOk(s) && i in s.tasks && s.tasks[i].pc.Stored? && TaskOk(s, i)
    ensures var t := Step(s, i, WriteRow(written, ok)); Framed(s, t, i) && TaskOk(t, i) && StoreOk(t)
    ensures Step(s, i, WriteRow(written, ok)).tasks[i].key == s.tasks[i].key && s.tasks[i].key !in s.index
  {
  }

  lemma StepKeepsInv(s: State, i: nat, e: Event)
    requires Inv(s)
    ensures Inv(Step(s, i, e))
  {
    hide Inv;
    if Step(s, i, e) != s {
      match e
      case Spawn(key) => SpawnStep(s, i, key);
      case GetMutex(newId) => GetMutexStep(s, i, newId);
      case Acquire => AcquireStep(s, i);
      case LookUp => LookStep(s, i, e);
      case FileLock(_) => LookStep(s, i, e);
      case LookAgain => LookStep(s, i, e);
      case Fetched(bytes) => FetchedStep(s, i, bytes);
      case FetchFailed => GiveUpStep(s, i, e);
      case Cancel => GiveUpStep(s, i, e);
      case WriteRow(written, ok) => WriteStep(s, i, written, ok);
    }
  }

  function Run(s: State, steps: seq<(nat, Event)>): State {
    if steps == [] then s else var n := |steps| - 1; Step(Run(s, steps[..n]), steps[n].0, steps[n].1)
  }

  lemma {:induction false} RunKeepsInv(s: State, steps: seq<(nat, Event)>)
    requires Inv(s)
    ensures Inv(Run(s, steps))
  {
    if steps != [] {
      var n := |steps| - 1;
      RunKeepsInv(s, steps[..n]);
      StepKeepsInv(Run(s, steps[..n]), steps[n].0, steps[n].1);
    }
  }

  /** A store with nothing in flight: every row has its blob, every blob its digest. */
  ghost predicate Quiet(s: State) {
    s.mutexes == map[] && s.holder == map[] && s.tasks == map[] && StoreOk(s)
  }

  /** In every interleaving of tasks for the same artifact, at most one succeeds from the network; every other success
      comes from disk, with the same bytes short of a hash collision. */
  lemma AtMostOneRemote(s: State, steps: seq<(nat, Event)>, i: nat, j: nat)
    requires Quiet(s)
    requires var t := Run(s, steps);
      i in t.tasks && j in t.tasks && i != j && t.tasks[i].key == t.tasks[j].key && t.tasks[i].pc.Remote?
    ensures var t := Run(s, steps); var a, b := t.tasks[i].pc, t.tasks[j].pc;
      && !b.Remote?
      && (b.Disk? ==> Sha256(b.bytes) == Sha256(a.bytes))
  {
    RunKeepsInv(s, steps);
    var t := Run(s, steps);
    assert TaskOk(t, i) && TaskOk(t, j);
  }

  /** All disk successes for one artifact return identical bytes. */
  lemma DiskAnswersAgree(s: State, steps: seq<(nat, Event)>, i: nat, j: nat)
    requires Quiet(s)
    requires var t := Run(s, steps);
      i in t.tasks && j in t.tasks && t.tasks[i].key == t.tasks[j].key && t.tasks[i].pc.Disk? && t.tasks[j].pc.Disk?
    ensures var t := Run(s, steps); t.tasks[i].pc.bytes == t.tasks[j].pc.bytes
  {
    RunKeepsInv(s, steps);
    assert TaskOk(Run(s, steps), i) && TaskOk(Run(s, steps), j);
  }
}
