/** One index handle as a state machine: its files, its memory, and every operation with every answer the cross-process
    lock may give. */
module IndexRuns {
  import opened Bytes
  import opened Records
  import opened Framing
  import opened Mutations
  import opened IndexFiles
  import opened CrashSafety
  import opened DiskStates

  const DEFAULT_THRESHOLD := 10_000

  datatype Handle = Handle(files: Files, rows: Rows, count: nat, threshold: nat)

  /** Whether the lock was obtained for the append and for the truncation of a compaction. */
  datatype Locks = Locks(append: bool, truncate: bool)

  datatype Op =
    | Mutate(m: Mutation, locks: Locks)
    | Compact(lock: bool)
    | SetThreshold(n: nat)
    | Reopen(recover: bool)

  predicate Accepted(m: Mutation, locks: Locks) { Fits(m) && locks.append }

  function Appended(h: Handle, m: Mutation): Handle
    requires h.files.journal.Some?
  {
    Handle(h.files.(journal := Some(h.files.journal.value + Frame(m))), Apply(h.rows, m), h.count + 1, h.threshold)
  }

  function AfterCompact(h: Handle, lock: bool): Handle {
    if lock then h.(files := Compacted(h.files, h.rows), count := 0)
    else h.(files := h.files.(snapshot := Some(SnapshotImage(h.rows)), tmp := None))
  }

  function AfterMutate(h: Handle, m: Mutation, locks: Locks): Handle
    requires h.files.journal.Some?
  {
    if !Accepted(m, locks) then h else
    var h1 := Appended(h, m);
    if h1.count >= h1.threshold then AfterCompact(h1, locks.truncate) else h1
  }

  function Step(h: Handle, op: Op): Handle
    requires h.files.journal.Some?
  {
    match op
    case Mutate(m, locks) => AfterMutate(h, m, locks)
    case Compact(lock) => AfterCompact(h, lock)
    case SetThreshold(n) => h.(threshold := n)
    case Reopen(recover) =>
      match Open(h.files, recover)
      case (g, Ok(o)) => Handle(g, o.rows, o.count, DEFAULT_THRESHOLD)
      case (g, Err(_)) => h.(files := g)
  }

  function CutAt(r: Result<Opened>): Option<nat> { if r.Ok? then r.value.truncatedAt else None }

  /** Every state the files pass through during an operation, in order. */
  function StatesOf(h: Handle, op: Op): seq<Files>
    requires h.files.journal.Some?
  {
    match op
    case Mutate(m, locks) =>
      if !Accepted(m, locks) then [] else
      var h1 := Appended(h, m);
      Growing(h.files, Frame(m)) +
      if h1.count >= h1.threshold then CompactStates(h1.files, h1.rows, locks.truncate) else []
    case Compact(lock) => CompactStates(h.files, h.rows, lock)
    case SetThreshold(_) => []
    case Reopen(recover) => OpenStates(h.files, true, CutAt(Open(h.files, recover).1))
  }

  /** The states the disk may be in when a crash interrupts an operation. */
  predicate CrashDuring(h: Handle, op: Op, s: Files)
    requires h.files.journal.Some?
  {
    s == h.files || s in StatesOf(h, op)
  }

  /** Where those states lie. */
  lemma CrashCases(h: Handle, op: Op, s: Files)
    requires h.files.journal.Some? && CrashDuring(h, op, s)
    ensures match op
            case Mutate(m, locks) =>
              || s == h.files
              || (Accepted(m, locks) &&
                  (TornAppend(h.files, Frame(m), s) || CompactCrash(Appended(h, m).files, Appended(h, m).rows, s)))
            case Compact(_) => CompactCrash(h.files, h.rows, s)
            case SetThreshold(_) => s == h.files
            case Reopen(_) => InStep(h) ==> s == h.files
  {
    hide Growing;
    hide CompactStates;
    hide CompactCrash;
    hide TornAppend;
    hide Frame;
    match op
    case Mutate(m, locks) =>
      GrowingIsTornAppend(h.files, Frame(m), s);
      CompactStatesAreCrashes(Appended(h, m).files, Appended(h, m).rows, s);
    case Compact(_) => CompactStatesAreCrashes(h.files, h.rows, s);
    case SetThreshold(_) =>
    case Reopen(recover) => if InStep(h) { ReopenStates(h, recover); }
  }

  lemma ReopenStates(h: Handle, recover: bool)
    requires h.files.journal.Some? && InStep(h)
    ensures forall s <- OpenStates(h.files, true, CutAt(Open(h.files, recover).1)) :: s == h.files
  {
    hide Scan;
    StrictOpenAgrees(h.files);
  }

  predicate InStep(h: Handle) { Agree(h.files, h.rows, h.count) }

  predicate StorableOp(op: Op) { op.Mutate? ==> Storable(op.m.key.coords) }

  lemma StepAgrees(h: Handle, op: Op)
    requires InStep(h) && StorableOp(op)
    ensures h.files.journal.Some? && InStep(Step(h, op))
    ensures op.Mutate? && Accepted(op.m, op.locks) && op.locks.truncate && h.threshold > 0
            ==> Step(h, op).count < h.threshold
  {
    hide Scan;
    hide Frame;
    hide Compacted;
    match op
    case Mutate(m, locks) =>
      if Accepted(m, locks) {
        CompletedAppend(h.files, h.rows, h.count, m);
        CompactAgrees(Appended(h, m), locks.truncate);
      }
    case Compact(lock) => CompactAgrees(h, lock);
    case SetThreshold(_) =>
    case Reopen(_) => StrictOpenAgrees(h.files);
  }

  lemma CompactAgrees(h: Handle, lock: bool)
    requires InStep(h)
    ensures InStep(AfterCompact(h, lock))
  {
    OpenedRowsStorable(h.files, false);
    CompactedAgrees(h.files, h.rows);
    NewSnapshotOldJournal(h.files, h.rows, h.count);
  }

  /** Exactly when a mutation keeps memory and disk in agreement: it was not written at all, its coordinates are
      storable, or a compaction completed behind a mutation that left no unstorable row. */
  lemma MutateAgreesIff(h: Handle, m: Mutation, locks: Locks)
    requires InStep(h)
    ensures h.files.journal.Some?
    ensures InStep(AfterMutate(h, m, locks)) <==> (
      || !Accepted(m, locks)
      || Storable(m.key.coords)
      || (h.count + 1 >= h.threshold && locks.truncate && !m.Put?))
  {
    if Accepted(m, locks) {
      if Storable(m.key.coords) {
        StepAgrees(h, Mutate(m, locks));
      } else {
        var h1 := Appended(h, m);
        UnstorableBlocksOpen(h.files, h.rows, h.count, m, false);
        OpenedRowsStorable(h.files, false);
        SnapshotRoundTrip(h1.rows);
        if m.Put? {
          assert m.key in h1.rows;
        } else {
          assert m.key !in h.rows && h1.rows == h.rows;
          CompactedAgrees(h1.files, h1.rows);
          OldJournalStillBlocks(h, m);
        }
      }
    }
  }

  lemma OldJournalStillBlocks(h: Handle, m: Mutation)
    requires InStep(h) && Fits(m) && !Storable(m.key.coords)
    ensures h.files.journal.Some?
    ensures var h1 := Appended(h, m); !InStep(AfterCompact(h1, false))
  {
    UnstorableBlocksOpen(h.files, h.rows, h.count, m, false);
  }

  // ---- runs ----

  function Run(h: Handle, ops: seq<Op>): Option<Handle>
    decreases |ops|
  {
    if ops == [] then Some(h)
    else if h.files.journal.None? then None
    else Run(Step(h, ops[0]), ops[1..])
  }

  predicate StorableOps(ops: seq<Op>) { forall op <- ops :: StorableOp(op) }

  /** After every run of operations on one handle, whatever the lock answers and thresholds, replaying the files
      rebuilds the memory and its counter. */
  lemma {:induction false} RunAgrees(h: Handle, ops: seq<Op>)
    requires InStep(h) && StorableOps(ops)
    ensures Run(h, ops).Some? && InStep(Run(h, ops).value)
    decreases |ops|
  {
    if ops != [] {
      assert StorableOp(ops[0]);
      StepAgrees(h, ops[0]);
      RunAgrees(Step(h, ops[0]), ops[1..]);
    }
  }

  /** What a recovering open makes of a crashed disk: one of two row sets, or a refusal because only part of a header
      is there. */
  predicate Survives(s: Files, before: Rows, after: Rows) {
    var (_, r) := Open(s, true);
    || (r.Ok? && (r.value.rows == before || r.value.rows == after))
    || (r == Err(ShortHeader) && s.journal.Some? && 0 < |s.journal.value| < HEADER_LEN)
  }

  lemma CrashSurvives(h: Handle, op: Op, s: Files)
    requires InStep(h) && StorableOp(op) && h.files.journal.Some? && CrashDuring(h, op, s)
    ensures Survives(s, h.rows, Step(h, op).rows)
  {
    hide Open;
    hide Frame;
    hide Apply;
    hide CrashDuring;
    CrashCases(h, op, s);
    StrictOpenAgrees(h.files);
    match op
    case Mutate(m, locks) =>
      if Accepted(m, locks) {
        if TornAppend(h.files, Frame(m), s) {
          AppendCrashSafe(h.files, h.rows, h.count, m, s);
          StrictOpenAgrees(s);
        } else if s != h.files {
          var h1 := Appended(h, m);
          CompletedAppend(h.files, h.rows, h.count, m);
          CompactCrashSafe(h1.files, h1.rows, h1.count, s, true);
        }
      }
    case Compact(lock) => CompactCrashSafe(h.files, h.rows, h.count, s, true);
    case SetThreshold(_) =>
    case Reopen(_) =>
  }

  /** Crash at any byte of any operation after any run: a recovering open finds the rows from before or after the
      interrupted operation and nothing else, or refuses over a partial header. */
  lemma RunCrashSurvives(h: Handle, ops: seq<Op>, op: Op, s: Files)
    requires InStep(h) && StorableOps(ops) && StorableOp(op)
    requires Run(h, ops).Some? && Run(h, ops).value.files.journal.Some? && CrashDuring(Run(h, ops).value, op, s)
    ensures var h1 := Run(h, ops).value; Survives(s, h1.rows, Step(h1, op).rows)
  {
    RunAgrees(h, ops);
    CrashSurvives(Run(h, ops).value, op, s);
  }
}
