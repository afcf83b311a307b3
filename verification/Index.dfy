/** The index: rows in memory, mutated only after the journal has the mutation on disk. */
module IndexHandle {
  import opened Bytes
  import opened Records
  import opened KeyOrder
  import opened Framing
  import opened Mutations
  import opened IndexFiles
  import opened DiskStates
  import opened BufferedReader
  import opened BufferedOpen
  import opened IndexRuns
  import opened BlobStore
  import opened Disks
  import opened JournalFile

  /** What a mutating call reports, given the answer `value` it would give on success. */
  function Outcome(h: Handle, m: Mutation, locks: Locks, value: bool): Result<bool> {
    if !Fits(m) then Err(TooLong)
    else if !locks.append then Err(LockTimeout)
    else if h.count + 1 >= h.threshold && !locks.truncate then Err(LockTimeout)
    else Ok(value)
  }

  /** What a report is worth. Success: the mutation is in memory and, if its key can be stored, on disk. Failure: all is
      as it was, unless only the compaction behind the mutation was refused its lock, when the mutation is in. */
  lemma OutcomeMeans(h: Handle, m: Mutation, locks: Locks, value: bool)
    requires h.files.journal.Some?
    ensures var r, t := Outcome(h, m, locks, value), AfterMutate(h, m, locks);
      && (r.Ok? ==> r.value == value && t.rows == Apply(h.rows, m))
      && (r.Ok? && InStep(h) && Storable(m.key.coords) ==> Agree(t.files, Apply(h.rows, m), t.count))
      && (Fits(m) && locks.append && locks.truncate ==> r.Ok?)
      && (r == Err(TooLong) <==> !Fits(m)) && (r.Err? && Fits(m) ==> r == Err(LockTimeout))
      && (r.Err? ==> t == h || (t.rows == Apply(h.rows, m) && h.count + 1 >= h.threshold && !locks.truncate))
  {
    hide Frame;
    hide Agree;
    if InStep(h) && Storable(m.key.coords) {
      StepAgrees(h, Mutate(m, locks));
    }
  }

  class Index {
    var rows: Rows
    var count: nat
    var threshold: nat
    const journal: Journal

    constructor (rows: Rows, count: nat, journal: Journal)
      ensures this.rows == rows && this.count == count && this.threshold == DEFAULT_THRESHOLD
      ensures this.journal == journal
    {
      this.rows, this.count, this.threshold, this.journal := rows, count, DEFAULT_THRESHOLD, journal;
    }

    /** The handle's files are in place and their record is up to date. */
    ghost predicate Valid()
      reads this, journal.disk
    {
      journal.disk.Valid() && journal.disk.files.journal.Some?
    }

    function State(): Handle
      reads this, journal.disk
    {
      Handle(journal.disk.files, rows, count, threshold)
    }

    method Put(key: Key, entry: Entry, locks: Locks) returns (r: Result<bool>)
      requires Valid()
      modifies this`rows, this`count, journal.disk`files, journal.disk`trace
      ensures Valid() && State() == Step(old(State()), Mutate(Records.Put(key, entry), locks))
      ensures r == Outcome(old(State()), Records.Put(key, entry), locks, true)
      ensures var op := Mutate(Records.Put(key, entry), locks);
        journal.disk.trace == old(journal.disk.trace) + Along(journal.disk.fs, StatesOf(old(State()), op))
    {
      hide Growing;
      hide CompactStates;
      hide Along;
      hide Frame;
      ghost var h := State();
      var m := Records.Put(key, entry);
      var offset := journal.Append(m, locks.append);
      if offset.Err? {
        return Err(offset.error);
      }
      rows := rows[key := entry];
      count := count + 1;
      ghost var h1 := Appended(h, m);
      assert State() == h1;
      var fault := MaybeCompact(locks.truncate);
      AppendThenCompact(journal.disk.fs, h, m, locks.truncate, old(journal.disk.trace));
      r := if fault.None? then Ok(true) else Err(fault.value);
    }

    method Remove(key: Key, locks: Locks) returns (r: Result<bool>)
      requires Valid()
      modifies this`rows, this`count, journal.disk`files, journal.disk`trace
      ensures Valid() && State() == Step(old(State()), Mutate(Records.Remove(key), locks))
      ensures r == Outcome(old(State()), Records.Remove(key), locks, key in old(rows))
      ensures var op := Mutate(Records.Remove(key), locks);
        journal.disk.trace == old(journal.disk.trace) + Along(journal.disk.fs, StatesOf(old(State()), op))
    {
      hide Growing;
      hide CompactStates;
      hide Along;
      hide Frame;
      ghost var h := State();
      var m := Records.Remove(key);
      var offset := journal.Append(m, locks.append);
      if offset.Err? {
        return Err(offset.error);
      }
      var removed := key in rows;
      rows := rows - {key};
      count := count + 1;
      ghost var h1 := Appended(h, m);
      assert State() == h1;
      var fault := MaybeCompact(locks.truncate);
      AppendThenCompact(journal.disk.fs, h, m, locks.truncate, old(journal.disk.trace));
      r := if fault.None? then Ok(removed) else Err(fault.value);
    }

    method Touch(key: Key, atime: U64, locks: Locks) returns (r: Result<bool>)
      requires Valid()
      modifies this`rows, this`count, journal.disk`files, journal.disk`trace
      ensures Valid() && State() == Step(old(State()), Mutate(Records.Touch(key, atime), locks))
      ensures r == Outcome(old(State()), Records.Touch(key, atime), locks, key in old(rows))
      ensures var op := Mutate(Records.Touch(key, atime), locks);
        journal.disk.trace == old(journal.disk.trace) + Along(journal.disk.fs, StatesOf(old(State()), op))
    {
      hide Growing;
      hide CompactStates;
      hide Along;
      hide Frame;
      ghost var h := State();
      var m := Records.Touch(key, atime);
      var offset := journal.Append(m, locks.append);
      if offset.Err? {
        return Err(offset.error);
      }
      var touched := key in rows;
      if touched {
        rows := rows[key := rows[key].(atime := atime)];
      }
      count := count + 1;
      ghost var h1 := Appended(h, m);
      assert State() == h1;
      var fault := MaybeCompact(locks.truncate);
      AppendThenCompact(journal.disk.fs, h, m, locks.truncate, old(journal.disk.trace));
      r := if fault.None? then Ok(touched) else Err(fault.value);
    }

    /** All rows in key order. */
    method Entries() returns (rs: seq<Row>)
      ensures rs == SortedRows(rows)
    {
      rs := SortedRows(rows);
    }

    method WriteSnapshot()
      requires Valid()
      modifies journal.disk`files, journal.disk`trace
      ensures Valid()
      ensures journal.disk.files == old(journal.disk.files).(snapshot := Some(SnapshotImage(rows)), tmp := None)
      ensures journal.disk.trace
           == old(journal.disk.trace) + Along(journal.disk.fs, SnapshotStates(old(journal.disk.files), rows))
    {
      hide TmpStates;
      hide Along;
      ghost var f := journal.disk.files;
      var image := SnapshotImage(rows);
      journal.disk.WriteTmp(image);
      journal.disk.RenameTmpToSnapshot();
      TwoParts(journal.disk.fs, TmpStates(f, image), [journal.disk.files], old(journal.disk.trace));
    }

    /** A new snapshot first, then an empty journal. */
    method Compact(lock: bool) returns (fault: Option<Error>)
      requires Valid()
      modifies this`count, journal.disk`files, journal.disk`trace
      ensures Valid() && State() == AfterCompact(old(State()), lock)
      ensures fault == if lock then None else Some(LockTimeout)
      ensures journal.disk.trace
           == old(journal.disk.trace) + Along(journal.disk.fs, CompactStates(old(journal.disk.files), rows, lock))
    {
      hide SnapshotStates;
      hide TruncateStates;
      hide Along;
      ghost var f := journal.disk.files;
      WriteSnapshot();
      ghost var f1 := journal.disk.files;
      fault := journal.Truncate(lock);
      if fault.None? {
        count := 0;
      }
      TwoParts(journal.disk.fs, SnapshotStates(f, rows), if lock then TruncateStates(f1) else [],
               old(journal.disk.trace));
      NoStates(journal.disk.fs, old(journal.disk.trace) + Along(journal.disk.fs, SnapshotStates(f, rows)));
    }

    method MaybeCompact(lock: bool) returns (fault: Option<Error>)
      requires Valid()
      modifies this`count, journal.disk`files, journal.disk`trace
      ensures Valid()
      ensures State() == if old(count) >= threshold then AfterCompact(old(State()), lock) else old(State())
      ensures fault == if old(count) >= threshold && !lock then Some(LockTimeout) else None
      ensures var f := old(journal.disk.files);
        var states := if old(count) >= threshold then CompactStates(f, rows, lock) else [];
        journal.disk.trace == old(journal.disk.trace) + Along(journal.disk.fs, states)
    {
      hide CompactStates;
      fault := None;
      if count >= threshold {
        fault := Compact(lock);
      }
    }
  }

  lemma NoStates(fs: Fs, trace: seq<Moment>)
    ensures trace + Along(fs, []) == trace
  {
  }

  lemma AppendThenCompact(fs: Fs, h: Handle, m: Mutation, lock: bool, trace: seq<Moment>)
    requires h.files.journal.Some? && Fits(m)
    ensures var h1 := Appended(h, m);
      var later := if h1.count >= h1.threshold then CompactStates(h1.files, h1.rows, lock) else [];
      trace + Along(fs, Growing(h.files, Frame(m))) + Along(fs, later)
      == trace + Along(fs, StatesOf(h, Mutate(m, Locks(true, lock))))
  {
    hide Growing;
    hide CompactStates;
    hide Along;
    var h1 := Appended(h, m);
    var later := if h1.count >= h1.threshold then CompactStates(h1.files, h1.rows, lock) else [];
    TwoParts(fs, Growing(h.files, Frame(m)), later, trace);
  }

  lemma ReplayNothing(base: Rows)
    ensures Replay(base, []) == base
  {
  }

  /** What one more record, or the fault that ends the scan, adds to the mutations seen so far. */
  lemma ScanOneMore(base: Rows, seen: seq<Mutation>, s: Bytes, b: nat, pos: nat)
    requires b <= |s|
    ensures var r := Prepend(seen, BufferedScan(s, b, pos, BUFFER));
      match BufferedReadOne(s, b, pos, BUFFER)
      case AtEnd => r == Scanned(seen, pos, None)
      case Fault(e) => r == Scanned(seen, pos, Some(e))
      case Garbled(e, n) => r == Scanned(seen, pos + n, Some(e))
      case Record(m, n) =>
        var b1 := Refilled(b, |s|, BUFFER);
        && 4 <= b1 <= |s|
        && r == Prepend(seen + [m], BufferedScan(s[n..], AfterRecord(b1, n, |s|, BUFFER), pos + n, BUFFER))
        && Replay(base, seen + [m]) == Apply(Replay(base, seen), m)
  {
    hide ReadOne;
    hide Apply;
    hide Replay;
    hide AfterRecord;
    hide Refilled;
    assert seen + [] == seen;
    var b1 := RefilledFits(b, |s|, BUFFER);
    if BufferedReadOne(s, b, pos, BUFFER).Record? {
      var Record(m, n) := ReadOne(s, pos);
      ReplayOneMore(base, seen, m);
      PrependTwice(seen, [m], BufferedScan(s[n..], AfterRecord(b1, n, |s|, BUFFER), pos + n, BUFFER));
    }
  }

  /** Applies the records of a journal to the rows of a snapshot until the end or the first fault. */
  method ReplayJournal(j: Bytes, base: Rows) returns (rows: Rows, count: nat, good: nat, badTail: Option<Error>)
    requires HEADER_LEN <= |j|
    ensures var r := BufferedScan(j[HEADER_LEN..], 0, HEADER_LEN, BUFFER);
      rows == Replay(base, r.mutations) && count == |r.mutations| && good == r.good && badTail == r.fault
  {
    hide BufferedScan;
    hide BufferedReadOne;
    hide AfterRecord;
    hide Refilled;
    hide Apply;
    hide Replay;
    rows, count, badTail := base, 0, None;
    ReplayNothing(base);
    var iter := new JournalIter(j);
    ghost var whole := BufferedScan(j[HEADER_LEN..], 0, HEADER_LEN, BUFFER);
    ghost var seen: seq<Mutation> := [];
    assert [] + whole.mutations == whole.mutations;
    while !iter.done && badTail.None?
      invariant iter.Valid()
      invariant rows == Replay(base, seen) && count == |seen|
      invariant whole == if badTail.None? && !iter.done
                         then Prepend(seen, BufferedScan(iter.unread, iter.buffered, iter.position, BUFFER))
                         else Scanned(seen, iter.position, badTail)
      decreases !iter.done && badTail.None?, |iter.unread|
    {
      ScanOneMore(base, seen, iter.unread, iter.buffered, iter.position);
      ReadSizes(iter.unread, iter.buffered, iter.position);
      var item := iter.Next();
      match item
      case None =>
      case Some(Err(e)) =>
        badTail := Some(e);
      case Some(Ok(m)) =>
        rows := Apply(rows, m);
        count := count + 1;
        seen := seen + [m];
    }
    good := iter.position;
  }

  lemma ReadSizes(s: Bytes, b: nat, pos: nat)
    ensures BufferedReadOne(s, b, pos, BUFFER).Record? ==> 8 <= BufferedReadOne(s, b, pos, BUFFER).size <= |s|
  {
  }

  /** Opening under the locks: `lock` is the answer for the journal, `cutLock` for cutting a damaged tail. */
  function OpenLocked(f: Files, recover: bool, lock: bool, cutLock: bool): (Files, Result<Opened>) {
    if BaseRows(f).Ok? && !lock then (WithJournal(f, JournalBytes(f)), Err(LockTimeout)) else
    var (g, r) := OpenBuffered(f, recover, BUFFER);
    if r.Ok? && r.value.truncatedAt.Some? && !cutLock then (WithJournal(f, JournalAfterOpen(f)), Err(LockTimeout))
    else (g, r)
  }

  /** Opening: load the snapshot, open the journal, replay it, and cut a damaged tail if asked to. */
  method OpenIndex(disk: Disk, recover: bool, lock: bool, cutLock: bool)
    returns (r: Result<Index>, truncatedAt: Option<nat>)
    requires disk.Valid()
    modifies disk`files, disk`trace
    ensures disk.Valid() && disk.files == OpenLocked(old(disk.files), recover, lock, cutLock).0
    ensures match OpenLocked(old(disk.files), recover, lock, cutLock).1
            case Err(e) => r == Err(e) && truncatedAt == None
            case Ok(o) =>
              && r.Ok? && fresh(r.value) && r.value.journal.disk == disk && r.value.Valid()
              && r.value.State() == Handle(disk.files, o.rows, o.count, DEFAULT_THRESHOLD)
              && truncatedAt == o.truncatedAt
    ensures disk.trace == old(disk.trace) + Along(disk.fs, OpenStates(old(disk.files), lock, truncatedAt))
  {
    hide BufferedScan;
    hide Replay;
    hide HeaderFault;
    hide LoadSnapshot;
    hide JournalOpenStates;
    hide Along;
    truncatedAt := None;
    ghost var f := disk.files;
    ghost var before := JournalOpenStates(f, lock);
    NoStates(disk.fs, disk.trace);
    assert before + [] == before;
    var base := BaseRows(disk.files);
    if base.Err? {
      return Err(base.error), None;
    }
    var journal := new Journal(disk);
    var fault := journal.Open(lock);
    if fault.Some? {
      return Err(fault.value), None;
    }
    var j := disk.files.journal.value;
    NoFaultLongEnough(j);
    var rows, count, good, badTail := ReplayJournal(j, base.value);
    if badTail.Some? {
      if recover && Recoverable(badTail.value) {
        var cutFault := journal.TruncateTo(good, cutLock);
        if cutFault.Some? {
          return Err(cutFault.value), None;
        }
        truncatedAt := Some(good);
        TwoParts(disk.fs, before, [disk.files], old(disk.trace));
      } else {
        return Err(badTail.value), None;
      }
    }
    var index := new Index(rows, count, journal);
    r := Ok(index);
  }
}
