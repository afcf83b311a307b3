/** The collection pass itself: one loop that removes blobs and rows until the low mark is reached. */
module Gc {
  import opened Bytes
  import opened Records
  import opened KeyOrder
  import opened Framing
  import opened Mutations
  import opened IndexFiles
  import opened IndexRuns
  import opened IndexHandle
  import opened BlobStore
  import opened Disks
  import opened GcSpec

  datatype Stats = Stats(considered: nat, evicted: nat, skipped: nat, bytesFreed: nat, reachedTarget: bool)

  const GRANTED := Locks(true, true)

  function Subtract(a: nat, b: nat): nat { if b <= a then a - b else 0 }

  /** Whatever a recovering open makes of a crashed disk, no blob is unknown that was known before. */
  ghost predicate NoNewOrphans(m: Moment, fs: Fs, rows: Rows) {
    var (_, r) := Open(m.files, true);
    r.Ok? ==> Orphans(m.fs, r.value.rows) <= Orphans(fs, rows)
  }

  /** Rows may only have disappeared together with their blobs. */
  ghost predicate BlobsWentFirst(fs0: Fs, rows0: Rows, fs: Fs, rows: Rows) {
    && fs.names.Keys <= fs0.names.Keys
    && (forall k <- rows :: k in rows0 && rows[k] == rows0[k])
    && (forall k <- rows0 :: k in rows || Obj(rows0[k].hash) !in fs.names)
  }

  lemma BlobsFirstNoNewOrphans(fs0: Fs, rows0: Rows, fs: Fs, rows: Rows)
    requires BlobsWentFirst(fs0, rows0, fs, rows)
    ensures Orphans(fs, rows) <= Orphans(fs0, rows0)
  {
    forall h | h in Orphans(fs, rows) ensures h in Orphans(fs0, rows0) {
      forall k <- rows0 ensures rows0[k].hash != h {
        if k in rows { assert rows[k].hash != h; }
      }
    }
  }

  lemma CrashNoNewOrphans(fs0: Fs, rows0: Rows, fs: Fs, h: Handle, op: Op, s: Files)
    requires InStep(h) && StorableOp(op) && h.files.journal.Some? && CrashDuring(h, op, s)
    requires BlobsWentFirst(fs0, rows0, fs, h.rows) && BlobsWentFirst(fs0, rows0, fs, Step(h, op).rows)
    ensures NoNewOrphans(Moment(fs, s), fs0, rows0)
  {
    CrashSurvives(h, op, s);
    BlobsFirstNoNewOrphans(fs0, rows0, fs, h.rows);
    BlobsFirstNoNewOrphans(fs0, rows0, fs, Step(h, op).rows);
  }

  // ---- facts about a partial pass ----

  lemma PinnedStays(fs0: Fs, ev: seq<Row>, h: Digest)
    requires CasOk(fs0) && forall r <- ev :: !Pinned(fs0, r.entry.hash)
    ensures Pinned(Without(fs0, ev), h) <==> Pinned(fs0, h)
  {
    var fs := Without(fs0, ev);
    if Obj(h) in fs0.names {
      var i := fs0.names[Obj(h)];
      if Obj(h) in fs.names {
        assert LinkNames(fs, i) == LinkNames(fs0, i);
      } else {
        var r :| r in ev && Obj(r.entry.hash) == Obj(h);
      }
    }
  }

  lemma TakeOneMore(fs0: Fs, rows0: Rows, ev: seq<Row>, r: Row)
    ensures Unlink(Without(fs0, ev), Obj(r.entry.hash)) == Without(fs0, ev + [r])
    ensures (rows0 - Keys(ev)) - {r.key} == rows0 - Keys(ev + [r])
    ensures Deleters(fs0, ev + [r]) ==
      Deleters(fs0, ev) + (if Obj(r.entry.hash) in Without(fs0, ev).names then [r] else [])
  {
    assert Objects(ev + [r]) == Objects(ev) + {Obj(r.entry.hash)};
    assert Keys(ev + [r]) == Keys(ev) + {r.key};
    assert (ev + [r])[..|ev|] == ev;
  }

  lemma PartialPassBlobsFirst(fs0: Fs, rows0: Rows, ev: seq<Row>, extra: seq<Row>)
    requires forall r <- ev + extra :: r.key in rows0 && rows0[r.key] == r.entry
    ensures BlobsWentFirst(fs0, rows0, Without(fs0, ev + extra), rows0 - Keys(ev))
  {
    forall k | k in rows0 && k in Keys(ev) ensures Obj(rows0[k].hash) in Objects(ev + extra) {
      var r :| r in ev && r.key == k;
      assert r in ev + extra;
    }
  }

  datatype Visit = Skipped | Dropped | Evicted | Failed(error: Error)

  function VisitOf(fs: Fs, keepLinked: bool, row: Row): Visit {
    if !Evictable(fs, keepLinked, row) then Skipped
    else if !Fits(Remove(row.key)) then Failed(TooLong)
    else if keepLinked && Obj(row.entry.hash) !in fs.names then Dropped
    else Evicted
  }

  /** The moments of dealing with one row that is not pinned: the blob goes, unless it is known to be missing, and then
      the row goes, byte by byte. */
  function RowMoments(fs: Fs, h: Handle, keepLinked: bool, row: Row): seq<Moment>
    requires h.files.journal.Some?
  {
    var obj := Obj(row.entry.hash);
    (if keepLinked && obj !in fs.names then [] else [Moment(Unlink(fs, obj), h.files)])
    + Along(Unlink(fs, obj), StatesOf(h, Mutate(Remove(row.key), GRANTED)))
  }

  /** One row: left alone if pinned; otherwise its blob goes first and its row second. */
  method VisitRow(disk: Disk, index: Index, row: Row, keepLinked: bool) returns (v: Visit)
    requires index.Valid() && index.journal.disk == disk
    modifies disk, index`rows, index`count
    ensures index.Valid() && v == VisitOf(old(disk.fs), keepLinked, row)
    ensures v.Skipped? <==> keepLinked && Shared(old(disk.fs), row.entry.hash)
    ensures disk.fs == if v.Skipped? then old(disk.fs) else Unlink(old(disk.fs), Obj(row.entry.hash))
    ensures index.State() == if v.Skipped? then old(index.State())
                             else AfterMutate(old(index.State()), Remove(row.key), GRANTED)
    ensures disk.trace == if v.Skipped? then old(disk.trace)
                          else old(disk.trace) + RowMoments(old(disk.fs), old(index.State()), keepLinked, row)
  {
    hide StatesOf;
    hide Along;
    var obj := Obj(row.entry.hash);
    PinnedIffShared(disk.fs, row.entry.hash);
    hide Shared;
    if keepLinked && obj in disk.fs.names && Links(disk.fs, disk.fs.names[obj]) >= 2 {
      return Skipped;
    }
    var missing := keepLinked && obj !in disk.fs.names;
    if !missing {
      var found := disk.Remove(obj);
    }
    assert disk.fs == Unlink(old(disk.fs), obj);
    var removed := index.Remove(row.key, GRANTED);
    if removed.Err? {
      return Failed(removed.error);
    }
    v := if missing then Dropped else Evicted;
  }

  lemma VisitCases(fs: Fs, keepLinked: bool, row: Row)
    ensures var v := VisitOf(fs, keepLinked, row);
      && (v.Skipped? <==> !Evictable(fs, keepLinked, row))
      && (v.Failed? ==> !Fits(Remove(row.key)))
      && (!v.Skipped? && !v.Failed? ==> Fits(Remove(row.key)))
      && (v.Dropped? ==> keepLinked && Obj(row.entry.hash) !in fs.names)
      && (v.Evicted? ==> !keepLinked || Obj(row.entry.hash) in fs.names)
  {
  }

  // ---- every moment of a pass ----

  /** The handle after the rows `ev` have been dealt with. */
  function PassHandle(h: Handle, ev: seq<Row>): (r: Handle)
    requires h.files.journal.Some?
    ensures r.files.journal.Some?
  {
    if ev == [] then h else AfterMutate(PassHandle(h, ev[..|ev| - 1]), Remove(ev[|ev| - 1].key), GRANTED)
  }

  /** Every moment of dealing with the rows `ev` in turn. */
  function PassMoments(fs: Fs, h: Handle, keepLinked: bool, ev: seq<Row>): seq<Moment>
    requires h.files.journal.Some?
  {
    if ev == [] then [] else
    var n := |ev| - 1;
    var done := ev[..n];
    PassMoments(fs, h, keepLinked, done) + RowMoments(Without(fs, done), PassHandle(h, done), keepLinked, ev[n])
  }

  /** A machine stopped anywhere in a pass. */
  predicate GcCrash(fs: Fs, h: Handle, high: nat, low: nat, keepLinked: bool, m: Moment)
    requires h.files.journal.Some?
  {
    m == Moment(fs, h.files) || m in PassMoments(fs, h, keepLinked, Taken(fs, h.rows, high, low, keepLinked))
  }

  lemma PassOneMore(fs: Fs, h: Handle, keepLinked: bool, ev: seq<Row>, row: Row)
    requires h.files.journal.Some?
    ensures PassHandle(h, ev + [row]) == AfterMutate(PassHandle(h, ev), Remove(row.key), GRANTED)
    ensures PassMoments(fs, h, keepLinked, ev + [row])
         == PassMoments(fs, h, keepLinked, ev) + RowMoments(Without(fs, ev), PassHandle(h, ev), keepLinked, row)
  {
    assert (ev + [row])[..|ev|] == ev;
  }

  lemma {:induction false} PassMomentsPrefix(fs: Fs, h: Handle, keepLinked: bool, ev: seq<Row>, k: nat)
    requires h.files.journal.Some? && k <= |ev|
    ensures PassMoments(fs, h, keepLinked, ev[..k]) <= PassMoments(fs, h, keepLinked, ev)
    decreases |ev|
  {
    hide RowMoments;
    if k == |ev| {
      assert ev[..k] == ev;
    } else {
      var n := |ev| - 1;
      PassMomentsPrefix(fs, h, keepLinked, ev[..n], k);
      assert ev[..n][..k] == ev[..k];
    }
  }

  ghost predicate AreRows(ev: seq<Row>, rows: Rows) { forall r <- ev :: r.key in rows && rows[r.key] == r.entry }

  /** Whatever part of a pass is done, index and memory agree and every row that is gone lost its blob before. */
  lemma {:induction false} PassSafe(fs: Fs, h: Handle, ev: seq<Row>)
    requires h.files.journal.Some? && InStep(h) && StorableKeys(h.rows) && AreRows(ev, h.rows)
    ensures InStep(PassHandle(h, ev)) && BlobsWentFirst(fs, h.rows, Without(fs, ev), PassHandle(h, ev).rows)
  {
    hide InStep;
    if ev == [] {
      NothingTaken(fs, h.rows);
    } else {
      var n := |ev| - 1;
      assert forall r <- ev[..n] :: r in ev;
      PassSafe(fs, h, ev[..n]);
      RowSafe(fs, h, ev[..n], ev[n]);
    }
  }

  lemma RowSafe(fs: Fs, h: Handle, ev: seq<Row>, row: Row)
    requires h.files.journal.Some? && InStep(h) && StorableKeys(h.rows) && AreRows(ev + [row], h.rows)
    requires InStep(PassHandle(h, ev)) && BlobsWentFirst(fs, h.rows, Without(fs, ev), PassHandle(h, ev).rows)
    ensures var h1 := PassHandle(h, ev); var h2 := AfterMutate(h1, Remove(row.key), GRANTED);
      && InStep(h2)
      && BlobsWentFirst(fs, h.rows, Without(fs, ev + [row]), h1.rows)
      && BlobsWentFirst(fs, h.rows, Without(fs, ev + [row]), h2.rows)
  {
    var h1 := PassHandle(h, ev);
    assert row in ev + [row] && row.key in h.rows;
    StepAgrees(h1, Mutate(Remove(row.key), GRANTED));
    RemovedRows(h1, row.key);
    hide AfterMutate;
    hide InStep;
    TakeOneMore(fs, h.rows, ev, row);
  }

  lemma RemovedRows(h: Handle, k: Key)
    requires h.files.journal.Some?
    ensures AfterMutate(h, Remove(k), GRANTED).rows == h.rows - (if Fits(Remove(k)) then {k} else {})
  {
  }

  /** Stop a pass at any moment: a recovering open then finds no blob unreferenced that was referenced before. */
  lemma GcCrashSafe(fs: Fs, h: Handle, high: nat, low: nat, keepLinked: bool, m: Moment)
    requires h.files.journal.Some? && InStep(h) && GcCrash(fs, h, high, low, keepLinked, m)
    ensures NoNewOrphans(m, fs, h.rows)
  {
    var taken := Taken(fs, h.rows, high, low, keepLinked);
    OpenedRowsStorable(h.files, false);
    TakenFromRows(fs, h.rows, high, low, keepLinked);
    hide Taken;
    hide PassMoments;
    if m == Moment(fs, h.files) {
      StrictOpenAgrees(h.files);
    } else {
      MomentsSafe(fs, h, keepLinked, taken, m);
    }
  }

  lemma {:induction false} MomentsSafe(fs: Fs, h: Handle, keepLinked: bool, ev: seq<Row>, m: Moment)
    requires h.files.journal.Some? && InStep(h) && StorableKeys(h.rows) && AreRows(ev, h.rows)
    requires m in PassMoments(fs, h, keepLinked, ev)
    ensures NoNewOrphans(m, fs, h.rows)
  {
    hide InStep;
    hide RowMoments;
    hide NoNewOrphans;
    var n := |ev| - 1;
    var done := ev[..n];
    assert forall r <- done :: r in ev;
    if m in PassMoments(fs, h, keepLinked, done) {
      MomentsSafe(fs, h, keepLinked, done, m);
    } else {
      assert ev == done + [ev[n]];
      PassSafe(fs, h, done);
      RowMomentsSafe(fs, h, keepLinked, done, ev[n], m);
    }
  }

  lemma RowMomentsSafe(fs: Fs, h: Handle, keepLinked: bool, ev: seq<Row>, row: Row, m: Moment)
    requires h.files.journal.Some? && InStep(h) && StorableKeys(h.rows) && AreRows(ev + [row], h.rows)
    requires InStep(PassHandle(h, ev)) && BlobsWentFirst(fs, h.rows, Without(fs, ev), PassHandle(h, ev).rows)
    requires m in RowMoments(Without(fs, ev), PassHandle(h, ev), keepLinked, row)
    ensures NoNewOrphans(m, fs, h.rows)
  {
    hide InStep;
    hide NoNewOrphans;
    hide StatesOf;
    hide BlobsWentFirst;
    hide AfterMutate;
    hide Unlink;
    hide Without;
    hide PassHandle;
    var h1, op := PassHandle(h, ev), Mutate(Remove(row.key), GRANTED);
    RowSafe(fs, h, ev, row);
    TakeOneMore(fs, h.rows, ev, row);
    assert row in ev + [row] && row.key in h.rows;
    assert m.fs == Without(fs, ev + [row]) && CrashDuring(h1, op, m.files);
    CrashNoNewOrphans(fs, h.rows, m.fs, h1, op, m.files);
  }

  lemma TakenFromRows(fs: Fs, rows: Rows, high: nat, low: nat, keepLinked: bool)
    ensures AreRows(Taken(fs, rows, high, low, keepLinked), rows)
  {
    var sorted := SortByAge(SortedRows(rows));
    SortedFacts(rows);
    EvictableFacts(fs, keepLinked, sorted);
  }

  // ---- the books of the loop ----

  /** Every earlier check of the running total found it at or above the low mark. */
  ghost predicate AboveAtRows(fs0: Fs, keepLinked: bool, sorted: seq<Row>, i: nat, start: nat, low: nat)
    requires i <= |sorted|
  {
    forall j | 0 <= j < i :: start - Sum(EvictableOf(fs0, keepLinked, sorted[..j])) >= low
  }

  ghost predicate AboveAtEvictions(ev: seq<Row>, start: nat, low: nat) {
    forall j | 0 <= j < |ev| :: start - Sum(ev[..j]) >= low
  }

  lemma AboveRowOneMore(fs0: Fs, keepLinked: bool, sorted: seq<Row>, i: nat, start: nat, low: nat)
    requires i < |sorted| && AboveAtRows(fs0, keepLinked, sorted, i, start, low)
    requires start - Sum(EvictableOf(fs0, keepLinked, sorted[..i])) >= low
    ensures AboveAtRows(fs0, keepLinked, sorted, i + 1, start, low)
  {
  }

  lemma AboveOneMore(ev: seq<Row>, r: Row, start: nat, low: nat)
    requires AboveAtEvictions(ev, start, low) && start - Sum(ev) >= low
    ensures AboveAtEvictions(ev + [r], start, low)
  {
    forall j | 0 <= j < |ev + [r]| ensures start - Sum((ev + [r])[..j]) >= low {
      assert (ev + [r])[..j] == if j < |ev| then ev[..j] else ev;
    }
  }

  /** The rows that count as evictions. */
  function Counted(fs0: Fs, keepLinked: bool, ev: seq<Row>): seq<Row> {
    if keepLinked then Deleters(fs0, ev) else ev
  }

  /** The state of a pass that has dealt with the first `i` of the sorted rows. */
  ghost predicate PassAt(fs0: Fs, rows0: Rows, keepLinked: bool, low: nat, sorted: seq<Row>, i: nat,
                         fs: Fs, rows: Rows, total: nat, stats: Stats)
  {
    && i <= |sorted|
    && var ev := EvictableOf(fs0, keepLinked, sorted[..i]);
    && fs == Without(fs0, ev) && rows == rows0 - Keys(ev)
    && total == Total(rows0) - Sum(ev)
    && AboveAtRows(fs0, keepLinked, sorted, i, Total(rows0), low)
    && AboveAtEvictions(ev, Total(rows0), low)
    && stats.considered == i && stats.skipped + |ev| == i && !stats.reachedTarget
    && stats.evicted == |Counted(fs0, keepLinked, ev)| && stats.bytesFreed == Sum(Counted(fs0, keepLinked, ev))
  }

  lemma SameEvictable(fs0: Fs, keepLinked: bool, sorted: seq<Row>, i: nat)
    requires CasOk(fs0) && i < |sorted|
    ensures var fs := Without(fs0, EvictableOf(fs0, keepLinked, sorted[..i]));
      Evictable(fs, keepLinked, sorted[i]) == Evictable(fs0, keepLinked, sorted[i])
  {
    var ev := EvictableOf(fs0, keepLinked, sorted[..i]);
    EvictableFacts(fs0, keepLinked, sorted[..i]);
    if keepLinked {
      PinnedStays(fs0, ev, sorted[i].entry.hash);
    }
  }

  lemma PassSkip(fs0: Fs, rows0: Rows, keepLinked: bool, low: nat, sorted: seq<Row>, i: nat,
                 fs: Fs, rows: Rows, total: nat, stats: Stats)
    requires PassAt(fs0, rows0, keepLinked, low, sorted, i, fs, rows, total, stats)
    requires i < |sorted| && total >= low && !Evictable(fs0, keepLinked, sorted[i])
    ensures PassAt(fs0, rows0, keepLinked, low, sorted, i + 1, fs, rows, total,
                   stats.(considered := i + 1, skipped := stats.skipped + 1))
  {
    hide Total;
    hide Sum;
    hide Keys;
    hide Counted;
    hide EvictableOf;
    hide AboveAtRows;
    hide AboveAtEvictions;
    AboveRowOneMore(fs0, keepLinked, sorted, i, Total(rows0), low);
    var ev := EvictableOf(fs0, keepLinked, sorted[..i]);
    EvictableStep(fs0, keepLinked, sorted, i);
    assert ev + [] == ev;
  }

  lemma CountedOneMore(fs0: Fs, keepLinked: bool, ev: seq<Row>, r: Row)
    ensures var counted := !keepLinked || Obj(r.entry.hash) in Without(fs0, ev).names;
      var before, after := Counted(fs0, keepLinked, ev), Counted(fs0, keepLinked, ev + [r]);
      && |after| == |before| + (if counted then 1 else 0)
      && Sum(after) == Sum(before) + (if counted then r.entry.size else 0)
  {
    TakeOneMore(fs0, map[], ev, r);
    SumOneMore(Counted(fs0, keepLinked, ev), r);
    assert Deleters(fs0, ev) + [] == Deleters(fs0, ev);
  }

  lemma NeverSaturates(fs0: Fs, keepLinked: bool, sorted: seq<Row>, i: nat)
    requires i < |sorted| && Evictable(fs0, keepLinked, sorted[i])
    ensures Sum(EvictableOf(fs0, keepLinked, sorted[..i])) + sorted[i].entry.size <= Sum(sorted)
  {
    EvictableStep(fs0, keepLinked, sorted, i);
    SumOneMore(EvictableOf(fs0, keepLinked, sorted[..i]), sorted[i]);
    EvictableFacts(fs0, keepLinked, sorted[..i + 1]);
    assert sorted == sorted[..i + 1] + sorted[i + 1..];
    SumConcat(sorted[..i + 1], sorted[i + 1..]);
  }

  lemma PassTake(fs0: Fs, rows0: Rows, keepLinked: bool, low: nat, sorted: seq<Row>, i: nat,
                 fs: Fs, rows: Rows, total: nat, stats: Stats)
    requires PassAt(fs0, rows0, keepLinked, low, sorted, i, fs, rows, total, stats)
    requires i < |sorted| && total >= low && Sum(sorted) == Total(rows0) && Evictable(fs0, keepLinked, sorted[i])
    ensures var row := sorted[i];
      var counted := !keepLinked || Obj(row.entry.hash) in fs.names;
      && row.entry.size <= total
      && PassAt(fs0, rows0, keepLinked, low, sorted, i + 1, Unlink(fs, Obj(row.entry.hash)), rows - {row.key},
                total - row.entry.size,
                stats.(considered := i + 1,
                       evicted := stats.evicted + (if counted then 1 else 0),
                       bytesFreed := stats.bytesFreed + (if counted then row.entry.size else 0)))
  {
    hide Total;
    hide Sum;
    hide Keys;
    hide Without;
    hide Counted;
    hide Evictable;
    hide EvictableOf;
    hide Unlink;
    hide AboveAtRows;
    hide AboveAtEvictions;
    hide Deleters;
    AboveRowOneMore(fs0, keepLinked, sorted, i, Total(rows0), low);
    var row, ev := sorted[i], EvictableOf(fs0, keepLinked, sorted[..i]);
    EvictableStep(fs0, keepLinked, sorted, i);
    NeverSaturates(fs0, keepLinked, sorted, i);
    TakeOneMore(fs0, rows0, ev, row);
    SumOneMore(ev, row);
    CountedOneMore(fs0, keepLinked, ev, row);
    AboveOneMore(ev, row, Total(rows0), low);
  }

  /** A pass that stops at `i`, because the total is low enough or no row is left, took exactly the rows it should. */
  lemma PassDone(fs0: Fs, rows0: Rows, keepLinked: bool, high: nat, low: nat, sorted: seq<Row>, i: nat,
                 fs: Fs, rows: Rows, total: nat, stats: Stats)
    requires PassAt(fs0, rows0, keepLinked, low, sorted, i, fs, rows, total, stats)
    requires sorted == SortByAge(SortedRows(rows0)) && high <= Total(rows0) && (i == |sorted| || total < low)
    ensures EvictableOf(fs0, keepLinked, sorted[..i]) == Taken(fs0, rows0, high, low, keepLinked)
    ensures i == Visited(fs0, keepLinked, sorted, Total(rows0), low)
  {
    var es, ev := EvictableOf(fs0, keepLinked, sorted), EvictableOf(fs0, keepLinked, sorted[..i]);
    EvictablePrefix(fs0, keepLinked, sorted, i);
    assert ev == es[..|ev|];
    forall j | 0 <= j < |ev| ensures Total(rows0) - Sum(es[..j]) >= low {
      assert es[..j] == ev[..j];
    }
    if i == |sorted| {
      assert sorted[..i] == sorted;
    }
    NeededUnique(es, Total(rows0), low, |ev|);
    VisitedUnique(fs0, keepLinked, sorted, Total(rows0), low, i);
  }

  /** Sorted rows are the rows of the map, and add up to its total. */
  lemma NothingTaken(fs: Fs, rows: Rows)
    ensures Without(fs, []) == fs && rows - Keys([]) == rows
  {
    assert Keys([]) == {} && Objects([]) == {};
  }

  lemma PassStart(fs0: Fs, rows0: Rows, keepLinked: bool, low: nat, sorted: seq<Row>)
    ensures PassAt(fs0, rows0, keepLinked, low, sorted, 0, fs0, rows0, Total(rows0), Stats(0, 0, 0, 0, false))
  {
    assert sorted[..0] == [];
    NothingTaken(fs0, rows0);
  }

  /** A row that the loop is about to take is one of the rows a pass takes. */
  lemma PassPrefix(fs0: Fs, rows0: Rows, keepLinked: bool, high: nat, low: nat, sorted: seq<Row>, i: nat)
    requires sorted == SortByAge(SortedRows(rows0)) && high <= Total(rows0)
    requires i < |sorted| && Evictable(fs0, keepLinked, sorted[i])
    requires var ev := EvictableOf(fs0, keepLinked, sorted[..i]);
      AboveAtEvictions(ev, Total(rows0), low) && Total(rows0) - Sum(ev) >= low
    ensures var taken, ev := Taken(fs0, rows0, high, low, keepLinked), EvictableOf(fs0, keepLinked, sorted[..i + 1]);
      0 < |ev| <= |taken| && ev == taken[..|ev|] && ev[|ev| - 1] == sorted[i]
  {
    hide SortByAge;
    hide SortedRows;
    hide Sum;
    hide Total;
    hide Needed;
    hide EvictableOf;
    var es, ev := EvictableOf(fs0, keepLinked, sorted), EvictableOf(fs0, keepLinked, sorted[..i]);
    EvictableStep(fs0, keepLinked, sorted, i);
    EvictablePrefix(fs0, keepLinked, sorted, i + 1);
    NeededIsShortest(es, Total(rows0), low);
    assert ev == es[..|ev|];
    assert forall j | 0 <= j <= |ev| :: es[..j] == ev[..j];
    assert ev[..|ev|] == ev;
  }

  /** The loop body: deal with the next row and keep the books. */
  method VisitNext(disk: Disk, index: Index, ghost fs0: Fs, ghost h0: Handle, ghost low: nat, keepLinked: bool,
                   sorted: seq<Row>, i: nat, total: nat, stats: Stats, ghost past: seq<Moment>)
    returns (fault: Option<Error>, total': nat, stats': Stats)
    requires index.Valid() && index.journal.disk == disk && h0.files.journal.Some?
    requires CasOk(fs0) && i < |sorted| && total >= low
    requires PassAt(fs0, h0.rows, keepLinked, low, sorted, i, disk.fs, index.rows, total, stats)
    requires index.State() == PassHandle(h0, EvictableOf(fs0, keepLinked, sorted[..i]))
    requires disk.trace == past + PassMoments(fs0, h0, keepLinked, EvictableOf(fs0, keepLinked, sorted[..i]))
    requires Sum(sorted) == Total(h0.rows)
    modifies disk, index`rows, index`count
    ensures index.Valid()
    ensures fault.Some? ==> !Fits(Remove(sorted[i].key)) && Evictable(fs0, keepLinked, sorted[i])
    ensures fault.None? ==>
      PassAt(fs0, h0.rows, keepLinked, low, sorted, i + 1, disk.fs, index.rows, total', stats')
    ensures var ev := EvictableOf(fs0, keepLinked, sorted[..i + 1]);
      && index.State() == PassHandle(h0, ev) && disk.fs == Without(fs0, ev)
      && disk.trace == past + PassMoments(fs0, h0, keepLinked, ev)
  {
    hide EvictableOf;
    hide Sum;
    hide Total;
    hide Counted;
    hide Unlink;
    hide PassHandle;
    hide PassMoments;
    hide RowMoments;
    hide AfterMutate;
    var row := sorted[i];
    ghost var h, fs, ev := index.State(), disk.fs, EvictableOf(fs0, keepLinked, sorted[..i]);
    SameEvictable(fs0, keepLinked, sorted, i);
    EvictableStep(fs0, keepLinked, sorted, i);
    assert ev + [] == ev;
    PassOneMore(fs0, h0, keepLinked, ev, row);
    TakeOneMore(fs0, h0.rows, ev, row);
    ghost var done, more := PassMoments(fs0, h0, keepLinked, ev), RowMoments(fs, h, keepLinked, row);
    assert past + (done + more) == (past + done) + more;
    hide Deleters;
    hide VisitOf;
    hide Without;
    hide Keys;
    VisitCases(fs, keepLinked, row);
    var v := VisitRow(disk, index, row, keepLinked);
    fault, total', stats' := None, total, stats.(considered := stats.considered + 1);
    if v.Skipped? {
      PassSkip(fs0, h0.rows, keepLinked, low, sorted, i, fs, h.rows, total, stats);
      stats' := stats'.(skipped := stats.skipped + 1);
    } else {
      PassTake(fs0, h0.rows, keepLinked, low, sorted, i, fs, h.rows, total, stats);
      RemovedRows(h, row.key);
      total' := Subtract(total, row.entry.size);
      if v.Evicted? {
        stats' := stats'.(evicted := stats.evicted + 1, bytesFreed := stats.bytesFreed + row.entry.size);
      }
      fault := if v.Failed? then Some(v.error) else None;
    }
  }

  /** What a finished pass reports. */
  ghost predicate Reports(fs0: Fs, rows0: Rows, high: nat, low: nat, keepLinked: bool, stats: Stats) {
    var taken := Taken(fs0, rows0, high, low, keepLinked);
    var sorted := SortByAge(SortedRows(rows0));
    && stats.evicted == |Counted(fs0, keepLinked, taken)| && stats.bytesFreed == Sum(Counted(fs0, keepLinked, taken))
    && stats.reachedTarget == (Total(rows0) < high || Total(rows0) - Sum(taken) < low)
    && (if Total(rows0) < high then stats.considered == 0 && stats.skipped == 0
        else
          var visited := Visited(fs0, keepLinked, sorted, Total(rows0), low);
          && stats.considered == (if visited < |sorted| then visited + 1 else visited)
          && stats.skipped + |taken| == visited)
  }

  /** Rows go one by one until the total is below `low` or none is left; `n` rows have been dealt with. */
  method RemoveOldest(disk: Disk, index: Index, ghost fs0: Fs, ghost h0: Handle, low: nat, keepLinked: bool,
                      sorted: seq<Row>, total: nat)
    returns (n: nat, fault: Option<Error>, total': nat, stats: Stats)
    requires index.Valid() && index.journal.disk == disk && CasOk(fs0)
    requires disk.fs == fs0 && index.State() == h0 && total == Total(h0.rows) == Sum(sorted)
    modifies disk, index`rows, index`count
    ensures index.Valid() && n <= |sorted|
    ensures var ev := EvictableOf(fs0, keepLinked, sorted[..n]);
      && index.State() == PassHandle(h0, ev) && disk.fs == Without(fs0, ev)
      && disk.trace == old(disk.trace) + PassMoments(fs0, h0, keepLinked, ev)
    ensures fault.None? ==> PassAt(fs0, h0.rows, keepLinked, low, sorted, n, disk.fs, index.rows, total', stats)
    ensures fault.None? ==> n == |sorted| || total' < low
    ensures fault.Some? ==> FailedAt(fs0, h0.rows, keepLinked, low, sorted, n)
  {
    hide PassAt;
    hide Sum;
    hide Total;
    hide EvictableOf;
    hide PassHandle;
    hide PassMoments;
    n, fault, total', stats := 0, None, total, Stats(0, 0, 0, 0, false);
    PassStart(fs0, h0.rows, keepLinked, low, sorted);
    PassBegins(fs0, h0, keepLinked, sorted);
    assert old(disk.trace) + [] == old(disk.trace);
    while n < |sorted| && total' >= low
      invariant n <= |sorted| && index.Valid() && fault.None?
      invariant PassAt(fs0, h0.rows, keepLinked, low, sorted, n, disk.fs, index.rows, total', stats)
      invariant index.State() == PassHandle(h0, EvictableOf(fs0, keepLinked, sorted[..n]))
      invariant disk.fs == Without(fs0, EvictableOf(fs0, keepLinked, sorted[..n]))
      invariant disk.trace
             == old(disk.trace) + PassMoments(fs0, h0, keepLinked, EvictableOf(fs0, keepLinked, sorted[..n]))
    {
      PassBooks(fs0, h0.rows, keepLinked, low, sorted, n, disk.fs, index.rows, total', stats);
      fault, total', stats := VisitNext(disk, index, fs0, h0, low, keepLinked, sorted, n, total', stats,
                                         old(disk.trace));
      n := n + 1;
      if fault.Some? {
        return;
      }
    }
  }

  /** The pass gave up on the last of the first `n` rows, whose removal cannot be journaled. */
  ghost predicate FailedAt(fs0: Fs, rows0: Rows, keepLinked: bool, low: nat, sorted: seq<Row>, n: nat) {
    && 0 < n <= |sorted| && !Fits(Remove(sorted[n - 1].key)) && Evictable(fs0, keepLinked, sorted[n - 1])
    && var ev := EvictableOf(fs0, keepLinked, sorted[..n - 1]);
      AboveAtEvictions(ev, Total(rows0), low) && Total(rows0) - Sum(ev) >= low
  }

  lemma PassBegins(fs0: Fs, h0: Handle, keepLinked: bool, sorted: seq<Row>)
    requires h0.files.journal.Some?
    ensures EvictableOf(fs0, keepLinked, sorted[..0]) == [] && PassHandle(h0, []) == h0
    ensures PassMoments(fs0, h0, keepLinked, []) == [] && Without(fs0, []) == fs0
  {
    NothingTaken(fs0, h0.rows);
  }

  lemma FailedInTaken(fs0: Fs, rows0: Rows, keepLinked: bool, high: nat, low: nat, sorted: seq<Row>, i: nat)
    returns (n: nat)
    requires FailedAt(fs0, rows0, keepLinked, low, sorted, i)
    requires sorted == SortByAge(SortedRows(rows0)) && high <= Total(rows0)
    ensures var taken := Taken(fs0, rows0, high, low, keepLinked);
      0 < n <= |taken| && EvictableOf(fs0, keepLinked, sorted[..i]) == taken[..n] && !Fits(Remove(taken[n - 1].key))
  {
    hide EvictableOf;
    hide Taken;
    hide SortByAge;
    hide SortedRows;
    PassPrefix(fs0, rows0, keepLinked, high, low, sorted, i - 1);
    n := |EvictableOf(fs0, keepLinked, sorted[..i])|;
  }

  /** However far a pass got, every moment on the way is one at which it may stop. */
  lemma PartialPass(fs: Fs, h: Handle, high: nat, low: nat, keepLinked: bool, k: nat, m: Moment)
    requires h.files.journal.Some? && k <= |Taken(fs, h.rows, high, low, keepLinked)|
    requires m in PassMoments(fs, h, keepLinked, Taken(fs, h.rows, high, low, keepLinked)[..k])
    ensures GcCrash(fs, h, high, low, keepLinked, m)
  {
    PassMomentsPrefix(fs, h, keepLinked, Taken(fs, h.rows, high, low, keepLinked), k);
  }

  ghost predicate AllSafe(moments: seq<Moment>, fs: Fs, rows: Rows) { forall m <- moments :: NoNewOrphans(m, fs, rows) }

  lemma PassTraceSafe(fs: Fs, h: Handle, high: nat, low: nat, keepLinked: bool, k: nat,
                      past: seq<Moment>, trace: seq<Moment>)
    requires h.files.journal.Some? && k <= |Taken(fs, h.rows, high, low, keepLinked)|
    requires trace == past + PassMoments(fs, h, keepLinked, Taken(fs, h.rows, high, low, keepLinked)[..k])
    ensures InStep(h) ==> AllSafe(trace[|past|..], fs, h.rows)
  {
    hide InStep;
    hide NoNewOrphans;
    hide GcCrash;
    hide PassMoments;
    hide Taken;
    if InStep(h) {
      forall m <- trace[|past|..] ensures NoNewOrphans(m, fs, h.rows) {
        PartialPass(fs, h, high, low, keepLinked, k, m);
        GcCrashSafe(fs, h, high, low, keepLinked, m);
      }
    }
  }

  lemma PassKeepsStep(fs: Fs, h: Handle, high: nat, low: nat, keepLinked: bool)
    requires h.files.journal.Some?
    ensures var taken := Taken(fs, h.rows, high, low, keepLinked);
      InStep(h) ==> forall k | 0 <= k <= |taken| :: InStep(PassHandle(h, taken[..k]))
  {
    var taken := Taken(fs, h.rows, high, low, keepLinked);
    OpenedRowsStorable(h.files, false);
    TakenFromRows(fs, h.rows, high, low, keepLinked);
    assert InStep(h) ==> StorableKeys(h.rows);
    hide Taken;
    hide InStep;
    if InStep(h) {
      forall k | 0 <= k <= |taken| ensures InStep(PassHandle(h, taken[..k])) {
        assert forall r <- taken[..k] :: r in taken;
        PassSafe(fs, h, taken[..k]);
      }
    }
  }

  lemma NothingReported(fs: Fs, rows: Rows, high: nat, low: nat, keepLinked: bool)
    ensures Total(rows) < high ==> Reports(fs, rows, high, low, keepLinked, Stats(0, 0, 0, 0, true))
  {
  }

  lemma TotalIs(rows: Rows)
    ensures Total(rows) == Sum(SortedRows(rows))
  {
  }

  /** What the books say after `i` rows. */
  lemma PassBooks(fs0: Fs, rows0: Rows, keepLinked: bool, low: nat, sorted: seq<Row>, i: nat,
                  fs: Fs, rows: Rows, total: nat, stats: Stats)
    requires PassAt(fs0, rows0, keepLinked, low, sorted, i, fs, rows, total, stats)
    ensures var ev := EvictableOf(fs0, keepLinked, sorted[..i]);
      && rows == rows0 - Keys(ev) && total == Total(rows0) - Sum(ev)
      && AboveAtEvictions(ev, Total(rows0), low)
      && stats.considered == i && stats.skipped + |ev| == i && !stats.reachedTarget
      && stats.evicted == |Counted(fs0, keepLinked, ev)| && stats.bytesFreed == Sum(Counted(fs0, keepLinked, ev))
  {
  }

  /** One pass. It deals with the first `n` of the rows in `Taken`, with all of them unless one cannot be journaled, and
      the disk goes through exactly the moments that `PassMoments` lists. */
  method RunGc(disk: Disk, index: Index, high: nat, low: nat, keepLinked: bool)
    returns (r: Result<Stats>, ghost n: nat)
    requires CasOk(disk.fs) && index.Valid() && index.journal.disk == disk
    modifies disk, index`rows, index`count
    ensures index.Valid()
    ensures var h, taken := old(index.State()), Taken(old(disk.fs), old(index.rows), high, low, keepLinked);
      && n <= |taken| && (if r.Ok? then n == |taken| else n > 0 && !Fits(Remove(taken[n - 1].key)))
      && disk.fs == Without(old(disk.fs), taken[..n]) && index.State() == PassHandle(h, taken[..n])
      && disk.trace == old(disk.trace) + PassMoments(old(disk.fs), h, keepLinked, taken[..n])
      && (r.Ok? ==> index.rows == h.rows - Keys(taken))
    ensures r.Ok? ==> Reports(old(disk.fs), old(index.rows), high, low, keepLinked, r.value)
    ensures r.Ok? && !r.value.reachedTarget ==>
      forall k <- index.rows :: keepLinked && Shared(old(disk.fs), index.rows[k].hash)
    ensures old(InStep(index.State())) ==> InStep(index.State())
    ensures old(InStep(index.State())) ==>
      |old(disk.trace)| <= |disk.trace| && AllSafe(disk.trace[|old(disk.trace)|..], old(disk.fs), old(index.rows))
  {
    hide PassAt;
    hide Sum;
    hide Total;
    hide EvictableOf;
    hide PassHandle;
    hide PassMoments;
    hide InStep;
    hide AllSafe;
    hide Reports;
    hide Shared;
    hide SortByAge;
    hide FailedAt;
    ghost var fs0, h0 := disk.fs, index.State();
    var entries := index.Entries();
    var total: nat := Sum(entries);
    TotalIs(h0.rows);
    var stats := Stats(0, 0, 0, 0, false);
    ghost var taken := Taken(fs0, h0.rows, high, low, keepLinked);
    PassKeepsStep(fs0, h0, high, low, keepLinked);
    if total < high {
      n := 0;
      PassBegins(fs0, h0, keepLinked, []);
      NothingTaken(fs0, h0.rows);
      NothingReported(fs0, h0.rows, high, low, keepLinked);
      assert taken == [] && taken[..0] == [];
      PassTraceSafe(fs0, h0, high, low, keepLinked, n, old(disk.trace), disk.trace);
      return Ok(stats.(reachedTarget := true)), n;
    }
    var sorted := SortByAge(entries);
    SortedFacts(h0.rows);
    var i, fault;
    i, fault, total, stats := RemoveOldest(disk, index, fs0, h0, low, keepLinked, sorted, total);
    if fault.Some? {
      n := FailedInTaken(fs0, h0.rows, keepLinked, high, low, sorted, i);
      PassTraceSafe(fs0, h0, high, low, keepLinked, n, old(disk.trace), disk.trace);
      return Err(fault.value), n;
    }
    n := |taken|;
    assert taken[..n] == taken;
    ghost var books := stats;
    if i < |sorted| {
      stats := stats.(considered := stats.considered + 1);
    }
    stats := if total < low then stats.(reachedTarget := true) else stats;
    PassFinished(fs0, h0.rows, keepLinked, high, low, sorted, i, disk.fs, index.rows, total, books, stats);
    PassTraceSafe(fs0, h0, high, low, keepLinked, n, old(disk.trace), disk.trace);
    StillOver(fs0, h0.rows, high, low, keepLinked, stats);
    r := Ok(stats);
  }

  /** A pass that does not reach its target leaves only rows whose blobs have a second name. */
  lemma StillOver(fs0: Fs, rows0: Rows, high: nat, low: nat, keepLinked: bool, stats: Stats)
    requires Reports(fs0, rows0, high, low, keepLinked, stats)
    ensures !stats.reachedTarget ==>
      forall k <- rows0 - Keys(Taken(fs0, rows0, high, low, keepLinked)) :: keepLinked && Shared(fs0, rows0[k].hash)
  {
    hide Sum;
    hide Total;
    hide Taken;
    hide Shared;
    if !stats.reachedTarget {
      var left := rows0 - Keys(Taken(fs0, rows0, high, low, keepLinked));
      TotalAfterPass(fs0, rows0, high, low, keepLinked);
      forall k <- left ensures keepLinked && Shared(fs0, rows0[k].hash) {
        LeftOnlyIfShared(fs0, rows0, high, low, keepLinked, k);
      }
    }
  }

  /** The number of evictions a pass reports: the blobs it removed, or all its rows if it does not look for them. */
  lemma ReportedEvictions(fs0: Fs, rows0: Rows, high: nat, low: nat, keepLinked: bool, stats: Stats)
    requires Reports(fs0, rows0, high, low, keepLinked, stats)
    ensures var taken := Taken(fs0, rows0, high, low, keepLinked);
      stats.evicted == if keepLinked then |Objects(taken) * fs0.names.Keys| else |taken|
  {
    hide Taken;
    hide Visited;
    DeletersAre(fs0, Taken(fs0, rows0, high, low, keepLinked));
  }

  lemma {:induction false} DeletersAre(fs: Fs, ev: seq<Row>)
    ensures |Deleters(fs, ev)| == |Objects(ev) * fs.names.Keys|
  {
    hide Objects;
    hide Deleters;
    if ev == [] {
      NoObjects(fs);
    } else {
      var n := |ev| - 1;
      DeletersAre(fs, ev[..n]);
      assert ev == ev[..n] + [ev[n]];
      DeletersOneMore(fs, ev[..n], ev[n]);
      ObjectsOneMore(ev[..n], ev[n]);
      OneMoreIn(Objects(ev[..n]), Obj(ev[n].entry.hash), fs.names.Keys);
    }
  }

  lemma NoObjects(fs: Fs)
    ensures Objects([]) == {} && Deleters(fs, []) == []
  {
  }

  lemma DeletersOneMore(fs: Fs, ev: seq<Row>, r: Row)
    ensures |Deleters(fs, ev + [r])|
         == |Deleters(fs, ev)| + (if Obj(r.entry.hash) in fs.names.Keys - Objects(ev) then 1 else 0)
  {
    assert (ev + [r])[..|ev|] == ev;
    hide Objects;
  }

  lemma ObjectsOneMore(ev: seq<Row>, r: Row)
    ensures Objects(ev + [r]) == Objects(ev) + {Obj(r.entry.hash)}
  {
  }

  lemma OneMoreIn(s: set<Name>, x: Name, all: set<Name>)
    ensures |(s + {x}) * all| == |s * all| + (if x in all - s then 1 else 0)
  {
    assert (s + {x}) * all == s * all + (if x in all - s then {x} else {});
  }

  lemma PassFinished(fs0: Fs, rows0: Rows, keepLinked: bool, high: nat, low: nat, sorted: seq<Row>, i: nat,
                     fs: Fs, rows: Rows, total: nat, books: Stats, stats: Stats)
    requires PassAt(fs0, rows0, keepLinked, low, sorted, i, fs, rows, total, books)
    requires sorted == SortByAge(SortedRows(rows0)) && high <= Total(rows0) && (i == |sorted| || total < low)
    requires stats == books.(considered := if i < |sorted| then books.considered + 1 else books.considered,
                             reachedTarget := books.reachedTarget || total < low)
    ensures var taken := Taken(fs0, rows0, high, low, keepLinked);
      && EvictableOf(fs0, keepLinked, sorted[..i]) == taken && rows == rows0 - Keys(taken)
      && Reports(fs0, rows0, high, low, keepLinked, stats)
  {
    hide Sum;
    hide Total;
    hide EvictableOf;
    hide SortByAge;
    hide SortedRows;
    hide Taken;
    hide Visited;
    PassDone(fs0, rows0, keepLinked, high, low, sorted, i, fs, rows, total, books);
    PassBooks(fs0, rows0, keepLinked, low, sorted, i, fs, rows, total, books);
    hide PassAt;
    PassReports(fs0, rows0, high, low, keepLinked, sorted, i, stats);
  }

  lemma PassReports(fs0: Fs, rows0: Rows, high: nat, low: nat, keepLinked: bool, sorted: seq<Row>, i: nat, stats: Stats)
    requires i <= |sorted| && sorted == SortByAge(SortedRows(rows0)) && high <= Total(rows0)
    requires i == Visited(fs0, keepLinked, sorted, Total(rows0), low)
    requires var taken := Taken(fs0, rows0, high, low, keepLinked);
      && stats.considered == (if i < |sorted| then i + 1 else i) && stats.skipped + |taken| == i
      && stats.reachedTarget == (Total(rows0) - Sum(taken) < low)
      && stats.evicted == |Counted(fs0, keepLinked, taken)| && stats.bytesFreed == Sum(Counted(fs0, keepLinked, taken))
    ensures Reports(fs0, rows0, high, low, keepLinked, stats)
  {
  }
}
