/** The scan that brings index and blobs back together after damage. */
module Recovery {
  import opened Bytes
  import opened Records
  import opened KeyOrder
  import opened Framing
  import opened Mutations
  import opened IndexFiles
  import opened IndexRuns
  import opened IndexHandle
  import opened BlobStore
  import opened Disks
  import opened GcSpec
  import opened Gc

  datatype Orphan = Orphan(hash: Digest, size: nat)
  datatype Report = Report(orphans: seq<Orphan>, orphanBytes: nat, dangling: nat)

  /** Rows whose blob is gone. */
  function Dangling(fs: Fs, rows: Rows): set<Key> { set k | k in rows && !Backed(fs, rows[k]) }

  function Recovered(fs: Fs, rows: Rows): Rows { rows - Dangling(fs, rows) }

  function OrphanSize(os: seq<Orphan>): nat { if os == [] then 0 else os[|os| - 1].size + OrphanSize(os[..|os| - 1]) }

  /** After a scan every row is backed; a second scan finds nothing dangling, and the same orphans as the first. */
  lemma SecondScan(fs: Fs, rows: Rows)
    ensures Dangling(fs, Recovered(fs, rows)) == {}
    ensures Recovered(fs, Recovered(fs, rows)) == Recovered(fs, rows)
    ensures Orphans(fs, Recovered(fs, rows)) == Orphans(fs, rows)
  {
    var rows1 := Recovered(fs, rows);
    forall h | h in Orphans(fs, rows1) ensures h in Orphans(fs, rows) {
      forall k <- rows ensures rows[k].hash != h {
        if k in rows1 { assert rows1[k].hash != h; }
      }
    }
  }

  /** Every object is referenced by a recovered row or is an orphan, never both. */
  lemma ScanSplitsObjects(fs: Fs, rows: Rows, h: Digest)
    ensures Obj(h) in fs.names <==>
      (h in Orphans(fs, rows) || exists k <- Recovered(fs, rows) :: rows[k].hash == h)
    ensures !(h in Orphans(fs, rows) && exists k <- Recovered(fs, rows) :: rows[k].hash == h)
  {
    if Obj(h) in fs.names && h !in Orphans(fs, rows) {
      var k :| k in rows && rows[k].hash == h;
      assert k in Recovered(fs, rows);
    }
  }

  /** A pass over rows that all had their blobs leaves a surviving row without one exactly when it shares its hash with
      a row the pass took; the scan then drops exactly those rows. */
  lemma GcThenScan(fs: Fs, rows: Rows, high: nat, low: nat, keepLinked: bool)
    requires forall k <- rows :: Backed(fs, rows[k])
    ensures var taken := Taken(fs, rows, high, low, keepLinked);
      var fs1, rows1 := Without(fs, taken), rows - Keys(taken);
      && (forall k <- rows1 :: !Backed(fs1, rows1[k]) <==> exists r <- taken :: r.entry.hash == rows1[k].hash)
      && (forall k :: k in Recovered(fs1, rows1) <==>
            k in rows1 && forall r <- taken :: r.entry.hash != rows1[k].hash)
      && Orphans(fs1, Recovered(fs1, rows1)) <= Orphans(fs, rows)
  {
    var taken := Taken(fs, rows, high, low, keepLinked);
    var fs1, rows1 := Without(fs, taken), rows - Keys(taken);
    forall k <- rows1
      ensures !Backed(fs1, rows1[k]) <==> exists r <- taken :: r.entry.hash == rows1[k].hash
    {
      assert Obj(rows1[k].hash) in Objects(taken) <==> exists r <- taken :: r.entry.hash == rows1[k].hash;
    }
    SecondScan(fs1, rows1);
    TakenFromRows(fs, rows, high, low, keepLinked);
    PartialPassBlobsFirst(fs, rows, taken, []);
    assert taken + [] == taken;
    BlobsFirstNoNewOrphans(fs, rows, fs1, rows1);
  }

  // ---- the scan ----

  function Lost(fs: Fs, rs: seq<Row>): set<Key> { set r | r in rs && !Backed(fs, r.entry) :: r.key }
  function Held(fs: Fs, rs: seq<Row>): set<Digest> { set r | r in rs && Backed(fs, r.entry) :: r.entry.hash }

  /** Keys that a removal can be journaled for. */
  function Removable(keys: set<Key>): set<Key> { set k | k in keys && Fits(Remove(k)) }

  lemma WalkStep(fs: Fs, rs: seq<Row>, i: nat)
    requires i < |rs|
    ensures Lost(fs, rs[..i + 1]) == Lost(fs, rs[..i]) + (if Backed(fs, rs[i].entry) then {} else {rs[i].key})
    ensures Held(fs, rs[..i + 1]) == Held(fs, rs[..i]) + (if Backed(fs, rs[i].entry) then {rs[i].entry.hash} else {})
    ensures KeySorted(rs) ==> rs[i].key !in Lost(fs, rs[..i])
  {
    assert rs[..i + 1] == rs[..i] + [rs[i]];
  }

  lemma WalkAll(fs: Fs, rows: Rows)
    ensures Lost(fs, SortedRows(rows)) == Dangling(fs, rows)
    ensures Held(fs, SortedRows(rows)) == set k | k in rows && Backed(fs, rows[k]) :: rows[k].hash
  {
    var rs := SortedRows(rows);
    SortedRowsList(rows);
    forall k <- rows ensures Row(k, rows[k]) in rs {
    }
    forall k | k in rows && !Backed(fs, rows[k]) ensures k in Lost(fs, rs) {
      assert Row(k, rows[k]).key == k;
    }
    forall k | k in rows && Backed(fs, rows[k]) ensures rows[k].hash in Held(fs, rs) {
      assert Row(k, rows[k]).entry.hash == rows[k].hash;
    }
  }

  lemma RemovableStep(rows: Rows, keys: set<Key>, k: Key, h: Handle)
    requires h.rows == rows - Removable(keys) && h.files.journal.Some?
    ensures Step(h, Mutate(Remove(k), GRANTED)).rows == rows - Removable(keys + {k})
  {
    assert Removable(keys + {k}) == Removable(keys) + (if Fits(Remove(k)) then {k} else {});
  }

  /** Removes one row; a removal that fails is ignored. */
  method DropRow(disk: Disk, index: Index, row: Row, ghost rows: Rows, ghost lost: set<Key>)
    requires index.Valid() && index.journal.disk == disk
    requires row in SortedRows(rows) && index.rows == rows - Removable(lost)
    modifies index`rows, index`count, disk`files, disk`trace
    ensures index.Valid() && index.rows == rows - Removable(lost + {row.key})
    ensures old(InStep(index.State())) && StorableKeys(rows) ==> InStep(index.State())
  {
    hide Step;
    hide Outcome;
    hide StatesOf;
    hide InStep;
    hide SortedRows;
    RemovableStep(rows, lost, row.key, index.State());
    RemoveInStep(rows, row, index.State());
    var ignored := index.Remove(row.key, GRANTED);
  }

  /** The first `i` rows have been walked: what was remembered, counted and removed. */
  ghost predicate Walked(fs: Fs, rows: Rows, i: nat, indexed: set<Digest>, dangling: nat, left: Rows)
    requires i <= |SortedRows(rows)|
  {
    var seen := SortedRows(rows)[..i];
    indexed == Held(fs, seen) && dangling == |Lost(fs, seen)| && left == rows - Removable(Lost(fs, seen))
  }

  lemma WalkBegins(fs: Fs, h: Handle)
    ensures Walked(fs, h.rows, 0, {}, 0, h.rows)
    ensures InStep(h) ==> StorableKeys(h.rows)
  {
    assert SortedRows(h.rows)[..0] == [];
    OpenedRowsStorable(h.files, false);
  }

  lemma WalkOne(fs: Fs, rows: Rows, i: nat, indexed: set<Digest>, dangling: nat, left: Rows)
    requires i < |SortedRows(rows)| && Walked(fs, rows, i, indexed, dangling, left)
    ensures left == rows - Removable(Lost(fs, SortedRows(rows)[..i]))
    ensures var row, lost := SortedRows(rows)[i], Lost(fs, SortedRows(rows)[..i]);
      if Backed(fs, row.entry)
      then Walked(fs, rows, i + 1, indexed + {row.entry.hash}, dangling, left)
      else Walked(fs, rows, i + 1, indexed, dangling + 1, rows - Removable(lost + {row.key}))
  {
    hide Lost;
    hide Held;
    hide Removable;
    SortedRowsOrdered(rows);
    WalkStep(fs, SortedRows(rows), i);
  }

  lemma WalkEnds(fs: Fs, rows: Rows, indexed: set<Digest>, dangling: nat, left: Rows)
    requires Walked(fs, rows, |SortedRows(rows)|, indexed, dangling, left)
    ensures indexed == Held(fs, SortedRows(rows)) && dangling == |Dangling(fs, rows)|
    ensures left == rows - Removable(Dangling(fs, rows))
  {
    WalkAll(fs, rows);
    assert SortedRows(rows)[..|SortedRows(rows)|] == SortedRows(rows);
  }

  /** Walks the index: rows with a blob are remembered, the others removed. A removal that fails is ignored. */
  method DropDangling(disk: Disk, index: Index) returns (indexed: set<Digest>, dangling: nat)
    requires index.Valid() && index.journal.disk == disk
    modifies index`rows, index`count, disk`files, disk`trace
    ensures indexed == Held(disk.fs, SortedRows(old(index.rows)))
    ensures dangling == |Dangling(disk.fs, old(index.rows))|
    ensures index.rows == old(index.rows) - Removable(Dangling(disk.fs, old(index.rows)))
    ensures old(InStep(index.State())) ==> InStep(index.State())
    ensures index.Valid()
  {
    hide Lost;
    hide Held;
    hide Removable;
    hide InStep;
    hide Backed;
    hide SortedRows;
    hide Dangling;
    hide KeySorted;
    hide StorableKeys;
    hide Index.Valid;
    hide Walked;
    ghost var rows0, inStep := index.rows, InStep(index.State());
    var entries := index.Entries();
    WalkBegins(disk.fs, index.State());
    indexed, dangling := {}, 0;
    for i := 0 to |entries|
      invariant index.Valid()
      invariant Walked(disk.fs, rows0, i, indexed, dangling, index.rows)
      invariant inStep ==> InStep(index.State())
    {
      var row := entries[i];
      WalkOne(disk.fs, rows0, i, indexed, dangling, index.rows);
      if Backed(disk.fs, row.entry) {
        indexed := indexed + {row.entry.hash};
      } else {
        DropRow(disk, index, row, rows0, Lost(disk.fs, entries[..i]));
        dangling := dangling + 1;
      }
    }
    WalkEnds(disk.fs, rows0, indexed, dangling, index.rows);
  }

  lemma RemoveInStep(rows: Rows, row: Row, h: Handle)
    requires h.files.journal.Some? && row in SortedRows(rows)
    ensures InStep(h) && StorableKeys(rows) ==> InStep(Step(h, Mutate(Remove(row.key), GRANTED)))
    ensures Step(h, Mutate(Remove(row.key), GRANTED)).files.journal.Some?
  {
    SortedRowsList(rows);
    if InStep(h) && StorableKeys(rows) {
      StepAgrees(h, Mutate(Remove(row.key), GRANTED));
    }
  }

  function Hashes(os: seq<Orphan>): set<Digest> { set o | o in os :: o.hash }

  /** Each orphan once, with its size. */
  ghost predicate Distinct(os: seq<Orphan>, fs: Fs) {
    && (forall i, j | 0 <= i < j < |os| :: os[i].hash != os[j].hash)
    && (forall o <- os :: Obj(o.hash) in fs.names && fs.names[Obj(o.hash)] in fs.data
                          && o.size == |fs.data[fs.names[Obj(o.hash)]]|)
  }

  lemma OneMoreOrphan(os: seq<Orphan>, fs: Fs, h: Digest)
    requires CasOk(fs) && Distinct(os, fs) && h !in Hashes(os) && Obj(h) in fs.names
    ensures var o := Orphan(h, |fs.data[fs.names[Obj(h)]]|);
      && Distinct(os + [o], fs) && Hashes(os + [o]) == Hashes(os) + {h}
      && OrphanSize(os + [o]) == OrphanSize(os) + o.size
  {
    hide OrphanSize;
    var o := Orphan(h, |fs.data[fs.names[Obj(h)]]|);
    OneMoreHash(os, o);
    OneMoreSize(os, o);
    hide Hashes;
  }

  lemma OneMoreHash(os: seq<Orphan>, o: Orphan)
    ensures Hashes(os + [o]) == Hashes(os) + {o.hash}
    ensures forall i | 0 <= i < |os| :: os[i].hash in Hashes(os)
  {
    assert o in os + [o] && forall x <- os :: x in os + [o];
  }

  lemma OneMoreSize(os: seq<Orphan>, o: Orphan)
    ensures OrphanSize(os + [o]) == OrphanSize(os) + o.size
  {
    assert (os + [o])[..|os|] == os;
  }

  /** Walks the objects, in whatever order the directory gives them. */
  method ListOrphans(fs: Fs, indexed: set<Digest>) returns (orphans: seq<Orphan>, bytes: nat)
    requires CasOk(fs)
    ensures Distinct(orphans, fs)
    ensures forall h :: h in Hashes(orphans) <==> Obj(h) in fs.names && h !in indexed
    ensures bytes == OrphanSize(orphans)
  {
    hide Distinct;
    hide Hashes;
    hide OrphanSize;
    orphans, bytes := [], 0;
    NoOrphansYet(fs);
    var todo := set n | n in fs.names && n.Obj?;
    while todo != {}
      invariant forall n <- todo :: n in fs.names && n.Obj?
      invariant Distinct(orphans, fs) && bytes == OrphanSize(orphans)
      invariant forall h :: h in Hashes(orphans) <==> Obj(h) in fs.names && Obj(h) !in todo && h !in indexed
    {
      var n :| n in todo;
      if n.hash !in indexed {
        OneMoreOrphan(orphans, fs, n.hash);
        var o := Orphan(n.hash, |fs.data[fs.names[n]]|);
        orphans := orphans + [o];
        bytes := bytes + o.size;
      }
      todo := todo - {n};
    }
  }

  lemma NoOrphansYet(fs: Fs)
    ensures Distinct([], fs) && Hashes([]) == {} && OrphanSize([]) == 0
  {
  }

  /** The whole scan: dangling rows dropped, orphans reported with their bytes. */
  method ScanAndRecover(disk: Disk, index: Index) returns (report: Report)
    requires CasOk(disk.fs) && index.Valid() && index.journal.disk == disk
    modifies index`rows, index`count, disk`files, disk`trace
    ensures report.dangling == |Dangling(disk.fs, old(index.rows))|
    ensures (forall k <- old(index.rows) :: Fits(Remove(k))) ==>
      index.rows == Recovered(disk.fs, old(index.rows))
    ensures Distinct(report.orphans, disk.fs)
    ensures forall h :: h in Hashes(report.orphans) <==> h in Orphans(disk.fs, old(index.rows))
    ensures report.orphanBytes == OrphanSize(report.orphans)
    ensures old(InStep(index.State())) ==> InStep(index.State())
  {
    hide Held;
    hide Dangling;
    hide InStep;
    ghost var fs, rows0 := disk.fs, index.rows;
    var indexed, dangling := DropDangling(disk, index);
    assert (forall k <- rows0 :: Fits(Remove(k))) ==> Removable(Dangling(fs, rows0)) == Dangling(fs, rows0) by {
      AllRemovable(fs, rows0);
    }
    var orphans, bytes := ListOrphans(disk.fs, indexed);
    OrphansAreUnheld(fs, rows0);
    report := Report(orphans, bytes, dangling);
  }

  lemma AllRemovable(fs: Fs, rows: Rows)
    ensures (forall k <- rows :: Fits(Remove(k))) ==> Removable(Dangling(fs, rows)) == Dangling(fs, rows)
  {
  }

  lemma OrphansAreUnheld(fs: Fs, rows: Rows)
    ensures forall h :: h in Orphans(fs, rows) <==> Obj(h) in fs.names && h !in Held(fs, SortedRows(rows))
  {
    WalkAll(fs, rows);
    forall h ensures h in Orphans(fs, rows) <==> Obj(h) in fs.names && h !in Held(fs, SortedRows(rows)) {
      if Obj(h) in fs.names && h !in Held(fs, SortedRows(rows)) {
        assert forall k <- rows :: Backed(fs, rows[k]) ==> rows[k].hash in Held(fs, SortedRows(rows));
      }
    }
  }
}
