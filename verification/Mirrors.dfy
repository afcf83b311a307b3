/** Artifacts mirrored into the Maven repository layout as hard links to their blobs. */
module Mirrors {
  import opened Bytes
  import opened Records
  import opened KeyOrder
  import opened BlobStore
  import opened Disks
  import opened GcSpec
  import opened Recovery

  function BytesOf(fs: Fs, inode: nat): Bytes { if inode in fs.data then fs.data[inode] else [] }

  /** What the system says to a link: it can be made, or the destination is on another device and `inode` is what a copy
      gets there. */
  datatype Reach = SameDevice | OtherDevice(inode: nat)

  /** The file system after mirroring object `h` at `dest`; `None` if there is no such object. A mirror that shares the
      object's inode already is left alone. */
  function Materialized(fs: Fs, h: Digest, dest: string, reach: Reach): Option<Fs> {
    if Obj(h) !in fs.names then None else
    var i := fs.names[Obj(h)];
    if reach.SameDevice? || (Mirror(dest) in fs.names && fs.names[Mirror(dest)] == i)
    then Some(fs.(names := fs.names[Mirror(dest) := i]))
    else Some(Fs(fs.names[Mirror(dest) := reach.inode], fs.data[reach.inode := BytesOf(fs, i)]))
  }

  /** Links the object, replacing what was at `dest`; copies its bytes if the link would cross devices. */
  method Materialize(disk: Disk, h: Digest, dest: string, reach: Reach) returns (found: bool)
    requires disk.Valid() && CasOk(disk.fs)
    modifies disk`fs, disk`trace
    ensures disk.Valid() && found == Materialized(old(disk.fs), h, dest, reach).Some?
    ensures disk.fs == if found then Materialized(old(disk.fs), h, dest, reach).value else old(disk.fs)
    ensures found && reach.SameDevice? ==> disk.fs.names[Mirror(dest)] == disk.fs.names[Obj(h)]
    ensures found && (reach.OtherDevice? ==> reach.inode !in old(disk.fs).data) ==>
      var i := disk.fs.names[Mirror(dest)]; i in disk.fs.data && Sha256(disk.fs.data[i]) == h
  {
    if Obj(h) !in disk.fs.names {
      return false;
    }
    found := true;
    var inode := disk.fs.names[Obj(h)];
    if Mirror(dest) in disk.fs.names {
      if disk.fs.names[Mirror(dest)] == inode {
        return;
      }
      var there := disk.Remove(Mirror(dest));
    }
    match reach
    case SameDevice => disk.Link(Mirror(dest), inode);
    case OtherDevice(copy) => disk.Place(Mirror(dest), copy, BytesOf(disk.fs, inode));
  }

  /** `links` remembers which object each mirror that is still in place was made from. */
  datatype World = World(fs: Fs, rows: Rows, links: map<string, Digest>)

  datatype Op =
    | PutBlob(bytes: Bytes, inode: nat)   // stored under an inode the file system picks
    | PutRow(key: Key, entry: Entry)
    | RemoveRow(key: Key)
    | Mirrored(hash: Digest, dest: string, reach: Reach)
    | DeleteMirror(dest: string)
    | Collect(high: nat, low: nat)
    | Scan

  function Step(w: World, op: Op): World {
    match op
    case PutBlob(bytes, inode) =>
      var name := Obj(Sha256(bytes));
      if name in w.fs.names || inode in w.fs.data then w
      else w.(fs := Fs(w.fs.names[name := inode], w.fs.data[inode := bytes]))
    case PutRow(k, e) => w.(rows := w.rows[k := e])
    case RemoveRow(k) => w.(rows := w.rows - {k})
    case Mirrored(h, dest, reach) =>
      if reach.OtherDevice? && reach.inode in w.fs.data then w else
      (match Materialized(w.fs, h, dest, reach)
       case None => w
       case Some(fs) =>
         if fs.names[Mirror(dest)] == fs.names[Obj(h)] then w.(fs := fs, links := w.links[dest := h])
         else w.(fs := fs, links := w.links - {dest}))
    case DeleteMirror(dest) => w.(fs := Unlink(w.fs, Mirror(dest)), links := w.links - {dest})
    case Collect(high, low) =>
      var taken := Taken(w.fs, w.rows, high, low, true);
      w.(fs := Without(w.fs, taken), rows := w.rows - Keys(taken))
    case Scan => w.(rows := Recovered(w.fs, w.rows))
  }

  function Run(w: World, ops: seq<Op>): World {
    if ops == [] then w else var n := |ops| - 1; Step(Run(w, ops[..n]), ops[n])
  }

  ghost predicate Linked(w: World) {
    && CasOk(w.fs)
    && forall p <- w.links ::
         && Mirror(p) in w.fs.names && Obj(w.links[p]) in w.fs.names
         && w.fs.names[Mirror(p)] == w.fs.names[Obj(w.links[p])]
  }

  lemma CollectKeepsLinked(w: World, high: nat, low: nat)
    requires Linked(w)
    ensures Linked(Step(w, Collect(high, low)))
  {
    var sorted := SortByAge(SortedRows(w.rows));
    var taken := Taken(w.fs, w.rows, high, low, true);
    EvictableFacts(w.fs, true, sorted);
    forall p <- w.links ensures Obj(w.links[p]) !in Objects(taken) {
      TwoLinks(w.fs, Obj(w.links[p]), Mirror(p));
      assert forall r <- taken :: Evictable(w.fs, true, r);
    }
  }

  lemma StepKeepsLinked(w: World, op: Op)
    requires Linked(w)
    ensures Linked(Step(w, op))
  {
    if op.Collect? {
      CollectKeepsLinked(w, op.high, op.low);
    } else if op.Mirrored? {
      MirrorKeepsLinked(w, op);
    }
  }

  lemma MirrorKeepsLinked(w: World, op: Op)
    requires Linked(w) && op.Mirrored?
    ensures Linked(Step(w, op))
  {
  }

  lemma {:induction false} RunKeepsLinked(w: World, ops: seq<Op>)
    requires Linked(w)
    ensures Linked(Run(w, ops))
  {
    if ops != [] {
      var n := |ops| - 1;
      RunKeepsLinked(w, ops[..n]);
      StepKeepsLinked(Run(w, ops[..n]), ops[n]);
    }
  }

  /** In every run, a mirror that was neither deleted nor replaced still shares its inode with the object it was made
      from, and that inode holds bytes with that hash, however much was collected or scanned in between. */
  lemma MirrorsStayPinned(ops: seq<Op>, p: string)
    requires p in Run(World(Fs(map[], map[]), map[], map[]), ops).links
    ensures var w := Run(World(Fs(map[], map[]), map[], map[]), ops); var h := w.links[p];
      && Mirror(p) in w.fs.names && Obj(h) in w.fs.names && w.fs.names[Mirror(p)] == w.fs.names[Obj(h)]
      && w.fs.names[Obj(h)] in w.fs.data && Sha256(w.fs.data[w.fs.names[Obj(h)]]) == h
  {
    RunKeepsLinked(World(Fs(map[], map[]), map[], map[]), ops);
  }

  // ---- a mirror from its making on ----

  const START := World(Fs(map[], map[]), map[], map[])

  /** An operation that replaces or deletes the mirror at `dest`. */
  predicate Touches(op: Op, dest: string) { (op.Mirrored? || op.DeleteMirror?) && op.dest == dest }

  lemma {:induction false} LinkStays(w: World, ops: seq<Op>, dest: string)
    requires dest in w.links && forall op <- ops :: !Touches(op, dest)
    ensures var t := Run(w, ops); dest in t.links && t.links[dest] == w.links[dest]
  {
    if ops != [] {
      var n := |ops| - 1;
      assert forall op <- ops[..n] :: op in ops;
      LinkStays(w, ops[..n], dest);
      assert !Touches(ops[n], dest);
    }
  }

  lemma {:induction false} RunConcat(w: World, a: seq<Op>, b: seq<Op>)
    ensures Run(w, a + b) == Run(Run(w, a), b)
  {
    hide Step;
    if b == [] {
      assert a + b == a;
    } else {
      var n := |b| - 1;
      RunConcat(w, a, b[..n]);
      assert (a + b)[..|a| + n] == a + b[..n];
    }
  }

  lemma MirrorMade(w: World, b: Bytes, inode: nat, dest: string)
    requires inode !in w.fs.data
    ensures var t := Step(Step(w, PutBlob(b, inode)), Mirrored(Sha256(b), dest, SameDevice));
      dest in t.links && t.links[dest] == Sha256(b)
  {
  }

  /** After any run: a blob that is stored and mirrored stays at its destination, with bytes of its digest and as a
      second name of its object, through every later storing, mirroring elsewhere, collection and scan. */
  lemma MirroredStays(earlier: seq<Op>, b: Bytes, inode: nat, dest: string, later: seq<Op>)
    requires inode !in Run(START, earlier).fs.data && forall op <- later :: !Touches(op, dest)
    ensures var w := Run(START, earlier + [PutBlob(b, inode)] + [Mirrored(Sha256(b), dest, SameDevice)] + later);
      && Mirror(dest) in w.fs.names && w.fs.names[Mirror(dest)] in w.fs.data
      && Sha256(w.fs.data[w.fs.names[Mirror(dest)]]) == Sha256(b)
      && Shared(w.fs, Sha256(b))
  {
    var put, link := PutBlob(b, inode), Mirrored(Sha256(b), dest, SameDevice);
    var w0, made := Run(START, earlier), earlier + [put] + [link];
    assert Run(START, made) == Step(Step(w0, put), link) by {
      hide Step;
      assert made[..|earlier| + 1] == earlier + [put] && (earlier + [put])[..|earlier|] == earlier;
    }
    MirrorMade(w0, b, inode, dest);
    LinkStays(Run(START, made), later, dest);
    RunConcat(START, made, later);
    hide Step;
    hide Run;
    MirrorsStayPinned(made + later, dest);
  }
}
