/** Any number of processes storing and reading blobs at once, each of which may stop for good at any step. Bytes are
    written to a temporary name in pieces of any size; only a finished file is renamed to its digest. */
module CasProtocol {
  import opened Bytes

  /** A temporary file is named after a clock, a counter and a thread. */
  datatype TmpId = TmpId(nanos: U64, counter: U64, thread: U64)

  datatype Name = Obj(hash: Digest) | Tmp(id: TmpId)

  datatype Pc =
    | Idle | Done(hash: Digest) | Failed | Crashed
    | Hashed(bytes: Bytes)                                              // digest known, object not looked for
    | Absent(bytes: Bytes)                                              // no such object; temporary file not created
    | Writing(tmp: TmpId, inode: nat, read: Bytes, todo: Bytes, stream: bool)  // `todo` is still to reach the file
    | Written(tmp: TmpId, inode: nat, bytes: Bytes)                       // streamed; object not looked for
    | Sealed(tmp: TmpId, inode: nat, bytes: Bytes)                        // ready to rename
    | Reading(hash: Digest, inode: nat, got: Bytes)
    | Got(hash: Digest, got: Bytes)

  datatype State = State(names: map<Name, nat>, data: map<nat, Bytes>, pcs: map<nat, Pc>) {
    function At(i: nat): Pc { if i in pcs then pcs[i] else Idle }
    function Go(i: nat, pc: Pc): State { this.(pcs := pcs[i := pc]) }
    predicate Holds(h: Digest) { Obj(h) in names && names[Obj(h)] in data }
    function Blob(h: Digest): Bytes requires Holds(h) { data[names[Obj(h)]] }
  }

  datatype Event =
    | StartPut(bytes: Bytes) | Look | Create(tmp: TmpId, inode: nat)
    | StartStream(tmp: TmpId, inode: nat) | Feed(chunk: Bytes)
    | Write(n: nat) | Finish | Rename
    | Abort(unlinked: bool)        // an error; whether the temporary file goes away with it
    | StartGet(hash: Digest) | Read(n: nat) | FinishGet
    | Crash

  predicate HasTmp(pc: Pc) { pc.Writing? || pc.Written? || pc.Sealed? }

  /** Exclusive creation: the name must not exist; the inode is one never used before. */
  predicate CanCreate(s: State, tmp: TmpId, inode: nat) { Tmp(tmp) !in s.names && inode !in s.data }

  function Created(s: State, tmp: TmpId, inode: nat): State {
    s.(names := s.names[Tmp(tmp) := inode], data := s.data[inode := []])
  }

  /** Process `i` takes one step; an event that is not enabled changes nothing. */
  function Step(s: State, i: nat, e: Event): State {
    var pc := s.At(i);
    match e
    case StartPut(bytes) => if pc.Idle? then s.Go(i, Hashed(bytes)) else s
    case Look =>
      if pc.Hashed? then s.Go(i, if Obj(Sha256(pc.bytes)) in s.names then Done(Sha256(pc.bytes)) else Absent(pc.bytes))
      else if pc.Written? then
        if Obj(Sha256(pc.bytes)) in s.names
        then s.(names := s.names - {Tmp(pc.tmp)}).Go(i, Done(Sha256(pc.bytes)))
        else s.Go(i, Sealed(pc.tmp, pc.inode, pc.bytes))
      else s
    case Create(tmp, inode) =>
      if pc.Absent? && CanCreate(s, tmp, inode)
      then Created(s, tmp, inode).Go(i, Writing(tmp, inode, pc.bytes, pc.bytes, false)) else s
    case StartStream(tmp, inode) =>
      if pc.Idle? && CanCreate(s, tmp, inode)
      then Created(s, tmp, inode).Go(i, Writing(tmp, inode, [], [], true)) else s
    case Feed(chunk) =>
      if pc.Writing? && pc.stream && pc.todo == []
      then s.Go(i, Writing(pc.tmp, pc.inode, pc.read + chunk, chunk, true)) else s
    case Write(n) =>
      if pc.Writing? && n <= |pc.todo| && pc.inode in s.data
      then s.(data := s.data[pc.inode := s.data[pc.inode] + pc.todo[..n]])
             .Go(i, Writing(pc.tmp, pc.inode, pc.read, pc.todo[n..], pc.stream))
      else s
    case Finish =>
      if pc.Writing? && pc.todo == []
      then s.Go(i, if pc.stream then Written(pc.tmp, pc.inode, pc.read) else Sealed(pc.tmp, pc.inode, pc.read)) else s
    case Rename =>
      if pc.Sealed?
      then
        var h := Sha256(pc.bytes);
        s.(names := (s.names - {Tmp(pc.tmp)})[Obj(h) := pc.inode]).Go(i, Done(h))
      else s
    case Abort(unlinked) =>
      if HasTmp(pc) then (if unlinked then s.(names := s.names - {Tmp(pc.tmp)}) else s).Go(i, Failed) else s
    case StartGet(h) =>
      if pc.Idle? then s.Go(i, if Obj(h) in s.names then Reading(h, s.names[Obj(h)], []) else Failed) else s
    case Read(n) =>
      if pc.Reading? && pc.inode in s.data && |pc.got| + n <= |s.data[pc.inode]|
      then s.Go(i, Reading(pc.hash, pc.inode, pc.got + s.data[pc.inode][|pc.got|..|pc.got| + n])) else s
    case FinishGet =>
      if pc.Reading? && pc.inode in s.data && |pc.got| == |s.data[pc.inode]| then s.Go(i, Got(pc.hash, pc.got)) else s
    case Crash => s.Go(i, Crashed)
  }

  // ---- the invariant ----

  /** An inode that is the target of an object or of a reader: finished, and nobody has it open for writing. */
  ghost predicate Frozen(s: State, inode: nat, h: Digest) {
    && inode in s.data && Sha256(s.data[inode]) == h
    && (forall n <- s.names :: n.Tmp? ==> s.names[n] != inode)
    && (forall i <- s.pcs :: HasTmp(s.pcs[i]) ==> s.pcs[i].inode != inode)
  }

  ghost predicate PcOk(s: State, pc: Pc) {
    match pc
    case Writing(tmp, inode, read, todo, _) =>
      Tmp(tmp) in s.names && s.names[Tmp(tmp)] == inode && inode in s.data && s.data[inode] + todo == read
    case Written(tmp, inode, bytes) =>
      Tmp(tmp) in s.names && s.names[Tmp(tmp)] == inode && inode in s.data && s.data[inode] == bytes
    case Sealed(tmp, inode, bytes) =>
      Tmp(tmp) in s.names && s.names[Tmp(tmp)] == inode && inode in s.data && s.data[inode] == bytes
    case Reading(h, inode, got) => Frozen(s, inode, h) && got <= s.data[inode]
    case Got(h, got) => Sha256(got) == h
    case Done(h) => Obj(h) in s.names
    case _ => true
  }

  ghost predicate Inv(s: State) {
    && (forall n <- s.names :: s.names[n] in s.data)
    && (forall n <- s.names :: n.Obj? ==> Frozen(s, s.names[n], n.hash))
    && (forall a, b | a in s.names && b in s.names && a.Tmp? && b.Tmp? && s.names[a] == s.names[b] :: a == b)
    && (forall i <- s.pcs :: PcOk(s, s.pcs[i]))
    && (forall i, j | i in s.pcs && j in s.pcs && HasTmp(s.pcs[i]) && HasTmp(s.pcs[j])
                      && s.pcs[i].tmp == s.pcs[j].tmp :: i == j)
  }

  /** A step that changes neither names nor bytes, only where process `i` is. */
  lemma QuietStep(s: State, i: nat, pc: Pc)
    requires Inv(s) && PcOk(s, pc)
    requires HasTmp(pc) ==> HasTmp(s.At(i)) && pc.tmp == s.At(i).tmp && pc.inode == s.At(i).inode
    ensures Inv(s.Go(i, pc))
  {
    var t := s.Go(i, pc);
    assert forall inode, h :: Frozen(s, inode, h) ==> Frozen(t, inode, h);
  }

  lemma CreateStep(s: State, i: nat, tmp: TmpId, inode: nat, pc: Pc)
    requires Inv(s) && CanCreate(s, tmp, inode)
    requires pc.Writing? && pc.tmp == tmp && pc.inode == inode && pc.todo == pc.read
    ensures Inv(Created(s, tmp, inode).Go(i, pc))
  {
    hide Frozen;
    var t := Created(s, tmp, inode).Go(i, pc);
    forall n, h | Frozen(s, n, h) ensures Frozen(t, n, h) && n in s.data {
      CreateKeepsFrozen(s, i, tmp, inode, pc, n, h);
    }
    forall j <- t.pcs ensures PcOk(t, t.pcs[j]) {
      if j != i { CreateKeepsPc(s, i, tmp, inode, pc, j); }
    }
    hide PcOk;
  }

  lemma CreateKeepsPc(s: State, i: nat, tmp: TmpId, inode: nat, pc: Pc, j: nat)
    requires Inv(s) && CanCreate(s, tmp, inode) && pc.Writing? && pc.tmp == tmp && pc.inode == inode
    requires j in s.pcs && j != i
    ensures PcOk(Created(s, tmp, inode).Go(i, pc), s.pcs[j])
  {
    hide Frozen;
    var was := s.pcs[j];
    assert PcOk(s, was);
    if was.Reading? {
      CreateKeepsFrozen(s, i, tmp, inode, pc, was.inode, was.hash);
    }
    PcStillOk(s, Created(s, tmp, inode).Go(i, pc), was);
  }

  lemma CreateKeepsFrozen(s: State, i: nat, tmp: TmpId, inode: nat, pc: Pc, n: nat, h: Digest)
    requires CanCreate(s, tmp, inode) && pc.Writing? && pc.tmp == tmp && pc.inode == inode && Frozen(s, n, h)
    ensures Frozen(Created(s, tmp, inode).Go(i, pc), n, h) && n in s.data
  {
  }

  /** What one process relies on survives a change elsewhere that keeps names, bytes and frozen inodes. */
  lemma PcStillOk(s: State, t: State, pc: Pc)
    requires PcOk(s, pc)
    requires HasTmp(pc) ==> Tmp(pc.tmp) in t.names && t.names[Tmp(pc.tmp)] == s.names[Tmp(pc.tmp)]
    requires HasTmp(pc) ==> pc.inode in t.data && t.data[pc.inode] == s.data[pc.inode]
    requires pc.Reading? ==> Frozen(t, pc.inode, pc.hash) && t.data[pc.inode] == s.data[pc.inode]
    requires pc.Done? && Obj(pc.hash) in s.names ==> Obj(pc.hash) in t.names
    ensures PcOk(t, pc)
  {
  }

  lemma WriteStep(s: State, i: nat, n: nat)
    requires Inv(s) && s.At(i).Writing? && n <= |s.At(i).todo|
    ensures Inv(Step(s, i, Write(n)))
  {
    var pc, t := s.At(i), Step(s, i, Write(n));
    assert PcOk(s, pc);
    assert s.data[pc.inode] + pc.todo[..n] + pc.todo[n..] == s.data[pc.inode] + pc.todo;
    assert forall x, h :: Frozen(s, x, h) ==> Frozen(t, x, h);
    forall j <- t.pcs ensures PcOk(t, t.pcs[j]) {
      if j != i {
        assert PcOk(s, s.pcs[j]);
        if HasTmp(s.pcs[j]) { assert s.pcs[j].tmp != pc.tmp; }
      }
    }
  }

  /** Process `i` gives up its temporary name and moves on. */
  lemma UnlinkStep(s: State, i: nat, pc: Pc)
    requires Inv(s) && HasTmp(s.At(i)) && !HasTmp(pc) && !pc.Reading? && PcOk(s, pc)
    ensures Inv(s.(names := s.names - {Tmp(s.At(i).tmp)}).Go(i, pc))
  {
    var t := s.(names := s.names - {Tmp(s.At(i).tmp)}).Go(i, pc);
    assert forall x, h :: Frozen(s, x, h) ==> Frozen(t, x, h);
    forall j <- t.pcs ensures PcOk(t, t.pcs[j]) {
      if j != i { assert PcOk(s, s.pcs[j]); }
    }
  }

  lemma RenameStep(s: State, i: nat)
    requires Inv(s) && s.At(i).Sealed?
    ensures Inv(Step(s, i, Rename))
  {
    var pc, t := s.At(i), Step(s, i, Rename);
    assert PcOk(s, pc);
    hide Frozen;
    forall x, h | Frozen(s, x, h) ensures Frozen(t, x, h) {
      RenameKeepsFrozen(s, i, x, h);
    }
    RenameFreezes(s, i);
    forall j <- t.pcs ensures PcOk(t, t.pcs[j]) {
      if j != i {
        assert PcOk(s, s.pcs[j]);
        RenameKeepsPc(s, i, j);
      }
    }
    hide PcOk;
  }

  lemma RenameKeepsPc(s: State, i: nat, j: nat)
    requires Inv(s) && s.At(i).Sealed? && j in s.pcs && j != i
    ensures PcOk(Step(s, i, Rename), s.pcs[j])
  {
    var pc := s.pcs[j];
    assert PcOk(s, pc);
    if pc.Reading? {
      RenameKeepsFrozen(s, i, pc.inode, pc.hash);
    }
  }

  lemma RenameKeepsFrozen(s: State, i: nat, x: nat, h: Digest)
    requires s.At(i).Sealed? && Frozen(s, x, h)
    ensures Frozen(Step(s, i, Rename), x, h)
  {
  }

  lemma RenameFreezes(s: State, i: nat)
    requires Inv(s) && s.At(i).Sealed?
    ensures Frozen(Step(s, i, Rename), s.At(i).inode, Sha256(s.At(i).bytes))
  {
    var pc := s.At(i);
    assert PcOk(s, pc);
    forall j | j in s.pcs && j != i && HasTmp(s.pcs[j]) ensures s.pcs[j].inode != pc.inode {
      assert PcOk(s, s.pcs[j]);
      assert s.pcs[j].tmp != pc.tmp;
    }
  }

  lemma InvAt(s: State, i: nat)
    requires Inv(s)
    ensures PcOk(s, s.At(i))
    ensures var pc := s.At(i); pc.Reading? ==> pc.inode in s.data && Sha256(s.data[pc.inode]) == pc.hash
    ensures forall n <- s.names :: n.Obj? ==> Frozen(s, s.names[n], n.hash)
  {
  }

  lemma StepKeepsInv(s: State, i: nat, e: Event)
    requires Inv(s)
    ensures Inv(Step(s, i, e))
  {
    hide Inv;
    hide PcOk;
    var pc, t := s.At(i), Step(s, i, e);
    if t != s {
      match e
      case Create(tmp, inode) => CreateStep(s, i, tmp, inode, t.At(i));
      case StartStream(tmp, inode) => CreateStep(s, i, tmp, inode, t.At(i));
      case Write(n) => WriteStep(s, i, n);
      case Rename => RenameStep(s, i);
      case Abort(unlinked) => if unlinked { GiveUpStep(s, i, Failed); } else { QuietStep(s, i, Failed); }
      case Look => if pc.Written? && t.At(i).Done? { GiveUpStep(s, i, t.At(i)); } else { PutStep(s, i, e); }
      case StartGet(_) => GetStep(s, i, e);
      case Read(_) => GetStep(s, i, e);
      case FinishGet => GetStep(s, i, e);
      case _ => PutStep(s, i, e);
    }
  }

  lemma GiveUpStep(s: State, i: nat, pc: Pc)
    requires Inv(s) && HasTmp(s.At(i)) && (pc.Failed? || (pc.Done? && Obj(pc.hash) in s.names))
    ensures Inv(s.(names := s.names - {Tmp(s.At(i).tmp)}).Go(i, pc))
  {
    hide Inv;
    UnlinkStep(s, i, pc);
  }

  lemma PutStep(s: State, i: nat, e: Event)
    requires Inv(s) && Step(s, i, e) != s
    requires
      || e.StartPut? || e.Feed? || e.Finish? || e.Crash?
      || (e.Look? && !(s.At(i).Written? && Step(s, i, e).At(i).Done?))
    ensures Inv(Step(s, i, e))
  {
    hide Inv;
    InvAt(s, i);
    QuietStep(s, i, Step(s, i, e).At(i));
  }

  lemma GetStep(s: State, i: nat, e: Event)
    requires Inv(s) && Step(s, i, e) != s && (e.StartGet? || e.Read? || e.FinishGet?)
    ensures Inv(Step(s, i, e))
  {
    hide Inv;
    hide Frozen;
    InvAt(s, i);
    var pc := s.At(i);
    if e.FinishGet? {
      assert pc.got == s.data[pc.inode];
    }
    QuietStep(s, i, Step(s, i, e).At(i));
  }

  function Run(s: State, steps: seq<(nat, Event)>): State {
    if steps == [] then s else var n := |steps| - 1; Step(Run(s, steps[..n]), steps[n].0, steps[n].1)
  }

  lemma {:induction false} RunKeepsInv(s: State, steps: seq<(nat, Event)>)
    requires Inv(s)
    ensures Inv(Run(s, steps))
  {
    if steps != [] {
      var n := |steps| - 1;
      RunKeepsInv(s, steps[..n]);
      StepKeepsInv(Run(s, steps[..n]), steps[n].0, steps[n].1);
    }
  }

  lemma {:induction false} ObjectsStay(s: State, steps: seq<(nat, Event)>, h: Digest)
    requires Obj(h) in s.names
    ensures Obj(h) in Run(s, steps).names
  {
    hide Step;
    if steps != [] {
      var n := |steps| - 1;
      ObjectsStay(s, steps[..n], h);
      StepKeepsObject(Run(s, steps[..n]), steps[n].0, steps[n].1, h);
    }
  }

  lemma StepKeepsObject(s: State, i: nat, e: Event, h: Digest)
    requires Obj(h) in s.names
    ensures Obj(h) in Step(s, i, e).names
  {
  }

  const Empty := State(map[], map[], map[])

  /** In every interleaving, with processes stopping anywhere: each object is complete, hashes to its name and is open
      for writing nowhere; and whatever a reader got for a digest hashes to that digest. */
  lemma ObjectsAlwaysComplete(steps: seq<(nat, Event)>)
    ensures var s := Run(Empty, steps);
      && (forall h :: Obj(h) in s.names ==> s.Holds(h) && Sha256(s.Blob(h)) == h)
      && (forall h, i :: Obj(h) in s.names && HasTmp(s.At(i)) ==> s.At(i).inode != s.names[Obj(h)])
      && (forall i :: s.At(i).Got? ==> Sha256(s.At(i).got) == s.At(i).hash)
  {
    RunKeepsInv(Empty, steps);
    var s := Run(Empty, steps);
    assert forall h :: Obj(h) in s.names ==> Frozen(s, s.names[Obj(h)], h);
    assert forall i <- s.pcs :: PcOk(s, s.pcs[i]);
  }

  predicate Collide(a: Bytes, b: Bytes) { a != b && Sha256(a) == Sha256(b) }

  lemma {:induction false} RunConcat(s: State, a: seq<(nat, Event)>, b: seq<(nat, Event)>)
    ensures Run(s, a + b) == Run(Run(s, a), b)
  {
    hide Step;
    if b == [] {
      assert a + b == a;
    } else {
      var n := |b| - 1;
      RunConcat(s, a, b[..n]);
      assert (a + b)[..|a| + n] == a + b[..n];
    }
  }

  /** Once there, an object never goes away, and its bytes never change short of a hash collision. */
  lemma BytesNeverChange(earlier: seq<(nat, Event)>, later: seq<(nat, Event)>, h: Digest)
    requires Obj(h) in Run(Empty, earlier).names
    ensures var s, t := Run(Empty, earlier), Run(Empty, earlier + later);
      s.Holds(h) && t.Holds(h) && (s.Blob(h) == t.Blob(h) || Collide(s.Blob(h), t.Blob(h)))
  {
    RunConcat(Empty, earlier, later);
    ObjectsStay(Run(Empty, earlier), later, h);
    ObjectsAlwaysComplete(earlier);
    ObjectsAlwaysComplete(earlier + later);
  }
}
