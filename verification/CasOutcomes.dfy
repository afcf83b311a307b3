/** What storing and reading blobs owes its callers: an acknowledged blob is there, a blob that is there can be read,
    and a writer or a reader that keeps going gets to its end. */
module CasOutcomes {
  import opened Bytes
  import opened CasProtocol

  // ---- what is acknowledged is stored ----

  /** A streaming writer that can take the next chunk. */
  predicate Takes(pc: Pc) { pc.Writing? && pc.stream && pc.todo == [] }

  /** The bytes process `i` was given so far: the blob it put, or the chunks its stream took, in order. */
  function Given(steps: seq<(nat, Event)>, i: nat): Bytes {
    if steps == [] then [] else
    var n := |steps| - 1;
    var before, pc := Given(steps[..n], i), Run(Empty, steps[..n]).At(i);
    if steps[n].0 != i then before else
    match steps[n].1
    case StartPut(bytes) => if pc.Idle? then bytes else before
    case Feed(chunk) => if Takes(pc) then before + chunk else before
    case _ => before
  }

  predicate Carries(pc: Pc, given: Bytes) {
    match pc
    case Idle => given == []
    case Hashed(bytes) => bytes == given
    case Absent(bytes) => bytes == given
    case Writing(_, _, read, _, _) => read == given
    case Written(_, _, bytes) => bytes == given
    case Sealed(_, _, bytes) => bytes == given
    case Done(h) => h == Sha256(given)
    case _ => true
  }

  /** What other processes do does not move process `i`. */
  lemma OthersDoNotMove(s: State, i: nat, j: nat, e: Event)
    requires j != i
    ensures Step(s, j, e).At(i) == s.At(i)
  {
  }

  lemma {:induction false} CarriesGiven(steps: seq<(nat, Event)>, i: nat)
    ensures Carries(Run(Empty, steps).At(i), Given(steps, i))
  {
    if steps != [] {
      var n := |steps| - 1;
      var s, j, e := Run(Empty, steps[..n]), steps[n].0, steps[n].1;
      CarriesGiven(steps[..n], i);
      if j == i {
        StepCarries(s, i, e, Given(steps[..n], i), Given(steps, i));
      } else {
        OthersDoNotMove(s, i, j, e);
      }
    }
  }

  lemma StepCarries(s: State, i: nat, e: Event, before: Bytes, after: Bytes)
    requires Carries(s.At(i), before)
    requires after == if e.StartPut? && s.At(i).Idle? then e.bytes
                      else if e.Feed? && Takes(s.At(i)) then before + e.chunk else before
    ensures Carries(Step(s, i, e).At(i), after)
  {
  }

  /** In every interleaving, with processes stopping anywhere: a process that was told its blob is stored was told the
      digest of the bytes it gave, and the object is there with those bytes, short of a hash collision. */
  lemma AcknowledgedIsStored(steps: seq<(nat, Event)>, i: nat)
    requires Run(Empty, steps).At(i).Done?
    ensures var s, b := Run(Empty, steps), Given(steps, i);
      && s.At(i).hash == Sha256(b) && s.Holds(Sha256(b))
      && (s.Blob(Sha256(b)) == b || Collide(s.Blob(Sha256(b)), b))
  {
    hide Run;
    hide Given;
    CarriesGiven(steps, i);
    RunKeepsInv(Empty, steps);
    InvAt(Run(Empty, steps), i);
    ObjectsAlwaysComplete(steps);
  }

  // ---- a writer that keeps going ----

  lemma Then(s: State, steps: seq<(nat, Event)>, i: nat, e: Event)
    ensures Run(s, steps + [(i, e)]) == Step(Run(s, steps), i, e)
  {
    hide Step;
    assert (steps + [(i, e)])[..|steps|] == steps;
  }

  lemma First(s: State, i: nat, e: Event)
    ensures Run(s, [(i, e)]) == Step(s, i, e)
  {
    assert [] + [(i, e)] == [(i, e)];
    Then(s, [], i, e);
  }

  /** Where process `i` is, and the files. */
  predicate Stands(s: State, i: nat, pc: Pc, names: map<Name, nat>, data: map<nat, Bytes>) {
    s.At(i) == pc && s.names == names && s.data == data
  }

  lemma DoCreate(s: State, i: nat, tmp: TmpId, inode: nat)
    requires CanCreate(s, tmp, inode)
    ensures s.At(i).Absent? ==>
      Stands(Step(s, i, Create(tmp, inode)), i, Writing(tmp, inode, s.At(i).bytes, s.At(i).bytes, false),
             s.names[Tmp(tmp) := inode], s.data[inode := []])
    ensures s.At(i).Idle? ==>
      Stands(Step(s, i, StartStream(tmp, inode)), i, Writing(tmp, inode, [], [], true),
             s.names[Tmp(tmp) := inode], s.data[inode := []])
  {
  }

  lemma DoWrite(s: State, i: nat, n: nat)
    requires s.At(i).Writing? && s.At(i).inode in s.data && n <= |s.At(i).todo|
    ensures var pc := s.At(i);
      Stands(Step(s, i, Write(n)), i, pc.(todo := pc.todo[n..]), s.names,
             s.data[pc.inode := s.data[pc.inode] + pc.todo[..n]])
  {
  }

  lemma DoFeed(s: State, i: nat, chunk: Bytes)
    requires Takes(s.At(i))
    ensures var pc := s.At(i);
      Stands(Step(s, i, Feed(chunk)), i, pc.(read := pc.read + chunk, todo := chunk), s.names, s.data)
  {
  }

  lemma DoFinish(s: State, i: nat)
    requires s.At(i).Writing? && s.At(i).todo == []
    ensures var pc := s.At(i);
      Stands(Step(s, i, Finish), i,
             if pc.stream then Written(pc.tmp, pc.inode, pc.read) else Sealed(pc.tmp, pc.inode, pc.read),
             s.names, s.data)
  {
  }

  lemma DoLook(s: State, i: nat)
    requires s.At(i).Hashed? || s.At(i).Written?
    ensures var pc, t := s.At(i), Step(s, i, Look);
      if Obj(Sha256(pc.bytes)) in s.names
      then Stands(t, i, Done(Sha256(pc.bytes)), if pc.Hashed? then s.names else s.names - {Tmp(pc.tmp)}, s.data)
      else Stands(t, i, if pc.Hashed? then Absent(pc.bytes) else Sealed(pc.tmp, pc.inode, pc.bytes), s.names, s.data)
  {
  }

  lemma DoRename(s: State, i: nat)
    requires s.At(i).Sealed?
    ensures var pc := s.At(i);
      Stands(Step(s, i, Rename), i, Done(Sha256(pc.bytes)),
             (s.names - {Tmp(pc.tmp)})[Obj(Sha256(pc.bytes)) := pc.inode], s.data)
  {
  }

  lemma DoStart(s: State, i: nat, b: Bytes)
    requires s.At(i).Idle?
    ensures Stands(Step(s, i, StartPut(b)), i, Hashed(b), s.names, s.data)
  {
  }

  /** Writes of the given sizes. */
  function Writes(i: nat, sizes: seq<nat>): seq<(nat, Event)> {
    if sizes == [] then [] else Writes(i, sizes[..|sizes| - 1]) + [(i, Write(sizes[|sizes| - 1]))]
  }

  /** However the bytes are cut up, writing them one piece after the other puts them into the file in order. */
  lemma {:induction false} WritesReachFile(s: State, i: nat, sizes: seq<nat>)
    requires s.At(i).Writing? && s.At(i).inode in s.data && Added(sizes) <= |s.At(i).todo|
    ensures var pc, k := s.At(i), Added(sizes);
      Stands(Run(s, Writes(i, sizes)), i, pc.(todo := pc.todo[k..]), s.names,
             s.data[pc.inode := s.data[pc.inode] + pc.todo[..k]])
  {
    hide Step;
    var pc := s.At(i);
    var was := s.data[pc.inode];
    if sizes == [] {
      assert was + pc.todo[..0] == was && pc.todo[0..] == pc.todo && s.data[pc.inode := was] == s.data;
    } else {
      var n := |sizes| - 1;
      var k, w, t := Added(sizes[..n]), sizes[n], Run(s, Writes(i, sizes[..n]));
      WritesReachFile(s, i, sizes[..n]);
      Then(s, Writes(i, sizes[..n]), i, Write(w));
      DoWrite(t, i, w);
      hide Run;
      Pieces(was, pc.todo, k, w);
      assert s.data[pc.inode := was + pc.todo[..k]][pc.inode := was + pc.todo[..k + w]]
          == s.data[pc.inode := was + pc.todo[..k + w]];
    }
  }

  lemma Pieces(was: Bytes, todo: Bytes, k: nat, w: nat)
    requires k + w <= |todo|
    ensures was + todo[..k] + todo[k..][..w] == was + todo[..k + w] && todo[k..][w..] == todo[k + w..]
  {
  }

  function PutSteps(i: nat, b: Bytes, tmp: TmpId, inode: nat, sizes: seq<nat>): seq<(nat, Event)> {
    PutStart(i, b, tmp, inode) + Writes(i, sizes) + [(i, Finish)] + [(i, Rename)]
  }

  function PutStart(i: nat, b: Bytes, tmp: TmpId, inode: nat): seq<(nat, Event)> {
    [(i, StartPut(b))] + [(i, Look)] + [(i, Create(tmp, inode))]
  }

  lemma PutBegins(s: State, i: nat, b: Bytes, tmp: TmpId, inode: nat)
    requires s.At(i).Idle? && Obj(Sha256(b)) !in s.names && CanCreate(s, tmp, inode)
    ensures Stands(Run(s, PutStart(i, b, tmp, inode)), i, Writing(tmp, inode, b, b, false),
                   s.names[Tmp(tmp) := inode], s.data[inode := []])
  {
    hide Step;
    hide Run;
    First(s, i, StartPut(b));
    DoStart(s, i, b);
    Then(s, [(i, StartPut(b))], i, Look);
    DoLook(Run(s, [(i, StartPut(b))]), i);
    Then(s, [(i, StartPut(b))] + [(i, Look)], i, Create(tmp, inode));
    DoCreate(Run(s, [(i, StartPut(b))] + [(i, Look)]), i, tmp, inode);
  }

  /** A put that nobody interrupts: if the object is absent, however the write is cut up, it ends acknowledged with the
      object in place under its digest, holding exactly the bytes, and leaves no other trace. */
  lemma PutStores(s: State, i: nat, b: Bytes, tmp: TmpId, inode: nat, sizes: seq<nat>)
    requires s.At(i).Idle? && Obj(Sha256(b)) !in s.names && CanCreate(s, tmp, inode) && Added(sizes) == |b|
    ensures var t := Run(s, PutSteps(i, b, tmp, inode, sizes));
      && t.At(i) == Done(Sha256(b)) && t.Holds(Sha256(b)) && t.Blob(Sha256(b)) == b
      && t.names == s.names[Obj(Sha256(b)) := inode] && t.data == s.data[inode := b]
  {
    hide Step;
    hide Run;
    hide PutStart;
    hide Writes;
    var start, writes := PutStart(i, b, tmp, inode), Writes(i, sizes);
    PutBegins(s, i, b, tmp, inode);
    WritesReachFile(Run(s, start), i, sizes);
    RunConcat(s, start, writes);
    Then(s, start + writes, i, Finish);
    assert b[..|b|] == b && [] + b == b && b[|b|..] == [];
    DoFinish(Run(s, start + writes), i);
    Then(s, start + writes + [(i, Finish)], i, Rename);
    DoRename(Run(s, start + writes + [(i, Finish)]), i);
    assert s.names[Tmp(tmp) := inode] - {Tmp(tmp)} == s.names;
    assert s.data[inode := []][inode := b] == s.data[inode := b];
  }

  /** A put of a blob that is there is acknowledged at once and changes no file. */
  lemma PutKnown(s: State, i: nat, b: Bytes)
    requires s.At(i).Idle? && Obj(Sha256(b)) in s.names
    ensures Stands(Run(s, [(i, StartPut(b))] + [(i, Look)]), i, Done(Sha256(b)), s.names, s.data)
  {
    hide Step;
    hide Run;
    First(s, i, StartPut(b));
    DoStart(s, i, b);
    Then(s, [(i, StartPut(b))], i, Look);
    DoLook(Run(s, [(i, StartPut(b))]), i);
  }

  // ---- a stream that keeps going ----

  function Joined(chunks: seq<Bytes>): Bytes {
    if chunks == [] then [] else Joined(chunks[..|chunks| - 1]) + chunks[|chunks| - 1]
  }

  function Feeds(i: nat, chunks: seq<Bytes>): seq<(nat, Event)> {
    if chunks == [] then [] else
    var n := |chunks| - 1;
    Feeds(i, chunks[..n]) + [(i, Feed(chunks[n]))] + [(i, Write(|chunks[n]|))]
  }

  lemma FeedOne(s: State, i: nat, chunk: Bytes)
    requires Takes(s.At(i)) && s.At(i).inode in s.data
    ensures var pc := s.At(i);
      Stands(Step(Step(s, i, Feed(chunk)), i, Write(|chunk|)), i, pc.(read := pc.read + chunk), s.names,
             s.data[pc.inode := s.data[pc.inode] + chunk])
  {
    hide Step;
    DoFeed(s, i, chunk);
    DoWrite(Step(s, i, Feed(chunk)), i, |chunk|);
    assert chunk[..|chunk|] == chunk && chunk[|chunk|..] == [];
  }

  lemma {:induction false} FeedsReachFile(s: State, i: nat, chunks: seq<Bytes>)
    requires Takes(s.At(i)) && s.At(i).inode in s.data
    ensures var pc, all := s.At(i), Joined(chunks);
      Stands(Run(s, Feeds(i, chunks)), i, pc.(read := pc.read + all), s.names,
             s.data[pc.inode := s.data[pc.inode] + all])
  {
    hide Step;
    var pc := s.At(i);
    var was := s.data[pc.inode];
    if chunks == [] {
      assert was + [] == was && pc.read + [] == pc.read && s.data[pc.inode := was] == s.data;
    } else {
      var n := |chunks| - 1;
      var c, fewer, steps := chunks[n], Joined(chunks[..n]), Feeds(i, chunks[..n]);
      FeedsReachFile(s, i, chunks[..n]);
      Then(s, steps, i, Feed(c));
      Then(s, steps + [(i, Feed(c))], i, Write(|c|));
      FeedOne(Run(s, steps), i, c);
      hide Run;
      assert was + fewer + c == was + (fewer + c) && pc.read + fewer + c == pc.read + (fewer + c);
      assert s.data[pc.inode := was + fewer][pc.inode := was + fewer + c] == s.data[pc.inode := was + (fewer + c)];
    }
  }

  function StreamSteps(i: nat, chunks: seq<Bytes>, tmp: TmpId, inode: nat): seq<(nat, Event)> {
    [(i, StartStream(tmp, inode))] + Feeds(i, chunks) + [(i, Finish)] + [(i, Look)] + [(i, Rename)]
  }

  lemma StreamWritten(s: State, i: nat, chunks: seq<Bytes>, tmp: TmpId, inode: nat)
    requires s.At(i).Idle? && CanCreate(s, tmp, inode)
    ensures Stands(Run(s, [(i, StartStream(tmp, inode))] + Feeds(i, chunks) + [(i, Finish)]), i,
                   Written(tmp, inode, Joined(chunks)), s.names[Tmp(tmp) := inode], s.data[inode := Joined(chunks)])
  {
    hide Step;
    hide Run;
    hide Feeds;
    hide Joined;
    var start: seq<(nat, Event)> := [(i, StartStream(tmp, inode))];
    First(s, i, StartStream(tmp, inode));
    DoCreate(s, i, tmp, inode);
    FeedsReachFile(Run(s, start), i, chunks);
    RunConcat(s, start, Feeds(i, chunks));
    Then(s, start + Feeds(i, chunks), i, Finish);
    DoFinish(Run(s, start + Feeds(i, chunks)), i);
    assert [] + Joined(chunks) == Joined(chunks);
    assert s.data[inode := []][inode := Joined(chunks)] == s.data[inode := Joined(chunks)];
  }

  /** A stream that nobody interrupts ends acknowledged, with an object of the joined chunks' digest in place and no
      temporary file of its own; the object is the file it wrote unless there was one before. */
  lemma StreamStores(s: State, i: nat, chunks: seq<Bytes>, tmp: TmpId, inode: nat)
    requires s.At(i).Idle? && CanCreate(s, tmp, inode)
    ensures var t, b := Run(s, StreamSteps(i, chunks, tmp, inode)), Joined(chunks);
      && t.At(i) == Done(Sha256(b)) && t.data == s.data[inode := b]
      && t.names == if Obj(Sha256(b)) in s.names then s.names else s.names[Obj(Sha256(b)) := inode]
  {
    hide Step;
    hide Run;
    hide Feeds;
    hide Joined;
    var start: seq<(nat, Event)> := [(i, StartStream(tmp, inode))] + Feeds(i, chunks) + [(i, Finish)];
    StreamWritten(s, i, chunks, tmp, inode);
    Then(s, start, i, Look);
    DoLook(Run(s, start), i);
    Then(s, start + [(i, Look)], i, Rename);
    assert s.names[Tmp(tmp) := inode] - {Tmp(tmp)} == s.names;
    if Obj(Sha256(Joined(chunks))) in s.names {
      DoneStays(Run(s, start + [(i, Look)]), i, Rename);
    } else {
      DoRename(Run(s, start + [(i, Look)]), i);
    }
  }

  lemma DoneStays(s: State, i: nat, e: Event)
    requires s.At(i).Done? && !e.Crash?
    ensures Step(s, i, e) == s
  {
  }

  // ---- a reader ----

  /** A reader of `h` whose inode holds `b`. */
  predicate ReaderOf(s: State, i: nat, h: Digest, inode: nat, b: Bytes) {
    match s.At(i)
    case Reading(h', inode', got) => h' == h && inode' == inode && inode in s.data && s.data[inode] == b && got <= b
    case Got(h', got) => h' == h && got == b
    case Crashed => true
    case _ => false
  }

  lemma StepKeepsReader(s: State, i: nat, h: Digest, inode: nat, b: Bytes, j: nat, e: Event)
    requires Inv(s) && ReaderOf(s, i, h, inode, b)
    ensures ReaderOf(Step(s, j, e), i, h, inode, b)
  {
    InvAt(s, i);
    InvAt(s, j);
    hide Inv;
    if j != i {
      OthersDoNotMove(s, i, j, e);
      if s.At(i).Reading? && e.Write? && s.At(j).Writing? {
        assert s.At(j).inode != inode;
      }
    }
  }

  lemma {:induction false} RunKeepsReader(s: State, steps: seq<(nat, Event)>, i: nat, h: Digest, inode: nat, b: Bytes)
    requires Inv(s) && ReaderOf(s, i, h, inode, b)
    ensures ReaderOf(Run(s, steps), i, h, inode, b)
  {
    hide Step;
    hide ReaderOf;
    if steps != [] {
      var n := |steps| - 1;
      RunKeepsReader(s, steps[..n], i, h, inode, b);
      RunKeepsInv(s, steps[..n]);
      StepKeepsReader(Run(s, steps[..n]), i, h, inode, b, steps[n].0, steps[n].1);
    }
  }

  /** A reader that asks for a digest that is there never fails, whatever the others do meanwhile; if it gets to its
      end it has exactly the bytes that were there when it asked. */
  lemma GetDelivers(earlier: seq<(nat, Event)>, i: nat, h: Digest, later: seq<(nat, Event)>)
    requires var s := Run(Empty, earlier); s.At(i).Idle? && Obj(h) in s.names
    ensures var s, t := Run(Empty, earlier), Run(Empty, earlier + [(i, StartGet(h))] + later);
      && (t.At(i).Reading? || t.At(i).Got? || t.At(i).Crashed?)
      && s.Holds(h) && (t.At(i).Got? ==> t.At(i) == Got(h, s.Blob(h)))
  {
    var s := Run(Empty, earlier);
    ObjectsAlwaysComplete(earlier);
    RunKeepsInv(Empty, earlier);
    Then(Empty, earlier, i, StartGet(h));
    StepKeepsInv(s, i, StartGet(h));
    RunConcat(Empty, earlier + [(i, StartGet(h))], later);
    RunKeepsReader(Step(s, i, StartGet(h)), later, i, h, s.names[Obj(h)], s.Blob(h));
  }

  /** A reader that keeps going does get to its end; one that asks for a digest that is not there fails. */
  lemma GetEnds(s: State, i: nat, h: Digest)
    requires s.At(i).Idle? && (Obj(h) in s.names ==> s.Holds(h))
    ensures s.Holds(h) ==>
      Run(s, [(i, StartGet(h))] + [(i, Read(|s.Blob(h)|))] + [(i, FinishGet)]).At(i) == Got(h, s.Blob(h))
    ensures !s.Holds(h) ==> Run(s, [(i, StartGet(h))]).At(i) == Failed
  {
    hide Run;
    var one: seq<(nat, Event)> := [(i, StartGet(h))];
    First(s, i, StartGet(h));
    if s.Holds(h) {
      var b := s.Blob(h);
      Then(s, one, i, Read(|b|));
      Then(s, one + [(i, Read(|b|))], i, FinishGet);
      assert [] + b[0..|b|] == b;
    }
  }

  // ---- temporary files ----

  /** After `k` steps process `i` has the temporary file, and it has it still, or there it stopped or gave up without
      removing it. */
  predicate LeftBy(steps: seq<(nat, Event)>, id: TmpId, i: nat, k: nat) {
    && k <= |steps|
    && (var pc := Run(Empty, steps[..k]).At(i); HasTmp(pc) && pc.tmp == id)
    && (k == |steps| || steps[k] == (i, Crash) || steps[k] == (i, Abort(false)))
  }

  /** A temporary file never outlives its writer's success: every one there is in use, or was left by a process that
      stopped or whose clean-up failed. */
  lemma {:induction false} TmpsAccounted(steps: seq<(nat, Event)>, id: TmpId) returns (i: nat, k: nat)
    requires Tmp(id) in Run(Empty, steps).names
    ensures LeftBy(steps, id, i, k)
  {
    hide Step;
    var n := |steps| - 1;
    var s, j, e := Run(Empty, steps[..n]), steps[n].0, steps[n].1;
    assert steps[..|steps|] == steps;
    if Tmp(id) !in s.names {
      NewTmp(s, j, e, id);
      i, k := j, n + 1;
    } else {
      i, k := TmpsAccounted(steps[..n], id);
      assert steps[..n][..k] == steps[..k];
      if k == n {
        StillHeld(s, i, j, e, id);
        k := if j == i && (e == Crash || e == Abort(false)) then n else n + 1;
      }
    }
  }

  lemma NewTmp(s: State, j: nat, e: Event, id: TmpId)
    requires Tmp(id) !in s.names && Tmp(id) in Step(s, j, e).names
    ensures HasTmp(Step(s, j, e).At(j)) && Step(s, j, e).At(j).tmp == id
  {
  }

  lemma StillHeld(s: State, i: nat, j: nat, e: Event, id: TmpId)
    requires HasTmp(s.At(i)) && s.At(i).tmp == id && Tmp(id) in Step(s, j, e).names
    ensures (j == i && (e == Crash || e == Abort(false)))
         || (HasTmp(Step(s, j, e).At(i)) && Step(s, j, e).At(i).tmp == id)
  {
  }
}
