/** What a journal handle that keeps going gets done, whenever the lock is free. */
module WriterOutcomes {
  import opened Bytes
  import opened Records
  import opened Framing
  import opened MultiWriter

  lemma Then(s: State, steps: seq<(nat, Event)>, i: nat, e: Event)
    ensures Run(s, steps + [(i, e)]) == Step(Run(s, steps), i, e)
  {
    hide Step;
    assert (steps + [(i, e)])[..|steps|] == steps;
  }

  lemma First(s: State, i: nat, e: Event)
    ensures Run(s, [(i, e)]) == Step(s, i, e)
  {
    assert [] + [(i, e)] == [(i, e)];
    Then(s, [], i, e);
  }

  lemma {:induction false} RunConcat(s: State, a: seq<(nat, Event)>, b: seq<(nat, Event)>)
    ensures Run(s, a + b) == Run(Run(s, a), b)
  {
    hide Step;
    if b == [] {
      assert a + b == a;
    } else {
      var n := |b| - 1;
      RunConcat(s, a, b[..n]);
      assert (a + b)[..|a| + n] == a + b[..n];
    }
  }

  /** Where handle `i` is, who holds the lock, and the file with what was logged in it. */
  predicate Stands(s: State, i: nat, pc: Pc, lock: Option<nat>, file: Bytes, log: seq<Mutation>, offsets: seq<nat>) {
    s.At(i) == pc && s.lock == lock && s.Bytes() == file && s.log == log && s.offsets == offsets
  }

  function Writes(i: nat, sizes: seq<nat>): seq<(nat, Event)> {
    if sizes == [] then [] else Writes(i, sizes[..|sizes| - 1]) + [(i, Write(sizes[|sizes| - 1]))]
  }

  predicate IsWriting(pc: Pc) { pc.OpenHeader? || pc.Appending? || pc.TruncateHeader? }

  /** The same with `todo` left to write. */
  function Left(pc: Pc, todo: Bytes): Pc
    requires IsWriting(pc)
  {
    match pc
    case OpenHeader(_) => OpenHeader(todo)
    case Appending(m, offset, _) => Appending(m, offset, todo)
    case TruncateHeader(_) => TruncateHeader(todo)
  }

  lemma DoWrite(s: State, i: nat, n: nat)
    requires IsWriting(s.At(i)) && n <= |s.At(i).todo|
    ensures var pc := s.At(i);
      Stands(Step(s, i, Write(n)), i, Left(pc, pc.todo[n..]), s.lock, s.Bytes() + pc.todo[..n], s.log, s.offsets)
  {
  }

  lemma {:induction false} WritesReachFile(s: State, i: nat, sizes: seq<nat>)
    requires IsWriting(s.At(i)) && Added(sizes) <= |s.At(i).todo|
    ensures var pc, k := s.At(i), Added(sizes);
      Stands(Run(s, Writes(i, sizes)), i, Left(pc, pc.todo[k..]), s.lock, s.Bytes() + pc.todo[..k], s.log, s.offsets)
  {
    hide Step;
    var pc := s.At(i);
    LeftTwice(pc, pc.todo, pc.todo);
    if sizes == [] {
      assert pc.todo[0..] == pc.todo && s.Bytes() + pc.todo[..0] == s.Bytes();
    } else {
      var n := |sizes| - 1;
      var k, w := Added(sizes[..n]), sizes[n];
      WritesReachFile(s, i, sizes[..n]);
      Then(s, Writes(i, sizes[..n]), i, Write(w));
      WriteOneMore(s, Run(s, Writes(i, sizes[..n])), i, k, w);
    }
  }

  lemma WriteOneMore(s: State, t: State, i: nat, k: nat, w: nat)
    requires IsWriting(s.At(i)) && k + w <= |s.At(i).todo|
    requires var pc := s.At(i); Stands(t, i, Left(pc, pc.todo[k..]), s.lock, s.Bytes() + pc.todo[..k], s.log, s.offsets)
    ensures var pc := s.At(i);
      Stands(Step(t, i, Write(w)), i, Left(pc, pc.todo[k + w..]), s.lock, s.Bytes() + pc.todo[..k + w], s.log,
             s.offsets)
  {
    hide Step;
    var pc := s.At(i);
    LeftTwice(pc, pc.todo[k..], pc.todo[k + w..]);
    Pieces(s.Bytes(), pc.todo, k, w);
    hide Left;
    DoWrite(t, i, w);
  }

  lemma LeftTwice(pc: Pc, a: Bytes, b: Bytes)
    requires IsWriting(pc)
    ensures IsWriting(Left(pc, a)) && Left(pc, a).todo == a && Left(Left(pc, a), b) == Left(pc, b)
    ensures Left(pc, pc.todo) == pc
  {
  }

  lemma Pieces(was: Bytes, todo: Bytes, k: nat, w: nat)
    requires k + w <= |todo|
    ensures was + todo[..k] + todo[k..][..w] == was + todo[..k + w] && todo[k..][w..] == todo[k + w..]
  {
  }

  // ---- appending ----

  function AppendStart(i: nat, m: Mutation): seq<(nat, Event)> { [(i, LockForAppend(m))] + [(i, Seek)] }

  lemma AppendBegins(s: State, i: nat, m: Mutation)
    requires s.At(i).Ready? && s.lock.None? && Fits(m)
    ensures Stands(Run(s, AppendStart(i, m)), i, Appending(m, |s.Bytes()|, Frame(m)), Some(i), s.Bytes(), s.log,
                   s.offsets)
  {
    hide Run;
    hide Frame;
    First(s, i, LockForAppend(m));
    Then(s, [(i, LockForAppend(m))], i, Seek);
  }

  lemma DoFinishAppend(s: State, i: nat)
    requires s.At(i).Appending? && s.At(i).todo == []
    ensures var pc := s.At(i);
      Stands(Step(s, i, FinishAppend), i, Ready, None, s.Bytes(), s.log + [pc.m], s.offsets + [pc.offset])
  {
  }

  /** Whenever the lock is free, an append that keeps going, however its write is cut up, ends with its record at the
      end of the file and in the log, returns the offset at which the record starts, and frees the lock. */
  lemma AppendEnds(s: State, i: nat, m: Mutation, sizes: seq<nat>)
    requires s.At(i).Ready? && s.lock.None? && Fits(m) && Added(sizes) == |Frame(m)|
    ensures Stands(Run(s, AppendStart(i, m) + Writes(i, sizes) + [(i, FinishAppend)]), i, Ready, None,
                   s.Bytes() + Frame(m), s.log + [m], s.offsets + [|s.Bytes()|])
  {
    hide Step;
    hide Run;
    hide Frame;
    hide AppendStart;
    hide Writes;
    var start, writes := AppendStart(i, m), Writes(i, sizes);
    AppendBegins(s, i, m);
    WritesReachFile(Run(s, start), i, sizes);
    RunConcat(s, start, writes);
    Then(s, start + writes, i, FinishAppend);
    assert Frame(m)[..|Frame(m)|] == Frame(m) && Frame(m)[|Frame(m)|..] == [];
    DoFinishAppend(Run(s, start + writes), i);
  }

  // ---- opening ----

  function OpenStart(i: nat): seq<(nat, Event)> { [(i, Create)] + [(i, LockForOpen)] + [(i, CheckHeader)] }

  lemma OpenBegins(s: State, i: nat)
    requires s.At(i).Closed? && s.lock.None? && (s.Bytes() != [] ==> HeaderFault(s.Bytes()).None?)
    ensures Stands(Run(s, OpenStart(i)), i, if s.Bytes() == [] then OpenHeader(Header()) else Opened, Some(i),
                   s.Bytes(), s.log, s.offsets)
  {
    hide Run;
    hide HeaderFault;
    hide Header;
    First(s, i, Create);
    assert Run(s, [(i, Create)]).Bytes() == s.Bytes();
    Then(s, [(i, Create)], i, LockForOpen);
    Then(s, [(i, Create)] + [(i, LockForOpen)], i, CheckHeader);
  }

  lemma DoFinishOpen(s: State, i: nat)
    requires s.At(i).Opened? || (s.At(i).OpenHeader? && s.At(i).todo == [])
    ensures Stands(Step(s, i, FinishOpen), i, Ready, None, s.Bytes(), s.log, s.offsets)
  {
  }

  /** Whenever the lock is free, an open that keeps going succeeds: a new file gets a header, any other stays as it
      is. */
  lemma OpenEnds(s: State, i: nat, sizes: seq<nat>)
    requires s.At(i).Closed? && s.lock.None? && (s.Bytes() != [] ==> HeaderFault(s.Bytes()).None?)
    requires Added(sizes) == |Header()|
    ensures s.Bytes() == [] ==>
      Stands(Run(s, OpenStart(i) + Writes(i, sizes) + [(i, FinishOpen)]), i, Ready, None, Header(), s.log, s.offsets)
    ensures s.Bytes() != [] ==>
      Stands(Run(s, OpenStart(i) + [(i, FinishOpen)]), i, Ready, None, s.Bytes(), s.log, s.offsets)
  {
    hide Step;
    hide Run;
    hide Header;
    hide OpenStart;
    hide Writes;
    hide HeaderFault;
    var start, writes := OpenStart(i), Writes(i, sizes);
    OpenBegins(s, i);
    if s.Bytes() == [] {
      WritesReachFile(Run(s, start), i, sizes);
      RunConcat(s, start, writes);
      Then(s, start + writes, i, FinishOpen);
      assert Header()[..|Header()|] == Header() && Header()[|Header()|..] == [] && [] + Header() == Header();
      DoFinishOpen(Run(s, start + writes), i);
    } else {
      Then(s, start, i, FinishOpen);
      DoFinishOpen(Run(s, start), i);
    }
  }

  // ---- truncating ----

  function TruncateStart(i: nat): seq<(nat, Event)> { [(i, LockForTruncate)] + [(i, Empty)] }

  lemma TruncateBegins(s: State, i: nat)
    requires s.At(i).Ready? && s.lock.None?
    ensures Stands(Run(s, TruncateStart(i)), i, TruncateHeader(Header()), Some(i), [], [], [])
  {
    hide Run;
    hide Header;
    First(s, i, LockForTruncate);
    Then(s, [(i, LockForTruncate)], i, Empty);
  }

  lemma DoFinishTruncate(s: State, i: nat)
    requires s.At(i).TruncateHeader? && s.At(i).todo == []
    ensures Stands(Step(s, i, FinishTruncate), i, Ready, None, s.Bytes(), s.log, s.offsets)
  {
  }

  /** Whenever the lock is free, a truncation that keeps going leaves a bare header and an empty log. */
  lemma TruncateEnds(s: State, i: nat, sizes: seq<nat>)
    requires s.At(i).Ready? && s.lock.None? && Added(sizes) == |Header()|
    ensures Stands(Run(s, TruncateStart(i) + Writes(i, sizes) + [(i, FinishTruncate)]), i, Ready, None,
                   Header(), [], [])
  {
    hide Step;
    hide Run;
    hide Header;
    hide TruncateStart;
    hide Writes;
    var start, writes := TruncateStart(i), Writes(i, sizes);
    TruncateBegins(s, i);
    WritesReachFile(Run(s, start), i, sizes);
    RunConcat(s, start, writes);
    Then(s, start + writes, i, FinishTruncate);
    assert Header()[..|Header()|] == Header() && Header()[|Header()|..] == [] && [] + Header() == Header();
    DoFinishTruncate(Run(s, start + writes), i);
  }
}
