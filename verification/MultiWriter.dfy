/** Any number of handles, in any number of processes, opening, appending to and truncating one journal file. A write
    may reach the file in pieces of any size; only the lock keeps the pieces of different writers apart. */
module MultiWriter {
  import opened Bytes
  import opened Records
  import opened Framing

  datatype Pc =
    | Closed | Created | Failed | Ready
    | Checking                                            // lock held, header not looked at yet
    | OpenHeader(todo: Bytes)                             // lock held, header being written
    | Opened                                              // lock held, header in place
    | WantAppend(m: Mutation)                             // lock held, end of file not looked up yet
    | Appending(m: Mutation, offset: nat, todo: Bytes)    // lock held, record being written
    | WantTruncate                                        // lock held, file not emptied yet
    | TruncateHeader(todo: Bytes)                         // lock held, header being rewritten

  predicate Holding(pc: Pc) { !(pc.Closed? || pc.Created? || pc.Failed? || pc.Ready?) }

  /** `born` says that a header was once completed; `log` and `offsets` record, since the last truncation, each append
      in the order of lock tenure and the offset it returned. */
  datatype State = State(file: Option<Bytes>, lock: Option<nat>, pcs: map<nat, Pc>,
                         born: bool, log: seq<Mutation>, offsets: seq<nat>)
  {
    function At(i: nat): Pc { if i in pcs then pcs[i] else Closed }
    function Go(i: nat, pc: Pc): State { this.(pcs := pcs[i := pc]) }
    function Bytes(): Bytes { if file.Some? then file.value else [] }
  }

  datatype Event =
    | Create | LockForOpen | CheckHeader | Write(n: nat) | FinishOpen
    | LockForAppend(m: Mutation) | Seek | FinishAppend
    | LockForTruncate | Empty | FinishTruncate

  /** Handle `i` takes one step; an event that is not enabled changes nothing. */
  function Step(s: State, i: nat, e: Event): State {
    var pc := s.At(i);
    match e
    case Create => if pc.Closed? then s.(file := Some(s.Bytes())).Go(i, Created) else s
    case LockForOpen => if pc.Created? && s.lock.None? then s.(lock := Some(i)).Go(i, Checking) else s
    case CheckHeader =>
      if !pc.Checking? then s
      else if s.Bytes() == [] then s.Go(i, OpenHeader(Header()))
      else if HeaderFault(s.Bytes()).None? then s.Go(i, Opened)
      else s.(lock := None).Go(i, Failed)
    case Write(n) =>
      if (pc.OpenHeader? || pc.Appending? || pc.TruncateHeader?) && n <= |pc.todo|
      then s.(file := Some(s.Bytes() + pc.todo[..n])).Go(i, pc.(todo := pc.todo[n..]))
      else s
    case FinishOpen =>
      if pc.Opened? || (pc.OpenHeader? && pc.todo == []) then s.(lock := None, born := true).Go(i, Ready) else s
    case LockForAppend(m) =>
      if pc.Ready? && s.lock.None? && Fits(m) then s.(lock := Some(i)).Go(i, WantAppend(m)) else s
    case Seek => if pc.WantAppend? then s.Go(i, Appending(pc.m, |s.Bytes()|, Frame(pc.m))) else s
    case FinishAppend =>
      if pc.Appending? && pc.todo == []
      then s.(lock := None, log := s.log + [pc.m], offsets := s.offsets + [pc.offset]).Go(i, Ready)
      else s
    case LockForTruncate => if pc.Ready? && s.lock.None? then s.(lock := Some(i)).Go(i, WantTruncate) else s
    case Empty =>
      if pc.WantTruncate? then s.(file := Some([]), log := [], offsets := []).Go(i, TruncateHeader(Header())) else s
    case FinishTruncate => if pc.TruncateHeader? && pc.todo == [] then s.(lock := None).Go(i, Ready) else s
  }

  predicate OffsetsRight(log: seq<Mutation>, offsets: seq<nat>) {
    |offsets| == |log| && forall k | 0 <= k < |log| :: offsets[k] == HEADER_LEN + |Image(log[..k])|
  }

  /** The file between tenures: nothing yet, or one header and the logged records, each at its returned offset. */
  ghost predicate Whole(s: State) {
    && OffsetsRight(s.log, s.offsets)
    && (if s.born then s.Bytes() == Header() + Image(s.log) else s.Bytes() == [] && s.log == [])
  }

  /** The file during a tenure: what is there and what is still to be written add up to a whole file. */
  ghost predicate Midway(s: State, pc: Pc) {
    match pc
    case Checking => Whole(s)
    case OpenHeader(todo) => !s.born && s.log == [] && s.offsets == [] && s.Bytes() + todo == Header()
    case TruncateHeader(todo) => s.born && s.log == [] && s.offsets == [] && s.Bytes() + todo == Header()
    case Appending(m, offset, todo) =>
      && s.born && OffsetsRight(s.log, s.offsets) && offset == HEADER_LEN + |Image(s.log)|
      && s.Bytes() + todo == Header() + Image(s.log) + Frame(m)
    case _ => Whole(s) && s.born
  }

  ghost predicate Inv(s: State) {
    && (forall i <- s.pcs ::
          (Holding(s.pcs[i]) ==> s.lock == Some(i)) && (s.pcs[i].Ready? ==> s.born) && !s.pcs[i].Failed?)
    && (if s.lock.None? then Whole(s) else Holding(s.At(s.lock.value)) && Midway(s, s.At(s.lock.value)))
  }

  lemma HeaderBytes(log: seq<Mutation>)
    ensures Header() + Image(log) != [] && HeaderFault(Header() + Image(log)) == None
    ensures Header() + Image([]) == Header()
  {
    HeaderAccepted(Image(log));
  }

  /** Writing a piece keeps the sum of what is there and what is left. */
  lemma PieceKeepsSum(file: Bytes, todo: Bytes, n: nat)
    requires n <= |todo|
    ensures (file + todo[..n]) + todo[n..] == file + todo
  {
    assert todo[..n] + todo[n..] == todo;
  }

  lemma LogOneMore(log: seq<Mutation>, offsets: seq<nat>, m: Mutation)
    requires OffsetsRight(log, offsets)
    ensures OffsetsRight(log + [m], offsets + [HEADER_LEN + |Image(log)|])
    ensures Header() + Image(log + [m]) == Header() + Image(log) + Frame(m)
  {
    ImageAppend(log, [m]);
    assert Image([m]) == Frame(m) + Image([]);
    assert (log + [m])[..|log|] == log;
    forall k | 0 <= k < |log|
      ensures (offsets + [HEADER_LEN + |Image(log)|])[k] == HEADER_LEN + |Image((log + [m])[..k])|
    {
      assert (log + [m])[..k] == log[..k];
    }
    assert Header() + (Image(log) + Frame(m)) == Header() + Image(log) + Frame(m);
  }

  /** A step of the handle that holds the lock, takes it, or gives it up. */
  lemma TenureStep(s: State, t: State, i: nat, pc: Pc)
    requires Inv(s) && (s.lock.None? || s.lock == Some(i))
    requires t.pcs == s.pcs[i := pc] && t.lock == (if Holding(pc) then Some(i) else None)
    requires (s.born || pc.Ready? ==> t.born) && !pc.Failed?
    requires if Holding(pc) then Midway(t, pc) else Whole(t)
    ensures Inv(t)
  {
  }

  lemma CreateStep(s: State, i: nat)
    requires Inv(s) && s.At(i).Closed?
    ensures Inv(Step(s, i, Create))
  {
    var t := Step(s, i, Create);
    assert t.Bytes() == s.Bytes();
  }

  lemma StepKeepsInv(s: State, i: nat, e: Event)
    requires Inv(s)
    ensures Inv(Step(s, i, e))
  {
    var t := Step(s, i, e);
    if e.Create? {
      if s.At(i).Closed? { CreateStep(s, i); }
    } else if t != s {
      if e.Write? {
        WriteStep(s, i, e.n);
      } else if e.FinishAppend? || e.Seek? || e.Empty? {
        RecordStep(s, i, e);
      } else {
        LockingStep(s, i, e);
      }
      hide Step;
      hide Midway;
      hide Whole;
      TenureStep(s, t, i, t.At(i));
    }
  }

  /** What a step of the handle that holds or takes the lock leaves behind. */
  ghost predicate Tenure(s: State, t: State, i: nat) {
    var pc := t.At(i);
    && (s.lock.None? || s.lock == Some(i))
    && t.pcs == s.pcs[i := pc] && t.lock == (if Holding(pc) then Some(i) else None)
    && (s.born || pc.Ready? ==> t.born) && !pc.Failed?
    && if Holding(pc) then Midway(t, pc) else Whole(t)
  }

  lemma WriteStep(s: State, i: nat, n: nat)
    requires Inv(s) && Step(s, i, Write(n)) != s
    ensures Tenure(s, Step(s, i, Write(n)), i)
  {
    hide Image;
    hide Frame;
    hide Header;
    PieceKeepsSum(s.Bytes(), s.At(i).todo, n);
  }

  lemma RecordStep(s: State, i: nat, e: Event)
    requires Inv(s) && Step(s, i, e) != s && (e.FinishAppend? || e.Seek? || e.Empty?)
    ensures Tenure(s, Step(s, i, e), i)
  {
    hide Image;
    hide Frame;
    hide Header;
    var pc := s.At(i);
    HeaderBytes(s.log);
    if e.FinishAppend? {
      LogOneMore(s.log, s.offsets, pc.m);
    }
    hide HeaderFault;
  }

  lemma LockingStep(s: State, i: nat, e: Event)
    requires Inv(s) && Step(s, i, e) != s && !e.Create? && !e.Write? && !e.FinishAppend? && !e.Seek? && !e.Empty?
    ensures Tenure(s, Step(s, i, e), i)
  {
    hide Image;
    hide Frame;
    hide Header;
    hide HeaderFault;
    HeaderBytes(s.log);
  }

  function Run(s: State, steps: seq<(nat, Event)>): State {
    if steps == [] then s
    else var n := |steps| - 1; Step(Run(s, steps[..n]), steps[n].0, steps[n].1)
  }

  lemma {:induction false} RunKeepsInv(s: State, steps: seq<(nat, Event)>)
    requires Inv(s)
    ensures Inv(Run(s, steps))
  {
    if steps != [] {
      var n := |steps| - 1;
      RunKeepsInv(s, steps[..n]);
      StepKeepsInv(Run(s, steps[..n]), steps[n].0, steps[n].1);
    }
  }

  const Fresh := State(None, None, map[], false, [], [])

  /** From nothing, after any interleaving: whenever nobody holds the lock the file is empty or exactly one header
      followed by the records appended since the last truncation, once each and in lock order; each returned offset is
      where its record starts; and no handle was ever refused. */
  lemma EveryInterleaving(steps: seq<(nat, Event)>)
    ensures var s := Run(Fresh, steps);
      && (s.lock.None? ==> s.Bytes() == if s.born then Header() + Image(s.log) else [])
      && (s.lock.None? ==> |s.offsets| == |s.log|)
      && (s.lock.None? ==> forall k | 0 <= k < |s.log| ::
            s.offsets[k] + |Frame(s.log[k])| <= |s.Bytes()|
            && s.Bytes()[s.offsets[k]..s.offsets[k] + |Frame(s.log[k])|] == Frame(s.log[k]))
      && (forall i :: !s.At(i).Failed?)
  {
    hide Image;
    hide Frame;
    RunKeepsInv(Fresh, steps);
    var s := Run(Fresh, steps);
    if s.lock.None? {
      forall k | 0 <= k < |s.log|
        ensures s.offsets[k] + |Frame(s.log[k])| <= |s.Bytes()|
        ensures s.Bytes()[s.offsets[k]..s.offsets[k] + |Frame(s.log[k])|] == Frame(s.log[k])
      {
        FrameInImage(s.log, k);
      }
    }
  }

  lemma FrameInImage(log: seq<Mutation>, k: nat)
    requires k < |log|
    ensures var at := HEADER_LEN + |Image(log[..k])|; var file := Header() + Image(log);
      at + |Frame(log[k])| <= |file| && file[at..at + |Frame(log[k])|] == Frame(log[k])
  {
    var rest := log[k + 1..];
    assert log == log[..k] + ([log[k]] + rest);
    ImageAppend(log[..k], [log[k]] + rest);
    assert Image([log[k]] + rest) == Frame(log[k]) + Image(rest);
  }
}
