/** One handle over any number of crashes: after each the machine is down until a recovering open succeeds, and that
    open may itself be cut short any number of times. */
module CrashRuns {
  import opened Records
  import opened Framing
  import opened Mutations
  import opened IndexFiles
  import opened CrashSafety
  import opened IndexRuns

  /** A machine that is down remembers the rows from before and after the operation that was interrupted. */
  datatype World = Up(handle: Handle) | Down(files: Files, before: Rows, after: Rows)

  datatype Event =
    | Do(op: Op)
    | Crash(op: Op, left: Files)   // the machine stops during `op`, leaving these files
    | CrashAgain(left: Files)      // a recovering open is cut short, leaving these files
    | Recover                      // a recovering open succeeds

  predicate Can(w: World, e: Event) {
    match (w, e)
    case (Up(h), Do(op)) => h.files.journal.Some? && StorableOp(op)
    case (Up(h), Crash(op, left)) => h.files.journal.Some? && StorableOp(op) && CrashDuring(h, op, left)
    case (Down(f, _, _), CrashAgain(left)) => if Open(f, true).1.Ok? then OpenCrash(f, left) else left == f
    case (Down(f, _, _), Recover) => Open(f, true).1.Ok?
    case _ => false
  }

  function Next(w: World, e: Event): World
    requires Can(w, e)
  {
    match e
    case Do(op) => Up(Step(w.handle, op))
    case Crash(op, left) => Down(left, w.handle.rows, Step(w.handle, op).rows)
    case CrashAgain(left) => Down(left, w.before, w.after)
    case Recover =>
      var (g, r) := Open(w.files, true);
      Up(Handle(g, r.value.rows, r.value.count, DEFAULT_THRESHOLD))
  }

  ghost predicate Happens(w: World, es: seq<Event>, w': World) {
    if es == [] then w' == w
    else var n := |es| - 1; exists v :: Happens(w, es[..n], v) && Can(v, es[n]) && w' == Next(v, es[n])
  }

  // ---- what the rows can be ----

  function Effect(rows: Rows, op: Op): Rows {
    if op.Mutate? && Accepted(op.m, op.locks) then Apply(rows, op.m) else rows
  }

  /** Every operation done in order, each interrupted one done or not. */
  function Possible(rows: Rows, es: seq<Event>): set<Rows> {
    if es == [] then {rows} else
    var n := |es| - 1;
    var before := Possible(rows, es[..n]);
    match es[n]
    case Do(op) => set r | r in before :: Effect(r, op)
    case Crash(op, _) => before + set r | r in before :: Effect(r, op)
    case _ => before
  }

  ghost predicate Inv(w: World, possible: set<Rows>) {
    match w
    case Up(h) => InStep(h) && h.rows in possible
    case Down(f, before, after) => Survives(f, before, after) && before in possible && after in possible
  }

  lemma StepRows(h: Handle, op: Op)
    requires h.files.journal.Some? && InStep(h)
    ensures Step(h, op).rows == Effect(h.rows, op)
  {
    hide Scan;
    hide Frame;
    StrictOpenAgrees(h.files);
  }

  lemma NextKeepsInv(w: World, e: Event, possible: set<Rows>, possible': set<Rows>)
    requires Can(w, e) && Inv(w, possible)
    requires e.Do? ==> forall r <- possible :: Effect(r, e.op) in possible'
    requires e.Crash? ==> forall r <- possible :: r in possible' && Effect(r, e.op) in possible'
    requires e.CrashAgain? || e.Recover? ==> possible' == possible
    ensures Inv(Next(w, e), possible')
  {
    hide Open;
    hide CrashDuring;
    hide OpenCrash;
    hide Effect;
    hide Step;
    match e
    case Do(op) =>
      StepRows(w.handle, op);
      StepAgrees(w.handle, op);
    case Crash(op, left) =>
      StepRows(w.handle, op);
      CrashSurvives(w.handle, op, left);
    case CrashAgain(left) =>
      if Open(w.files, true).1.Ok? {
        OpenCrashSafe(w.files, left);
      }
    case Recover =>
      RecoverThenStrict(w.files);
  }

  /** After any run with any number of crashes: memory and disk agree whenever the machine is up, its rows are those of
      the operations in order with each interrupted one done or not, and a machine that is down can recover to such rows
      unless the journal holds part of a header. */
  lemma EveryLife(h: Handle, es: seq<Event>, w: World)
    requires InStep(h) && Happens(Up(h), es, w)
    ensures match w
            case Up(h') => InStep(h') && h'.rows in Possible(h.rows, es)
            case Down(f, _, _) =>
              var (_, r) := Open(f, true);
              if r.Ok? then r.value.rows in Possible(h.rows, es)
              else r == Err(ShortHeader) && f.journal.Some? && 0 < |f.journal.value| < HEADER_LEN
  {
    hide Open;
    hide Happens;
    LifeKeepsInv(h, es, w);
  }

  lemma {:induction false} LifeKeepsInv(h: Handle, es: seq<Event>, w: World)
    requires InStep(h) && Happens(Up(h), es, w)
    ensures Inv(w, Possible(h.rows, es))
  {
    hide Can;
    hide Next;
    hide InStep;
    if es == [] {
      assert Possible(h.rows, es) == {h.rows};
    } else {
      var n := |es| - 1;
      var v :| Happens(Up(h), es[..n], v) && Can(v, es[n]) && w == Next(v, es[n]);
      LifeKeepsInv(h, es[..n], v);
      PossibleStep(h.rows, es);
      hide Inv;
      hide Possible;
      NextKeepsInv(v, es[n], Possible(h.rows, es[..n]), Possible(h.rows, es));
    }
  }

  lemma PossibleStep(rows: Rows, es: seq<Event>)
    requires es != []
    ensures var e, possible, possible' := es[|es| - 1], Possible(rows, es[..|es| - 1]), Possible(rows, es);
      && (e.Do? ==> forall r <- possible :: Effect(r, e.op) in possible')
      && (e.Crash? ==> forall r <- possible :: r in possible' && Effect(r, e.op) in possible')
      && (e.CrashAgain? || e.Recover? ==> possible' == possible)
  {
  }
}
