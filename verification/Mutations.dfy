/** What the mutations of a journal do to the rows of the index. */
module Mutations {
  import opened Bytes
  import opened Records

  function Apply(rows: Rows, m: Mutation): Rows {
    match m
    case Put(k, e) => rows[k := e]
    case Remove(k) => rows - {k}
    case Touch(k, t) => if k in rows then rows[k := rows[k].(atime := t)] else rows
  }

  function Replay(rows: Rows, ms: seq<Mutation>): Rows {
    if ms == [] then rows else Apply(Replay(rows, ms[..|ms| - 1]), ms[|ms| - 1])
  }

  lemma ReplayOneMore(rows: Rows, ms: seq<Mutation>, m: Mutation)
    ensures Replay(rows, ms + [m]) == Apply(Replay(rows, ms), m)
  {
    assert (ms + [m])[..|ms|] == ms;
  }

  lemma {:induction false} ReplayConcat(rows: Rows, a: seq<Mutation>, b: seq<Mutation>)
    ensures Replay(rows, a + b) == Replay(Replay(rows, a), b)
  {
    if b == [] {
      assert a + b == a;
    } else {
      var n := |b| - 1;
      ReplayConcat(rows, a, b[..n]);
      assert a + b == (a + b[..n]) + [b[n]];
      ReplayOneMore(rows, a + b[..n], b[n]);
    }
  }

  // Seen from one key, a run of mutations leaves the row alone, overwrites it, or stamps its access time.

  datatype Effect = Keep | Overwrite(o: Option<Entry>) | Stamp(atime: U64)

  function RowAt(rows: Rows, k: Key): Option<Entry> { if k in rows then Some(rows[k]) else None }

  function Do(f: Effect, o: Option<Entry>): Option<Entry> {
    match f
    case Keep => o
    case Overwrite(p) => p
    case Stamp(t) => if o.Some? then Some(o.value.(atime := t)) else None
  }

  function Then(f: Effect, m: Mutation, k: Key): Effect {
    if m.key != k then f else
    match m
    case Put(_, e) => Overwrite(Some(e))
    case Remove(_) => Overwrite(None)
    case Touch(_, t) => if f.Overwrite? then Overwrite(Do(Stamp(t), f.o)) else Stamp(t)
  }

  function NetEffect(ms: seq<Mutation>, k: Key): Effect {
    if ms == [] then Keep else Then(NetEffect(ms[..|ms| - 1], k), ms[|ms| - 1], k)
  }

  lemma {:induction false} ReplayIsNetEffect(rows: Rows, ms: seq<Mutation>, k: Key)
    ensures RowAt(Replay(rows, ms), k) == Do(NetEffect(ms, k), RowAt(rows, k))
  {
    if ms != [] {
      ReplayIsNetEffect(rows, ms[..|ms| - 1], k);
    }
  }

  lemma SameRows(a: Rows, b: Rows)
    requires forall k :: RowAt(a, k) == RowAt(b, k)
    ensures a == b
  {
    forall k ensures k in a <==> k in b {
      assert RowAt(a, k) == RowAt(b, k);
    }
    forall k <- a ensures a[k] == b[k] {
      assert RowAt(a, k) == RowAt(b, k);
    }
  }

  /** Replaying a journal on top of its own result changes nothing. */
  lemma ReplayIdempotent(rows: Rows, ms: seq<Mutation>)
    ensures Replay(Replay(rows, ms), ms) == Replay(rows, ms)
  {
    var once := Replay(rows, ms);
    forall k ensures RowAt(Replay(once, ms), k) == RowAt(once, k) {
      ReplayIsNetEffect(rows, ms, k);
      ReplayIsNetEffect(once, ms, k);
    }
    SameRows(Replay(once, ms), once);
  }

  predicate StorableKeys(rows: Rows) { forall k <- rows :: Storable(k.coords) }

  lemma {:induction false} ReplayStorable(rows: Rows, ms: seq<Mutation>)
    requires StorableKeys(rows) && forall m <- ms :: Storable(m.key.coords)
    ensures StorableKeys(Replay(rows, ms))
  {
    if ms != [] {
      ReplayStorable(rows, ms[..|ms| - 1]);
    }
  }
}
