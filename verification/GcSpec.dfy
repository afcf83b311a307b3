/** Which rows a collection pass takes, and what that leaves. */
module GcSpec {
  import opened Records
  import opened KeyOrder
  import opened BlobStore

  // ---- oldest first ----

  function InsertByAge(r: Row, rs: seq<Row>): seq<Row> {
    if rs == [] || r.entry.atime <= rs[0].entry.atime then [r] + rs else [rs[0]] + InsertByAge(r, rs[1..])
  }

  /** A stable sort by access time. */
  function SortByAge(rs: seq<Row>): seq<Row> {
    if rs == [] then [] else InsertByAge(rs[0], SortByAge(rs[1..]))
  }

  predicate Older(a: Row, b: Row) {
    a.entry.atime < b.entry.atime || (a.entry.atime == b.entry.atime && KeyLe(a.key, b.key) && a.key != b.key)
  }

  predicate OldestFirst(rs: seq<Row>) { forall i, j | 0 <= i < j < |rs| :: Older(rs[i], rs[j]) }

  lemma {:induction false} InsertByAgeSame(r: Row, rs: seq<Row>)
    ensures multiset(InsertByAge(r, rs)) == multiset{r} + multiset(rs)
  {
    if rs != [] && r.entry.atime > rs[0].entry.atime {
      InsertByAgeSame(r, rs[1..]);
      assert rs == [rs[0]] + rs[1..];
    }
  }

  lemma {:induction false} SortByAgeSame(rs: seq<Row>)
    ensures multiset(SortByAge(rs)) == multiset(rs)
  {
    if rs != [] {
      SortByAgeSame(rs[1..]);
      InsertByAgeSame(rs[0], SortByAge(rs[1..]));
      assert rs == [rs[0]] + rs[1..];
    }
  }

  lemma {:induction false} InsertByAgeOrdered(r: Row, rs: seq<Row>)
    requires OldestFirst(rs) && forall x <- rs :: KeyLe(r.key, x.key) && r.key != x.key
    ensures OldestFirst(InsertByAge(r, rs))
  {
    if rs == [] || r.entry.atime <= rs[0].entry.atime {
      forall x <- rs ensures Older(r, x) {
        if x != rs[0] {
          var i :| 0 <= i < |rs| && rs[i] == x;
          assert Older(rs[0], rs[i]);
        }
      }
      ConsOldest(r, rs);
    } else {
      var rest := InsertByAge(r, rs[1..]);
      InsertByAgeOrdered(r, rs[1..]);
      InsertByAgeSame(r, rs[1..]);
      forall x <- rest ensures Older(rs[0], x) {
        assert x in multiset(rest);
        if x != r {
          assert x in rs[1..];
          var i :| 1 <= i < |rs| && rs[i] == x;
          assert Older(rs[0], rs[i]);
        }
      }
      ConsOldest(rs[0], rest);
    }
  }

  lemma ConsOldest(r: Row, rs: seq<Row>)
    requires OldestFirst(rs) && forall x <- rs :: Older(r, x)
    ensures OldestFirst([r] + rs)
  {
    var all := [r] + rs;
    forall i, j | 0 <= i < j < |all| ensures Older(all[i], all[j]) {
      assert all[j] == rs[j - 1];
      if i > 0 { assert all[i] == rs[i - 1]; }
    }
  }

  /** Sorting by age the key-ordered listing of a map gives the rows in order of (access time, key). */
  lemma {:induction false} SortByAgeOrdered(rs: seq<Row>)
    requires KeySorted(rs)
    ensures OldestFirst(SortByAge(rs))
  {
    if rs != [] {
      SortByAgeOrdered(rs[1..]);
      SortByAgeSame(rs[1..]);
      forall x <- SortByAge(rs[1..]) ensures KeyLe(rs[0].key, x.key) && rs[0].key != x.key {
        assert x in multiset(SortByAge(rs[1..]));
        assert x in rs[1..];
      }
      InsertByAgeOrdered(rs[0], SortByAge(rs[1..]));
    }
  }

  // ---- sizes ----

  function Sum(rs: seq<Row>): nat { if rs == [] then 0 else rs[0].entry.size + Sum(rs[1..]) }

  lemma {:induction false} SumConcat(a: seq<Row>, b: seq<Row>)
    ensures Sum(a + b) == Sum(a) + Sum(b)
  {
    if a == [] {
      assert a + b == b;
    } else {
      SumConcat(a[1..], b);
      assert (a + b)[1..] == a[1..] + b;
    }
  }

  lemma SumOneMore(rs: seq<Row>, r: Row)
    ensures Sum(rs + [r]) == Sum(rs) + r.entry.size
  {
    SumConcat(rs, [r]);
  }

  lemma {:induction false} SumPermuted(a: seq<Row>, b: seq<Row>)
    requires multiset(a) == multiset(b)
    ensures Sum(a) == Sum(b)
  {
    if a == [] {
      assert |multiset(b)| == |b|;
    } else {
      var r := a[0];
      assert a == [r] + a[1..];
      assert r in multiset(b);
      var i :| 0 <= i < |b| && b[i] == r;
      var rest := SumWithout(b, i);
      assert multiset(a[1..]) == multiset(a) - multiset{r};
      SumPermuted(a[1..], rest);
    }
  }

  lemma SumWithout(b: seq<Row>, i: nat) returns (rest: seq<Row>)
    requires i < |b|
    ensures multiset(rest) == multiset(b) - multiset{b[i]} && Sum(b) == b[i].entry.size + Sum(rest)
  {
    var x, r, y := b[..i], b[i], b[i + 1..];
    rest := x + y;
    assert b == x + ([r] + y) && ([r] + y)[1..] == y;
    SumConcat(x, y);
    SumConcat(x, [r] + y);
  }

  /** Bytes the index accounts for. */
  function Total(rows: Rows): nat { Sum(SortedRows(rows)) }

  // ---- the rows to take ----

  predicate Evictable(fs: Fs, keepLinked: bool, r: Row) { !(keepLinked && Pinned(fs, r.entry.hash)) }

  function EvictableOf(fs: Fs, keepLinked: bool, rs: seq<Row>): seq<Row> {
    if rs == [] then []
    else EvictableOf(fs, keepLinked, rs[..|rs| - 1]) +
         (if Evictable(fs, keepLinked, rs[|rs| - 1]) then [rs[|rs| - 1]] else [])
  }

  /** How many of `es` have to go, from the front, before the total drops below `low`; all of them if it never does. */
  function Needed(es: seq<Row>, total: int, low: nat): (k: nat)
    ensures k <= |es|
  {
    if es == [] || total < low then 0 else 1 + Needed(es[1..], total - es[0].entry.size, low)
  }

  lemma {:induction false} NeededIsShortest(es: seq<Row>, total: int, low: nat)
    ensures var k := Needed(es, total, low);
      && (k == |es| || total - Sum(es[..k]) < low)
      && forall j | 0 <= j < k :: total - Sum(es[..j]) >= low
  {
    if es != [] && total >= low {
      var k := Needed(es, total, low);
      NeededIsShortest(es[1..], total - es[0].entry.size, low);
      forall j | 0 < j <= k ensures Sum(es[..j]) == es[0].entry.size + Sum(es[1..][..j - 1]) {
        assert es[..j][1..] == es[1..][..j - 1];
      }
    }
  }

  function Taken(fs: Fs, rows: Rows, high: nat, low: nat, keepLinked: bool): seq<Row> {
    if Total(rows) < high then [] else
    var es := EvictableOf(fs, keepLinked, SortByAge(SortedRows(rows)));
    es[..Needed(es, Total(rows), low)]
  }

  function Keys(rs: seq<Row>): set<Key> { set r <- rs :: r.key }
  function Objects(rs: seq<Row>): set<Name> { set r <- rs :: Obj(r.entry.hash) }

  function Without(fs: Fs, rs: seq<Row>): Fs { fs.(names := fs.names - Objects(rs)) }

  // ---- following the pass row by row ----

  lemma {:induction false} EvictablePrefix(fs: Fs, keepLinked: bool, rs: seq<Row>, i: nat)
    requires i <= |rs|
    ensures EvictableOf(fs, keepLinked, rs[..i]) <= EvictableOf(fs, keepLinked, rs)
    decreases |rs|
  {
    if i < |rs| {
      var n := |rs| - 1;
      EvictablePrefix(fs, keepLinked, rs[..n], i);
      assert rs[..n][..i] == rs[..i];
    } else {
      assert rs[..i] == rs;
    }
  }

  lemma {:induction false} EvictableFacts(fs: Fs, keepLinked: bool, rs: seq<Row>)
    ensures var es := EvictableOf(fs, keepLinked, rs);
      && Sum(es) <= Sum(rs) && |es| <= |rs|
      && (forall r <- es :: r in rs && Evictable(fs, keepLinked, r))
      && (forall r <- rs :: Evictable(fs, keepLinked, r) ==> r in es)
  {
    hide Sum;
    hide Evictable;
    if rs == [] {
      NoSum();
    } else {
      var n := |rs| - 1;
      var fewer := EvictableOf(fs, keepLinked, rs[..n]);
      EvictableFacts(fs, keepLinked, rs[..n]);
      assert rs == rs[..n] + [rs[n]];
      SumOneMore(rs[..n], rs[n]);
      SumOneMore(fewer, rs[n]);
      assert fewer + [] == fewer;
    }
  }

  lemma NoSum()
    ensures Sum([]) == 0
  {
  }

  lemma EvictableStep(fs: Fs, keepLinked: bool, rs: seq<Row>, i: nat)
    requires i < |rs|
    ensures EvictableOf(fs, keepLinked, rs[..i + 1]) ==
      EvictableOf(fs, keepLinked, rs[..i]) + (if Evictable(fs, keepLinked, rs[i]) then [rs[i]] else [])
  {
    assert rs[..i + 1][..i] == rs[..i];
  }

  /** Any count with the defining properties of the shortest prefix is `Needed`. */
  lemma NeededUnique(es: seq<Row>, total: int, low: nat, n: nat)
    requires n <= |es| && (n == |es| || total - Sum(es[..n]) < low)
    requires forall j | 0 <= j < n :: total - Sum(es[..j]) >= low
    ensures Needed(es, total, low) == n
  {
    NeededIsShortest(es, total, low);
  }

  /** How many rows are dealt with before the total is seen to be below `low`. */
  function Visited(fs: Fs, keepLinked: bool, rs: seq<Row>, total: int, low: nat): (p: nat)
    ensures p <= |rs|
  {
    if rs == [] || total < low then 0
    else 1 + Visited(fs, keepLinked, rs[1..],
                     if Evictable(fs, keepLinked, rs[0]) then total - rs[0].entry.size else total, low)
  }

  lemma {:induction false} EvictableCons(fs: Fs, keepLinked: bool, r: Row, rs: seq<Row>)
    ensures EvictableOf(fs, keepLinked, [r] + rs) ==
      (if Evictable(fs, keepLinked, r) then [r] else []) + EvictableOf(fs, keepLinked, rs)
  {
    if rs == [] {
      assert [r] + rs == [r] && [r][..0] == [];
    } else {
      var n := |rs| - 1;
      EvictableCons(fs, keepLinked, r, rs[..n]);
      assert ([r] + rs)[..n + 1] == [r] + rs[..n];
    }
  }

  lemma {:induction false} VisitedUnique(fs: Fs, keepLinked: bool, rs: seq<Row>, total: int, low: nat, p: nat)
    requires p <= |rs| && (p == |rs| || total - Sum(EvictableOf(fs, keepLinked, rs[..p])) < low)
    requires forall j | 0 <= j < p :: total - Sum(EvictableOf(fs, keepLinked, rs[..j])) >= low
    ensures Visited(fs, keepLinked, rs, total, low) == p
  {
    hide Sum;
    hide Evictable;
    hide EvictableOf;
    VisitStart(fs, keepLinked, rs);
    if p > 0 {
      var r, rest := rs[0], rs[1..];
      var left := if Evictable(fs, keepLinked, r) then total - r.entry.size else total;
      assert total - Sum(EvictableOf(fs, keepLinked, rs[..0])) >= low;
      forall j | 0 <= j < p
        ensures total - Sum(EvictableOf(fs, keepLinked, rs[..j + 1])) ==
                left - Sum(EvictableOf(fs, keepLinked, rest[..j]))
      {
        VisitShift(fs, keepLinked, rs, j);
      }
      VisitedUnique(fs, keepLinked, rest, left, low, p - 1);
    }
  }

  lemma VisitStart(fs: Fs, keepLinked: bool, rs: seq<Row>)
    ensures Sum(EvictableOf(fs, keepLinked, rs[..0])) == 0
  {
    assert rs[..0] == [];
  }

  lemma VisitShift(fs: Fs, keepLinked: bool, rs: seq<Row>, j: nat)
    requires j < |rs|
    ensures Sum(EvictableOf(fs, keepLinked, rs[..j + 1]))
         == (if Evictable(fs, keepLinked, rs[0]) then rs[0].entry.size else 0)
          + Sum(EvictableOf(fs, keepLinked, rs[1..][..j]))
  {
    hide EvictableOf;
    hide Evictable;
    var r, rest := rs[0], rs[1..][..j];
    assert rs[..j + 1] == [r] + rest;
    EvictableCons(fs, keepLinked, r, rest);
    SumConcat(if Evictable(fs, keepLinked, r) then [r] else [], EvictableOf(fs, keepLinked, rest));
  }

  /** The rows among `ev` whose blob was still there when their turn came. */
  function Deleters(fs: Fs, ev: seq<Row>): seq<Row> {
    if ev == [] then [] else
    var n := |ev| - 1;
    Deleters(fs, ev[..n]) +
      (if Obj(ev[n].entry.hash) in fs.names - Objects(ev[..n]) then [ev[n]] else [])
  }

  lemma SortedFacts(rows: Rows)
    ensures var sorted := SortByAge(SortedRows(rows));
      && Sum(sorted) == Total(rows)
      && forall r <- sorted :: r.key in rows && rows[r.key] == r.entry
  {
    var rs := SortedRows(rows);
    SortByAgeSame(rs);
    SumPermuted(SortByAge(rs), rs);
    SortedRowsList(rows);
    forall r <- SortByAge(rs) ensures r in rs {
      assert r in multiset(SortByAge(rs));
    }
  }

  lemma {:induction false} EvictableOrdered(fs: Fs, keepLinked: bool, rs: seq<Row>)
    requires OldestFirst(rs)
    ensures OldestFirst(EvictableOf(fs, keepLinked, rs))
  {
    if rs != [] {
      var n := |rs| - 1;
      var fewer := EvictableOf(fs, keepLinked, rs[..n]);
      EvictableOrdered(fs, keepLinked, rs[..n]);
      EvictableFacts(fs, keepLinked, rs[..n]);
      forall x <- fewer ensures Older(x, rs[n]) {
        var i :| 0 <= i < n && rs[i] == x;
      }
    }
  }

  lemma TakenOf(fs: Fs, rows: Rows, high: nat, low: nat, keepLinked: bool)
    requires Total(rows) >= high
    ensures var taken := Taken(fs, rows, high, low, keepLinked);
      && (forall r <- taken :: r.key in rows && rows[r.key] == r.entry && Evictable(fs, keepLinked, r))
      && OldestFirst(taken)
      && (forall r <- taken, k <- rows :: Evictable(fs, keepLinked, Row(k, rows[k])) && Row(k, rows[k]) !in taken ==>
            Older(r, Row(k, rows[k])))
      && (forall j | 0 <= j < |taken| :: Total(rows) - Sum(taken[..j]) >= low)
      && (|| Total(rows) - Sum(taken) < low
          || forall k <- rows :: Evictable(fs, keepLinked, Row(k, rows[k])) ==> Row(k, rows[k]) in taken)
  {
    hide SortByAge;
    hide SortedRows;
    hide Needed;
    hide Total;
    var sorted := SortByAge(SortedRows(rows));
    var es := EvictableOf(fs, keepLinked, sorted);
    var n := Needed(es, Total(rows), low);
    var taken := Taken(fs, rows, high, low, keepLinked);
    SortedRowsOrdered(rows);
    SortByAgeOrdered(SortedRows(rows));
    EvictableOrdered(fs, keepLinked, sorted);
    EvictableAll(fs, rows, keepLinked);
    NeededIsShortest(es, Total(rows), low);
    PrefixFacts(es, n);
    assert taken == es[..n];
    hide EvictableOf;
    hide Evictable;
    hide OldestFirst;
    hide Older;
    hide Sum;
    hide Taken;
  }

  lemma PrefixFacts(es: seq<Row>, n: nat)
    requires OldestFirst(es) && n <= |es|
    ensures OldestFirst(es[..n])
    ensures forall r <- es[..n], x <- es :: x !in es[..n] ==> Older(r, x)
    ensures forall j | 0 <= j < n :: es[..n][..j] == es[..j]
    ensures n == |es| ==> es[..n] == es
  {
    hide Older;
    forall r <- es[..n], x <- es | x !in es[..n] ensures Older(r, x) {
      var i, j :| 0 <= i < n && es[i] == r && 0 <= j < |es| && es[j] == x;
    }
  }

  lemma EvictableAll(fs: Fs, rows: Rows, keepLinked: bool)
    ensures var es := EvictableOf(fs, keepLinked, SortByAge(SortedRows(rows)));
      && (forall r <- es :: r.key in rows && rows[r.key] == r.entry && Evictable(fs, keepLinked, r))
      && (forall k <- rows :: Evictable(fs, keepLinked, Row(k, rows[k])) ==> Row(k, rows[k]) in es)
  {
    hide Evictable;
    var sorted := SortByAge(SortedRows(rows));
    SortedFacts(rows);
    EvictableFacts(fs, keepLinked, sorted);
    SortByAgeSame(SortedRows(rows));
    SortedRowsList(rows);
    forall k <- rows ensures Row(k, rows[k]) in sorted {
      assert Row(k, rows[k]) in multiset(sorted);
    }
  }

  /** A row a pass may take: its blob has no second name, or second names do not count. */
  predicate MayGo(fs: Fs, keepLinked: bool, r: Row) { keepLinked ==> !Shared(fs, r.entry.hash) }

  lemma EvictableIffMayGo(fs: Fs, keepLinked: bool, r: Row)
    ensures Evictable(fs, keepLinked, r) <==> MayGo(fs, keepLinked, r)
  {
    PinnedIffShared(fs, r.entry.hash);
  }

  /**
    * What a pass takes: nothing below the high mark; otherwise rows whose blobs have no second name, if those are to be
    * kept, each older than every such row left behind, as few as bring the total strictly below the low mark, or all.
    */
  lemma TakenOldestAndFewest(fs: Fs, rows: Rows, high: nat, low: nat, keepLinked: bool)
    ensures var taken := Taken(fs, rows, high, low, keepLinked);
      && (forall r <- taken :: r.key in rows && rows[r.key] == r.entry && MayGo(fs, keepLinked, r))
      && OldestFirst(taken)
      && (forall r <- taken, k <- rows :: MayGo(fs, keepLinked, Row(k, rows[k])) && Row(k, rows[k]) !in taken ==>
            Older(r, Row(k, rows[k])))
      && (forall j | 0 <= j < |taken| :: Total(rows) - Sum(taken[..j]) >= low)
      && (if Total(rows) < high then taken == []
          else || Total(rows) - Sum(taken) < low
               || forall k <- rows :: MayGo(fs, keepLinked, Row(k, rows[k])) ==> Row(k, rows[k]) in taken)
  {
    hide Taken;
    hide Sum;
    hide Total;
    hide Older;
    hide OldestFirst;
    forall r: Row ensures Evictable(fs, keepLinked, r) <==> MayGo(fs, keepLinked, r) {
      EvictableIffMayGo(fs, keepLinked, r);
    }
    hide Evictable;
    hide MayGo;
    if Total(rows) < high {
      BelowHigh(fs, rows, high, low, keepLinked);
    } else {
      TakenOf(fs, rows, high, low, keepLinked);
    }
  }

  lemma BelowHigh(fs: Fs, rows: Rows, high: nat, low: nat, keepLinked: bool)
    requires Total(rows) < high
    ensures Taken(fs, rows, high, low, keepLinked) == [] && OldestFirst([])
  {
  }

  /** If a pass ran and there is still too much, it is because of second names: every row left has one, and without
      regard to them no row is left. */
  lemma LeftOnlyIfShared(fs: Fs, rows: Rows, high: nat, low: nat, keepLinked: bool, k: Key)
    requires Total(rows) >= high
    requires var taken := Taken(fs, rows, high, low, keepLinked);
      Total(rows - Keys(taken)) >= low && k in rows - Keys(taken)
    ensures keepLinked && Shared(fs, rows[k].hash)
  {
    hide Taken;
    hide Sum;
    hide Total;
    hide Older;
    hide OldestFirst;
    TakenOldestAndFewest(fs, rows, high, low, keepLinked);
    TotalAfterPass(fs, rows, high, low, keepLinked);
  }

  // ---- nothing is lost from the books ----

  lemma {:induction false} TotalMinusOne(rows: Rows, k: Key)
    requires k in rows
    ensures Total(rows) == rows[k].size + Total(rows - {k})
    decreases |rows|
  {
    hide IsFirst;
    var first := First(rows.Keys);
    FirstTotal(rows);
    if k != first {
      var fewer := rows - {first};
      assert fewer.Keys == rows.Keys - {first} && |fewer| < |rows|;
      TotalMinusOne(fewer, k);
      FirstWithout(rows.Keys, k);
      assert (rows - {k}).Keys == rows.Keys - {k};
      FirstTotal(rows - {k});
      assert (rows - {k}) - {first} == fewer - {k};
    }
  }

  lemma FirstTotal(rows: Rows)
    requires rows != map[]
    ensures var k := First(rows.Keys); k in rows && Total(rows) == rows[k].size + Total(rows - {k})
  {
    var k := First(rows.Keys);
    assert rows.Keys != {};
    var rest := SortedRows(rows - {k});
    assert SortedRows(rows) == [Row(k, rows[k])] + rest;
    assert ([Row(k, rows[k])] + rest)[1..] == rest;
  }

  lemma FirstWithout(s: set<Key>, k: Key)
    requires s != {} && k != First(s)
    ensures s - {k} != {} && First(s - {k}) == First(s)
  {
    assert First(s) in s - {k} && IsFirst(First(s), s - {k});
    FirstUnique(s - {k});
  }

  predicate DistinctKeys(rs: seq<Row>) { forall i, j | 0 <= i < j < |rs| :: rs[i].key != rs[j].key }

  lemma {:induction false} TotalWithout(rows: Rows, ev: seq<Row>)
    requires DistinctKeys(ev) && forall r <- ev :: r.key in rows && rows[r.key] == r.entry
    ensures Total(rows) == Sum(ev) + Total(rows - Keys(ev))
  {
    hide Total;
    if ev == [] {
      assert rows - Keys(ev) == rows;
    } else {
      hide Sum;
      var n := |ev| - 1;
      var r, fewer := ev[n], rows - Keys(ev[..n]);
      TotalWithout(rows, ev[..n]);
      LastStillThere(rows, ev);
      TotalMinusOne(fewer, r.key);
      assert ev == ev[..n] + [r];
      SumOneMore(ev[..n], r);
    }
  }

  lemma LastStillThere(rows: Rows, ev: seq<Row>)
    requires ev != [] && DistinctKeys(ev) && forall r <- ev :: r.key in rows && rows[r.key] == r.entry
    ensures var n := |ev| - 1; var r, fewer := ev[n], rows - Keys(ev[..n]);
      r.key in fewer && fewer[r.key] == r.entry && fewer - {r.key} == rows - Keys(ev)
  {
    var n := |ev| - 1;
    assert forall i | 0 <= i < n :: ev[..n][i].key != ev[n].key;
    assert ev == ev[..n] + [ev[n]];
  }

  /** What a pass takes from the total is what its rows accounted for: the bytes still indexed are the total it ends
      with. */
  lemma TotalAfterPass(fs: Fs, rows: Rows, high: nat, low: nat, keepLinked: bool)
    ensures var taken := Taken(fs, rows, high, low, keepLinked); Total(rows - Keys(taken)) == Total(rows) - Sum(taken)
  {
    if Total(rows) < high {
      assert rows - Keys([]) == rows;
    } else {
      TakenOf(fs, rows, high, low, keepLinked);
      TotalWithout(rows, Taken(fs, rows, high, low, keepLinked));
    }
  }
}
