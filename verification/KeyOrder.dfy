/** The order in which an ordered map of index keys is enumerated. */
module KeyOrder {
  import opened Bytes
  import opened Records

  predicate BytesLe(a: Bytes, b: Bytes) {
    a == [] || (b != [] && (a[0] < b[0] || (a[0] == b[0] && BytesLe(a[1..], b[1..]))))
  }

  lemma {:induction false} BytesTotal(a: Bytes, b: Bytes)
    ensures BytesLe(a, b) || BytesLe(b, a)
    ensures BytesLe(a, b) && BytesLe(b, a) ==> a == b
  {
    if a != [] && b != [] {
      BytesTotal(a[1..], b[1..]);
      assert a == [a[0]] + a[1..] && b == [b[0]] + b[1..];
    }
  }

  lemma {:induction false} BytesTransitive(a: Bytes, b: Bytes, c: Bytes)
    requires BytesLe(a, b) && BytesLe(b, c)
    ensures BytesLe(a, c)
  {
    if a != [] && a[0] == b[0] == c[0] {
      BytesTransitive(a[1..], b[1..], c[1..]);
    }
  }

  /** Field by field; a list that runs out first comes first, so an absent classifier precedes any present one. */
  predicate ListLe(a: seq<Bytes>, b: seq<Bytes>) {
    a == [] || (b != [] && if a[0] == b[0] then ListLe(a[1..], b[1..]) else BytesLe(a[0], b[0]))
  }

  lemma {:induction false} ListTotal(a: seq<Bytes>, b: seq<Bytes>)
    ensures ListLe(a, b) || ListLe(b, a)
    ensures ListLe(a, b) && ListLe(b, a) ==> a == b
  {
    if a != [] && b != [] {
      BytesTotal(a[0], b[0]);
      ListTotal(a[1..], b[1..]);
      assert a == [a[0]] + a[1..] && b == [b[0]] + b[1..];
    }
  }

  lemma {:induction false} ListTransitive(a: seq<Bytes>, b: seq<Bytes>, c: seq<Bytes>)
    requires ListLe(a, b) && ListLe(b, c)
    ensures ListLe(a, c)
  {
    if a != [] {
      if a[0] == b[0] == c[0] {
        ListTransitive(a[1..], b[1..], c[1..]);
      } else if a[0] != b[0] && b[0] != c[0] {
        BytesTransitive(a[0], b[0], c[0]);
        BytesTotal(a[0], b[0]);
      }
    }
  }

  function KeyFields(k: Key): seq<Bytes> {
    [k.coords.group, k.coords.artifact, k.version, k.kind] + (if k.classifier.Some? then [k.classifier.value] else [])
  }

  predicate KeyLe(a: Key, b: Key) { ListLe(KeyFields(a), KeyFields(b)) }

  lemma KeyTotal(a: Key, b: Key)
    ensures KeyLe(a, b) || KeyLe(b, a)
    ensures KeyLe(a, b) && KeyLe(b, a) ==> a == b
  {
    ListTotal(KeyFields(a), KeyFields(b));
    var fa, fb := KeyFields(a), KeyFields(b);
    if fa == fb {
      assert fa[0] == fb[0] && fa[1] == fb[1] && fa[2] == fb[2] && fa[3] == fb[3];
      if |fa| == 5 {
        assert fa[4] == fb[4];
      }
    }
  }

  lemma KeyTransitive(a: Key, b: Key, c: Key)
    requires KeyLe(a, b) && KeyLe(b, c)
    ensures KeyLe(a, c)
  {
    ListTransitive(KeyFields(a), KeyFields(b), KeyFields(c));
  }

  /** Bytes are compared as in a dictionary: a prefix comes first, otherwise the first difference decides. */
  lemma {:induction false} BytesLeMeans(a: Bytes, b: Bytes)
    ensures BytesLe(a, b) <==>
      a <= b || exists i | 0 <= i < |a| && i < |b| :: a[..i] == b[..i] && a[i] < b[i]
  {
    if a != [] && b != [] {
      if a[0] == b[0] {
        BytesLeMeans(a[1..], b[1..]);
        FirstDifference(a, b);
        assert a <= b <==> a[1..] <= b[1..];
      } else {
        assert a[..0] == b[..0];
        assert forall i | 0 < i <= |a| && i <= |b| :: a[..i][0] == a[0] && b[..i][0] == b[0];
      }
    }
  }

  lemma FirstDifference(a: Bytes, b: Bytes)
    requires a != [] && b != [] && a[0] == b[0]
    ensures (exists i | 0 <= i < |a| && i < |b| :: a[..i] == b[..i] && a[i] < b[i]) <==>
      exists i | 0 <= i < |a| - 1 && i < |b| - 1 :: a[1..][..i] == b[1..][..i] && a[1..][i] < b[1..][i]
  {
    forall i | 0 <= i < |a| && i < |b| && a[..i] == b[..i] && a[i] < b[i]
      ensures exists j | 0 <= j < |a| - 1 && j < |b| - 1 :: a[1..][..j] == b[1..][..j] && a[1..][j] < b[1..][j]
    {
      var j := i - 1;
      assert a[1..][..j] == a[..i][1..] && b[1..][..j] == b[..i][1..] && a[1..][j] == a[i] && b[1..][j] == b[i];
    }
    forall j | 0 <= j < |a| - 1 && j < |b| - 1 && a[1..][..j] == b[1..][..j] && a[1..][j] < b[1..][j]
      ensures exists i | 0 <= i < |a| && i < |b| :: a[..i] == b[..i] && a[i] < b[i]
    {
      var i := j + 1;
      assert a[..i] == [a[0]] + a[1..][..j] && b[..i] == [b[0]] + b[1..][..j] && a[i] == a[1..][j] && b[i] == b[1..][j];
    }
  }

  /** Group, artifact, version, type and classifier decide in this order; no classifier comes before any. */
  lemma KeyLeMeans(a: Key, b: Key)
    ensures KeyLe(a, b) <==>
      if a.coords.group != b.coords.group then BytesLe(a.coords.group, b.coords.group)
      else if a.coords.artifact != b.coords.artifact then BytesLe(a.coords.artifact, b.coords.artifact)
      else if a.version != b.version then BytesLe(a.version, b.version)
      else if a.kind != b.kind then BytesLe(a.kind, b.kind)
      else a.classifier.None? || (b.classifier.Some? && BytesLe(a.classifier.value, b.classifier.value))
  {
    hide BytesLe;
    var x, y := KeyFields(a), KeyFields(b);
    assert x[1..][1..][1..][1..] == x[4..] && y[1..][1..][1..][1..] == y[4..];
    LastFieldLe(a, b);
    hide KeyFields;
    assert forall i | 0 <= i < 4 :: x[i] == x[..4][i] && y[i] == y[..4][i];
    assert ListLe(x, y) <==> if x[0] == y[0] then ListLe(x[1..], y[1..]) else BytesLe(x[0], y[0]);
    assert ListLe(x[1..], y[1..]) <==> if x[1] == y[1] then ListLe(x[1..][1..], y[1..][1..]) else BytesLe(x[1], y[1]);
    assert x[1..][1..] == x[2..] && y[1..][1..] == y[2..] && x[2..][1..] == x[3..] && y[2..][1..] == y[3..];
    assert ListLe(x[2..], y[2..]) <==> if x[2] == y[2] then ListLe(x[3..], y[3..]) else BytesLe(x[2], y[2]);
    assert x[3..][1..] == x[4..] && y[3..][1..] == y[4..];
    assert ListLe(x[3..], y[3..]) <==> if x[3] == y[3] then ListLe(x[4..], y[4..]) else BytesLe(x[3], y[3]);
  }

  lemma LastFieldLe(a: Key, b: Key)
    ensures |KeyFields(a)| >= 4 && |KeyFields(b)| >= 4
    ensures ListLe(KeyFields(a)[4..], KeyFields(b)[4..]) <==>
      a.classifier.None? || (b.classifier.Some? && BytesLe(a.classifier.value, b.classifier.value))
    ensures KeyFields(a)[..4] == [a.coords.group, a.coords.artifact, a.version, a.kind]
    ensures KeyFields(b)[..4] == [b.coords.group, b.coords.artifact, b.version, b.kind]
  {
    var x, y := KeyFields(a)[4..], KeyFields(b)[4..];
    assert x == if a.classifier.Some? then [a.classifier.value] else [];
    assert y == if b.classifier.Some? then [b.classifier.value] else [];
    if a.classifier.Some? && b.classifier.Some? {
      BytesTotal(a.classifier.value, b.classifier.value);
    }
  }

  predicate IsFirst(k: Key, s: set<Key>) { k in s && forall x <- s :: KeyLe(k, x) }

  lemma {:induction false} FirstExists(s: set<Key>) returns (k: Key)
    requires s != {}
    ensures IsFirst(k, s)
  {
    k :| k in s;
    KeyTotal(k, k);
    if s != {k} {
      var m := FirstExists(s - {k});
      KeyTotal(k, m);
      if KeyLe(k, m) {
        forall x <- s ensures KeyLe(k, x) {
          if x != k { KeyTransitive(k, m, x); }
        }
      } else {
        k := m;
      }
    }
  }

  lemma FirstUnique(s: set<Key>)
    ensures forall a, b | IsFirst(a, s) && IsFirst(b, s) :: a == b
  {
    forall a, b | IsFirst(a, s) && IsFirst(b, s) ensures a == b {
      KeyTotal(a, b);
    }
  }

  function First(s: set<Key>): (k: Key)
    requires s != {}
    ensures IsFirst(k, s)
  {
    assert exists k :: IsFirst(k, s) by { var k := FirstExists(s); }
    FirstUnique(s);
    var k :| k in s && IsFirst(k, s);
    k
  }

  /** The rows of a map in key order, as a snapshot or a scan of the index lists them. */
  function SortedRows(rows: Rows): seq<Row>
    decreases |rows|
  {
    if rows == map[] then [] else
    var k := First(rows.Keys);
    assert (rows - {k}).Keys == rows.Keys - {k};
    [Row(k, rows[k])] + SortedRows(rows - {k})
  }

  predicate KeySorted(rs: seq<Row>) {
    forall i, j | 0 <= i < j < |rs| :: KeyLe(rs[i].key, rs[j].key) && rs[i].key != rs[j].key
  }

  /** Inserting listed rows into a fresh map, later rows winning. */
  function FromRows(rs: seq<Row>): Rows {
    if rs == [] then map[] else FromRows(rs[..|rs| - 1])[rs[|rs| - 1].key := rs[|rs| - 1].entry]
  }

  predicate Lists(rs: seq<Row>, rows: Rows) {
    && (forall r <- rs :: r.key in rows && rows[r.key] == r.entry)
    && (forall k <- rows :: Row(k, rows[k]) in rs)
  }

  lemma {:induction false} SortedRowsList(rows: Rows)
    ensures Lists(SortedRows(rows), rows) && |SortedRows(rows)| == |rows|
    decreases |rows|
  {
    if rows != map[] {
      var k := First(rows.Keys);
      var fewer := rows - {k};
      assert fewer.Keys == rows.Keys - {k};
      SortedRowsList(fewer);
      var rest := SortedRows(fewer);
      assert SortedRows(rows) == [Row(k, rows[k])] + rest;
      forall x <- rows ensures Row(x, rows[x]) in SortedRows(rows) {
        if x != k {
          assert x in fewer && Row(x, fewer[x]) in rest;
        }
      }
    }
  }

  lemma {:induction false} SortedRowsOrdered(rows: Rows)
    ensures KeySorted(SortedRows(rows))
    decreases |rows|
  {
    if rows != map[] {
      var k := First(rows.Keys);
      var fewer := rows - {k};
      assert fewer.Keys == rows.Keys - {k};
      SortedRowsOrdered(fewer);
      SortedRowsList(fewer);
      var rest := SortedRows(fewer);
      ConsSorted(Row(k, rows[k]), rest);
    }
  }

  lemma ConsSorted(r: Row, rest: seq<Row>)
    requires KeySorted(rest) && forall x <- rest :: KeyLe(r.key, x.key) && r.key != x.key
    ensures KeySorted([r] + rest)
  {
    var rs := [r] + rest;
    forall i, j | 0 <= i < j < |rs| ensures KeyLe(rs[i].key, rs[j].key) && rs[i].key != rs[j].key {
      assert rs[j] == rest[j - 1] && rs[j] in rest;
      if i > 0 {
        assert rs[i] == rest[i - 1];
      }
    }
  }

  lemma {:induction false} FromRowsKeys(rs: seq<Row>)
    ensures forall k :: k in FromRows(rs) <==> exists r <- rs :: r.key == k
    ensures forall k <- FromRows(rs) :: Row(k, FromRows(rs)[k]) in rs
  {
    if rs != [] {
      var n := |rs| - 1;
      FromRowsKeys(rs[..n]);
      assert rs == rs[..n] + [rs[n]];
    }
  }

  /** Loading back a listing rebuilds the map it lists. */
  lemma FromSortedRows(rows: Rows)
    ensures FromRows(SortedRows(rows)) == rows
  {
    var rs := SortedRows(rows);
    SortedRowsList(rows);
    FromRowsKeys(rs);
    forall k ensures k in FromRows(rs) <==> k in rows {
      if k in rows {
        assert Row(k, rows[k]) in rs;
      }
    }
  }
}
