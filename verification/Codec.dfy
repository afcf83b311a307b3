/** A concrete serialised form for rows and mutations, and the law any such form has to obey.
    A record is a list of primitive values. Encoders take the bytes that follow (`tail`), so that a decoder undoes
    them one value at a time. */
module Codec {
  import opened Bytes
  import opened Records

  datatype Parsed<+T> = Malformed | Parsed(value: T, rest: Bytes) {
    predicate IsFailure() { Malformed? }
    function PropagateFailure<U>(): Parsed<U> requires Malformed? { Malformed }
    function Extract(): (T, Bytes) requires Parsed? { (value, rest) }
  }

  // ---- variable-length integers ----

  function PutInt(n: U64, tail: Bytes): Bytes {
    if n < 251 then [n] + tail
    else if n < 0x1_0000 then [251] + Le(n, 2) + tail
    else if n < 0x1_0000_0000 then [252] + Le(n, 4) + tail
    else [253] + Le(n, 8) + tail
  }

  function GetFixed(s: Bytes, w: nat): Parsed<nat> {
    if |s| < w then Malformed else Parsed(UnLe(s[..w]), s[w..])
  }

  function GetInt(s: Bytes): Parsed<nat> {
    if s == [] then Malformed
    else if s[0] < 251 then Parsed(s[0], s[1..])
    else if s[0] == 251 then GetFixed(s[1..], 2)
    else if s[0] == 252 then GetFixed(s[1..], 4)
    else if s[0] == 253 then GetFixed(s[1..], 8)
    else Malformed
  }

  lemma FixedRoundTrip(n: nat, w: nat, tail: Bytes)
    requires n < Pow256(w)
    ensures GetFixed(Le(n, w) + tail, w) == Parsed(n, tail)
  {
    LeRoundTrip(n, w);
    var s := Le(n, w) + tail;
    assert s[..w] == Le(n, w) && s[w..] == tail;
  }

  lemma IntRoundTrip(n: U64, tail: Bytes)
    ensures GetInt(PutInt(n, tail)) == Parsed(n, tail)
  {
    Pow256Values();
    var s := PutInt(n, tail);
    if n < 251 {
      assert s[1..] == tail;
    } else {
      var w := if n < 0x1_0000 then 2 else if n < 0x1_0000_0000 then 4 else 8;
      FixedRoundTrip(n, w, tail);
      assert s[1..] == Le(n, w) + tail;
    }
  }

  // ---- byte strings ----

  function PutRaw(s: Bytes, tail: Bytes): Bytes
    requires |s| < 0x1_0000_0000_0000_0000
  {
    PutInt(|s|, s + tail)
  }

  function GetRaw(s: Bytes): Parsed<Bytes> {
    var (n, rest) :- GetInt(s);
    if n > |rest| then Malformed else Parsed(rest[..n], rest[n..])
  }

  lemma RawRoundTrip(s: Bytes, tail: Bytes)
    requires |s| < 0x1_0000_0000_0000_0000
    ensures GetRaw(PutRaw(s, tail)) == Parsed(s, tail)
  {
    IntRoundTrip(|s|, s + tail);
    assert (s + tail)[..|s|] == s && (s + tail)[|s|..] == tail;
  }

  // ---- lists of primitive values ----

  datatype Value = Int(n: U64) | Text(s: Bytes) | Maybe(o: Option<Bytes>) | Hash(d: Digest)
  datatype Kind = IntKind | TextKind | MaybeKind | HashKind

  predicate Short(s: Bytes) { |s| < 0x1_0000_0000_0000_0000 }

  predicate Valid(v: Value) {
    match v
    case Text(s) => Short(s)
    case Maybe(o) => o.Some? ==> Short(o.value)
    case _ => true
  }

  function KindOf(v: Value): Kind {
    match v
    case Int(_) => IntKind
    case Text(_) => TextKind
    case Maybe(_) => MaybeKind
    case Hash(_) => HashKind
  }

  function PutValue(v: Value, tail: Bytes): Bytes
    requires Valid(v)
  {
    match v
    case Int(n) => PutInt(n, tail)
    case Text(s) => PutRaw(s, tail)
    case Maybe(o) => if o.None? then [0] + tail else [1] + PutRaw(o.value, tail)
    case Hash(d) => d + tail
  }

  function GetValue(kind: Kind, s: Bytes): Parsed<Value> {
    match kind
    case IntKind =>
      var (n, rest) :- GetInt(s);
      if n < 0x1_0000_0000_0000_0000 then Parsed(Int(n), rest) else Malformed
    case TextKind =>
      var (t, rest) :- GetRaw(s);
      Parsed(Text(t), rest)
    case MaybeKind =>
      if s == [] || s[0] > 1 then Malformed
      else if s[0] == 0 then Parsed(Maybe(None), s[1..])
      else
        var (t, rest) :- GetRaw(s[1..]);
        Parsed(Maybe(Some(t)), rest)
    case HashKind => if |s| < DIGEST_LEN then Malformed else Parsed(Hash(s[..DIGEST_LEN]), s[DIGEST_LEN..])
  }

  lemma ValueRoundTrip(v: Value, tail: Bytes)
    requires Valid(v)
    ensures GetValue(KindOf(v), PutValue(v, tail)) == Parsed(v, tail)
  {
    match v
    case Int(n) => IntRoundTrip(n, tail);
    case Text(s) => RawRoundTrip(s, tail);
    case Maybe(o) =>
      if o.Some? {
        RawRoundTrip(o.value, tail);
        assert ([1] + PutRaw(o.value, tail))[1..] == PutRaw(o.value, tail);
      } else {
        assert ([0] + tail)[1..] == tail;
      }
    case Hash(d) =>
      assert (d + tail)[..DIGEST_LEN] == d && (d + tail)[DIGEST_LEN..] == tail;
  }

  predicate AllValid(vs: seq<Value>) { forall v <- vs :: Valid(v) }

  function PutValues(vs: seq<Value>, tail: Bytes): Bytes
    requires AllValid(vs)
  {
    if vs == [] then tail else PutValue(vs[0], PutValues(vs[1..], tail))
  }

  function GetValues(kinds: seq<Kind>, s: Bytes): Parsed<seq<Value>> {
    if kinds == [] then Parsed([], s) else
    var (v, s1) :- GetValue(kinds[0], s);
    var (vs, s2) :- GetValues(kinds[1..], s1);
    Parsed([v] + vs, s2)
  }

  function Kinds(vs: seq<Value>): seq<Kind> { seq(|vs|, i requires 0 <= i < |vs| => KindOf(vs[i])) }

  lemma {:induction false} ValuesRoundTrip(vs: seq<Value>, tail: Bytes)
    requires AllValid(vs)
    ensures GetValues(Kinds(vs), PutValues(vs, tail)) == Parsed(vs, tail)
  {
    hide GetValue;
    hide PutValue;
    hide KindOf;
    if vs != [] {
      ValueRoundTrip(vs[0], PutValues(vs[1..], tail));
      ValuesRoundTrip(vs[1..], tail);
      assert Kinds(vs)[1..] == Kinds(vs[1..]);
      assert vs == [vs[0]] + vs[1..];
    }
  }

  // ---- rows ----

  const ROW_KINDS := [TextKind, TextKind, TextKind, MaybeKind, HashKind, IntKind, MaybeKind,
                      TextKind, MaybeKind, MaybeKind, MaybeKind, IntKind, IntKind, IntKind]

  function KeyValues(k: Key): (vs: seq<Value>)
    ensures AllValid(vs) && Kinds(vs) == ROW_KINDS[..4]
  {
    [Text(Joined(k.coords)), Text(k.version), Text(k.kind), Maybe(k.classifier)]
  }

  function EntryValues(e: Entry): (vs: seq<Value>)
    ensures AllValid(vs) && Kinds(vs) == ROW_KINDS[4..]
  {
    [Hash(e.hash), Int(e.size), Maybe(e.sha1), Text(e.origin.url), Maybe(e.origin.etag), Maybe(e.origin.lastModified),
     Maybe(e.origin.upstreamUpdated), Int(if e.origin.tier.Upstream? then 0 else 1), Int(e.atime), Int(e.created)]
  }

  predicate FitsMaybe(o: Option<Bytes>) { o.Some? ==> FitsStr(o.value) }

  function Narrowed(o: Option<Bytes>): (r: Option<Str>)
    requires FitsMaybe(o)
    ensures r == o
  {
    match o
    case None => None
    case Some(s) => Some(s)
  }

  function AsKey(vs: seq<Value>): Option<Key>
    requires Kinds(vs) == ROW_KINDS[..4]
  {
    assert forall i | 0 <= i < 4 :: Kinds(vs)[i] == KindOf(vs[i]);
    var coords := ParseCoords(vs[0].s);
    if coords.Some? && FitsStr(vs[1].s) && FitsStr(vs[2].s) && FitsMaybe(vs[3].o)
    then Some(Key(coords.value, vs[1].s, vs[2].s, Narrowed(vs[3].o)))
    else None
  }

  function AsEntry(vs: seq<Value>): Option<Entry>
    requires Kinds(vs) == ROW_KINDS[4..]
  {
    assert forall i | 0 <= i < 10 :: Kinds(vs)[i] == KindOf(vs[i]);
    if FitsMaybe(vs[2].o) && FitsStr(vs[3].s) && FitsMaybe(vs[4].o) && FitsMaybe(vs[5].o) && FitsMaybe(vs[6].o)
       && vs[7].n <= 1
    then
      var tier := if vs[7].n == 0 then Upstream else Roastery;
      var origin := Origin(vs[3].s, Narrowed(vs[4].o), Narrowed(vs[5].o), Narrowed(vs[6].o), tier);
      Some(Entry(vs[0].d, vs[1].n, Narrowed(vs[2].o), origin, vs[8].n, vs[9].n))
    else None
  }

  lemma KeyValuesRoundTrip(k: Key)
    ensures AsKey(KeyValues(k)) == if Storable(k.coords) then Some(k) else None
  {
    CoordsRoundTrip(k.coords);
  }

  lemma {:induction false} GetValuesKinds(kinds: seq<Kind>, s: Bytes)
    ensures var r := GetValues(kinds, s); r.Parsed? ==> Kinds(r.value) == kinds
  {
    if kinds != [] && GetValue(kinds[0], s).Parsed? {
      GetValuesKinds(kinds[1..], GetValue(kinds[0], s).rest);
    }
  }

  function PutKey(k: Key, tail: Bytes): Bytes { PutValues(KeyValues(k), tail) }

  function GetKey(s: Bytes): Parsed<Key> {
    var (vs, rest) :- GetValues(ROW_KINDS[..4], s);
    GetValuesKinds(ROW_KINDS[..4], s);
    match AsKey(vs)
    case None => Malformed
    case Some(k) => Parsed(k, rest)
  }

  lemma KeyRoundTrip(k: Key, tail: Bytes)
    ensures GetKey(PutKey(k, tail)) == if Storable(k.coords) then Parsed(k, tail) else Malformed
  {
    ValuesRoundTrip(KeyValues(k), tail);
    KeyValuesRoundTrip(k);
  }

  function PutEntry(e: Entry, tail: Bytes): Bytes { PutValues(EntryValues(e), tail) }

  function GetEntry(s: Bytes): Parsed<Entry> {
    var (vs, rest) :- GetValues(ROW_KINDS[4..], s);
    GetValuesKinds(ROW_KINDS[4..], s);
    match AsEntry(vs)
    case None => Malformed
    case Some(e) => Parsed(e, rest)
  }

  lemma EntryRoundTrip(e: Entry, tail: Bytes)
    ensures GetEntry(PutEntry(e, tail)) == Parsed(e, tail)
  {
    ValuesRoundTrip(EntryValues(e), tail);
  }

  // ---- journal payloads ----

  function Encode(m: Mutation): Bytes {
    match m
    case Put(k, e) => [0] + PutKey(k, PutEntry(e, []))
    case Remove(k) => [1] + PutKey(k, [])
    case Touch(k, t) => [2] + PutKey(k, PutInt(t, []))
  }

  function GetMutation(s: Bytes): Parsed<Mutation> {
    if s == [] || s[0] > 2 then Malformed else
    var (k, s1) :- GetKey(s[1..]);
    if s[0] == 0 then
      var (e, s2) :- GetEntry(s1);
      Parsed(Put(k, e), s2)
    else if s[0] == 1 then Parsed(Remove(k), s1)
    else
      var (v, s2) :- GetValue(IntKind, s1);
      Parsed(Touch(k, v.n), s2)
  }

  /** Bytes left over after the value are not an error. */
  function Decode(s: Bytes): Option<Mutation> {
    match GetMutation(s)
    case Malformed => None
    case Parsed(m, _) => Some(m)
  }

  /** A mutation is read back exactly when its coordinates are storable; otherwise decoding fails. */
  lemma MutationRoundTrip(m: Mutation)
    ensures Decode(Encode(m)) == if Storable(m.key.coords) then Some(m) else None
  {
    var tail := match m case Put(_, e) => PutEntry(e, []) case Remove(_) => [] case Touch(_, t) => PutInt(t, []);
    KeyRoundTrip(m.key, tail);
    assert Encode(m)[1..] == PutKey(m.key, tail);
    match m
    case Put(k, e) => EntryRoundTrip(e, []);
    case Remove(k) =>
    case Touch(k, t) => IntRoundTrip(t, []);
  }

  // ---- snapshot bodies ----

  /** Each row is announced by a 1; a 0 closes the list. */
  function PutRows(rows: seq<Row>): (s: Bytes) {
    if rows == [] then [0] else [1] + PutKey(rows[0].key, PutEntry(rows[0].entry, PutRows(rows[1..])))
  }

  function GetRow(s: Bytes): Parsed<Row> {
    var (k, s1) :- GetKey(s);
    var (e, s2) :- GetEntry(s1);
    Parsed(Row(k, e), s2)
  }

  function GetRows(s: Bytes): Option<seq<Row>>
    decreases |s|
  {
    if s == [] || s[0] > 1 then None
    else if s[0] == 0 then Some([])
    else
      match GetRow(s[1..])
      case Malformed => None
      case Parsed(r, s1) =>
        if |s1| >= |s| then None else
        match GetRows(s1)
        case None => None
        case Some(rows) => Some([r] + rows)
  }

  lemma {:induction false} PutValuesGrows(vs: seq<Value>, tail: Bytes)
    requires AllValid(vs)
    ensures |PutValues(vs, tail)| >= |tail|
  {
    if vs != [] {
      PutValuesGrows(vs[1..], tail);
    }
  }

  lemma {:induction false} RowsRoundTrip(rows: seq<Row>)
    ensures GetRows(PutRows(rows)) == if StorableRows(rows) then Some(rows) else None
  {
    if rows != [] {
      var r, rest := rows[0], PutRows(rows[1..]);
      RowsRoundTrip(rows[1..]);
      EntryRoundTrip(r.entry, rest);
      KeyRoundTrip(r.key, PutEntry(r.entry, rest));
      PutValuesGrows(EntryValues(r.entry), rest);
      PutValuesGrows(KeyValues(r.key), PutEntry(r.entry, rest));
      assert PutRows(rows)[1..] == PutKey(r.key, PutEntry(r.entry, rest));
      assert rows == [r] + rows[1..];
      assert StorableRows(rows) <==> StorableRow(r) && StorableRows(rows[1..]);
    }
  }

  // ---- any codec with the round-trip law ----

  datatype Codec = Codec(encode: Mutation -> Bytes, decode: Bytes -> Option<Mutation>,
                         encodeRows: seq<Row> -> Bytes, decodeRows: Bytes -> Option<seq<Row>>)

  ghost predicate Lawful(c: Codec) {
    && (forall m :: c.decode(c.encode(m)) == if Storable(m.key.coords) then Some(m) else None)
    && (forall rows :: c.decodeRows(c.encodeRows(rows)) == if StorableRows(rows) then Some(rows) else None)
    && (forall s :: c.decode(s).Some? ==> Storable(c.decode(s).value.key.coords))
    && (forall s :: c.decodeRows(s).Some? ==> StorableRows(c.decodeRows(s).value))
  }

  const Standard := Codec(Encode, Decode, PutRows, GetRows)

  lemma DecodedStorable(s: Bytes)
    ensures Decode(s).Some? ==> Storable(Decode(s).value.key.coords)
  {
    if s != [] {
      GotKeyStorable(s[1..]);
    }
  }

  lemma GotKeyStorable(s: Bytes)
    ensures GetKey(s).Parsed? ==> Storable(GetKey(s).value.coords)
  {
    var r := GetValues(ROW_KINDS[..4], s);
    if r.Parsed? {
      GetValuesKinds(ROW_KINDS[..4], s);
      assert Kinds(r.value)[0] == KindOf(r.value[0]);
      ParsedStorable(r.value[0].s);
    }
  }

  lemma {:induction false} GotRowsStorable(s: Bytes)
    ensures GetRows(s).Some? ==> StorableRows(GetRows(s).value)
    decreases |s|
  {
    if GetRows(s).Some? && s[0] == 1 {
      GotKeyStorable(s[1..]);
      GotRowsStorable(GetRow(s[1..]).rest);
    }
  }

  lemma StandardIsLawful()
    ensures Lawful(Standard)
  {
    forall m ensures Standard.decode(Standard.encode(m)) == if Storable(m.key.coords) then Some(m) else None {
      MutationRoundTrip(m);
    }
    forall rows
      ensures Standard.decodeRows(Standard.encodeRows(rows)) == if StorableRows(rows) then Some(rows) else None
    {
      RowsRoundTrip(rows);
    }
    forall s ensures Standard.decode(s).Some? ==> Storable(Standard.decode(s).value.key.coords) {
      DecodedStorable(s);
    }
    forall s ensures Standard.decodeRows(s).Some? ==> StorableRows(Standard.decodeRows(s).value) {
      GotRowsStorable(s);
    }
  }

  type LawfulCodec = c: Codec | Lawful(c) witness (StandardIsLawful(); Standard)

  /** The codec of the journal and the snapshot: any lawful one, so that nothing below depends on the byte layout. */
  const codec: LawfulCodec
}
