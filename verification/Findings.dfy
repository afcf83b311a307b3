/** Finding drafts: reading their frontmatter and promoting them under a new id. */
module Findings {
  import opened Bytes
  import opened Text

  // ---- searching text ----

  predicate At(s: string, p: string, i: nat) { i + |p| <= |s| && s[i..i + |p|] == p }

  /** The first occurrence at or after `i`. */
  function Find(s: string, p: string, i: nat): (r: Option<nat>)
    ensures r.Some? ==> i <= r.value && At(s, p, r.value) && forall j | i <= j < r.value :: !At(s, p, j)
    ensures r.None? ==> forall j | i <= j :: !At(s, p, j)
    decreases |s| - i
  {
    if i + |p| > |s| then None
    else if At(s, p, i) then Some(i)
    else if i == |s| then None
    else Find(s, p, i + 1)
  }

  /** Occurrences counted left to right without overlap. */
  function Count(s: string, p: string, i: nat): nat
    requires p != ""
    decreases |s| - i
  {
    match Find(s, p, i)
    case None => 0
    case Some(j) => 1 + Count(s, p, j + |p|)
  }

  // ---- one line ----

  function Unquoted(s: string): string {
    if |s| >= 2 && ((s[0] == '"' && s[|s| - 1] == '"') || (s[0] == '\'' && s[|s| - 1] == '\''))
    then s[1..|s| - 1] else s
  }

  /** Where the first colon is; the length if there is none. */
  function Colon(s: string): (n: nat)
    ensures n <= |s| && ':' !in s[..n] && (n < |s| ==> s[n] == ':')
  {
    if s == "" || s[0] == ':' then 0 else
    var n := Colon(s[1..]);
    assert s[..n + 1] == [s[0]] + s[1..][..n];
    1 + n
  }

  datatype Line = Skipped | Field(key: string, value: string, raw: string)

  function ReadLine(line: string): Line {
    var full := TrimEnd(line);
    var start := TrimStart(full);
    if start == "" || start[0] == '#' then Skipped
    else if line[0] == ' ' || line[0] == '\t' then Skipped
    else
      var n := Colon(full);
      if n == |full| then Skipped else
      var value := Trim(full[n + 1..]);
      if value == "" then Skipped else Field(Trim(full[..n]), Unquoted(value), full)
  }

  /** A value in matching quotes loses them; any other stays as it is. */
  lemma UnquotedMeans(s: string, inner: string)
    ensures Unquoted("\"" + inner + "\"") == inner && Unquoted("'" + inner + "'") == inner
    ensures (forall q: string, x: string :: (q == "\"" || q == "'") ==> s != q + x + q) ==> Unquoted(s) == s
  {
    if |s| >= 2 && s[0] == s[|s| - 1] {
      var q, x := [s[0]], s[1..|s| - 1];
      assert s == q + x + q;
    }
  }

  /** Where a line says nothing: blank, a comment, indented, without a colon, or with nothing after its first colon. */
  predicate SaysNothing(line: string) {
    || AllWs(line) || TrimStart(line)[0] == '#' || line[0] == ' ' || line[0] == '\t'
    || ':' !in line || AllWs(line[Colon(line) + 1..])
  }

  /** A line that says something: the text before its first colon, and the value after it, each without the whitespace
      around it. */
  lemma LineMeans(key: string, pad: string, value: string, after: string)
    requires ':' !in key && AllWs(pad) && AllWs(after)
    requires value != "" && !IsWs(value[0]) && !IsWs(value[|value| - 1])
    requires var full := key + ":" + pad + value;
      (TrimStart(full) == "" || TrimStart(full)[0] != '#') && full[0] != ' ' && full[0] != '\t'
    ensures ReadLine(key + ":" + pad + value + after) == Field(Trim(key), Unquoted(value), key + ":" + pad + value)
  {
    hide TrimStart;
    hide TrimEnd;
    hide Unquoted;
    hide IsWs;
    hide AllWs;
    hide Colon;
    var full := key + ":" + pad + value;
    LineParts(key, pad, value);
    TrimEndStops(full, after);
    SomethingLeft(full);
    ColonIs(full, |key|);
    NoWsAfter();
    TrimAround(pad, value, "");
    assert pad + value + "" == pad + value;
    assert (full + after)[0] == full[0];
    hide Trim;
  }

  lemma NoWsAfter()
    ensures AllWs("")
  {
  }

  lemma LineParts(key: string, pad: string, value: string)
    requires value != ""
    ensures var full, n := key + ":" + pad + value, |key|;
      && n < |full| && full[n] == ':' && full[..n] == key && full[n + 1..] == pad + value
      && full[|full| - 1] == value[|value| - 1]
  {
  }

  lemma SomethingLeft(s: string)
    requires s != "" && !IsWs(s[|s| - 1])
    ensures TrimStart(s) != ""
  {
    assert s[..|s|] == s && s[|s| - 1] in s;
  }

  /** Which lines say nothing. */
  lemma SkippedMeans(line: string)
    ensures ReadLine(line).Skipped? <==> SaysNothing(line)
  {
    hide IsWs;
    hide Colon;
    var full := TrimEnd(line);
    var tail := line[|full|..];
    assert line == full + tail;
    if AllWs(line) {
      AllTrimmed(line);
    } else {
      SkippedRest(line, full, tail);
    }
  }

  lemma SkippedRest(line: string, full: string, tail: string)
    requires !AllWs(line) && full == TrimEnd(line) && line == full + tail && AllWs(tail)
    ensures ReadLine(line).Skipped? <==> SaysNothing(line)
  {
    hide ReadLine;
    hide IsWs;
    hide Colon;
    hide TrimStart;
    hide TrimEnd;
    StartsSame(line, full, tail);
    NothingSame(full, tail);
    SkippedIff(line);
    hide Trim;
    hide AllWs;
  }

  lemma StartsSame(line: string, full: string, tail: string)
    requires !AllWs(line) && full == TrimEnd(line) && line == full + tail && AllWs(tail)
    ensures full != "" && line != "" && TrimStart(full) != ""
    ensures TrimStart(line) != "" && TrimStart(line)[0] == TrimStart(full)[0]
  {
    hide IsWs;
    hide TrimStart;
    NotBlank(full, tail);
    SomethingLeft(full);
    StartKept(full, tail);
  }

  lemma NothingSame(full: string, tail: string)
    requires AllWs(tail)
    ensures var n := Colon(full);
      (n == |full| || Trim(full[n + 1..]) == "") <==>
      (':' !in full + tail || AllWs((full + tail)[Colon(full + tail) + 1..]))
  {
    hide IsWs;
    hide Colon;
    hide Trim;
    NoColonIn(tail);
    ColonKept(full, tail);
    var n := Colon(full);
    if n < |full| {
      ValueBlank(full, tail, n);
    }
    hide AllWs;
  }

  lemma SkippedIff(line: string)
    requires line != "" && TrimStart(TrimEnd(line)) != ""
    ensures var full := TrimEnd(line); var n := Colon(full);
      ReadLine(line).Skipped? <==>
        || TrimStart(full)[0] == '#' || line[0] == ' ' || line[0] == '\t'
        || n == |full| || Trim(full[n + 1..]) == ""
  {
    hide Colon;
    hide TrimStart;
    hide TrimEnd;
    hide Trim;
    hide Unquoted;
  }

  lemma ValueBlank(full: string, tail: string, n: nat)
    requires n < |full| && AllWs(tail)
    ensures AllWs((full + tail)[n + 1..]) <==> Trim(full[n + 1..]) == ""
  {
    hide Trim;
    assert (full + tail)[n + 1..] == full[n + 1..] + tail;
    AllWsConcat(full[n + 1..], tail);
    BlankIff(full[n + 1..]);
    hide AllWs;
  }

  lemma NotBlank(full: string, tail: string)
    requires !AllWs(full + tail) && AllWs(tail)
    ensures full != ""
  {
    assert "" + tail == tail;
  }

  lemma AllWsConcat(a: string, b: string)
    requires AllWs(b)
    ensures AllWs(a + b) <==> AllWs(a)
  {
    hide IsWs;
    assert forall c <- a :: c in a + b;
  }

  lemma BlankIff(s: string)
    ensures Trim(s) == "" <==> AllWs(s)
  {
    hide IsWs;
    var before, after := TrimParts(s);
    if Trim(s) == "" {
      assert s == before + after;
    } else if AllWs(s) {
      TrimStartAllWs(s);
      assert false;
    }
  }

  lemma StartKept(s: string, after: string)
    requires TrimStart(s) != ""
    ensures TrimStart(s + after) != "" && TrimStart(s + after)[0] == TrimStart(s)[0]
  {
    hide IsWs;
    hide TrimStart;
    var t := TrimStart(s);
    var lead := s[..|s| - |t|];
    assert s + after == lead + (t + after);
    TokenAfterWs(lead, t + after);
    assert (t + after)[0] == t[0];
    NothingToTrim(t + after);
  }

  lemma NoColonIn(tail: string)
    requires AllWs(tail)
    ensures ':' !in tail
  {
    assert !IsWs(':');
  }

  lemma ColonKept(full: string, tail: string)
    requires ':' !in tail
    ensures ':' in full + tail <==> Colon(full) < |full|
    ensures Colon(full) < |full| ==> Colon(full + tail) == Colon(full)
  {
    var n := Colon(full);
    if n < |full| {
      assert (full + tail)[..n] == full[..n] && (full + tail)[n] == ':';
      ColonIs(full + tail, n);
    } else {
      assert full[..n] == full;
    }
  }

  lemma AllTrimmed(line: string)
    requires AllWs(line)
    ensures TrimEnd(line) == "" && TrimStart("") == ""
  {
    TrimEndStops("", line);
    assert "" + line == line;
  }

  // ---- the frontmatter ----

  const REQUIRED := ["title", "severity", "category", "status", "discovered_by"]

  /** What has been seen so far: the id, its raw line, and the last value of each other required field. */
  datatype Seen = Seen(id: Option<string>, raw: string, fields: map<string, string>)

  function Note(seen: Seen, line: Line): Seen {
    if line.Skipped? then seen
    else if line.key == "id" then Seen(Some(line.value), line.raw, seen.fields)
    else if line.key in REQUIRED then seen.(fields := seen.fields[line.key := line.value])
    else seen
  }

  function NoteAll(seen: Seen, lines: seq<string>): Seen {
    if lines == [] then seen else Note(NoteAll(seen, lines[..|lines| - 1]), ReadLine(lines[|lines| - 1]))
  }

  const NOTHING := Seen(None, "", map[])

  datatype Frontmatter = Frontmatter(id: string, raw: string, fields: map<string, string>)

  datatype Fault = NoOpening | NoClosing | MissingField(name: string)
  datatype Parsed = Accepted(front: Frontmatter) | Rejected(fault: Fault)

  /** The first required field without a value. */
  function Missing(fields: map<string, string>, names: seq<string>): Option<string> {
    if names == [] then None
    else if names[0] !in fields then Some(names[0])
    else Missing(fields, names[1..])
  }

  function Conclude(seen: Seen): Parsed {
    if seen.id.None? then Rejected(MissingField("id"))
    else if Missing(seen.fields, REQUIRED).Some? then Rejected(MissingField(Missing(seen.fields, REQUIRED).value))
    else Accepted(Frontmatter(seen.id.value, seen.raw, seen.fields))
  }

  const BOM := '\U{FEFF}'
  const OPENING := "---\n"
  const CLOSING := "\n---"

  function Lead(body: string): nat { if body != "" && body[0] == BOM then 1 else 0 }

  /** The text after the opening line. */
  function AfterOpening(body: string): Option<string> {
    if At(body, OPENING, Lead(body)) then Some(body[Lead(body) + 4..]) else None
  }

  function FrontmatterOf(body: string): Parsed {
    match AfterOpening(body)
    case None => Rejected(NoOpening)
    case Some(rest) =>
      match Find(rest, CLOSING, 0)
      case None => Rejected(NoClosing)
      case Some(n) => Conclude(NoteAll(NOTHING, Lines(rest[..n])))
  }

  method ParseFrontmatter(body: string) returns (r: Parsed)
    ensures r == FrontmatterOf(body)
  {
    hide NoteAll;
    hide Conclude;
    hide Lines;
    var lead := Lead(body);
    if !At(body, OPENING, lead) {
      return Rejected(NoOpening);
    }
    var rest := body[lead + 4..];
    var close := Find(rest, CLOSING, 0);
    if close.None? {
      return Rejected(NoClosing);
    }
    var seen := NoteLines(Lines(rest[..close.value]));
    r := Conclude(seen);
  }

  method NoteLines(lines: seq<string>) returns (seen: Seen)
    ensures seen == NoteAll(NOTHING, lines)
  {
    hide ReadLine;
    hide Note;
    seen := NOTHING;
    for i := 0 to |lines|
      invariant seen == NoteAll(NOTHING, lines[..i])
    {
      assert lines[..i + 1][..i] == lines[..i];
      seen := Note(seen, ReadLine(lines[i]));
    }
    assert lines[..|lines|] == lines;
  }

  // ---- what the parser accepts ----

  /** A draft opens with three dashes on a line of their own, after a byte order mark or not. */
  lemma OpeningMeans(body: string, rest: string)
    ensures AfterOpening(body) == Some(rest) <==>
      body == "---\n" + rest || body == "\U{FEFF}---\n" + rest
  {
    var n := Lead(body);
    if body == "---\n" + rest {
      assert body[0] == '-' && body[0..4] == OPENING && body[4..] == rest;
    }
    if body == "\U{FEFF}---\n" + rest {
      assert body[0] == BOM && body[1..5] == OPENING && body[5..] == rest;
    }
    if AfterOpening(body) == Some(rest) {
      assert body == body[..n] + (body[n..n + 4] + body[n + 4..]);
      assert body[n..n + 4] == "---\n";
      if n == 1 {
        assert body[..1] == [BOM];
        assert [BOM] + ("---\n" + rest) == "\U{FEFF}---\n" + rest;
      } else {
        assert body[..0] == "";
      }
    }
  }

  /** The value of the last line that sets `key`. */
  function LastValue(lines: seq<string>, key: string): Option<string> {
    if lines == [] then None else
    var n := |lines| - 1;
    var last := ReadLine(lines[n]);
    if last.Field? && last.key == key then Some(last.value) else LastValue(lines[..n], key)
  }

  lemma {:induction false} LastValuesNoted(lines: seq<string>)
    ensures var seen := NoteAll(NOTHING, lines);
      && seen.id == LastValue(lines, "id")
      && (forall name :: name in seen.fields <==> name in REQUIRED && LastValue(lines, name).Some?)
      && (forall name <- seen.fields :: seen.fields[name] == LastValue(lines, name).value)
  {
    hide ReadLine;
    if lines != [] {
      LastValuesNoted(lines[..|lines| - 1]);
    }
  }

  /** The lines between the opening and the closing line, if both are there. */
  function HeadLines(body: string): Option<seq<string>> {
    match AfterOpening(body)
    case None => None
    case Some(rest) =>
      var n := Find(rest, CLOSING, 0);
      if n.Some? then Some(Lines(rest[..n.value])) else None
  }

  /** The required fields, in the order in which they are asked for. */
  const FIELDS := ["id"] + REQUIRED

  /** The first `k` of the names have a value. */
  predicate HaveFields(lines: seq<string>, names: seq<string>, k: nat)
    requires k <= |names|
  {
    forall i | 0 <= i < k :: LastValue(lines, names[i]).Some?
  }

  lemma {:induction false} MissingIsFirst(fields: map<string, string>, names: seq<string>)
    ensures var m := Missing(fields, names);
      && (m.None? <==> forall name <- names :: name in fields)
      && (m.Some? ==> exists k | 0 <= k < |names| ::
            m.value == names[k] && names[k] !in fields && forall i | 0 <= i < k :: names[i] in fields)
  {
    if names != [] {
      MissingIsFirst(fields, names[1..]);
      assert forall name <- names :: name == names[0] || name in names[1..];
      var m := Missing(fields, names[1..]);
      if names[0] in fields && m.Some? {
        var k :| 0 <= k < |names[1..]| && m.value == names[1..][k] && names[1..][k] !in fields
                 && forall i | 0 <= i < k :: names[1..][i] in fields;
        assert names[k + 1] == m.value && forall i | 0 <= i < k + 1 :: names[i] in fields;
      }
    }
  }

  /** A draft is accepted if and only if it has an opening and a closing line and, between them, a value for each of the
      six fields; each field then has its last line's value. Otherwise the fault is the first thing that is missing. */
  lemma AcceptedMeans(body: string)
    ensures var r, head := FrontmatterOf(body), HeadLines(body);
      && (r.Accepted? <==> head.Some? && HaveFields(head.value, FIELDS, |FIELDS|))
      && (r.Accepted? ==>
            && LastValue(head.value, "id") == Some(r.front.id)
            && (forall name :: name in r.front.fields <==> name in REQUIRED)
            && forall name <- REQUIRED :: LastValue(head.value, name) == Some(r.front.fields[name]))
      && (r == Rejected(NoOpening) <==> AfterOpening(body).None?)
      && (r == Rejected(NoClosing) <==> AfterOpening(body).Some? && head.None?)
      && (head.Some? && r.Rejected? ==> exists k | 0 <= k < |FIELDS| ::
            && r.fault == MissingField(FIELDS[k]) && LastValue(head.value, FIELDS[k]).None?
            && HaveFields(head.value, FIELDS, k))
  {
    hide LastValue;
    hide NoteAll;
    hide Missing;
    hide Find;
    hide Lines;
    var head := HeadLines(body);
    if head.Some? {
      LastValuesNoted(head.value);
      HeadMeans(head.value, NoteAll(NOTHING, head.value));
    }
  }

  lemma HeadMeans(lines: seq<string>, seen: Seen)
    requires seen.id == LastValue(lines, "id")
    requires forall name :: name in seen.fields <==> name in REQUIRED && LastValue(lines, name).Some?
    ensures Conclude(seen).Accepted? <==> HaveFields(lines, FIELDS, |FIELDS|)
    ensures Conclude(seen).Accepted? ==> forall name <- REQUIRED :: name in seen.fields
    ensures Conclude(seen).Rejected? ==> exists k | 0 <= k < |FIELDS| ::
      && Conclude(seen).fault == MissingField(FIELDS[k])
      && LastValue(lines, FIELDS[k]).None? && HaveFields(lines, FIELDS, k)
  {
    hide LastValue;
    hide Missing;
    hide HaveFields;
    if seen.id.None? {
      NoId(lines, REQUIRED);
    } else if Missing(seen.fields, REQUIRED).Some? {
      var k := FirstMissing(lines, seen.fields, REQUIRED);
    } else {
      MissingIsFirst(seen.fields, REQUIRED);
      AllThere(lines, seen.fields, REQUIRED);
    }
  }

  lemma NoId(lines: seq<string>, names: seq<string>)
    requires LastValue(lines, "id").None?
    ensures var all := ["id"] + names; all[0] == "id" && HaveFields(lines, all, 0) && !HaveFields(lines, all, |all|)
  {
    hide LastValue;
    assert (["id"] + names)[0] == "id";
  }

  lemma AllThere(lines: seq<string>, fields: map<string, string>, names: seq<string>)
    requires LastValue(lines, "id").Some? && forall name <- names :: name in fields
    requires forall name <- names :: name in fields <==> LastValue(lines, name).Some?
    ensures HaveFields(lines, ["id"] + names, |names| + 1)
  {
    hide LastValue;
  }

  lemma FirstMissing(lines: seq<string>, fields: map<string, string>, names: seq<string>) returns (k: nat)
    requires LastValue(lines, "id").Some? && Missing(fields, names).Some?
    requires forall name <- names :: name in fields <==> LastValue(lines, name).Some?
    ensures var all := ["id"] + names;
      && k < |all| && all[k] == Missing(fields, names).value && LastValue(lines, all[k]).None?
      && HaveFields(lines, all, k) && !HaveFields(lines, all, |all|)
  {
    hide LastValue;
    hide Missing;
    MissingIsFirst(fields, names);
    var j :| 0 <= j < |names| && Missing(fields, names).value == names[j] && names[j] !in fields
             && forall i | 0 <= i < j :: names[i] in fields;
    k := j + 1;
    var all := ["id"] + names;
    assert all[k] == names[j];
    forall i | 0 <= i < k
      ensures LastValue(lines, all[i]).Some?
    {
      assert i > 0 ==> all[i] == names[i - 1];
    }
  }

  function IdLine(id: string): string { "id: " + id }

  /** Replaces the id line if its text occurs exactly once. */
  function Rewritten(body: string, newId: string, raw: string): Option<string> {
    if raw == "" || Count(body, raw, 0) != 1 then None
    else
      var i := Find(body, raw, 0).value;
      Some(body[..i] + IdLine(newId) + body[i + |raw|..])
  }

  // ---- lines can be replaced one by one ----

  predicate EndsCr(s: string) { s != "" && s[|s| - 1] == '\r' }

  /** Text that may stand in for a line without disturbing its neighbours. */
  predicate StandsIn(l': string, l: string) { l' != "" && '\n' !in l' && (EndsCr(l') ==> EndsCr(l)) }

  predicate AtLineStart(a: string) { a == "" || a[|a| - 1] == '\n' }

  /** A line ended by a newline, and the text after it. */
  function Ended(line: string, rest: string): (s: string)
    ensures |s| == |line| + 1 + |rest|
  { line + "\n" + rest }

  lemma EndedParts(line: string, rest: string, t: string)
    ensures t + Ended(line, rest) == Ended(t + line, rest) && Ended(line, rest) + t == Ended(line, rest + t)
    ensures AtLineStart(Ended(line, rest)) <==> AtLineStart(rest)
  {
    assert Ended(line, rest) + t == Ended(line, rest + t);
  }

  /** Text that stops at the end of a line can be read apart from what follows. */
  lemma {:induction false} LinesConcat(a: string, t: string)
    requires AtLineStart(a)
    ensures Lines(a + t) == Lines(a) + Lines(t)
    decreases |a|
  {
    hide AtLineStart;
    hide Ended;
    hide Break;
    if a == "" {
      assert a + t == t;
    } else {
      LineEnds(a);
      var line, rest := PeelEnded(a);
      EndedParts(line, rest, t);
      LinesConcat(rest, t);
      PrependLine(line, rest, t);
    }
  }

  lemma PrependLine(line: string, rest: string, t: string)
    requires '\n' !in line && Lines(rest + t) == Lines(rest) + Lines(t)
    ensures Lines(Ended(line, rest) + t) == Lines(Ended(line, rest)) + Lines(t)
  {
    hide Lines;
    hide Ended;
    EndedParts(line, rest, t);
    FirstLineStays(line, rest);
    FirstLineStays(line, rest + t);
  }

  /** The text before line `k`. */
  lemma {:induction false} SplitBefore(s: string, k: nat) returns (a: string, t: string)
    requires k < |Lines(s)|
    ensures s == a + t && AtLineStart(a) && Lines(a) == Lines(s)[..k] && Lines(t) == Lines(s)[k..] && t != ""
    decreases k
  {
    hide Ended;
    hide AtLineStart;
    if k == 0 {
      assert AtLineStart("") by { EmptyStarts(); }
      a, t := "", s;
      assert s == a + t;
    } else {
      var line, rest := PeelEnded(s);
      var a1, t1 := SplitBefore(rest, k - 1);
      a, t := Ended(line, a1), t1;
      BeforeStep(line, rest, k, a1, t1);
    }
  }

  lemma EmptyStarts()
    ensures AtLineStart("")
  {
  }

  lemma BeforeStep(line: string, rest: string, k: nat, a: string, t: string)
    requires '\n' !in line && 0 < k <= |Lines(rest)| && rest == a + t && AtLineStart(a)
    requires Lines(a) == Lines(rest)[..k - 1] && Lines(t) == Lines(rest)[k - 1..]
    requires Lines(Ended(line, rest)) == [StripCr(line)] + Lines(rest)
    ensures var s, a' := Ended(line, rest), Ended(line, a);
      s == a' + t && AtLineStart(a') && Lines(a') == Lines(s)[..k] && Lines(t) == Lines(s)[k..]
  {
    hide Lines;
    hide Ended;
    hide AtLineStart;
    hide StripCr;
    EndedParts(line, a, t);
    FirstLineStays(line, a);
  }

  /** Where line `k` of `s` sits, and the lines once `l'` stands in its place. */
  lemma SplitAtLine(s: string, k: nat, l': string) returns (a: string, b: string)
    requires k < |Lines(s)| && StandsIn(l', Lines(s)[k])
    ensures s == a + Lines(s)[k] + b && '\n' !in Lines(s)[k] && AtLineStart(a)
    ensures Lines(a + l' + b) == Lines(s)[k := l']
  {
    hide Lines;
    hide StandsIn;
    hide AtLineStart;
    var t;
    a, t := SplitBefore(s, k);
    var l, later := Lines(s)[k], Lines(s)[k + 1..];
    assert Lines(t)[0] == l && Lines(t)[1..] == later;
    b := ReplaceFirstLine(t, l');
    LinesConcat(a, l' + b);
    assert a + (l' + b) == a + l' + b && a + (l + b) == a + l + b;
    assert Lines(s)[k := l'] == Lines(s)[..k] + ([l'] + later);
  }

  lemma LineEnds(a: string)
    requires AtLineStart(a) && a != ""
    ensures Break(a) < |a|
  {
    assert a[..|a|] == a && '\n' in a;
  }

  lemma PeelEnded(s: string) returns (line: string, rest: string)
    requires s != "" && Break(s) < |s|
    ensures s == Ended(line, rest) && '\n' !in line && Lines(s) == [StripCr(line)] + Lines(rest)
  {
    var n := Break(s);
    line, rest := s[..n], s[n + 1..];
  }

  /** A first line ended by a newline is read the same whatever follows. */
  lemma FirstLineStays(line: string, rest: string)
    requires '\n' !in line
    ensures Lines(Ended(line, rest)) == [StripCr(line)] + Lines(rest)
  {
    var s := Ended(line, rest);
    BreakIs(s, |line|);
    assert s[..|line|] == line && s[|line| + 1..] == rest;
  }

  lemma BreakIs(s: string, n: nat)
    requires n <= |s| && '\n' !in s[..n] && (n < |s| ==> s[n] == '\n')
    ensures Break(s) == n
  {
    var m := Break(s);
    assert forall i | 0 <= i < n :: s[i] == s[..n][i] && s[i] in s[..n];
    assert forall i | 0 <= i < m :: s[i] == s[..m][i] && s[i] in s[..m];
  }

  lemma ReplaceFirstLine(s: string, l': string) returns (b: string)
    requires Lines(s) != [] && StandsIn(l', Lines(s)[0])
    ensures s == Lines(s)[0] + b && '\n' !in Lines(s)[0] && Lines(l' + b) == [l'] + Lines(s)[1..]
  {
    if Break(s) == |s| {
      b := "";
      assert s[..|s|] == s;
      assert l' + b == l' && s + b == s;
      BreakIs(l', |l'|);
    } else {
      b := ReplaceEndedLine(s, l');
    }
  }

  lemma ReplaceEndedLine(s: string, l': string) returns (b: string)
    requires s != "" && StandsIn(l', Lines(s)[0]) && Break(s) < |s|
    ensures s == Lines(s)[0] + b && '\n' !in Lines(s)[0] && Lines(l' + b) == [l'] + Lines(s)[1..]
  {
    hide Ended;
    var line, rest := PeelEnded(s);
    hide Lines;
    var l, cr := StripCr(line), line[|StripCr(line)|..];
    b := Ended(cr, rest);
    StripBack(line, l');
    FirstLineStays(l' + cr, rest);
    EndedParts(cr, rest, l');
    EndedParts(cr, rest, l);
  }

  /** What a carriage return was stripped from, it can be stripped from again. */
  lemma StripBack(line: string, l': string)
    requires '\n' !in line && StandsIn(l', StripCr(line))
    ensures var cr := line[|StripCr(line)|..];
      StripCr(l' + cr) == l' && StripCr(line) + cr == line && '\n' !in StripCr(line) && '\n' !in l' + cr
  {
    var cr := line[|StripCr(line)|..];
    if cr == "" {
      assert l' + cr == l';
    } else {
      assert cr == "\r" && (l' + cr)[..|l'|] == l';
    }
  }

  lemma {:induction false} LinesClean(s: string, k: nat)
    requires k < |Lines(s)|
    ensures '\n' !in Lines(s)[k]
    decreases |s|
  {
    var n := Break(s);
    if n == |s| {
      assert s[..n] == s;
    } else if k == 0 {
      assert forall c <- StripCr(s[..n]) :: c in s[..n];
    } else {
      LinesClean(s[n + 1..], k - 1);
    }
  }

  // ---- the new id line ----

  /** An id that reads back as itself. */
  predicate PlainId(id: string) {
    && id != "" && '\n' !in id && !IsWs(id[0]) && !IsWs(id[|id| - 1])
    && id[0] != '"' && id[0] != '\''
  }

  lemma TrimEndStops(r: string, w: string)
    requires AllWs(w) && (r == "" || !IsWs(r[|r| - 1]))
    ensures TrimEnd(r + w) == r
  {
    TrimEndAfterWs(r, w);
    CleanEnd(r);
  }

  lemma NewLineReads(id: string, w: string)
    requires PlainId(id) && AllWs(w)
    ensures ReadLine(IdLine(id) + w) == Field("id", id, IdLine(id))
  {
    hide TrimStart;
    hide TrimEnd;
    hide Trim;
    hide Colon;
    hide Unquoted;
    hide IsWs;
    hide IdLine;
    var r := IdLine(id);
    IdLineParts(id, w);
    TrimEndStops(r, w);
    NothingToTrim(r);
    ValueReads(id);
  }

  lemma IdLineParts(id: string, w: string)
    requires PlainId(id)
    ensures var r := IdLine(id);
      |r| > 3 && (r + w)[0] == r[0] == 'i' && !IsWs(r[0]) && !IsWs(r[|r| - 1]) && Colon(r) == 2
      && Trim(r[..2]) == "id" && r[3..] == " " + id
  {
    hide Trim;
    hide Colon;
    var r := IdLine(id);
    assert r[..2] == "id" && r[3..] == " " + id;
    ColonIs(r, 2);
    TrimPlain("id");
  }

  lemma ColonIs(s: string, n: nat)
    requires n < |s| && ':' !in s[..n] && s[n] == ':'
    ensures Colon(s) == n
  {
    var m := Colon(s);
    assert forall i | 0 <= i < n :: s[i] == s[..n][i] && s[i] in s[..n];
    assert forall i | 0 <= i < m :: s[i] == s[..m][i] && s[i] in s[..m];
  }

  lemma TrimPlain(s: string)
    requires s != "" && !IsWs(s[0]) && !IsWs(s[|s| - 1])
    ensures Trim(s) == s
  {
    NothingToTrim(s);
  }

  lemma ValueReads(id: string)
    requires PlainId(id)
    ensures Trim(" " + id) == id && Unquoted(id) == id
  {
    hide TrimStart;
    hide TrimEnd;
    SpaceTrims(id);
    TrimPlain(id);
  }

  lemma SpaceTrims(s: string)
    ensures Trim(" " + s) == Trim(s)
  {
    hide TrimStart;
    hide TrimEnd;
    TokenAfterWs(" ", s);
  }

  predicate IsId(line: string) { ReadLine(line).Field? && ReadLine(line).key == "id" }

  predicate LastId(lines: seq<string>, k: nat) {
    k < |lines| && IsId(lines[k]) && forall j | k < j < |lines| :: !IsId(lines[j])
  }

  /** The id is the last id line's. */
  lemma {:induction false} FindIdLine(lines: seq<string>) returns (k: nat)
    requires NoteAll(NOTHING, lines).id.Some?
    ensures LastId(lines, k) && k < |lines| && ReadLine(lines[k]).Field?
    ensures ReadLine(lines[k]).raw == NoteAll(NOTHING, lines).raw
  {
    hide ReadLine;
    k := |lines| - 1;
    if !IsId(lines[k]) {
      k := FindIdLine(lines[..k]);
    }
  }

  /** A new id line in place of the last one changes the id and nothing else. */
  lemma {:induction false} IdReplaced(lines: seq<string>, k: nat, l': string)
    requires LastId(lines, k) && IsId(l')
    ensures NoteAll(NOTHING, lines[k := l'])
         == Seen(Some(ReadLine(l').value), ReadLine(l').raw, NoteAll(NOTHING, lines).fields)
  {
    hide ReadLine;
    var n := |lines| - 1;
    var init := lines[..n];
    if k == n {
      assert lines[k := l'][..n] == init;
    } else {
      IdReplaced(init, k, l');
      assert lines[k := l'][..n] == init[k := l'];
    }
  }

  // ---- where things are found ----

  lemma AtClosing(s: string, j: nat)
    ensures At(s, CLOSING, j) <==> ClosesAt(s, j)
  {
    if j + 4 <= |s| {
      var t := s[j..j + 4];
      assert t[0] == s[j] && t[1] == s[j + 1] && t[2] == s[j + 2] && t[3] == s[j + 3];
    }
  }

  /** Exchanging one line of the frontmatter for another moves the closing line by the difference in length. */
  lemma ClosingMoves(a: string, raw: string, r2: string, c: string, n: nat)
    requires Find(a + raw + c, CLOSING, 0) == Some(n) && |a| + |raw| <= n
    requires r2 != "" && r2[0] != '-' && '\n' !in r2
    ensures Find(a + r2 + c, CLOSING, 0) == Some(n - |raw| + |r2|)
  {
    var s, s2, n2 := a + raw + c, a + r2 + c, n - |raw| + |r2|;
    hide Find;
    hide At;
    AtClosing(s, n);
    AtClosing(s2, n2);
    forall j: nat | j < n2
      ensures !At(s2, CLOSING, j)
    {
      AtClosing(s2, j);
      if j < |a| {
        AtClosing(s, j);
        NoClosingAcross(a, raw, r2, c, j);
      } else if j < |a| + |r2| {
        assert s2[j] == r2[j - |a|];
      } else {
        AtClosing(s, j - |r2| + |raw|);
        SameAfter(a, raw, r2, c, j);
      }
    }
  }

  predicate ClosesAt(s: string, j: nat) {
    j + 4 <= |s| && s[j] == '\n' && s[j + 1] == '-' && s[j + 2] == '-' && s[j + 3] == '-'
  }

  lemma NoClosingAcross(a: string, raw: string, r2: string, c: string, j: nat)
    requires j < |a| && r2 != "" && r2[0] != '-'
    ensures ClosesAt(a + r2 + c, j) ==> ClosesAt(a + raw + c, j)
  {
    var s2 := a + r2 + c;
    assert s2[|a|] == r2[0];
    assert forall q | 0 <= q < |a| :: s2[q] == a[q] == (a + raw + c)[q];
  }

  lemma SameTail(a: string, raw: string, r2: string, c: string, k: nat)
    requires k < |c|
    ensures (a + raw + c)[|a| + |raw| + k] == (a + r2 + c)[|a| + |r2| + k]
  {
  }

  lemma SameAfter(a: string, raw: string, r2: string, c: string, j: nat)
    requires j >= |a| + |r2|
    ensures ClosesAt(a + r2 + c, j) ==> ClosesAt(a + raw + c, j - |r2| + |raw|)
  {
    if ClosesAt(a + r2 + c, j) {
      var k := j - |a| - |r2|;
      SameTail(a, raw, r2, c, k);
      SameTail(a, raw, r2, c, k + 1);
      SameTail(a, raw, r2, c, k + 2);
      SameTail(a, raw, r2, c, k + 3);
    }
  }

  /** A line's text that occurs once, without overlap, is first found at the line. */
  lemma OnlyOccurrence(x: string, raw: string, y: string)
    requires x != "" && AtLineStart(x) && raw != "" && '\n' !in raw
    ensures Count(x + raw + y, raw, 0) >= 1
    ensures Count(x + raw + y, raw, 0) == 1 ==> Find(x + raw + y, raw, 0) == Some(|x|)
  {
    var s, p := x + raw + y, |x|;
    assert At(s, raw, p);
    var i := Find(s, raw, 0).value;
    assert forall q | i <= q < i + |raw| :: s[q] == s[i..i + |raw|][q - i] && s[q] in raw;
  }

  // ---- promotion ----

  /** An accepted body around its id line: `a` and `b` complete the frontmatter's lines, `post` starts at the closing
      line. */
  datatype Layout = Layout(pre: string, a: string, raw: string, w: string, b: string, post: string) {
    function Rest(): string { a + raw + (w + b + post) }
    function Body(): string { pre + Rest() }
    predicate Sits() {
      && |pre| == Lead(pre) + 4 && At(pre, OPENING, Lead(pre)) && AtLineStart(a)
      && raw != "" && '\n' !in raw && AllWs(w)
      && Find(Rest(), CLOSING, 0) == Some(|a + raw + w + b|)
    }
  }

  lemma LayoutReads(d: Layout)
    requires d.Sits()
    ensures AfterOpening(d.Body()) == Some(d.Rest())
    ensures Find(d.Rest(), CLOSING, 0) == Some(|d.a + d.raw + d.w + d.b|)
    ensures d.Rest()[|d.a + d.raw + d.w + d.b|..] == d.post
    ensures FrontmatterOf(d.Body()) == Conclude(NoteAll(NOTHING, Lines(d.a + (d.raw + d.w) + d.b)))
  {
    hide Conclude;
    hide NoteAll;
    hide Lines;
    hide Find;
    OpeningFits(d);
    Regroup(d);
    hide AfterOpening;
    var yaml := d.a + (d.raw + d.w) + d.b;
    assert (yaml + d.post)[..|yaml|] == yaml && (yaml + d.post)[|yaml|..] == d.post;
  }

  lemma OpeningFits(d: Layout)
    requires |d.pre| == Lead(d.pre) + 4 && At(d.pre, OPENING, Lead(d.pre))
    ensures AfterOpening(d.Body()) == Some(d.Rest())
  {
    var body := d.Body();
    assert body[..|d.pre|] == d.pre && body[|d.pre|..] == d.Rest();
    assert body[Lead(d.pre)..|d.pre|] == d.pre[Lead(d.pre)..];
  }

  /** Every accepted body has such a layout, and a new id line in place of the old one reads as the new id. */
  lemma LayoutOf(body: string, id: string) returns (d: Layout)
    requires FrontmatterOf(body).Accepted? && PlainId(id)
    ensures d.Sits() && d.Body() == body && d.raw == FrontmatterOf(body).front.raw
    ensures d.(raw := IdLine(id)).Sits()
    ensures FrontmatterOf(d.(raw := IdLine(id)).Body())
         == Accepted(Frontmatter(id, IdLine(id), FrontmatterOf(body).front.fields))
  {
    hide Lines;
    hide NoteAll;
    hide Find;
    hide Missing;
    hide LastId;
    hide ReadLine;
    hide StandsIn;
    hide AtLineStart;
    hide PlainId;
    var rest := AfterOpening(body).value;
    var n := Find(rest, CLOSING, 0).value;
    var yaml, lines := rest[..n], Lines(rest[..n]);
    var k := FindIdLine(lines);
    var l', w := IdLineFits(yaml, k, id);
    var raw := ReadLine(lines[k]).raw;
    var a, b := SplitAtLine(yaml, k, l');
    d := Layout(body[..Lead(body) + 4], a, raw, w, b, rest[n..]);
    LayoutFits(body, rest, n, d);
    IdReplaced(lines, k, l');
    NewLineMoves(d, id);
    LayoutReads(d.(raw := IdLine(id)));
  }

  lemma IdLineFits(yaml: string, k: nat, id: string) returns (l': string, w: string)
    requires k < |Lines(yaml)| && ReadLine(Lines(yaml)[k]).Field? && PlainId(id)
    ensures l' == IdLine(id) + w && StandsIn(l', Lines(yaml)[k]) && AllWs(w)
    ensures ReadLine(l') == Field("id", id, IdLine(id))
    ensures Lines(yaml)[k] == ReadLine(Lines(yaml)[k]).raw + w
    ensures ReadLine(Lines(yaml)[k]).raw != "" && '\n' !in ReadLine(Lines(yaml)[k]).raw
  {
    hide Lines;
    hide TrimEnd;
    hide ReadLine;
    hide StandsIn;
    hide IdLine;
    hide PlainId;
    hide AllWs;
    var l := Lines(yaml)[k];
    LinesClean(yaml, k);
    RawIsTrimmed(l);
    var raw := TrimEnd(l);
    w := l[|raw|..];
    assert raw + w == l;
    l' := IdLine(id) + w;
    NewLineReads(id, w);
    NewLineStandsIn(id, raw, w);
  }

  lemma RawIsTrimmed(l: string)
    requires ReadLine(l).Field?
    ensures ReadLine(l).raw == TrimEnd(l) != ""
  {
  }

  lemma NewLineStandsIn(id: string, raw: string, w: string)
    requires PlainId(id) && '\n' !in raw + w
    ensures StandsIn(IdLine(id) + w, raw + w) && '\n' !in raw
  {
    var l' := IdLine(id) + w;
    assert '\n' !in w by { assert forall c <- w :: c in raw + w; }
    assert '\n' !in raw by { assert forall c <- raw :: c in raw + w; }
    if w == "" {
      assert l'[|l'| - 1] == id[|id| - 1];
    } else {
      assert l'[|l'| - 1] == w[|w| - 1] == (raw + w)[|raw + w| - 1];
    }
  }

  lemma LayoutFits(body: string, rest: string, n: nat, d: Layout)
    requires AfterOpening(body) == Some(rest) && Find(rest, CLOSING, 0) == Some(n)
    requires d.pre == body[..Lead(body) + 4]
    requires rest[..n] == d.a + (d.raw + d.w) + d.b && d.post == rest[n..]
    requires AtLineStart(d.a) && d.raw != "" && '\n' !in d.raw && AllWs(d.w)
    ensures d.Sits() && d.Body() == body
  {
    hide Find;
    hide AtLineStart;
    hide AllWs;
    ClosingFits(rest, n);
    hide At;
    hide Lead;
    hide AfterOpening;
    PreFits(body, d.pre);
    Regroup(d);
    assert d.Rest() == rest;
  }

  lemma ClosingFits(rest: string, n: nat)
    requires Find(rest, CLOSING, 0) == Some(n)
    ensures n <= |rest| && rest == rest[..n] + rest[n..]
  {
  }

  lemma PreFits(body: string, pre: string)
    requires AfterOpening(body).Some? && pre == body[..Lead(body) + 4]
    ensures |pre| == Lead(pre) + 4 && At(pre, OPENING, Lead(pre)) && body == pre + AfterOpening(body).value
  {
    assert pre[0] == body[0];
    assert pre[Lead(body)..Lead(body) + 4] == body[Lead(body)..Lead(body) + 4];
  }

  lemma Regroup(d: Layout)
    ensures d.Rest() == (d.a + (d.raw + d.w) + d.b) + d.post
    ensures |d.a + d.raw + d.w + d.b| == |d.a + (d.raw + d.w) + d.b|
  {
    assert d.Rest() == (d.a + (d.raw + d.w) + d.b) + d.post;
  }

  lemma NewLineMoves(d: Layout, id: string)
    requires d.Sits() && PlainId(id)
    ensures d.(raw := IdLine(id)).Sits()
  {
    hide Find;
    assert IdLine(id)[0] == 'i';
    LayoutMoves(d, IdLine(id));
  }

  lemma LayoutMoves(d: Layout, r2: string)
    requires d.Sits() && r2 != "" && r2[0] != '-' && '\n' !in r2
    ensures d.(raw := r2).Sits()
  {
    hide Find;
    ClosingMoves(d.a, d.raw, r2, d.w + d.b + d.post, |d.a + d.raw + d.w + d.b|);
  }

  /** One occurrence of `raw` exchanged for `raw'`, and nothing else. */
  ghost predicate OnlyExchanged(body: string, raw: string, raw': string, body': string) {
    exists i: nat :: At(body, raw, i) && body' == body[..i] + raw' + body[i + |raw|..]
  }

  /** The body from its closing line on. */
  function Remainder(body: string): string
    requires FrontmatterOf(body).Accepted?
  {
    var rest := AfterOpening(body).value;
    rest[Find(rest, CLOSING, 0).value..]
  }

  /**
    * Promotion is refused exactly when the id line's text occurs again; otherwise the promoted file carries the
    * new id, the other fields and everything from the closing line on as they were.
    */
  lemma PromotionKeepsFrontmatter(body: string, id: string)
    requires FrontmatterOf(body).Accepted? && PlainId(id)
    ensures FrontmatterOf(body).front.raw != ""
    ensures var raw := FrontmatterOf(body).front.raw; Rewritten(body, id, raw).None? <==> Count(body, raw, 0) > 1
    ensures match Rewritten(body, id, FrontmatterOf(body).front.raw)
            case None => true
            case Some(promoted) =>
              && FrontmatterOf(promoted) == Accepted(Frontmatter(id, IdLine(id), FrontmatterOf(body).front.fields))
              && Remainder(promoted) == Remainder(body)
              && OnlyExchanged(body, FrontmatterOf(body).front.raw, IdLine(id), promoted)
  {
    hide FrontmatterOf;
    hide Count;
    hide IdLine;
    hide PlainId;
    hide AtLineStart;
    hide Find;
    hide Layout.Sits;
    var d := LayoutOf(body, id);
    var x, y := IdLineFound(d);
    var d2 := d.(raw := IdLine(id));
    LayoutReads(d);
    LayoutReads(d2);
    var x2, y2 := IdLineFound(d2);
    if Count(body, d.raw, 0) == 1 {
      assert body[..|x|] == x && body[|x| + |d.raw|..] == y;
      assert At(body, d.raw, |x|);
    }
  }

  lemma IdLineFound(d: Layout) returns (x: string, y: string)
    requires d.Sits()
    ensures d.raw != "" && d.Body() == x + d.raw + y && x == d.pre + d.a && y == d.w + d.b + d.post
    ensures Count(d.Body(), d.raw, 0) >= 1
    ensures Count(d.Body(), d.raw, 0) == 1 ==> Find(d.Body(), d.raw, 0) == Some(|x|)
  {
    hide Find;
    hide Count;
    x, y := d.pre + d.a, d.w + d.b + d.post;
    assert d.Body() == x + d.raw + y;
    assert d.pre[|d.pre| - 1] == d.pre[Lead(d.pre)..][3] == '\n';
    OnlyOccurrence(x, d.raw, y);
  }
}
