/** Maven's `settings.xml`: which elements are read, what an element tree means, and the event loops that read it. */
module SettingsXml {
  import opened Bytes
  import opened Text
  import opened Decimals
  import opened Hex
  import opened XmlEvents

  // ---- what is read where ----

  /** One kind per element parser; `ListOf` and `TextsOf` are the two list parsers. */
  datatype Kind =
    | Settings | Server | Mirror | Profile | Properties | Activation | Os | Property | File
    | Repository | Policy | Proxy | ListOf(item: string, kind: Kind) | TextsOf(item: string)

  datatype Conversion = Plain | Truth(otherwise: bool) | PortNumber

  /** What a parser does with a child: a text field, an element of its own, or one that fills the same record. */
  datatype Want = Skip | Field(key: string, conversion: Conversion) | Part(key: string, kind: Kind) | Inside(kind: Kind)

  datatype Value =
    | Str(s: string) | Flag(b: bool) | Port(port: Option<nat>)
    | Record(fields: map<string, Value>) | Items(items: seq<Value>)

  function Wants(kind: Kind, name: string): Want {
    match kind
    case Settings =>
      if name == "localRepository" then Field(name, Plain)
      else if name == "interactiveMode" then Field(name, Truth(true))
      else if name == "offline" then Field(name, Truth(false))
      else if name == "servers" then Part(name, ListOf("server", Server))
      else if name == "mirrors" then Part(name, ListOf("mirror", Mirror))
      else if name == "profiles" then Part(name, ListOf("profile", Profile))
      else if name == "activeProfiles" then Part(name, TextsOf("activeProfile"))
      else if name == "proxies" then Part(name, ListOf("proxy", Proxy))
      else if name == "pluginGroups" then Part(name, TextsOf("pluginGroup"))
      else Skip
    case Server =>
      if name in ["id", "username", "password", "privateKey", "passphrase", "filePermissions", "directoryPermissions"]
      then Field(name, Plain) else Skip
    case Mirror =>
      if name in ["id", "name", "url", "mirrorOf"] then Field(name, Plain)
      else if name == "blocked" then Field(name, Truth(false))
      else Skip
    case Profile =>
      if name == "id" then Field(name, Plain)
      else if name == "properties" then Part(name, Properties)
      else if name == "activation" then Part(name, Activation)
      else if name == "repositories" then Part(name, ListOf("repository", Repository))
      else if name == "pluginRepositories" then Part(name, ListOf("pluginRepository", Repository))
      else Skip
    case Properties => Field(name, Plain)
    case Activation =>
      if name == "activeByDefault" then Field(name, Truth(false))
      else if name == "jdk" then Field(name, Plain)
      else if name == "os" then Inside(Os)
      else if name == "property" then Inside(Property)
      else if name == "file" then Inside(File)
      else Skip
    case Os => if name in ["name", "family", "arch", "version"] then Field("os." + name, Plain) else Skip
    case Property => if name in ["name", "value"] then Field("property." + name, Plain) else Skip
    case File => if name in ["exists", "missing"] then Field("file." + name, Plain) else Skip
    case Repository =>
      if name in ["id", "name", "url", "layout"] then Field(name, Plain)
      else if name in ["releases", "snapshots"] then Part(name, Policy)
      else Skip
    case Policy =>
      if name == "enabled" then Field(name, Truth(true))
      else if name in ["updatePolicy", "checksumPolicy"] then Field(name, Plain)
      else Skip
    case Proxy =>
      if name in ["id", "protocol", "host", "username", "password", "nonProxyHosts"] then Field(name, Plain)
      else if name == "active" then Field(name, Truth(false))
      else if name == "port" then Field(name, PortNumber)
      else Skip
    case ListOf(item, k) => if name == item then Part(name, k) else Skip
    case TextsOf(item) => if name == item then Field(name, Plain) else Skip
  }

  /** A record before any child is read; a field that is absent is an unset option. */
  function Init(kind: Kind): Value {
    match kind
    case Settings => Record(map[
      "servers" := Items([]), "mirrors" := Items([]), "profiles" := Items([]), "activeProfiles" := Items([]),
      "proxies" := Items([]), "pluginGroups" := Items([]), "interactiveMode" := Flag(true), "offline" := Flag(false)])
    case Server => Record(map["id" := Str("")])
    case Mirror => Record(map["id" := Str(""), "url" := Str(""), "mirrorOf" := Str(""), "blocked" := Flag(false)])
    case Profile => Record(map[
      "id" := Str(""), "properties" := Record(map[]), "repositories" := Items([]), "pluginRepositories" := Items([])])
    case Activation => Record(map["activeByDefault" := Flag(false)])
    case Repository => Record(map[
      "id" := Str(""), "url" := Str(""), "releases" := NO_POLICY, "snapshots" := NO_POLICY])
    case Policy => Record(map["enabled" := Flag(true)])
    case Proxy => Record(map[
      "id" := Str(""), "active" := Flag(false), "protocol" := Str(""), "host" := Str(""), "port" := Port(None)])
    case ListOf(_, _) => Items([])
    case TextsOf(_) => Items([])
    case _ => Record(map[])
  }

  /** A repository without a policy element: disabled, unlike a policy element that does not say. */
  const NO_POLICY := Record(map["enabled" := Flag(false)])

  function Put(acc: Value, key: string, v: Value): Value {
    match acc
    case Record(fields) => Record(fields[key := v])
    case Items(items) => Items(items + [v])
    case _ => acc
  }

  function ParseBool(raw: string, otherwise: bool): bool {
    var t := LowerAll(Trim(raw));
    if t in ["true", "1", "yes"] then true
    else if t in ["false", "0", "no"] then false
    else otherwise
  }

  function Convert(c: Conversion, text: string): Value {
    match c
    case Plain => Str(text)
    case Truth(otherwise) => Flag(ParseBool(text, otherwise))
    case PortNumber => Port(ParseUnsigned(Trim(text), 0xFFFF))
  }

  /** The name after its last colon. */
  function LocalName(name: string): (l: string)
    ensures |l| <= |name| && ':' !in l && l == name[|name| - |l|..]
    ensures |l| < |name| ==> name[|name| - |l| - 1] == ':'
  {
    if name == "" || name[|name| - 1] == ':' then "" else
    var init := name[..|name| - 1];
    var l := LocalName(init);
    assert name[|name| - |l| - 1..] == init[|init| - |l|..] + [name[|name| - 1]];
    l + [name[|name| - 1]]
  }

  // ---- what a tree means ----

  /** The text directly inside an element, if all of it decodes. */
  function TextIn(nodes: seq<Node>): Option<string> {
    if nodes == [] then Some("") else
    var rest := TextIn(nodes[1..]);
    match nodes[0]
    case Elem(_, _) => rest
    case Leaf(Other) => rest
    case Leaf(inner) =>
      if inner.decoded.Some? && rest.Some? then Some(inner.decoded.value + rest.value) else None
  }

  /** The text of an element is that of its pieces of text and CDATA, in order. */
  lemma {:induction false} TextJoins(a: seq<Node>, b: seq<Node>)
    ensures TextIn(a + b)
         == if TextIn(a).Some? && TextIn(b).Some? then Some(TextIn(a).value + TextIn(b).value) else None
  {
    if a == [] {
      assert a + b == b && (TextIn(b).Some? ==> "" + TextIn(b).value == TextIn(b).value);
    } else {
      TextJoins(a[1..], b);
      assert (a + b)[0] == a[0] && (a + b)[1..] == a[1..] + b;
      assert forall x: string, y: string, z: string :: x + (y + z) == (x + y) + z;
    }
  }

  lemma TextOf(node: Node)
    ensures TextIn([node]) == match node
                              case Elem(_, _) => Some("")
                              case Leaf(Other) => Some("")
                              case Leaf(Text(decoded)) => decoded
                              case Leaf(CData(decoded)) => decoded
  {
    assert [node][1..] == [] && forall s: string :: s + "" == s;
  }

  /** The record `acc` after reading an element's children into it; `None` if some text that is needed does not
      decode. */
  function Read(kind: Kind, acc: Value, nodes: seq<Node>): Option<Value>
    decreases nodes, 0
  {
    if nodes == [] then Some(acc) else
    match ReadNode(kind, acc, nodes[0])
    case None => None
    case Some(v) => Read(kind, v, nodes[1..])
  }

  function ReadNode(kind: Kind, acc: Value, node: Node): Option<Value>
    decreases node
  {
    match node
    case Leaf(_) => Some(acc)
    case Elem(name, kids) => ReadChild(Wants(kind, LocalName(name)), acc, kids)
  }

  function ReadChild(want: Want, acc: Value, kids: seq<Node>): Option<Value>
    decreases kids, 1
  {
    match want
    case Skip => Some(acc)
    case Field(key, conversion) => Stored(acc, key, Converted(conversion, TextIn(kids)))
    case Part(key, k) => Stored(acc, key, Read(k, Init(k), kids))
    case Inside(k) => Read(k, acc, kids)
  }

  function Converted(c: Conversion, text: Option<string>): Option<Value> {
    if text.Some? then Some(Convert(c, text.value)) else None
  }

  function Stored(acc: Value, key: string, v: Option<Value>): Option<Value> {
    if v.Some? then Some(Put(acc, key, v.value)) else None
  }

  // ---- the event loops ----

  datatype Answer<T> = Answer(value: T, end: nat)

  function Ended<T>(r: Option<T>, end: nat): Option<Answer<T>> {
    if r.Some? then Some(Answer(r.value, end)) else None
  }

  function TextAt(out: string, evs: seq<Event>, i: nat): Option<Answer<string>>
    requires i <= |evs|
  {
    match Forest(evs, i)
    case None => None
    case Some(c) => if TextIn(c.kids).Some? then Some(Answer(out + TextIn(c.kids).value, c.end)) else None
  }

  function ValueAt(kind: Kind, acc: Value, evs: seq<Event>, i: nat): Option<Answer<Value>>
    requires i <= |evs|
  {
    match Forest(evs, i)
    case None => None
    case Some(c) => Ended(Read(kind, acc, c.kids), c.end)
  }

  function ChildAt(want: Want, acc: Value, evs: seq<Event>, i: nat): Option<Answer<Value>>
    requires i <= |evs|
  {
    match Forest(evs, i)
    case None => None
    case Some(c) => Ended(ReadChild(want, acc, c.kids), c.end)
  }

  /** Where the `depth`-th enclosing end tag from `i` on ends. */
  function CloseAt(evs: seq<Event>, i: nat, depth: nat): Option<nat>
    requires i <= |evs|
    decreases depth
  {
    if depth == 0 then Some(i) else
    match Forest(evs, i)
    case None => None
    case Some(c) => CloseAt(evs, c.end, depth - 1)
  }

  lemma TextStep(out: string, evs: seq<Event>, i: nat)
    requires i < |evs|
    ensures match evs[i]
            case Bad => TextAt(out, evs, i) == None
            case End => TextAt(out, evs, i) == Some(Answer(out, i + 1))
            case Within(Other) => TextAt(out, evs, i) == TextAt(out, evs, i + 1)
            case Within(inner) =>
              var d := inner.decoded;
              TextAt(out, evs, i) == (if d.None? then None else TextAt(out + d.value, evs, i + 1))
            case Start(_) =>
              match Forest(evs, i + 1)
              case None => TextAt(out, evs, i) == None
              case Some(k) => TextAt(out, evs, i) == TextAt(out, evs, k.end)
  {
    match evs[i]
    case End =>
      assert out + "" == out;
    case Within(inner) =>
      if !inner.Other? && inner.decoded.Some? && TextAt(out + inner.decoded.value, evs, i + 1).Some? {
        var rest := TextIn(Forest(evs, i + 1).value.kids).value;
        assert out + (inner.decoded.value + rest) == (out + inner.decoded.value) + rest;
      }
    case _ =>
  }

  lemma ValueStep(kind: Kind, acc: Value, evs: seq<Event>, i: nat)
    requires i < |evs|
    ensures match evs[i]
            case Bad => ValueAt(kind, acc, evs, i) == None
            case End => ValueAt(kind, acc, evs, i) == Some(Answer(acc, i + 1))
            case Within(_) => ValueAt(kind, acc, evs, i) == ValueAt(kind, acc, evs, i + 1)
            case Start(name) =>
              match ChildAt(Wants(kind, LocalName(name)), acc, evs, i + 1)
              case None => ValueAt(kind, acc, evs, i) == None
              case Some(a) => i < a.end <= |evs| && ValueAt(kind, acc, evs, i) == ValueAt(kind, a.value, evs, a.end)
  {
    hide Wants;
    hide ReadChild;
    hide Read;
    hide LocalName;
    match evs[i]
    case End =>
      assert Read(kind, acc, []) == Some(acc) by { ReadNone(kind, acc); }
    case Within(inner) =>
      if Forest(evs, i + 1).Some? {
        ReadCons(kind, acc, Leaf(inner), Forest(evs, i + 1).value.kids);
      }
    case Start(name) =>
      ElementStep(kind, acc, evs, i);
    case Bad =>
  }

  lemma ElementStep(kind: Kind, acc: Value, evs: seq<Event>, i: nat)
    requires i < |evs| && evs[i].Start?
    ensures match ChildAt(Wants(kind, LocalName(evs[i].name)), acc, evs, i + 1)
            case None => ValueAt(kind, acc, evs, i) == None
            case Some(a) => i < a.end <= |evs| && ValueAt(kind, acc, evs, i) == ValueAt(kind, a.value, evs, a.end)
  {
    hide Wants;
    hide ReadChild;
    hide Read;
    hide LocalName;
    var name := evs[i].name;
    if Forest(evs, i + 1).Some? {
      var k := Forest(evs, i + 1).value;
      if Forest(evs, k.end).Some? {
        ReadCons(kind, acc, Elem(name, k.kids), Forest(evs, k.end).value.kids);
      }
    }
  }

  lemma ReadNone(kind: Kind, acc: Value)
    ensures Read(kind, acc, []) == Some(acc)
  {
  }

  lemma ReadCons(kind: Kind, acc: Value, node: Node, rest: seq<Node>)
    ensures Read(kind, acc, [node] + rest)
         == match ReadNode(kind, acc, node) { case None => None case Some(v) => Read(kind, v, rest) }
  {
    assert ([node] + rest)[1..] == rest;
  }

  /** How a child's answer comes from the loop that reads it. */
  function FromLoop(want: Want, acc: Value, evs: seq<Event>, i: nat): Option<Answer<Value>>
    requires i <= |evs|
  {
    match want
    case Skip => Mapped(Forest(evs, i), (c: Closed) => Answer(acc, c.end))
    case Field(key, conversion) =>
      Mapped(TextAt("", evs, i), (a: Answer<string>) => Answer(Put(acc, key, Convert(conversion, a.value)), a.end))
    case Part(key, k) =>
      Mapped(ValueAt(k, Init(k), evs, i), (a: Answer<Value>) => Answer(Put(acc, key, a.value), a.end))
    case Inside(k) => ValueAt(k, acc, evs, i)
  }

  function Mapped<S, T>(r: Option<S>, f: S -> T): Option<T> { if r.Some? then Some(f(r.value)) else None }

  lemma ChildFromLoop(want: Want, acc: Value, evs: seq<Event>, i: nat)
    requires i <= |evs|
    ensures ChildAt(want, acc, evs, i) == FromLoop(want, acc, evs, i)
  {
    hide Read;
    hide TextIn;
    hide Forest;
    hide Put;
    hide Convert;
    hide Init;
    match want
    case Field(_, _) =>
      if TextAt("", evs, i).Some? {
        var t := TextIn(Forest(evs, i).value.kids).value;
        assert "" + t == t;
      }
    case _ =>
  }

  class Reader {
    const events: seq<Event>
    var pos: nat

    predicate Valid()
      reads this
    { pos <= |events| }

    constructor (events: seq<Event>)
      ensures Valid() && this.events == events && pos == 0
    {
      this.events := events;
      pos := 0;
    }

    /** The next event; `None` at the end of the file. */
    method Next() returns (e: Option<Event>)
      requires Valid()
      modifies this
      ensures Valid()
      ensures old(pos) < |events| ==> e == Some(events[old(pos)]) && pos == old(pos) + 1
      ensures old(pos) == |events| ==> e == None && pos == old(pos)
    {
      if pos == |events| {
        return None;
      }
      e := Some(events[pos]);
      pos := pos + 1;
    }

    /** Moves past the end tag of the element just entered. */
    method SkipElement() returns (ok: bool)
      requires Valid()
      modifies this
      ensures Valid() && pos >= old(pos)
      ensures ok <==> Forest(events, old(pos)).Some?
      ensures ok ==> pos == Forest(events, old(pos)).value.end
    {
      var depth := 1;
      while depth > 0
        invariant Valid() && pos >= old(pos)
        invariant CloseAt(events, pos, depth) == CloseAt(events, old(pos), 1)
        decreases |events| - pos, depth
      {
        var e := Next();
        match e
        case None => return false;
        case Some(Bad) => return false;
        case Some(Start(_)) => depth := depth + 1;
        case Some(End) => depth := depth - 1;
        case Some(Within(_)) =>
      }
      ok := true;
    }

    /** The text of the element just entered; elements inside it are skipped. */
    method ReadText() returns (r: Option<string>)
      requires Valid()
      modifies this
      ensures Valid() && pos >= old(pos)
      ensures match TextAt("", events, old(pos))
              case None => r == None
              case Some(a) => r == Some(a.value) && pos == a.end
    {
      hide TextIn;
      var out := "";
      while true
        invariant Valid() && pos >= old(pos)
        invariant TextAt(out, events, pos) == TextAt("", events, old(pos))
        decreases |events| - pos
      {
        if pos < |events| {
          TextStep(out, events, pos);
        }
        var e := Next();
        match e
        case None => return None;
        case Some(Bad) => return None;
        case Some(End) => return Some(out);
        case Some(Start(_)) =>
          var ok := SkipElement();
          if !ok {
            return None;
          }
        case Some(Within(Other)) =>
        case Some(Within(inner)) =>
          if inner.decoded.None? {
            return None;
          }
          out := out + inner.decoded.value;
      }
    }

    /** Reads the children of the element just entered into `acc`. */
    method ParseElement(kind: Kind, acc: Value) returns (r: Option<Value>)
      requires Valid()
      modifies this
      ensures Valid() && pos >= old(pos)
      ensures match ValueAt(kind, acc, events, old(pos))
              case None => r == None
              case Some(a) => r == Some(a.value) && pos == a.end
      decreases |events| - pos, 0
    {
      hide ChildAt;
      hide Wants;
      hide Read;
      var v := acc;
      while true
        invariant Valid() && pos >= old(pos)
        invariant ValueAt(kind, v, events, pos) == ValueAt(kind, acc, events, old(pos))
        decreases |events| - pos
      {
        if pos < |events| {
          ValueStep(kind, v, events, pos);
        }
        var e := Next();
        match e
        case None => return None;
        case Some(Bad) => return None;
        case Some(End) => return Some(v);
        case Some(Within(_)) =>
        case Some(Start(name)) =>
          var next := ParseChild(Wants(kind, LocalName(name)), v);
          if next.None? {
            return None;
          }
          v := next.value;
      }
    }

    /** What the element loops do with a child element just entered. */
    method ParseChild(want: Want, acc: Value) returns (r: Option<Value>)
      requires Valid()
      modifies this
      ensures Valid() && pos >= old(pos)
      ensures match ChildAt(want, acc, events, old(pos))
              case None => r == None
              case Some(a) => r == Some(a.value) && pos == a.end
      decreases |events| - pos, 1
    {
      hide ChildAt;
      hide ValueAt;
      hide TextAt;
      hide Put;
      hide Convert;
      hide Init;
      ChildFromLoop(want, acc, events, pos);
      match want
      case Skip =>
        var ok := SkipElement();
        r := if ok then Some(acc) else None;
      case Field(key, conversion) =>
        var text := ReadText();
        r := Stored(acc, key, Converted(conversion, text));
      case Part(key, kind) =>
        var part := ParseElement(kind, Init(kind));
        r := Stored(acc, key, part);
      case Inside(kind) =>
        r := ParseElement(kind, acc);
    }

    /** The whole document: the first top-level `settings` element, or the defaults if there is none. */
    method ParseDocument() returns (r: Option<Value>)
      requires Valid()
      modifies this
      ensures Valid() && r == Document(events, old(pos))
    {
      hide ValueAt;
      hide Init;
      while true
        invariant Valid() && Document(events, pos) == Document(events, old(pos))
        decreases |events| - pos
      {
        var e := Next();
        match e
        case None => return Some(Init(Settings));
        case Some(Bad) => return None;
        case Some(Start(name)) =>
          if LocalName(name) == "settings" {
            r := ParseElement(Settings, Init(Settings));
            return;
          }
          var ok := SkipElement();
          if !ok {
            return None;
          }
        case Some(_) =>
      }
    }
  }

  /** An element parses exactly when a balanced tree stands there, to that tree's value, and is consumed exactly. */
  lemma ParsedIffTree(kind: Kind, acc: Value, evs: seq<Event>, i: nat, a: Answer<Value>)
    requires i <= |evs|
    ensures ValueAt(kind, acc, evs, i) == Some(a) <==>
      exists kids ::
        Reads(evs, i, Closing(kids)) && Read(kind, acc, kids) == Some(a.value) && a.end == i + |Closing(kids)|
  {
    hide Read;
    hide Closing;
    hide Reads;
    hide Forest;
    if ValueAt(kind, acc, evs, i) == Some(a) {
      ForestIsRead(evs, i);
    }
    forall kids | Reads(evs, i, Closing(kids))
      ensures Forest(evs, i) == Some(Closed(kids, i + |Closing(kids)|))
    {
      ReadsFits(evs, i, Closing(kids));
      EventsBuildForest(evs, i, kids);
    }
  }

  lemma ReadsFits(evs: seq<Event>, i: nat, want: seq<Event>)
    requires Reads(evs, i, want)
    ensures i + |want| <= |evs|
  {
  }

  // ---- documents ----

  function Document(evs: seq<Event>, i: nat): Option<Value>
    requires i <= |evs|
    decreases |evs| - i
  {
    if i == |evs| then Some(Init(Settings)) else
    match evs[i]
    case Bad => None
    case Start(name) =>
      if LocalName(name) == "settings"
      then Mapped(ValueAt(Settings, Init(Settings), evs, i + 1), (a: Answer<Value>) => a.value)
      else (
        match Forest(evs, i + 1)
        case None => None
        case Some(c) => Document(evs, c.end))
    case _ => Document(evs, i + 1)
  }

  predicate IsSettings(node: Node) { node.Elem? && LocalName(node.name) == "settings" }
  predicate NoSettings(nodes: seq<Node>) { forall node <- nodes :: !IsSettings(node) }

  /** Top-level nodes other than `settings` are passed over, with everything inside them. */
  lemma {:induction false} DocumentSkips(evs: seq<Event>, i: nat, nodes: seq<Node>)
    requires Reads(evs, i, EventsOf(nodes)) && NoSettings(nodes)
    ensures i + |EventsOf(nodes)| <= |evs| && Document(evs, i) == Document(evs, i + |EventsOf(nodes)|)
    decreases |nodes|
  {
    hide Reads;
    hide Closing;
    hide EventsOf;
    hide EventsOfNode;
    hide Document;
    hide IsSettings;
    if nodes == [] {
      NoEvents(evs, i);
    } else {
      var rest := nodes[1..];
      assert nodes[0] in nodes && forall node <- rest :: node in nodes;
      NodeEvents(nodes);
      PartsRead(evs, i, EventsOfNode(nodes[0]), EventsOf(rest));
      SkipNode(evs, i, nodes[0]);
      DocumentSkips(evs, i + |EventsOfNode(nodes[0])|, rest);
    }
  }

  lemma NoEvents(evs: seq<Event>, i: nat)
    requires Reads(evs, i, EventsOf([]))
    ensures EventsOf([]) == [] && i <= |evs|
  {
  }

  lemma NodeEvents(nodes: seq<Node>)
    requires nodes != []
    ensures EventsOf(nodes) == EventsOfNode(nodes[0]) + EventsOf(nodes[1..])
  {
  }

  lemma SkipNode(evs: seq<Event>, i: nat, node: Node)
    requires Reads(evs, i, EventsOfNode(node)) && !IsSettings(node)
    ensures i + |EventsOfNode(node)| <= |evs| && Document(evs, i) == Document(evs, i + |EventsOfNode(node)|)
  {
    hide Reads;
    hide EventsOf;
    hide Document;
    hide Forest;
    hide LocalName;
    match node
    case Leaf(inner) =>
      assert EventsOfNode(node) == [Within(inner)] + [];
      HeadReads(evs, i, Within(inner), []);
      SkipLeaf(evs, i);
    case Elem(name, kids) =>
      ElementReads(evs, i, name, kids);
      SkipElem(evs, i, name);
  }

  lemma SkipLeaf(evs: seq<Event>, i: nat)
    requires i < |evs| && evs[i].Within?
    ensures Document(evs, i) == Document(evs, i + 1)
  {
  }

  lemma SkipElem(evs: seq<Event>, i: nat, name: string)
    requires i < |evs| && evs[i] == Start(name) && LocalName(name) != "settings" && Forest(evs, i + 1).Some?
    ensures Document(evs, i) == Document(evs, Forest(evs, i + 1).value.end)
  {
    hide Forest;
  }

  lemma ElementReads(evs: seq<Event>, i: nat, name: string, kids: seq<Node>)
    requires Reads(evs, i, EventsOfNode(Elem(name, kids)))
    ensures i < |evs| && evs[i] == Start(name)
    ensures Forest(evs, i + 1) == Some(Closed(kids, i + |EventsOfNode(Elem(name, kids))|))
  {
    assert EventsOfNode(Elem(name, kids)) == [Start(name)] + Closing(kids);
    HeadReads(evs, i, Start(name), Closing(kids));
    EventsBuildForest(evs, i + 1, kids);
  }

  lemma WholeReads(evs: seq<Event>)
    ensures Reads(evs, 0, evs)
  {
    assert evs[0..|evs|] == evs;
  }

  lemma DocumentEnds(evs: seq<Event>)
    ensures Document(evs, |evs|) == Some(Init(Settings))
  {
  }

  /** A document without a top-level `settings` element gives the defaults, whatever its elements hold. */
  lemma NoSettingsGivesDefaults(nodes: seq<Node>)
    requires NoSettings(nodes)
    ensures Document(EventsOf(nodes), 0) == Some(Init(Settings))
  {
    hide EventsOf;
    hide Document;
    hide Init;
    hide NoSettings;
    var evs := EventsOf(nodes);
    WholeReads(evs);
    DocumentSkips(evs, 0, nodes);
    DocumentEnds(evs);
  }

  /**
    * A document with one is read from its first, and from nothing after it; cut anywhere between its start tag
    * and its end tag the document is refused.
    */
  lemma FirstSettingsDecides(before: seq<Node>, name: string, kids: seq<Node>, after: seq<Event>, p: nat)
    requires NoSettings(before) && LocalName(name) == "settings"
    requires |EventsOf(before)| < p <= |EventsOf(before) + EventsOfNode(Elem(name, kids)) + after|
    ensures Document((EventsOf(before) + EventsOfNode(Elem(name, kids)) + after)[..p], 0)
         == if p < |EventsOf(before)| + |EventsOfNode(Elem(name, kids))| then None
            else Read(Settings, Init(Settings), kids)
  {
    hide EventsOf;
    hide EventsOfNode;
    hide Read;
    hide Init;
    hide Forest;
    hide Document;
    hide Reads;
    hide LocalName;
    hide NoSettings;
    var b, s := EventsOf(before), EventsOfNode(Elem(name, kids));
    var evs := b + s + after;
    var cut := evs[..p];
    CutReads(b, s, after, p);
    DocumentSkips(cut, 0, before);
    ElementReads(evs, |b|, name, kids);
    ForestOfCut(evs, |b| + 1, p);
    DocumentAtSettings(cut, |b|, name);
  }

  lemma CutReads(b: seq<Event>, s: seq<Event>, after: seq<Event>, p: nat)
    requires |b| < p <= |b + s + after| && s != []
    ensures var evs := b + s + after; Reads(evs[..p], 0, b) && Reads(evs, |b|, s) && evs[..p][|b|] == evs[|b|]
  {
    var evs := b + s + after;
    assert evs[..p][0..|b|] == b && evs[|b|..|b| + |s|] == s;
  }

  lemma DocumentAtSettings(evs: seq<Event>, i: nat, name: string)
    requires i < |evs| && evs[i] == Start(name) && LocalName(name) == "settings"
    ensures Document(evs, i) == match Forest(evs, i + 1) { case None => None
                                                           case Some(c) => Read(Settings, Init(Settings), c.kids) }
  {
    hide Read;
    hide Init;
  }

  // ---- elements nobody reads ----

  /** The tree without the elements its parsers skip and the text they pass over, at every depth. */
  function Prune(kind: Kind, nodes: seq<Node>): seq<Node>
    decreases nodes
  {
    if nodes == [] then [] else PruneNode(kind, nodes[0]) + Prune(kind, nodes[1..])
  }

  function PruneNode(kind: Kind, node: Node): seq<Node>
    decreases node
  {
    match node
    case Leaf(_) => []
    case Elem(name, kids) =>
      match Wants(kind, LocalName(name))
      case Skip => []
      case Field(_, _) => [Elem(name, TextOnly(kids))]
      case Part(_, k) => [Elem(name, Prune(k, kids))]
      case Inside(k) => [Elem(name, Prune(k, kids))]
  }

  function TextOnly(nodes: seq<Node>): seq<Node> {
    if nodes == [] then []
    else (if nodes[0].Leaf? && !nodes[0].inner.Other? then [nodes[0]] else []) + TextOnly(nodes[1..])
  }

  lemma {:induction false} TextOnlyKeepsText(nodes: seq<Node>)
    ensures TextIn(TextOnly(nodes)) == TextIn(nodes)
  {
    if nodes != [] {
      TextOnlyKeepsText(nodes[1..]);
      var t := TextOnly(nodes);
      if nodes[0].Leaf? && !nodes[0].inner.Other? {
        assert t[0] == nodes[0] && t[1..] == TextOnly(nodes[1..]);
      } else {
        assert t == TextOnly(nodes[1..]);
      }
    }
  }

  /** Unknown elements, at any depth, change nothing. */
  lemma {:induction false} UnknownIgnored(kind: Kind, acc: Value, nodes: seq<Node>)
    ensures Read(kind, acc, Prune(kind, nodes)) == Read(kind, acc, nodes)
    decreases nodes
  {
    if nodes != [] {
      var first, rest := PruneNode(kind, nodes[0]), Prune(kind, nodes[1..]);
      PruneNodeSame(kind, acc, nodes[0]);
      hide PruneNode;
      hide ReadNode;
      if first == [] {
        assert first + rest == rest;
        UnknownIgnored(kind, acc, nodes[1..]);
      } else {
        ReadCons(kind, acc, first[0], rest);
        if ReadNode(kind, acc, nodes[0]).Some? {
          UnknownIgnored(kind, ReadNode(kind, acc, nodes[0]).value, nodes[1..]);
        }
      }
    }
  }

  lemma {:induction false} PruneNodeSame(kind: Kind, acc: Value, node: Node)
    ensures PruneNode(kind, node) == [] ==> ReadNode(kind, acc, node) == Some(acc)
    ensures PruneNode(kind, node) != [] ==>
      PruneNode(kind, node) == [PruneNode(kind, node)[0]]
      && ReadNode(kind, acc, PruneNode(kind, node)[0]) == ReadNode(kind, acc, node)
    decreases node
  {
    hide Wants;
    hide Init;
    hide LocalName;
    hide Prune;
    hide Read;
    hide TextOnly;
    hide TextIn;
    hide Put;
    hide Convert;
    if node.Elem? {
      match Wants(kind, LocalName(node.name))
      case Skip =>
      case Field(_, _) => TextOnlyKeepsText(node.kids);
      case Part(_, k) => UnknownIgnored(k, Init(k), node.kids);
      case Inside(k) => UnknownIgnored(k, acc, node.kids);
    }
  }

  // ---- what a record and a list hold ----

  /** A child that is read: the field it fills, and its value if its text decodes. */
  datatype Found = Found(key: string, value: Option<Value>)

  /** The children that are read, in document order; those inside an element that fills the same record count as its
      own. */
  function FoundIn(kind: Kind, nodes: seq<Node>): seq<Found>
    decreases nodes, 0
  {
    if nodes == [] then [] else FoundAt(kind, nodes[0]) + FoundIn(kind, nodes[1..])
  }

  function FoundAt(kind: Kind, node: Node): seq<Found>
    decreases node
  {
    match node
    case Leaf(_) => []
    case Elem(name, kids) => FoundFor(Wants(kind, LocalName(name)), kids)
  }

  function FoundFor(want: Want, kids: seq<Node>): seq<Found>
    decreases kids, 1
  {
    match want
    case Skip => []
    case Field(key, conversion) => [Found(key, Converted(conversion, TextIn(kids)))]
    case Part(key, k) => [Found(key, Read(k, Init(k), kids))]
    case Inside(k) => FoundIn(k, kids)
  }

  predicate Decoded(fs: seq<Found>) { forall f <- fs :: f.value.Some? }

  function Stores(acc: Value, fs: seq<Found>): Option<Value> {
    if fs == [] then Some(acc) else
    match Stores(acc, fs[..|fs| - 1])
    case None => None
    case Some(v) => Stored(v, fs[|fs| - 1].key, fs[|fs| - 1].value)
  }

  lemma {:induction false} StoresConcat(acc: Value, a: seq<Found>, b: seq<Found>)
    ensures Stores(acc, a + b) == match Stores(acc, a) { case None => None case Some(v) => Stores(v, b) }
  {
    hide Put;
    if b == [] {
      assert a + b == a;
    } else {
      var n := |b| - 1;
      StoresConcat(acc, a, b[..n]);
      assert (a + b)[..|a| + n] == a + b[..n];
    }
  }

  /** Reading an element is storing what is found in it, in order. */
  lemma {:induction false} ReadStoresFound(kind: Kind, acc: Value, nodes: seq<Node>)
    ensures Read(kind, acc, nodes) == Stores(acc, FoundIn(kind, nodes))
    decreases nodes, 0
  {
    hide Stores;
    hide ReadNode;
    hide FoundAt;
    if nodes == [] {
      StoresNothing(acc);
    } else {
      NodeStoresFound(kind, acc, nodes[0]);
      StoresConcat(acc, FoundAt(kind, nodes[0]), FoundIn(kind, nodes[1..]));
      if ReadNode(kind, acc, nodes[0]).Some? {
        ReadStoresFound(kind, ReadNode(kind, acc, nodes[0]).value, nodes[1..]);
      }
    }
  }

  lemma StoresNothing(acc: Value)
    ensures Stores(acc, []) == Some(acc)
  {
  }

  lemma StoresOne(acc: Value, f: Found)
    ensures Stores(acc, [f]) == Stored(acc, f.key, f.value)
  {
    assert [f][..0] == [];
  }

  lemma {:induction false} NodeStoresFound(kind: Kind, acc: Value, node: Node)
    ensures ReadNode(kind, acc, node) == Stores(acc, FoundAt(kind, node))
    decreases node
  {
    hide Stores;
    hide Wants;
    hide LocalName;
    hide ReadChild;
    hide FoundFor;
    match node
    case Leaf(_) => StoresNothing(acc);
    case Elem(name, kids) => ChildStoresFound(Wants(kind, LocalName(name)), acc, kids);
  }

  lemma {:induction false} ChildStoresFound(want: Want, acc: Value, kids: seq<Node>)
    ensures ReadChild(want, acc, kids) == Stores(acc, FoundFor(want, kids))
    decreases kids, 1
  {
    hide Stores;
    hide Stored;
    hide Converted;
    hide Init;
    hide Read;
    hide FoundIn;
    hide TextIn;
    match want
    case Skip => StoresNothing(acc);
    case Field(key, conversion) => StoresOne(acc, Found(key, Converted(conversion, TextIn(kids))));
    case Part(key, k) => StoresOne(acc, Found(key, Read(k, Init(k), kids)));
    case Inside(k) => ReadStoresFound(k, acc, kids);
  }

  /** The last value found for a key. */
  function Last(fs: seq<Found>, key: string): Option<Value> {
    if fs == [] then None
    else if fs[|fs| - 1].key == key then fs[|fs| - 1].value
    else Last(fs[..|fs| - 1], key)
  }

  predicate LastWins(before: map<string, Value>, fs: seq<Found>, after: map<string, Value>, key: string) {
    match Last(fs, key)
    case Some(v) => key in after && after[key] == v
    case None => if key in before then key in after && after[key] == before[key] else key !in after
  }

  lemma {:induction false} RecordStores(before: map<string, Value>, fs: seq<Found>) returns (after: map<string, Value>)
    requires Decoded(fs)
    ensures Stores(Record(before), fs) == Some(Record(after)) && forall key :: LastWins(before, fs, after, key)
  {
    if fs == [] {
      after := before;
    } else {
      var n := |fs| - 1;
      assert fs[n] in fs && forall f <- fs[..n] :: f in fs;
      var fewer := RecordStores(before, fs[..n]);
      after := fewer[fs[n].key := fs[n].value.value];
      forall key ensures LastWins(before, fs, after, key) {
        assert LastWins(before, fs[..n], fewer, key);
      }
    }
  }

  function ValuesOf(fs: seq<Found>): seq<Value>
    requires Decoded(fs)
  {
    seq(|fs|, i requires 0 <= i < |fs| => assert fs[i] in fs; fs[i].value.value)
  }

  lemma {:induction false} ListStores(items: seq<Value>, fs: seq<Found>)
    requires Decoded(fs)
    ensures Stores(Items(items), fs) == Some(Items(items + ValuesOf(fs)))
  {
    if fs == [] {
      assert items + ValuesOf(fs) == items;
    } else {
      var n := |fs| - 1;
      assert fs[n] in fs && forall f <- fs[..n] :: f in fs;
      ListStores(items, fs[..n]);
      assert ValuesOf(fs) == ValuesOf(fs[..n]) + [fs[n].value.value];
      assert items + ValuesOf(fs) == (items + ValuesOf(fs[..n])) + [fs[n].value.value];
    }
  }

  lemma {:induction false} UndecodedStores(acc: Value, fs: seq<Found>)
    requires !Decoded(fs)
    ensures Stores(acc, fs) == None
  {
    var n := |fs| - 1;
    if Decoded(fs[..n]) {
      assert forall f <- fs :: f in fs[..n] || f == fs[n];
    } else {
      UndecodedStores(acc, fs[..n]);
    }
  }

  /**
    * What reading an element gives: an error iff some text it reads does not decode; otherwise, for a record, each
    * field with the value of the last child that fills it and the default where none does; for a list, its items in
    * document order.
    */
  lemma ReadMeans(kind: Kind, acc: Value, nodes: seq<Node>)
    requires acc.Record? || acc.Items?
    ensures Read(kind, acc, nodes).Some? <==> Decoded(FoundIn(kind, nodes))
    ensures Decoded(FoundIn(kind, nodes)) ==>
      match acc
      case Record(before) =>
        && Read(kind, acc, nodes).value.Record?
        && forall key :: LastWins(before, FoundIn(kind, nodes), Read(kind, acc, nodes).value.fields, key)
      case Items(items) => Read(kind, acc, nodes) == Some(Items(items + ValuesOf(FoundIn(kind, nodes))))
      case _ => true
  {
    hide Read;
    hide FoundIn;
    hide Stores;
    hide LastWins;
    var fs := FoundIn(kind, nodes);
    ReadStoresFound(kind, acc, nodes);
    if !Decoded(fs) {
      UndecodedStores(acc, fs);
    } else if acc.Record? {
      var after := RecordStores(acc.fields, fs);
    } else {
      ListStores(acc.items, fs);
    }
  }
}
