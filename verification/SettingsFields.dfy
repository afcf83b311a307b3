/** What each record of `settings.xml` ends up holding, field by field. */
module SettingsFields {
  import opened Bytes
  import opened Text
  import opened Decimals
  import opened Hex
  import opened XmlEvents
  import opened SettingsXml

  // ---- words for true and false ----

  /** `w` is `word`, letter by letter in either case. */
  predicate AnyCase(w: string, word: string) {
    && |w| == |word|
    && forall i | 0 <= i < |w| ::
         w[i] == word[i] || ('a' <= word[i] <= 'z' && w[i] as int == word[i] as int - 32)
  }

  predicate Spells(text: string, before: string, w: string, after: string, word: string) {
    AllWs(before) && AllWs(after) && AnyCase(w, word) && text == before + w + after
  }

  /** The text is one of the words, in any letter case, with or without whitespace around it. */
  ghost predicate Says(text: string, words: seq<string>) {
    exists before, w, after, word :: Spells(text, before, w, after, word) && word in words
  }

  const YES := ["true", "1", "yes"]
  const NO := ["false", "0", "no"]

  ghost function Meant(text: string, otherwise: bool): bool {
    if Says(text, YES) then true else if Says(text, NO) then false else otherwise
  }

  /** Words as they are compared with: not empty, no capitals, no whitespace. */
  predicate LowerWord(word: string) { word != "" && forall c <- word :: !('A' <= c <= 'Z') && !IsWs(c) }

  lemma AnyCaseIff(w: string, word: string)
    requires LowerWord(word)
    ensures AnyCase(w, word) <==> LowerAll(w) == word
  {
    if |w| == |word| {
      forall i | 0 <= i < |w|
        ensures LowerAll(w)[i] == word[i] <==>
                w[i] == word[i] || ('a' <= word[i] <= 'z' && w[i] as int == word[i] as int - 32)
      {
        assert word[i] in word;
      }
    }
  }

  lemma EndsOfWord(w: string, word: string)
    requires LowerWord(word) && AnyCase(w, word)
    ensures w != "" && !IsWs(w[0]) && !IsWs(w[|w| - 1])
  {
    assert word[0] in word && word[|w| - 1] in word;
  }

  lemma SaysIff(text: string, words: seq<string>)
    requires forall word <- words :: LowerWord(word)
    ensures Says(text, words) <==> LowerAll(Trim(text)) in words
  {
    hide LowerWord;
    hide AnyCase;
    hide LowerAll;
    hide Trim;
    forall before, w, after, word | Spells(text, before, w, after, word) && word in words
      ensures LowerAll(Trim(text)) == word
    {
      EndsOfWord(w, word);
      TrimAround(before, w, after);
      AnyCaseIff(w, word);
    }
    var word := LowerAll(Trim(text));
    if word in words {
      var before, after := TrimParts(text);
      AnyCaseIff(Trim(text), word);
      assert Spells(text, before, Trim(text), after, word);
    }
  }

  lemma WordsAreLower()
    ensures forall word <- YES + NO :: LowerWord(word)
  {
  }

  /** A text means true, false or nothing by these words alone. */
  lemma ParseBoolMeans(text: string, otherwise: bool)
    ensures ParseBool(text, otherwise) == Meant(text, otherwise)
    ensures !(Says(text, YES) && Says(text, NO))
  {
    hide Says;
    hide LowerAll;
    hide Trim;
    hide LowerWord;
    WordsAreLower();
    assert forall word <- YES :: word in YES + NO;
    assert forall word <- NO :: word in YES + NO;
    SaysIff(text, YES);
    SaysIff(text, NO);
  }

  // ---- port numbers ----

  /** The text is a decimal number, with or without leading zeros, a plus sign and whitespace around it. */
  predicate SpellsNumber(text: string, before: string, sign: string, digits: string, after: string, n: nat) {
    && AllWs(before) && AllWs(after) && (sign == "" || sign == "+") && text == before + (sign + digits) + after
    && digits != "" && n < Pow10(|digits|) && digits == Fixed(n, |digits|)
  }

  ghost predicate SaysPort(text: string, n: nat) {
    n <= 0xFFFF && exists before, sign, digits, after :: SpellsNumber(text, before, sign, digits, after, n)
  }

  lemma {:induction false} NumberIsFixed(s: string)
    requires Number(s).Some?
    ensures Number(s).value < Pow10(|s|) && s == Fixed(Number(s).value, |s|)
  {
    if s != "" {
      var n := |s| - 1;
      NumberIsFixed(s[..n]);
      assert s == s[..n] + [s[n]];
    }
  }

  lemma PortMeans(text: string, n: nat)
    ensures Convert(PortNumber, text) == Port(Some(n)) <==> SaysPort(text, n)
  {
    hide Trim;
    hide ParseUnsigned;
    hide SpellsNumber;
    forall before, sign, digits, after | SpellsNumber(text, before, sign, digits, after, n) && n <= 0xFFFF
      ensures ParseUnsigned(Trim(text), 0xFFFF) == Some(n)
    {
      NumberParsed(text, before, sign, digits, after, n);
    }
    if ParseUnsigned(Trim(text), 0xFFFF) == Some(n) {
      var before, sign, digits, after := NumberFound(text, n);
    }
  }

  lemma NumberParsed(text: string, before: string, sign: string, digits: string, after: string, n: nat)
    requires SpellsNumber(text, before, sign, digits, after, n) && n <= 0xFFFF
    ensures ParseUnsigned(Trim(text), 0xFFFF) == Some(n)
  {
    hide Trim;
    hide IsWs;
    hide Fixed;
    hide Number;
    FixedReadsBack(n, |digits|);
    DigitsOnly(digits);
    SignedEnds(sign, digits);
    hide AllWs;
    TrimAround(before, sign + digits, after);
    hide ParseUnsigned;
    SignedParsed(sign, digits);
  }

  lemma SignedEnds(sign: string, digits: string)
    requires (sign == "" || sign == "+") && digits != "" && forall c <- digits :: !IsWs(c)
    ensures var s := sign + digits; s != "" && !IsWs(s[0]) && !IsWs(s[|s| - 1])
  {
    assert !IsWs('+') && digits[0] in digits && digits[|digits| - 1] in digits;
  }

  lemma SignedParsed(sign: string, digits: string)
    requires (sign == "" || sign == "+") && digits != "" && digits[0] != '+'
    ensures ParseUnsigned(sign + digits, 0xFFFF)
         == match Number(digits) { case Some(n) => if n <= 0xFFFF then Some(n) else None case None => None }
  {
    hide Number;
    assert if sign == "+" then (sign + digits)[1..] == digits else sign + digits == digits;
  }

  lemma NumberFound(text: string, n: nat) returns (before: string, sign: string, digits: string, after: string)
    requires ParseUnsigned(Trim(text), 0xFFFF) == Some(n)
    ensures n <= 0xFFFF && SpellsNumber(text, before, sign, digits, after, n)
  {
    hide Trim;
    hide AllWs;
    hide Number;
    hide Fixed;
    var t := Trim(text);
    before, after := TrimParts(text);
    sign, digits := if t[0] == '+' then "+" else "", if t[0] == '+' then t[1..] else t;
    NumberIsFixed(digits);
    assert t == sign + digits;
  }

  lemma DigitsOnly(s: string)
    requires Number(s).Some? && s != ""
    ensures s[0] != '+' && forall c <- s :: !IsWs(c)
  {
    NumbersAreDigits(s);
    assert s[0] in s;
  }

  // ---- children ----

  /** The children of the last child element with this name. */
  function LastChild(nodes: seq<Node>, name: string): Option<seq<Node>> {
    if nodes == [] then None else
    var n := |nodes| - 1;
    if nodes[n].Elem? && LocalName(nodes[n].name) == name then Some(nodes[n].kids) else LastChild(nodes[..n], name)
  }

  /** The children of each child element with this name, in document order. */
  function Children(nodes: seq<Node>, name: string): seq<seq<Node>> {
    if nodes == [] then [] else
    var n := |nodes| - 1;
    Children(nodes[..n], name) + (if nodes[n].Elem? && LocalName(nodes[n].name) == name then [nodes[n].kids] else [])
  }

  /** All their children together. */
  function Grandchildren(nodes: seq<Node>, name: string): seq<Node> {
    if nodes == [] then [] else
    var n := |nodes| - 1;
    Grandchildren(nodes[..n], name) + (if nodes[n].Elem? && LocalName(nodes[n].name) == name then nodes[n].kids else [])
  }

  // ---- the last child that fills a field ----

  function LastKey(fs: seq<Found>, key: string): Option<Found> {
    if fs == [] then None
    else if fs[|fs| - 1].key == key then Some(fs[|fs| - 1])
    else LastKey(fs[..|fs| - 1], key)
  }

  lemma {:induction false} LastIsLastKey(fs: seq<Found>, key: string)
    ensures match LastKey(fs, key)
            case None => Last(fs, key) == None
            case Some(f) => f in fs && f.key == key && Last(fs, key) == f.value
  {
    if fs != [] && fs[|fs| - 1].key != key {
      LastIsLastKey(fs[..|fs| - 1], key);
    }
  }

  lemma {:induction false} LastKeyConcat(fs: seq<Found>, gs: seq<Found>, key: string)
    ensures LastKey(fs + gs, key) == if LastKey(gs, key).Some? then LastKey(gs, key) else LastKey(fs, key)
  {
    if gs == [] {
      assert fs + gs == fs;
    } else {
      var n := |gs| - 1;
      assert (fs + gs)[..|fs| + n] == fs + gs[..n];
      LastKeyConcat(fs, gs[..n], key);
    }
  }

  lemma {:induction false} FoundConcat(kind: Kind, a: seq<Node>, b: seq<Node>)
    ensures FoundIn(kind, a + b) == FoundIn(kind, a) + FoundIn(kind, b)
  {
    hide FoundAt;
    if a == [] {
      assert a + b == b;
    } else {
      FoundConcat(kind, a[1..], b);
      assert (a + b)[1..] == a[1..] + b && (a + b)[0] == a[0];
    }
  }

  lemma FoundSnoc(kind: Kind, nodes: seq<Node>)
    requires nodes != []
    ensures var n := |nodes| - 1; FoundIn(kind, nodes) == FoundIn(kind, nodes[..n]) + FoundAt(kind, nodes[n])
  {
    hide FoundAt;
    var n := |nodes| - 1;
    assert nodes == nodes[..n] + [nodes[n]];
    FoundConcat(kind, nodes[..n], [nodes[n]]);
    assert FoundIn(kind, [nodes[n]]) == FoundAt(kind, nodes[n]) + FoundIn(kind, []);
  }

  /** What the fields of a record are called after, besides the elements that fill them. */
  function Prefix(kind: Kind): string {
    match kind
    case Os => "os."
    case Property => "property."
    case File => "file."
    case _ => ""
  }

  lemma OwnNames(kind: Kind, name: string)
    requires !kind.Activation?
    ensures var w := Wants(kind, name); w.Skip? || ((w.Field? || w.Part?) && w.key == Prefix(kind) + name)
  {
    assert "" + name == name;
  }

  /** The value a child gives to the field it fills. */
  function ChildValue(want: Want, kids: seq<Node>): Option<Value> {
    match want
    case Field(_, conversion) => Converted(conversion, TextIn(kids))
    case Part(_, k) => Read(k, Init(k), kids)
    case _ => None
  }

  lemma FoundFlat(kind: Kind, node: Node)
    requires !kind.Activation?
    ensures match node
            case Leaf(_) => FoundAt(kind, node) == []
            case Elem(name, kids) =>
              var w := Wants(kind, LocalName(name));
              FoundAt(kind, node)
              == if w.Skip? then [] else [Found(Prefix(kind) + LocalName(name), ChildValue(w, kids))]
  {
    hide Wants;
    hide LocalName;
    hide TextIn;
    hide Read;
    hide Init;
    hide Converted;
    hide Prefix;
    if node.Elem? {
      OwnNames(kind, LocalName(node.name));
    }
  }

  lemma OneKey(f: Found, key: string)
    ensures LastKey([f], key) == if f.key == key then Some(f) else None
    ensures LastKey([], key) == None
  {
    assert [f][..0] == [];
  }

  lemma {:induction false} LastFound(kind: Kind, nodes: seq<Node>, name: string)
    requires !kind.Activation?
    ensures LastKey(FoundIn(kind, nodes), Prefix(kind) + name)
         == match LastChild(nodes, name)
            case None => None
            case Some(kids) =>
              var w := Wants(kind, name);
              if w.Skip? then None else Some(Found(Prefix(kind) + name, ChildValue(w, kids)))
  {
    hide Wants;
    hide LocalName;
    hide ChildValue;
    hide Prefix;
    hide FoundAt;
    hide LastKey;
    var key := Prefix(kind) + name;
    OneKey(Found("", None), key);
    if nodes != [] {
      var n := |nodes| - 1;
      var node := nodes[n];
      LastFound(kind, nodes[..n], name);
      FoundSnoc(kind, nodes);
      FoundFlat(kind, node);
      LastKeyConcat(FoundIn(kind, nodes[..n]), FoundAt(kind, node), key);
      hide FoundIn;
      if node.Elem? {
        var own := Prefix(kind) + LocalName(node.name);
        assert own[|Prefix(kind)|..] == LocalName(node.name) && key[|Prefix(kind)|..] == name;
        OneKey(Found(own, ChildValue(Wants(kind, LocalName(node.name)), node.kids)), key);
      }
    }
  }

  // ---- one field ----

  /** What a field is after reading: the value of the last child of its name, or what it was before. */
  predicate FieldIs(fields: map<string, Value>, key: string, before: map<string, Value>, want: Want,
                    last: Option<seq<Node>>)
  {
    if last.Some? && !want.Skip? then key in fields && ChildValue(want, last.value) == Some(fields[key])
    else if key in before then key in fields && fields[key] == before[key]
    else key !in fields
  }

  lemma FieldRead(kind: Kind, nodes: seq<Node>, name: string)
    requires !kind.Activation? && Init(kind).Record? && Read(kind, Init(kind), nodes).Some?
    ensures var v := Read(kind, Init(kind), nodes).value;
      v.Record? && FieldIs(v.fields, Prefix(kind) + name, Init(kind).fields, Wants(kind, name), LastChild(nodes, name))
  {
    hide Wants;
    hide Init;
    hide ChildValue;
    hide Read;
    hide FoundIn;
    hide LastChild;
    hide LastKey;
    hide Last;
    var fs, key := FoundIn(kind, nodes), Prefix(kind) + name;
    hide Prefix;
    ReadMeans(kind, Init(kind), nodes);
    var v := Read(kind, Init(kind), nodes).value;
    assert LastWins(Init(kind).fields, fs, v.fields, key);
    LastFound(kind, nodes, name);
    LastIsLastKey(fs, key);
  }

  // ---- what is promised of a field ----

  /** A text field, with its value when there is no such element; `None` is an unset option. */
  predicate IsText(fields: map<string, Value>, key: string, last: Option<seq<Node>>, otherwise: Option<string>) {
    match last
    case Some(kids) => key in fields && TextIn(kids).Some? && fields[key] == Str(TextIn(kids).value)
    case None => if otherwise.Some? then key in fields && fields[key] == Str(otherwise.value) else key !in fields
  }

  /** A truth value, with its value when there is no such element and when the text is none of the words. */
  ghost predicate IsTruth(fields: map<string, Value>, key: string, last: Option<seq<Node>>, absent: bool, unclear: bool)
  {
    && key in fields
    && match last
       case Some(kids) => TextIn(kids).Some? && fields[key] == Flag(Meant(TextIn(kids).value, unclear))
       case None => fields[key] == Flag(absent)
  }

  ghost predicate IsPort(fields: map<string, Value>, key: string, last: Option<seq<Node>>) {
    && key in fields && fields[key].Port?
    && match last
       case Some(kids) =>
         TextIn(kids).Some? && forall n: nat :: fields[key].port == Some(n) <==> SaysPort(TextIn(kids).value, n)
       case None => fields[key].port == None
  }

  /** An element of its own, with the field's value when there is none. */
  predicate IsPart(fields: map<string, Value>, key: string, last: Option<seq<Node>>, kind: Kind,
                   otherwise: Option<Value>)
  {
    match last
    case Some(kids) => key in fields && Read(kind, Init(kind), kids) == Some(fields[key])
    case None => if otherwise.Some? then key in fields && fields[key] == otherwise.value else key !in fields
  }

  /** A list: each element of the given name inside the last list element, in document order. */
  predicate IsList(fields: map<string, Value>, key: string, last: Option<seq<Node>>, item: string, kind: Kind) {
    && key in fields && fields[key].Items?
    && match last
       case Some(kids) =>
         var cs, vs := Children(kids, item), fields[key].items;
         |vs| == |cs| && forall i | 0 <= i < |cs| :: Read(kind, Init(kind), cs[i]) == Some(vs[i])
       case None => fields[key].items == []
  }

  /** A list of texts, likewise. */
  predicate IsTexts(fields: map<string, Value>, key: string, last: Option<seq<Node>>, item: string) {
    && key in fields && fields[key].Items?
    && match last
       case Some(kids) =>
         var cs, vs := Children(kids, item), fields[key].items;
         |vs| == |cs| && forall i | 0 <= i < |cs| :: TextIn(cs[i]).Some? && vs[i] == Str(TextIn(cs[i]).value)
       case None => fields[key].items == []
  }

  // ---- from the table to the promises ----

  lemma TextField(fields: map<string, Value>, key: string, before: map<string, Value>, last: Option<seq<Node>>,
                  otherwise: Option<string>)
    requires FieldIs(fields, key, before, Field(key, Plain), last)
    requires if otherwise.Some? then key in before && before[key] == Str(otherwise.value) else key !in before
    ensures IsText(fields, key, last, otherwise)
  {
    hide TextIn;
  }

  lemma TruthField(fields: map<string, Value>, key: string, before: map<string, Value>, last: Option<seq<Node>>,
                   absent: bool, unclear: bool)
    requires FieldIs(fields, key, before, Field(key, Truth(unclear)), last)
    requires key in before && before[key] == Flag(absent)
    ensures IsTruth(fields, key, last, absent, unclear)
  {
    hide TextIn;
    hide ParseBool;
    hide Meant;
    if last.Some? && TextIn(last.value).Some? {
      ParseBoolMeans(TextIn(last.value).value, unclear);
    }
  }

  lemma PortField(fields: map<string, Value>, key: string, before: map<string, Value>, last: Option<seq<Node>>)
    requires FieldIs(fields, key, before, Field(key, PortNumber), last)
    requires key in before && before[key] == Port(None)
    ensures IsPort(fields, key, last)
  {
    hide TextIn;
    hide SaysPort;
    if last.Some? && TextIn(last.value).Some? {
      forall n: nat ensures fields[key].port == Some(n) <==> SaysPort(TextIn(last.value).value, n) {
        PortMeans(TextIn(last.value).value, n);
      }
    }
  }

  lemma PartField(fields: map<string, Value>, key: string, before: map<string, Value>, last: Option<seq<Node>>,
                  kind: Kind, otherwise: Option<Value>)
    requires FieldIs(fields, key, before, Part(key, kind), last)
    requires if otherwise.Some? then key in before && before[key] == otherwise.value else key !in before
    ensures IsPart(fields, key, last, kind, otherwise)
  {
  }

  lemma ListField(fields: map<string, Value>, key: string, before: map<string, Value>, last: Option<seq<Node>>,
                  item: string, kind: Kind)
    requires FieldIs(fields, key, before, Part(key, ListOf(item, kind)), last)
    requires key in before && before[key] == Items([])
    ensures IsList(fields, key, last, item, kind)
  {
    hide Read;
    hide Children;
    hide FoundIn;
    if last.Some? {
      ItemsFound(ListOf(item, kind), last.value, fields[key]);
    }
  }

  lemma TextsField(fields: map<string, Value>, key: string, before: map<string, Value>, last: Option<seq<Node>>,
                   item: string)
    requires FieldIs(fields, key, before, Part(key, TextsOf(item)), last)
    requires key in before && before[key] == Items([])
    ensures IsTexts(fields, key, last, item)
  {
    hide Read;
    hide Children;
    hide FoundIn;
    hide TextIn;
    if last.Some? {
      ItemsFound(TextsOf(item), last.value, fields[key]);
    }
  }

  /** A list that was read: one item for each child of the name, with the child's value. */
  lemma ItemsFound(kind: Kind, nodes: seq<Node>, v: Value)
    requires (kind.ListOf? || kind.TextsOf?) && Read(kind, Items([]), nodes) == Some(v)
    ensures var cs := Children(nodes, kind.item);
      && v.Items? && |v.items| == |cs|
      && forall i | 0 <= i < |cs| :: ChildValue(Wants(kind, kind.item), cs[i]) == Some(v.items[i])
  {
    hide Read;
    hide FoundIn;
    hide ChildValue;
    hide Children;
    hide Wants;
    ReadMeans(kind, Items([]), nodes);
    FoundItems(kind, nodes, kind.item);
    var fs := FoundIn(kind, nodes);
    assert forall i | 0 <= i < |fs| :: fs[i] in fs;
    assert [] + ValuesOf(fs) == ValuesOf(fs);
  }

  // ---- lists ----

  /** What is found in a list element: its items, in order. */
  lemma {:induction false} FoundItems(kind: Kind, nodes: seq<Node>, item: string)
    requires (kind.ListOf? || kind.TextsOf?) && kind.item == item
    ensures var fs, cs := FoundIn(kind, nodes), Children(nodes, item);
      |fs| == |cs| && forall i | 0 <= i < |cs| :: fs[i].value == ChildValue(Wants(kind, item), cs[i])
  {
    hide ChildValue;
    hide FoundAt;
    hide LocalName;
    hide Wants;
    if nodes != [] {
      var n := |nodes| - 1;
      FoundItems(kind, nodes[..n], item);
      FoundSnoc(kind, nodes);
      FoundFlat(kind, nodes[n]);
      if nodes[n].Elem? {
        ItemsWanted(kind, LocalName(nodes[n].name));
      }
      hide FoundIn;
    }
  }

  lemma ItemsWanted(kind: Kind, name: string)
    requires kind.ListOf? || kind.TextsOf?
    ensures Wants(kind, name).Skip? <==> name != kind.item
  {
  }
}
