/** XML as the tokenizer delivers it, and the element trees it stands for. */
module XmlEvents {
  import opened Bytes

  /** Text and CDATA carry what they decode to, if they decode; `Other` is a comment, declaration and the like. */
  datatype Inner = Text(decoded: Option<string>) | CData(decoded: Option<string>) | Other

  /** `Bad` is a tokenizer error. Empty elements arrive as a start and an end. */
  datatype Event = Start(name: string) | Within(inner: Inner) | End | Bad

  datatype Node = Elem(name: string, kids: seq<Node>) | Leaf(inner: Inner)

  function EventsOf(nodes: seq<Node>): seq<Event> {
    if nodes == [] then [] else EventsOfNode(nodes[0]) + EventsOf(nodes[1..])
  }

  function EventsOfNode(node: Node): (evs: seq<Event>)
    ensures evs != []
  {
    match node
    case Elem(name, kids) => [Start(name)] + EventsOf(kids) + [End]
    case Leaf(inner) => [Within(inner)]
  }

  datatype Closed = Closed(kids: seq<Node>, end: nat)

  /** The nodes from position `i` up to the end tag that closes the element they are in, and the position after it. */
  function Forest(evs: seq<Event>, i: nat): (r: Option<Closed>)
    requires i <= |evs|
    ensures r.Some? ==> i < r.value.end <= |evs|
    decreases |evs| - i
  {
    if i == |evs| then None else
    match evs[i]
    case End => Some(Closed([], i + 1))
    case Bad => None
    case Within(inner) => Prepend(Leaf(inner), Forest(evs, i + 1))
    case Start(name) =>
      match Forest(evs, i + 1)
      case None => None
      case Some(k) => Prepend(Elem(name, k.kids), Forest(evs, k.end))
  }

  function Prepend(node: Node, r: Option<Closed>): Option<Closed> {
    match r
    case None => None
    case Some(c) => Some(Closed([node] + c.kids, c.end))
  }

  /** The events of the nodes and of the end tag after them. */
  function Closing(nodes: seq<Node>): (evs: seq<Event>)
    ensures |evs| == |EventsOf(nodes)| + 1
  { EventsOf(nodes) + [End] }

  predicate Reads(evs: seq<Event>, i: nat, want: seq<Event>) {
    i + |want| <= |evs| && evs[i..i + |want|] == want
  }

  /** A tree's events build the tree again, whatever comes after them. */
  lemma {:induction false} EventsBuildForest(evs: seq<Event>, i: nat, nodes: seq<Node>)
    requires Reads(evs, i, Closing(nodes)) && i + |Closing(nodes)| <= |evs|
    ensures Forest(evs, i) == Some(Closed(nodes, i + |Closing(nodes)|))
    decreases nodes
  {
    hide Reads;
    hide Closing;
    hide EventsOf;
    ClosingParts(nodes);
    if nodes == [] {
      HeadReads(evs, i, End, []);
    } else {
      var rest := nodes[1..];
      assert nodes == [nodes[0]] + rest;
      match nodes[0]
      case Leaf(inner) =>
        HeadReads(evs, i, Within(inner), Closing(rest));
        EventsBuildForest(evs, i + 1, rest);
      case Elem(name, kids) =>
        HeadReads(evs, i, Start(name), Closing(kids) + Closing(rest));
        PartsRead(evs, i + 1, Closing(kids), Closing(rest));
        EventsBuildForest(evs, i + 1, kids);
        EventsBuildForest(evs, i + 1 + |Closing(kids)|, rest);
    }
  }

  lemma ClosingParts(nodes: seq<Node>)
    ensures nodes == [] ==> Closing(nodes) == [End] + []
    ensures nodes != [] && nodes[0].Leaf? ==> Closing(nodes) == [Within(nodes[0].inner)] + Closing(nodes[1..])
    ensures nodes != [] && nodes[0].Elem? ==>
      Closing(nodes) == [Start(nodes[0].name)] + (Closing(nodes[0].kids) + Closing(nodes[1..]))
  {
    if nodes != [] && nodes[0].Leaf? {
      assert EventsOfNode(nodes[0]) == [Within(nodes[0].inner)];
      assert EventsOf(nodes) + [End] == [Within(nodes[0].inner)] + (EventsOf(nodes[1..]) + [End]);
    }
    if nodes != [] && nodes[0].Elem? {
      var a, b := EventsOf(nodes[0].kids), EventsOf(nodes[1..]);
      assert EventsOfNode(nodes[0]) == [Start(nodes[0].name)] + a + [End];
      assert ([Start(nodes[0].name)] + a + [End]) + b + [End] == [Start(nodes[0].name)] + ((a + [End]) + (b + [End]));
    }
  }

  lemma HeadReads(evs: seq<Event>, i: nat, e: Event, rest: seq<Event>)
    ensures Reads(evs, i, [e] + rest) <==> i < |evs| && evs[i] == e && Reads(evs, i + 1, rest)
  {
    PartsRead(evs, i, [e], rest);
    if i < |evs| {
      assert evs[i..i + 1] == [evs[i]];
    }
  }

  lemma PartsRead(evs: seq<Event>, i: nat, a: seq<Event>, b: seq<Event>)
    ensures Reads(evs, i, a + b) <==> Reads(evs, i, a) && Reads(evs, i + |a|, b)
    ensures Reads(evs, i, a) && Reads(evs, i + |a|, b) ==> i + |a| + |b| <= |evs|
  {
    if i + |a + b| <= |evs| {
      var s := evs[i..i + |a + b|];
      assert evs[i..i + |a|] == s[..|a|];
      assert evs[i + |a|..i + |a| + |b|] == s[|a|..];
    }
  }

  /** What was built is what was read, up to the closing end tag. */
  lemma {:induction false} ForestIsRead(evs: seq<Event>, i: nat)
    requires i <= |evs| && Forest(evs, i).Some?
    ensures var c := Forest(evs, i).value; Reads(evs, i, Closing(c.kids)) && c.end == i + |Closing(c.kids)|
    decreases |evs| - i
  {
    hide Reads;
    hide Closing;
    hide EventsOf;
    var nodes := Forest(evs, i).value.kids;
    ClosingParts(nodes);
    match evs[i]
    case End =>
      HeadReads(evs, i, End, []);
      NothingReads(evs, i + 1);
    case Within(inner) =>
      ForestIsRead(evs, i + 1);
      HeadReads(evs, i, Within(inner), Closing(nodes[1..]));
    case Start(name) =>
      ForestIsRead(evs, i + 1);
      var k := Forest(evs, i + 1).value;
      ForestIsRead(evs, k.end);
      PartsRead(evs, i + 1, Closing(k.kids), Closing(nodes[1..]));
      HeadReads(evs, i, Start(name), Closing(k.kids) + Closing(nodes[1..]));
  }

  lemma NothingReads(evs: seq<Event>, i: nat)
    requires i <= |evs|
    ensures Reads(evs, i, [])
  {
  }

  /** Cutting the stream before the closing end tag leaves nothing to read; what comes after it does not matter. */
  lemma ForestOfCut(evs: seq<Event>, i: nat, p: nat)
    requires i <= p <= |evs|
    ensures Forest(evs[..p], i)
         == if Forest(evs, i).Some? && Forest(evs, i).value.end <= p then Forest(evs, i) else None
  {
    hide Forest;
    hide Closing;
    var cut := evs[..p];
    if Forest(evs, i).Some? && Forest(evs, i).value.end <= p {
      var c := Forest(evs, i).value;
      ForestIsRead(evs, i);
      assert cut[i..c.end] == evs[i..c.end];
      EventsBuildForest(cut, i, c.kids);
    } else if Forest(cut, i).Some? {
      var c := Forest(cut, i).value;
      ForestIsRead(cut, i);
      assert cut[i..c.end] == evs[i..c.end];
      EventsBuildForest(evs, i, c.kids);
    }
  }
}
