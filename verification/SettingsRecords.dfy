/** The records of `settings.xml`: for every element that is read, what each field holds, with every default. */
module SettingsRecords {
  import opened Bytes
  import opened XmlEvents
  import opened SettingsXml
  import opened SettingsFields

  lemma FieldAt(kind: Kind, nodes: seq<Node>, name: string)
    requires Prefix(kind) == "" && !kind.Activation? && Init(kind).Record? && Read(kind, Init(kind), nodes).Some?
    ensures var v := Read(kind, Init(kind), nodes).value;
      v.Record? && FieldIs(v.fields, name, Init(kind).fields, Wants(kind, name), LastChild(nodes, name))
  {
    hide FieldIs;
    hide Prefix;
    hide Init;
    hide Read;
    FieldRead(kind, nodes, name);
    assert "" + name == name;
  }

  const SERVER_OPTIONS :=
    ["username", "password", "privateKey", "passphrase", "filePermissions", "directoryPermissions"]

  lemma ServerRead(nodes: seq<Node>)
    requires Read(Server, Init(Server), nodes).Some?
    ensures var v := Read(Server, Init(Server), nodes).value;
      && v.Record? && IsText(v.fields, "id", LastChild(nodes, "id"), Some(""))
      && (forall name <- SERVER_OPTIONS :: IsText(v.fields, name, LastChild(nodes, name), None))
      && (forall name <- v.fields :: name == "id" || name in SERVER_OPTIONS)
  {
    hide Read;
    hide LastChild;
    hide IsText;
    var v, before := Read(Server, Init(Server), nodes).value, Init(Server).fields;
    FieldAt(Server, nodes, "id");
    TextField(v.fields, "id", before, LastChild(nodes, "id"), Some(""));
    forall name <- SERVER_OPTIONS ensures IsText(v.fields, name, LastChild(nodes, name), None) {
      FieldAt(Server, nodes, name);
      TextField(v.fields, name, before, LastChild(nodes, name), None);
    }
    forall name <- v.fields ensures name == "id" || name in SERVER_OPTIONS {
      FieldAt(Server, nodes, name);
    }
  }

  lemma MirrorRead(nodes: seq<Node>)
    requires Read(Mirror, Init(Mirror), nodes).Some?
    ensures var v := Read(Mirror, Init(Mirror), nodes).value;
      && v.Record?
      && (forall name <- ["id", "url", "mirrorOf"] :: IsText(v.fields, name, LastChild(nodes, name), Some("")))
      && IsText(v.fields, "name", LastChild(nodes, "name"), None)
      && IsTruth(v.fields, "blocked", LastChild(nodes, "blocked"), false, false)
      && (forall name <- v.fields :: name in ["id", "url", "mirrorOf", "name", "blocked"])
  {
    hide Read;
    hide LastChild;
    hide IsText;
    hide IsTruth;
    var v, before := Read(Mirror, Init(Mirror), nodes).value, Init(Mirror).fields;
    FieldAt(Mirror, nodes, "name");
    TextField(v.fields, "name", before, LastChild(nodes, "name"), None);
    FieldAt(Mirror, nodes, "blocked");
    TruthField(v.fields, "blocked", before, LastChild(nodes, "blocked"), false, false);
    forall name <- ["id", "url", "mirrorOf"] ensures IsText(v.fields, name, LastChild(nodes, name), Some("")) {
      FieldAt(Mirror, nodes, name);
      TextField(v.fields, name, before, LastChild(nodes, name), Some(""));
    }
    forall name <- v.fields ensures name in ["id", "url", "mirrorOf", "name", "blocked"] {
      FieldAt(Mirror, nodes, name);
    }
  }

  /** Every child element is a property, the last one of a name counts. */
  lemma PropertiesRead(nodes: seq<Node>, name: string)
    requires Read(Properties, Init(Properties), nodes).Some?
    ensures var v := Read(Properties, Init(Properties), nodes).value;
      v.Record? && IsText(v.fields, name, LastChild(nodes, name), None)
  {
    hide Read;
    hide LastChild;
    hide IsText;
    var v := Read(Properties, Init(Properties), nodes).value;
    FieldAt(Properties, nodes, name);
    TextField(v.fields, name, map[], LastChild(nodes, name), None);
  }

  lemma ProfileRead(nodes: seq<Node>)
    requires Read(Profile, Init(Profile), nodes).Some?
    ensures var v := Read(Profile, Init(Profile), nodes).value;
      && v.Record? && IsText(v.fields, "id", LastChild(nodes, "id"), Some(""))
      && IsPart(v.fields, "properties", LastChild(nodes, "properties"), Properties, Some(Record(map[])))
      && IsPart(v.fields, "activation", LastChild(nodes, "activation"), Activation, None)
      && IsList(v.fields, "repositories", LastChild(nodes, "repositories"), "repository", Repository)
      && IsList(v.fields, "pluginRepositories", LastChild(nodes, "pluginRepositories"), "pluginRepository", Repository)
      && (forall name <- v.fields :: name in ["id", "properties", "activation", "repositories", "pluginRepositories"])
  {
    hide Read;
    hide LastChild;
    hide IsText;
    hide IsPart;
    hide IsList;
    var v, before := Read(Profile, Init(Profile), nodes).value, Init(Profile).fields;
    FieldAt(Profile, nodes, "id");
    TextField(v.fields, "id", before, LastChild(nodes, "id"), Some(""));
    FieldAt(Profile, nodes, "properties");
    PartField(v.fields, "properties", before, LastChild(nodes, "properties"), Properties, Some(Record(map[])));
    FieldAt(Profile, nodes, "activation");
    PartField(v.fields, "activation", before, LastChild(nodes, "activation"), Activation, None);
    FieldAt(Profile, nodes, "repositories");
    ListField(v.fields, "repositories", before, LastChild(nodes, "repositories"), "repository", Repository);
    FieldAt(Profile, nodes, "pluginRepositories");
    ListField(v.fields, "pluginRepositories", before, LastChild(nodes, "pluginRepositories"), "pluginRepository",
              Repository);
    forall name <- v.fields ensures name in ["id", "properties", "activation", "repositories", "pluginRepositories"] {
      FieldAt(Profile, nodes, name);
    }
  }

  lemma RepositoryRead(nodes: seq<Node>)
    requires Read(Repository, Init(Repository), nodes).Some?
    ensures var v := Read(Repository, Init(Repository), nodes).value;
      && v.Record?
      && (forall name <- ["id", "url"] :: IsText(v.fields, name, LastChild(nodes, name), Some("")))
      && (forall name <- ["name", "layout"] :: IsText(v.fields, name, LastChild(nodes, name), None))
      && (forall name <- ["releases", "snapshots"] ::
            IsPart(v.fields, name, LastChild(nodes, name), Policy, Some(Record(map["enabled" := Flag(false)]))))
      && (forall name <- v.fields :: name in ["id", "url", "name", "layout", "releases", "snapshots"])
  {
    hide Read;
    hide LastChild;
    hide IsText;
    hide IsPart;
    var v, before := Read(Repository, Init(Repository), nodes).value, Init(Repository).fields;
    FieldAt(Repository, nodes, "id");
    forall name <- ["id", "url"] ensures IsText(v.fields, name, LastChild(nodes, name), Some("")) {
      FieldAt(Repository, nodes, name);
      TextField(v.fields, name, before, LastChild(nodes, name), Some(""));
    }
    forall name <- ["name", "layout"] ensures IsText(v.fields, name, LastChild(nodes, name), None) {
      FieldAt(Repository, nodes, name);
      TextField(v.fields, name, before, LastChild(nodes, name), None);
    }
    var none := Some(Record(map["enabled" := Flag(false)]));
    forall name <- ["releases", "snapshots"] ensures IsPart(v.fields, name, LastChild(nodes, name), Policy, none) {
      FieldAt(Repository, nodes, name);
      PartField(v.fields, name, before, LastChild(nodes, name), Policy, none);
    }
    forall name <- v.fields ensures name in ["id", "url", "name", "layout", "releases", "snapshots"] {
      FieldAt(Repository, nodes, name);
    }
  }

  lemma PolicyRead(nodes: seq<Node>)
    requires Read(Policy, Init(Policy), nodes).Some?
    ensures var v := Read(Policy, Init(Policy), nodes).value;
      && v.Record? && IsTruth(v.fields, "enabled", LastChild(nodes, "enabled"), true, true)
      && (forall name <- ["updatePolicy", "checksumPolicy"] :: IsText(v.fields, name, LastChild(nodes, name), None))
      && (forall name <- v.fields :: name in ["enabled", "updatePolicy", "checksumPolicy"])
  {
    hide Read;
    hide LastChild;
    hide IsText;
    hide IsTruth;
    var v, before := Read(Policy, Init(Policy), nodes).value, Init(Policy).fields;
    FieldAt(Policy, nodes, "enabled");
    TruthField(v.fields, "enabled", before, LastChild(nodes, "enabled"), true, true);
    forall name <- ["updatePolicy", "checksumPolicy"] ensures IsText(v.fields, name, LastChild(nodes, name), None) {
      FieldAt(Policy, nodes, name);
      TextField(v.fields, name, before, LastChild(nodes, name), None);
    }
    forall name <- v.fields ensures name in ["enabled", "updatePolicy", "checksumPolicy"] {
      FieldAt(Policy, nodes, name);
    }
  }

  /** Whether a repository takes releases, or snapshots: not without a policy for them; with one, yes unless the last
      `enabled` of the last one says "false", "0" or "no". */
  ghost function PolicyOn(nodes: seq<Node>, name: string): bool {
    match LastChild(nodes, name)
    case None => false
    case Some(kids) =>
      match LastChild(kids, "enabled")
      case None => true
      case Some(text) => TextIn(text).Some? && !Says(TextIn(text).value, NO)
  }

  /** For every repository element that is read: the policy it ends up with. */
  lemma RepositoryPolicies(nodes: seq<Node>, name: string)
    requires (name == "releases" || name == "snapshots") && Read(Repository, Init(Repository), nodes).Some?
    ensures var v := Read(Repository, Init(Repository), nodes).value;
      && v.Record? && name in v.fields && v.fields[name].Record?
      && "enabled" in v.fields[name].fields && v.fields[name].fields["enabled"] == Flag(PolicyOn(nodes, name))
  {
    hide Read;
    hide LastChild;
    hide Says;
    hide TextIn;
    hide IsText;
    RepositoryRead(nodes);
    var v := Read(Repository, Init(Repository), nodes).value;
    assert name in ["releases", "snapshots"];
    assert IsPart(v.fields, name, LastChild(nodes, name), Policy, Some(Record(map["enabled" := Flag(false)])));
    if LastChild(nodes, name).Some? {
      var kids := LastChild(nodes, name).value;
      PolicyRead(kids);
      if LastChild(kids, "enabled").Some? && TextIn(LastChild(kids, "enabled").value).Some? {
        ParseBoolMeans(TextIn(LastChild(kids, "enabled").value).value, true);
      }
    }
  }

  const PROXY_TEXTS := ["id", "protocol", "host"]
  const PROXY_OPTIONS := ["username", "password", "nonProxyHosts"]

  lemma ProxyRead(nodes: seq<Node>)
    requires Read(Proxy, Init(Proxy), nodes).Some?
    ensures var v := Read(Proxy, Init(Proxy), nodes).value;
      && v.Record?
      && (forall name <- PROXY_TEXTS :: IsText(v.fields, name, LastChild(nodes, name), Some("")))
      && (forall name <- PROXY_OPTIONS :: IsText(v.fields, name, LastChild(nodes, name), None))
      && IsTruth(v.fields, "active", LastChild(nodes, "active"), false, false)
      && IsPort(v.fields, "port", LastChild(nodes, "port"))
      && (forall name <- v.fields :: name in PROXY_TEXTS + PROXY_OPTIONS + ["active", "port"])
  {
    hide Read;
    hide LastChild;
    hide IsText;
    hide IsTruth;
    hide IsPort;
    var v, before := Read(Proxy, Init(Proxy), nodes).value, Init(Proxy).fields;
    FieldAt(Proxy, nodes, "id");
    forall name <- PROXY_TEXTS ensures IsText(v.fields, name, LastChild(nodes, name), Some("")) {
      FieldAt(Proxy, nodes, name);
      TextField(v.fields, name, before, LastChild(nodes, name), Some(""));
    }
    forall name <- PROXY_OPTIONS ensures IsText(v.fields, name, LastChild(nodes, name), None) {
      FieldAt(Proxy, nodes, name);
      TextField(v.fields, name, before, LastChild(nodes, name), None);
    }
    FieldAt(Proxy, nodes, "active");
    TruthField(v.fields, "active", before, LastChild(nodes, "active"), false, false);
    FieldAt(Proxy, nodes, "port");
    PortField(v.fields, "port", before, LastChild(nodes, "port"));
    forall name <- v.fields ensures name in PROXY_TEXTS + PROXY_OPTIONS + ["active", "port"] {
      FieldAt(Proxy, nodes, name);
    }
  }

  /** The lists of the settings: the element, its items' name, and what an item is. */
  const LISTS: seq<(string, string, Kind)> :=
    [("servers", "server", Server), ("mirrors", "mirror", Mirror), ("profiles", "profile", Profile),
     ("proxies", "proxy", Proxy)]
  const TEXT_LISTS: seq<(string, string)> := [("activeProfiles", "activeProfile"), ("pluginGroups", "pluginGroup")]

  lemma SettingsWant()
    ensures var i := Init(Settings);
      && i.Record?
      && Wants(Settings, "localRepository") == Field("localRepository", Plain) && "localRepository" !in i.fields
      && Wants(Settings, "interactiveMode") == Field("interactiveMode", Truth(true))
      && "interactiveMode" in i.fields && i.fields["interactiveMode"] == Flag(true)
      && Wants(Settings, "offline") == Field("offline", Truth(false))
      && "offline" in i.fields && i.fields["offline"] == Flag(false)
  {
  }

  lemma ListsWanted(l: (string, string, Kind))
    requires l in LISTS
    ensures Wants(Settings, l.0) == Part(l.0, ListOf(l.1, l.2))
    ensures Init(Settings).Record? && l.0 in Init(Settings).fields && Init(Settings).fields[l.0] == Items([])
  {
  }

  lemma TextListsWanted(l: (string, string))
    requires l in TEXT_LISTS
    ensures Wants(Settings, l.0) == Part(l.0, TextsOf(l.1))
    ensures Init(Settings).Record? && l.0 in Init(Settings).fields && Init(Settings).fields[l.0] == Items([])
  {
  }

  const SETTINGS_FIELDS :=
    ["localRepository", "interactiveMode", "offline", "servers", "mirrors", "profiles", "activeProfiles", "proxies",
     "pluginGroups"]

  lemma NothingElseWanted(name: string)
    requires name !in SETTINGS_FIELDS
    ensures Wants(Settings, name) == Skip && Init(Settings).Record? && name !in Init(Settings).fields
  {
  }

  lemma SettingsRead(nodes: seq<Node>)
    requires Read(Settings, Init(Settings), nodes).Some?
    ensures var v := Read(Settings, Init(Settings), nodes).value;
      && v.Record?
      && IsText(v.fields, "localRepository", LastChild(nodes, "localRepository"), None)
      && IsTruth(v.fields, "interactiveMode", LastChild(nodes, "interactiveMode"), true, true)
      && IsTruth(v.fields, "offline", LastChild(nodes, "offline"), false, false)
      && (forall l <- LISTS :: IsList(v.fields, l.0, LastChild(nodes, l.0), l.1, l.2))
      && (forall l <- TEXT_LISTS :: IsTexts(v.fields, l.0, LastChild(nodes, l.0), l.1))
      && (forall name <- v.fields :: name in SETTINGS_FIELDS)
  {
    hide Read;
    hide LastChild;
    hide IsText;
    hide IsTruth;
    hide IsList;
    hide IsTexts;
    hide Wants;
    hide Init;
    SettingsWant();
    var v, before := Read(Settings, Init(Settings), nodes).value, Init(Settings).fields;
    FieldAt(Settings, nodes, "localRepository");
    TextField(v.fields, "localRepository", before, LastChild(nodes, "localRepository"), None);
    FieldAt(Settings, nodes, "interactiveMode");
    TruthField(v.fields, "interactiveMode", before, LastChild(nodes, "interactiveMode"), true, true);
    FieldAt(Settings, nodes, "offline");
    TruthField(v.fields, "offline", before, LastChild(nodes, "offline"), false, false);
    forall l <- LISTS ensures IsList(v.fields, l.0, LastChild(nodes, l.0), l.1, l.2) {
      ListsWanted(l);
      FieldAt(Settings, nodes, l.0);
      ListField(v.fields, l.0, before, LastChild(nodes, l.0), l.1, l.2);
    }
    forall l <- TEXT_LISTS ensures IsTexts(v.fields, l.0, LastChild(nodes, l.0), l.1) {
      TextListsWanted(l);
      FieldAt(Settings, nodes, l.0);
      TextsField(v.fields, l.0, before, LastChild(nodes, l.0), l.1);
    }
    forall name <- v.fields ensures name in SETTINGS_FIELDS {
      FieldAt(Settings, nodes, name);
      if name !in SETTINGS_FIELDS { NothingElseWanted(name); }
    }
  }

  // ---- activation ----

  /** The elements whose children fill the activation itself. */
  function ElementOf(kind: Kind): string
    requires kind.Os? || kind.Property? || kind.File?
  {
    match kind { case Os => "os" case Property => "property" case File => "file" }
  }

  function Names(kind: Kind): seq<string> {
    match kind
    case Os => ["name", "family", "arch", "version"]
    case Property => ["name", "value"]
    case File => ["exists", "missing"]
    case _ => []
  }

  lemma InnerWants(kind: Kind, name: string)
    requires kind.Os? || kind.Property? || kind.File?
    ensures Wants(kind, name) == if name in Names(kind) then Field(Prefix(kind) + name, Plain) else Skip
    ensures Prefix(kind) != "" && Prefix(kind)[0] == ElementOf(kind)[0]
  {
  }

  /** Keys found inside start with that element's letter. */
  lemma {:induction false} OtherLetters(kind: Kind, nodes: seq<Node>, key: string)
    requires (kind.Os? || kind.Property? || kind.File?) && key != ""
    ensures key[0] != ElementOf(kind)[0] ==> LastKey(FoundIn(kind, nodes), key) == None
  {
    hide FoundAt;
    hide LocalName;
    hide Wants;
    hide Names;
    hide LastKey;
    InnerWants(kind, "");
    hide Prefix;
    OneKey(Found("", None), key);
    if nodes != [] {
      var n := |nodes| - 1;
      OtherLetters(kind, nodes[..n], key);
      FoundSnoc(kind, nodes);
      FoundFlat(kind, nodes[n]);
      LastKeyConcat(FoundIn(kind, nodes[..n]), FoundAt(kind, nodes[n]), key);
      if nodes[n].Elem? {
        var name := LocalName(nodes[n].name);
        assert (Prefix(kind) + name)[0] == Prefix(kind)[0];
        OneKey(Found(Prefix(kind) + name, ChildValue(Wants(kind, name), nodes[n].kids)), key);
      }
      hide FoundIn;
    }
  }

  predicate Named(node: Node, name: string) { node.Elem? && LocalName(node.name) == name }

  lemma ActivationWants(name: string)
    ensures Wants(Activation, name) ==
      if name == "activeByDefault" then Field(name, Truth(false))
      else if name == "jdk" then Field(name, Plain)
      else if name == "os" then Want.Inside(Os)
      else if name == "property" then Want.Inside(Property)
      else if name == "file" then Want.Inside(File)
      else Skip
  {
  }

  /** What one child of an activation contributes to a key with the letter of `os`, `property` or `file`. */
  lemma ChildInside(kind: Kind, node: Node, key: string)
    requires (kind.Os? || kind.Property? || kind.File?) && key != "" && key[0] == ElementOf(kind)[0]
    ensures LastKey(FoundAt(Activation, node), key)
         == if Named(node, ElementOf(kind)) then LastKey(FoundIn(kind, node.kids), key) else None
  {
    hide LocalName;
    hide FoundIn;
    hide LastKey;
    hide TextIn;
    hide Converted;
    hide Wants;
    OneKey(Found("", None), key);
    if node.Elem? {
      var name := LocalName(node.name);
      ActivationWants(name);
      OneKey(Found(name, Converted(Truth(false), TextIn(node.kids))), key);
      OneKey(Found(name, Converted(Plain, TextIn(node.kids))), key);
      OtherLetters(Os, node.kids, key);
      OtherLetters(Property, node.kids, key);
      OtherLetters(File, node.kids, key);
    }
  }

  /** What it contributes to any other key. */
  lemma ChildDirect(node: Node, key: string)
    requires key != "" && key[0] != 'o' && key[0] != 'p' && key[0] != 'f'
    ensures LastKey(FoundAt(Activation, node), key)
         == if Named(node, key) && !Wants(Activation, key).Skip?
            then Some(Found(key, ChildValue(Wants(Activation, key), node.kids))) else None
  {
    hide LocalName;
    hide FoundIn;
    hide LastKey;
    hide TextIn;
    hide Converted;
    hide Wants;
    OneKey(Found("", None), key);
    ActivationWants(key);
    if node.Elem? {
      var name := LocalName(node.name);
      ActivationWants(name);
      OneKey(Found(name, Converted(Truth(false), TextIn(node.kids))), key);
      OneKey(Found(name, Converted(Plain, TextIn(node.kids))), key);
      OtherLetters(Os, node.kids, key);
      OtherLetters(Property, node.kids, key);
      OtherLetters(File, node.kids, key);
    }
  }

  lemma {:induction false} LastInside(kind: Kind, nodes: seq<Node>, key: string)
    requires (kind.Os? || kind.Property? || kind.File?) && key != "" && key[0] == ElementOf(kind)[0]
    ensures LastKey(FoundIn(Activation, nodes), key)
         == LastKey(FoundIn(kind, Grandchildren(nodes, ElementOf(kind))), key)
  {
    hide FoundAt;
    hide LastKey;
    hide LocalName;
    if nodes != [] {
      var n := |nodes| - 1;
      var elem := ElementOf(kind);
      LastInside(kind, nodes[..n], key);
      FoundSnoc(Activation, nodes);
      ChildInside(kind, nodes[n], key);
      LastKeyConcat(FoundIn(Activation, nodes[..n]), FoundAt(Activation, nodes[n]), key);
      if Named(nodes[n], elem) {
        FoundConcat(kind, Grandchildren(nodes[..n], elem), nodes[n].kids);
        LastKeyConcat(FoundIn(kind, Grandchildren(nodes[..n], elem)), FoundIn(kind, nodes[n].kids), key);
      } else {
        assert Grandchildren(nodes[..n], elem) + [] == Grandchildren(nodes[..n], elem);
      }
      hide FoundIn;
    }
  }

  lemma {:induction false} LastDirect(nodes: seq<Node>, key: string)
    requires key != "" && key[0] != 'o' && key[0] != 'p' && key[0] != 'f'
    ensures LastKey(FoundIn(Activation, nodes), key)
         == match LastChild(nodes, key)
            case None => None
            case Some(kids) =>
              var w := Wants(Activation, key); if w.Skip? then None else Some(Found(key, ChildValue(w, kids)))
  {
    hide FoundAt;
    hide LastKey;
    hide LocalName;
    hide Wants;
    hide ChildValue;
    OneKey(Found("", None), key);
    if nodes != [] {
      var n := |nodes| - 1;
      LastDirect(nodes[..n], key);
      FoundSnoc(Activation, nodes);
      ChildDirect(nodes[n], key);
      LastKeyConcat(FoundIn(Activation, nodes[..n]), FoundAt(Activation, nodes[n]), key);
      hide FoundIn;
    }
  }

  /** A field of an activation, from the last child that fills it. */
  lemma ActivationField(nodes: seq<Node>, key: string, want: Want, last: Option<seq<Node>>)
    requires Read(Activation, Init(Activation), nodes).Some?
    requires LastKey(FoundIn(Activation, nodes), key)
          == if last.Some? && !want.Skip? then Some(Found(key, ChildValue(want, last.value))) else None
    ensures var v := Read(Activation, Init(Activation), nodes).value;
      v.Record? && FieldIs(v.fields, key, map["activeByDefault" := Flag(false)], want, last)
  {
    hide Read;
    hide FoundIn;
    hide LastKey;
    hide Last;
    hide ChildValue;
    var fs := FoundIn(Activation, nodes);
    ReadMeans(Activation, Init(Activation), nodes);
    assert LastWins(Init(Activation).fields, fs, Read(Activation, Init(Activation), nodes).value.fields, key);
    LastIsLastKey(fs, key);
  }

  lemma ActivationInner(kind: Kind, nodes: seq<Node>, name: string)
    requires kind.Os? || kind.Property? || kind.File?
    requires name in Names(kind) && Read(Activation, Init(Activation), nodes).Some?
    ensures var v := Read(Activation, Init(Activation), nodes).value;
      v.Record? && IsText(v.fields, Prefix(kind) + name, LastChild(Grandchildren(nodes, ElementOf(kind)), name), None)
  {
    hide Read;
    hide LastChild;
    hide Grandchildren;
    hide FoundIn;
    hide LastKey;
    hide Wants;
    hide IsText;
    hide FieldIs;
    var inner, key := Grandchildren(nodes, ElementOf(kind)), Prefix(kind) + name;
    InnerWants(kind, name);
    LastInside(kind, nodes, key);
    LastFound(kind, inner, name);
    ActivationField(nodes, key, Field(key, Plain), LastChild(inner, name));
    TextField(Read(Activation, Init(Activation), nodes).value.fields, key, map["activeByDefault" := Flag(false)],
              LastChild(inner, name), None);
  }

  /** The conditions of a profile. Those inside `os`, `property` and `file` come from all such elements together. */
  lemma ActivationRead(nodes: seq<Node>)
    requires Read(Activation, Init(Activation), nodes).Some?
    ensures var v := Read(Activation, Init(Activation), nodes).value;
      && v.Record? && IsTruth(v.fields, "activeByDefault", LastChild(nodes, "activeByDefault"), false, false)
      && IsText(v.fields, "jdk", LastChild(nodes, "jdk"), None)
      && (forall name <- ["name", "family", "arch", "version"] ::
            IsText(v.fields, "os." + name, LastChild(Grandchildren(nodes, "os"), name), None))
      && (forall name <- ["name", "value"] ::
            IsText(v.fields, "property." + name, LastChild(Grandchildren(nodes, "property"), name), None))
      && (forall name <- ["exists", "missing"] ::
            IsText(v.fields, "file." + name, LastChild(Grandchildren(nodes, "file"), name), None))
  {
    hide Read;
    hide LastChild;
    hide Grandchildren;
    hide FoundIn;
    hide LastKey;
    hide Wants;
    hide IsText;
    hide IsTruth;
    hide FieldIs;
    var v, before := Read(Activation, Init(Activation), nodes).value, map["activeByDefault" := Flag(false)];
    ActivationWants("activeByDefault");
    LastDirect(nodes, "activeByDefault");
    ActivationField(nodes, "activeByDefault", Wants(Activation, "activeByDefault"),
                    LastChild(nodes, "activeByDefault"));
    TruthField(v.fields, "activeByDefault", before, LastChild(nodes, "activeByDefault"), false, false);
    ActivationWants("jdk");
    LastDirect(nodes, "jdk");
    ActivationField(nodes, "jdk", Wants(Activation, "jdk"), LastChild(nodes, "jdk"));
    TextField(v.fields, "jdk", before, LastChild(nodes, "jdk"), None);
    forall name <- Names(Os)
      ensures IsText(v.fields, "os." + name, LastChild(Grandchildren(nodes, "os"), name), None)
    {
      ActivationInner(Os, nodes, name);
    }
    forall name <- Names(Property)
      ensures IsText(v.fields, "property." + name, LastChild(Grandchildren(nodes, "property"), name), None)
    {
      ActivationInner(Property, nodes, name);
    }
    forall name <- Names(File)
      ensures IsText(v.fields, "file." + name, LastChild(Grandchildren(nodes, "file"), name), None)
    {
      ActivationInner(File, nodes, name);
    }
  }
}
