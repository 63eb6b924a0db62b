/** The configuration tree, its leaves in walk order, and path lookup. */
module SchemaTree {
  import opened Prelude
  import opened Text
  import opened Naming

  datatype ValueType = Password | Key

  /** A semantic identity; of its fields only the name is used here. */
  datatype Identity = Identity(name: string, coordinates: seq<string>)

  /** What every kind of leaf carries for display. */
  datatype Info = Info(description: Option<string>, humanFacing: bool, requiredForInstall: bool,
                       identity: Option<Identity>, presentation: Option<string>)

  datatype StoredLeaf = StoredLeaf(info: Info, publicInfo: bool, sharedPublicId: Option<string>,
                                   recipientIds: seq<string>, valueType: Option<ValueType>,
                                   externalInputRequired: bool, contentType: Option<string>)

  datatype GeneratedLeaf = GeneratedLeaf(info: Info, localSshKey: bool, recipientIds: seq<string>,
                                         valueType: Option<ValueType>, externalInputRequired: bool)

  datatype OperatorLeaf = OperatorLeaf(info: Info, generator: bool)

  datatype Node =
    | Stored(stored: StoredLeaf)
    | Generated(generated: GeneratedLeaf)
    | Operator(operator: OperatorLeaf)
    | Branch(children: Forest)

  /** The entries of a `BTreeMap` from names to nodes, in the order of iteration. */
  datatype Forest = End | Entry(name: string, node: Node, rest: Forest)

  datatype Group = Group(name: string, services: Forest)

  datatype Host = Host(name: string, groups: seq<Group>, displayPaths: map<string, map<string, seq<string>>>)

  type Schema = seq<Host>

  datatype Error = TooShort | InvalidComponent | InvalidNamespace | Missing | IsBranch

  /** A leaf and the names on the way to it. */
  datatype Located = Located(path: seq<string>, leaf: Node)

  // ---- Names ----------------------------------------------------------------------

  function Names(f: Forest): set<string> {
    match f
    case End => {}
    case Entry(name, _, rest) => {name} + Names(rest)
  }

  predicate ValidNode(n: Node) {
    n.Branch? ==> ValidForest(n.children)
  }

  predicate ValidForest(f: Forest) {
    match f
    case End => true
    case Entry(name, node, rest) => Component(name) && name !in Names(rest) && ValidNode(node) && ValidForest(rest)
  }

  predicate ValidGroups(groups: seq<Group>) {
    forall i :: 0 <= i < |groups| ==>
      Namespace(groups[i].name) && ValidForest(groups[i].services)
      && forall j :: 0 <= j < i ==> groups[j].name != groups[i].name
  }

  /** The part of `Schema::validate` that concerns names. */
  predicate ValidSchema(schema: Schema) {
    forall i :: 0 <= i < |schema| ==>
      Component(schema[i].name) && ValidGroups(schema[i].groups)
      && forall j :: 0 <= j < i ==> schema[j].name != schema[i].name
  }

  // ---- The schema as one tree -----------------------------------------------------

  function GroupForest(groups: seq<Group>): Forest {
    if groups == [] then End
    else Entry(groups[0].name, Branch(groups[0].services), GroupForest(groups[1..]))
  }

  function HostForest(schema: Schema): Forest {
    if schema == [] then End
    else Entry(schema[0].name, Branch(GroupForest(schema[0].groups)), HostForest(schema[1..]))
  }

  /** No name occurs twice among siblings, anywhere. */
  predicate UniqueNode(n: Node) {
    n.Branch? ==> UniqueForest(n.children)
  }

  predicate UniqueForest(f: Forest) {
    match f
    case End => true
    case Entry(name, node, rest) => name !in Names(rest) && UniqueNode(node) && UniqueForest(rest)
  }

  lemma {:induction false} ValidNodeUnique(n: Node)
    ensures ValidNode(n) ==> UniqueNode(n)
  {
    if n.Branch? { ValidUnique(n.children); }
  }

  lemma {:induction false} ValidUnique(f: Forest)
    ensures ValidForest(f) ==> UniqueForest(f)
  {
    if f.Entry? {
      ValidNodeUnique(f.node);
      ValidUnique(f.rest);
    }
  }

  lemma {:induction false} GroupsUnique(groups: seq<Group>)
    requires ValidGroups(groups)
    ensures UniqueForest(GroupForest(groups))
    ensures Names(GroupForest(groups)) == set i | 0 <= i < |groups| :: groups[i].name
  {
    if groups != [] {
      var rest := groups[1..];
      assert ValidGroups(rest) by {
        forall i | 0 <= i < |rest|
          ensures Namespace(rest[i].name) && ValidForest(rest[i].services)
          ensures forall j :: 0 <= j < i ==> rest[j].name != rest[i].name
        {
          assert rest[i] == groups[i + 1];
        }
      }
      GroupsUnique(rest);
      ValidUnique(groups[0].services);
      assert forall i :: 0 < i < |groups| ==> groups[i] == rest[i - 1];
    }
  }

  lemma {:induction false} HostsUnique(schema: Schema)
    requires ValidSchema(schema)
    ensures UniqueForest(HostForest(schema))
    ensures Names(HostForest(schema)) == set i | 0 <= i < |schema| :: schema[i].name
  {
    hide ValidGroups;
    if schema != [] {
      var rest := schema[1..];
      assert ValidSchema(rest) by {
        forall i | 0 <= i < |rest|
          ensures Component(rest[i].name) && ValidGroups(rest[i].groups)
          ensures forall j :: 0 <= j < i ==> rest[j].name != rest[i].name
        {
          assert rest[i] == schema[i + 1];
        }
      }
      HostsUnique(rest);
      GroupsUnique(schema[0].groups);
      assert forall i :: 0 < i < |schema| ==> schema[i] == rest[i - 1];
    }
  }

  // ---- Leaves in walk order -------------------------------------------------------

  function Under(name: string, leaves: seq<Located>): (r: seq<Located>)
    ensures |r| == |leaves|
    ensures forall i :: 0 <= i < |r| ==> r[i] == Located([name] + leaves[i].path, leaves[i].leaf)
  {
    if leaves == [] then []
    else [Located([name] + leaves[0].path, leaves[0].leaf)] + Under(name, leaves[1..])
  }

  function Leaves(n: Node): seq<Located> {
    if n.Branch? then ForestLeaves(n.children) else [Located([], n)]
  }

  function ForestLeaves(f: Forest): seq<Located> {
    match f
    case End => []
    case Entry(name, node, rest) => Under(name, Leaves(node)) + ForestLeaves(rest)
  }

  function SchemaLeaves(schema: Schema): seq<Located> {
    ForestLeaves(HostForest(schema))
  }

  // ---- Lookup ---------------------------------------------------------------------

  function Get(f: Forest, name: string): (r: Option<Node>)
    ensures r.Some? <==> name in Names(f)
  {
    match f
    case End => None
    case Entry(n, node, rest) => if n == name then Some(node) else Get(rest, name)
  }

  /** The node at a path of names. */
  function Find(n: Node, path: seq<string>): Option<Node>
    decreases |path|
  {
    if path == [] then Some(n)
    else if !n.Branch? then None
    else
      match Get(n.children, path[0])
      case None => None
      case Some(child) => Find(child, path[1..])
  }

  /** What a path stands for in the whole schema. */
  function Resolve(schema: Schema, path: seq<string>): Result<Node, Error> {
    match Find(Branch(HostForest(schema)), path)
    case None => Err(Missing)
    case Some(Branch(_)) => Err(IsBranch)
    case Some(leaf) => Ok(leaf)
  }

  lemma UnderMember(name: string, leaves: seq<Located>, l: Located)
    ensures l in Under(name, leaves) <==> l.path != [] && l.path[0] == name && Located(l.path[1..], l.leaf) in leaves
  {
    if l in Under(name, leaves) {
      var i :| 0 <= i < |leaves| && Under(name, leaves)[i] == l;
      assert l.path[1..] == leaves[i].path;
      assert leaves[i] in leaves && leaves[i] == Located(l.path[1..], l.leaf);
    }
    if l.path != [] && l.path[0] == name && Located(l.path[1..], l.leaf) in leaves {
      var i :| 0 <= i < |leaves| && leaves[i] == Located(l.path[1..], l.leaf);
      assert l.path == [name] + l.path[1..];
      assert Under(name, leaves)[i] == l;
    }
  }

  /** The walk and the lookup agree: a leaf is listed under a path exactly when the
      path leads to it. */
  lemma {:induction false} LeavesExactly(n: Node, l: Located)
    requires UniqueNode(n)
    ensures l in Leaves(n) <==> Find(n, l.path) == Some(l.leaf) && !l.leaf.Branch?
  {
    if n.Branch? {
      ForestExactly(n.children, l);
    }
  }

  lemma {:induction false} ForestExactly(f: Forest, l: Located)
    requires UniqueForest(f)
    ensures l in ForestLeaves(f) <==>
      l.path != [] && Get(f, l.path[0]).Some? && Find(Get(f, l.path[0]).value, l.path[1..]) == Some(l.leaf)
      && !l.leaf.Branch?
  {
    if f.Entry? {
      UnderMember(f.name, Leaves(f.node), l);
      ForestExactly(f.rest, l);
      if l.path != [] {
        LeavesExactly(f.node, Located(l.path[1..], l.leaf));
      }
    }
  }

  lemma {:induction false} UnderOnce(name: string, leaves: seq<Located>)
    requires NoDup(leaves)
    ensures NoDup(Under(name, leaves))
  {
    var r := Under(name, leaves);
    forall i, j | 0 <= i < j < |r| ensures r[i] != r[j] {
      assert r[i].path[1..] == leaves[i].path && r[j].path[1..] == leaves[j].path;
      assert leaves[i] != leaves[j];
    }
  }

  lemma {:induction false} LeavesOnce(n: Node)
    requires UniqueNode(n)
    ensures NoDup(Leaves(n))
  {
    if n.Branch? { ForestOnce(n.children); }
  }

  lemma {:induction false} ForestOnce(f: Forest)
    requires UniqueForest(f)
    ensures NoDup(ForestLeaves(f))
  {
    if f.Entry? {
      LeavesOnce(f.node);
      ForestOnce(f.rest);
      var mine, others := Under(f.name, Leaves(f.node)), ForestLeaves(f.rest);
      UnderOnce(f.name, Leaves(f.node));
      forall l | l in mine ensures l !in others {
        UnderMember(f.name, Leaves(f.node), l);
        ForestExactly(f.rest, l);
      }
      Disjoint(mine, others);
    }
  }

  lemma Disjoint<T>(a: seq<T>, b: seq<T>)
    requires NoDup(a) && NoDup(b) && forall x :: x in a ==> x !in b
    ensures NoDup(a + b)
  {
    forall i, j | 0 <= i < j < |a + b| ensures (a + b)[i] != (a + b)[j] {
      if i < |a| <= j { assert a[i] in a && b[j - |a|] in b; }
    }
  }

  /** Over the whole schema: every leaf is listed once, under the path that
      resolves to it, at least three names deep. */
  lemma SchemaLeavesExactly(schema: Schema)
    requires ValidSchema(schema)
    ensures NoDup(SchemaLeaves(schema))
    ensures forall l :: l in SchemaLeaves(schema) <==> Resolve(schema, l.path) == Ok(l.leaf)
  {
    HostsUnique(schema);
    ForestOnce(HostForest(schema));
    forall l ensures l in SchemaLeaves(schema) <==> Resolve(schema, l.path) == Ok(l.leaf) {
      ForestExactly(HostForest(schema), l);
    }
  }

  // ---- `Schema::leaf` -------------------------------------------------------------

  lemma {:induction false} GetGroup(groups: seq<Group>, name: string)
    ensures
      match Get(GroupForest(groups), name)
      case None => forall i :: 0 <= i < |groups| ==> groups[i].name != name
      case Some(node) =>
        exists i :: 0 <= i < |groups| && groups[i].name == name && node == Branch(groups[i].services)
                    && forall j :: 0 <= j < i ==> groups[j].name != name
  {
    if groups != [] && groups[0].name != name {
      GetGroup(groups[1..], name);
      var rest := groups[1..];
      assert forall i :: 0 < i < |groups| ==> groups[i] == rest[i - 1];
      if Get(GroupForest(rest), name).Some? {
        var i :| 0 <= i < |rest| && rest[i].name == name && Get(GroupForest(rest), name) == Some(Branch(rest[i].services))
                 && forall j :: 0 <= j < i ==> rest[j].name != name;
        assert groups[i + 1] == rest[i];
      }
    }
  }

  /** `Schema::leaf`: the host, the namespace and the service by name, then one
      component after the other. */
  method Leaf(schema: Schema, path: seq<string>) returns (r: Result<Node, Error>)
    requires |path| >= 3
    ensures r == Resolve(schema, path)
  {
    var host := Get(HostForest(schema), path[0]);
    if host.None? {
      return Err(Missing);
    }
    assert host.value.Branch? by { HostsAreBranches(schema, path[0]); }
    assert path[1..][0] == path[1] && path[1..][1..] == path[2..] && path[2..][0] == path[2] && path[2..][1..] == path[3..];
    assert Find(Branch(HostForest(schema)), path) == Find(host.value, path[1..]);
    var services := Get(host.value.children, path[1]);
    if services.None? {
      return Err(Missing);
    }
    assert services.value.Branch? by { HostsAreBranches(schema, path[0]); }
    var service := Get(services.value.children, path[2]);
    if service.None? {
      return Err(Missing);
    }
    var node := service.value;
    assert Find(services.value, path[2..]) == Find(node, path[3..]);
    assert Find(host.value, path[1..]) == Find(services.value, path[2..]);
    for i := 3 to |path|
      invariant Find(Branch(HostForest(schema)), path) == Find(node, path[i..])
    {
      assert path[i..][0] == path[i] && path[i..][1..] == path[i + 1..];
      if !node.Branch? {
        return Err(Missing);
      }
      var child := Get(node.children, path[i]);
      if child.None? {
        return Err(Missing);
      }
      node := child.value;
    }
    assert path[|path|..] == [];
    if node.Branch? {
      return Err(IsBranch);
    }
    r := Ok(node);
  }

  lemma {:induction false} HostsAreBranches(schema: Schema, name: string)
    ensures
      match Get(HostForest(schema), name)
      case None => true
      case Some(host) => host.Branch? && forall g :: Get(host.children, g).Some? ==> Get(host.children, g).value.Branch?
  {
    if schema != [] {
      if schema[0].name == name {
        forall g ensures Get(GroupForest(schema[0].groups), g).Some? ==> Get(GroupForest(schema[0].groups), g).value.Branch? {
          GetGroup(schema[0].groups, g);
        }
      } else {
        HostsAreBranches(schema[1..], name);
      }
    }
  }

  // ---- Identifiers ----------------------------------------------------------------

  function Identifier(path: seq<string>): string {
    Join(path, ".")
  }

  /** `SecretPath::new`. */
  function New(parts: seq<string>): Result<seq<string>, Error> {
    if |parts| < 4 then Err(TooShort)
    else if exists i :: 0 <= i < |parts| && !Component(parts[i]) then Err(InvalidComponent)
    else if !Namespace(parts[1]) then Err(InvalidNamespace)
    else Ok(parts)
  }

  /** `SecretPath::parse`. */
  function Parse(s: string): Result<seq<string>, Error> {
    New(Split(s, '.'))
  }

  /** A leaf that validation looks up by its path: `validate_derived` does so for
      stored leaves, `identity_index` for leaves with an identity. */
  predicate Indexed(n: Node) {
    match n
    case Stored(_) => true
    case Generated(leaf) => leaf.info.identity.Some?
    case Operator(leaf) => leaf.info.identity.Some?
    case Branch(_) => false
  }

  /** What `Schema::validate` makes sure of the tree and its names. */
  ghost predicate Validated(schema: Schema) {
    ValidSchema(schema) && forall l :: l in SchemaLeaves(schema) && Indexed(l.leaf) ==> New(l.path).Ok?
  }

  /** In a validated schema every stored leaf, and every leaf with an identity, has
      an identifier that reads back as its own path, and so shares it with no leaf
      of that kind. */
  lemma IndexedReadsBack(schema: Schema, path: seq<string>)
    requires Validated(schema) && Resolve(schema, path).Ok? && Indexed(Resolve(schema, path).value)
    ensures Parse(Identifier(path)) == Ok(path)
  {
    hide New, Resolve, SchemaLeaves, Namespace;
    SchemaLeavesExactly(schema);
    assert Located(path, Resolve(schema, path).value) in SchemaLeaves(schema);
    NewIsDotless(path);
    SplitJoin(path, '.');
  }

  lemma NewIsDotless(path: seq<string>)
    requires New(path).Ok?
    ensures New(path) == Ok(path) && path != [] && Dotless(path)
  {
  }

  predicate Dotless(path: seq<string>) {
    forall i :: 0 <= i < |path| ==> '.' !in path[i]
  }

  lemma IdentifierInjective(a: seq<string>, b: seq<string>)
    requires a != [] && b != [] && Dotless(a) && Dotless(b) && Identifier(a) == Identifier(b)
    ensures a == b
  {
    SplitJoin(a, '.');
    SplitJoin(b, '.');
  }

  /** Names on the way to a leaf: a host, a namespace, and components below. */
  predicate ValidPath(path: seq<string>) {
    |path| >= 3 && Namespace(path[1]) && forall i :: 0 <= i < |path| && i != 1 ==> Component(path[i])
  }

  lemma {:induction false} FoundNode(n: Node, path: seq<string>)
    requires ValidNode(n) && Find(n, path).Some?
    ensures forall i :: 0 <= i < |path| ==> Component(path[i])
    decreases |path|
  {
    if path != [] {
      FoundChild(n.children, path[0]);
      FoundNode(Get(n.children, path[0]).value, path[1..]);
      assert forall i :: 0 < i < |path| ==> path[i] == path[1..][i - 1];
    }
  }

  lemma {:induction false} FoundChild(f: Forest, name: string)
    requires ValidForest(f) && Get(f, name).Some?
    ensures Component(name) && ValidNode(Get(f, name).value)
  {
    if f.name != name { FoundChild(f.rest, name); }
  }

  lemma {:induction false} GetHost(schema: Schema, name: string) returns (i: nat)
    requires Get(HostForest(schema), name).Some?
    ensures i < |schema| && schema[i].name == name
    ensures Get(HostForest(schema), name) == Some(Branch(GroupForest(schema[i].groups)))
  {
    if schema[0].name == name {
      i := 0;
    } else {
      var k := GetHost(schema[1..], name);
      i := k + 1;
    }
  }

  lemma ResolvedPath(schema: Schema, path: seq<string>)
    requires ValidSchema(schema) && Resolve(schema, path).Ok?
    ensures ValidPath(path)
  {
    var i := GetHost(schema, path[0]);
    var groups := schema[i].groups;
    assert ValidGroups(groups);
    assert Find(Branch(HostForest(schema)), path) == Find(Branch(GroupForest(groups)), path[1..]);
    assert path[1..] != [] && path[1..][0] == path[1];
    GetGroup(groups, path[1]);
    var g :| 0 <= g < |groups| && groups[g].name == path[1]
             && Get(GroupForest(groups), path[1]) == Some(Branch(groups[g].services));
    var below := path[1..][1..];
    assert below == path[2..];
    FoundNode(Branch(groups[g].services), below);
    assert below != [];
    assert forall k :: 2 <= k < |path| ==> path[k] == below[k - 2];
  }

  /** An identifier reads back as its own path exactly when the leaf lies below its
      service and the namespace is a plain component. */
  lemma ParseExactly(path: seq<string>)
    requires ValidPath(path)
    ensures Parse(Identifier(path)) == Ok(path) <==> |path| >= 4 && Component(path[1])
  {
    if |path| >= 4 && Component(path[1]) {
      SplitJoin(path, '.');
    }
  }

  lemma ParseRoundTrip(s: string)
    ensures Parse(s).Ok? ==> Identifier(Parse(s).value) == s && ValidPath(Parse(s).value)
  {
    JoinSplit(s, '.');
  }

  const LEAF := Operator(OperatorLeaf(Info(None, false, false, None, None), false))
  const PLAIN := Group("user-x-services", Entry("y-services", Branch(Entry("z", LEAF, End)), End))
  const DOTTED := Group("user-x-services.y-services", Entry("z", LEAF, End))
  const PLAIN_PATH: seq<string> := ["h", "user-x-services", "y-services", "z"]
  const DOTTED_PATH: seq<string> := ["h", "user-x-services.y-services", "z"]

  lemma CollidingGroups()
    ensures ValidGroups([PLAIN, DOTTED])
    ensures GroupForest([PLAIN, DOTTED])
         == Entry(PLAIN.name, Branch(PLAIN.services), Entry(DOTTED.name, Branch(DOTTED.services), End))
  {
    assert ValidForest(Entry("z", LEAF, End)) && ValidForest(PLAIN.services);
    assert PLAIN.name[6..] == "-services" && DOTTED.name[17..] == "-services";
    assert [PLAIN, DOTTED][1..] == [DOTTED] && [DOTTED][1..] == [];
    assert GroupForest([DOTTED]) == Entry(DOTTED.name, Branch(DOTTED.services), GroupForest([]));
  }

  lemma OnlyOperators()
    ensures
      var groups := GroupForest([PLAIN, DOTTED]);
      forall l :: l in ForestLeaves(Entry("h", Branch(groups), End)) ==> l.leaf == LEAF
  {
    CollidingGroups();
    var deep := Entry("z", LEAF, End);
    assert ForestLeaves(deep) == Under("z", [Located([], LEAF)]) + [];
    assert ForestLeaves(PLAIN.services) == Under("y-services", ForestLeaves(deep)) + [];
    var last := Entry(DOTTED.name, Branch(DOTTED.services), End);
    assert ForestLeaves(last) == Under(DOTTED.name, ForestLeaves(deep)) + [];
    assert ForestLeaves(Entry(PLAIN.name, Branch(PLAIN.services), last))
        == Under(PLAIN.name, ForestLeaves(PLAIN.services)) + ForestLeaves(last);
    var groups := GroupForest([PLAIN, DOTTED]);
    assert ForestLeaves(Entry("h", Branch(groups), End)) == Under("h", ForestLeaves(groups)) + [];
  }

  lemma CollidingIdentifiers()
    ensures Identifier(PLAIN_PATH) == Identifier(DOTTED_PATH)
  {
    var p, q := PLAIN_PATH, DOTTED_PATH;
    assert p[1..] == ["user-x-services", "y-services", "z"] && p[1..][1..] == ["y-services", "z"] && p[1..][1..][1..] == ["z"];
    assert q[1..] == ["user-x-services.y-services", "z"] && q[1..][1..] == ["z"];
    assert Join(["z"], ".") == "z" && Join(["y-services", "z"], ".") == "y-services" + "." + "z";
    assert Identifier(p) == "h" + "." + ("user-x-services" + "." + ("y-services" + "." + "z"));
    assert Identifier(q) == "h" + "." + ("user-x-services.y-services" + "." + "z");
  }

  lemma CollidingLookups(groups: Forest)
    requires groups == Entry(PLAIN.name, Branch(PLAIN.services), Entry(DOTTED.name, Branch(DOTTED.services), End))
    ensures Find(Branch(Entry("h", Branch(groups), End)), PLAIN_PATH) == Some(LEAF)
    ensures Find(Branch(Entry("h", Branch(groups), End)), DOTTED_PATH) == Some(LEAF)
  {
    var p, q := PLAIN_PATH, DOTTED_PATH;
    assert p[1..] == ["user-x-services", "y-services", "z"] && p[1..][1..] == ["y-services", "z"] && p[1..][1..][1..] == ["z"];
    assert q[1..] == ["user-x-services.y-services", "z"] && q[1..][1..] == ["z"] && ["z"][1..] == [];
    assert Find(Branch(Entry("z", LEAF, End)), ["z"]) == Find(LEAF, []);
    assert Find(Branch(PLAIN.services), ["y-services", "z"]) == Some(LEAF);
    assert Get(groups, p[1]) == Some(Branch(PLAIN.services)) && Get(groups, q[1]) == Some(Branch(DOTTED.services));
  }

  /** A namespace with a dot in it passes validation while it holds no indexed leaf,
      and then two different leaves can have one identifier. */
  lemma DottedNamespaceCollides() returns (schema: Schema, a: Located, b: Located)
    ensures Validated(schema) && a in SchemaLeaves(schema) && b in SchemaLeaves(schema)
    ensures a.path != b.path && Identifier(a.path) == Identifier(b.path)
  {
    hide Identifier, Find, GroupForest, ValidGroups, PLAIN, DOTTED;
    schema, a, b := [Host("h", [PLAIN, DOTTED], map[])], Located(PLAIN_PATH, LEAF), Located(DOTTED_PATH, LEAF);
    CollidingGroups();
    CollidingIdentifiers();
    CollidingLookups(GroupForest([PLAIN, DOTTED]));
    assert schema[1..] == [];
    assert HostForest(schema) == Entry("h", Branch(GroupForest([PLAIN, DOTTED])), End);
    SchemaLeavesExactly(schema);
    OnlyOperators();
    assert |a.path| == 4 && |b.path| == 3;
  }
}
