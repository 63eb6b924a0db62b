/** What a target reports about its own leaves: the walk that flattens the
    configuration of one host. */
module TargetState {
  import opened Prelude
  import opened Ordered
  import opened Naming
  import opened SchemaTree

  datatype TargetSecret = TargetSecret(identifier: string, leaf: StoredLeaf, currentVersion: Option<string>)

  datatype TargetTask = TargetTask(identifier: string, leaf: GeneratedLeaf, currentVersion: Option<string>)

  function Version(versions: map<string, string>, identifier: string): Option<string> {
    if identifier in versions then Some(versions[identifier]) else None
  }

  function SecretId(): TargetSecret -> string {
    (t: TargetSecret) => t.identifier
  }

  function TaskId(): TargetTask -> string {
    (t: TargetTask) => t.identifier
  }

  /** The stored leaves among `leaves`, below the names in `above`. */
  function Secrets(leaves: seq<Located>, above: seq<string>, versions: map<string, string>): seq<TargetSecret> {
    if leaves == [] then []
    else
      var l, id := leaves[0], Identifier(above + leaves[0].path);
      (if l.leaf.Stored? then [TargetSecret(id, l.leaf.stored, Version(versions, id))] else [])
      + Secrets(leaves[1..], above, versions)
  }

  function Tasks(leaves: seq<Located>, above: seq<string>, versions: map<string, string>): seq<TargetTask> {
    if leaves == [] then []
    else
      var l, id := leaves[0], Identifier(above + leaves[0].path);
      (if l.leaf.Generated? then [TargetTask(id, l.leaf.generated, Version(versions, id))] else [])
      + Tasks(leaves[1..], above, versions)
  }

  lemma {:induction false} Concatenated(a: seq<Located>, b: seq<Located>, above: seq<string>, versions: map<string, string>)
    ensures Secrets(a + b, above, versions) == Secrets(a, above, versions) + Secrets(b, above, versions)
    ensures Tasks(a + b, above, versions) == Tasks(a, above, versions) + Tasks(b, above, versions)
  {
    if a == [] {
      assert a + b == b;
    } else {
      assert (a + b)[0] == a[0] && (a + b)[1..] == a[1..] + b;
      Concatenated(a[1..], b, above, versions);
    }
  }

  lemma {:induction false} MovedDown(name: string, leaves: seq<Located>, above: seq<string>, versions: map<string, string>)
    ensures Secrets(Under(name, leaves), above, versions) == Secrets(leaves, above + [name], versions)
    ensures Tasks(Under(name, leaves), above, versions) == Tasks(leaves, above + [name], versions)
  {
    if leaves != [] {
      MovedDown(name, leaves[1..], above, versions);
      assert above + ([name] + leaves[0].path) == above + [name] + leaves[0].path;
    }
  }

  lemma GroupStep(groups: seq<Group>, above: seq<string>, versions: map<string, string>)
    requires groups != []
    ensures
      var mine, others := ForestLeaves(groups[0].services), ForestLeaves(GroupForest(groups[1..]));
      var all := ForestLeaves(GroupForest(groups));
      Secrets(all, above, versions)
      == Secrets(mine, above + [groups[0].name], versions) + Secrets(others, above, versions)
      && Tasks(all, above, versions) == Tasks(mine, above + [groups[0].name], versions) + Tasks(others, above, versions)
  {
    hide Secrets, Tasks;
    var mine := ForestLeaves(groups[0].services);
    MovedDown(groups[0].name, mine, above, versions);
    Concatenated(Under(groups[0].name, mine), ForestLeaves(GroupForest(groups[1..])), above, versions);
  }

  lemma NoGroups(above: seq<string>, versions: map<string, string>)
    ensures Secrets(ForestLeaves(GroupForest([])), above, versions) == []
    ensures Tasks(ForestLeaves(GroupForest([])), above, versions) == []
  {
  }

  // ---- The walk -------------------------------------------------------------------

  class TargetLeaves {
    var secrets: seq<TargetSecret>
    var tasks: seq<TargetTask>
    var parents: seq<string>

    constructor ()
      ensures secrets == [] && tasks == [] && parents == []
    {
      secrets, tasks, parents := [], [], [];
    }

    /** `flatten_target`: appends every stored and generated leaf below `node` under
        the current parents, and leaves the parents as it found them. */
    method FlattenTarget(above: seq<string>, node: Node, versions: map<string, string>)
      modifies this
      ensures parents == old(parents)
      ensures secrets == old(secrets) + Secrets(Leaves(node), above + old(parents), versions)
      ensures tasks == old(tasks) + Tasks(Leaves(node), above + old(parents), versions)
      decreases node
    {
      match node
      case Operator(_) =>
      case Branch(children) =>
        FlattenChildren(above, children, versions);
      case Stored(leaf) =>
        var identifier := Identifier(above + parents);
        assert above + parents + [] == above + parents;
        secrets := secrets + [TargetSecret(identifier, leaf, Version(versions, identifier))];
      case Generated(leaf) =>
        var identifier := Identifier(above + parents);
        assert above + parents + [] == above + parents;
        tasks := tasks + [TargetTask(identifier, leaf, Version(versions, identifier))];
    }

    method FlattenChildren(above: seq<string>, children: Forest, versions: map<string, string>)
      modifies this
      ensures parents == old(parents)
      ensures secrets == old(secrets) + Secrets(ForestLeaves(children), above + old(parents), versions)
      ensures tasks == old(tasks) + Tasks(ForestLeaves(children), above + old(parents), versions)
      decreases children
    {
      if children.Entry? {
        ghost var here, mine := above + parents, Leaves(children.node);
        MovedDown(children.name, mine, here, versions);
        Concatenated(Under(children.name, mine), ForestLeaves(children.rest), here, versions);
        assert here + [children.name] == above + (parents + [children.name]);
        parents := parents + [children.name];
        FlattenTarget(above, children.node, versions);
        parents := parents[..|parents| - 1];
        FlattenChildren(above, children.rest, versions);
      }
    }

    /** The services of one namespace; each walk starts with no parents. */
    method FlattenServices(above: seq<string>, services: Forest, versions: map<string, string>)
      requires parents == []
      modifies this
      ensures parents == []
      ensures secrets == old(secrets) + Secrets(ForestLeaves(services), above, versions)
      ensures tasks == old(tasks) + Tasks(ForestLeaves(services), above, versions)
      decreases services
    {
      if services.Entry? {
        ghost var mine := Leaves(services.node);
        MovedDown(services.name, mine, above, versions);
        Concatenated(Under(services.name, mine), ForestLeaves(services.rest), above, versions);
        assert above + [services.name] + [] == above + [services.name];
        FlattenTarget(above + [services.name], services.node, versions);
        FlattenServices(above, services.rest, versions);
      }
    }

    /** `load_target_state`: every namespace of the host, then sorted by identifier. */
    method LoadTargetState(host: Host, versions: map<string, string>)
      requires secrets == [] && tasks == [] && parents == []
      modifies this
      ensures parents == []
      ensures secrets == SortBy(Secrets(ForestLeaves(GroupForest(host.groups)), [host.name], versions), SecretId())
      ensures tasks == SortBy(Tasks(ForestLeaves(GroupForest(host.groups)), [host.name], versions), TaskId())
    {
      hide Secrets, Tasks, ForestLeaves, GroupForest, SortBy;
      var groups := host.groups;
      NoGroups([host.name], versions);
      ghost var all := ForestLeaves(GroupForest(groups));
      while groups != []
        invariant parents == []
        invariant secrets + Secrets(ForestLeaves(GroupForest(groups)), [host.name], versions)
               == Secrets(all, [host.name], versions)
        invariant tasks + Tasks(ForestLeaves(GroupForest(groups)), [host.name], versions)
               == Tasks(all, [host.name], versions)
        decreases |groups|
      {
        GroupStep(groups, [host.name], versions);
        FlattenServices([host.name] + [groups[0].name], groups[0].services, versions);
        groups := groups[1..];
      }
      assert secrets == Secrets(all, [host.name], versions) && tasks == Tasks(all, [host.name], versions);
      secrets := SortBy(secrets, SecretId());
      tasks := SortBy(tasks, TaskId());
    }
  }

  // ---- What it reports ------------------------------------------------------------

  predicate Deployed(n: Node) {
    n.Stored? || n.Generated?
  }

  /** Every namespace is a plain component, so that no name holds a dot. */
  predicate PlainNamespaces(host: Host) {
    forall i :: 0 <= i < |host.groups| ==> Component(host.groups[i].name)
  }

  function Identifiers(leaves: seq<Located>, above: seq<string>): (r: seq<string>)
    ensures |r| == |leaves| && forall i :: 0 <= i < |r| ==> r[i] == Identifier(above + leaves[i].path)
  {
    seq(|leaves|, i requires 0 <= i < |leaves| => Identifier(above + leaves[i].path))
  }

  /** The reported identifiers, as sorted: secrets first. */
  function Reported(host: Host, versions: map<string, string>): seq<string> {
    var leaves := ForestLeaves(GroupForest(host.groups));
    Keys(SortBy(Secrets(leaves, [host.name], versions), SecretId()), SecretId())
    + Keys(SortBy(Tasks(leaves, [host.name], versions), TaskId()), TaskId())
  }

  function IsStored(): Located -> bool {
    (l: Located) => l.leaf.Stored?
  }

  function IsGenerated(): Located -> bool {
    (l: Located) => l.leaf.Generated?
  }

  lemma {:induction false} SecretOrigins(leaves: seq<Located>, above: seq<string>, versions: map<string, string>)
    ensures
      var s, from := Secrets(leaves, above, versions), Filter(leaves, IsStored());
      |s| == |from| && forall i :: 0 <= i < |s| ==> s[i].identifier == Identifier(above + from[i].path)
  {
    if leaves != [] { SecretOrigins(leaves[1..], above, versions); }
  }

  lemma {:induction false} TaskOrigins(leaves: seq<Located>, above: seq<string>, versions: map<string, string>)
    ensures
      var t, from := Tasks(leaves, above, versions), Filter(leaves, IsGenerated());
      |t| == |from| && forall i :: 0 <= i < |t| ==> t[i].identifier == Identifier(above + from[i].path)
  {
    if leaves != [] { TaskOrigins(leaves[1..], above, versions); }
  }

  function DeployedLeaves(host: Host): seq<Located> {
    var leaves := ForestLeaves(GroupForest(host.groups));
    Filter(leaves, IsStored()) + Filter(leaves, IsGenerated())
  }

  lemma ReportedLeaves(host: Host, versions: map<string, string>)
    ensures multiset(Reported(host, versions)) == multiset(Identifiers(DeployedLeaves(host), [host.name]))
  {
    hide Secrets, Tasks, Identifier, SortBy, Keys, Identifiers, Increasing;
    var leaves, above := ForestLeaves(GroupForest(host.groups)), [host.name];
    var s, t := Secrets(leaves, above, versions), Tasks(leaves, above, versions);
    SortBySorts(s, SecretId());
    SortBySorts(t, TaskId());
    OriginKeys(leaves, above, versions);
  }

  lemma OriginKeys(leaves: seq<Located>, above: seq<string>, versions: map<string, string>)
    ensures Keys(Secrets(leaves, above, versions), SecretId()) + Keys(Tasks(leaves, above, versions), TaskId())
         == Identifiers(Filter(leaves, IsStored()) + Filter(leaves, IsGenerated()), above)
  {
    hide Secrets, Tasks, Identifier, Keys;
    SecretOrigins(leaves, above, versions);
    TaskOrigins(leaves, above, versions);
    assert Keys(Secrets(leaves, above, versions), SecretId()) == Identifiers(Filter(leaves, IsStored()), above);
    assert Keys(Tasks(leaves, above, versions), TaskId()) == Identifiers(Filter(leaves, IsGenerated()), above);
  }

  /** The path leads from this host to a leaf that is deployed. */
  predicate Leads(schema: Schema, name: string, path: seq<string>) {
    path != [] && path[0] == name && Resolve(schema, path).Ok? && Deployed(Resolve(schema, path).value)
  }

  /** Lookup from the root and the leaves below one host agree. */
  lemma BelowHost(schema: Schema, h: nat, l: Located)
    requires ValidSchema(schema) && h < |schema|
    ensures l in ForestLeaves(GroupForest(schema[h].groups)) <==> Resolve(schema, [schema[h].name] + l.path) == Ok(l.leaf)
  {
    hide ForestLeaves, GroupForest, ValidGroups;
    HostsUnique(schema);
    var name, groups := schema[h].name, schema[h].groups;
    assert name in Names(HostForest(schema));
    var i := GetHost(schema, name);
    assert i == h;
    assert ([name] + l.path)[1..] == l.path;
    assert Find(Branch(HostForest(schema)), [name] + l.path) == Find(Branch(GroupForest(groups)), l.path);
    GroupsUnique(groups);
    LeavesExactly(Branch(GroupForest(groups)), l);
    assert Leaves(Branch(GroupForest(groups))) == ForestLeaves(GroupForest(groups));
  }

  lemma PlainPath(schema: Schema, h: nat, path: seq<string>)
    requires ValidSchema(schema) && h < |schema| && PlainNamespaces(schema[h])
    requires Resolve(schema, path).Ok? && path[0] == schema[h].name
    ensures ValidPath(path) && Component(path[1]) && Dotless(path)
  {
    hide GroupForest, ValidGroups;
    ResolvedPath(schema, path);
    var i := GetHost(schema, path[0]);
    assert i == h;
    assert Find(Branch(HostForest(schema)), path) == Find(Branch(GroupForest(schema[h].groups)), path[1..]);
    assert path[1..][0] == path[1];
    GetGroup(schema[h].groups, path[1]);
  }

  lemma OneIdentifierEach(schema: Schema, h: nat, leaves: seq<Located>)
    requires ValidSchema(schema) && h < |schema| && PlainNamespaces(schema[h])
    requires NoDup(leaves) && forall l :: l in leaves ==> Resolve(schema, [schema[h].name] + l.path) == Ok(l.leaf)
    ensures NoDup(Identifiers(leaves, [schema[h].name]))
  {
    hide Resolve, ValidSchema, Identifier, PlainNamespaces;
    var above := [schema[h].name];
    var r := Identifiers(leaves, above);
    forall i, j | 0 <= i < j < |r| ensures r[i] != r[j] {
      assert leaves[i] in leaves && leaves[j] in leaves && leaves[i] != leaves[j];
      var p, q := above + leaves[i].path, above + leaves[j].path;
      PlainPath(schema, h, p);
      PlainPath(schema, h, q);
      assert p[1..] == leaves[i].path && q[1..] == leaves[j].path;
      if Identifier(p) == Identifier(q) {
        IdentifierInjective(p, q);
      }
    }
  }

  lemma DeployedOnce(schema: Schema, h: nat)
    requires ValidSchema(schema) && h < |schema|
    ensures NoDup(DeployedLeaves(schema[h]))
    ensures forall l ::
      l in DeployedLeaves(schema[h]) <==>
      Deployed(l.leaf) && Resolve(schema, [schema[h].name] + l.path) == Ok(l.leaf)
  {
    hide Resolve, ForestLeaves, GroupForest;
    var leaves := ForestLeaves(GroupForest(schema[h].groups));
    GroupsUnique(schema[h].groups);
    ForestOnce(GroupForest(schema[h].groups));
    FilterNoDup(leaves, IsStored());
    FilterNoDup(leaves, IsGenerated());
    Disjoint(Filter(leaves, IsStored()), Filter(leaves, IsGenerated()));
    forall l ensures l in leaves <==> Resolve(schema, [schema[h].name] + l.path) == Ok(l.leaf) {
      BelowHost(schema, h, l);
    }
  }

  /** What the target reports: exactly the identifiers of the paths that resolve to
      its stored or generated leaves, as often as there are such leaves, and each
      once if the namespaces are plain. Identifiers of stored leaves, and then of
      all leaves below a service, read back as their paths. */
  lemma ReportedExactly(schema: Schema, h: nat, versions: map<string, string>)
    requires Validated(schema) && h < |schema|
    ensures forall path :: Leads(schema, schema[h].name, path) ==> Identifier(path) in Reported(schema[h], versions)
    ensures forall id :: id in Reported(schema[h], versions) ==>
      exists path :: Leads(schema, schema[h].name, path) && Identifier(path) == id
    ensures |Reported(schema[h], versions)| == |DeployedLeaves(schema[h])| && NoDup(DeployedLeaves(schema[h]))
    ensures forall path :: Leads(schema, schema[h].name, path) && Resolve(schema, path).value.Stored? ==>
      Parse(Identifier(path)) == Ok(path)
    ensures PlainNamespaces(schema[h]) ==>
      NoDup(Reported(schema[h], versions))
      && forall path :: Leads(schema, schema[h].name, path) && |path| >= 4 ==> Parse(Identifier(path)) == Ok(path)
  {
    hide Resolve, ValidSchema, Identifier, DeployedLeaves, Reported, PlainNamespaces, Parse;
    var host, above := schema[h], [schema[h].name];
    var leaves, ids := DeployedLeaves(host), Reported(host, versions);
    var listed := Identifiers(leaves, above);
    ReportedLeaves(host, versions);
    DeployedOnce(schema, h);
    SameBag(ids, listed);
    forall path | Leads(schema, host.name, path) ensures Identifier(path) in ids {
      LeadsListed(schema, h, path);
    }
    forall id | id in ids ensures exists path :: Leads(schema, host.name, path) && Identifier(path) == id {
      assert id in listed;
      var i :| 0 <= i < |listed| && listed[i] == id;
      assert leaves[i] in leaves;
      assert Leads(schema, host.name, above + leaves[i].path);
    }
    forall path | Leads(schema, host.name, path) && Resolve(schema, path).value.Stored?
      ensures Parse(Identifier(path)) == Ok(path)
    {
      IndexedReadsBack(schema, path);
    }
    if PlainNamespaces(host) {
      OneIdentifierEach(schema, h, leaves);
      SameBagNoDup(ids, listed);
      forall path | Leads(schema, host.name, path) && |path| >= 4 ensures Parse(Identifier(path)) == Ok(path) {
        PlainPath(schema, h, path);
        ParseExactly(path);
      }
    }
  }

  lemma SameBag(a: seq<string>, b: seq<string>)
    requires multiset(a) == multiset(b)
    ensures |a| == |b| && forall x :: x in a <==> x in b
  {
    assert |a| == |multiset(a)| && |b| == |multiset(b)|;
    forall x ensures x in a <==> x in b {
      assert x in a <==> x in multiset(a);
    }
  }

  lemma LeadsListed(schema: Schema, h: nat, path: seq<string>)
    requires ValidSchema(schema) && h < |schema| && Leads(schema, schema[h].name, path)
    ensures Identifier(path) in Identifiers(DeployedLeaves(schema[h]), [schema[h].name])
  {
    hide Resolve, ValidSchema, Identifier, DeployedLeaves;
    DeployedOnce(schema, h);
    var leaves, above := DeployedLeaves(schema[h]), [schema[h].name];
    var l := Located(path[1..], Resolve(schema, path).value);
    assert above + path[1..] == path;
    var i :| 0 <= i < |leaves| && leaves[i] == l;
    assert Identifiers(leaves, above)[i] == Identifier(path);
  }

  // ---- What each entry says ---------------------------------------------------------

  /** The entry of the stored leaf at `path`: its identifier, the leaf, and the version
      installed under that identifier, if any. */
  predicate IsSecretOf(t: TargetSecret, path: seq<string>, leaf: Node, versions: map<string, string>) {
    && leaf == Stored(t.leaf) && t.identifier == Identifier(path)
    && (t.currentVersion.None? <==> t.identifier !in versions)
    && (t.identifier in versions ==> t.currentVersion == Some(versions[t.identifier]))
  }

  predicate IsTaskOf(t: TargetTask, path: seq<string>, leaf: Node, versions: map<string, string>) {
    && leaf == Generated(t.leaf) && t.identifier == Identifier(path)
    && (t.currentVersion.None? <==> t.identifier !in versions)
    && (t.identifier in versions ==> t.currentVersion == Some(versions[t.identifier]))
  }

  lemma {:induction false} SecretsMember(leaves: seq<Located>, above: seq<string>, versions: map<string, string>, t: TargetSecret)
    ensures t in Secrets(leaves, above, versions) <==>
      exists l :: l in leaves && IsSecretOf(t, above + l.path, l.leaf, versions)
  {
    hide Identifier;
    if leaves != [] {
      SecretsMember(leaves[1..], above, versions, t);
      assert leaves == [leaves[0]] + leaves[1..];
      if l :| l in leaves[1..] && IsSecretOf(t, above + l.path, l.leaf, versions) { assert l in leaves; }
      if IsSecretOf(t, above + leaves[0].path, leaves[0].leaf, versions) { assert leaves[0] in leaves; }
      if l :| l in leaves && IsSecretOf(t, above + l.path, l.leaf, versions) { assert l == leaves[0] || l in leaves[1..]; }
    }
  }

  lemma {:induction false} TasksMember(leaves: seq<Located>, above: seq<string>, versions: map<string, string>, t: TargetTask)
    ensures t in Tasks(leaves, above, versions) <==>
      exists l :: l in leaves && IsTaskOf(t, above + l.path, l.leaf, versions)
  {
    hide Identifier;
    if leaves != [] {
      TasksMember(leaves[1..], above, versions, t);
      assert leaves == [leaves[0]] + leaves[1..];
      if l :| l in leaves[1..] && IsTaskOf(t, above + l.path, l.leaf, versions) { assert l in leaves; }
      if IsTaskOf(t, above + leaves[0].path, leaves[0].leaf, versions) { assert leaves[0] in leaves; }
      if l :| l in leaves && IsTaskOf(t, above + l.path, l.leaf, versions) { assert l == leaves[0] || l in leaves[1..]; }
    }
  }

  lemma SortMember<T>(s: seq<T>, key: T -> string, x: T)
    ensures x in SortBy(s, key) <==> x in s
  {
    hide SortBy, Keys, Increasing;
    SortBySorts(s, key);
    assert x in SortBy(s, key) <==> x in multiset(SortBy(s, key));
    assert x in s <==> x in multiset(s);
  }

  /** The target reports exactly its stored leaves as secrets, each with its own
      configuration and installed version, and exactly its generated leaves as tasks. */
  lemma ReportsDescribeLeaves(schema: Schema, h: nat, versions: map<string, string>, t: TargetSecret, u: TargetTask)
    requires ValidSchema(schema) && h < |schema|
    ensures
      var leaves, above := ForestLeaves(GroupForest(schema[h].groups)), [schema[h].name];
      (t in SortBy(Secrets(leaves, above, versions), SecretId()) <==>
         exists rel, leaf :: Resolve(schema, above + rel) == Ok(leaf) && IsSecretOf(t, above + rel, leaf, versions))
      && (u in SortBy(Tasks(leaves, above, versions), TaskId()) <==>
         exists rel, leaf :: Resolve(schema, above + rel) == Ok(leaf) && IsTaskOf(u, above + rel, leaf, versions))
  {
    hide Resolve, ForestLeaves, GroupForest, Secrets, Tasks, SortBy, IsSecretOf, IsTaskOf, ValidSchema;
    var leaves, above := ForestLeaves(GroupForest(schema[h].groups)), [schema[h].name];
    SortMember(Secrets(leaves, above, versions), SecretId(), t);
    SortMember(Tasks(leaves, above, versions), TaskId(), u);
    SecretsMember(leaves, above, versions, t);
    TasksMember(leaves, above, versions, u);
    forall l ensures l in leaves <==> Resolve(schema, above + l.path) == Ok(l.leaf) { BelowHost(schema, h, l); }
    if rel, leaf :| Resolve(schema, above + rel) == Ok(leaf) && IsSecretOf(t, above + rel, leaf, versions) {
      assert Located(rel, leaf) in leaves;
    }
    if rel, leaf :| Resolve(schema, above + rel) == Ok(leaf) && IsTaskOf(u, above + rel, leaf, versions) {
      assert Located(rel, leaf) in leaves;
    }
  }
}
