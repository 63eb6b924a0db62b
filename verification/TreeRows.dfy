/** The rows of the manager's tree view: services are arranged by display path,
    then every leaf becomes a row. */
module TreeRows {
  import opened Prelude
  import opened Ordered
  import opened Text
  import opened Naming
  import opened SchemaTree
  import TargetState

  datatype Category = BranchCategory | PasswordCategory | KeyCategory | PublicInfoCategory | OperatorCategory | OtherCategory

  /** What a row says of its value, apart from where it stands. */
  datatype Value = Value(isSet: bool, isTask: bool, canGenerate: bool, canCopyPublic: bool, category: Category,
                         externalInputRequired: bool)

  datatype Row = Row(depth: nat, name: string, segments: seq<string>, path: Option<string>, outputIsSet: Option<bool>,
                     value: Value, info: Info)

  /** The stored paths and the published shared identifiers. */
  datatype Status = Status(paths: set<string>, publicIds: set<string>)

  // ---- Rows of one service --------------------------------------------------------

  function BranchRow(depth: nat, name: string, segments: seq<string>): Row {
    Row(depth, name, segments, None, None, Value(false, false, false, false, BranchCategory, false),
        Info(None, false, false, None, None))
  }

  /** The identity's name, or the last component of the path. */
  function LeafName(identity: Option<Identity>, path: string): string {
    match identity
    case Some(i) => i.name
    case None => var parts := Split(path, '.'); parts[|parts| - 1]
  }

  function LeafRow(info: Info, path: string, depth: nat, display: seq<string>, value: Value): Row {
    var name := LeafName(info.identity, path);
    Row(if depth > 0 then depth - 1 else 0, name, display + [name], Some(path), None, value, info)
  }

  function StoredValue(leaf: StoredLeaf, path: string, st: Status): Value {
    var isSet :=
      if leaf.publicInfo then leaf.sharedPublicId.Some? && leaf.sharedPublicId.value in st.publicIds
      else path in st.paths;
    var category :=
      if leaf.publicInfo then PublicInfoCategory
      else if leaf.valueType == Some(Password) then PasswordCategory
      else if leaf.valueType == Some(Key) then KeyCategory
      else OtherCategory;
    Value(isSet, false, leaf.valueType == Some(Password) && !leaf.externalInputRequired,
          leaf.contentType == Some("openssh-private-key"), category, leaf.externalInputRequired)
  }

  function GeneratedValue(leaf: GeneratedLeaf, path: string, st: Status): Value {
    Value(path in st.paths, true, leaf.valueType == Some(Password) && !leaf.externalInputRequired, false,
          PasswordCategory, leaf.externalInputRequired)
  }

  function OperatorValue(leaf: OperatorLeaf, path: string, st: Status): Value {
    Value(path in st.paths, false, leaf.generator, leaf.generator, OperatorCategory, false)
  }

  function VisitRows(n: Node, path: string, depth: nat, display: seq<string>, st: Status): seq<Row> {
    match n
    case Stored(leaf) => [LeafRow(leaf.info, path, depth, display, StoredValue(leaf, path, st))]
    case Generated(leaf) =>
      if leaf.localSshKey then [] else [LeafRow(leaf.info, path, depth, display, GeneratedValue(leaf, path, st))]
    case Operator(leaf) => [LeafRow(leaf.info, path, depth, display, OperatorValue(leaf, path, st))]
    case Branch(children) => ChildRows(children, path, depth, display, st)
  }

  function ChildRows(f: Forest, parent: string, depth: nat, display: seq<string>, st: Status): seq<Row> {
    match f
    case End => []
    case Entry(name, node, rest) =>
      var path := parent + "." + name;
      (if node.Branch? then
         [BranchRow(depth, name, display + [name])] + VisitRows(node, path, depth + 1, display + [name], st)
       else VisitRows(node, path, depth + 1, display, st))
      + ChildRows(rest, parent, depth, display, st)
  }

  /** The identifiers that appear in rows, in order. */
  function PathsOf(rows: seq<Row>): seq<string> {
    if rows == [] then []
    else (if rows[0].path.Some? then [rows[0].path.value] else []) + PathsOf(rows[1..])
  }

  lemma {:induction false} PathsConcat(a: seq<Row>, b: seq<Row>)
    ensures PathsOf(a + b) == PathsOf(a) + PathsOf(b)
  {
    if a == [] {
      assert a + b == b;
    } else {
      assert (a + b)[0] == a[0] && (a + b)[1..] == a[1..] + b;
      PathsConcat(a[1..], b);
    }
  }

  /** Every leaf is shown except keys that never leave the target. */
  predicate Shown(n: Node) {
    n.Stored? || n.Operator? || (n.Generated? && !n.generated.localSshKey)
  }

  function ShownIds(leaves: seq<Located>, above: seq<string>): seq<string> {
    if leaves == [] then []
    else (if Shown(leaves[0].leaf) then [Identifier(above + leaves[0].path)] else []) + ShownIds(leaves[1..], above)
  }

  lemma {:induction false} ShownConcat(a: seq<Located>, b: seq<Located>, above: seq<string>)
    ensures ShownIds(a + b, above) == ShownIds(a, above) + ShownIds(b, above)
  {
    if a == [] {
      assert a + b == b;
    } else {
      assert (a + b)[0] == a[0] && (a + b)[1..] == a[1..] + b;
      ShownConcat(a[1..], b, above);
    }
  }

  lemma {:induction false} ShownUnder(name: string, leaves: seq<Located>, above: seq<string>)
    ensures ShownIds(Under(name, leaves), above) == ShownIds(leaves, above + [name])
  {
    if leaves != [] {
      ShownUnder(name, leaves[1..], above);
      assert above + ([name] + leaves[0].path) == above + [name] + leaves[0].path;
    }
  }

  lemma {:induction false} JoinSnoc(parts: seq<string>, last: string, sep: string)
    requires parts != []
    ensures Join(parts + [last], sep) == Join(parts, sep) + sep + last
  {
    if |parts| == 1 {
      assert (parts + [last])[1..] == [last];
      assert Join([last], sep) == last;
    } else {
      assert (parts + [last])[1..] == parts[1..] + [last];
      JoinSnoc(parts[1..], last, sep);
      assert parts[0] + sep + (Join(parts[1..], sep) + sep + last) == parts[0] + sep + Join(parts[1..], sep) + sep + last;
    }
  }

  lemma {:induction false} VisitPaths(n: Node, above: seq<string>, depth: nat, display: seq<string>, st: Status)
    requires above != []
    ensures PathsOf(VisitRows(n, Identifier(above), depth, display, st)) == ShownIds(Leaves(n), above)
  {
    if n.Branch? {
      ChildPaths(n.children, above, depth, display, st);
    } else {
      assert above + [] == above;
      assert Leaves(n) == [Located([], n)] && Leaves(n)[1..] == [];
    }
  }

  lemma {:induction false} ChildPaths(f: Forest, above: seq<string>, depth: nat, display: seq<string>, st: Status)
    requires above != []
    ensures PathsOf(ChildRows(f, Identifier(above), depth, display, st)) == ShownIds(ForestLeaves(f), above)
  {
    hide LeafRow, LeafName;
    if f.Entry? {
      var path := Identifier(above) + "." + f.name;
      JoinSnoc(above, f.name, ".");
      assert path == Identifier(above + [f.name]);
      VisitPaths(f.node, above + [f.name], depth + 1, display + [f.name], st);
      VisitPaths(f.node, above + [f.name], depth + 1, display, st);
      ChildPaths(f.rest, above, depth, display, st);
      ShownUnder(f.name, Leaves(f.node), above);
      ShownConcat(Under(f.name, Leaves(f.node)), ForestLeaves(f.rest), above);
      var head := [BranchRow(depth, f.name, display + [f.name])];
      var more := VisitRows(f.node, path, depth + 1, display + [f.name], st);
      PathsConcat(head, more);
      assert PathsOf(head) == [];
      PathsConcat(if f.node.Branch? then head + more else VisitRows(f.node, path, depth + 1, display, st),
                  ChildRows(f.rest, Identifier(above), depth, display, st));
    }
  }

  // ---- Arranging services by display path -----------------------------------------

  datatype Service = Service(name: string, node: Node)

  datatype Display = Display(service: Option<Service>, children: Labels)

  /** The entries of a display node's `BTreeMap`, in the order of iteration. */
  datatype Labels = NoLabel | Label(name: string, at: Display, rest: Labels)

  const EMPTY := Display(None, NoLabel)

  predicate HasLabel(c: Labels, name: string) {
    c.Label? && (c.name == name || HasLabel(c.rest, name))
  }

  /** Moves down the labels, creating what is missing, and sets the service there. */
  function Enter(d: Display, labels: seq<string>, s: Service): Display
    decreases |labels|, d
  {
    if labels == [] then d.(service := Some(s)) else Display(d.service, EnterIn(d.children, labels, s))
  }

  function EnterIn(c: Labels, labels: seq<string>, s: Service): Labels
    requires labels != []
    decreases |labels|, c
  {
    match c
    case NoLabel => Label(labels[0], Enter(EMPTY, labels[1..], s), NoLabel)
    case Label(name, at, rest) =>
      if name == labels[0] then Label(name, Enter(at, labels[1..], s), rest)
      else if !HasLabel(rest, labels[0]) && Le(labels[0], name) then Label(labels[0], Enter(EMPTY, labels[1..], s), c)
      else Label(name, at, EnterIn(rest, labels, s))
  }

  function At(d: Display, labels: seq<string>): Option<Service>
    decreases |labels|, d
  {
    if labels == [] then d.service else AtIn(d.children, labels)
  }

  function AtIn(c: Labels, labels: seq<string>): Option<Service>
    requires labels != []
    decreases |labels|, c
  {
    match c
    case NoLabel => None
    case Label(name, at, rest) => if name == labels[0] then At(at, labels[1..]) else AtIn(rest, labels)
  }

  lemma {:induction false} AtAbsent(c: Labels, labels: seq<string>)
    requires labels != [] && !HasLabel(c, labels[0])
    ensures AtIn(c, labels) == None
  {
    if c.Label? { AtAbsent(c.rest, labels); }
  }

  lemma {:induction false} AtEnter(d: Display, labels: seq<string>, s: Service, other: seq<string>)
    ensures At(Enter(d, labels, s), other) == if other == labels then Some(s) else At(d, other)
    decreases |labels|, d
  {
    if labels != [] && other != [] {
      AtEnterIn(d.children, labels, s, other);
    }
  }

  lemma {:induction false} AtEnterIn(c: Labels, labels: seq<string>, s: Service, other: seq<string>)
    requires labels != [] && other != []
    ensures AtIn(EnterIn(c, labels, s), other) == if other == labels then Some(s) else AtIn(c, other)
    decreases |labels|, c
  {
    hide Le;
    assert other == labels <==> other[0] == labels[0] && other[1..] == labels[1..] by {
      assert other == [other[0]] + other[1..] && labels == [labels[0]] + labels[1..];
    }
    AtEnter(EMPTY, labels[1..], s, other[1..]);
    assert At(EMPTY, other[1..]) == None;
    if c.Label? {
      AtEnter(c.at, labels[1..], s, other[1..]);
      AtEnterIn(c.rest, labels, s, other);
      if c.name != labels[0] && !HasLabel(c.rest, labels[0]) && other[0] == labels[0] {
        AtAbsent(c, other);
      }
    }
  }

  /** The services below, in the order in which they are listed. */
  function Placed(d: Display): seq<Service> {
    (if d.service.Some? then [d.service.value] else []) + PlacedIn(d.children)
  }

  function PlacedIn(c: Labels): seq<Service> {
    match c
    case NoLabel => []
    case Label(_, at, rest) => Placed(at) + PlacedIn(rest)
  }

  lemma BagLabel(name: string, at: Display, rest: Labels)
    ensures multiset(PlacedIn(Label(name, at, rest))) == multiset(Placed(at)) + multiset(PlacedIn(rest))
  {
    hide Placed;
  }

  lemma BagDisplay(d: Display, c: Labels, s: Service)
    requires multiset(PlacedIn(c)) == multiset(PlacedIn(d.children)) + multiset{s}
    ensures multiset(Placed(Display(d.service, c))) == multiset(Placed(d)) + multiset{s}
  {
    hide PlacedIn;
  }

  lemma {:induction false} PlacedEnter(d: Display, labels: seq<string>, s: Service)
    requires At(d, labels) == None
    ensures multiset(Placed(Enter(d, labels, s))) == multiset(Placed(d)) + multiset{s}
    decreases |labels|, d
  {
    hide PlacedIn;
    if labels == [] {
      assert Placed(Enter(d, labels, s)) == [s] + Placed(d);
    } else {
      PlacedEnterIn(d.children, labels, s);
      BagDisplay(d, EnterIn(d.children, labels, s), s);
    }
  }

  lemma NothingPlaced(labels: seq<string>)
    ensures Placed(EMPTY) == [] && At(EMPTY, labels) == None
  {
  }

  lemma {:induction false} PlacedEnterIn(c: Labels, labels: seq<string>, s: Service)
    requires labels != [] && AtIn(c, labels) == None
    ensures multiset(PlacedIn(EnterIn(c, labels, s))) == multiset(PlacedIn(c)) + multiset{s}
    decreases |labels|, c
  {
    hide Le, Placed, Enter, At;
    match c
    case NoLabel => {
      NothingPlaced(labels[1..]);
      PlacedEnter(EMPTY, labels[1..], s);
      BagLabel(labels[0], Enter(EMPTY, labels[1..], s), NoLabel);
    }
    case Label(name, at, rest) => {
      BagLabel(name, at, rest);
      if name == labels[0] {
        PlacedEnter(at, labels[1..], s);
        BagLabel(name, Enter(at, labels[1..], s), rest);
      } else if !HasLabel(rest, labels[0]) && Le(labels[0], name) {
        NothingPlaced(labels[1..]);
        PlacedEnter(EMPTY, labels[1..], s);
        BagLabel(labels[0], Enter(EMPTY, labels[1..], s), c);
      } else {
        PlacedEnterIn(rest, labels, s);
        BagLabel(name, at, EnterIn(rest, labels, s));
      }
    }
  }

  function LabelsFor(host: Host, namespace: string, service: string): seq<string> {
    if namespace in host.displayPaths && service in host.displayPaths[namespace]
    then host.displayPaths[namespace][service]
    else [service]
  }

  function Services(f: Forest): seq<Service> {
    match f
    case End => []
    case Entry(name, node, rest) => [Service(name, node)] + Services(rest)
  }

  function Arranged(host: Host, namespace: string, services: seq<Service>): Display {
    if services == [] then EMPTY
    else
      var last := services[|services| - 1];
      Enter(Arranged(host, namespace, services[..|services| - 1]), LabelsFor(host, namespace, last.name), last)
  }

  /** Display paths are non-empty and differ between services. */
  predicate Arrangeable(host: Host, namespace: string, services: seq<Service>) {
    (forall i :: 0 <= i < |services| ==> LabelsFor(host, namespace, services[i].name) != [])
    && forall i, j :: 0 <= i < j < |services| ==>
         LabelsFor(host, namespace, services[i].name) != LabelsFor(host, namespace, services[j].name)
  }

  lemma {:induction false} ArrangedAt(host: Host, namespace: string, services: seq<Service>, labels: seq<string>)
    requires forall i :: 0 <= i < |services| ==> LabelsFor(host, namespace, services[i].name) != labels
    ensures At(Arranged(host, namespace, services), labels) == None
  {
    if services != [] {
      var init, last := services[..|services| - 1], services[|services| - 1];
      ArrangedAt(host, namespace, init, labels);
      AtEnter(Arranged(host, namespace, init), LabelsFor(host, namespace, last.name), last, labels);
    }
  }

  lemma {:induction false} ArrangedBag(host: Host, namespace: string, services: seq<Service>)
    requires Arrangeable(host, namespace, services)
    ensures multiset(Placed(Arranged(host, namespace, services))) == multiset(services)
  {
    hide LabelsFor, Enter, Placed, At;
    if services == [] {
      NothingPlaced([]);
    } else {
      var init, last := services[..|services| - 1], services[|services| - 1];
      ArrangedBag(host, namespace, init);
      ArrangedAt(host, namespace, init, LabelsFor(host, namespace, last.name));
      PlacedEnter(Arranged(host, namespace, init), LabelsFor(host, namespace, last.name), last);
      assert services == init + [last];
    }
  }

  /** Arranging loses no service and repeats none. */
  lemma ArrangedOnce(host: Host, namespace: string, services: seq<Service>)
    requires Arrangeable(host, namespace, services)
    ensures multiset(PlacedIn(Arranged(host, namespace, services).children)) == multiset(services)
  {
    hide LabelsFor, Arranged, PlacedIn;
    ArrangedAt(host, namespace, services, []);
    ArrangedBag(host, namespace, services);
    var d := Arranged(host, namespace, services);
    assert Placed(d) == [] + PlacedIn(d.children) == PlacedIn(d.children);
  }

  // ---- All rows -------------------------------------------------------------------

  function DisplayRows(c: Labels, host: string, namespace: string, depth: nat, display: seq<string>, st: Status): seq<Row> {
    match c
    case NoLabel => []
    case Label(name, at, rest) =>
      var child := display + [name];
      [BranchRow(depth, name, child)]
      + (if at.service.Some? then
           VisitRows(at.service.value.node, host + "." + namespace + "." + at.service.value.name, depth + 1, child, st)
         else [])
      + DisplayRows(at.children, host, namespace, depth + 1, child, st)
      + DisplayRows(rest, host, namespace, depth, display, st)
  }

  function GroupRows(host: Host, group: Group, st: Status): seq<Row> {
    [BranchRow(1, group.name, [host.name, group.name])]
    + DisplayRows(Arranged(host, group.name, Services(group.services)).children, host.name, group.name, 2,
                  [host.name, group.name], st)
  }

  function GroupsRows(host: Host, groups: seq<Group>, st: Status): seq<Row> {
    if groups == [] then [] else GroupRows(host, groups[0], st) + GroupsRows(host, groups[1..], st)
  }

  function Rows(schema: Schema, st: Status): seq<Row> {
    if schema == [] then []
    else [BranchRow(0, schema[0].name, [schema[0].name])] + GroupsRows(schema[0], schema[0].groups, st) + Rows(schema[1..], st)
  }

  /** The identifiers of the shown leaves, service by service. */
  function ServiceIds(services: seq<Service>, above: seq<string>): seq<string> {
    if services == [] then []
    else ShownIds(Leaves(services[0].node), above + [services[0].name]) + ServiceIds(services[1..], above)
  }

  lemma {:induction false} ServiceConcat(a: seq<Service>, b: seq<Service>, above: seq<string>)
    ensures ServiceIds(a + b, above) == ServiceIds(a, above) + ServiceIds(b, above)
  {
    if a == [] {
      assert a + b == b;
    } else {
      assert (a + b)[0] == a[0] && (a + b)[1..] == a[1..] + b;
      ServiceConcat(a[1..], b, above);
    }
  }

  lemma {:induction false} ForestIds(f: Forest, above: seq<string>)
    ensures ShownIds(ForestLeaves(f), above) == ServiceIds(Services(f), above)
  {
    if f.Entry? {
      ForestIds(f.rest, above);
      ShownUnder(f.name, Leaves(f.node), above);
      ShownConcat(Under(f.name, Leaves(f.node)), ForestLeaves(f.rest), above);
      assert Services(f)[1..] == Services(f.rest);
    }
  }

  lemma Removed(b: seq<Service>, j: nat, above: seq<string>)
    requires j < |b|
    ensures multiset(b[..j] + b[j + 1..]) == multiset(b) - multiset{b[j]}
    ensures ServiceIds(b, above)
         == ServiceIds(b[..j], above) + ShownIds(Leaves(b[j].node), above + [b[j].name]) + ServiceIds(b[j + 1..], above)
  {
    hide ShownIds, Leaves;
    assert b == b[..j] + b[j..] && b[j..][1..] == b[j + 1..];
    assert b == b[..j] + [b[j]] + b[j + 1..];
    ServiceConcat(b[..j], b[j..], above);
  }

  /** The order of services does not matter to how often each identifier occurs. */
  lemma {:induction false} ServiceOrder(a: seq<Service>, b: seq<Service>, above: seq<string>)
    requires multiset(a) == multiset(b)
    ensures multiset(ServiceIds(a, above)) == multiset(ServiceIds(b, above))
    decreases |a|
  {
    hide ShownIds, Leaves;
    if a == [] {
      assert |multiset(b)| == |b|;
    } else {
      assert a == [a[0]] + a[1..];
      assert a[0] in multiset(b);
      var j :| 0 <= j < |b| && b[j] == a[0];
      Removed(b, j, above);
      ServiceOrder(a[1..], b[..j] + b[j + 1..], above);
      ServiceConcat(b[..j], b[j + 1..], above);
    }
  }

  lemma ServicePath(host: string, namespace: string, service: string)
    ensures host + "." + namespace + "." + service == Identifier([host, namespace, service])
  {
    assert [host, namespace, service] == [host] + [namespace] + [service];
    JoinSnoc([host], namespace, ".");
    JoinSnoc([host] + [namespace], service, ".");
  }

  lemma {:induction false} DisplayPaths(
    c: Labels, host: string, namespace: string, depth: nat, display: seq<string>, st: Status)
    ensures PathsOf(DisplayRows(c, host, namespace, depth, display, st)) == ServiceIds(PlacedIn(c), [host, namespace])
  {
    hide VisitRows, ShownIds, Leaves, Identifier;
    if c.Label? {
      var child, above := display + [c.name], [host, namespace];
      var head := [BranchRow(depth, c.name, child)];
      var own := if c.at.service.Some? then
          VisitRows(c.at.service.value.node, host + "." + namespace + "." + c.at.service.value.name, depth + 1, child, st)
        else [];
      var below := DisplayRows(c.at.children, host, namespace, depth + 1, child, st);
      var after := DisplayRows(c.rest, host, namespace, depth, display, st);
      DisplayPaths(c.at.children, host, namespace, depth + 1, child, st);
      DisplayPaths(c.rest, host, namespace, depth, display, st);
      PathsConcat(head, own);
      PathsConcat(head + own, below);
      PathsConcat(head + own + below, after);
      assert PathsOf(head) == [];
      var mine := if c.at.service.Some? then [c.at.service.value] else [];
      assert PathsOf(own) == ServiceIds(mine, above) by { OwnPaths(c.at.service, host, namespace, depth, child, st); }
      ServiceConcat(mine, PlacedIn(c.at.children), above);
      ServiceConcat(mine + PlacedIn(c.at.children), PlacedIn(c.rest), above);
    }
  }

  lemma OwnPaths(service: Option<Service>, host: string, namespace: string, depth: nat, child: seq<string>, st: Status)
    ensures service.Some? ==>
      PathsOf(VisitRows(service.value.node, host + "." + namespace + "." + service.value.name, depth + 1, child, st))
      == ServiceIds([service.value], [host, namespace])
  {
    hide VisitRows, ShownIds, Leaves, Identifier;
    if service.Some? {
      var s, above := service.value, [host, namespace];
      ServicePath(host, namespace, s.name);
      assert above + [s.name] == [host, namespace, s.name];
      VisitPaths(s.node, above + [s.name], depth + 1, child, st);
      assert [s][1..] == [];
      assert ServiceIds([s], above) == ShownIds(Leaves(s.node), above + [s.name]) + ServiceIds([], above);
    }
  }

  /** Every service of the host has its own non-empty display path. */
  predicate DisplayOk(host: Host) {
    forall i :: 0 <= i < |host.groups| ==> Arrangeable(host, host.groups[i].name, Services(host.groups[i].services))
  }

  lemma GroupPaths(host: Host, group: Group, st: Status)
    requires Arrangeable(host, group.name, Services(group.services))
    ensures multiset(PathsOf(GroupRows(host, group, st)))
         == multiset(ShownIds(ForestLeaves(group.services), [host.name] + [group.name]))
  {
    hide ShownIds, Arrangeable, Arranged, ForestLeaves, Services, ServiceIds;
    var services, above := Services(group.services), [host.name, group.name];
    var c := Arranged(host, group.name, services).children;
    ArrangedOnce(host, group.name, services);
    DisplayPaths(c, host.name, group.name, 2, above, st);
    ServiceOrder(PlacedIn(c), services, above);
    ForestIds(group.services, above);
    assert [host.name] + [group.name] == above;
    var head := [BranchRow(1, group.name, above)];
    PathsConcat(head, DisplayRows(c, host.name, group.name, 2, above, st));
    assert PathsOf(head) == [];
  }

  lemma {:induction false} GroupsPaths(host: Host, groups: seq<Group>, st: Status)
    requires forall i :: 0 <= i < |groups| ==> Arrangeable(host, groups[i].name, Services(groups[i].services))
    ensures multiset(PathsOf(GroupsRows(host, groups, st))) == multiset(ShownIds(ForestLeaves(GroupForest(groups)), [host.name]))
  {
    hide ShownIds, Arrangeable, GroupRows, Services;
    if groups != [] {
      var mine := ForestLeaves(groups[0].services);
      GroupPaths(host, groups[0], st);
      GroupsPaths(host, groups[1..], st);
      PathsConcat(GroupRows(host, groups[0], st), GroupsRows(host, groups[1..], st));
      ShownUnder(groups[0].name, mine, [host.name]);
      ShownConcat(Under(groups[0].name, mine), ForestLeaves(GroupForest(groups[1..])), [host.name]);
    } else {
      NothingShown([host.name]);
    }
  }

  lemma NothingShown(above: seq<string>)
    ensures ShownIds([], above) == []
  {
  }

  /** Every identifier occurs in the rows as often as shown leaves have it. */
  lemma {:induction false} RowsPaths(schema: Schema, st: Status)
    requires forall h :: 0 <= h < |schema| ==> DisplayOk(schema[h])
    ensures multiset(PathsOf(Rows(schema, st))) == multiset(ShownIds(SchemaLeaves(schema), []))
  {
    hide ShownIds, DisplayOk, GroupsRows, GroupForest;
    if schema != [] {
      var host := schema[0];
      var head, own := [BranchRow(0, host.name, [host.name])], GroupsRows(host, host.groups, st);
      var mine := ForestLeaves(GroupForest(host.groups));
      assert DisplayOk(host);
      HostPaths(host, st);
      RowsPaths(schema[1..], st);
      PathsConcat(head, own);
      PathsConcat(head + own, Rows(schema[1..], st));
      assert PathsOf(head) == [];
      assert SchemaLeaves(schema) == Under(host.name, mine) + SchemaLeaves(schema[1..]) by { HostStep(schema); }
      ShownUnder(host.name, mine, []);
      ShownConcat(Under(host.name, mine), SchemaLeaves(schema[1..]), []);
    } else {
      assert SchemaLeaves(schema) == [];
      NothingShown([]);
    }
  }

  lemma HostStep(schema: Schema)
    requires schema != []
    ensures SchemaLeaves(schema)
         == Under(schema[0].name, ForestLeaves(GroupForest(schema[0].groups))) + SchemaLeaves(schema[1..])
  {
    var node := Branch(GroupForest(schema[0].groups));
    assert HostForest(schema) == Entry(schema[0].name, node, HostForest(schema[1..]));
    assert Leaves(node) == ForestLeaves(node.children);
  }

  lemma HostPaths(host: Host, st: Status)
    requires DisplayOk(host)
    ensures multiset(PathsOf(GroupsRows(host, host.groups, st)))
         == multiset(ShownIds(ForestLeaves(GroupForest(host.groups)), [] + [host.name]))
  {
    assert [] + [host.name] == [host.name];
    GroupsPaths(host, host.groups, st);
  }

  // ---- Every leaf once ------------------------------------------------------------

  function IsShown(): Located -> bool {
    (l: Located) => Shown(l.leaf)
  }

  lemma {:induction false} ShownLeaves(leaves: seq<Located>, above: seq<string>)
    ensures ShownIds(leaves, above) == TargetState.Identifiers(Filter(leaves, IsShown()), above)
  {
    hide Identifier;
    if leaves != [] {
      ShownLeaves(leaves[1..], above);
    }
  }

  ghost predicate Valid(schema: Schema) {
    Validated(schema) && forall h :: 0 <= h < |schema| ==> DisplayOk(schema[h])
  }

  predicate Plain(schema: Schema) {
    forall h :: 0 <= h < |schema| ==> TargetState.PlainNamespaces(schema[h])
  }

  /** The path leads to a leaf that is shown. */
  predicate Listed(schema: Schema, path: seq<string>) {
    Resolve(schema, path).Ok? && Shown(Resolve(schema, path).value)
  }

  lemma ListedPath(schema: Schema, path: seq<string>)
    requires Valid(schema) && Plain(schema) && Resolve(schema, path).Ok?
    ensures path != [] && Dotless(path)
  {
    hide TargetState.PlainNamespaces, DisplayOk, ValidSchema;
    ResolvedPath(schema, path);
    var h := GetHost(schema, path[0]);
    TargetState.PlainPath(schema, h, path);
  }

  lemma ShownAt(schema: Schema)
    requires ValidSchema(schema)
    ensures
      var leaves, ids := Filter(SchemaLeaves(schema), IsShown()), ShownIds(SchemaLeaves(schema), []);
      NoDup(leaves) && |ids| == |leaves| && (forall i :: 0 <= i < |ids| ==> ids[i] == Identifier(leaves[i].path))
      && forall l :: l in leaves <==> Resolve(schema, l.path) == Ok(l.leaf) && Shown(l.leaf)
  {
    hide Resolve, SchemaLeaves, Identifier, ShownIds;
    var all := SchemaLeaves(schema);
    var leaves := Filter(all, IsShown());
    SchemaLeavesExactly(schema);
    ShownLeaves(all, []);
    FilterNoDup(all, IsShown());
    assert forall i :: 0 <= i < |leaves| ==> [] + leaves[i].path == leaves[i].path;
  }

  lemma ShownExactly(schema: Schema)
    requires ValidSchema(schema)
    ensures forall path :: Listed(schema, path) ==> Identifier(path) in ShownIds(SchemaLeaves(schema), [])
    ensures forall id :: id in ShownIds(SchemaLeaves(schema), []) ==>
      exists path :: Listed(schema, path) && Identifier(path) == id
  {
    hide Resolve, SchemaLeaves, Identifier, ShownIds;
    ShownAt(schema);
    var leaves, ids := Filter(SchemaLeaves(schema), IsShown()), ShownIds(SchemaLeaves(schema), []);
    forall path | Listed(schema, path) ensures Identifier(path) in ids {
      var l := Located(path, Resolve(schema, path).value);
      var i :| 0 <= i < |leaves| && leaves[i] == l;
      assert ids[i] == Identifier(path);
    }
    forall id | id in ids ensures exists path :: Listed(schema, path) && Identifier(path) == id {
      var i :| 0 <= i < |ids| && ids[i] == id;
      assert leaves[i] in leaves;
      assert Listed(schema, leaves[i].path);
    }
  }

  lemma ShownOnce(schema: Schema)
    requires Valid(schema) && Plain(schema)
    ensures NoDup(ShownIds(SchemaLeaves(schema), []))
  {
    hide Resolve, SchemaLeaves, Identifier, ShownIds, Plain;
    ShownAt(schema);
    var leaves, ids := Filter(SchemaLeaves(schema), IsShown()), ShownIds(SchemaLeaves(schema), []);
    forall i, j | 0 <= i < j < |ids| ensures ids[i] != ids[j] {
      assert leaves[i] in leaves && leaves[j] in leaves && leaves[i] != leaves[j];
      ListedPath(schema, leaves[i].path);
      ListedPath(schema, leaves[j].path);
      if Identifier(leaves[i].path) == Identifier(leaves[j].path) {
        IdentifierInjective(leaves[i].path, leaves[j].path);
      }
    }
  }

  /** The rows hold the identifier of every leaf, except for keys that stay on their
      target, and no other identifier: one row for each such leaf, and one for each
      identifier if the namespaces are plain. */
  lemma RowsListEveryLeafOnce(schema: Schema, st: Status)
    requires Valid(schema)
    ensures forall path :: Listed(schema, path) ==> Identifier(path) in PathsOf(Rows(schema, st))
    ensures forall id :: id in PathsOf(Rows(schema, st)) ==>
      exists path :: Listed(schema, path) && Identifier(path) == id
    ensures |PathsOf(Rows(schema, st))| == |Filter(SchemaLeaves(schema), IsShown())|
    ensures NoDup(Filter(SchemaLeaves(schema), IsShown()))
    ensures Plain(schema) ==> NoDup(PathsOf(Rows(schema, st)))
  {
    hide DisplayOk, TargetState.PlainNamespaces, ValidSchema, Resolve, Identifier, ShownIds, SchemaLeaves, PathsOf, Rows,
      Listed, Plain;
    RowsPaths(schema, st);
    ShownAt(schema);
    ShownExactly(schema);
    var rows, ids := PathsOf(Rows(schema, st)), ShownIds(SchemaLeaves(schema), []);
    TargetState.SameBag(rows, ids);
    if Plain(schema) {
      ShownOnce(schema);
      SameBagNoDup(rows, ids);
    }
  }

  // ---- Validation of display paths ------------------------------------------------

  predicate Known(host: Host, namespace: string, service: string) {
    exists g :: 0 <= g < |host.groups| && host.groups[g].name == namespace && service in Names(host.groups[g].services)
  }

  /** A service is known exactly when it stands in a group of that namespace. */
  lemma KnownExactly(host: Host, namespace: string, service: string)
    ensures Known(host, namespace, service) <==>
      exists group, s :: group in host.groups && group.name == namespace && s in Services(group.services) && s.name == service
  {
    forall group | group in host.groups
      ensures service in Names(group.services) <==> exists s :: s in Services(group.services) && s.name == service
    {
      NamesServices(group.services, service);
    }
    if group, s :| group in host.groups && group.name == namespace && s in Services(group.services) && s.name == service {
      var g :| 0 <= g < |host.groups| && host.groups[g] == group;
    }
  }

  lemma {:induction false} NamesServices(f: Forest, name: string)
    ensures name in Names(f) <==> exists s :: s in Services(f) && s.name == name
  {
    if f.Entry? {
      NamesServices(f.rest, name);
      assert Services(f)[0] == Service(f.name, f.node);
      if s :| s in Services(f.rest) && s.name == name { assert s in Services(f); }
    }
  }

  predicate PathOk(host: Host, namespace: string, service: string, path: seq<string>) {
    Known(host, namespace, service) && path != [] && forall i :: 0 <= i < |path| ==> Component(path[i])
  }

  predicate DeclaredOk(host: Host, namespace: string)
    requires namespace in host.displayPaths
  {
    Namespace(namespace)
    && forall service :: service in host.displayPaths[namespace] ==>
         PathOk(host, namespace, service, host.displayPaths[namespace][service])
  }

  function AllLabels(host: Host, group: Group): (r: seq<seq<string>>)
    ensures |r| == |Services(group.services)|
    ensures forall i :: 0 <= i < |r| ==> r[i] == LabelsFor(host, group.name, Services(group.services)[i].name)
  {
    var services := Services(group.services);
    seq(|services|, i requires 0 <= i < |services| => LabelsFor(host, group.name, services[i].name))
  }

  /** The display-path checks of `Schema::validate` on one host. */
  method ValidateDisplay(host: Host) returns (ok: bool)
    ensures ok <==>
      (forall ns :: ns in host.displayPaths ==> DeclaredOk(host, ns))
      && forall g :: 0 <= g < |host.groups| ==> NoDup(AllLabels(host, host.groups[g]))
  {
    var namespaces := Sorted(host.displayPaths.Keys);
    assert forall ns :: ns in host.displayPaths <==> ns in SetOf(namespaces);
    for n := 0 to |namespaces|
      invariant forall k :: 0 <= k < n ==> DeclaredOk(host, namespaces[k])
    {
      var declared := ValidateDeclared(host, namespaces[n]);
      if !declared {
        return false;
      }
    }
    for g := 0 to |host.groups|
      invariant forall k :: 0 <= k < g ==> NoDup(AllLabels(host, host.groups[k]))
    {
      var unique := ValidateUnique(AllLabels(host, host.groups[g]));
      if !unique {
        return false;
      }
    }
    ok := true;
  }

  method ValidateDeclared(host: Host, namespace: string) returns (ok: bool)
    requires namespace in host.displayPaths
    ensures ok <==> DeclaredOk(host, namespace)
  {
    if !Namespace(namespace) {
      return false;
    }
    var paths := host.displayPaths[namespace];
    var services := Sorted(paths.Keys);
    assert forall s :: s in paths <==> s in SetOf(services);
    for i := 0 to |services|
      invariant forall k :: 0 <= k < i ==> PathOk(host, namespace, services[k], paths[services[k]])
    {
      if !PathOk(host, namespace, services[i], paths[services[i]]) {
        return false;
      }
    }
    ok := true;
  }

  method ValidateUnique(labels: seq<seq<string>>) returns (ok: bool)
    ensures ok <==> NoDup(labels)
  {
    var used: set<seq<string>> := {};
    for i := 0 to |labels|
      invariant used == SetOf(labels[..i]) && NoDup(labels[..i])
    {
      assert labels[..i + 1] == labels[..i] + [labels[i]];
      if labels[i] in used {
        ghost var k :| 0 <= k < i && labels[..i][k] == labels[i];
        return false;
      }
      used := used + {labels[i]};
    }
    assert labels[..|labels|] == labels;
    ok := true;
  }

  /** What validation accepts, the rows can rely on. */
  lemma ValidatedDisplay(host: Host)
    requires forall ns :: ns in host.displayPaths ==> DeclaredOk(host, ns)
    requires forall g :: 0 <= g < |host.groups| ==> NoDup(AllLabels(host, host.groups[g]))
    ensures DisplayOk(host)
  {
    forall g | 0 <= g < |host.groups|
      ensures Arrangeable(host, host.groups[g].name, Services(host.groups[g].services))
    {
      var group := host.groups[g];
      var labels := AllLabels(host, group);
      assert NoDup(labels);
      forall i | 0 <= i < |labels| ensures LabelsFor(host, group.name, Services(group.services)[i].name) != [] {
        if group.name in host.displayPaths { assert DeclaredOk(host, group.name); }
      }
    }
  }
}

/** The tree view as it is built: rows are appended to one list. */
module TreeView {
  import opened Prelude
  import opened SchemaTree
  import opened TreeRows

  class Listing {
    var output: seq<Row>

    constructor ()
      ensures output == []
    {
      output := [];
    }

    method Visit(node: Node, path: string, depth: nat, display: seq<string>, st: Status)
      modifies this
      ensures output == old(output) + VisitRows(node, path, depth, display, st)
      decreases node
    {
      match node
      case Stored(leaf) =>
        output := output + [LeafRow(leaf.info, path, depth, display, StoredValue(leaf, path, st))];
      case Generated(leaf) =>
        if !leaf.localSshKey {
          output := output + [LeafRow(leaf.info, path, depth, display, GeneratedValue(leaf, path, st))];
        }
      case Operator(leaf) =>
        output := output + [LeafRow(leaf.info, path, depth, display, OperatorValue(leaf, path, st))];
      case Branch(children) =>
        VisitChildren(children, path, depth, display, st);
    }

    method VisitChildren(children: Forest, parent: string, depth: nat, display: seq<string>, st: Status)
      modifies this
      ensures output == old(output) + ChildRows(children, parent, depth, display, st)
      decreases children
    {
      if children.Entry? {
        var path, child := parent + "." + children.name, display + [children.name];
        if children.node.Branch? {
          output := output + [BranchRow(depth, children.name, child)];
          Visit(children.node, path, depth + 1, child, st);
        } else {
          Visit(children.node, path, depth + 1, display, st);
        }
        VisitChildren(children.rest, parent, depth, display, st);
      }
    }

    method EmitDisplay(labels: Labels, host: string, namespace: string, depth: nat, display: seq<string>, st: Status)
      modifies this
      ensures output == old(output) + DisplayRows(labels, host, namespace, depth, display, st)
      decreases labels
    {
      hide VisitRows;
      if labels.Label? {
        var child := display + [labels.name];
        output := output + [BranchRow(depth, labels.name, child)];
        if labels.at.service.Some? {
          var service := labels.at.service.value;
          Visit(service.node, host + "." + namespace + "." + service.name, depth + 1, child, st);
        }
        EmitDisplay(labels.at.children, host, namespace, depth + 1, child, st);
        EmitDisplay(labels.rest, host, namespace, depth, display, st);
      }
    }

    /** One namespace: arranges its services, then lists them. */
    method EmitGroup(host: Host, group: Group, st: Status)
      modifies this
      ensures output == old(output) + GroupRows(host, group, st)
    {
      hide DisplayRows, Enter, LabelsFor;
      output := output + [BranchRow(1, group.name, [host.name, group.name])];
      var display := EMPTY;
      var services := Services(group.services);
      for i := 0 to |services|
        invariant display == Arranged(host, group.name, services[..i])
        invariant output == old(output) + [BranchRow(1, group.name, [host.name, group.name])]
      {
        assert services[..i + 1][..i] == services[..i];
        display := Enter(display, LabelsFor(host, group.name, services[i].name), services[i]);
      }
      assert services[..|services|] == services;
      EmitDisplay(display.children, host.name, group.name, 2, [host.name, group.name], st);
    }

    /** `rows_with_public`. */
    method RowsWithPublic(schema: Schema, st: Status)
      modifies this
      ensures output == old(output) + Rows(schema, st)
    {
      hide GroupRows;
      for h := 0 to |schema|
        invariant output + Rows(schema[h..], st) == old(output) + Rows(schema, st)
      {
        assert schema[h..][0] == schema[h] && schema[h..][1..] == schema[h + 1..];
        EmitHost(schema[h], st);
      }
      assert schema[|schema|..] == [];
    }

    method EmitHost(host: Host, st: Status)
      modifies this
      ensures output == old(output) + [BranchRow(0, host.name, [host.name])] + GroupsRows(host, host.groups, st)
    {
      hide GroupRows;
      output := output + [BranchRow(0, host.name, [host.name])];
      ghost var before := output;
      for g := 0 to |host.groups|
        invariant output + GroupsRows(host, host.groups[g..], st) == before + GroupsRows(host, host.groups, st)
      {
        assert host.groups[g..][0] == host.groups[g] && host.groups[g..][1..] == host.groups[g + 1..];
        EmitGroup(host, host.groups[g], st);
      }
      assert host.groups[|host.groups|..] == [];
    }
  }
}
