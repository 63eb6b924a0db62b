/** What the rows of the tree view say: each leaf row describes its own leaf, at its
    place in the display, and every row stands under the row of its parent. */
module RowDetails {
  import opened Prelude
  import opened Text
  import opened Naming
  import opened SchemaTree
  import opened TreeRows

  // ---- One leaf -------------------------------------------------------------------

  function InfoOf(n: Node): Info
    requires !n.Branch?
  {
    match n
    case Stored(leaf) => leaf.info
    case Generated(leaf) => leaf.info
    case Operator(leaf) => leaf.info
  }

  /** The row says of the leaf whether it is set, what can be done with it, and what it is. */
  predicate Describes(v: Value, n: Node, id: string, st: Status)
    requires !n.Branch?
  {
    && (v.isTask <==> n.Generated?)
    && (v.isSet <==>
          if n.Stored? && n.stored.publicInfo
          then n.stored.sharedPublicId.Some? && n.stored.sharedPublicId.value in st.publicIds
          else id in st.paths)
    && (v.externalInputRequired <==>
          (n.Stored? && n.stored.externalInputRequired) || (n.Generated? && n.generated.externalInputRequired))
    && (v.canGenerate <==>
          (n.Stored? && n.stored.valueType == Some(Password) && !n.stored.externalInputRequired)
          || (n.Generated? && n.generated.valueType == Some(Password) && !n.generated.externalInputRequired)
          || (n.Operator? && n.operator.generator))
    && (v.canCopyPublic <==>
          (n.Stored? && n.stored.contentType == Some("openssh-private-key")) || (n.Operator? && n.operator.generator))
    && (v.category == PublicInfoCategory <==> n.Stored? && n.stored.publicInfo)
    && (v.category == OperatorCategory <==> n.Operator?)
    && (v.category == PasswordCategory <==>
          n.Generated? || (n.Stored? && !n.stored.publicInfo && n.stored.valueType == Some(Password)))
    && (v.category == KeyCategory <==> n.Stored? && !n.stored.publicInfo && n.stored.valueType == Some(Key))
  }

  /** The row of the leaf at `rel` below a service that is shown at `display`: it stands
      below the branches on the way, under its own name. A leaf that is the whole
      service stands beside the service's label. */
  predicate Fits(r: Row, above: seq<string>, display: seq<string>, l: Located, st: Status)
    requires !l.leaf.Branch? && above != []
  {
    var path := above + l.path;
    var info := InfoOf(l.leaf);
    var name := if info.identity.Some? then info.identity.value.name else path[|path| - 1];
    var way := if l.path == [] then [] else l.path[..|l.path| - 1];
    && r.path == Some(Identifier(path)) && r.name == name && r.info == info && r.outputIsSet == None
    && r.segments == display + way + [name]
    && r.depth + 1 == |r.segments| - (if l.path == [] then 1 else 0)
    && Describes(r.value, l.leaf, Identifier(path), st)
  }

  lemma LastPiece(above: seq<string>, last: string)
    requires '.' !in last
    ensures
      var parts := Split(Identifier(above + [last]), '.');
      parts[|parts| - 1] == last
  {
    if above == [] {
      assert [] + [last] == [last];
      SplitPrefix(last, '.', []);
    } else {
      JoinSnoc(above, last, ".");
      SplitLast(Identifier(above), last);
    }
  }

  lemma {:induction false} SplitLast(a: string, last: string)
    requires '.' !in last
    ensures
      var parts := Split(a + "." + last, '.');
      |parts| >= 2 && parts[|parts| - 1] == last
  {
    if a == [] {
      assert a + "." + last == [] + ['.'] + last;
      SplitPrefix([], '.', last);
      SplitPrefix(last, '.', []);
    } else {
      assert (a + "." + last)[1..] == a[1..] + "." + last;
      SplitLast(a[1..], last);
    }
  }

  /** Every leaf row of a service is that of one of its shown leaves. */
  ghost predicate FromLeaves(r: Row, n: Node, above: seq<string>, display: seq<string>, st: Status)
    requires above != []
  {
    r.path.Some? ==>
      exists l :: l in Leaves(n) && Shown(l.leaf) && Fits(r, above, display, l, st)
  }

  lemma LeafFits(n: Node, above: seq<string>, display: seq<string>, st: Status, r: Row)
    requires !n.Branch? && above != [] && '.' !in above[|above| - 1] && display != []
    requires r in VisitRows(n, Identifier(above), |display|, display, st)
    ensures Shown(n) && Fits(r, above, display, Located([], n), st)
  {
    assert above == above[..|above| - 1] + [above[|above| - 1]];
    LastPiece(above[..|above| - 1], above[|above| - 1]);
    assert above + [] == above && display + [] == display;
  }

  /** A leaf that is a child of a branch is shown beside its siblings. */
  lemma ChildLeafFits(n: Node, name: string, above: seq<string>, display: seq<string>, st: Status, r: Row)
    requires !n.Branch? && above != [] && '.' !in name
    requires r in VisitRows(n, Identifier(above + [name]), |display| + 1, display, st)
    ensures Shown(n) && Fits(r, above, display, Located([name], n), st)
  {
    LastPiece(above, name);
    assert [name][..0] == [] && display + [] == display;
  }

  /** A leaf further down, seen from one level above. */
  lemma FitsUp(r: Row, name: string, above: seq<string>, display: seq<string>, l: Located, st: Status)
    requires !l.leaf.Branch? && above != [] && l.path != [] && Fits(r, above + [name], display + [name], l, st)
    ensures Fits(r, above, display, Located([name] + l.path, l.leaf), st)
  {
    var p := [name] + l.path;
    assert above + [name] + l.path == above + p;
    assert p[..|p| - 1] == [name] + l.path[..|l.path| - 1];
    assert display + [name] + l.path[..|l.path| - 1] == display + p[..|p| - 1];
  }

  lemma {:induction false} BranchFits(n: Node, above: seq<string>, display: seq<string>, st: Status, r: Row)
    requires n.Branch? && ValidNode(n) && above != [] && display != []
    requires r in VisitRows(n, Identifier(above), |display|, display, st)
    ensures FromLeaves(r, n, above, display, st)
  {
    hide Fits;
    ForestFits(n.children, above, display, st, r);
  }

  lemma {:induction false} ForestFits(f: Forest, above: seq<string>, display: seq<string>, st: Status, r: Row)
    requires ValidForest(f) && above != [] && display != []
    requires r in ChildRows(f, Identifier(above), |display|, display, st)
    ensures r.path.Some? ==>
      exists l :: l in ForestLeaves(f) && Shown(l.leaf) && Fits(r, above, display, l, st)
  {
    hide Fits, Leaves, Identifier, VisitRows;
    if f.Entry? && r.path.Some? {
      var path := Identifier(above) + "." + f.name;
      assert path == Identifier(above + [f.name]) by { JoinSnocId(above, f.name); }
      if r in ChildRows(f.rest, Identifier(above), |display|, display, st) {
        ForestFits(f.rest, above, display, st, r);
        var l :| l in ForestLeaves(f.rest) && Shown(l.leaf) && Fits(r, above, display, l, st);
        assert l in ForestLeaves(f);
      } else if f.node.Branch? {
        assert r in VisitRows(f.node, path, |display| + 1, display + [f.name], st);
        BranchFits(f.node, above + [f.name], display + [f.name], st, r);
        BelowBranch(f, above, display, st, r);
      } else {
        ChildLeafFits(f.node, f.name, above, display, st, r);
        var l := Located([f.name], f.node);
        assert l in ForestLeaves(f) by { LeafChild(f); }
      }
    }
  }

  lemma JoinSnocId(above: seq<string>, name: string)
    requires above != []
    ensures Identifier(above) + "." + name == Identifier(above + [name])
  {
    JoinSnoc(above, name, ".");
  }

  lemma LeafChild(f: Forest)
    requires f.Entry? && !f.node.Branch?
    ensures Located([f.name], f.node) in ForestLeaves(f)
  {
    UnderMember(f.name, Leaves(f.node), Located([f.name], f.node));
    assert [f.name][1..] == [];
    assert Leaves(f.node)[0] == Located([], f.node);
  }

  lemma BelowBranch(f: Forest, above: seq<string>, display: seq<string>, st: Status, r: Row)
    requires f.Entry? && f.node.Branch? && above != [] && r.path.Some?
    requires FromLeaves(r, f.node, above + [f.name], display + [f.name], st)
    ensures exists l :: l in ForestLeaves(f) && Shown(l.leaf) && Fits(r, above, display, l, st)
  {
    hide Fits;
    var l :| l in Leaves(f.node) && Shown(l.leaf) && Fits(r, above + [f.name], display + [f.name], l, st);
    DeepLeaf(f.node.children, l);
    FitsUp(r, f.name, above, display, l, st);
    var up := Located([f.name] + l.path, l.leaf);
    UnderMember(f.name, Leaves(f.node), up);
    assert up.path[1..] == l.path;
  }

  lemma {:induction false} DeepLeaf(f: Forest, l: Located)
    requires l in ForestLeaves(f)
    ensures l.path != []
  {
    if l in Under(f.name, Leaves(f.node)) {
      UnderMember(f.name, Leaves(f.node), l);
    } else {
      DeepLeaf(f.rest, l);
    }
  }

  lemma ServiceFits(s: Service, above: seq<string>, display: seq<string>, st: Status, r: Row)
    requires ValidNode(s.node) && above != [] && '.' !in above[|above| - 1] && display != []
    requires r in VisitRows(s.node, Identifier(above), |display|, display, st)
    ensures FromLeaves(r, s.node, above, display, st)
  {
    hide Fits;
    if s.node.Branch? {
      BranchFits(s.node, above, display, st, r);
    } else {
      LeafFits(s.node, above, display, st, r);
      assert Leaves(s.node)[0] == Located([], s.node);
    }
  }

  // ---- The display tree -----------------------------------------------------------

  /** The service stands at these labels of the tree. */
  predicate Stands(d: Display, labels: seq<string>, s: Service)
    decreases |labels|, d
  {
    if labels == [] then d.service == Some(s) else StandsIn(d.children, labels, s)
  }

  predicate StandsIn(c: Labels, labels: seq<string>, s: Service)
    requires labels != []
    decreases |labels|, c
  {
    match c
    case NoLabel => false
    case Label(name, at, rest) => (name == labels[0] && Stands(at, labels[1..], s)) || StandsIn(rest, labels, s)
  }

  lemma {:induction false} StandsEntered(d: Display, labels: seq<string>, s: Service, other: seq<string>, t: Service)
    requires Stands(Enter(d, labels, s), other, t)
    ensures (other == labels && t == s) || Stands(d, other, t)
    decreases |labels|, d
  {
    if labels != [] && other != [] {
      StandsEnteredIn(d.children, labels, s, other, t);
    }
  }

  lemma {:induction false} StandsEnteredIn(c: Labels, labels: seq<string>, s: Service, other: seq<string>, t: Service)
    requires labels != [] && other != [] && StandsIn(EnterIn(c, labels, s), other, t)
    ensures (other == labels && t == s) || StandsIn(c, other, t)
    decreases |labels|, c
  {
    assert labels == [labels[0]] + labels[1..] && other == [other[0]] + other[1..];
    if other[0] == labels[0] && Stands(Enter(EMPTY, labels[1..], s), other[1..], t) {
      StandsEntered(EMPTY, labels[1..], s, other[1..], t);
      assert !Stands(EMPTY, other[1..], t);
    }
    if c.Label? {
      if c.name == labels[0] && other[0] == c.name && Stands(Enter(c.at, labels[1..], s), other[1..], t) {
        StandsEntered(c.at, labels[1..], s, other[1..], t);
      }
      if StandsIn(EnterIn(c.rest, labels, s), other, t) {
        StandsEnteredIn(c.rest, labels, s, other, t);
      }
    }
  }

  lemma {:induction false} StandsArranged(host: Host, namespace: string, services: seq<Service>, labels: seq<string>, s: Service)
    requires Stands(Arranged(host, namespace, services), labels, s)
    ensures s in services && labels == LabelsFor(host, namespace, s.name)
    decreases |services|
  {
    hide LabelsFor, Enter;
    NothingStands(labels, s);
    if services != [] {
      var init, last := services[..|services| - 1], services[|services| - 1];
      StandsEntered(Arranged(host, namespace, init), LabelsFor(host, namespace, last.name), last, labels, s);
      if Stands(Arranged(host, namespace, init), labels, s) {
        StandsArranged(host, namespace, init, labels, s);
      }
    }
  }

  lemma NothingStands(labels: seq<string>, s: Service)
    ensures !Stands(EMPTY, labels, s)
  {
  }

  /** A leaf row of the display tree comes from a service that stands there. */
  ghost predicate FromService(r: Row, host: string, namespace: string, display: seq<string>, labels: seq<string>, s: Service, st: Status) {
    FromLeaves(r, s.node, [host, namespace, s.name], display + labels, st)
  }

  lemma {:induction false} DisplayFits(
    c: Labels, host: string, namespace: string, display: seq<string>, st: Status, r: Row, ok: set<Service>)
    requires display != [] && r.path.Some? && r in DisplayRows(c, host, namespace, |display|, display, st)
    requires forall labels, s :: labels != [] && StandsIn(c, labels, s) ==> s in ok
    requires forall s :: s in ok ==> ValidNode(s.node) && Component(s.name)
    ensures exists labels, s ::
      labels != [] && StandsIn(c, labels, s) && FromService(r, host, namespace, display, labels, s, st)
    decreases c
  {
    hide FromLeaves, VisitRows, Stands, Component;
    var child := display + [c.name];
    if r in DisplayRows(c.rest, host, namespace, |display|, display, st) {
      forall labels, s | labels != [] && StandsIn(c.rest, labels, s) ensures s in ok { assert StandsIn(c, labels, s); }
      DisplayFits(c.rest, host, namespace, display, st, r, ok);
      var labels, s :| labels != [] && StandsIn(c.rest, labels, s) && FromService(r, host, namespace, display, labels, s, st);
      assert StandsIn(c, labels, s);
    } else if r in DisplayRows(c.at.children, host, namespace, |display| + 1, child, st) {
      forall labels, s | labels != [] && StandsIn(c.at.children, labels, s) ensures s in ok {
        StandsBelow(c, labels, s);
      }
      DisplayFits(c.at.children, host, namespace, child, st, r, ok);
      var labels, s :| labels != [] && StandsIn(c.at.children, labels, s) && FromService(r, host, namespace, child, labels, s, st);
      StandsBelow(c, labels, s);
      assert child + labels == display + ([c.name] + labels);
      assert FromService(r, host, namespace, display, [c.name] + labels, s, st);
    } else {
      var s := c.at.service.value;
      OwnStands(c, s);
      ServicePath(host, namespace, s.name);
      assert '.' !in s.name by { Plain(s.name); }
      ServiceFits(s, [host, namespace, s.name], child, st, r);
      assert FromService(r, host, namespace, display, [c.name], s, st);
    }
  }

  lemma Plain(name: string)
    requires Component(name)
    ensures '.' !in name
  {
  }

  lemma StandsBelow(c: Labels, labels: seq<string>, s: Service)
    requires c.Label? && labels != [] && StandsIn(c.at.children, labels, s)
    ensures StandsIn(c, [c.name] + labels, s)
  {
    assert ([c.name] + labels)[1..] == labels;
  }

  lemma OwnStands(c: Labels, s: Service)
    requires c.Label? && c.at.service == Some(s)
    ensures StandsIn(c, [c.name], s)
  {
    assert [c.name][1..] == [];
  }

  // ---- The whole view ---------------------------------------------------------------

  lemma {:induction false} ServiceValid(f: Forest, s: Service)
    requires ValidForest(f) && s in Services(f)
    ensures Component(s.name) && ValidNode(s.node)
    ensures forall l :: l in Leaves(s.node) ==> Located([s.name] + l.path, l.leaf) in ForestLeaves(f)
  {
    if s == Service(f.name, f.node) {
      forall l | l in Leaves(s.node) ensures Located([s.name] + l.path, l.leaf) in ForestLeaves(f) {
        var up := Located([s.name] + l.path, l.leaf);
        UnderMember(f.name, Leaves(f.node), up);
        assert up.path[1..] == l.path;
      }
    } else {
      ServiceValid(f.rest, s);
    }
  }

  /** A service is shown at the path declared for it, else under its own name. */
  predicate DisplayedAt(host: Host, namespace: string, service: string, labels: seq<string>) {
    var declared := namespace in host.displayPaths && service in host.displayPaths[namespace];
    (declared ==> labels == host.displayPaths[namespace][service]) && (!declared ==> labels == [service])
  }

  /** The row is that of the leaf at `path`: it tells the leaf, and it stands where the
      leaf's service is shown. */
  ghost predicate RowOf(host: Host, group: Group, r: Row, path: seq<string>, leaf: Node, st: Status) {
    exists s: Service, l: Located, labels: seq<string> ::
      !l.leaf.Branch? && path == [host.name, group.name, s.name] + l.path && leaf == l.leaf
      && DisplayedAt(host, group.name, s.name, labels)
      && Fits(r, [host.name, group.name, s.name], [host.name, group.name] + labels, l, st)
  }

  lemma GroupStands(host: Host, group: Group, labels: seq<string>, s: Service)
    requires ValidForest(group.services) && labels != []
    requires StandsIn(Arranged(host, group.name, Services(group.services)).children, labels, s)
    ensures s in Services(group.services) && labels == LabelsFor(host, group.name, s.name)
  {
    hide Arranged, LabelsFor, Services;
    assert Stands(Arranged(host, group.name, Services(group.services)), labels, s);
    StandsArranged(host, group.name, Services(group.services), labels, s);
  }

  lemma GroupRowFits(host: Host, group: Group, st: Status, r: Row) returns (s: Service)
    requires ValidForest(group.services) && r.path.Some? && r in GroupRows(host, group, st)
    ensures s in Services(group.services)
    ensures FromService(r, host.name, group.name, [host.name, group.name], LabelsFor(host, group.name, s.name), s, st)
  {
    hide Arranged, LabelsFor, DisplayRows, Services, FromService, StandsIn;
    var services := Services(group.services);
    var c, display := Arranged(host, group.name, services).children, [host.name, group.name];
    assert r in DisplayRows(c, host.name, group.name, 2, display, st);
    forall labels, s | labels != [] && StandsIn(c, labels, s) ensures s in SetOf(services) {
      GroupStands(host, group, labels, s);
    }
    forall s | s in SetOf(services) ensures ValidNode(s.node) && Component(s.name) {
      ServiceValid(group.services, s);
    }
    DisplayFits(c, host.name, group.name, display, st, r, SetOf(services));
    var labels, found :|
      labels != [] && StandsIn(c, labels, found) && FromService(r, host.name, group.name, display, labels, found, st);
    GroupStands(host, group, labels, found);
    s := found;
  }

  lemma GroupFits(host: Host, group: Group, st: Status, r: Row)
    requires ValidForest(group.services) && r.path.Some? && r in GroupRows(host, group, st)
    ensures exists path, leaf ::
      Located(path, leaf) in Under(host.name, Under(group.name, ForestLeaves(group.services)))
      && Shown(leaf) && RowOf(host, group, r, path, leaf, st)
  {
    hide Fits, LabelsFor, ForestLeaves, Services, GroupRows, RowOf, Leaves, Under, ValidForest;
    var s := GroupRowFits(host, group, st, r);
    var above, display := [host.name, group.name, s.name], [host.name, group.name] + LabelsFor(host, group.name, s.name);
    var l :| l in Leaves(s.node) && Shown(l.leaf) && Fits(r, above, display, l, st);
    LeafInGroup(host, group, s, l);
    IsRowOf(host, group, r, s, l, st);
  }

  lemma LeafInGroup(host: Host, group: Group, s: Service, l: Located)
    requires ValidForest(group.services) && s in Services(group.services) && l in Leaves(s.node)
    ensures Located([host.name, group.name, s.name] + l.path, l.leaf)
         in Under(host.name, Under(group.name, ForestLeaves(group.services)))
  {
    hide ForestLeaves, Services, Under, ValidForest;
    ServiceValid(group.services, s);
    var inner := Located([s.name] + l.path, l.leaf);
    TwiceUnder(host.name, group.name, ForestLeaves(group.services), inner);
    assert [host.name] + ([group.name] + inner.path) == [host.name, group.name, s.name] + l.path;
  }

  lemma IsRowOf(host: Host, group: Group, r: Row, s: Service, l: Located, st: Status)
    requires !l.leaf.Branch?
    requires Fits(r, [host.name, group.name, s.name], [host.name, group.name] + LabelsFor(host, group.name, s.name), l, st)
    ensures RowOf(host, group, r, [host.name, group.name, s.name] + l.path, l.leaf, st)
  {
    hide Fits;
    assert DisplayedAt(host, group.name, s.name, LabelsFor(host, group.name, s.name));
  }

  lemma TwiceUnder(a: string, b: string, leaves: seq<Located>, l: Located)
    requires l in leaves
    ensures Located([a] + ([b] + l.path), l.leaf) in Under(a, Under(b, leaves))
  {
    var up := Located([b] + l.path, l.leaf);
    UnderMember(b, leaves, up);
    assert up.path[1..] == l.path;
    var top := Located([a] + up.path, l.leaf);
    UnderMember(a, Under(b, leaves), top);
    assert top.path[1..] == up.path;
  }

  /** The row belongs to a group of the host. */
  ghost predicate InHost(host: Host, r: Row, path: seq<string>, leaf: Node, st: Status) {
    exists g :: 0 <= g < |host.groups| && RowOf(host, host.groups[g], r, path, leaf, st)
  }

  lemma {:induction false} GroupsFit(host: Host, from: nat, st: Status, r: Row)
    requires ValidGroups(host.groups) && from <= |host.groups|
    requires r.path.Some? && r in GroupsRows(host, host.groups[from..], st)
    ensures exists path, leaf ::
      Located(path, leaf) in Under(host.name, ForestLeaves(GroupForest(host.groups[from..])))
      && Shown(leaf) && InHost(host, r, path, leaf, st)
    decreases |host.groups| - from
  {
    hide RowOf, GroupRows;
    var groups := host.groups[from..];
    assert groups[0] == host.groups[from] && groups[1..] == host.groups[from + 1..];
    var mine, others := Under(groups[0].name, ForestLeaves(groups[0].services)), ForestLeaves(GroupForest(groups[1..]));
    assert ForestLeaves(GroupForest(groups)) == mine + others by { GroupLeaves(groups); }
    if r in GroupsRows(host, groups[1..], st) {
      GroupsFit(host, from + 1, st, r);
      var path, leaf :| Located(path, leaf) in Under(host.name, others) && Shown(leaf) && InHost(host, r, path, leaf, st);
      UnderWider(host.name, mine, others, Located(path, leaf));
    } else {
      GroupFits(host, groups[0], st, r);
      var path, leaf :| Located(path, leaf) in Under(host.name, mine) && Shown(leaf) && RowOf(host, groups[0], r, path, leaf, st);
      UnderWider(host.name, mine, others, Located(path, leaf));
      assert InHost(host, r, path, leaf, st);
    }
  }

  lemma GroupLeaves(groups: seq<Group>)
    requires groups != []
    ensures ForestLeaves(GroupForest(groups))
         == Under(groups[0].name, ForestLeaves(groups[0].services)) + ForestLeaves(GroupForest(groups[1..]))
  {
  }

  lemma UnderWider(name: string, a: seq<Located>, b: seq<Located>, l: Located)
    ensures l in Under(name, a) || l in Under(name, b) ==> l in Under(name, a + b)
  {
    UnderMember(name, a, l);
    UnderMember(name, b, l);
    UnderMember(name, a + b, l);
  }

  lemma {:induction false} HostsFit(schema: Schema, from: nat, st: Status, r: Row)
    requires ValidSchema(schema) && from <= |schema| && r.path.Some? && r in Rows(schema[from..], st)
    ensures exists h, path, leaf ::
      0 <= h < |schema| && Located(path, leaf) in SchemaLeaves(schema[from..]) && Shown(leaf)
      && InHost(schema[h], r, path, leaf, st)
    decreases |schema| - from
  {
    hide InHost, GroupsRows, ValidGroups;
    var hosts := schema[from..];
    assert hosts[0] == schema[from] && hosts[1..] == schema[from + 1..];
    HostStep(hosts);
    if r in Rows(hosts[1..], st) {
      HostsFit(schema, from + 1, st, r);
      var h, path, leaf :|
        0 <= h < |schema| && Located(path, leaf) in SchemaLeaves(hosts[1..]) && Shown(leaf)
        && InHost(schema[h], r, path, leaf, st);
      assert Located(path, leaf) in SchemaLeaves(hosts);
    } else {
      assert hosts[0].groups[0..] == hosts[0].groups;
      GroupsFit(hosts[0], 0, st, r);
      var path, leaf :|
        Located(path, leaf) in Under(hosts[0].name, ForestLeaves(GroupForest(hosts[0].groups))) && Shown(leaf)
        && InHost(hosts[0], r, path, leaf, st);
      assert Located(path, leaf) in SchemaLeaves(hosts);
    }
  }

  /** Every row with a path is the row of the leaf that this path resolves to. */
  lemma RowsDescribeLeaves(schema: Schema, st: Status, r: Row)
    requires ValidSchema(schema) && r in Rows(schema, st) && r.path.Some?
    ensures exists h, path, leaf ::
      0 <= h < |schema| && Resolve(schema, path) == Ok(leaf) && Shown(leaf) && InHost(schema[h], r, path, leaf, st)
  {
    hide InHost, Rows, SchemaLeaves, Resolve;
    assert schema[0..] == schema;
    HostsFit(schema, 0, st, r);
    SchemaLeavesExactly(schema);
    var h, path, leaf :|
      0 <= h < |schema| && Located(path, leaf) in SchemaLeaves(schema) && Shown(leaf) && InHost(schema[h], r, path, leaf, st);
    assert Resolve(schema, Located(path, leaf).path) == Ok(Located(path, leaf).leaf);
  }

  // ---- Parents --------------------------------------------------------------------

  /** Row `i` stands under an earlier branch row for the way to it, or under a root. */
  ghost predicate HasParent(rows: seq<Row>, i: nat, roots: set<seq<string>>)
    requires i < |rows|
  {
    var s := rows[i].segments;
    s != []
    && (s[..|s| - 1] in roots || exists j :: 0 <= j < i && rows[j].path.None? && rows[j].segments == s[..|s| - 1])
  }

  ghost predicate Rooted(rows: seq<Row>, roots: set<seq<string>>) {
    forall i :: 0 <= i < |rows| ==> HasParent(rows, i, roots)
  }

  lemma RootedConcat(a: seq<Row>, b: seq<Row>, roots: set<seq<string>>)
    requires Rooted(a, roots) && Rooted(b, roots)
    ensures Rooted(a + b, roots)
  {
    var r := a + b;
    forall i | 0 <= i < |r| ensures HasParent(r, i, roots) {
      if i < |a| {
        assert HasParent(a, i, roots) && r[i] == a[i];
        var s := a[i].segments;
        if j :| 0 <= j < i && a[j].path.None? && a[j].segments == s[..|s| - 1] { assert r[j] == a[j]; }
      } else {
        assert HasParent(b, i - |a|, roots) && r[i] == b[i - |a|];
        var s := b[i - |a|].segments;
        if j :| 0 <= j < i - |a| && b[j].path.None? && b[j].segments == s[..|s| - 1] { assert r[|a| + j] == b[j]; }
      }
    }
  }

  /** A branch row is the parent of what is rooted in it. */
  lemma RootedBelow(parent: Row, rows: seq<Row>, root: seq<string>)
    requires parent.path.None? && parent.segments != [] && parent.segments[..|parent.segments| - 1] == root
    requires Rooted(rows, {parent.segments})
    ensures Rooted([parent] + rows, {root})
  {
    var r := [parent] + rows;
    forall i | 0 <= i < |r| ensures HasParent(r, i, {root}) {
      if i > 0 {
        assert HasParent(rows, i - 1, {parent.segments}) && r[i] == rows[i - 1];
        var s := r[i].segments;
        if s[..|s| - 1] == parent.segments {
          assert r[0].path.None? && r[0].segments == s[..|s| - 1];
        } else {
          var j :| 0 <= j < i - 1 && rows[j].path.None? && rows[j].segments == s[..|s| - 1];
          assert r[j + 1] == rows[j];
        }
      }
    }
  }

  lemma BranchParent(depth: nat, name: string, display: seq<string>)
    ensures
      var r := BranchRow(depth, name, display + [name]);
      r.path.None? && r.segments != [] && r.segments[..|r.segments| - 1] == display
  {
  }

  lemma {:induction false} VisitRooted(n: Node, path: string, depth: nat, display: seq<string>, st: Status)
    ensures Rooted(VisitRows(n, path, depth, display, st), {display})
  {
    if n.Branch? {
      ChildrenRooted(n.children, path, depth, display, st);
    } else {
      forall r | r in VisitRows(n, path, depth, display, st) ensures r.segments != [] && r.segments[..|r.segments| - 1] == display {
      }
    }
  }

  lemma {:induction false} ChildrenRooted(f: Forest, parent: string, depth: nat, display: seq<string>, st: Status)
    ensures Rooted(ChildRows(f, parent, depth, display, st), {display})
  {
    hide Rooted, VisitRows, BranchRow;
    if f.Entry? {
      var path, child := parent + "." + f.name, display + [f.name];
      ChildrenRooted(f.rest, parent, depth, display, st);
      if f.node.Branch? {
        VisitRooted(f.node, path, depth + 1, child, st);
        BranchParent(depth, f.name, display);
        BranchSegments(depth, f.name, child);
        RootedBelow(BranchRow(depth, f.name, child), VisitRows(f.node, path, depth + 1, child, st), display);
        RootedConcat([BranchRow(depth, f.name, child)] + VisitRows(f.node, path, depth + 1, child, st),
                     ChildRows(f.rest, parent, depth, display, st), {display});
      } else {
        VisitRooted(f.node, path, depth + 1, display, st);
        RootedConcat(VisitRows(f.node, path, depth + 1, display, st), ChildRows(f.rest, parent, depth, display, st), {display});
      }
    } else {
      NothingRooted({display});
    }
  }

  lemma BranchSegments(depth: nat, name: string, segments: seq<string>)
    ensures BranchRow(depth, name, segments).segments == segments
  {
  }

  lemma NothingRooted(roots: set<seq<string>>)
    ensures Rooted([], roots)
  {
  }

  lemma {:induction false} DisplayRooted(c: Labels, host: string, namespace: string, depth: nat, display: seq<string>, st: Status)
    ensures Rooted(DisplayRows(c, host, namespace, depth, display, st), {display})
  {
    hide Rooted, VisitRows, BranchRow;
    if c.Label? {
      var child := display + [c.name];
      var own := if c.at.service.Some? then
          VisitRows(c.at.service.value.node, host + "." + namespace + "." + c.at.service.value.name, depth + 1, child, st)
        else [];
      var below := DisplayRows(c.at.children, host, namespace, depth + 1, child, st);
      var after := DisplayRows(c.rest, host, namespace, depth, display, st);
      if c.at.service.Some? {
        VisitRooted(c.at.service.value.node, host + "." + namespace + "." + c.at.service.value.name, depth + 1, child, st);
      } else {
        NothingRooted({child});
      }
      DisplayRooted(c.at.children, host, namespace, depth + 1, child, st);
      DisplayRooted(c.rest, host, namespace, depth, display, st);
      RootedConcat(own, below, {child});
      BranchParent(depth, c.name, display);
      BranchSegments(depth, c.name, child);
      RootedBelow(BranchRow(depth, c.name, child), own + below, display);
      RootedConcat([BranchRow(depth, c.name, child)] + (own + below), after, {display});
      assert [BranchRow(depth, c.name, child)] + own + below + after
          == [BranchRow(depth, c.name, child)] + (own + below) + after;
    } else {
      NothingRooted({display});
    }
  }

  lemma {:induction false} GroupsRooted(host: Host, groups: seq<Group>, st: Status)
    ensures Rooted(GroupsRows(host, groups, st), {[host.name]})
  {
    hide Rooted, BranchRow, DisplayRows;
    if groups == [] {
      NothingRooted({[host.name]});
    } else {
      var display := [host.name, groups[0].name];
      var c := Arranged(host, groups[0].name, Services(groups[0].services)).children;
      DisplayRooted(c, host.name, groups[0].name, 2, display, st);
      assert [host.name] + [groups[0].name] == display;
      BranchParent(1, groups[0].name, [host.name]);
      BranchSegments(1, groups[0].name, display);
      RootedBelow(BranchRow(1, groups[0].name, display), DisplayRows(c, host.name, groups[0].name, 2, display, st), [host.name]);
      GroupsRooted(host, groups[1..], st);
      RootedConcat(GroupRows(host, groups[0], st), GroupsRows(host, groups[1..], st), {[host.name]});
    }
  }

  /** Every row below a host comes after the branch row of its parent. */
  lemma {:induction false} RowsRooted(schema: Schema, st: Status)
    ensures Rooted(Rows(schema, st), {[]})
  {
    hide Rooted, BranchRow, GroupsRows;
    if schema == [] {
      NothingRooted({[]});
    } else {
      var host := schema[0];
      GroupsRooted(host, host.groups, st);
      assert [] + [host.name] == [host.name];
      BranchParent(0, host.name, []);
      BranchSegments(0, host.name, [host.name]);
      RootedBelow(BranchRow(0, host.name, [host.name]), GroupsRows(host, host.groups, st), []);
      RowsRooted(schema[1..], st);
      RootedConcat([BranchRow(0, host.name, [host.name])] + GroupsRows(host, host.groups, st), Rows(schema[1..], st), {[]});
    }
  }
}
