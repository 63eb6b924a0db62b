/** One deployment root as a file system: nodes by path below the root, and the
    paths whose last change has not reached the disk. */
module Filesystem {
  import opened Prelude

  type Path = seq<string>

  datatype Content = Raw(bytes: Bytes) | Versions(versions: map<string, string>)

  /** A POSIX access ACL: the owning group's own permission, and the other entries. */
  datatype Acl = Acl(groupObject: nat, others: string)

  datatype Node =
    | Dir(mode: nat, owner: nat, group: nat, acl: Option<Acl>)
    | File(content: Content, owner: nat, group: nat, mode: nat, acl: Option<Acl>)
    | Link(target: Path)
    | Special

  datatype Disk = Disk(nodes: map<Path, Node>, dirty: set<Path>)

  /** Modes 0711 and 0700; roots and their directories belong to root. */
  const TRAVERSABLE := 0x1C9
  const PRIVATE := 0x1C0

  const STORE: Path := [".generations"]
  const CURRENT: Path := [".current"]
  const VERSIONS := ".versions.json"

  function RootDir(mode: nat): Node {
    Dir(mode, 0, 0, None)
  }

  function Lookup(d: Disk, p: Path): Option<Node> {
    if p in d.nodes then Some(d.nodes[p]) else None
  }

  function Parent(p: Path): Path
    requires p != []
  {
    p[..|p| - 1]
  }

  predicate Hidden(name: string) {
    name != [] && name[0] == '.'
  }

  predicate IsDir(d: Disk, p: Path) {
    p in d.nodes && d.nodes[p].Dir?
  }

  /** Every node lies in a directory, and only nodes are unsynced. */
  ghost predicate Closed(d: Disk) {
    IsDir(d, []) && d.dirty <= d.nodes.Keys
    && forall q :: q in d.nodes && q != [] ==> IsDir(d, Parent(q))
  }

  // ---- System calls -------------------------------------------------------

  function Create(d: Disk, p: Path, node: Node): Disk
    requires p != []
  {
    Disk(d.nodes[p := node], d.dirty + {p, Parent(p)})
  }

  function Symlink(d: Disk, p: Path, target: Path): Disk
    requires p != []
  {
    Disk(d.nodes[p := Link(target)], d.dirty + {Parent(p)})
  }

  function Unlink(d: Disk, p: Path): Disk
    requires p != []
  {
    Disk(d.nodes - {p}, d.dirty + {Parent(p)} - {p})
  }

  function Sync(d: Disk, p: Path): Disk {
    d.(dirty := d.dirty - {p})
  }

  function Chmod(d: Disk, p: Path, mode: nat): Disk
    requires IsDir(d, p)
  {
    var n := d.nodes[p];
    Disk(d.nodes[p := Dir(mode, n.owner, n.group, n.acl)], d.dirty + {p})
  }

  /** Moves the whole subtree at `from` to the unused path `to`. */
  function RenameTree(d: Disk, from: Path, to: Path): Disk
    requires from != [] && to != [] && !(from <= to) && !(to <= from)
  {
    Disk(map q | q in Moved(d.nodes.Keys, from, to) ::
           if to <= q && from + q[|to|..] in d.nodes then d.nodes[from + q[|to|..]]
           else if q in d.nodes then d.nodes[q] else Special,
         Moved(d.dirty, from, to) + {Parent(from), Parent(to)})
  }

  function Moved(paths: set<Path>, from: Path, to: Path): set<Path> {
    (set q | q in paths && !(from <= q) && !(to <= q))
    + (set q | q in paths && from <= q :: to + q[|from|..])
  }

  lemma MovedMember(paths: set<Path>, from: Path, to: Path, q: Path)
    requires !(from <= to) && !(to <= from)
    ensures q in Moved(paths, from, to) <==>
      if to <= q then from + q[|to|..] in paths else q in paths && !(from <= q)
  {
    if to <= q {
      var s := from + q[|to|..];
      assert s[|from|..] == q[|to|..];
      assert to + s[|from|..] == q;
      if q in Moved(paths, from, to) {
        var r :| r in paths && from <= r && q == to + r[|from|..];
        assert q[|to|..] == r[|from|..];
        assert r == from + r[|from|..];
      }
    } else {
      assert forall r :: r in paths && from <= r ==> to <= to + r[|from|..];
    }
  }

  lemma RenameTreeAt(d: Disk, from: Path, to: Path, q: Path)
    requires from != [] && to != [] && !(from <= to) && !(to <= from)
    ensures Lookup(RenameTree(d, from, to), q) ==
      if to <= q then Lookup(d, from + q[|to|..]) else if from <= q then None else Lookup(d, q)
    ensures q in RenameTree(d, from, to).dirty ==>
      if to <= q then from + q[|to|..] in d.dirty || q == Parent(from)
      else (q in d.dirty && !(from <= q)) || q == Parent(from) || q == Parent(to)
  {
    MovedMember(d.nodes.Keys, from, to, q);
    MovedMember(d.dirty, from, to, q);
  }

  /** Renames a symbolic link onto `to`, replacing what is there. */
  function RenameLink(d: Disk, from: Path, to: Path): Disk
    requires from != [] && to != [] && from in d.nodes
  {
    Disk((d.nodes - {from})[to := d.nodes[from]], d.dirty + {Parent(from), Parent(to)} - {from})
  }

  // ---- What consumers reach -----------------------------------------------

  function CurrentTarget(d: Disk): Option<Path> {
    if CURRENT in d.nodes && d.nodes[CURRENT].Link? then Some(d.nodes[CURRENT].target) else None
  }

  predicate Linked(d: Disk, service: string) {
    Lookup(d, [service]) == Some(Link([".current", service]))
  }

  /** What `root/p` resolves to through the service link and `.current`. */
  function Seen(d: Disk, p: Path): Option<Node>
    requires p != []
  {
    if Linked(d, p[0]) && CurrentTarget(d).Some? then Lookup(d, CurrentTarget(d).value + p) else None
  }

  /** The version map of the current generation; `None` if it is damaged. */
  function InstalledVersions(d: Disk): Option<map<string, string>> {
    match CurrentTarget(d)
    case None => Some(map[])
    case Some(t) =>
      match Lookup(d, t + [VERSIONS])
      case Some(File(Versions(v), _, _, _, _)) => Some(v)
      case _ => None
  }

  predicate GenerationName(id: string) {
    id != [] && !Hidden(id)
  }

  /** `.current` names a whole generation: a real directory of mode 0711 with
      its versions file, all of it on the disk, every service of it linked. */
  ghost predicate RootOk(d: Disk) {
    && Closed(d)
    && (CURRENT in d.nodes ==> d.nodes[CURRENT].Link?)
    && (CurrentTarget(d).Some? ==>
          var t := CurrentTarget(d).value;
          && |t| == 2 && t[0] == STORE[0] && GenerationName(t[1])
          && IsDir(d, t) && d.nodes[t].mode == TRAVERSABLE
          && InstalledVersions(d).Some?
          && (forall q :: q in d.dirty ==> !(t <= q))
          && (forall s :: t + [s] in d.nodes && !Hidden(s) ==> Linked(d, s)))
  }

  /** `d` differs from `d0` only below `h`. */
  ghost predicate Below(d0: Disk, d: Disk, h: Path) {
    && (forall q :: !(h <= q) ==> Lookup(d, q) == Lookup(d0, q))
    && (forall q :: q in d.dirty ==> q in d0.dirty || h <= q || q <= h)
  }

  /** Nothing a consumer reaches in `d0` has changed in `d`; links of services
      the current generation does not have may be new. */
  ghost predicate SameView(d0: Disk, d: Disk) {
    && Lookup(d, CURRENT) == Lookup(d0, CURRENT)
    && (forall s :: !Hidden(s) ==>
          Lookup(d, [s]) == Lookup(d0, [s])
          || (Lookup(d0, [s]).None? && Linked(d, s)))
    && (CurrentTarget(d0).Some? ==>
          forall q :: CurrentTarget(d0).value <= q ==>
            Lookup(d, q) == Lookup(d0, q) && (q in d.dirty ==> q in d0.dirty))
  }

  lemma SameViewTransitive(a: Disk, b: Disk, c: Disk)
    requires SameView(a, b) && SameView(b, c)
    ensures SameView(a, c)
  {
  }

  lemma {:induction false} ClosedPrefix(d: Disk, p: Path, q: Path)
    requires Closed(d) && q in d.nodes && p <= q
    ensures p in d.nodes && (p != q ==> d.nodes[p].Dir?)
    decreases |q|
  {
    if p != q {
      assert p <= Parent(q);
      ClosedPrefix(d, p, Parent(q));
    }
  }

  /** A view that has not changed shows the same nodes at every path, the same
      versions, and is still a whole generation. */
  lemma SameViewSeen(d0: Disk, d: Disk)
    requires RootOk(d0) && SameView(d0, d) && Closed(d)
    ensures RootOk(d) && InstalledVersions(d) == InstalledVersions(d0)
    ensures forall p | p != [] && !Hidden(p[0]) :: Seen(d, p) == Seen(d0, p)
  {
    assert CurrentTarget(d) == CurrentTarget(d0);
    if CurrentTarget(d0).Some? {
      var t := CurrentTarget(d0).value;
      assert t <= t && t <= t + [VERSIONS];
      assert Lookup(d, t) == Lookup(d0, t);
      assert Lookup(d, t + [VERSIONS]) == Lookup(d0, t + [VERSIONS]);
      forall s | t + [s] in d.nodes && !Hidden(s) ensures Linked(d, s) {
        assert t <= t + [s];
        assert Lookup(d, t + [s]) == Lookup(d0, t + [s]);
      }
      forall p | p != [] && !Hidden(p[0]) ensures Seen(d, p) == Seen(d0, p) {
        assert t <= t + p;
        assert Lookup(d, t + p) == Lookup(d0, t + p);
        if !Linked(d0, p[0]) && t + p in d0.nodes {
          assert t + [p[0]] <= t + p;
          ClosedPrefix(d0, t + [p[0]], t + p);
        }
      }
    }
  }

  /** Work inside the store, away from the current generation, is invisible. */
  lemma BelowSameView(d0: Disk, d: Disk, h: Path)
    requires RootOk(d0) && Below(d0, d, h) && |h| >= 2 && h[0] == STORE[0]
    requires CurrentTarget(d0).Some? ==> CurrentTarget(d0).value[1] != h[1]
    ensures SameView(d0, d)
  {
    assert !(h <= CURRENT);
    forall s ensures Lookup(d, [s]) == Lookup(d0, [s]) {
      assert !(h <= [s]);
    }
    if CurrentTarget(d0).Some? {
      var t := CurrentTarget(d0).value;
      forall q | t <= q ensures Lookup(d, q) == Lookup(d0, q) && (q in d.dirty ==> q in d0.dirty) {
        assert q[1] == t[1] != h[1];
        assert !(h <= q) && !(q <= h);
      }
    }
  }

  lemma BelowTransitive(a: Disk, b: Disk, c: Disk, h: Path)
    requires Below(a, b, h) && Below(b, c, h)
    ensures Below(a, c, h)
  {
  }
}
