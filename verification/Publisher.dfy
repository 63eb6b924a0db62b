/** The atomic generation publisher: validation of a batch, staging it over a
    copy of the current generation, and switching `.current` to the result. */
module Publisher {
  import opened Prelude
  import opened Filesystem
  import opened FsUtil

  datatype SecretClass = Setup | Service | Backup | PublicInfo

  datatype ResolvedSecret = ResolvedSecret(
    identifier: string, versionId: string, service: string, category: SecretClass, secret: string,
    contents: Bytes, owner: nat, group: nat, mode: nat)

  function Relative(s: ResolvedSecret): Path {
    match s.category
    case Setup => [s.service, "setup", s.secret]
    case Service => [s.service, "service", s.secret]
    case Backup => [s.service, "backup", s.secret]
    case PublicInfo => [s.service, s.secret]
  }

  // ---- validate.rs ----------------------------------------------------------

  predicate NameByte(c: char) {
    '0' <= c <= '9' || 'a' <= c <= 'z' || 'A' <= c <= 'Z' || c in "._-"
  }

  predicate ValidName(name: string) {
    0 < |name| <= 128 && (forall i :: 0 <= i < |name| ==> NameByte(name[i])) && name != "." && name != ".."
  }

  /** Modes 0400 and 0440 are the ones `validate_mode` lets through; public
      information has mode 0644. */
  predicate ValidMode(s: ResolvedSecret) {
    if s.category.PublicInfo? then s.mode == 0x1A4 else s.mode == 0x100 || s.mode == 0x120
  }

  /** Where each kind of value lies below its service; different values lie apart. */
  lemma RelativeExactly(s: ResolvedSecret, t: ResolvedSecret)
    ensures s.category == Setup ==> Relative(s) == [s.service, "setup", s.secret]
    ensures s.category == Service ==> Relative(s) == [s.service, "service", s.secret]
    ensures s.category == Backup ==> Relative(s) == [s.service, "backup", s.secret]
    ensures s.category == PublicInfo ==> Relative(s) == [s.service, s.secret]
    ensures Relative(s) == Relative(t) <==> s.service == t.service && s.category == t.category && s.secret == t.secret
  {
    var a, b := Relative(s), Relative(t);
    if a == b {
      assert |a| == |b| && a[0] == b[0] && a[|a| - 1] == b[|b| - 1] && a[1] == b[1];
      assert |"setup"| == 5 && |"service"| == 7 && |"backup"| == 6;
    }
  }

  predicate ValidSecret(s: ResolvedSecret) {
    ValidName(s.service) && ValidName(s.secret) && ValidMode(s) && s.identifier != [] && s.versionId != []
  }

  function Relatives(entries: seq<ResolvedSecret>): (r: seq<Path>)
    ensures |r| == |entries| && forall i :: 0 <= i < |r| ==> r[i] == Relative(entries[i])
  {
    seq(|entries|, i requires 0 <= i < |entries| => Relative(entries[i]))
  }

  ghost predicate ValidBatch(entries: seq<ResolvedSecret>) {
    entries != [] && NoDup(Relatives(entries))
    && forall e :: e in entries ==> ValidSecret(e)
  }

  /** Accepts exactly the non-empty batches of valid secrets with distinct
      destinations. */
  method Validate(entries: seq<ResolvedSecret>) returns (ok: bool)
    ensures ok <==> ValidBatch(entries)
  {
    hide ValidSecret, Relative;
    if entries == [] {
      return false;
    }
    var destinations: set<Path> := {};
    for i := 0 to |entries|
      invariant destinations == SetOf(Relatives(entries)[..i])
      invariant NoDup(Relatives(entries)[..i])
      invariant forall j :: 0 <= j < i ==> ValidSecret(entries[j])
    {
      if !ValidSecret(entries[i]) {
        assert entries[i] in entries;
        return false;
      }
      var relative := Relative(entries[i]);
      assert Relatives(entries)[..i + 1] == Relatives(entries)[..i] + [relative];
      if relative in destinations {
        var j :| 0 <= j < i && Relatives(entries)[j] == relative;
        assert Relatives(entries)[i] == relative;
        return false;
      }
      destinations := destinations + {relative};
    }
    assert Relatives(entries)[..|entries|] == Relatives(entries);
    ok := true;
  }

  // ---- The tree a deployment publishes ------------------------------------

  function GroupBits(mode: nat): nat {
    mode / 8 % 8
  }

  /** The mode without its group bits. */
  function OtherBits(mode: nat): nat {
    mode / 8 / 8 * 64 + mode % 8
  }

  /** The owning group's permission; under an ACL the group bits show its mask. */
  function GroupPermission(node: Node): nat
    requires node.File?
  {
    if node.acl.Some? then node.acl.value.groupObject else GroupBits(node.mode)
  }

  /** The file has these permissions for its owner, its group and others. */
  predicate Grants(node: Node, mode: nat) {
    node.File? && OtherBits(node.mode) == OtherBits(mode) && GroupPermission(node) == GroupBits(mode)
  }

  /** Without an ACL, those of exactly this mode; under one, those with the bits of the
      mode for the owner and others, and an entry for the group that has its group bits. */
  lemma GrantsMode(node: Node, mode: nat)
    ensures Grants(node, mode) <==>
      node.File?
      && if node.acl.None? then node.mode == mode
         else node.mode / 64 == mode / 64 && node.mode % 8 == mode % 8 && node.acl.value.groupObject == mode / 8 % 8
  {
    if node.File? {
      ModeBits(node.mode);
      ModeBits(mode);
      assert node.mode / 8 / 8 == node.mode / 64 && mode / 8 / 8 == mode / 64;
    }
  }

  lemma ModeBits(mode: nat)
    ensures mode == OtherBits(mode) + 8 * GroupBits(mode)
  {
    var q := mode / 8;
    assert mode == 8 * q + mode % 8 && q == 8 * (q / 8) + q % 8;
  }

  /** `unchanged_carried`. */
  predicate Keeps(node: Node, e: ResolvedSecret) {
    node.File? && node.content == Raw(e.contents) && node.owner == e.owner && node.group == e.group
    && Grants(node, e.mode)
  }

  /** A redeployed value that has not changed keeps its node and its readers. */
  function Installed(carried: Option<Node>, e: ResolvedSecret): Node {
    if carried.Some? && Keeps(carried.value, e) then carried.value
    else File(Raw(e.contents), e.owner, e.group, e.mode, None)
  }

  ghost function Staged(t: Tree, e: ResolvedSecret): Tree {
    (p: Path) =>
      if p == Relative(e) then Some(Installed(t(p), e))
      else if p != [] && p <= Relative(e) && t(p).None? then Some(RootDir(TRAVERSABLE))
      else t(p)
  }

  ghost function StagedAll(t: Tree, entries: seq<ResolvedSecret>): Tree {
    if entries == [] then t else Staged(StagedAll(t, entries[..|entries| - 1]), entries[|entries| - 1])
  }

  ghost predicate IsAbove(entries: seq<ResolvedSecret>, p: Path) {
    p != [] && exists e :: e in entries && p <= Relative(e)
  }

  /** `t` overlaid with exactly the batch; no order of the entries matters. */
  ghost predicate IsOverlay(t: Tree, entries: seq<ResolvedSecret>, p: Path, node: Option<Node>) {
    && (forall e :: e in entries && p == Relative(e) ==> node == Some(Installed(t(p), e)))
    && ((forall e :: e in entries ==> p != Relative(e)) ==>
          node == if IsAbove(entries, p) && t(p).None? then Some(RootDir(TRAVERSABLE)) else t(p))
  }

  /** Staging a batch with distinct destinations gives the overlay. */
  lemma {:induction false} StagedAllIsOverlay(t: Tree, entries: seq<ResolvedSecret>, p: Path)
    requires NoDup(Relatives(entries))
    ensures IsOverlay(t, entries, p, StagedAll(t, entries)(p))
    decreases |entries|
  {
    if entries != [] {
      var n := |entries| - 1;
      var init, last := entries[..n], entries[n];
      assert entries == init + [last];
      assert Relatives(init) == Relatives(entries)[..n];
      StagedAllIsOverlay(t, init, p);
      var u := StagedAll(t, init);
      assert forall e :: e in entries <==> e in init || e == last;
      if p == Relative(last) {
        forall e | e in init ensures Relative(e) != p {
          var i :| 0 <= i < n && entries[i] == e;
          assert Relatives(entries)[i] != Relatives(entries)[n];
        }
        assert Installed(u(p), last) == Installed(t(p), last);
        forall e | e in entries && p == Relative(e) ensures e == last {
        }
      } else {
        assert IsAbove(entries, p) <==> IsAbove(init, p) || (p != [] && p <= Relative(last));
      }
    }
  }

  /** The overlay is one tree, whatever the order of the batch. */
  lemma OverlayUnique(t: Tree, a: seq<ResolvedSecret>, b: seq<ResolvedSecret>, p: Path,
                      x: Option<Node>, y: Option<Node>)
    requires IsOverlay(t, a, p, x) && IsOverlay(t, b, p, y) && multiset(a) == multiset(b)
    ensures x == y
  {
    assert forall e :: e in a <==> e in multiset(a);
    assert forall e :: e in b <==> e in multiset(b);
  }

  // ---- Staging below one directory ----------------------------------------

  /** The directory `base` holds exactly the tree `t`. */
  ghost predicate Holds(d: Disk, base: Path, t: Tree) {
    forall p :: p != [] ==> Lookup(d, base + p) == t(p)
  }

  ghost function Parented(t: Tree, parts: Path): Tree {
    (p: Path) => if p != [] && p <= parts && t(p).None? then Some(RootDir(TRAVERSABLE)) else t(p)
  }

  /** Work on the staging directory `base` that led from `d0` to `d`. */
  ghost predicate Work(d0: Disk, t0: seq<Disk>, d: Disk, t: seq<Disk>, base: Path) {
    && Closed(d) && Below(d0, d, base) && Steps(t0, t, d0, base) && DirtyDirs(d0, d)
    && Lookup(d, base) == Lookup(d0, base)
  }

  lemma WorkThen(d0: Disk, t0: seq<Disk>, d1: Disk, t1: seq<Disk>, d2: Disk, t2: seq<Disk>, base: Path)
    requires Work(d0, t0, d1, t1, base) && Work(d1, t1, d2, t2, base)
    ensures Work(d0, t0, d2, t2, base)
  {
    BelowTransitive(d0, d1, d2, base);
    StepsThen(t0, t1, t2, d0, d1, base);
    DirtyDirsTransitive(d0, d1, d2);
  }

  lemma WorkNone(d: Disk, t: seq<Disk>, base: Path)
    requires Closed(d)
    ensures Work(d, t, d, t, base)
  {
  }

  /** Putting `node` at `base + p` changes the tree at `p` alone. */
  lemma HoldsUpdate(d: Disk, d': Disk, base: Path, t: Tree, t': Tree, p: Path, node: Node)
    requires Holds(d, base, t) && p != [] && d'.nodes == d.nodes[base + p := node]
    requires forall q :: q != [] ==> t'(q) == if q == p then Some(node) else t(q)
    ensures Holds(d', base, t')
  {
    forall q | q != [] ensures Lookup(d', base + q) == t'(q) {
      assert (base + q)[|base|..] == q && (base + p)[|base|..] == p;
    }
  }

  /** Every node of `t` on the way to `parts`, and there, is a directory. */
  ghost predicate Open(t: Tree, parts: Path) {
    forall p :: p != [] && p <= parts && t(p).Some? ==> t(p).value.Dir?
  }

  method CreateParents(v: Volume, base: Path, parts: Path, ghost t: Tree) returns (ok: bool)
    requires Closed(v.disk) && base != [] && IsDir(v.disk, base) && Holds(v.disk, base, t)
    modifies v
    ensures Work(old(v.disk), old(v.trace), v.disk, v.trace, base)
    ensures ok <==> Open(t, parts)
    ensures ok ==> Holds(v.disk, base, Parented(t, parts)) && IsDir(v.disk, base + parts)
  {
    hide Work, Holds, Closed;
    ghost var d0, t0 := v.disk, v.trace;
    WorkNone(d0, t0, base);
    ParentedNone(v.disk, base, t, parts);
    for i := 0 to |parts|
      invariant Work(d0, t0, v.disk, v.trace, base) && Closed(v.disk)
      invariant Holds(v.disk, base, Parented(t, parts[..i])) && IsDir(v.disk, base + parts[..i])
      invariant Open(t, parts[..i])
    {
      var cursor := base + parts[..i + 1];
      ghost var d1, t1 := v.disk, v.trace;
      assert Parent(cursor) == base + parts[..i];
      ParentFound(d1, base, t, parts, i);
      if cursor !in v.disk.nodes {
        var made := v.CreateDirectory(cursor, TRAVERSABLE, base);
        WorkOf(d1, t1, v.disk, v.trace, base);
        WorkThen(d0, t0, d1, t1, v.disk, v.trace, base);
      }
      if !IsDir(v.disk, cursor) {
        return false;
      }
      ParentedNext(d1, v.disk, base, t, parts, i);
      WorkClosed(d0, t0, v.disk, v.trace, base);
    }
    assert parts[..|parts|] == parts;
    ok := true;
  }

  lemma ParentFound(d: Disk, base: Path, t: Tree, parts: Path, i: nat)
    requires i < |parts| && Holds(d, base, Parented(t, parts[..i])) && Open(t, parts[..i])
    ensures Lookup(d, base + parts[..i + 1]) == t(parts[..i + 1])
    ensures Open(t, parts[..i + 1]) <==> t(parts[..i + 1]).Some? ==> t(parts[..i + 1]).value.Dir?
    ensures Open(t, parts) ==> Open(t, parts[..i + 1])
  {
    var p := parts[..i + 1];
    assert Lookup(d, base + p) == Parented(t, parts[..i])(p);
    forall q | q != [] && q <= p && t(q).Some? ensures q <= parts && (q == p || q <= parts[..i]) {
    }
    forall q | q != [] && q <= parts[..i] && t(q).Some? ensures q <= p {
    }
  }

  lemma WorkClosed(d0: Disk, t0: seq<Disk>, d: Disk, t: seq<Disk>, base: Path)
    requires Work(d0, t0, d, t, base)
    ensures Closed(d) && Lookup(d, base) == Lookup(d0, base)
  {
  }

  lemma WorkOf(d0: Disk, t0: seq<Disk>, d: Disk, t: seq<Disk>, base: Path)
    requires Closed(d) && Below(d0, d, base) && Steps(t0, t, d0, base) && DirtyDirs(d0, d)
    requires Lookup(d, base) == Lookup(d0, base)
    ensures Work(d0, t0, d, t, base)
  {
  }

  lemma ParentedNone(d: Disk, base: Path, t: Tree, parts: Path)
    requires Holds(d, base, t) && IsDir(d, base)
    ensures Holds(d, base, Parented(t, parts[..0])) && IsDir(d, base + parts[..0])
  {
    assert base + parts[..0] == base;
  }

  lemma ParentedNext(d: Disk, d': Disk, base: Path, t: Tree, parts: Path, i: nat)
    requires i < |parts| && Holds(d, base, Parented(t, parts[..i]))
    requires var cursor := base + parts[..i + 1];
      d'.nodes == if cursor in d.nodes then d.nodes else d.nodes[cursor := RootDir(TRAVERSABLE)]
    ensures Holds(d', base, Parented(t, parts[..i + 1]))
  {
    var p := parts[..i + 1];
    assert Lookup(d, base + p) == Parented(t, parts[..i])(p);
    forall q | q != [] ensures Lookup(d', base + q) == Parented(t, p)(q) {
      assert Lookup(d, base + q) == Parented(t, parts[..i])(q);
      assert (base + q)[|base|..] == q && (base + p)[|base|..] == p;
      assert q <= p <==> q <= parts[..i] || q == p;
    }
  }

  /** The entry finds directories above its place and no more than a file there. */
  ghost predicate Stageable(t: Tree, e: ResolvedSecret) {
    Open(t, Parent(Relative(e))) && (t(Relative(e)).Some? ==> t(Relative(e)).value.File?)
  }

  /** Installs one entry into the staged tree. */
  method StageOne(v: Volume, base: Path, e: ResolvedSecret, ghost t: Tree) returns (ok: bool)
    requires Closed(v.disk) && base != [] && IsDir(v.disk, base) && Holds(v.disk, base, t)
    modifies v
    ensures Work(old(v.disk), old(v.trace), v.disk, v.trace, base)
    ensures ok <==> Stageable(t, e)
    ensures ok ==> Holds(v.disk, base, Staged(t, e))
  {
    hide Work, Holds, Closed, Below, Steps, DirtyDirs, Open;
    var rel := Relative(e);
    ghost var d0, t0 := v.disk, v.trace;
    ok := CreateParents(v, base, Parent(rel), t);
    if !ok {
      return;
    }
    ghost var d1, t1 := v.disk, v.trace;
    WorkClosed(d0, t0, d1, t1, base);
    var path := base + rel;
    assert Parent(path) == base + Parent(rel);
    StagedAt(d1, base, t, e);
    if path in v.disk.nodes {
      var carried := v.disk.nodes[path];
      if Keeps(carried, e) {
        StagedUnchanged(d1, base, t, e);
        return true;
      }
      if !carried.File? {
        return false;
      }
      UnlinkWork(d1, t1, base, path);
      v.Do(Unlink(v.disk, path));
      WorkThen(d0, t0, d1, t1, v.disk, v.trace, base);
    }
    ghost var d2, t2 := v.disk, v.trace;
    WorkClosed(d0, t0, d2, t2, base);
    var node := File(Raw(e.contents), e.owner, e.group, e.mode, None);
    v.WriteFile(path, node, base);
    WorkOf(d2, t2, v.disk, v.trace, base);
    WorkThen(d0, t0, d2, t2, v.disk, v.trace, base);
    StagedNew(d1, v.disk, base, t, e, node);
  }

  lemma StagedAt(d: Disk, base: Path, t: Tree, e: ResolvedSecret)
    requires Holds(d, base, Parented(t, Parent(Relative(e))))
    ensures Lookup(d, base + Relative(e)) == t(Relative(e))
  {
  }

  lemma StagedUnchanged(d: Disk, base: Path, t: Tree, e: ResolvedSecret)
    requires Holds(d, base, Parented(t, Parent(Relative(e))))
    requires t(Relative(e)).Some? && Installed(t(Relative(e)), e) == t(Relative(e)).value
    ensures Holds(d, base, Staged(t, e))
  {
    ParentedStaged(t, e);
  }

  lemma ParentedStaged(t: Tree, e: ResolvedSecret)
    ensures forall p :: p != [] && p != Relative(e) ==> Parented(t, Parent(Relative(e)))(p) == Staged(t, e)(p)
  {
    var rel := Relative(e);
    forall p: Path | p != [] && p != rel ensures Parented(t, Parent(rel))(p) == Staged(t, e)(p) {
      assert p <= rel <==> p <= Parent(rel);
    }
  }

  lemma StagedNew(d: Disk, d': Disk, base: Path, t: Tree, e: ResolvedSecret, node: Node)
    requires Holds(d, base, Parented(t, Parent(Relative(e))))
    requires d'.nodes == d.nodes[base + Relative(e) := node] && node == Installed(t(Relative(e)), e)
    ensures Holds(d', base, Staged(t, e))
  {
    ParentedStaged(t, e);
    HoldsUpdate(d, d', base, Parented(t, Parent(Relative(e))), Staged(t, e), Relative(e), node);
  }

  lemma UnlinkWork(d: Disk, t: seq<Disk>, base: Path, path: Path)
    requires Closed(d) && base <= path && path != base && path in d.nodes && d.nodes[path].File?
    ensures Work(d, t, Unlink(d, path), t + [Unlink(d, path)], base)
    ensures IsDir(Unlink(d, path), Parent(path))
  {
    hide Closed;
    var d' := Unlink(d, path);
    UnlinkClosed(d, path);
    assert base <= Parent(path);
    forall q | !(base <= q) ensures Lookup(d', q) == Lookup(d, q) {
      assert q != path;
    }
  }

  lemma UnlinkClosed(d: Disk, path: Path)
    requires Closed(d) && path != [] && path in d.nodes && d.nodes[path].File?
    ensures Closed(Unlink(d, path)) && IsDir(Unlink(d, path), Parent(path))
  {
    var d' := Unlink(d, path);
    forall q | q in d'.nodes && q != [] ensures IsDir(d', Parent(q)) {
      assert IsDir(d, Parent(q)) && Parent(q) != path;
    }
    assert IsDir(d, Parent(path)) && Parent(path) != path;
  }

  /** Each entry can be staged over those before it. */
  ghost predicate StageableAll(t: Tree, entries: seq<ResolvedSecret>) {
    forall i :: 0 <= i < |entries| ==> Stageable(StagedAll(t, entries[..i]), entries[i])
  }

  /** Every destination of the batch can be staged over `t`: it is free or a file,
      what lies above it is free or a directory, and no other destination. */
  ghost predicate Fits(t: Tree, entries: seq<ResolvedSecret>) {
    forall e :: e in entries ==>
      Stageable(t, e) && forall f :: f in entries ==> !(Relative(f) <= Parent(Relative(e)))
  }

  /** One entry after the others can be staged exactly when it can be staged over
      `t` and lies neither above nor below one of them. */
  lemma StageableAfter(t: Tree, init: seq<ResolvedSecret>, e: ResolvedSecret)
    requires NoDup(Relatives(init)) && Fits(t, init) && forall f :: f in init ==> Relative(f) != Relative(e)
    ensures Stageable(StagedAll(t, init), e) <==>
      Stageable(t, e)
      && forall f :: f in init ==> !(Relative(f) <= Parent(Relative(e))) && !(Relative(e) <= Parent(Relative(f)))
  {
    hide StagedAll, Relative;
    var u, rel := StagedAll(t, init), Relative(e);
    assert rel != [] by { RelativeLong(e); }
    forall p ensures IsOverlay(t, init, p, u(p)) {
      StagedAllIsOverlay(t, init, p);
    }
    RelativesLong(init);
    if Stageable(u, e) {
      forall f | f in init ensures !(Relative(f) <= Parent(rel)) {
        assert IsOverlay(t, init, Relative(f), u(Relative(f)));
      }
      assert IsOverlay(t, init, rel, u(rel));
      if t(rel).None? {
        assert !IsAbove(init, rel);
      }
      forall f | f in init ensures !(rel <= Parent(Relative(f))) {
        assert Stageable(t, f);
        assert rel <= Parent(Relative(f)) ==> rel <= Relative(f);
      }
      forall p | p != [] && p <= Parent(rel) && t(p).Some? ensures t(p).value.Dir? {
        assert IsOverlay(t, init, p, u(p));
      }
    }
    if Stageable(t, e)
       && forall f :: f in init ==> !(Relative(f) <= Parent(rel)) && !(rel <= Parent(Relative(f))) {
      forall p | p != [] && p <= Parent(rel) && u(p).Some? ensures u(p).value.Dir? {
        assert IsOverlay(t, init, p, u(p));
      }
      assert IsOverlay(t, init, rel, u(rel));
      forall f | f in init ensures !(rel <= Relative(f)) {
        assert rel <= Relative(f) ==> rel <= Parent(Relative(f));
      }
    }
  }

  lemma RelativeLong(e: ResolvedSecret)
    ensures |Relative(e)| >= 2
  {
  }

  lemma RelativesLong(entries: seq<ResolvedSecret>)
    ensures forall e :: e in entries ==> |Relative(e)| >= 2
  {
  }

  lemma FitsSnoc(t: Tree, init: seq<ResolvedSecret>, last: ResolvedSecret)
    ensures Fits(t, init + [last]) <==>
      Fits(t, init) && Stageable(t, last)
      && forall f :: f in init ==>
           !(Relative(f) <= Parent(Relative(last))) && !(Relative(last) <= Parent(Relative(f)))
  {
    hide Relative, Stageable;
    RelativeLong(last);
    RelativesLong(init);
    assert forall e :: e in init + [last] <==> e in init || e == last;
  }

  lemma LastDistinct(init: seq<ResolvedSecret>, last: ResolvedSecret)
    requires NoDup(Relatives(init + [last]))
    ensures NoDup(Relatives(init)) && forall f :: f in init ==> Relative(f) != Relative(last)
  {
    hide Relative;
    var all := Relatives(init + [last]);
    assert Relatives(init) == all[..|init|];
    forall f | f in init ensures Relative(f) != Relative(last) {
      var i :| 0 <= i < |init| && init[i] == f;
      assert all[i] != all[|init|];
    }
  }

  lemma StageableSnoc(t: Tree, init: seq<ResolvedSecret>, last: ResolvedSecret)
    ensures StageableAll(t, init + [last]) <==> StageableAll(t, init) && Stageable(StagedAll(t, init), last)
  {
    hide StagedAll, Stageable;
    var all := init + [last];
    assert forall i :: 0 <= i < |init| ==> all[..i] == init[..i] && all[i] == init[i];
    assert all[..|init|] == init && all[|init|] == last;
  }

  /** A batch with distinct destinations can be staged exactly when it fits. */
  lemma {:induction false} FitsExactly(t: Tree, entries: seq<ResolvedSecret>)
    requires NoDup(Relatives(entries))
    ensures StageableAll(t, entries) <==> Fits(t, entries)
    decreases |entries|
  {
    hide StagedAll, Relative, Stageable, StageableAll, Fits, NoDup;
    if entries == [] {
      NothingFits(t);
    } else {
      var init, last := entries[..|entries| - 1], entries[|entries| - 1];
      assert entries == init + [last];
      LastDistinct(init, last);
      FitsExactly(t, init);
      if Fits(t, init) { StageableAfter(t, init, last); }
      StageableSnoc(t, init, last);
      FitsSnoc(t, init, last);
    }
  }

  lemma NothingFits(t: Tree)
    ensures Fits(t, []) && StageableAll(t, [])
  {
  }

  /** Stages every entry of the batch, in its order. */
  method StageEntries(v: Volume, base: Path, entries: seq<ResolvedSecret>, ghost t: Tree)
    returns (ok: bool)
    requires Closed(v.disk) && base != [] && IsDir(v.disk, base) && Holds(v.disk, base, t)
    modifies v
    ensures Work(old(v.disk), old(v.trace), v.disk, v.trace, base)
    ensures ok <==> StageableAll(t, entries)
    ensures ok ==> Holds(v.disk, base, StagedAll(t, entries))
  {
    hide Work, Holds, Closed, StagedAll, Staged, Stageable;
    ghost var d0, t0 := v.disk, v.trace;
    WorkNone(d0, t0, base);
    StagedNone(t, entries);
    for i := 0 to |entries|
      invariant Work(d0, t0, v.disk, v.trace, base) && Closed(v.disk) && IsDir(v.disk, base)
      invariant Holds(v.disk, base, StagedAll(t, entries[..i]))
      invariant forall j :: 0 <= j < i ==> Stageable(StagedAll(t, entries[..j]), entries[j])
    {
      ghost var d1, t1 := v.disk, v.trace;
      var staged := StageOne(v, base, entries[i], StagedAll(t, entries[..i]));
      WorkThen(d0, t0, d1, t1, v.disk, v.trace, base);
      WorkClosed(d0, t0, v.disk, v.trace, base);
      if !staged {
        return false;
      }
      StagedNext(t, entries, i);
    }
    assert entries[..|entries|] == entries;
    ok := true;
  }

  lemma StagedNone(t: Tree, entries: seq<ResolvedSecret>)
    ensures StagedAll(t, entries[..0]) == t
  {
  }

  lemma StagedNext(t: Tree, entries: seq<ResolvedSecret>, i: nat)
    requires i < |entries|
    ensures StagedAll(t, entries[..i + 1]) == Staged(StagedAll(t, entries[..i]), entries[i])
  {
    assert entries[..i + 1][..i] == entries[..i];
  }
}
