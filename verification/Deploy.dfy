/** `Deployer::deploy_inner`: what consumers see at every moment of one
    deployment into a root. */
module Deploy {
  import opened Prelude
  import opened Ordered
  import opened Filesystem
  import opened FsUtil
  import opened Publisher

  function Staging(id: string): Path {
    [STORE[0], ".staging-" + id]
  }

  function Generation(id: string): Path {
    [STORE[0], id]
  }

  function Pending(id: string): Path {
    [".current-" + id]
  }

  function BatchVersions(versions: map<string, string>, entries: seq<ResolvedSecret>): map<string, string> {
    if entries == [] then versions
    else
      var e := entries[|entries| - 1];
      BatchVersions(versions, entries[..|entries| - 1])[e.identifier := e.versionId]
  }

  predicate NamesId(entries: seq<ResolvedSecret>, id: string) {
    exists i :: 0 <= i < |entries| && entries[i].identifier == id
  }

  /** Entry `i` names `id`, and no later entry does. */
  predicate IsLast(entries: seq<ResolvedSecret>, i: nat, id: string) {
    i < |entries| && entries[i].identifier == id && forall j :: i < j < |entries| ==> entries[j].identifier != id
  }

  /** The version of `id` after the batch: of its last entry if the batch names it,
      as before otherwise. */
  ghost predicate UpdatedAt(before: map<string, string>, entries: seq<ResolvedSecret>, after: map<string, string>, id: string) {
    && (id in after <==> id in before || NamesId(entries, id))
    && (forall i: nat :: IsLast(entries, i, id) ==> id in after && after[id] == entries[i].versionId)
    && (id in before && !NamesId(entries, id) ==> after[id] == before[id])
  }

  ghost predicate Updated(before: map<string, string>, entries: seq<ResolvedSecret>, after: map<string, string>) {
    forall id :: UpdatedAt(before, entries, after, id)
  }

  lemma {:induction false} BatchVersionAt(before: map<string, string>, entries: seq<ResolvedSecret>, id: string)
    ensures UpdatedAt(before, entries, BatchVersions(before, entries), id)
    ensures NamesId(entries, id) ==> exists i: nat :: IsLast(entries, i, id)
  {
    if entries != [] {
      var n := |entries| - 1;
      var init, e := entries[..n], entries[n];
      BatchVersionAt(before, init, id);
      if e.identifier == id {
        assert IsLast(entries, n, id) && entries[n].identifier == id;
        forall i: nat | IsLast(entries, i, id) ensures i == n {
        }
      } else {
        assert NamesId(entries, id) <==> NamesId(init, id);
        forall i: nat ensures IsLast(entries, i, id) <==> IsLast(init, i, id) {
        }
      }
    }
  }

  lemma BatchVersionsUpdate(before: map<string, string>, entries: seq<ResolvedSecret>)
    ensures Updated(before, entries, BatchVersions(before, entries))
  {
    forall id ensures UpdatedAt(before, entries, BatchVersions(before, entries), id) {
      BatchVersionAt(before, entries, id);
    }
  }

  /** Nothing else is a version map after the batch. */
  lemma UpdatedOnce(before: map<string, string>, entries: seq<ResolvedSecret>, a: map<string, string>, b: map<string, string>)
    requires Updated(before, entries, a) && Updated(before, entries, b)
    ensures a == b
  {
    forall id ensures id in a <==> id in b ensures id in a ==> a[id] == b[id] {
      assert UpdatedAt(before, entries, a, id) && UpdatedAt(before, entries, b, id);
      BatchVersionAt(before, entries, id);
    }
  }

  /** The loop of `stage_versions`. */
  method NextVersions(versions: map<string, string>, entries: seq<ResolvedSecret>) returns (r: map<string, string>)
    ensures r == BatchVersions(versions, entries) && Updated(versions, entries, r)
  {
    hide Updated;
    r := versions;
    for i := 0 to |entries|
      invariant r == BatchVersions(versions, entries[..i])
    {
      assert entries[..i + 1][..i] == entries[..i];
      r := r[entries[i].identifier := entries[i].versionId];
    }
    assert entries[..|entries|] == entries;
    BatchVersionsUpdate(versions, entries);
  }

  function VersionsFile(versions: map<string, string>): Node {
    File(Versions(versions), 0, 0, 0x180, None)
  }

  /** The generation that deploying `entries` over the root `d` publishes. */
  ghost function NewTree(d: Disk, entries: seq<ResolvedSecret>): Tree
    requires InstalledVersions(d).Some?
  {
    (p: Path) =>
      if p == [VERSIONS] then Some(VersionsFile(BatchVersions(InstalledVersions(d).value, entries)))
      else StagedAll(Carried(d, CurrentTarget(d)), entries)(p)
  }

  /** `after` continues `before` with states that all show what `d0` shows. */
  ghost predicate Views(before: seq<Disk>, after: seq<Disk>, d0: Disk) {
    before <= after && forall i :: |before| <= i < |after| ==> SameView(d0, after[i]) && Closed(after[i])
  }

  lemma ViewsStep(t0: seq<Disk>, t: seq<Disk>, d0: Disk, d: Disk)
    requires Views(t0, t, d0) && SameView(d0, d) && Closed(d)
    ensures Views(t0, t + [d], d0)
  {
  }

  lemma ViewsSteps(t0: seq<Disk>, t1: seq<Disk>, t2: seq<Disk>, d0: Disk, d1: Disk, d2: Disk, h: Path)
    requires RootOk(d0) && Views(t0, t1, d0) && SameView(d0, d1) && Closed(d1)
    requires Steps(t1, t2, d1, h) && Below(d1, d2, h) && |h| >= 2 && h[0] == STORE[0]
    requires CurrentTarget(d0).Some? ==> CurrentTarget(d0).value[1] != h[1]
    ensures Views(t0, t2, d0) && SameView(d0, d2)
  {
    hide SameView, Below, Closed, RootOk;
    SameViewRoot(d0, d1);
    BelowSameView(d1, d2, h);
    SameViewTransitive(d0, d1, d2);
    forall i | |t0| <= i < |t2| ensures SameView(d0, t2[i]) && Closed(t2[i]) {
      if i < |t1| {
        assert t2[i] == t1[i];
      } else {
        BelowSameView(d1, t2[i], h);
        SameViewTransitive(d0, d1, t2[i]);
      }
    }
  }

  lemma SameViewRoot(d0: Disk, d: Disk)
    requires RootOk(d0) && SameView(d0, d) && Closed(d)
    ensures RootOk(d) && CurrentTarget(d) == CurrentTarget(d0)
  {
    SameViewSeen(d0, d);
  }

  predicate StoreFree(d: Disk) {
    STORE in d.nodes ==> IsDir(d, STORE)
  }

  ghost predicate OnlyStore(d0: Disk, d: Disk) {
    forall q :: q != STORE ==> Lookup(d, q) == Lookup(d0, q)
  }

  lemma StagingFree(d0: Disk, d: Disk, id: string)
    requires OnlyStore(d0, d)
    ensures Staging(id) in d.nodes <==> Staging(id) in d0.nodes
  {
    assert |Staging(id)| != |STORE|;
    assert Lookup(d, Staging(id)) == Lookup(d0, Staging(id));
  }

  /** Nothing outside the staging directory has changed, except the store's mode. */
  ghost predicate Elsewhere(d0: Disk, d: Disk, id: string) {
    forall q :: q != STORE && !(Staging(id) <= q) ==> Lookup(d, q) == Lookup(d0, q)
  }

  /** The batch can be staged over the current generation. */
  ghost predicate StageOk(d: Disk, entries: seq<ResolvedSecret>, id: string) {
    StoreFree(d) && Staging(id) !in d.nodes
    && (CurrentTarget(d).Some? ==> Plain(d, CurrentTarget(d).value, {VERSIONS}))
    && Fits(Carried(d, CurrentTarget(d)), entries)
  }

  /** Makes `.generations` a directory of mode 0711. */
  method PrepareStore(v: Volume) returns (ok: bool)
    requires RootOk(v.disk)
    modifies v
    ensures Views(old(v.trace), v.trace, old(v.disk)) && SameView(old(v.disk), v.disk) && Closed(v.disk)
    ensures ok <==> StoreFree(old(v.disk))
    ensures ok ==> IsDir(v.disk, STORE)
    ensures OnlyStore(old(v.disk), v.disk)
  {
    ghost var d0, t0 := v.disk, v.trace;
    if STORE !in v.disk.nodes {
      NoStoreNoCurrent(d0);
      ok := v.CreateDirectory(STORE, TRAVERSABLE, STORE);
      forall d | Below(d0, d, STORE) ensures SameView(d0, d) {
        StoreSameView(d0, d);
      }
      if !ok {
        return;
      }
    }
    if !IsDir(v.disk, STORE) {
      return false;
    }
    ghost var d1 := v.disk;
    SameViewRoot(d0, d1);
    ChmodStore(d1);
    SameViewTransitive(d0, d1, Chmod(d1, STORE, TRAVERSABLE));
    ViewsStep(t0, v.trace, d0, Chmod(d1, STORE, TRAVERSABLE));
    v.Do(Chmod(v.disk, STORE, TRAVERSABLE));
    ok := true;
  }

  lemma NoStoreNoCurrent(d: Disk)
    requires RootOk(d) && STORE !in d.nodes
    ensures CurrentTarget(d).None?
  {
    if CurrentTarget(d).Some? {
      var t := CurrentTarget(d).value;
      assert STORE <= t;
      ClosedPrefix(d, STORE, t);
    }
  }

  lemma StoreSameView(d0: Disk, d: Disk)
    requires Below(d0, d, STORE) && CurrentTarget(d0).None?
    ensures SameView(d0, d)
  {
    forall s | !Hidden(s) ensures Lookup(d, [s]) == Lookup(d0, [s]) {
      assert [s][0] != STORE[0];
    }
    assert STORE[0][1] == 'g' && CURRENT[0][1] == 'c';
  }

  lemma ChmodStore(d: Disk)
    requires RootOk(d) && IsDir(d, STORE)
    ensures SameView(d, Chmod(d, STORE, TRAVERSABLE)) && Closed(Chmod(d, STORE, TRAVERSABLE))
  {
    assert forall s :: !Hidden(s) ==> [s] != STORE;
  }

  /** Everything up to the synced staging directory. */
  method Stage(v: Volume, entries: seq<ResolvedSecret>, id: string) returns (ok: bool)
    requires RootOk(v.disk) && GenerationName(id) && NoDup(Relatives(entries))
    requires forall e :: e in entries ==> !Hidden(e.service)
    modifies v
    ensures Views(old(v.trace), v.trace, old(v.disk)) && SameView(old(v.disk), v.disk) && Closed(v.disk)
    ensures ok <==> StageOk(old(v.disk), entries, id)
    ensures ok ==> Elsewhere(old(v.disk), v.disk, id)
    ensures ok ==> IsDir(v.disk, STORE) && IsDir(v.disk, Staging(id))
    ensures ok ==> Holds(v.disk, Staging(id), NewTree(old(v.disk), entries))
    ensures ok ==> forall q :: q in v.disk.dirty ==> !(Staging(id) <= q)
  {
    hide RootOk, Closed, SameView, Views, Below, Steps, Holds, Work, DirtyDirs, NewTree, Carried, Plain,
      StagedAll, Fits, StageableAll, Elsewhere, StoreFree, OnlyStore, Updated;
    ghost var d0, t0 := v.disk, v.trace;
    ok := PrepareStore(v);
    if !ok {
      return;
    }
    ghost var d1, t1 := v.disk, v.trace;
    SameViewRoot(d0, d1);
    RootParts(d0);
    RootParts(d1);
    var base := Staging(id);
    assert Parent(base) == STORE;
    ok := v.CreateDirectory(base, PRIVATE, base);
    ghost var d2, t2 := v.disk, v.trace;
    StagingApart(d0, id);
    StagingFree(d0, d1, id);
    ViewsSteps(t0, t1, t2, d0, d1, d2, base);
    if !ok {
      return;
    }
    SameViewRoot(d0, d2);
    RootParts(d2);
    FreshTree(d1, d2, base);
    ghost var tree := Carried(d0, CurrentTarget(d0));
    var target := CurrentTarget(v.disk);
    if target.Some? {
      PlainSame(d0, d2);
      ok := v.CloneTree(target.value, base);
      ghost var d3, t3 := v.disk, v.trace;
      WorkOf(d2, t2, d3, t3, base);
      if !ok {
        ViewsWork(t0, t2, t3, d0, d2, d3, base);
        return;
      }
      ClonedTree(d0, d2, d3, base);
    } else {
      NothingCarried(d0, d2, base);
      WorkNone(d2, t2, base);
    }
    ghost var d3, t3 := v.disk, v.trace;
    WorkClosed(d2, t2, d3, t3, base);
    FitsExactly(tree, entries);
    ok := StageEntries(v, base, entries, tree);
    ghost var d4, t4 := v.disk, v.trace;
    WorkThen(d2, t2, d3, t3, d4, t4, base);
    WorkClosed(d2, t2, d4, t4, base);
    ViewsWork(t0, t2, t4, d0, d2, d4, base);
    if !ok {
      return;
    }
    var versions := InstalledVersions(v.disk);
    SameVersions(d0, d4);
    NoVersionsYet(d0, d4, base, entries);
    assert Parent(base + [VERSIONS]) == base;
    var updated := NextVersions(versions.value, entries);
    v.WriteFile(base + [VERSIONS], VersionsFile(updated), base);
    ghost var d5, t5 := v.disk, v.trace;
    WorkOf(d4, t4, d5, t5, base);
    WorkThen(d2, t2, d4, t4, d5, t5, base);
    WorkClosed(d2, t2, d5, t5, base);
    ViewsWork(t0, t2, t5, d0, d2, d5, base);
    VersionsStaged(d0, d4, d5, base, entries, tree);
    StagedPlain(d0, d5, base, entries);
    ok := v.SyncTree(base);
    WorkBelow(d2, t2, d5, t5, base);
    ElsewhereChain(d0, d1, d2, d5, v.disk, id);
    ViewsSteps(t0, t5, v.trace, d0, d5, v.disk, base);
    SyncedTree(d2, t2, d5, t5, v.disk, base);
    SameTree(d5, v.disk, base, NewTree(d0, entries));
  }

  lemma PlainSame(d0: Disk, d: Disk)
    requires RootOk(d0) && SameView(d0, d) && CurrentTarget(d0).Some?
    ensures Plain(d, CurrentTarget(d0).value, {VERSIONS}) <==> Plain(d0, CurrentTarget(d0).value, {VERSIONS})
  {
    hide RootOk;
    var t := CurrentTarget(d0).value;
    forall p ensures Lookup(d, t + p) == Lookup(d0, t + p) {
      assert t <= t + p;
    }
  }

  /** The versions file is not carried over and no service has its name, so
      `create_new` finds its place free. */
  lemma NoVersionsYet(d0: Disk, d: Disk, base: Path, entries: seq<ResolvedSecret>)
    requires NoDup(Relatives(entries)) && forall e :: e in entries ==> !Hidden(e.service)
    requires Holds(d, base, StagedAll(Carried(d0, CurrentTarget(d0)), entries))
    ensures base + [VERSIONS] !in d.nodes
  {
    hide StagedAll;
    var t := Carried(d0, CurrentTarget(d0));
    StagedAllIsOverlay(t, entries, [VERSIONS]);
    assert t([VERSIONS]) == None;
    forall e | e in entries ensures !([VERSIONS] <= Relative(e)) {
      assert Relative(e)[0] == e.service && Hidden(VERSIONS);
    }
    assert Lookup(d, base + [VERSIONS]) == StagedAll(t, entries)([VERSIONS]);
  }

  /** A staged generation holds nothing but files and directories. */
  lemma StagedPlain(d0: Disk, d: Disk, base: Path, entries: seq<ResolvedSecret>)
    requires InstalledVersions(d0).Some? && NoDup(Relatives(entries)) && Holds(d, base, NewTree(d0, entries))
    requires CurrentTarget(d0).Some? ==> Plain(d0, CurrentTarget(d0).value, {VERSIONS})
    ensures Plain(d, base, {})
  {
    hide StagedAll;
    var t := Carried(d0, CurrentTarget(d0));
    forall p | p != [] && base + p in d.nodes ensures d.nodes[base + p].Dir? || d.nodes[base + p].File? {
      assert Lookup(d, base + p) == NewTree(d0, entries)(p);
      StagedAllIsOverlay(t, entries, p);
      CarriedPlain(d0, p);
    }
  }

  lemma CarriedPlain(d0: Disk, p: Path)
    requires CurrentTarget(d0).Some? ==> Plain(d0, CurrentTarget(d0).value, {VERSIONS})
    ensures
      var node := Carried(d0, CurrentTarget(d0))(p);
      p != [] && node.Some? ==> node.value.Dir? || node.value.File?
  {
  }

  lemma WorkBelow(d0: Disk, t0: seq<Disk>, d: Disk, t: seq<Disk>, base: Path)
    requires Work(d0, t0, d, t, base)
    ensures Below(d0, d, base)
  {
  }

  lemma ElsewhereChain(d0: Disk, d1: Disk, d2: Disk, d5: Disk, d6: Disk, id: string)
    requires OnlyStore(d0, d1)
    requires Below(d1, d2, Staging(id)) && Below(d2, d5, Staging(id)) && d6.nodes == d5.nodes
    ensures Elsewhere(d0, d6, id)
  {
  }

  lemma RootParts(d: Disk)
    requires RootOk(d)
    ensures Closed(d) && InstalledVersions(d).Some?
    ensures CurrentTarget(d).Some? ==>
      var t := CurrentTarget(d).value; |t| == 2 && t[0] == STORE[0] && GenerationName(t[1]) && IsDir(d, t)
  {
  }

  lemma StagingApart(d: Disk, id: string)
    requires RootOk(d)
    ensures CurrentTarget(d).Some? ==>
      var t := CurrentTarget(d).value;
      t[1] != Staging(id)[1] && !(t <= Staging(id)) && !(Staging(id) <= t)
  {
    assert Hidden(Staging(id)[1]);
  }

  /** The staging directory starts out empty and synced. */
  lemma FreshTree(d1: Disk, d2: Disk, base: Path)
    requires Closed(d1) && base !in d1.nodes && base != []
    requires d2.nodes == d1.nodes[base := RootDir(PRIVATE)]
    ensures forall q :: q in d2.nodes && base <= q ==> q == base
    ensures Holds(d2, base, (p: Path) => None)
  {
    forall q | q in d2.nodes && base <= q ensures q == base {
      if q != base {
        ClosedPrefix(d1, base, q);
      }
    }
    forall p | p != [] ensures Lookup(d2, base + p) == None {
      assert base <= base + p && base + p != base;
    }
  }

  lemma ViewsWork(t0: seq<Disk>, t1: seq<Disk>, t2: seq<Disk>, d0: Disk, d1: Disk, d2: Disk, h: Path)
    requires RootOk(d0) && Views(t0, t1, d0) && SameView(d0, d1) && Closed(d1)
    requires Work(d1, t1, d2, t2, h) && |h| >= 2 && h[0] == STORE[0]
    requires CurrentTarget(d0).Some? ==> CurrentTarget(d0).value[1] != h[1]
    ensures Views(t0, t2, d0) && SameView(d0, d2)
  {
    ViewsSteps(t0, t1, t2, d0, d1, d2, h);
  }

  lemma ClonedTree(d0: Disk, d2: Disk, d3: Disk, base: Path)
    requires RootOk(d0) && SameView(d0, d2) && CurrentTarget(d0).Some?
    requires forall p :: p != [] ==> Lookup(d3, base + p) == Carried(d2, CurrentTarget(d0))(p)
    ensures Holds(d3, base, Carried(d0, CurrentTarget(d0)))
  {
    var t := CurrentTarget(d0).value;
    forall p | p != [] ensures Lookup(d3, base + p) == Carried(d0, CurrentTarget(d0))(p) {
      assert t <= t + p;
      assert Lookup(d2, t + p) == Lookup(d0, t + p);
    }
  }

  lemma NothingCarried(d0: Disk, d2: Disk, base: Path)
    requires CurrentTarget(d0).None? && Holds(d2, base, (p: Path) => None)
    ensures Holds(d2, base, Carried(d0, CurrentTarget(d0)))
  {
  }

  lemma SameVersions(d0: Disk, d: Disk)
    requires RootOk(d0) && SameView(d0, d) && Closed(d)
    ensures InstalledVersions(d) == InstalledVersions(d0) && InstalledVersions(d0).Some?
  {
    SameViewSeen(d0, d);
  }

  lemma VersionsStaged(d0: Disk, d4: Disk, d5: Disk, base: Path, entries: seq<ResolvedSecret>, tree: Tree)
    requires InstalledVersions(d0).Some? && tree == Carried(d0, CurrentTarget(d0))
    requires Holds(d4, base, StagedAll(tree, entries))
    requires d5.nodes == d4.nodes[base + [VERSIONS] :=
                                    VersionsFile(BatchVersions(InstalledVersions(d0).value, entries))]
    ensures Holds(d5, base, NewTree(d0, entries))
  {
    HoldsUpdate(d4, d5, base, StagedAll(tree, entries), NewTree(d0, entries), [VERSIONS],
                VersionsFile(BatchVersions(InstalledVersions(d0).value, entries)));
  }

  /** After `sync_tree` nothing of the staged generation is unsynced: files were
      synced when written, and every directory is on the list. */
  lemma SyncedTree(d2: Disk, t2: seq<Disk>, d5: Disk, t5: seq<Disk>, d6: Disk, base: Path)
    requires Closed(d2) && Work(d2, t2, d5, t5, base)
    requires forall q :: q in d2.nodes && base <= q ==> q == base
    requires IsDir(d2, base) && d6.nodes == d5.nodes && d6.dirty <= d5.dirty
    ensures (forall q :: base <= q && q in d6.dirty ==> !IsDir(d6, q)) ==>
      forall q :: q in d6.dirty ==> !(base <= q)
    ensures IsDir(d6, base)
    ensures IsDir(d2, STORE) ==> IsDir(d6, STORE)
  {
    forall q | q in d5.dirty && base <= q ensures IsDir(d5, q) {
      if q in d2.dirty {
        assert q == base;
      }
    }
  }

  lemma SameTree(d5: Disk, d6: Disk, base: Path, t: Tree)
    requires d6.nodes == d5.nodes && Holds(d5, base, t)
    ensures Holds(d6, base, t)
  {
  }

  // ---- Publishing the staged generation -----------------------------------

  /** The synced generation `g` stands in the store of a root that still shows
      what `d0` shows. */
  ghost predicate Standing(d0: Disk, d: Disk, g: Path, t: Tree) {
    && SameView(d0, d) && Closed(d) && IsDir(d, g) && Holds(d, g, t)
    && forall q :: q in d.dirty ==> !(g <= q)
  }

  lemma RenamedStands(d0: Disk, d: Disk, id: string, t: Tree)
    requires RootOk(d0) && SameView(d0, d) && Closed(d) && IsDir(d, STORE) && IsDir(d, Staging(id))
    requires Holds(d, Staging(id), t) && GenerationName(id) && Generation(id) !in d.nodes
    requires forall q :: q in d.dirty ==> !(Staging(id) <= q)
    ensures Staging(id) != Generation(id) && !(Staging(id) <= Generation(id)) && !(Generation(id) <= Staging(id))
    ensures Standing(d0, RenameTree(d, Staging(id), Generation(id)), Generation(id), t)
  {
    hide RootOk, SameView, RenameTree;
    var from, to := Staging(id), Generation(id);
    assert Hidden(from[1]) && !Hidden(to[1]);
    var d' := RenameTree(d, from, to);
    SameViewRoot(d0, d);
    SameViewRoot(d0, d0) by { SelfSameView(d0); RootParts(d0); }
    forall q ensures Lookup(d', q) ==
      if to <= q then Lookup(d, from + q[|to|..]) else if from <= q then None else Lookup(d, q)
    ensures q in d'.dirty ==> !(to <= q) && (q in d.dirty || q == STORE) && q in d'.nodes
    {
      RenameTreeAt(d, from, to, q);
      if q in d'.dirty { RenamedDirty(d, id, q); }
    }
    RenamedClosed(d, d', id);
    RenamedSameView(d, d', id);
    SameViewTransitive(d0, d, d');
    forall p | p != [] ensures Lookup(d', to + p) == t(p) {
      assert (to + p)[|to|..] == p;
    }
    assert from + to[|to|..] == from;
  }

  lemma SelfSameView(d: Disk)
    ensures SameView(d, d)
  {
  }

  lemma RenamedDirty(d: Disk, id: string, q: Path)
    requires Closed(d) && IsDir(d, STORE) && GenerationName(id)
    requires forall q :: q in d.dirty ==> !(Staging(id) <= q)
    requires !(Staging(id) <= Generation(id)) && !(Generation(id) <= Staging(id))
    requires q in RenameTree(d, Staging(id), Generation(id)).dirty
    ensures !(Generation(id) <= q) && (q in d.dirty || q == STORE)
    ensures q in RenameTree(d, Staging(id), Generation(id)).nodes
  {
    var from, to := Staging(id), Generation(id);
    assert Parent(from) == STORE == Parent(to);
    RenameTreeAt(d, from, to, q);
    var r := if to <= q then from + q[|to|..] else q;
    assert to <= q ==> from <= r;
    assert !(to <= q) && !(from <= STORE);
    assert Lookup(RenameTree(d, from, to), q) == Lookup(d, q);
  }

  lemma RenamedClosed(d: Disk, d': Disk, id: string)
    requires Closed(d) && IsDir(d, STORE) && GenerationName(id)
    requires forall q ::
      Lookup(d', q) == if Generation(id) <= q then Lookup(d, Staging(id) + q[|Generation(id)|..])
                       else if Staging(id) <= q then None else Lookup(d, q)
    requires forall q :: q in d'.dirty ==> q in d'.nodes
    ensures Closed(d')
  {
    var from, to := Staging(id), Generation(id);
    assert !(to <= []) && !(from <= []) && Lookup(d', []) == Lookup(d, []);
    assert !(to <= STORE) && !(from <= STORE) && Lookup(d', STORE) == Lookup(d, STORE);
    forall q | q in d'.nodes && q != [] ensures IsDir(d', Parent(q)) {
      if q == to {
        assert Parent(q) == STORE;
      } else if to <= q {
        var r := from + q[|to|..];
        assert Lookup(d, r) == Lookup(d', q);
        assert to <= Parent(q) && Parent(r) == from + Parent(q)[|to|..];
        assert Lookup(d', Parent(q)) == Lookup(d, Parent(r));
      } else {
        assert Lookup(d, q) == Lookup(d', q);
        assert !(to <= Parent(q)) && !(from <= Parent(q));
        assert Lookup(d', Parent(q)) == Lookup(d, Parent(q));
      }
    }
  }

  lemma RenamedSameView(d: Disk, d': Disk, id: string)
    requires RootOk(d) && GenerationName(id) && Generation(id) !in d.nodes
    requires forall q ::
      Lookup(d', q) == if Generation(id) <= q then Lookup(d, Staging(id) + q[|Generation(id)|..])
                       else if Staging(id) <= q then None else Lookup(d, q)
    requires forall q :: q in d'.dirty ==> q in d.dirty || q == STORE
    ensures SameView(d, d')
  {
    var from, to := Staging(id), Generation(id);
    assert !(to <= CURRENT) && !(from <= CURRENT);
    forall s ensures Lookup(d', [s]) == Lookup(d, [s]) {
      assert !(to <= [s]) && !(from <= [s]);
    }
    if CurrentTarget(d).Some? {
      var t := CurrentTarget(d).value;
      StagingApart(d, id);
      forall q | t <= q ensures Lookup(d', q) == Lookup(d, q) && (q in d'.dirty ==> q in d.dirty) {
        assert t == [t[0], t[1]] && t[1] != id;
        assert q[1] == t[1] && !(to <= q) && !(from <= q);
        assert |q| >= 2 && |STORE| == 1;
      }
    }
  }

  /** A step that leaves the generation and the view alone. */
  lemma StandingStep(d0: Disk, d: Disk, d': Disk, g: Path, t: Tree)
    requires Standing(d0, d, g, t) && SameView(d, d') && Closed(d')
    requires forall q :: g <= q ==> Lookup(d', q) == Lookup(d, q) && q !in d'.dirty
    ensures Standing(d0, d', g, t)
  {
    SameViewTransitive(d0, d, d');
    assert Lookup(d', g) == Lookup(d, g);
    forall p | p != [] ensures Lookup(d', g + p) == t(p) {
      assert g <= g + p;
      assert Lookup(d, g + p) == t(p);
    }
  }

  lemma SyncStands(d0: Disk, d: Disk, g: Path, t: Tree, p: Path)
    requires Standing(d0, d, g, t)
    ensures Standing(d0, Sync(d, p), g, t)
  {
    StandingStep(d0, d, Sync(d, p), g, t);
  }

  lemma LinkStands(d0: Disk, d: Disk, id: string, t: Tree, p: Path, target: Path)
    requires RootOk(d0) && Standing(d0, d, Generation(id), t)
    requires |p| == 1 && p !in d.nodes && p != CURRENT
    requires !Hidden(p[0]) ==> target == [".current", p[0]]
    ensures Standing(d0, Symlink(d, p, target), Generation(id), t)
  {
    var d' := Symlink(d, p, target);
    assert Parent(p) == [];
    SameViewRoot(d0, d);
    forall s | !Hidden(s)
      ensures Lookup(d', [s]) == Lookup(d, [s]) || (Lookup(d, [s]).None? && Linked(d', s))
    {
      if [s] == p {
        assert p == [p[0]];
      }
    }
    assert SameView(d, d');
    LinkClosed(d, p, target);
    StandingStep(d0, d, d', Generation(id), t);
  }

  lemma LinkClosed(d: Disk, p: Path, target: Path)
    requires Closed(d) && |p| == 1 && p !in d.nodes
    ensures Closed(Symlink(d, p, target))
  {
    var d' := Symlink(d, p, target);
    assert Parent(p) == [];
    forall q | q in d'.nodes && q != [] ensures IsDir(d', Parent(q)) {
      assert q == p || IsDir(d, Parent(q));
    }
  }

  /** The service's link is there already, or nothing is. */
  predicate LinkFree(d: Disk, service: string) {
    Lookup(d, [service]).None? || Linked(d, service)
  }

  ghost predicate LinksFree(d: Disk, entries: seq<ResolvedSecret>) {
    forall e :: e in entries ==> LinkFree(d, e.service)
  }

  /** Links every service of the batch to `.current`. */
  method PrepareServiceLinks(v: Volume, entries: seq<ResolvedSecret>, id: string,
                             ghost d0: Disk, ghost t0: seq<Disk>, ghost t: Tree)
    returns (ok: bool)
    requires RootOk(d0) && Standing(d0, v.disk, Generation(id), t) && Views(t0, v.trace, d0)
    requires forall e :: e in entries ==> !Hidden(e.service)
    modifies v
    ensures Standing(d0, v.disk, Generation(id), t) && Views(t0, v.trace, d0)
    ensures ok <==> LinksFree(old(v.disk), entries)
    ensures ok ==> forall e :: e in entries ==> Linked(v.disk, e.service)
    ensures forall q :: (forall e :: e in entries ==> q != [e.service]) ==> Lookup(v.disk, q) == Lookup(old(v.disk), q)
    ensures STORE in v.disk.dirty ==> STORE in old(v.disk).dirty
  {
    hide RootOk, Standing, Views;
    var services := set e | e in entries :: e.service;
    var todo := services;
    while todo != {}
      invariant todo <= services
      invariant Standing(d0, v.disk, Generation(id), t) && Views(t0, v.trace, d0)
      invariant forall s :: s in services - todo ==> Linked(v.disk, s) && LinkFree(old(v.disk), s)
      invariant forall q :: (forall s :: s in services - todo ==> q != [s]) ==> Lookup(v.disk, q) == Lookup(old(v.disk), q)
      invariant STORE in v.disk.dirty ==> STORE in old(v.disk).dirty
      decreases todo
    {
      var s :| s in todo;
      if [s] in v.disk.nodes {
        if v.disk.nodes[[s]] != Link([".current", s]) {
          return false;
        }
      } else {
        ghost var d := v.disk;
        LinkStands(d0, d, id, t, [s], [".current", s]);
        StandingView(t0, v.trace, d0, Symlink(d, [s], [".current", s]), Generation(id), t);
        v.Do(Symlink(v.disk, [s], [".current", s]));
        forall x | x in services - todo ensures Linked(v.disk, x) {
          assert Linked(d, x);
        }
      }
      todo := todo - {s};
    }
    ok := true;
  }

  lemma StandingView(t0: seq<Disk>, t: seq<Disk>, d0: Disk, d: Disk, g: Path, tree: Tree)
    requires Views(t0, t, d0) && Standing(d0, d, g, tree)
    ensures Views(t0, t + [d], d0)
  {
  }

  lemma ChmodStands(d0: Disk, d: Disk, id: string, t: Tree)
    requires RootOk(d0) && Standing(d0, d, Generation(id), t)
    requires CurrentTarget(d0).Some? ==> CurrentTarget(d0).value != Generation(id)
    ensures var d1 := Chmod(d, Generation(id), TRAVERSABLE);
      SameView(d0, d1) && Closed(d1) && Standing(d0, Sync(d1, Generation(id)), Generation(id), t)
  {
    hide RootOk, SameView, Closed;
    var g := Generation(id);
    var d1 := Chmod(d, g, TRAVERSABLE);
    var d2 := Sync(d1, g);
    SameViewRoot(d0, d);
    ChmodView(d, g);
    SameViewTransitive(d0, d, d1);
    SameViewTransitive(d0, d, d2);
    forall p | p != [] ensures Lookup(d2, g + p) == t(p) {
      assert g + p != g;
      assert Lookup(d, g + p) == t(p);
    }
  }

  lemma ChmodView(d: Disk, g: Path)
    requires RootOk(d) && IsDir(d, g) && |g| == 2 && (CurrentTarget(d).Some? ==> CurrentTarget(d).value != g)
    ensures var d1 := Chmod(d, g, TRAVERSABLE);
      SameView(d, d1) && Closed(d1) && SameView(d, Sync(d1, g)) && Closed(Sync(d1, g))
  {
    var d1 := Chmod(d, g, TRAVERSABLE);
    if CurrentTarget(d).Some? {
      assert !(CurrentTarget(d).value <= g);
    }
    assert forall q :: q != g ==> Lookup(d1, q) == Lookup(d, q);
  }

  /** The root right after the pending pointer replaced `.current`. */
  ghost predicate Published(d0: Disk, entries: seq<ResolvedSecret>, d: Disk) {
    && RootOk(d) && InstalledVersions(d0).Some?
    && InstalledVersions(d).Some? && Updated(InstalledVersions(d0).value, entries, InstalledVersions(d).value)
    && forall p | p != [] && !Hidden(p[0]) ::
         IsOverlay(Carried(d0, CurrentTarget(d0)), entries, p, Seen(d, p))
  }

  /** The root as it was before the deployment, for every consumer. */
  ghost predicate Unchanged(d0: Disk, d: Disk) {
    && RootOk(d) && InstalledVersions(d) == InstalledVersions(d0)
    && forall p | p != [] && !Hidden(p[0]) :: Seen(d, p) == Seen(d0, p)
  }

  lemma SwitchPublishes(d0: Disk, d: Disk, entries: seq<ResolvedSecret>, id: string)
    requires RootOk(d0) && GenerationName(id) && NoDup(Relatives(entries))
    requires Standing(d0, d, Generation(id), NewTree(d0, entries))
    requires d.nodes[Generation(id)].mode == TRAVERSABLE
    requires Lookup(d, Pending(id)) == Some(Link(Generation(id)))
    requires forall e :: e in entries ==> Linked(d, e.service) && !Hidden(e.service)
    ensures Published(d0, entries, RenameLink(d, Pending(id), CURRENT))
  {
    hide StagedAll, Carried, RenameLink, RootOk, Closed, SameView, IsOverlay, BatchVersions, Updated;
    var g := Generation(id);
    var d' := RenameLink(d, Pending(id), CURRENT);
    RootParts(d0);
    BatchVersionsUpdate(InstalledVersions(d0).value, entries);
    SwitchRoot(d0, d, entries, id);
    forall p | p != [] && !Hidden(p[0])
      ensures IsOverlay(Carried(d0, CurrentTarget(d0)), entries, p, Seen(d', p))
    {
      StagedAllIsOverlay(Carried(d0, CurrentTarget(d0)), entries, p);
      SwitchSeen(d0, d, entries, id, p);
    }
  }

  /** The tree below the new generation is the one that was staged. */
  lemma SwitchedTree(d0: Disk, d: Disk, entries: seq<ResolvedSecret>, id: string, p: Path)
    requires GenerationName(id) && InstalledVersions(d0).Some?
    requires Standing(d0, d, Generation(id), NewTree(d0, entries))
    requires Lookup(d, Pending(id)) == Some(Link(Generation(id)))
    ensures var d' := RenameLink(d, Pending(id), CURRENT);
      Lookup(d', Generation(id) + p) == Lookup(d, Generation(id) + p)
      && (p != [] ==> Lookup(d', Generation(id) + p) == NewTree(d0, entries)(p))
  {
    hide NewTree;
    SwitchLookup(d, id);
    assert |Generation(id) + p| >= 2 && |CURRENT| == |Pending(id)| == 1;
    assert p != [] ==> Lookup(d, Generation(id) + p) == NewTree(d0, entries)(p);
  }

  lemma SwitchRoot(d0: Disk, d: Disk, entries: seq<ResolvedSecret>, id: string)
    requires RootOk(d0) && GenerationName(id) && NoDup(Relatives(entries))
    requires Standing(d0, d, Generation(id), NewTree(d0, entries))
    requires d.nodes[Generation(id)].mode == TRAVERSABLE
    requires Lookup(d, Pending(id)) == Some(Link(Generation(id)))
    requires forall e :: e in entries ==> Linked(d, e.service) && !Hidden(e.service)
    ensures var d' := RenameLink(d, Pending(id), CURRENT);
      RootOk(d') && CurrentTarget(d') == Some(Generation(id))
      && InstalledVersions(d') == Some(BatchVersions(InstalledVersions(d0).value, entries))
  {
    hide StagedAll, Carried, SameView, BatchVersions, Holds;
    var g := Generation(id);
    var d' := RenameLink(d, Pending(id), CURRENT);
    assert CurrentTarget(d') == Some(g);
    SameViewCurrent(d0, d);
    SwitchClosed(d, id);
    SwitchLookup(d, id);
    SwitchedTree(d0, d, entries, id, []);
    SwitchedTree(d0, d, entries, id, [VERSIONS]);
    assert g + [] == g;
    assert IsDir(d', g) && d'.nodes[g].mode == TRAVERSABLE;
    assert NewTree(d0, entries)([VERSIONS])
        == Some(VersionsFile(BatchVersions(InstalledVersions(d0).value, entries)));
    assert InstalledVersions(d') == Some(BatchVersions(InstalledVersions(d0).value, entries));
    assert forall q :: q in d'.dirty ==> !(g <= q);
    forall s | g + [s] in d'.nodes && !Hidden(s) ensures Linked(d', s) {
      SwitchedTree(d0, d, entries, id, [s]);
      ServiceLinked(d0, d, entries, id, s);
    }
  }

  lemma SameViewCurrent(d0: Disk, d: Disk)
    requires RootOk(d0) && SameView(d0, d)
    ensures CURRENT in d.nodes ==> d.nodes[CURRENT].Link?
  {
  }

  lemma SwitchSeen(d0: Disk, d: Disk, entries: seq<ResolvedSecret>, id: string, p: Path)
    requires GenerationName(id) && InstalledVersions(d0).Some? && p != [] && !Hidden(p[0])
    requires Standing(d0, d, Generation(id), NewTree(d0, entries))
    requires Lookup(d, Pending(id)) == Some(Link(Generation(id)))
    requires var d' := RenameLink(d, Pending(id), CURRENT);
      RootOk(d') && CurrentTarget(d') == Some(Generation(id))
    ensures Seen(RenameLink(d, Pending(id), CURRENT), p)
         == StagedAll(Carried(d0, CurrentTarget(d0)), entries)(p)
  {
    hide StagedAll, Carried, RenameLink, SameView;
    var g := Generation(id);
    var d' := RenameLink(d, Pending(id), CURRENT);
    assert p != [VERSIONS];
    SwitchedTree(d0, d, entries, id, p);
    if g + p in d'.nodes {
      assert g + [p[0]] <= g + p;
      ClosedPrefix(d', g + [p[0]], g + p);
    }
  }

  lemma SwitchLookup(d: Disk, id: string)
    requires Pending(id) in d.nodes && GenerationName(id)
    ensures var d' := RenameLink(d, Pending(id), CURRENT);
      forall q :: q != CURRENT && q != Pending(id) ==> Lookup(d', q) == Lookup(d, q)
    ensures var d' := RenameLink(d, Pending(id), CURRENT);
      forall q :: q in d'.dirty ==> q in d.dirty || q == []
    ensures Hidden(Pending(id)[0]) && Pending(id) != CURRENT
    ensures forall p :: Generation(id) + p != CURRENT && Generation(id) + p != Pending(id)
  {
    assert Parent(Pending(id)) == [] && Parent(CURRENT) == [];
    assert forall p :: |Generation(id) + p| >= 2;
    assert |".current-" + id| > |".current"|;
  }

  lemma SwitchClosed(d: Disk, id: string)
    requires Closed(d) && Lookup(d, Pending(id)) == Some(Link(Generation(id))) && GenerationName(id)
    requires CURRENT in d.nodes ==> d.nodes[CURRENT].Link?
    ensures Closed(RenameLink(d, Pending(id), CURRENT))
  {
    var d' := RenameLink(d, Pending(id), CURRENT);
    SwitchLookup(d, id);
    assert Parent(Pending(id)) == [] && Parent(CURRENT) == [];
    forall q | q in d'.nodes && q != [] ensures IsDir(d', Parent(q)) {
      assert q == CURRENT || IsDir(d, Parent(q));
    }
  }

  lemma CarriedLinked(d0: Disk, s: string)
    requires RootOk(d0) && !Hidden(s) && Carried(d0, CurrentTarget(d0))([s]).Some?
    ensures Linked(d0, s)
  {
  }

  lemma LinkKept(d0: Disk, d: Disk, s: string)
    requires SameView(d0, d) && !Hidden(s) && Linked(d0, s)
    ensures Linked(d, s)
  {
  }

  /** Every service of the new generation has its link: carried services had
      it before, services of the batch got it. */
  lemma ServiceLinked(d0: Disk, d: Disk, entries: seq<ResolvedSecret>, id: string, s: string)
    requires RootOk(d0) && NoDup(Relatives(entries)) && !Hidden(s) && GenerationName(id)
    requires Standing(d0, d, Generation(id), NewTree(d0, entries)) && Generation(id) + [s] in d.nodes
    requires forall e :: e in entries ==> Linked(d, e.service)
    requires Pending(id) in d.nodes
    ensures Linked(RenameLink(d, Pending(id), CURRENT), s)
  {
    hide RenameLink, SameView, Closed, RootOk, NewTree, Carried;
    RootParts(d0);
    assert Lookup(d, Generation(id) + [s]) == NewTree(d0, entries)([s]);
    SwitchLookup(d, id);
    TopOfNewTree(d0, entries, s);
    if Carried(d0, CurrentTarget(d0))([s]).Some? {
      CarriedLinked(d0, s);
      LinkKept(d0, d, s);
    }
    assert [s] != CURRENT && [s] != Pending(id);
  }

  lemma TopOfNewTree(d0: Disk, entries: seq<ResolvedSecret>, s: string)
    requires InstalledVersions(d0).Some? && NoDup(Relatives(entries)) && !Hidden(s)
    requires NewTree(d0, entries)([s]).Some?
    ensures Carried(d0, CurrentTarget(d0))([s]).Some? || exists e :: e in entries && e.service == s
  {
    hide StagedAll, Carried;
    assert [s] != [VERSIONS];
    StagedAllIsOverlay(Carried(d0, CurrentTarget(d0)), entries, [s]);
    if IsAbove(entries, [s]) {
      var e :| e in entries && [s] <= Relative(e);
      assert e.service == s;
    }
  }

  method SyncStanding(v: Volume, p: Path, id: string, ghost d0: Disk, ghost t0: seq<Disk>, ghost t: Tree)
    requires Standing(d0, v.disk, Generation(id), t) && Views(t0, v.trace, d0)
    modifies v
    ensures v.disk == Sync(old(v.disk), p)
    ensures Standing(d0, v.disk, Generation(id), t) && Views(t0, v.trace, d0)
  {
    hide Standing, Views;
    SyncStands(d0, v.disk, Generation(id), t, p);
    StandingView(t0, v.trace, d0, Sync(v.disk, p), Generation(id), t);
    v.Do(Sync(v.disk, p));
  }

  /** Nothing but service links, the pending pointer and the generation's mode. */
  ghost predicate ActivatedOnly(d0: Disk, d: Disk, entries: seq<ResolvedSecret>, id: string) {
    forall q :: q != Pending(id) && q != Generation(id) && (forall e :: e in entries ==> q != [e.service]) ==>
      Lookup(d, q) == Lookup(d0, q)
  }

  /** Links the services, prepares the pending pointer, and opens the
      generation to consumers. */
  method Activate(v: Volume, entries: seq<ResolvedSecret>, id: string,
                  ghost d0: Disk, ghost t0: seq<Disk>, ghost t: Tree)
    returns (ok: bool)
    requires RootOk(d0) && Standing(d0, v.disk, Generation(id), t) && Views(t0, v.trace, d0)
    requires GenerationName(id) && (CurrentTarget(d0).Some? ==> CurrentTarget(d0).value != Generation(id))
    requires forall e :: e in entries ==> !Hidden(e.service)
    modifies v
    ensures Standing(d0, v.disk, Generation(id), t) && Views(t0, v.trace, d0)
    ensures ok <==> Pending(id) !in old(v.disk).nodes && LinksFree(old(v.disk), entries)
    ensures ok ==> IsDir(v.disk, Generation(id)) && v.disk.nodes[Generation(id)].mode == TRAVERSABLE
    ensures ok ==> Lookup(v.disk, Pending(id)) == Some(Link(Generation(id)))
    ensures ok ==> forall e :: e in entries ==> Linked(v.disk, e.service)
    ensures ActivatedOnly(old(v.disk), v.disk, entries, id)
    ensures STORE in v.disk.dirty ==> STORE in old(v.disk).dirty
  {
    hide RootOk, Standing, Views, SameView, Closed, LinksFree;
    PendingApart(id, entries);
    ok := PrepareServiceLinks(v, entries, id, d0, t0, t);
    assert Lookup(v.disk, Pending(id)) == Lookup(old(v.disk), Pending(id));
    if !ok {
      return;
    }
    SyncStanding(v, [], id, d0, t0, t);
    if Pending(id) in v.disk.nodes {
      return false;
    }
    LinkStands(d0, v.disk, id, t, Pending(id), Generation(id));
    ghost var d1 := Symlink(v.disk, Pending(id), Generation(id));
    StandingView(t0, v.trace, d0, d1, Generation(id), t);
    v.Do(Symlink(v.disk, Pending(id), Generation(id)));
    SyncStanding(v, [], id, d0, t0, t);
    ChmodStands(d0, v.disk, id, t);
    StandingDir(d0, v.disk, Generation(id), t);
    ViewsStep(t0, v.trace, d0, Chmod(v.disk, Generation(id), TRAVERSABLE));
    v.Do(Chmod(v.disk, Generation(id), TRAVERSABLE));
    StandingView(t0, v.trace, d0, Sync(v.disk, Generation(id)), Generation(id), t);
    v.Do(Sync(v.disk, Generation(id)));
  }

  lemma StandingDir(d0: Disk, d: Disk, g: Path, t: Tree)
    requires Standing(d0, d, g, t)
    ensures IsDir(d, g) && SameView(d0, d) && Closed(d)
  {
  }

  lemma PendingApart(id: string, entries: seq<ResolvedSecret>)
    requires forall e :: e in entries ==> !Hidden(e.service)
    ensures Hidden(Pending(id)[0]) && Pending(id) != CURRENT && Pending(id) != Generation(id)
    ensures forall e :: e in entries ==> [e.service] != Pending(id) && [e.service] != Generation(id)
  {
    assert |".current-" + id| > |".current"|;
    assert Hidden(Pending(id)[0]);
    assert |Pending(id)| != |Generation(id)|;
  }

  /** While the view has not changed, every recorded state shows the old root. */
  lemma AllUnchanged(t0: seq<Disk>, t: seq<Disk>, d0: Disk, d: Disk)
    requires RootOk(d0) && Views(t0, t, d0) && SameView(d0, d) && Closed(d)
    ensures t0 <= t && Unchanged(d0, d)
    ensures forall i :: |t0| <= i < |t| ==> Unchanged(d0, t[i])
  {
    hide SameView, Closed;
    SameViewSeen(d0, d);
    forall i | |t0| <= i < |t| ensures Unchanged(d0, t[i]) {
      SameViewSeen(d0, t[i]);
    }
  }

  lemma StartViews(d: Disk, t: seq<Disk>)
    requires RootOk(d)
    ensures Views(t, t, d) && SameView(d, d) && Closed(d)
  {
  }

  lemma NotCurrent(d0: Disk, d: Disk, id: string)
    requires RootOk(d0) && SameView(d0, d) && Closed(d) && Generation(id) !in d.nodes
    ensures CurrentTarget(d0).Some? ==> CurrentTarget(d0).value != Generation(id)
  {
    SameViewRoot(d0, d);
  }

  lemma SyncPublished(d0: Disk, entries: seq<ResolvedSecret>, d: Disk)
    requires Published(d0, entries, d)
    ensures Published(d0, entries, Sync(d, []))
  {
    hide IsOverlay, Carried, Updated;
    var d' := Sync(d, []);
    assert RootOk(d');
    assert forall p | p != [] && !Hidden(p[0]) :: Seen(d', p) == Seen(d, p);
  }

  /** The root has room for a deployment under this id: no leftover of the id, only
      plain files in the current generation, no conflicting destinations, and
      nothing else in the place of a service link. */
  ghost predicate Accepts(d: Disk, entries: seq<ResolvedSecret>, id: string) {
    StageOk(d, entries, id) && Generation(id) !in d.nodes && Pending(id) !in d.nodes
    && LinksFree(d, entries)
  }

  lemma BatchDistinct(entries: seq<ResolvedSecret>)
    requires ValidBatch(entries)
    ensures NoDup(Relatives(entries))
  {
  }

  lemma GenerationAside(d0: Disk, d: Disk, id: string)
    requires Elsewhere(d0, d, id) && GenerationName(id)
    ensures Generation(id) in d.nodes <==> Generation(id) in d0.nodes
  {
    assert Hidden(Staging(id)[1]) && !Hidden(Generation(id)[1]);
    assert !(Staging(id) <= Generation(id)) && |Generation(id)| != |STORE|;
    assert Lookup(d, Generation(id)) == Lookup(d0, Generation(id));
  }

  /** Moving the staged tree leaves links and pointers where they were. */
  lemma RenameAside(d0: Disk, d: Disk, id: string, entries: seq<ResolvedSecret>)
    requires Elsewhere(d0, d, id) && GenerationName(id) && forall e :: e in entries ==> !Hidden(e.service)
    ensures !(Staging(id) <= Generation(id)) && !(Generation(id) <= Staging(id))
    ensures
      var d' := Sync(RenameTree(d, Staging(id), Generation(id)), STORE);
      (Pending(id) in d'.nodes <==> Pending(id) in d0.nodes) && LinksFree(d', entries) == LinksFree(d0, entries)
  {
    hide RenameTree;
    assert Hidden(Staging(id)[1]) && !Hidden(Generation(id)[1]);
    var d' := RenameTree(d, Staging(id), Generation(id));
    forall name | [name] != STORE ensures Lookup(d', [name]) == Lookup(d0, [name]) {
      RenameTreeAt(d, Staging(id), Generation(id), [name]);
      assert !(Staging(id) <= [name]) && !(Generation(id) <= [name]);
    }
    assert forall e :: e in entries ==> LinkFree(Sync(d', STORE), e.service) == LinkFree(d0, e.service);
    assert Pending(id)[0][1] == 'c' && STORE[0][1] == 'g';
    assert Lookup(d', [Pending(id)[0]]) == Lookup(d0, [Pending(id)[0]]);
  }

  // ---- Pruning --------------------------------------------------------------

  const RETAINED := 3

  /** 39 digits, a dash, 10 digits; byte order is the order of time. */
  predicate ValidGeneration(name: string) {
    |name| == 50 && forall i :: 0 <= i < 50 ==> if i == 39 then name[i] == '-' else '0' <= name[i] <= '9'
  }

  predicate Digits(s: string) {
    forall c :: c in s ==> '0' <= c <= '9'
  }

  lemma GenerationExactly(name: string)
    ensures ValidGeneration(name) <==>
      exists time, process :: name == time + "-" + process && |time| == 39 && |process| == 10 && Digits(time) && Digits(process)
  {
    if ValidGeneration(name) {
      assert name == name[..39] + "-" + name[40..];
      assert Digits(name[..39]) && Digits(name[40..]);
    }
    if time, process :| name == time + "-" + process && |time| == 39 && |process| == 10 && Digits(time) && Digits(process) {
      forall i | 0 <= i < 50 ensures if i == 39 then name[i] == '-' else '0' <= name[i] <= '9' {
        if i < 39 { assert name[i] == time[i] && time[i] in time; }
        if i > 39 { assert name[i] == process[i - 40] && process[i - 40] in process; }
      }
    }
  }

  function Children(d: Disk): set<string> {
    set q | q in d.nodes && |q| == 2 && q[0] == STORE[0] :: q[1]
  }

  function Leftovers(d: Disk): set<string> {
    set name | name in Children(d) && ".staging-" <= name && IsDir(d, [STORE[0], name])
  }

  function Generations(d: Disk): set<string> {
    set name | name in Children(d) && ValidGeneration(name) && IsDir(d, [STORE[0], name])
  }

  /** The children `names` of the store are gone, everything else is as before. */
  ghost predicate Without(d0: Disk, d: Disk, names: set<string>) {
    forall q :: Lookup(d, q) == if |q| >= 2 && q[0] == STORE[0] && q[1] in names then None else Lookup(d0, q)
  }

  lemma RemovedOne(d0: Disk, d1: Disk, d2: Disk, names: set<string>, name: string)
    requires Without(d0, d1, names)
    requires Removed(d1, d2, [STORE[0], name])
    ensures Without(d0, d2, names + {name})
  {
    forall q ensures Lookup(d2, q) ==
      if |q| >= 2 && q[0] == STORE[0] && q[1] in names + {name} then None else Lookup(d0, q)
    {
      assert [STORE[0], name] <= q <==> |q| >= 2 && q[0] == STORE[0] && q[1] == name;
    }
  }

  method RemoveEach(v: Volume, id: string, names: set<string>)
    requires RootOk(v.disk) && CurrentTarget(v.disk) == Some(Generation(id)) && id !in names
    modifies v
    ensures Views(old(v.trace), v.trace, old(v.disk)) && SameView(old(v.disk), v.disk) && Closed(v.disk)
    ensures Without(old(v.disk), v.disk, names)
  {
    hide RootOk, Views, SameView, Closed, Without, Removed, Below, Steps;
    ghost var d0, t0 := v.disk, v.trace;
    StartViews(d0, t0);
    WithoutNone(d0);
    assert names - names == {};
    var todo := names;
    while todo != {}
      invariant todo <= names
      invariant Views(t0, v.trace, d0) && SameView(d0, v.disk) && Closed(v.disk)
      invariant Without(d0, v.disk, names - todo)
      decreases todo
    {
      var name :| name in todo;
      ghost var d1, t1 := v.disk, v.trace;
      v.RemoveTree([STORE[0], name]);
      ViewsSteps(t0, t1, v.trace, d0, d1, v.disk, [STORE[0], name]);
      RemovedOne(d0, d1, v.disk, names - todo, name);
      assert names - todo + {name} == names - (todo - {name});
      todo := todo - {name};
    }
    assert names - {} == names;
  }

  lemma WithoutNone(d: Disk)
    ensures Without(d, d, {})
  {
  }

  /** The newest generations up to the limit, the active one always among them. */
  method Keep(generations: set<string>, id: string) returns (keep: set<string>)
    ensures id in keep && |keep| <= RETAINED && keep <= generations + {id}
    ensures generations <= keep || |keep| == RETAINED
    ensures forall k, r :: k in keep && k != id && r in generations && r !in keep ==> Le(r, k)
  {
    hide Le, Sorted, Increasing;
    var ordered := Sorted(generations);
    var i := |ordered|;
    keep := {id};
    while i > 0 && |keep| != RETAINED
      invariant 0 <= i <= |ordered| && id in keep && |keep| <= RETAINED
      invariant keep == {id} + SetOf(ordered[i..])
    {
      i := i - 1;
      assert ordered[i..] == [ordered[i]] + ordered[i + 1..];
      assert SetOf(ordered[i..]) == {ordered[i]} + SetOf(ordered[i + 1..]);
      keep := keep + {ordered[i]};
    }
    KeptNewest(ordered, i, keep, id);
  }

  lemma KeptNewest(ordered: seq<string>, i: nat, keep: set<string>, id: string)
    requires i <= |ordered| && Increasing(ordered) && keep == {id} + SetOf(ordered[i..])
    ensures forall k, r :: k in keep && k != id && r in SetOf(ordered) && r !in keep ==> Le(r, k)
    ensures i == 0 ==> SetOf(ordered) <= keep
    ensures keep <= SetOf(ordered) + {id}
  {
    forall b | i <= b < |ordered| ensures ordered[b] in keep {
      assert ordered[i..][b - i] == ordered[b];
    }
    forall k, r | k in keep && k != id && r in SetOf(ordered) && r !in keep ensures Le(r, k) {
      var a :| 0 <= a < |ordered[i..]| && ordered[i..][a] == k;
      var b :| 0 <= b < |ordered| && ordered[b] == r;
      assert ordered[i + a] == k;
    }
    assert i == 0 ==> ordered[i..] == ordered;
  }

  /** Nothing changed except that old entries of the store may be gone. */
  ghost predicate OnlyHistory(d0: Disk, d: Disk, id: string) {
    forall q :: Lookup(d, q) == Lookup(d0, q)
                || (|q| >= 2 && q[0] == STORE[0] && q[1] != id && Lookup(d, q).None?)
  }

  /** At most three generations remain: the newest ones and the active one. */
  ghost predicate Newest(before: set<string>, after: set<string>, id: string) {
    && after <= before && |after + {id}| <= RETAINED && (before <= after || |after + {id}| == RETAINED)
    && forall k, r :: k in after && k != id && r in before && r !in after ==> Le(r, k)
  }

  ghost predicate PrunedFrom(d0: Disk, d: Disk, id: string) {
    OnlyHistory(d0, d, id) && Leftovers(d) == {} && Newest(Generations(d0), Generations(d), id)
  }

  lemma WithoutSets(d0: Disk, d: Disk, names: set<string>)
    requires Without(d0, d, names)
    ensures Leftovers(d) == Leftovers(d0) - names && Generations(d) == Generations(d0) - names
  {
    forall name ensures name in Children(d) <==> name in Children(d0) && name !in names
                ensures name !in names ==> Lookup(d, [STORE[0], name]) == Lookup(d0, [STORE[0], name])
    {
      ChildAt(d, name);
      ChildAt(d0, name);
      assert Lookup(d, [STORE[0], name]) == if name in names then None else Lookup(d0, [STORE[0], name]);
    }
  }

  lemma ChildAt(d: Disk, name: string)
    ensures name in Children(d) <==> [STORE[0], name] in d.nodes
  {
    if name in Children(d) {
      var q :| q in d.nodes && |q| == 2 && q[0] == STORE[0] && q[1] == name;
      assert q == [STORE[0], name];
    }
    if [STORE[0], name] in d.nodes {
      var q := [STORE[0], name];
      assert q in d.nodes && |q| == 2 && q[0] == STORE[0] && q[1] == name;
    }
  }

  lemma PrunedTwice(d0: Disk, d1: Disk, d2: Disk, d3: Disk, keep: set<string>, id: string)
    requires Without(d0, d1, Leftovers(d0)) && Without(d1, d2, Generations(d1) - keep) && d3.nodes == d2.nodes
    requires id !in Leftovers(d0) && Generation(id) in d0.nodes
    requires id in keep && |keep| <= RETAINED && keep <= Generations(d1) + {id}
    requires Generations(d1) <= keep || |keep| == RETAINED
    requires forall k, r :: k in keep && k != id && r in Generations(d1) && r !in keep ==> Le(r, k)
    ensures PrunedFrom(d0, d3, id)
  {
    hide Without, Leftovers, Generations, Le, OnlyHistory, Newest;
    WithoutSets(d0, d1, Leftovers(d0));
    WithoutSets(d1, d2, Generations(d1) - keep);
    SameSets(d2, d3);
    NoStagedGeneration(d0);
    NoStagedGeneration(d1);
    assert Generations(d1) == Generations(d0) && Leftovers(d1) == {};
    NewestKept(Generations(d0), keep, id);
    assert Generations(d3) == Generations(d0) - (Generations(d0) - keep);
    HistoryOnly(d0, d1, d2, d3, Leftovers(d0), Generations(d1) - keep, id);
  }

  lemma NewestKept(generations: set<string>, keep: set<string>, id: string)
    requires id in keep && |keep| <= RETAINED && keep <= generations + {id}
    requires generations <= keep || |keep| == RETAINED
    requires forall k, r :: k in keep && k != id && r in generations && r !in keep ==> Le(r, k)
    ensures Newest(generations, generations - (generations - keep), id)
  {
    hide Le;
    assert generations - (generations - keep) + {id} == keep;
  }

  lemma HistoryOnly(d0: Disk, d1: Disk, d2: Disk, d3: Disk, a: set<string>, b: set<string>, id: string)
    requires Without(d0, d1, a) && Without(d1, d2, b) && d3.nodes == d2.nodes && id !in a && id !in b
    ensures OnlyHistory(d0, d3, id)
  {
    hide Without;
    forall q ensures Lookup(d3, q) == Lookup(d0, q)
      || (|q| >= 2 && q[0] == STORE[0] && q[1] != id && Lookup(d3, q).None?)
    {
      WithoutAt(d0, d1, a, q);
      WithoutAt(d1, d2, b, q);
    }
  }

  lemma WithoutAt(d0: Disk, d: Disk, names: set<string>, q: Path)
    requires Without(d0, d, names)
    ensures Lookup(d, q) == if |q| >= 2 && q[0] == STORE[0] && q[1] in names then None else Lookup(d0, q)
  {
  }

  lemma SameSets(d: Disk, d': Disk)
    requires d'.nodes == d.nodes
    ensures Leftovers(d') == Leftovers(d) && Generations(d') == Generations(d)
  {
  }

  lemma NoStagedGeneration(d: Disk)
    ensures Leftovers(d) !! Generations(d)
  {
    forall name | name in Leftovers(d) ensures name !in Generations(d) {
      assert name[0] == '.';
    }
  }

  /** `prune_generations`: consumers see nothing of it. */
  method PruneGenerations(v: Volume, id: string)
    requires RootOk(v.disk) && CurrentTarget(v.disk) == Some(Generation(id)) && GenerationName(id)
    modifies v
    ensures Views(old(v.trace), v.trace, old(v.disk)) && SameView(old(v.disk), v.disk) && Closed(v.disk)
    ensures PrunedFrom(old(v.disk), v.disk, id) && STORE !in v.disk.dirty
  {
    hide RootOk, Views, SameView, Closed, Without, Leftovers, Generations, PrunedFrom;
    ghost var d0, t0 := v.disk, v.trace;
    RootParts(d0);
    NotLeftover(d0, id);
    RemoveEach(v, id, Leftovers(v.disk));
    ghost var d1, t1 := v.disk, v.trace;
    SameViewRoot(d0, d1);
    var keep := Keep(Generations(v.disk), id);
    RemoveEach(v, id, Generations(v.disk) - keep);
    ghost var d2, t2 := v.disk, v.trace;
    v.Do(Sync(v.disk, STORE));
    PrunedTwice(d0, d1, d2, v.disk, keep, id);
    ViewsTwice(t0, t1, t2, d0, d1, d2);
    SyncView(t0, t2, d0, d2, STORE);
  }

  lemma NotLeftover(d: Disk, id: string)
    requires GenerationName(id)
    ensures id !in Leftovers(d)
  {
    assert ".staging-"[0] == '.';
  }

  lemma ViewsTwice(t0: seq<Disk>, t1: seq<Disk>, t2: seq<Disk>, d0: Disk, d1: Disk, d2: Disk)
    requires Views(t0, t1, d0) && SameView(d0, d1) && Views(t1, t2, d1) && SameView(d1, d2)
    ensures Views(t0, t2, d0) && SameView(d0, d2)
  {
    hide SameView, Closed;
    SameViewTransitive(d0, d1, d2);
    forall i | |t0| <= i < |t2| ensures SameView(d0, t2[i]) && Closed(t2[i]) {
      if i < |t1| {
        assert t2[i] == t1[i];
      } else {
        SameViewTransitive(d0, d1, t2[i]);
      }
    }
  }

  lemma SyncView(t0: seq<Disk>, t: seq<Disk>, d0: Disk, d: Disk, p: Path)
    requires Views(t0, t, d0) && SameView(d0, d) && Closed(d)
    ensures Views(t0, t + [Sync(d, p)], d0) && SameView(d0, Sync(d, p)) && Closed(Sync(d, p))
  {
    ViewsStep(t0, t, d0, Sync(d, p));
  }

  /** Outside the paths of this deployment nothing changed, except that old entries
      of the store may be gone. */
  ghost predicate Apart(d0: Disk, d: Disk, entries: seq<ResolvedSecret>, id: string) {
    forall q ::
      q != STORE && q != CURRENT && q != Pending(id) && !(Staging(id) <= q) && !(Generation(id) <= q)
      && (forall e :: e in entries ==> q != [e.service]) ==>
      Lookup(d, q) == Lookup(d0, q) || (|q| >= 2 && q[0] == STORE[0] && Lookup(d, q).None?)
  }

  /** The same before the switch, which moves `.current`. */
  ghost predicate PreparedOnly(d0: Disk, d: Disk, entries: seq<ResolvedSecret>, id: string) {
    forall q ::
      q != STORE && q != Pending(id) && !(Staging(id) <= q) && !(Generation(id) <= q)
      && (forall e :: e in entries ==> q != [e.service]) ==>
      Lookup(d, q) == Lookup(d0, q)
  }

  lemma PreparedChain(d0: Disk, d1: Disk, d2: Disk, d3: Disk, entries: seq<ResolvedSecret>, id: string)
    requires GenerationName(id) && Elsewhere(d0, d1, id)
    requires !(Staging(id) <= Generation(id)) && !(Generation(id) <= Staging(id))
    requires d2.nodes == RenameTree(d1, Staging(id), Generation(id)).nodes && ActivatedOnly(d2, d3, entries, id)
    ensures PreparedOnly(d0, d3, entries, id)
  {
    hide RenameTree;
    forall q | q != STORE && q != Pending(id) && !(Staging(id) <= q) && !(Generation(id) <= q)
               && (forall e :: e in entries ==> q != [e.service])
      ensures Lookup(d3, q) == Lookup(d0, q)
    {
      RenameTreeAt(d1, Staging(id), Generation(id), q);
      assert Lookup(d2, q) == Lookup(RenameTree(d1, Staging(id), Generation(id)), q);
    }
  }

  lemma ApartChain(d0: Disk, d3: Disk, d: Disk, entries: seq<ResolvedSecret>, id: string)
    requires PreparedOnly(d0, d3, entries, id) && Pending(id) in d3.nodes
    requires OnlyHistory(RenameLink(d3, Pending(id), CURRENT), d, id)
    ensures Apart(d0, d, entries, id)
  {
    forall q | q != STORE && q != CURRENT && q != Pending(id) && !(Staging(id) <= q) && !(Generation(id) <= q)
               && (forall e :: e in entries ==> q != [e.service])
      ensures Lookup(d, q) == Lookup(d0, q) || (|q| >= 2 && q[0] == STORE[0] && Lookup(d, q).None?)
    {
      assert Lookup(RenameLink(d3, Pending(id), CURRENT), q) == Lookup(d3, q);
    }
  }

  /** The generation stands, open and on the disk, with its pending pointer and
      every service link. */
  ghost predicate Ready(d0: Disk, d: Disk, entries: seq<ResolvedSecret>, id: string)
    requires InstalledVersions(d0).Some?
  {
    && Standing(d0, d, Generation(id), NewTree(d0, entries))
    && IsDir(d, Generation(id)) && d.nodes[Generation(id)].mode == TRAVERSABLE
    && Lookup(d, Pending(id)) == Some(Link(Generation(id)))
    && (forall e :: e in entries ==> Linked(d, e.service))
    && STORE !in d.dirty && PreparedOnly(d0, d, entries, id)
  }

  /** `prepare`: everything up to the pending pointer. */
  method Prepare(v: Volume, entries: seq<ResolvedSecret>, id: string) returns (ok: bool)
    requires RootOk(v.disk) && InstalledVersions(v.disk).Some? && GenerationName(id) && NoDup(Relatives(entries))
    requires forall e :: e in entries ==> !Hidden(e.service)
    modifies v
    ensures Views(old(v.trace), v.trace, old(v.disk)) && SameView(old(v.disk), v.disk) && Closed(v.disk)
    ensures ok <==> Accepts(old(v.disk), entries, id)
    ensures ok ==> Ready(old(v.disk), v.disk, entries, id)
  {
    hide RootOk, Standing, Views, SameView, Closed, NewTree, Holds, RenameTree,
      StageOk, LinksFree, Elsewhere, ActivatedOnly, PreparedOnly;
    ghost var d0, t0 := v.disk, v.trace;
    ok := Stage(v, entries, id);
    if ok { GenerationAside(d0, v.disk, id); }
    if !ok || Generation(id) in v.disk.nodes {
      return false;
    }
    ghost var d1 := v.disk;
    RenameAside(d0, d1, id, entries);
    ghost var t := NewTree(d0, entries);
    NotCurrent(d0, d1, id);
    RenamedStands(d0, d1, id, t);
    StandingView(t0, v.trace, d0, RenameTree(d1, Staging(id), Generation(id)), Generation(id), t);
    v.Do(RenameTree(v.disk, Staging(id), Generation(id)));
    SyncStanding(v, STORE, id, d0, t0, t);
    ghost var d2 := v.disk;
    ok := Activate(v, entries, id, d0, t0, t);
    StandingDir(d0, v.disk, Generation(id), t);
    PreparedChain(d0, d1, d2, v.disk, entries, id);
  }

  /** After the switch, views that do not change stay published. */
  lemma StaysPublished(d0: Disk, entries: seq<ResolvedSecret>, d: Disk, t0: seq<Disk>, t: seq<Disk>, d': Disk)
    requires Published(d0, entries, d) && Views(t0, t, d) && SameView(d, d') && Closed(d')
    ensures Published(d0, entries, d') && CurrentTarget(d') == CurrentTarget(d)
    ensures forall i :: |t0| <= i < |t| ==> Published(d0, entries, t[i])
  {
    hide SameView, Closed, IsOverlay, Carried, Updated, RootOk;
    SameViewSeen(d, d');
    SameViewRoot(d, d');
    forall i | |t0| <= i < |t| ensures Published(d0, entries, t[i]) {
      SameViewSeen(d, t[i]);
    }
  }

  /** The published generation is plain, and stays so while the view stays. */
  lemma PublishedPlain(d0: Disk, d: Disk, entries: seq<ResolvedSecret>, id: string, d': Disk)
    requires RootOk(d0) && GenerationName(id) && NoDup(Relatives(entries)) && StageOk(d0, entries, id)
    requires Standing(d0, d, Generation(id), NewTree(d0, entries))
    requires Lookup(d, Pending(id)) == Some(Link(Generation(id)))
    requires RootOk(RenameLink(d, Pending(id), CURRENT)) && SameView(RenameLink(d, Pending(id), CURRENT), d')
    ensures CurrentTarget(RenameLink(d, Pending(id), CURRENT)) == Some(Generation(id))
    ensures Plain(d', Generation(id), {})
  {
    hide RootOk, Carried, StagedAll, NewTree, Fits;
    var s, g := RenameLink(d, Pending(id), CURRENT), Generation(id);
    RootParts(d0);
    StagedPlain(d0, d, g, entries);
    forall p | p != [] ensures Lookup(d', g + p) == Lookup(d, g + p) {
      assert g <= g + p;
      assert g + p != CURRENT && g + p != Pending(id);
    }
  }

  /** `switch`, then `prune`. */
  method SwitchAndPrune(v: Volume, entries: seq<ResolvedSecret>, id: string, ghost d0: Disk)
    requires RootOk(d0) && InstalledVersions(d0).Some? && GenerationName(id) && NoDup(Relatives(entries))
    requires StageOk(d0, entries, id) && Ready(d0, v.disk, entries, id)
    requires forall e :: e in entries ==> !Hidden(e.service)
    modifies v
    ensures |old(v.trace)| < |v.trace| && old(v.trace) <= v.trace
    ensures forall i :: |old(v.trace)| <= i < |v.trace| ==> Published(d0, entries, v.trace[i])
    ensures Published(d0, entries, v.disk)
    ensures STORE !in v.trace[|old(v.trace)|].dirty && STORE !in v.disk.dirty
    ensures CurrentTarget(v.disk) == Some(Generation(id)) && Plain(v.disk, Generation(id), {})
    ensures Leftovers(v.disk) == {} && |Generations(v.disk) + {id}| <= RETAINED
    ensures Apart(d0, v.disk, entries, id)
  {
    hide RootOk, Views, SameView, Closed, Published, RenameLink, Sync, StageOk, Plain, Apart, Ready,
      Leftovers, Generations, PrunedFrom;
    ghost var d3, t3 := v.disk, v.trace;
    ReadySwitches(d0, d3, entries, id);
    v.Do(RenameLink(v.disk, Pending(id), CURRENT));
    ghost var d4 := v.disk;
    SyncPublished(d0, entries, d4);
    v.Do(Sync(v.disk, []));
    ghost var d5, t5 := v.disk, v.trace;
    PublishedRoot(d0, entries, d5);
    SameTarget(d4);
    PruneGenerations(v, id);
    StaysPublished(d0, entries, d5, t5, v.trace, v.disk);
    ViewsExtend(t5, v.trace, d5);
    assert v.trace[|t3|] == t5[|t3|] == d4 && v.trace[|t3| + 1] == t5[|t3| + 1] == d5;
    SwitchedAndPruned(d0, d3, v.disk, entries, id);
  }

  lemma SameTarget(d: Disk)
    ensures CurrentTarget(Sync(d, [])) == CurrentTarget(d)
  {
  }

  lemma ReadySwitches(d0: Disk, d: Disk, entries: seq<ResolvedSecret>, id: string)
    requires RootOk(d0) && InstalledVersions(d0).Some? && GenerationName(id) && NoDup(Relatives(entries))
    requires Ready(d0, d, entries, id) && forall e :: e in entries ==> !Hidden(e.service)
    ensures Pending(id) in d.nodes
    ensures
      var d' := RenameLink(d, Pending(id), CURRENT);
      Published(d0, entries, d') && CurrentTarget(d') == Some(Generation(id)) && STORE !in d'.dirty
  {
    hide RootOk, Standing, NewTree, Published, RenameLink, PreparedOnly;
    SwitchPublishes(d0, d, entries, id);
    SwitchTargets(d, id);
  }

  lemma SwitchedAndPruned(d0: Disk, d3: Disk, d: Disk, entries: seq<ResolvedSecret>, id: string)
    requires RootOk(d0) && InstalledVersions(d0).Some? && GenerationName(id) && NoDup(Relatives(entries))
    requires StageOk(d0, entries, id) && Ready(d0, d3, entries, id) && Pending(id) in d3.nodes
    requires
      var d4 := RenameLink(d3, Pending(id), CURRENT);
      Published(d0, entries, d4) && SameView(Sync(d4, []), d) && PrunedFrom(Sync(d4, []), d, id)
    ensures Plain(d, Generation(id), {}) && Leftovers(d) == {} && |Generations(d) + {id}| <= RETAINED
    ensures Apart(d0, d, entries, id)
  {
    hide RootOk, Standing, NewTree, Published, RenameLink, PreparedOnly, StageOk, Plain, Apart, SameView,
      Leftovers, Generations, OnlyHistory;
    var d4 := RenameLink(d3, Pending(id), CURRENT);
    PublishedRoot(d0, entries, d4);
    SyncedSameView(d4, Sync(d4, []), d);
    PublishedPlain(d0, d3, entries, id, d);
    SyncedHistory(d4, Sync(d4, []), d, id);
    ApartChain(d0, d3, d, entries, id);
  }

  lemma ViewsExtend(t0: seq<Disk>, t: seq<Disk>, d: Disk)
    requires Views(t0, t, d)
    ensures t0 <= t
  {
  }

  /** One deployment, if `proceed` approves the root. `switched` is the position in
      the trace of the first state that shows the new generation: every state
      before it shows the old root, every state from it on shows the old root
      overlaid with exactly the batch, and in all of them `.current` names a
      synced, traversable generation. The store is on the disk when the pointer
      switches. Afterwards the history is pruned. */
  method DeployInner(v: Volume, entries: seq<ResolvedSecret>, id: string, proceed: Disk -> bool)
    returns (ok: bool, ghost switched: nat)
    requires RootOk(v.disk) && GenerationName(id)
    requires forall e :: e in entries ==> !Hidden(e.service)
    modifies v
    ensures old(v.trace) <= v.trace && |old(v.trace)| <= switched <= |v.trace|
    ensures forall i :: |old(v.trace)| <= i < switched ==> Unchanged(old(v.disk), v.trace[i])
    ensures forall i :: switched <= i < |v.trace| ==> Published(old(v.disk), entries, v.trace[i])
    ensures ok <==> ValidBatch(entries) && proceed(old(v.disk)) && Accepts(old(v.disk), entries, id)
    ensures ok ==> Published(old(v.disk), entries, v.disk) && switched < |v.trace|
    ensures ok ==> STORE !in v.trace[switched].dirty && STORE !in v.disk.dirty
    ensures ok ==> CurrentTarget(v.disk) == Some(Generation(id)) && Plain(v.disk, Generation(id), {})
    ensures ok ==> Leftovers(v.disk) == {} && |Generations(v.disk) + {id}| <= RETAINED
    ensures ok ==> Apart(old(v.disk), v.disk, entries, id)
    ensures !ok ==> Unchanged(old(v.disk), v.disk) && switched == |v.trace|
  {
    hide RootOk, Views, SameView, Closed, Published, Unchanged, Ready, StageOk, ValidBatch, Plain, Apart,
      Leftovers, Generations, LinksFree;
    ghost var d0, t0 := v.disk, v.trace;
    ok := Validate(entries);
    if !ok || !proceed(v.disk) {
      StartViews(d0, t0);
      AllUnchanged(t0, v.trace, d0, v.disk);
      return false, |v.trace|;
    }
    BatchDistinct(entries);
    RootParts(d0);
    ok := Prepare(v, entries, id);
    AllUnchanged(t0, v.trace, d0, v.disk);
    switched := |v.trace|;
    if ok {
      SwitchAndPrune(v, entries, id, d0);
    }
  }

  lemma SwitchTargets(d: Disk, id: string)
    requires Lookup(d, Pending(id)) == Some(Link(Generation(id)))
    ensures CurrentTarget(RenameLink(d, Pending(id), CURRENT)) == Some(Generation(id))
    ensures STORE in RenameLink(d, Pending(id), CURRENT).dirty ==> STORE in d.dirty
  {
  }

  lemma PublishedRoot(d0: Disk, entries: seq<ResolvedSecret>, d: Disk)
    requires Published(d0, entries, d)
    ensures RootOk(d)
  {
  }

  lemma SyncedSameView(d4: Disk, d5: Disk, d: Disk)
    requires d5.nodes == d4.nodes && d5.dirty <= d4.dirty && SameView(d5, d)
    ensures SameView(d4, d)
  {
    assert SameView(d4, d5);
    SameViewTransitive(d4, d5, d);
  }

  lemma SyncedHistory(d4: Disk, d5: Disk, d: Disk, id: string)
    requires d5.nodes == d4.nodes && OnlyHistory(d5, d, id)
    ensures OnlyHistory(d4, d, id)
  {
    forall q ensures Lookup(d4, q) == Lookup(d5, q) {
    }
  }

  lemma ApartAt(d0: Disk, d: Disk, entries: seq<ResolvedSecret>, id: string, q: Path)
    requires Apart(d0, d, entries, id) && q !in d0.nodes
    requires q != STORE && q != CURRENT && q != Pending(id) && !(Staging(id) <= q) && !(Generation(id) <= q)
    requires forall e :: e in entries ==> q != [e.service]
    ensures q !in d.nodes
  {
    assert Lookup(d, q) == Lookup(d0, q) || Lookup(d, q).None?;
  }

  /** A root after a deployment accepts the next batch that fits, under a new id. */
  lemma Redeployable(d: Disk, entries: seq<ResolvedSecret>, former: string, id: string)
    requires RootOk(d) && CurrentTarget(d) == Some(Generation(former)) && Plain(d, Generation(former), {})
    requires Staging(id) !in d.nodes && Generation(id) !in d.nodes && Pending(id) !in d.nodes
    requires Fits(Carried(d, CurrentTarget(d)), entries) && forall e :: e in entries ==> LinkFree(d, e.service)
    ensures Accepts(d, entries, id)
  {
    hide Fits, Carried;
    ClosedPrefix(d, STORE, Generation(former));
    assert Plain(d, Generation(former), {VERSIONS});
  }

  // ---- What a deployment does to a value it does not name -----------------

  /** A value the batch does not name stays as it is exactly when no part of
      its path is called `.versions.json`; such a value is lost. */
  lemma CarriedOver(d0: Disk, entries: seq<ResolvedSecret>, d: Disk, p: Path)
    requires RootOk(d0) && Published(d0, entries, d)
    requires p != [] && !Hidden(p[0]) && Seen(d0, p).Some?
    requires forall e :: e in entries ==> !(p <= Relative(e))
    ensures Seen(d, p) == Seen(d0, p) <==> VERSIONS !in p
    ensures VERSIONS in p ==> Seen(d, p) == None
  {
    assert IsOverlay(Carried(d0, CurrentTarget(d0)), entries, p, Seen(d, p));
    assert forall e :: e in entries ==> p != Relative(e);
  }

  /** A value of the batch is there with its contents and owner, and with exactly its
      permissions; without readers of its own it has exactly its mode. */
  lemma BatchInstalled(d0: Disk, entries: seq<ResolvedSecret>, d: Disk, e: ResolvedSecret)
    requires Published(d0, entries, d) && e in entries && !Hidden(e.service)
    ensures var node := Seen(d, Relative(e));
      node.Some? && node.value.File? && node.value.content == Raw(e.contents)
      && node.value.owner == e.owner && node.value.group == e.group && Grants(node.value, e.mode)
      && (node.value.acl.None? ==> node.value.mode == e.mode)
  {
    hide RootOk;
    assert IsOverlay(Carried(d0, CurrentTarget(d0)), entries, Relative(e), Seen(d, Relative(e)));
    GrantsMode(Seen(d, Relative(e)).value, e.mode);
  }

  /** The directories on the way to a value of the batch are those that were there, or new
      ones of root that everybody may pass and nobody else list. */
  lemma WayIsOpen(d0: Disk, entries: seq<ResolvedSecret>, d: Disk, e: ResolvedSecret, p: Path)
    requires Published(d0, entries, d) && e in entries && p != [] && p <= Relative(e) && !Hidden(p[0])
    requires forall o :: o in entries ==> p != Relative(o)
    ensures
      var was := Carried(d0, CurrentTarget(d0))(p);
      Seen(d, p) == if was.Some? then was else Some(Dir(0x1C9, 0, 0, None))
  {
    hide RootOk;
    assert IsOverlay(Carried(d0, CurrentTarget(d0)), entries, p, Seen(d, p));
  }

  /** A value that was there with these contents, owner, group and permissions keeps its
      file and with it its readers; any other one is a new file without readers of its own. */
  lemma ReadersKept(d0: Disk, entries: seq<ResolvedSecret>, d: Disk, e: ResolvedSecret)
    requires Published(d0, entries, d) && e in entries && !Hidden(e.service)
    ensures
      var was := Carried(d0, CurrentTarget(d0))(Relative(e));
      var same := was.Some? && was.value.File? && was.value.content == Raw(e.contents)
        && was.value.owner == e.owner && was.value.group == e.group && Grants(was.value, e.mode);
      Seen(d, Relative(e)) == if same then was else Some(File(Raw(e.contents), e.owner, e.group, e.mode, None))
  {
    hide RootOk;
    assert IsOverlay(Carried(d0, CurrentTarget(d0)), entries, Relative(e), Seen(d, Relative(e)));
  }
}
