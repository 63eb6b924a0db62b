/** The publisher's file system helpers. `Volume` changes the disk one system
    call at a time and records every state in between, so a statement about its
    `trace` is a statement about a crash at any moment. */
module FsUtil {
  import opened Prelude
  import opened Filesystem
  import opened TreeWalk

  /** A generation by path relative to it. */
  type Tree = Path -> Option<Node>

  /** What is carried over from the generation at `source`: everything except
      names equal to `.versions.json`, at whatever depth they occur. */
  ghost function Carried(d: Disk, source: Option<Path>): Tree {
    (p: Path) => if source.None? || VERSIONS in p then None else Lookup(d, source.value + p)
  }

  // ---- Work that stays below one directory --------------------------------

  /** `after` continues `before` with states that differ from `d0` below `h`. */
  ghost predicate Steps(before: seq<Disk>, after: seq<Disk>, d0: Disk, h: Path) {
    before <= after && forall i :: |before| <= i < |after| ==> Below(d0, after[i], h) && Closed(after[i])
  }

  lemma StepsThen(a: seq<Disk>, b: seq<Disk>, c: seq<Disk>, d0: Disk, d1: Disk, h: Path)
    requires Steps(a, b, d0, h) && Below(d0, d1, h) && Steps(b, c, d1, h)
    ensures Steps(a, c, d0, h)
  {
    forall i | |a| <= i < |c| ensures Below(d0, c[i], h) && Closed(c[i]) {
      if i < |b| {
        assert c[i] == b[i];
      } else {
        BelowTransitive(d0, d1, c[i], h);
      }
    }
  }

  lemma CreateClosed(d: Disk, p: Path, node: Node)
    requires Closed(d) && p != [] && IsDir(d, Parent(p)) && (IsDir(d, p) ==> node.Dir?)
    ensures Closed(Create(d, p, node))
  {
  }

  lemma CreateBelow(d0: Disk, d: Disk, h: Path, p: Path, node: Node)
    requires Below(d0, d, h) && p != [] && h <= p
    ensures Below(d0, Create(d, p, node), h)
  {
    assert h <= Parent(p) || Parent(p) <= h;
  }

  lemma SyncBelow(d0: Disk, d: Disk, h: Path, p: Path)
    requires Below(d0, d, h)
    ensures Below(d0, Sync(d, p), h)
    ensures Closed(d) ==> Closed(Sync(d, p))
  {
  }

  /** Nothing but files and directories in the tree, outside skipped names. */
  ghost predicate Plain(d: Disk, root: Path, skip: set<string>) {
    forall p :: p != [] && root + p in d.nodes && (forall name :: name in p ==> name !in skip) ==>
      d.nodes[root + p].Dir? || d.nodes[root + p].File?
  }

  /** Directories stay, and nothing but directories has become unsynced. */
  ghost predicate DirtyDirs(d0: Disk, d: Disk) {
    (forall q :: IsDir(d0, q) ==> IsDir(d, q))
    && forall q :: q in d.dirty && q !in d0.dirty ==> IsDir(d, q)
  }

  lemma DirtyDirsTransitive(a: Disk, b: Disk, c: Disk)
    requires DirtyDirs(a, b) && DirtyDirs(b, c)
    ensures DirtyDirs(a, c)
  {
  }

  ghost predicate Copied(d0: Disk, d: Disk, source: Path, dest: Path, seen: set<Path>) {
    && Lookup(d, dest) == Lookup(d0, dest)
    && (forall p :: p != [] ==>
          Lookup(d, dest + p) == if p in seen then Lookup(d0, source + p) else None)
    && (forall p :: p in seen && source + p in d0.nodes ==>
          d0.nodes[source + p].Dir? || d0.nodes[source + p].File?)
  }

  lemma SourceUntouched(d0: Disk, d: Disk, source: Path, dest: Path, p: Path)
    requires Below(d0, d, dest) && !(dest <= source) && !(source <= dest)
    ensures Lookup(d, source + p) == Lookup(d0, source + p)
  {
    assert !(dest <= source + p);
  }

  /** Copying the entry at `p` extends what has been copied by it alone. */
  lemma CopiedOne(d0: Disk, before: Disk, after: Disk, source: Path, dest: Path, seen: set<Path>, p: Path)
    requires Copied(d0, before, source, dest, seen) && p != [] && source + p in d0.nodes
    requires d0.nodes[source + p].Dir? || d0.nodes[source + p].File?
    requires after.nodes == before.nodes[dest + p := d0.nodes[source + p]]
    ensures Copied(d0, after, source, dest, seen + {p})
  {
    assert dest + p != dest;
    forall q | q != []
      ensures Lookup(after, dest + q) == if q in seen + {p} then Lookup(d0, source + q) else None
    {
      if q != p {
        assert (dest + q)[|dest|..] == q && (dest + p)[|dest|..] == p;
      }
    }
  }

  /** Ghost state of a running `clone_tree`: where it began, and the walk. */
  datatype Cloning = Cloning(
    d0: Disk, t0: seq<Disk>, rels: seq<Path>, index: nat, todo: set<string>, seen: set<Path>)

  ghost predicate CloneOk(w: Cloning, d: Disk, t: seq<Disk>, source: Path, dest: Path) {
    && !(source <= dest) && !(dest <= source)
    && IsDir(w.d0, dest) && dest != []
    && w.todo <= NamesAt(w.d0, source, w.rels, w.index)
    && Walk(w.d0, source, {VERSIONS}, w.rels, w.index, w.todo, w.seen)
    && Copied(w.d0, d, source, dest, w.seen)
    && Closed(w.d0) && Closed(d) && Below(w.d0, d, dest) && Steps(w.t0, t, w.d0, dest) && DirtyDirs(w.d0, d)
  }

  function Pairs(source: Path, dest: Path, rels: seq<Path>): (r: seq<(Path, Path)>)
    ensures |r| == |rels| && forall i :: 0 <= i < |r| ==> r[i] == (source + rels[i], dest + rels[i])
  {
    seq(|rels|, i requires 0 <= i < |rels| => (source + rels[i], dest + rels[i]))
  }

  /** The walk after reading `name` from its current directory. */
  ghost function Visited(w: Cloning, source: Path, name: string): Cloning
    requires w.index < |w.rels|
  {
    var p := w.rels[w.index] + [name];
    w.(todo := w.todo - {name}, seen := w.seen + {p},
       rels := if IsDir(w.d0, source + p) then w.rels + [p] else w.rels)
  }

  lemma CloneStart(d: Disk, t: seq<Disk>, source: Path, dest: Path)
    requires Closed(d) && IsDir(d, source) && IsDir(d, dest) && dest != []
    requires !(source <= dest) && !(dest <= source)
    requires forall q :: q in d.nodes && dest <= q ==> q == dest
    ensures var w := Cloning(d, t, [[]], 0, Names(d, source), {});
      CloneOk(w, d, t, source, dest) && w.todo == NamesAt(d, source, w.rels, 0)
      && Pairs(source, dest, w.rels) == [(source, dest)]
  {
    assert source + [] == source && dest + [] == dest;
    WalkStart(d, source, {VERSIONS});
    forall p | p != [] ensures Lookup(d, dest + p) == None {
      assert dest <= dest + p;
    }
  }

  lemma CloneOpen(w: Cloning, d: Disk, t: seq<Disk>, source: Path, dest: Path)
    requires CloneOk(w, d, t, source, dest) && w.index < |w.rels|
    requires w.todo == NamesAt(w.d0, source, w.rels, w.index)
    ensures Names(d, source + w.rels[w.index]) == w.todo
    ensures w.index < |w.d0.nodes.Keys|
  {
    WalkBound(w.d0, source, {VERSIONS}, w.rels, w.index, w.todo, w.seen);
    forall name ensures name in Names(d, source + w.rels[w.index]) <==> name in w.todo {
      NamesMember(d, source + w.rels[w.index], name);
      NamesMember(w.d0, source + w.rels[w.index], name);
      assert source + w.rels[w.index] + [name] == source + (w.rels[w.index] + [name]);
      SourceUntouched(w.d0, d, source, dest, w.rels[w.index] + [name]);
    }
  }

  lemma CloneSkip(w: Cloning, d: Disk, t: seq<Disk>, source: Path, dest: Path)
    requires CloneOk(w, d, t, source, dest) && w.index < |w.rels| && VERSIONS in w.todo
    ensures CloneOk(w.(todo := w.todo - {VERSIONS}), d, t, source, dest)
  {
    WalkSkip(w.d0, source, {VERSIONS}, w.rels, w.index, w.todo, w.seen, VERSIONS);
  }

  lemma CloneReady(w: Cloning, d: Disk, t: seq<Disk>, source: Path, dest: Path, name: string)
    requires CloneOk(w, d, t, source, dest) && w.index < |w.rels| && name in w.todo && name != VERSIONS
    ensures var p := w.rels[w.index] + [name]; var f := source + w.rels[w.index] + [name];
      var g := dest + w.rels[w.index] + [name];
      && f == source + p && g == dest + p && f in w.d0.nodes && Lookup(d, f) == Lookup(w.d0, f)
      && Closed(d) && g !in d.nodes && IsDir(d, Parent(g)) && dest <= g
  {
    var rel := w.rels[w.index];
    var p := rel + [name];
    assert source + rel + [name] == source + p && dest + rel + [name] == dest + p;
    NamesMember(w.d0, source + rel, name);
    SourceUntouched(w.d0, d, source, dest, p);
    NotSeenYet(w.d0, source, {VERSIONS}, w.rels, w.index, w.todo, w.seen, name);
    assert Parent(dest + p) == dest + rel;
    if rel == [] { assert dest + rel == dest; }
    assert IsDir(d, dest + rel);
  }

  lemma CloneRefused(w: Cloning, d: Disk, t: seq<Disk>, source: Path, dest: Path, name: string)
    requires CloneOk(w, d, t, source, dest) && w.index < |w.rels| && name in w.todo && name != VERSIONS
    requires var f := source + w.rels[w.index] + [name];
      f in d.nodes && (d.nodes[f].Link? || d.nodes[f].Special?)
    ensures !Plain(w.d0, source, {VERSIONS})
    ensures Closed(d) && Below(w.d0, d, dest) && Steps(w.t0, t, w.d0, dest) && DirtyDirs(w.d0, d)
    ensures Lookup(d, dest) == Lookup(w.d0, dest)
  {
    hide Walk, Steps, Below, Closed, DirtyDirs;
    CloneReady(w, d, t, source, dest, name);
    WalkVisit(w.d0, source, {VERSIONS}, w.rels, w.index, w.todo, w.seen, name);
    var v, p := Visited(w, source, name), w.rels[w.index] + [name];
    SeenUnskipped(v.d0, source, {VERSIONS}, v.rels, v.index, v.todo, v.seen, p);
    assert source + p == source + w.rels[w.index] + [name];
  }

  lemma CloneVisited(w: Cloning, d: Disk, t: seq<Disk>, d': Disk, t': seq<Disk>,
                     source: Path, dest: Path, name: string)
    requires CloneOk(w, d, t, source, dest) && w.index < |w.rels| && name in w.todo && name != VERSIONS
    requires var f := source + w.rels[w.index] + [name]; var g := dest + w.rels[w.index] + [name];
      f in d.nodes && (d.nodes[f].Dir? || d.nodes[f].File?) && d'.nodes == d.nodes[g := d.nodes[f]]
    requires Closed(d') && Below(d, d', dest) && Steps(t, t', d, dest) && DirtyDirs(d, d')
    ensures var v := Visited(w, source, name); var f := source + w.rels[w.index] + [name];
      var g := dest + w.rels[w.index] + [name];
      CloneOk(v, d', t', source, dest)
      && Pairs(source, dest, v.rels)
         == if IsDir(d', f) then Pairs(source, dest, w.rels) + [(f, g)] else Pairs(source, dest, w.rels)
  {
    hide Walk, Steps, Below, Closed, Copied, Plain, DirtyDirs;
    DirtyDirsTransitive(w.d0, d, d');
    var p := w.rels[w.index] + [name];
    CloneReady(w, d, t, source, dest, name);
    WalkVisit(w.d0, source, {VERSIONS}, w.rels, w.index, w.todo, w.seen, name);
    CopiedOne(w.d0, d, d', source, dest, w.seen, p);
    BelowTransitive(w.d0, d, d', dest);
    StepsThen(w.t0, t, t', w.d0, d, dest);
    SourceUntouched(w.d0, d', source, dest, p);
  }

  lemma CloneNext(w: Cloning, d: Disk, t: seq<Disk>, source: Path, dest: Path)
    requires CloneOk(w, d, t, source, dest) && w.index < |w.rels| && w.todo == {}
    ensures CloneOk(w.(index := w.index + 1, todo := NamesAt(w.d0, source, w.rels, w.index + 1)),
                    d, t, source, dest)
  {
    WalkNext(w.d0, source, {VERSIONS}, w.rels, w.index, w.seen);
  }

  lemma CloneDone(w: Cloning, d: Disk, t: seq<Disk>, source: Path, dest: Path)
    requires CloneOk(w, d, t, source, dest) && w.index == |w.rels|
    ensures Plain(w.d0, source, {VERSIONS})
    ensures forall p :: p != [] ==> Lookup(d, dest + p) == Carried(w.d0, Some(source))(p)
    ensures Closed(d) && Below(w.d0, d, dest) && Steps(w.t0, t, w.d0, dest) && DirtyDirs(w.d0, d)
    ensures Lookup(d, dest) == Lookup(w.d0, dest)
  {
    hide Steps, Below, DirtyDirs, Walk;
    assert w.todo == {};
    forall p | p != [] && source + p in w.d0.nodes ensures p in w.seen <==> VERSIONS !in p {
      if p in w.seen {
        SeenUnskipped(w.d0, source, {VERSIONS}, w.rels, w.index, w.todo, w.seen, p);
      } else if VERSIONS !in p {
        WalkDone(w.d0, source, {VERSIONS}, w.rels, w.seen, p);
      }
    }
  }

  function Under(root: Path, rels: seq<Path>): (r: seq<Path>)
    ensures |r| == |rels| && forall i :: 0 <= i < |r| ==> r[i] == root + rels[i]
  {
    seq(|rels|, i requires 0 <= i < |rels| => root + rels[i])
  }

  ghost predicate SeenPlain(d: Disk, root: Path, seen: set<Path>) {
    forall p :: p in seen && root + p in d.nodes ==> d.nodes[root + p].Dir? || d.nodes[root + p].File?
  }

  lemma SyncStart(d: Disk, root: Path) returns (rels: seq<Path>, seen: set<Path>)
    requires IsDir(d, root)
    ensures Walk(d, root, {}, rels, 0, NamesAt(d, root, rels, 0), seen) && SeenPlain(d, root, seen)
    ensures Under(root, rels) == [root]
  {
    rels, seen := [[]], {};
    assert root + [] == root;
    WalkStart(d, root, {});
  }

  lemma NotPlain(d: Disk, root: Path, p: Path)
    requires p != [] && root + p in d.nodes && (d.nodes[root + p].Link? || d.nodes[root + p].Special?)
    ensures !Plain(d, root, {})
  {
    assert forall name :: name in p ==> name !in {};
  }

  lemma BelowSelf(d: Disk, t: seq<Disk>, h: Path)
    ensures Below(d, d, h) && Steps(t, t, d, h)
  {
  }

  /** The finished list holds every directory of the tree. */
  lemma SyncComplete(d: Disk, root: Path, rels: seq<Path>, seen: set<Path>)
    requires Closed(d) && Walk(d, root, {}, rels, |rels|, {}, seen) && SeenPlain(d, root, seen)
    ensures Plain(d, root, {})
    ensures forall q :: root <= q && IsDir(d, q) ==> q in Under(root, rels)
  {
    forall p | p != [] && root + p in d.nodes ensures p in seen {
      WalkDone(d, root, {}, rels, seen, p);
    }
    forall q | root <= q && IsDir(d, q) ensures q in Under(root, rels) {
      var p := q[|root|..];
      assert q == root + p;
      if p == [] {
        assert Under(root, rels)[0] == root + [] == q;
      } else {
        var i :| 0 <= i < |rels| && rels[i] == p;
        assert Under(root, rels)[i] == q;
      }
    }
  }

  // ---- Removing a tree ------------------------------------------------------

  function Subtree(d: Disk, h: Path): set<Path> {
    set q | q in d.nodes && h <= q
  }

  ghost predicate Removed(d0: Disk, d: Disk, h: Path) {
    forall q :: Lookup(d, q) == if h <= q then None else Lookup(d0, q)
  }

  predicate IsDeepest(q: Path, paths: set<Path>) {
    q in paths && forall r :: r in paths ==> |r| <= |q|
  }

  lemma {:induction false} DeepestExists(paths: set<Path>)
    requires paths != {}
    ensures exists q :: IsDeepest(q, paths)
  {
    var q :| q in paths;
    if paths == {q} {
      assert IsDeepest(q, paths);
    } else {
      DeepestExists(paths - {q});
      var r :| IsDeepest(r, paths - {q});
      assert IsDeepest(if |r| >= |q| then r else q, paths);
    }
  }

  /** Removing a node without children leaves a file system. */
  lemma RemoveDeepest(d: Disk, h: Path, q: Path)
    requires Closed(d) && h != [] && IsDeepest(q, Subtree(d, h))
    ensures Closed(Unlink(d, q)) && Subtree(Unlink(d, q), h) == Subtree(d, h) - {q}
  {
    var d' := Unlink(d, q);
    forall r | r in d'.nodes && r != [] ensures IsDir(d', Parent(r)) {
      assert IsDir(d, Parent(r));
      assert Parent(r) == q ==> h <= r && r in Subtree(d, h);
    }
    assert IsDir(d, Parent(q)) && Parent(q) != q;
  }

  lemma TreeGone(d: Disk, h: Path)
    requires Closed(d) && Subtree(d, h) == {}
    ensures forall q :: h <= q ==> q !in d.nodes && q !in d.dirty
  {
    forall q | h <= q ensures q !in d.nodes && q !in d.dirty {
      assert q !in Subtree(d, h);
    }
  }

  lemma RemoveBelow(d0: Disk, d: Disk, h: Path, q: Path)
    requires Below(d0, d, h) && h != [] && h <= q
    ensures Below(d0, Unlink(d, q), h)
  {
    assert Parent(q) <= h || h <= Parent(q);
  }

  class Volume {
    var disk: Disk
    ghost var trace: seq<Disk>

    constructor (d: Disk)
      ensures disk == d && trace == [d]
    {
      disk, trace := d, [d];
    }

    /** One system call. */
    method Do(d: Disk)
      modifies this
      ensures disk == d && trace == old(trace) + [d]
    {
      disk := d;
      trace := trace + [d];
    }

    method CreateDirectory(p: Path, mode: nat, ghost h: Path) returns (ok: bool)
      requires Closed(disk) && p != [] && h <= p
      modifies this
      ensures ok <==> p !in old(disk).nodes && IsDir(old(disk), Parent(p))
      ensures disk.nodes == if ok then old(disk).nodes[p := RootDir(mode)] else old(disk).nodes
      ensures ok ==> disk.dirty == old(disk).dirty - {p, Parent(p)}
      ensures !ok ==> disk == old(disk)
      ensures DirtyDirs(old(disk), disk)
      ensures Closed(disk) && Below(old(disk), disk, h) && Steps(old(trace), trace, old(disk), h)
    {
      ok := p !in disk.nodes && IsDir(disk, Parent(p));
      if ok {
        CreateClosed(disk, p, RootDir(mode));
        CreateBelow(disk, disk, h, p, RootDir(mode));
        Do(Create(disk, p, RootDir(mode)));
        SyncBelow(old(disk), disk, h, p);
        Do(Sync(disk, p));
        SyncBelow(old(disk), disk, h, Parent(p));
        Do(Sync(disk, Parent(p)));
      }
    }

    /** Creates `p`, fills it, and syncs it. */
    method WriteFile(p: Path, node: Node, ghost h: Path)
      requires Closed(disk) && p != [] && h <= p && p !in disk.nodes && IsDir(disk, Parent(p))
      modifies this
      ensures disk.nodes == old(disk).nodes[p := node]
      ensures disk.dirty == old(disk).dirty + {Parent(p)} - {p} && DirtyDirs(old(disk), disk)
      ensures Closed(disk) && Below(old(disk), disk, h) && Steps(old(trace), trace, old(disk), h)
    {
      hide Closed, Below;
      var empty := File(Raw([]), 0, 0, 0x180, None);
      BelowSelf(disk, trace, h);
      CreateClosed(disk, p, empty);
      CreateBelow(disk, disk, h, p, empty);
      Do(Create(disk, p, empty));
      CreateClosed(disk, p, node);
      CreateBelow(old(disk), disk, h, p, node);
      Do(Create(disk, p, node));
      SyncBelow(old(disk), disk, h, p);
      Do(Sync(disk, p));
    }

    /** Gives the new directory `p` its final mode, owner and readers. */
    method CopyMetadata(p: Path, node: Node, ghost h: Path)
      requires Closed(disk) && p != [] && h <= p && IsDir(disk, p) && node.Dir?
      modifies this
      ensures disk.nodes == old(disk).nodes[p := node]
      ensures disk.dirty == old(disk).dirty + {Parent(p)} - {p} && DirtyDirs(old(disk), disk)
      ensures Closed(disk) && Below(old(disk), disk, h) && Steps(old(trace), trace, old(disk), h)
    {
      CreateClosed(disk, p, node);
      CreateBelow(disk, disk, h, p, node);
      Do(Create(disk, p, node));
      SyncBelow(old(disk), disk, h, p);
      Do(Sync(disk, p));
    }

    /** Copies one file, or one directory without its entries. */
    method CopyOne(from: Path, to: Path, ghost h: Path)
      requires Closed(disk) && to != [] && h <= to && to !in disk.nodes && IsDir(disk, Parent(to))
      requires from in disk.nodes && (disk.nodes[from].Dir? || disk.nodes[from].File?)
      modifies this
      ensures disk.nodes == old(disk).nodes[to := old(disk).nodes[from]]
      ensures Closed(disk) && Below(old(disk), disk, h) && Steps(old(trace), trace, old(disk), h)
      ensures DirtyDirs(old(disk), disk)
    {
      var node := disk.nodes[from];
      if node.File? {
        WriteFile(to, node, h);
      } else {
        var made := CreateDirectory(to, node.mode % 512, h);
        ghost var d1, t1 := disk, trace;
        CopyMetadata(to, node, h);
        StepsThen(old(trace), t1, trace, old(disk), d1, h);
        DirtyDirsTransitive(old(disk), d1, disk);
        BelowTransitive(old(disk), d1, disk, h);
      }
    }

    /** Copies the tree at `source` into the empty directory `dest`. Fails
        exactly when the tree holds something other than files and directories
        outside skipped names. */
    method CloneTree(source: Path, dest: Path) returns (ok: bool)
      requires Closed(disk) && IsDir(disk, source) && IsDir(disk, dest) && dest != []
      requires !(source <= dest) && !(dest <= source)
      requires forall q :: q in disk.nodes && dest <= q ==> q == dest
      modifies this
      ensures Closed(disk) && Below(old(disk), disk, dest) && Steps(old(trace), trace, old(disk), dest)
      ensures Lookup(disk, dest) == Lookup(old(disk), dest)
      ensures DirtyDirs(old(disk), disk)
      ensures ok <==> Plain(old(disk), source, {VERSIONS})
      ensures ok ==> forall p :: p != [] ==> Lookup(disk, dest + p) == Carried(old(disk), Some(source))(p)
    {
      hide Walk, Copied, Steps, Below, Closed, DirtyDirs, Plain, Carried, CloneOk, Names, Read;
      ghost var w := Cloning(disk, trace, [[]], 0, Names(disk, source), {});
      CloneStart(disk, trace, source, dest);
      var directories := [(source, dest)];
      var index := 0;
      while index < |directories|
        invariant CloneOk(w, disk, trace, source, dest) && w.d0 == old(disk) && w.t0 == old(trace)
        invariant w.index == index <= |w.rels| && w.todo == NamesAt(w.d0, source, w.rels, index)
        invariant directories == Pairs(source, dest, w.rels)
        decreases |w.d0.nodes.Keys| - index
      {
        var (from, to) := directories[index];
        var todo := Names(disk, from);
        CloneOpen(w, disk, trace, source, dest);
        while todo != {}
          invariant CloneOk(w, disk, trace, source, dest) && w.d0 == old(disk) && w.t0 == old(trace)
          invariant w.index == index < |w.rels| && w.todo == todo
          invariant from == source + w.rels[index] && to == dest + w.rels[index]
          invariant directories == Pairs(source, dest, w.rels)
          decreases todo
        {
          var name :| name in todo;
          todo := todo - {name};
          if name == VERSIONS {
            CloneSkip(w, disk, trace, source, dest);
            w := w.(todo := todo);
          } else {
            CloneReady(w, disk, trace, source, dest, name);
            if disk.nodes[from + [name]].Link? || disk.nodes[from + [name]].Special? {
              CloneRefused(w, disk, trace, source, dest, name);
              return false;
            }
            ghost var d, t := disk, trace;
            CopyOne(from + [name], to + [name], dest);
            CloneVisited(w, d, t, disk, trace, source, dest, name);
            w := Visited(w, source, name);
            if IsDir(disk, from + [name]) {
              directories := directories + [(from + [name], to + [name])];
            }
          }
        }
        CloneNext(w, disk, trace, source, dest);
        index := index + 1;
        w := w.(index := index, todo := NamesAt(w.d0, source, w.rels, index));
      }
      CloneDone(w, disk, trace, source, dest);
      ok := true;
    }

    /** Syncs every directory of the tree, after finding that it holds nothing
        but files and directories. */
    method SyncTree(root: Path) returns (ok: bool)
      requires Closed(disk) && IsDir(disk, root)
      modifies this
      ensures disk.nodes == old(disk).nodes && disk.dirty <= old(disk).dirty
      ensures ok <==> Plain(old(disk), root, {})
      ensures ok ==> forall q :: root <= q && q in disk.dirty ==> !IsDir(disk, q)
      ensures Closed(disk) && Below(old(disk), disk, root) && Steps(old(trace), trace, old(disk), root)
    {
      hide Walk, Closed, Below, Steps, Plain;
      ghost var rels, seen := SyncStart(disk, root);
      var directories := [root];
      var index := 0;
      while index < |directories|
        invariant disk == old(disk) && trace == old(trace)
        invariant index <= |rels| && directories == Under(root, rels)
        invariant Walk(disk, root, {}, rels, index, NamesAt(disk, root, rels, index), seen)
        invariant SeenPlain(disk, root, seen)
        decreases |disk.nodes.Keys| - index
      {
        WalkBound(disk, root, {}, rels, index, NamesAt(disk, root, rels, index), seen);
        var dir := directories[index];
        var todo := Names(disk, dir);
        while todo != {}
          invariant disk == old(disk) && trace == old(trace)
          invariant index < |rels| && directories == Under(root, rels)
          invariant todo <= Names(disk, dir) && dir == root + rels[index]
          invariant Walk(disk, root, {}, rels, index, todo, seen)
          invariant SeenPlain(disk, root, seen)
          decreases todo
        {
          var name :| name in todo;
          NamesMember(disk, dir, name);
          ghost var p := rels[index] + [name];
          assert dir + [name] == root + p;
          WalkVisit(disk, root, {}, rels, index, todo, seen, name);
          if disk.nodes[dir + [name]].Link? || disk.nodes[dir + [name]].Special? {
            NotPlain(disk, root, p);
            BelowSelf(disk, trace, root);
            return false;
          }
          if disk.nodes[dir + [name]].Dir? {
            directories := directories + [dir + [name]];
            rels := rels + [p];
          }
          seen := seen + {p};
          todo := todo - {name};
        }
        WalkNext(disk, root, {}, rels, index, seen);
        index := index + 1;
      }
      SyncComplete(disk, root, rels, seen);
      SyncAll(directories, root);
      ok := true;
    }

    /** `remove_dir_all`: the deepest nodes first. */
    method RemoveTree(h: Path)
      requires Closed(disk) && h != []
      modifies this
      ensures Removed(old(disk), disk, h)
      ensures disk.dirty <= old(disk).dirty + {Parent(h)}
      ensures Closed(disk) && Below(old(disk), disk, h) && Steps(old(trace), trace, old(disk), h)
    {
      hide Closed, Below;
      ghost var d0, t0 := disk, trace;
      var todo := Subtree(disk, h);
      BelowSelf(d0, t0, h);
      while todo != {}
        invariant todo == Subtree(disk, h) && Closed(disk) && Below(d0, disk, h) && Steps(t0, trace, d0, h)
        invariant forall q :: !(h <= q) ==> Lookup(disk, q) == Lookup(d0, q)
        invariant forall q :: q in disk.dirty ==> q in d0.dirty || q == Parent(h) || h <= q
        decreases todo
      {
        DeepestExists(todo);
        var q :| q in todo && IsDeepest(q, todo);
        RemoveDeepest(disk, h, q);
        RemoveBelow(d0, disk, h, q);
        assert q == h || h <= Parent(q);
        Do(Unlink(disk, q));
        todo := todo - {q};
      }
      TreeGone(disk, h);
    }

    method SyncAll(directories: seq<Path>, ghost h: Path)
      requires Closed(disk)
      modifies this
      ensures disk.nodes == old(disk).nodes && disk.dirty == old(disk).dirty - SetOf(directories)
      ensures Closed(disk) && Below(old(disk), disk, h) && Steps(old(trace), trace, old(disk), h)
    {
      for i := |directories| downto 0
        invariant disk.nodes == old(disk).nodes
        invariant disk.dirty == old(disk).dirty - SetOf(directories[i..])
        invariant Closed(disk) && Below(old(disk), disk, h) && Steps(old(trace), trace, old(disk), h)
      {
        assert directories[i..] == [directories[i]] + directories[i + 1..];
        SyncBelow(old(disk), disk, h, directories[i]);
        Do(Sync(disk, directories[i]));
      }
      assert directories[0..] == directories;
    }
  }
}
