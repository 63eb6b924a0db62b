/** The worklist over a directory tree that `clone_tree` and `sync_tree` share:
    a growing list of directories, read one after the other, each directory's
    entries in any order. */
module TreeWalk {
  import opened Prelude
  import opened Filesystem

  function Names(d: Disk, dir: Path): set<string> {
    set q | q in d.nodes && |q| == |dir| + 1 && dir <= q :: q[|dir|]
  }

  lemma NamesMember(d: Disk, dir: Path, name: string)
    ensures name in Names(d, dir) <==> dir + [name] in d.nodes
  {
    if dir + [name] in d.nodes {
      var q := dir + [name];
      assert q in d.nodes && |q| == |dir| + 1 && dir <= q && q[|dir|] == name;
    }
    if name in Names(d, dir) {
      var q :| q in d.nodes && |q| == |dir| + 1 && dir <= q && q[|dir|] == name;
      assert q == dir + [name];
    }
  }

  function Last(p: Path): string
    requires p != []
  {
    p[|p| - 1]
  }

  /** `p` has been read: its directory lies before position `index` of the
      list, or at it with the entry no longer in `todo`. */
  ghost predicate Read(rels: seq<Path>, index: nat, todo: set<string>, p: Path) {
    p != [] && exists i ::
      0 <= i < |rels| && i <= index && rels[i] == Parent(p) && (i == index ==> Last(p) !in todo)
  }

  /** The state of a walk of the tree at `root`: directories found so far,
      relative to it, and the entries `seen`, which leave out `skip`. */
  ghost predicate Walk(d: Disk, root: Path, skip: set<string>,
                       rels: seq<Path>, index: nat, todo: set<string>, seen: set<Path>)
  {
    && rels != [] && rels[0] == [] && NoDup(rels) && index <= |rels|
    && (forall i :: 0 < i < |rels| ==> rels[i] in seen)
    && (forall i :: 0 <= i < |rels| ==> IsDir(d, root + rels[i]))
    && (forall p :: p in seen && IsDir(d, root + p) ==> p in rels)
    && (forall p :: p in seen <==>
          p != [] && root + p in d.nodes && Last(p) !in skip && Read(rels, index, todo, p))
  }

  lemma WalkStart(d: Disk, root: Path, skip: set<string>)
    requires IsDir(d, root)
    ensures Walk(d, root, skip, [[]], 0, Names(d, root), {})
  {
    assert root + [] == root;
    forall p | p != [] && root + p in d.nodes ensures !Read([[]], 0, Names(d, root), p) {
      if Parent(p) == [] {
        assert p == [Last(p)];
        NamesMember(d, root, Last(p));
      }
    }
  }

  lemma NotSeenYet(d: Disk, root: Path, skip: set<string>,
                   rels: seq<Path>, index: nat, todo: set<string>, seen: set<Path>, name: string)
    requires Walk(d, root, skip, rels, index, todo, seen) && index < |rels| && name in todo
    ensures rels[index] + [name] !in seen && rels[index] + [name] !in rels
  {
    var p := rels[index] + [name];
    assert Parent(p) == rels[index] && Last(p) == name;
  }

  /** Reading an entry that is not skipped. */
  lemma WalkVisit(d: Disk, root: Path, skip: set<string>,
                  rels: seq<Path>, index: nat, todo: set<string>, seen: set<Path>, name: string)
    requires Walk(d, root, skip, rels, index, todo, seen) && index < |rels|
    requires name in todo && name !in skip && root + (rels[index] + [name]) in d.nodes
    ensures var p := rels[index] + [name];
      Walk(d, root, skip, if IsDir(d, root + p) then rels + [p] else rels, index, todo - {name}, seen + {p})
  {
    var p := rels[index] + [name];
    NotSeenYet(d, root, skip, rels, index, todo, seen, name);
    var rels' := if IsDir(d, root + p) then rels + [p] else rels;
    forall q ensures Read(rels', index, todo - {name}, q) <==> Read(rels, index, todo, q) || q == p {
      ReadVisit(rels, rels', index, todo, name, q);
    }
  }

  lemma ReadVisit(rels: seq<Path>, rels': seq<Path>, index: nat, todo: set<string>, name: string, q: Path)
    requires NoDup(rels) && rels <= rels' && index < |rels| && name in todo
    ensures Read(rels', index, todo - {name}, q) <==> Read(rels, index, todo, q) || q == rels[index] + [name]
  {
    var p := rels[index] + [name];
    assert Parent(p) == rels[index] && Last(p) == name;
    if q != [] && Parent(q) == rels[index] && Last(q) == name {
      assert q == Parent(q) + [Last(q)];
    }
    if Read(rels', index, todo - {name}, q) {
      var i :| 0 <= i < |rels'| && i <= index && rels'[i] == Parent(q) && (i == index ==> Last(q) !in todo - {name});
      assert rels[i] == Parent(q);
    }
    if Read(rels, index, todo, q) {
      var i :| 0 <= i < |rels| && i <= index && rels[i] == Parent(q) && (i == index ==> Last(q) !in todo);
      assert rels'[i] == Parent(q);
    }
    assert rels'[index] == rels[index];
  }

  /** Passing over an entry that is skipped. */
  lemma WalkSkip(d: Disk, root: Path, skip: set<string>,
                 rels: seq<Path>, index: nat, todo: set<string>, seen: set<Path>, name: string)
    requires Walk(d, root, skip, rels, index, todo, seen) && index < |rels|
    requires name in todo && name in skip
    ensures Walk(d, root, skip, rels, index, todo - {name}, seen)
  {
    forall q ensures Read(rels, index, todo - {name}, q) <==> Read(rels, index, todo, q) || q == rels[index] + [name] {
      ReadVisit(rels, rels, index, todo, name, q);
    }
    assert Last(rels[index] + [name]) == name;
  }

  function NamesAt(d: Disk, root: Path, rels: seq<Path>, index: nat): set<string> {
    if index < |rels| then Names(d, root + rels[index]) else {}
  }

  /** Going on to the next directory of the list. */
  lemma WalkNext(d: Disk, root: Path, skip: set<string>, rels: seq<Path>, index: nat, seen: set<Path>)
    requires Walk(d, root, skip, rels, index, {}, seen) && index < |rels|
    ensures Walk(d, root, skip, rels, index + 1, NamesAt(d, root, rels, index + 1), seen)
  {
    var todo := NamesAt(d, root, rels, index + 1);
    forall p | p != [] && root + p in d.nodes
      ensures Read(rels, index + 1, todo, p) <==> Read(rels, index, {}, p)
    {
      ReadNext(d, root, rels, index, p);
    }
  }

  lemma ReadNext(d: Disk, root: Path, rels: seq<Path>, index: nat, p: Path)
    requires p != [] && root + p in d.nodes && index < |rels|
    ensures Read(rels, index + 1, NamesAt(d, root, rels, index + 1), p) <==> Read(rels, index, {}, p)
  {
    var todo := NamesAt(d, root, rels, index + 1);
    assert root + p == (root + Parent(p)) + [Last(p)];
    NamesMember(d, root + Parent(p), Last(p));
    if Read(rels, index + 1, todo, p) {
      var i :| 0 <= i < |rels| && i <= index + 1 && rels[i] == Parent(p) && (i == index + 1 ==> Last(p) !in todo);
      assert i <= index;
    }
    if Read(rels, index, {}, p) {
      var i :| 0 <= i < |rels| && i <= index && rels[i] == Parent(p);
      assert i <= index + 1;
    }
  }

  /** A finished walk has seen every node that no skipped name hides. */
  lemma {:induction false} WalkDone(d: Disk, root: Path, skip: set<string>,
                                    rels: seq<Path>, seen: set<Path>, p: Path)
    requires Closed(d) && Walk(d, root, skip, rels, |rels|, {}, seen)
    requires p != [] && root + p in d.nodes && forall name :: name in p ==> name !in skip
    ensures p in seen
    decreases |p|
  {
    var parent := Parent(p);
    assert Parent(root + p) == root + parent;
    assert IsDir(d, root + parent);
    assert p == parent + [Last(p)] && Last(p) in p;
    if parent != [] {
      assert forall name :: name in parent ==> name in p;
      WalkDone(d, root, skip, rels, seen, parent);
    }
    assert parent in rels;
    assert Read(rels, |rels|, {}, p);
  }

  /** What has been seen is not hidden by a skipped name. */
  lemma {:induction false} SeenUnskipped(d: Disk, root: Path, skip: set<string>,
                                         rels: seq<Path>, index: nat, todo: set<string>, seen: set<Path>, p: Path)
    requires Walk(d, root, skip, rels, index, todo, seen) && p in seen
    ensures forall name :: name in p ==> name !in skip
    decreases |p|
  {
    assert p == Parent(p) + [Last(p)];
    if Parent(p) != [] {
      var i :| 0 <= i < |rels| && i <= index && rels[i] == Parent(p);
      assert i != 0;
      SeenUnskipped(d, root, skip, rels, index, todo, seen, Parent(p));
    }
  }

  /** The list stays within the directories of the tree, so a walk ends. */
  lemma WalkBound(d: Disk, root: Path, skip: set<string>,
                  rels: seq<Path>, index: nat, todo: set<string>, seen: set<Path>)
    requires Walk(d, root, skip, rels, index, todo, seen)
    ensures |rels| <= |d.nodes.Keys|
  {
    var full := seq(|rels|, i requires 0 <= i < |rels| => root + rels[i]);
    forall i, j | 0 <= i < j < |full| ensures full[i] != full[j] {
      assert full[i][|root|..] == rels[i] && full[j][|root|..] == rels[j];
    }
    NoDupSize(full);
    assert SetOf(full) <= d.nodes.Keys;
    SubsetSize(SetOf(full), d.nodes.Keys);
  }
}
