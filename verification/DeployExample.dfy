/** Two deployments into an empty root, the first of a secret that has the name of
    the versions file. */
module DeployExample {
  import opened Prelude
  import opened Filesystem
  import opened FsUtil
  import opened Publisher
  import opened Deploy

  const EMPTY := Disk(map[[] := RootDir(TRAVERSABLE)], {})

  const LOST := ResolvedSecret("h.services.s.a", "1", "s", Service, ".versions.json", [7], 0, 0, 0x100)
  const OTHER := ResolvedSecret("h.services.s.b", "1", "s", Service, "b", [8], 0, 0, 0x100)

  lemma EmptyAccepts()
    ensures RootOk(EMPTY) && CurrentTarget(EMPTY).None? && Accepts(EMPTY, [LOST], "1")
  {
    assert forall p :: Carried(EMPTY, None)(p) == None;
  }

  lemma BothValid()
    ensures ValidBatch([LOST]) && ValidBatch([OTHER]) && !Hidden("s")
    ensures Relative(LOST) == ["s", "service", ".versions.json"] && Relative(OTHER) == ["s", "service", "b"]
  {
    assert ValidName("s") && ValidName("b") && ValidName(".versions.json");
  }

  /** A first deployment of one value shows that value and what lies above it. */
  lemma FirstDeployment(d0: Disk, e: ResolvedSecret, d: Disk, p: Path)
    requires CurrentTarget(d0).None? && Published(d0, [e], d) && p != [] && !Hidden(p[0]) && p != Relative(e)
    ensures Seen(d, p) == if p <= Relative(e) then Some(RootDir(TRAVERSABLE)) else None
  {
    hide RootOk, Updated;
    var t := Carried(d0, CurrentTarget(d0));
    assert t(p) == None;
    assert e in [e] && forall f :: f in [e] ==> f == e;
    assert IsOverlay(t, [e], p, Seen(d, p));
  }

  /** Another value beside the first one fits. */
  lemma SecondFits(d: Disk)
    requires Linked(d, "s") && CurrentTarget(d).Some?
    requires Seen(d, ["s"]) == Some(RootDir(TRAVERSABLE)) && Seen(d, ["s", "service"]) == Some(RootDir(TRAVERSABLE))
    requires Seen(d, ["s", "service", "b"]) == None
    ensures Fits(Carried(d, CurrentTarget(d)), [OTHER])
  {
    hide ValidBatch;
    BothValid();
    var t, rel := Carried(d, CurrentTarget(d)), Relative(OTHER);
    assert Parent(rel) == ["s", "service"];
    forall p | p != [] && p <= Parent(rel) && t(p).Some? ensures t(p).value.Dir? {
      assert p == ["s"] || p == ["s", "service"];
    }
    assert Open(t, Parent(rel)) && t(rel) == None;
    assert forall e :: e in [OTHER] ==> e == OTHER;
  }

  lemma FreshPaths(d: Disk)
    requires Apart(EMPTY, d, [LOST], "1")
    ensures Staging("2") !in d.nodes && Generation("2") !in d.nodes && Pending("2") !in d.nodes
  {
    hide Apart;
    assert forall e :: e in [LOST] ==> e.service == "s";
    assert Staging("2")[1][9] != Staging("1")[1][9] && Staging("2")[1][0] != Generation("1")[1][0];
    ApartAt(EMPTY, d, [LOST], "1", Staging("2"));
    assert Generation("2")[1][0] != Generation("1")[1][0] && Generation("2")[1][0] != Staging("1")[1][0];
    ApartAt(EMPTY, d, [LOST], "1", Generation("2"));
    var c := Pending("2");
    assert c[0][9] != Pending("1")[0][9] && |c[0]| != |CURRENT[0]| && |c[0]| != |STORE[0]| && |c[0]| != |"s"|;
    ApartAt(EMPTY, d, [LOST], "1", c);
  }

  /** The first deployment installs the secret; the second one, of another secret,
      is accepted and takes it away. */
  method VersionsSecretIsLost() returns (before: Option<Node>, between: Option<Node>, after: Option<Node>)
    ensures before == None && after == None
    ensures between.Some? && between.value.File? && between.value.content == Raw(LOST.contents)
  {
    hide RootOk, Published, Unchanged, Plain, Apart, StageOk, ValidBatch, Carried, Fits;
    BothValid();
    EmptyAccepts();
    var v := new Volume(EMPTY);
    var path := Relative(LOST);
    before := Seen(v.disk, path);
    var ok, at := DeployInner(v, [LOST], "1", d => true);
    ghost var d1 := v.disk;
    BatchInstalled(EMPTY, [LOST], d1, LOST);
    between := Seen(v.disk, path);
    PublishedRoot(EMPTY, [LOST], d1);
    assert path[2] == VERSIONS && |path[2]| != |Relative(OTHER)[2]|;
    FirstDeployment(EMPTY, LOST, d1, ["s"]);
    FirstDeployment(EMPTY, LOST, d1, ["s", "service"]);
    FirstDeployment(EMPTY, LOST, d1, ["s", "service", "b"]);
    SecondFits(d1);
    FreshPaths(d1);
    Redeployable(d1, [OTHER], "1", "2");
    ok, at := DeployInner(v, [OTHER], "2", d => true);
    CarriedOver(d1, [OTHER], v.disk, path);
    after := Seen(v.disk, path);
  }
}
