/** Manifests of store closures and of artifacts, and the signature lists that
    are accepted for them. */
module ClosureSigning {
  import opened Prelude
  import opened Ordered
  import opened Text

  const VERSION: nat := 1
  const MAX_MANIFEST_BYTES: nat := 4 * 1024 * 1024
  const MAX_PATHS: nat := 4096
  const MAX_NAR_BYTES: nat := 128 * 1024 * 1024 * 1024
  const STORE_PREFIX := "/nix/store/"

  datatype ManifestPath = ManifestPath(path: string, narHash: string, narSize: nat, references: seq<string>)

  /** The digits 0-9 and the letters a-z without e, o, t and u. */
  predicate Nix32(c: char) {
    '0' <= c <= '9' || ('a' <= c <= 'z' && c != 'e' && c != 'o' && c != 't' && c != 'u')
  }

  predicate NameByte(c: char) {
    Alphanumeric(c) || c in "+-._?="
  }

  predicate CanonicalStorePath(path: string) {
    STORE_PREFIX <= path &&
    var name := path[|STORE_PREFIX|..];
    33 < |name| <= 244 && name[32] == '-' && name[33] != '.'
    && (forall i :: 0 <= i < 32 ==> Nix32(name[i]))
    && (forall i :: 33 <= i < |name| ==> NameByte(name[i]))
  }

  /** `ManifestPath::validate`. */
  predicate ValidPath(p: ManifestPath) {
    && CanonicalStorePath(p.path)
    && "sha256:" <= p.narHash
    && (var hash := p.narHash[7..];
        |hash| == 52 && (hash[0] == '0' || hash[0] == '1') && forall i :: 0 <= i < 52 ==> Nix32(hash[i]))
    && 0 < p.narSize <= MAX_NAR_BYTES
    && |p.references| <= MAX_PATHS
    && (forall i :: 0 <= i < |p.references| ==> CanonicalStorePath(p.references[i]))
    && (forall i :: 0 <= i < |p.references| - 1 ==>
          Le(p.references[i], p.references[i + 1]) && p.references[i] != p.references[i + 1])
  }

  function Fingerprint(p: ManifestPath): string {
    "1;" + p.path + ";" + p.narHash + ";" + Decimal(p.narSize) + ";" + Join(p.references, ",")
  }

  lemma PathBytes(path: string)
    requires CanonicalStorePath(path)
    ensures path != [] && ';' !in path && ',' !in path
  {
    var n := |STORE_PREFIX|;
    forall i | 0 <= i < |path| ensures path[i] != ';' && path[i] != ',' {
      if i < n {
        assert path[i] == STORE_PREFIX[i];
      } else {
        assert path[n..][i - n] == path[i];
      }
    }
  }

  lemma HashBytes(p: ManifestPath)
    requires ValidPath(p)
    ensures ';' !in p.narHash
  {
    forall i | 0 <= i < |p.narHash| ensures p.narHash[i] != ';' {
      if i < 7 {
        assert p.narHash[i] == "sha256:"[i];
      } else {
        assert p.narHash[7..][i - 7] == p.narHash[i];
      }
    }
  }

  lemma JoinInjective(a: seq<string>, b: seq<string>)
    requires forall i :: 0 <= i < |a| ==> a[i] != [] && ',' !in a[i]
    requires forall i :: 0 <= i < |b| ==> b[i] != [] && ',' !in b[i]
    requires Join(a, ",") == Join(b, ",")
    ensures a == b
  {
    if a == [] || b == [] {
      JoinNonempty(a);
      JoinNonempty(b);
    } else {
      SplitJoin(a, ',');
      SplitJoin(b, ',');
    }
  }

  lemma JoinNonempty(a: seq<string>)
    requires forall i :: 0 <= i < |a| ==> a[i] != []
    ensures Join(a, ",") == [] <==> a == []
  {
  }

  /** Equal fingerprints come from equal paths, hashes, sizes and references. */
  lemma FingerprintInjective(a: ManifestPath, b: ManifestPath)
    requires ValidPath(a) && ValidPath(b) && Fingerprint(a) == Fingerprint(b)
    ensures a == b
  {
    hide Decimal, Join, CanonicalStorePath;
    PathBytes(a.path);
    PathBytes(b.path);
    HashBytes(a);
    HashBytes(b);
    forall i | 0 <= i < |a.references| ensures a.references[i] != [] && ',' !in a.references[i] {
      PathBytes(a.references[i]);
    }
    forall i | 0 <= i < |b.references| ensures b.references[i] != [] && ',' !in b.references[i] {
      PathBytes(b.references[i]);
    }
    FieldsEqual(a, b);
    DecimalInjective(a.narSize, b.narSize);
    JoinInjective(a.references, b.references);
  }

  lemma FieldsEqual(a: ManifestPath, b: ManifestPath)
    requires Fingerprint(a) == Fingerprint(b)
    requires ';' !in a.path && ';' !in b.path && ';' !in a.narHash && ';' !in b.narHash
    ensures a.path == b.path && a.narHash == b.narHash
    ensures Decimal(a.narSize) == Decimal(b.narSize) && Join(a.references, ",") == Join(b.references, ",")
  {
    hide Join;
    var a3, b3 := Join(a.references, ","), Join(b.references, ",");
    var a2, b2 := Decimal(a.narSize) + [';'] + a3, Decimal(b.narSize) + [';'] + b3;
    var a1, b1 := a.narHash + [';'] + a2, b.narHash + [';'] + b2;
    assert Fingerprint(a)[2..] == a.path + [';'] + a1 by { Fields(a.path, a.narHash, Decimal(a.narSize), a3); }
    assert Fingerprint(b)[2..] == b.path + [';'] + b1 by { Fields(b.path, b.narHash, Decimal(b.narSize), b3); }
    CutCancel(a.path, a1, b.path, b1, ';');
    CutCancel(a.narHash, a2, b.narHash, b2, ';');
    CutCancel(Decimal(a.narSize), a3, Decimal(b.narSize), b3, ';');
  }

  lemma Fields(path: string, hash: string, size: string, refs: string)
    ensures ("1;" + path + ";" + hash + ";" + size + ";" + refs)[2..]
         == path + [';'] + (hash + [';'] + (size + [';'] + refs))
  {
    var s := "1;" + path + ";" + hash + ";" + size + ";" + refs;
    assert s == "1;" + (path + [';'] + (hash + [';'] + (size + [';'] + refs)));
  }

  /** The fingerprint as Nix reads it: five fields between semicolons, the format 1,
      the path, its hash, its size in decimal, and the references between commas. */
  lemma FingerprintFields(p: ManifestPath)
    requires ValidPath(p)
    ensures
      var fields := Split(Fingerprint(p), ';');
      |fields| == 5 && fields[0] == "1" && fields[1] == p.path && fields[2] == p.narHash
      && NumberOf(fields[3]) == p.narSize && fields[3][0] != '0'
      && (p.references == [] ==> fields[4] == "") && (p.references != [] ==> Split(fields[4], ',') == p.references)
  {
    hide Decimal, Join, CanonicalStorePath, Split;
    var size, refs := Decimal(p.narSize), Join(p.references, ",");
    PathBytes(p.path);
    HashBytes(p);
    ReferencesBytes(p);
    DecimalReads(p.narSize);
    Fields(p.path, p.narHash, size, refs);
    assert ';' !in size && ';' !in "1";
    SplitPrefix("1", ';', p.path + [';'] + (p.narHash + [';'] + (size + [';'] + refs)));
    SplitPrefix(p.path, ';', p.narHash + [';'] + (size + [';'] + refs));
    SplitPrefix(p.narHash, ';', size + [';'] + refs);
    SplitPrefix(size, ';', refs);
    SplitPrefix(refs, ';', []);
    assert Fingerprint(p) == "1" + [';'] + (p.path + [';'] + (p.narHash + [';'] + (size + [';'] + refs)));
  }

  lemma ReferencesBytes(p: ManifestPath)
    requires ValidPath(p)
    ensures
      var refs := Join(p.references, ",");
      ';' !in refs && (p.references == [] ==> refs == "") && (p.references != [] ==> Split(refs, ',') == p.references)
  {
    hide CanonicalStorePath, Split, Join;
    forall i | 0 <= i < |p.references| ensures ';' !in p.references[i] && ',' !in p.references[i] {
      PathBytes(p.references[i]);
    }
    if p.references == [] {
      assert Join([], ",") == [] by { NothingJoined(); }
    } else {
      SplitJoin(p.references, ',');
    }
    JoinWithout(p.references, ",", ';');
  }

  lemma NothingJoined()
    ensures Join([], ",") == []
  {
  }

  lemma {:induction false} JoinWithout(parts: seq<string>, sep: string, c: char)
    requires c !in sep && forall i :: 0 <= i < |parts| ==> c !in parts[i]
    ensures c !in Join(parts, sep)
  {
    if |parts| > 1 { JoinWithout(parts[1..], sep, c); }
  }

  function Zeros(n: nat): string {
    seq(n, i => '0')
  }

  function SamplePath(name: string): string {
    "/nix/store/" + Zeros(32) + "-" + name
  }

  lemma SamplePathOk(name: string)
    requires 1 <= |name| <= 211
    ensures CanonicalStorePath(SamplePath(name)) <==> name[0] != '.' && forall i :: 0 <= i < |name| ==> NameByte(name[i])
  {
    var path := SamplePath(name);
    assert path[11..] == Zeros(32) + "-" + name;
    var rest := path[11..];
    assert forall i :: 0 <= i < 32 ==> rest[i] == '0';
    assert rest[32] == '-' && rest[33..] == name;
    forall i | 33 <= i < |rest| ensures rest[i] == name[i - 33] { assert rest[33..][i - 33] == rest[i]; }
    if forall i :: 33 <= i < |rest| ==> NameByte(rest[i]) {
      forall i | 0 <= i < |name| ensures NameByte(name[i]) { assert rest[i + 33] == name[i]; }
    }
  }

  const SAMPLE := ManifestPath(SamplePath("root"), "sha256:" + Zeros(52), 7, [SamplePath("a"), SamplePath("b")])

  /** A valid path, and the changes to it that are refused: a hidden or broken name, a
      letter that is no digit of a store hash, references out of order or twice, a
      hash beyond 256 bits, no size or too large a one. */
  lemma SampleValid()
    ensures ValidPath(SAMPLE)
    ensures !CanonicalStorePath(SamplePath(".hidden")) && !CanonicalStorePath(SamplePath("a;evil"))
    ensures !CanonicalStorePath(SamplePath("a/b")) && !CanonicalStorePath("/nix/store/../../root")
    ensures !ValidPath(SAMPLE.(narSize := 0)) && !ValidPath(SAMPLE.(narSize := MAX_NAR_BYTES + 1))
    ensures !ValidPath(SAMPLE.(references := [SamplePath("b"), SamplePath("a")]))
    ensures !ValidPath(SAMPLE.(references := [SamplePath("a"), SamplePath("a")]))
    ensures !ValidPath(SAMPLE.(narHash := "sha256:2" + Zeros(51)))
  {
    hide CanonicalStorePath, SamplePath, Le;
    SamplePathOk("root");
    SamplePathOk("a");
    SamplePathOk("b");
    SamplePathOk(".hidden");
    SamplePathOk("a;evil");
    SamplePathOk("a/b");
    assert "a;evil"[1] == ';' && "a/b"[1] == '/';
    SampleOrder();
    ShortPath();
    var swapped, twice := [SamplePath("b"), SamplePath("a")], [SamplePath("a"), SamplePath("a")];
    assert !Le(swapped[0], swapped[0 + 1]) && twice[0] == twice[0 + 1];
    assert SAMPLE.narHash[7..] == Zeros(52);
    assert ("sha256:2" + Zeros(51))[7..] == "2" + Zeros(51);
  }

  lemma ShortPath()
    ensures !CanonicalStorePath("/nix/store/../../root")
  {
    assert |"/nix/store/../../root"| == 21;
  }

  lemma SampleOrder()
    ensures Le(SamplePath("a"), SamplePath("b")) && SamplePath("a") != SamplePath("b")
    ensures !Le(SamplePath("b"), SamplePath("a"))
  {
    var p := "/nix/store/" + Zeros(32) + "-";
    assert SamplePath("a") == p + "a" && SamplePath("b") == p + "b";
    LePrefix(p, "a", "b");
    LePrefix(p, "b", "a");
    assert (p + "a")[|p|] == 'a' && (p + "b")[|p|] == 'b';
  }

  lemma {:induction false} LePrefix(p: string, a: string, b: string)
    ensures Le(p + a, p + b) <==> Le(a, b)
  {
    if p == [] {
      assert p + a == a && p + b == b;
    } else {
      LePrefix(p[1..], a, b);
      assert (p + a)[1..] == p[1..] + a && (p + b)[1..] == p[1..] + b;
    }
  }

  // ---- Manifests and their signatures -------------------------------------------

  datatype Manifest = Manifest(version: nat, paths: seq<ManifestPath>)

  datatype PathSignature = PathSignature(path: string, signature: string)

  datatype Signatures = Signatures(version: nat, signatures: seq<PathSignature>)

  function PathsOf(paths: seq<ManifestPath>): (r: seq<string>)
    ensures |r| == |paths| && forall i :: 0 <= i < |r| ==> r[i] == paths[i].path
  {
    seq(|paths|, i requires 0 <= i < |paths| => paths[i].path)
  }

  function SignedPaths(s: seq<PathSignature>): (r: seq<string>)
    ensures |r| == |s| && forall i :: 0 <= i < |r| ==> r[i] == s[i].path
  {
    seq(|s|, i requires 0 <= i < |s| => s[i].path)
  }

  /** Lengths of JSON and base64 checks are library calls. */
  type JsonSize = Manifest -> nat
  type SignatureCheck = string -> bool

  ghost predicate ManifestOk(m: Manifest, json: JsonSize) {
    m.version == VERSION && 0 < |m.paths| <= MAX_PATHS && NoDup(PathsOf(m.paths)) && json(m) <= MAX_MANIFEST_BYTES
    && forall p :: p in m.paths ==> ValidPath(p)
  }

  method ValidateManifest(m: Manifest, json: JsonSize) returns (ok: bool)
    ensures ok <==> ManifestOk(m, json)
  {
    hide ValidPath;
    if m.version != VERSION || m.paths == [] || |m.paths| > MAX_PATHS {
      return false;
    }
    var seen: set<string> := {};
    for i := 0 to |m.paths|
      invariant seen == SetOf(PathsOf(m.paths)[..i]) && NoDup(PathsOf(m.paths)[..i])
      invariant forall j :: 0 <= j < i ==> ValidPath(m.paths[j])
    {
      assert PathsOf(m.paths)[..i + 1] == PathsOf(m.paths)[..i] + [m.paths[i].path];
      assert m.paths[i] in m.paths;
      if !ValidPath(m.paths[i]) {
        return false;
      }
      if m.paths[i].path in seen {
        ghost var j :| 0 <= j < i && PathsOf(m.paths)[j] == m.paths[i].path;
        assert PathsOf(m.paths)[i] == m.paths[i].path;
        return false;
      }
      seen := seen + {m.paths[i].path};
    }
    assert PathsOf(m.paths)[..|m.paths|] == PathsOf(m.paths);
    ok := json(m) <= MAX_MANIFEST_BYTES;
  }

  ghost predicate SignaturesOk(s: Signatures, m: Manifest, json: JsonSize, check: SignatureCheck) {
    ManifestOk(m, json) && s.version == VERSION && |s.signatures| == |m.paths|
    && NoDup(SignedPaths(s.signatures)) && SetOf(SignedPaths(s.signatures)) <= SetOf(PathsOf(m.paths))
    && forall x :: x in s.signatures ==> check(x.signature)
  }

  method ValidateSignatures(s: Signatures, m: Manifest, json: JsonSize, check: SignatureCheck) returns (ok: bool)
    ensures ok <==> SignaturesOk(s, m, json, check)
  {
    hide ManifestOk;
    ok := ValidateManifest(m, json);
    if !ok || s.version != VERSION || |s.signatures| != |m.paths| {
      return false;
    }
    var expected := SetOf(PathsOf(m.paths));
    var seen: set<string> := {};
    ghost var signed := SignedPaths(s.signatures);
    for i := 0 to |s.signatures|
      invariant seen == SetOf(signed[..i]) && NoDup(signed[..i]) && seen <= expected
      invariant forall j :: 0 <= j < i ==> check(s.signatures[j].signature)
    {
      var path := s.signatures[i].path;
      assert signed[..i + 1] == signed[..i] + [path];
      assert signed[i] in signed && s.signatures[i] in s.signatures;
      if path !in expected || path in seen {
        if path !in expected {
          assert path in SetOf(signed);
        } else {
          ghost var j :| 0 <= j < i && signed[j] == path;
        }
        return false;
      }
      if !check(s.signatures[i].signature) {
        return false;
      }
      seen := seen + {path};
    }
    assert signed[..|signed|] == signed;
    ok := true;
  }

  /** An accepted list signs every path of the manifest exactly once. */
  lemma SignaturesAreBijective(s: Signatures, m: Manifest, json: JsonSize, check: SignatureCheck, i: nat)
    requires SignaturesOk(s, m, json, check) && i < |m.paths|
    ensures exists j ::
      0 <= j < |s.signatures| && s.signatures[j].path == m.paths[i].path
      && forall k :: 0 <= k < |s.signatures| && k != j ==> s.signatures[k].path != m.paths[i].path
  {
    hide ManifestOk;
    var signed := SignedPaths(s.signatures);
    CoversAll(signed, PathsOf(m.paths));
    assert PathsOf(m.paths)[i] in SetOf(PathsOf(m.paths));
    var j :| 0 <= j < |signed| && signed[j] == m.paths[i].path;
    assert forall k :: 0 <= k < |signed| && k != j ==> signed[k] != signed[j];
    forall k | 0 <= k < |s.signatures| && k != j ensures s.signatures[k].path != m.paths[i].path {
      assert signed[k] != signed[j];
    }
  }

  /** A list is accepted exactly when it names every path of a valid manifest, has no
      more signatures than paths, and only well-formed ones. */
  lemma AcceptedExactly(s: Signatures, m: Manifest, json: JsonSize, check: SignatureCheck)
    ensures SignaturesOk(s, m, json, check) <==>
      ManifestOk(m, json) && s.version == 1 && |s.signatures| == |m.paths|
      && (forall j :: 0 <= j < |s.signatures| ==> check(s.signatures[j].signature))
      && forall i :: 0 <= i < |m.paths| ==> exists j :: 0 <= j < |s.signatures| && s.signatures[j].path == m.paths[i].path
  {
    hide ValidPath;
    var signed, paths := SignedPaths(s.signatures), PathsOf(m.paths);
    if SignaturesOk(s, m, json, check) {
      CoversAll(signed, paths);
      forall i | 0 <= i < |m.paths| ensures exists j :: 0 <= j < |s.signatures| && s.signatures[j].path == m.paths[i].path {
        assert paths[i] in SetOf(paths);
        var j :| 0 <= j < |signed| && signed[j] == paths[i];
      }
      forall j | 0 <= j < |s.signatures| ensures check(s.signatures[j].signature) {
        assert s.signatures[j] in s.signatures;
      }
    }
    if ManifestOk(m, json) && |signed| == |paths|
       && forall i :: 0 <= i < |m.paths| ==> exists j :: 0 <= j < |s.signatures| && s.signatures[j].path == m.paths[i].path {
      forall p | p in SetOf(paths) ensures p in SetOf(signed) {
        var i :| 0 <= i < |paths| && paths[i] == p;
        var j :| 0 <= j < |s.signatures| && s.signatures[j].path == m.paths[i].path;
        assert signed[j] == p;
      }
      NoDupSize(paths);
      SetOfSize(signed);
      SubsetSize(SetOf(paths), SetOf(signed));
      NoDupExactly(signed);
    }
  }
}
