/** Boot artifacts and their detached signatures. */
module ArtifactSigning {
  import opened Prelude

  const MAX_ARTIFACT_BYTES: nat := 128 * 1024 * 1024 * 1024
  const REQUIRED_ROLES := ["generation-image", "boot-config", "gen-kernel", "gen-initrd", "rescue-sfs"]
  const OPTIONAL_ROLES := ["network-stage", "rescue-tools"]

  datatype Artifact = Artifact(role: string, path: string, sha512: string, size: nat)

  datatype DetachedSignature = DetachedSignature(role: string, sha512: string, size: nat, signature: string)

  /** Whether a sidecar decodes to a bounded NMBL signature; base64 is a library call. */
  type SidecarCheck = string -> bool

  predicate Hex(value: string, length: nat) {
    |value| == length && forall i :: 0 <= i < |value| ==> '0' <= value[i] <= '9' || 'a' <= value[i] <= 'f'
  }

  predicate ValidArtifact(a: Artifact) {
    (a.role in REQUIRED_ROLES || a.role in OPTIONAL_ROLES) && Hex(a.sha512, 128)
    && 0 < a.size <= MAX_ARTIFACT_BYTES
    && "/nix/store/" <= a.path && |a.path| <= 4096 && '\0' !in a.path
  }

  function Roles(artifacts: seq<Artifact>): (r: seq<string>)
    ensures |r| == |artifacts| && forall i :: 0 <= i < |r| ==> r[i] == artifacts[i].role
  {
    seq(|artifacts|, i requires 0 <= i < |artifacts| => artifacts[i].role)
  }

  function SignedRoles(s: seq<DetachedSignature>): (r: seq<string>)
    ensures |r| == |s| && forall i :: 0 <= i < |r| ==> r[i] == s[i].role
  {
    seq(|s|, i requires 0 <= i < |s| => s[i].role)
  }

  ghost predicate ManifestOk(artifacts: seq<Artifact>) {
    5 <= |artifacts| <= 7 && NoDup(Roles(artifacts)) && SetOf(REQUIRED_ROLES) <= SetOf(Roles(artifacts))
    && forall a :: a in artifacts ==> ValidArtifact(a)
  }

  function Zeros(n: nat): (r: string)
    ensures |r| == n && forall i :: 0 <= i < n ==> r[i] == '0'
  {
    seq(n, i => '0')
  }

  const SAMPLE := Artifact("gen-kernel", "/nix/store/k", Zeros(128), 1)

  /** A valid artifact, and the changes to it that are refused: an unknown role, a digest
      that is too short or not in lower case, no size or too large a one, a path outside
      the store, too long, or with a zero byte. */
  lemma SampleValid()
    ensures ValidArtifact(SAMPLE) && ValidArtifact(SAMPLE.(role := "rescue-tools"))
    ensures !ValidArtifact(SAMPLE.(role := "kernel"))
    ensures !ValidArtifact(SAMPLE.(sha512 := Zeros(127))) && !ValidArtifact(SAMPLE.(sha512 := Zeros(127) + "A"))
    ensures !ValidArtifact(SAMPLE.(size := 0)) && ValidArtifact(SAMPLE.(size := 128 * 1024 * 1024 * 1024))
    ensures !ValidArtifact(SAMPLE.(size := 128 * 1024 * 1024 * 1024 + 1))
    ensures !ValidArtifact(SAMPLE.(path := "/nix/var/k")) && !ValidArtifact(SAMPLE.(path := "/nix/store/\0"))
    ensures !ValidArtifact(SAMPLE.(path := "/nix/store/" + Zeros(4086)))
  {
    var prefix := "/nix/store/";
    assert REQUIRED_ROLES[2] == "gen-kernel" && OPTIONAL_ROLES[1] == "rescue-tools";
    assert (Zeros(127) + "A")[127] == 'A';
    assert SAMPLE.path[..11] == prefix;
    assert "/nix/var/k"[5] == 'v' && prefix[5] == 's';
    assert "/nix/store/\0"[11] == '\0';
    assert |"kernel"| == 6;
  }

  method ValidateManifest(artifacts: seq<Artifact>) returns (ok: bool)
    ensures ok <==> ManifestOk(artifacts)
  {
    hide ValidArtifact;
    if !(|REQUIRED_ROLES| <= |artifacts| <= |REQUIRED_ROLES| + |OPTIONAL_ROLES|) {
      return false;
    }
    var roles: set<string> := {};
    ghost var all := Roles(artifacts);
    for i := 0 to |artifacts|
      invariant roles == SetOf(all[..i]) && NoDup(all[..i])
      invariant forall j :: 0 <= j < i ==> ValidArtifact(artifacts[j])
    {
      assert all[..i + 1] == all[..i] + [artifacts[i].role];
      assert artifacts[i] in artifacts;
      if !ValidArtifact(artifacts[i]) {
        return false;
      }
      if artifacts[i].role in roles {
        ghost var j :| 0 <= j < i && all[j] == artifacts[i].role;
        assert all[i] == artifacts[i].role;
        return false;
      }
      roles := roles + {artifacts[i].role};
    }
    assert all[..|all|] == all;
    ok := SetOf(REQUIRED_ROLES) <= roles;
  }

  /** The first artifact of that role. */
  function Find(artifacts: seq<Artifact>, role: string): (r: Option<Artifact>)
    ensures r.None? <==> forall i :: 0 <= i < |artifacts| ==> artifacts[i].role != role
    ensures r.Some? ==> r.value in artifacts && r.value.role == role
  {
    if artifacts == [] then None
    else if artifacts[0].role == role then Some(artifacts[0])
    else
      assert artifacts == [artifacts[0]] + artifacts[1..];
      Find(artifacts[1..], role)
  }

  predicate Matches(artifacts: seq<Artifact>, s: DetachedSignature, check: SidecarCheck) {
    var a := Find(artifacts, s.role);
    a.Some? && a.value.sha512 == s.sha512 && a.value.size == s.size && |s.signature| <= 8192 && check(s.signature)
  }

  ghost predicate SignaturesOk(s: seq<DetachedSignature>, artifacts: seq<Artifact>, check: SidecarCheck) {
    |s| == |artifacts| && NoDup(SignedRoles(s)) && forall i :: 0 <= i < |s| ==> Matches(artifacts, s[i], check)
  }

  method ValidateSignatures(s: seq<DetachedSignature>, artifacts: seq<Artifact>, check: SidecarCheck)
    returns (ok: bool)
    ensures ok <==> SignaturesOk(s, artifacts, check)
  {
    hide Matches;
    if |s| != |artifacts| {
      return false;
    }
    var roles: set<string> := {};
    ghost var all := SignedRoles(s);
    for i := 0 to |s|
      invariant roles == SetOf(all[..i]) && NoDup(all[..i])
      invariant forall j :: 0 <= j < i ==> Matches(artifacts, s[j], check)
    {
      assert all[..i + 1] == all[..i] + [s[i].role];
      if s[i].role in roles {
        ghost var j :| 0 <= j < i && all[j] == s[i].role;
        assert all[i] == s[i].role;
        return false;
      }
      roles := roles + {s[i].role};
      if !Matches(artifacts, s[i], check) {
        return false;
      }
    }
    assert all[..|all|] == all;
    ok := true;
  }

  /** Accepted against a validated manifest, the list signs every artifact
      exactly once, with that artifact's own digest and size. */
  lemma EveryArtifactSigned(s: seq<DetachedSignature>, artifacts: seq<Artifact>, check: SidecarCheck, i: nat)
    requires ManifestOk(artifacts) && SignaturesOk(s, artifacts, check) && i < |artifacts|
    ensures exists j ::
      0 <= j < |s| && s[j].role == artifacts[i].role
      && s[j].sha512 == artifacts[i].sha512 && s[j].size == artifacts[i].size
      && forall k :: 0 <= k < |s| && k != j ==> s[k].role != artifacts[i].role
  {
    hide ValidArtifact;
    var signed, roles := SignedRoles(s), Roles(artifacts);
    forall r | r in SetOf(signed) ensures r in SetOf(roles) {
      var k :| 0 <= k < |signed| && signed[k] == r;
      assert Matches(artifacts, s[k], check);
      var a := Find(artifacts, s[k].role).value;
      var m :| 0 <= m < |artifacts| && artifacts[m] == a;
      assert roles[m] == r;
    }
    CoversAll(signed, roles);
    assert roles[i] in SetOf(roles);
    var j :| 0 <= j < |signed| && signed[j] == roles[i];
    assert Matches(artifacts, s[j], check);
    var a := Find(artifacts, s[j].role).value;
    var m :| 0 <= m < |artifacts| && artifacts[m] == a;
    assert roles[m] == roles[i];
    assert m == i;
    forall k | 0 <= k < |s| && k != j ensures s[k].role != artifacts[i].role {
      assert signed[k] != signed[j];
    }
  }

  /** A signature of this artifact: its role, digest and size. */
  predicate Signs(s: DetachedSignature, a: Artifact) {
    s.role == a.role && s.sha512 == a.sha512 && s.size == a.size
  }

  predicate IsSigned(s: seq<DetachedSignature>, a: Artifact) {
    exists j :: 0 <= j < |s| && Signs(s[j], a)
  }

  ghost predicate SignsAll(s: seq<DetachedSignature>, artifacts: seq<Artifact>) {
    forall i :: 0 <= i < |artifacts| ==> IsSigned(s, artifacts[i])
  }

  /** A list is accepted exactly when it has a signature of every artifact, no more
      signatures than artifacts, and only bounded, well-formed ones. */
  lemma AcceptedExactly(s: seq<DetachedSignature>, artifacts: seq<Artifact>, check: SidecarCheck)
    requires ManifestOk(artifacts)
    ensures SignaturesOk(s, artifacts, check) <==>
      |s| == |artifacts| && SignsAll(s, artifacts)
      && forall j :: 0 <= j < |s| ==> |s[j].signature| <= 8192 && check(s[j].signature)
  {
    hide ValidArtifact;
    if SignaturesOk(s, artifacts, check) {
      forall i | 0 <= i < |artifacts| ensures IsSigned(s, artifacts[i]) {
        EveryArtifactSigned(s, artifacts, check, i);
        var j :| 0 <= j < |s| && s[j].role == artifacts[i].role
          && s[j].sha512 == artifacts[i].sha512 && s[j].size == artifacts[i].size;
        assert Signs(s[j], artifacts[i]);
      }
      forall j | 0 <= j < |s| ensures |s[j].signature| <= 8192 && check(s[j].signature) {
        assert Matches(artifacts, s[j], check);
      }
    }
    if |s| == |artifacts| && SignsAll(s, artifacts)
       && forall j :: 0 <= j < |s| ==> |s[j].signature| <= 8192 && check(s[j].signature) {
      CoveringRoles(s, artifacts);
      forall j | 0 <= j < |s| ensures Matches(artifacts, s[j], check) {
        CoveringMatches(s, artifacts, j);
        assert |s[j].signature| <= 8192 && check(s[j].signature);
      }
      assert SignaturesOk(s, artifacts, check);
    }
  }

  /** As many signatures as artifacts, with one for each, have distinct roles. */
  lemma CoveringRoles(s: seq<DetachedSignature>, artifacts: seq<Artifact>)
    requires NoDup(Roles(artifacts)) && |s| == |artifacts|
    requires SignsAll(s, artifacts)
    ensures NoDup(SignedRoles(s)) && SetOf(SignedRoles(s)) == SetOf(Roles(artifacts))
  {
    var signed, roles := SignedRoles(s), Roles(artifacts);
    forall r | r in SetOf(roles) ensures r in SetOf(signed) {
      var i :| 0 <= i < |roles| && roles[i] == r;
      var j := SignatureOf(s, artifacts, i);
      assert signed[j] == r;
    }
    NoDupSize(roles);
    SetOfSize(signed);
    SubsetSize(SetOf(roles), SetOf(signed));
    NoDupExactly(signed);
  }

  lemma SignatureOf(s: seq<DetachedSignature>, artifacts: seq<Artifact>, i: nat) returns (k: nat)
    requires SignsAll(s, artifacts) && i < |artifacts|
    ensures k < |s| && Signs(s[k], artifacts[i])
  {
    assert IsSigned(s, artifacts[i]);
    k :| 0 <= k < |s| && Signs(s[k], artifacts[i]);
  }

  lemma RoleOf(artifacts: seq<Artifact>, role: string) returns (i: nat)
    requires role in SetOf(Roles(artifacts)) && NoDup(Roles(artifacts))
    ensures i < |artifacts| && artifacts[i].role == role && Find(artifacts, role) == Some(artifacts[i])
  {
    var roles := Roles(artifacts);
    i :| 0 <= i < |roles| && roles[i] == role;
    var a := Find(artifacts, role).value;
    var m :| 0 <= m < |artifacts| && artifacts[m] == a;
    assert roles[m] == roles[i];
  }

  lemma CoveringMatches(s: seq<DetachedSignature>, artifacts: seq<Artifact>, j: nat)
    requires NoDup(Roles(artifacts)) && NoDup(SignedRoles(s)) && SetOf(SignedRoles(s)) == SetOf(Roles(artifacts))
    requires SignsAll(s, artifacts) && j < |s|
    ensures
      var a := Find(artifacts, s[j].role);
      a.Some? && a.value.sha512 == s[j].sha512 && a.value.size == s[j].size
  {
    hide SignsAll, Find;
    var signed := SignedRoles(s);
    assert signed[j] in SetOf(signed);
    var i := RoleOf(artifacts, s[j].role);
    var k := SignatureOf(s, artifacts, i);
    assert signed[k] == signed[j];
  }
}
