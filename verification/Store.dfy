/** The encrypted store: records refer to their recipients through a registry of
    numbered references, which the store extends and never rewrites. */
module Store {
  import opened Prelude
  import opened Ordered
  import opened Text

  const MAX_CIPHERTEXT_BYTES: nat := 64 * 1024 * 1024

  datatype StoreError =
    | Schema | InvalidPublicInfo | DerivedLeaf | RecipientMismatch | InvalidPublicKey | InvalidRecord
    | VersionConflict | InvalidRecipientRegistry

  datatype Secret = Secret(formatVersion: nat, versionId: Bytes, recipientIds: seq<string>,
                           recipientRefs: seq<string>, ciphertext: Bytes, publicKey: Option<string>)

  datatype Document = Document(secrets: map<string, Secret>, registry: map<string, string>)

  /** What the schema says of the leaf at a path; `publicKeyOk` stands for
      `validate_public_metadata`. */
  datatype Leaf = Leaf(publicInfo: bool, derived: bool, recipientIds: seq<string>, names: seq<string>,
                       publicKeyOk: Option<string> -> bool)

  datatype Op =
    | Set(leaf: Option<Leaf>, path: string, envelope: Secret, expected: Option<Option<Bytes>>)
    | Remove(leaf: Option<Leaf>, path: string, version: Option<Bytes>)

  // ---- References -----------------------------------------------------------------

  function Ref(name: string, revision: nat): string {
    name + "#" + Decimal(revision)
  }

  lemma RefInjective(name: string, a: nat, b: nat)
    requires Ref(name, a) == Ref(name, b)
    ensures a == b
  {
    assert Ref(name, a)[|name + "#"|..] == Decimal(a) && Ref(name, b)[|name + "#"|..] == Decimal(b);
    DecimalInjective(a, b);
  }

  predicate Taken(registry: map<string, string>, name: string, revision: nat) {
    forall r :: 0 <= r < revision ==> Ref(name, r) in registry
  }

  /** Distinct references in use number at most the whole registry. */
  lemma TakenBound(registry: map<string, string>, name: string, revision: nat)
    requires Taken(registry, name, revision)
    ensures revision <= |registry|
  {
    var refs := seq(revision, i requires 0 <= i < revision => Ref(name, i));
    forall i, j | 0 <= i < j < |refs| ensures refs[i] != refs[j] {
      if refs[i] == refs[j] { RefInjective(name, i, j); }
    }
    NoDupSize(refs);
    SubsetSize(SetOf(refs), registry.Keys);
    assert |registry| == |registry.Keys|;
  }

  /** The search for a free revision; it ends within the size of the registry. */
  function Free(registry: map<string, string>, name: string, revision: nat): (r: string)
    requires Taken(registry, name, revision)
    ensures r !in registry && name + "#" <= r
    ensures exists n :: revision <= n <= |registry| && r == Ref(name, n)
    decreases |registry| - revision
  {
    TakenBound(registry, name, revision);
    if Ref(name, revision) !in registry then Ref(name, revision)
    else
      assert Taken(registry, name, revision + 1);
      TakenBound(registry, name, revision + 1);
      Free(registry, name, revision + 1)
  }

  /** The first reference of that name, in the order of the registry, that
      stands for `id`. */
  function Existing(keys: seq<string>, registry: map<string, string>, name: string, id: string): (r: Option<string>)
    ensures r.Some? ==> r.value in registry && registry[r.value] == id && r.value in keys && name + "#" <= r.value
    ensures r.None? ==> forall k :: k in keys && k in registry && name + "#" <= k ==> registry[k] != id
  {
    if keys == [] then None
    else if keys[0] in registry && name + "#" <= keys[0] && registry[keys[0]] == id then Some(keys[0])
    else
      assert keys == [keys[0]] + keys[1..];
      Existing(keys[1..], registry, name, id)
  }

  function Reference(registry: map<string, string>, name: string, id: string): (r: string)
    ensures r in registry ==> registry[r] == id
  {
    match Existing(Sorted(registry.Keys), registry, name, id)
    case Some(r) => r
    case None => Free(registry, name, 0)
  }

  /** Registers recipients one by one; returns their references. */
  function Register(registry: map<string, string>, names: seq<string>, ids: seq<string>)
    : (r: (map<string, string>, seq<string>))
    requires |names| == |ids|
  {
    if names == [] then (registry, [])
    else
      var n := |names| - 1;
      var (before, refs) := Register(registry, names[..n], ids[..n]);
      var reference := Reference(before, names[n], ids[n]);
      (if reference in before then before else before[reference := ids[n]], refs + [reference])
  }

  ghost predicate Grows(a: map<string, string>, b: map<string, string>) {
    forall k :: k in a ==> k in b && b[k] == a[k]
  }

  /** Registering only adds references, and the returned ones stand for `ids`. */
  lemma {:induction false} RegisterResolves(registry: map<string, string>, names: seq<string>, ids: seq<string>)
    requires |names| == |ids|
    ensures var (after, refs) := Register(registry, names, ids);
      Grows(registry, after) && |refs| == |ids|
      && forall i :: 0 <= i < |ids| ==> refs[i] in after && after[refs[i]] == ids[i]
    decreases |names|
  {
    hide Reference;
    if names != [] {
      var n := |names| - 1;
      RegisterResolves(registry, names[..n], ids[..n]);
      var (before, refs) := Register(registry, names[..n], ids[..n]);
      var reference := Reference(before, names[n], ids[n]);
      var after := if reference in before then before else before[reference := ids[n]];
      assert Register(registry, names, ids) == (after, refs + [reference]);
      assert Grows(before, after) && Grows(registry, after);
      forall i | 0 <= i < |ids| ensures (refs + [reference])[i] in after && after[(refs + [reference])[i]] == ids[i] {
        if i < n {
          assert refs[i] in before && before[refs[i]] == ids[..n][i];
        }
      }
    }
  }

  // ---- Reading --------------------------------------------------------------------

  function Resolve(registry: map<string, string>, refs: seq<string>): Option<seq<string>> {
    if refs == [] then Some([])
    else
      match Resolve(registry, refs[..|refs| - 1])
      case None => None
      case Some(ids) =>
        if refs[|refs| - 1] in registry then Some(ids + [registry[refs[|refs| - 1]]]) else None
  }

  /** `hydrate_record`. */
  function Hydrate(d: Document, r: Secret): Result<Secret, StoreError> {
    if r.recipientRefs == [] then Ok(r)
    else if r.recipientIds != [] then Err(InvalidRecipientRegistry)
    else
      match Resolve(d.registry, r.recipientRefs)
      case None => Err(InvalidRecipientRegistry)
      case Some(ids) => Ok(r.(recipientIds := ids))
  }

  function Get(d: Document, path: string): Result<Option<Secret>, StoreError> {
    if path !in d.secrets then Ok(None)
    else
      match Hydrate(d, d.secrets[path])
      case Err(e) => Err(e)
      case Ok(r) => Ok(Some(r))
  }

  /** The ids are those that the references stand for, one by one. */
  predicate StandFor(registry: map<string, string>, refs: seq<string>, ids: seq<string>) {
    |refs| == |ids| && forall i :: 0 <= i < |refs| ==> refs[i] in registry && registry[refs[i]] == ids[i]
  }

  lemma {:induction false} ResolveExactly(registry: map<string, string>, refs: seq<string>, ids: seq<string>)
    ensures Resolve(registry, refs) == Some(ids) <==> StandFor(registry, refs, ids)
    decreases |refs|
  {
    if refs != [] && ids != [] {
      var n := |refs| - 1;
      var init := ids[..|ids| - 1];
      ResolveExactly(registry, refs[..n], init);
      assert ids == init + [ids[|ids| - 1]];
      if Resolve(registry, refs) == Some(ids) {
        assert StandFor(registry, refs[..n], init);
        forall i | 0 <= i < |refs| ensures refs[i] in registry && registry[refs[i]] == ids[i] {
          if i < n { assert refs[..n][i] == refs[i] && init[i] == ids[i]; }
        }
      }
    }
  }

  /** A path reads as a record exactly when its stored form is that record, with the
      references it holds in place of ids resolved one by one; a record that holds
      both, or a reference that is not registered, is an error. */
  lemma GetExactly(d: Document, path: string, r: Secret)
    ensures
      var stored := if path in d.secrets then d.secrets[path] else r;
      Get(d, path) == Ok(Some(r)) <==>
        path in d.secrets
        && if stored.recipientRefs == [] then r == stored
           else
             stored.recipientIds == [] && r == stored.(recipientIds := r.recipientIds)
             && StandFor(d.registry, stored.recipientRefs, r.recipientIds)
    ensures Get(d, path) == Ok(None) <==> path !in d.secrets
  {
    hide Resolve, StandFor;
    if path in d.secrets {
      ResolveExactly(d.registry, d.secrets[path].recipientRefs, r.recipientIds);
    }
  }

  lemma {:induction false} ResolveStable(a: map<string, string>, b: map<string, string>, refs: seq<string>)
    requires Grows(a, b) && Resolve(a, refs).Some?
    ensures Resolve(b, refs) == Resolve(a, refs)
    decreases |refs|
  {
    if refs != [] {
      ResolveStable(a, b, refs[..|refs| - 1]);
    }
  }

  // ---- Writing --------------------------------------------------------------------

  predicate RecordOk(r: Secret) {
    r.formatVersion == 1 && |r.versionId| == 16 && r.recipientIds != []
    && 0 < |r.ciphertext| <= MAX_CIPHERTEXT_BYTES
  }

  function VersionAt(d: Document, path: string): Option<Bytes> {
    if path in d.secrets then Some(d.secrets[path].versionId) else None
  }

  function Refused(d: Document, leaf: Option<Leaf>, path: string, e: Secret, expected: Option<Option<Bytes>>)
    : Option<StoreError>
  {
    if leaf.None? then Some(Schema)
    else if leaf.value.publicInfo then Some(InvalidPublicInfo)
    else if leaf.value.derived then Some(DerivedLeaf)
    else if leaf.value.recipientIds != e.recipientIds then Some(RecipientMismatch)
    else if !leaf.value.publicKeyOk(e.publicKey) then Some(InvalidPublicKey)
    else if !RecordOk(e) then Some(InvalidRecord)
    else if expected.Some? && VersionAt(d, path) != expected.value then Some(VersionConflict)
    else if leaf.value.names != [] && |leaf.value.names| != |e.recipientIds| then Some(InvalidRecipientRegistry)
    else None
  }

  function Written(d: Document, leaf: Leaf, path: string, e: Secret): Document
    requires leaf.names != [] ==> |leaf.names| == |e.recipientIds|
  {
    if leaf.names == [] then d.(secrets := d.secrets[path := e.(recipientRefs := [])])
    else
      var (registry, refs) := Register(d.registry, leaf.names, e.recipientIds);
      Document(d.secrets[path := e.(recipientRefs := refs, recipientIds := [])], registry)
  }

  function RemoveRefused(d: Document, leaf: Option<Leaf>, path: string, expected: Option<Bytes>): Option<StoreError> {
    if leaf.None? then Some(Schema)
    else if leaf.value.publicInfo then Some(InvalidPublicInfo)
    else if expected.Some? && VersionAt(d, path) != expected then Some(VersionConflict)
    else None
  }

  /** The document after an operation; an error leaves it as it is. */
  function Apply(d: Document, op: Op): (Document, Option<StoreError>) {
    match op
    case Set(leaf, path, e, expected) =>
      var error := Refused(d, leaf, path, e, expected);
      if error.Some? then (d, error) else (Written(d, leaf.value, path, e), None)
    case Remove(leaf, path, expected) =>
      var error := RemoveRefused(d, leaf, path, expected);
      if error.Some? then (d, error) else (d.(secrets := d.secrets - {path}), None)
  }

  /** A write that succeeds reads back the submitted record with the submitted
      recipients, and a conditional one replaced exactly the named version. */
  lemma WriteReadsBack(d: Document, leaf: Option<Leaf>, path: string, e: Secret, expected: Option<Option<Bytes>>)
    requires Apply(d, Set(leaf, path, e, expected)).1.None?
    ensures var d' := Apply(d, Set(leaf, path, e, expected)).0;
      var r := Get(d', path);
      r.Ok? && r.value.Some? && r.value.value.(recipientRefs := []) == e.(recipientRefs := [])
      && (forall p :: p != path ==> (p in d'.secrets <==> p in d.secrets) && (p in d.secrets ==> d'.secrets[p] == d.secrets[p]))
    ensures expected.Some? ==> VersionAt(d, path) == expected.value
  {
    hide Resolve, Register, StandFor;
    if leaf.value.names != [] {
      var (registry, refs) := Register(d.registry, leaf.value.names, e.recipientIds);
      RegisteredStand(d.registry, leaf.value.names, e.recipientIds);
      ResolveExactly(registry, refs, e.recipientIds);
    }
  }

  lemma RegisteredStand(registry: map<string, string>, names: seq<string>, ids: seq<string>)
    requires |names| == |ids|
    ensures var (after, refs) := Register(registry, names, ids); |refs| == |ids| && StandFor(after, refs, ids)
  {
    hide Register;
    RegisterResolves(registry, names, ids);
  }

  /** What the named version demands: the record is there at exactly that version. */
  predicate AtVersion(d: Document, path: string, version: Bytes) {
    path in d.secrets && d.secrets[path].versionId == version
  }

  /** A record may be written: the leaf stores values of its own, for exactly these
      recipients, in the record's format. */
  predicate Writable(leaf: Leaf, e: Secret) {
    && !leaf.publicInfo && !leaf.derived && leaf.recipientIds == e.recipientIds && leaf.publicKeyOk(e.publicKey)
    && e.formatVersion == 1 && |e.versionId| == 16 && e.recipientIds != [] && 1 <= |e.ciphertext| <= 64 * 1024 * 1024
    && (leaf.names == [] || |leaf.names| == |e.recipientIds|)
  }

  /** A write succeeds exactly when the leaf takes the record and the store is at the
      expected version, if one is named: a version, or none for an absent record.
      The errors tell a conflict from a record that does not fit. */
  lemma WriteExactly(d: Document, leaf: Option<Leaf>, path: string, e: Secret, expected: Option<Option<Bytes>>)
    ensures
      var (d', error) := Apply(d, Set(leaf, path, e, expected));
      var current := expected == None || (expected == Some(None) && path !in d.secrets)
        || (expected.Some? && expected.value.Some? && AtVersion(d, path, expected.value.value));
      (error.None? <==> leaf.Some? && Writable(leaf.value, e) && current)
      && (error.Some? ==> d' == d)
      && (leaf.Some? && Writable(leaf.value, e) && !current ==> error == Some(VersionConflict))
  {
  }

  /** A remove succeeds exactly when the leaf exists and is no public information, and
      the record is at the named version, if one is named. Then exactly that path is
      gone; otherwise nothing changes. */
  lemma RemoveExactly(d: Document, leaf: Option<Leaf>, path: string, expected: Option<Bytes>)
    ensures
      var (d', error) := Apply(d, Remove(leaf, path, expected));
      var current := expected.Some? ==> AtVersion(d, path, expected.value);
      (error.None? <==> leaf.Some? && !leaf.value.publicInfo && current)
      && (error.Some? ==> d' == d)
      && (leaf.Some? && !leaf.value.publicInfo && !current ==> error == Some(VersionConflict))
      && (error.None? ==>
            d'.registry == d.registry
            && forall p :: (p in d'.secrets <==> p in d.secrets && p != path)
                           && (p in d'.secrets ==> d'.secrets[p] == d.secrets[p]))
  {
  }

  /** A recipient that already has a reference of this name gets one of those, and
      only another one adds a reference. */
  lemma ReferenceReused(registry: map<string, string>, name: string, id: string)
    ensures Reference(registry, name, id) in registry <==>
      exists k :: k in registry && name + "#" <= k && registry[k] == id
    ensures Reference(registry, name, id) in registry ==> registry[Reference(registry, name, id)] == id
  {
  }

  lemma ApplyGrows(d: Document, op: Op)
    ensures Grows(d.registry, Apply(d, op).0.registry)
  {
    if op.Set? && Apply(d, op).1.None? && op.leaf.value.names != [] {
      RegisterResolves(d.registry, op.leaf.value.names, op.envelope.recipientIds);
    }
  }

  function Run(d: Document, ops: seq<Op>): Document
    decreases |ops|
  {
    if ops == [] then d else Run(Apply(d, ops[0]).0, ops[1..])
  }

  /** Over any run the registry only grows and never rebinds a reference, so a
      record that resolved once resolves to the same recipients ever after. */
  lemma {:induction false} RunKeepsReferences(d: Document, ops: seq<Op>, r: Secret)
    ensures Grows(d.registry, Run(d, ops).registry)
    ensures Hydrate(d, r).Ok? ==> Hydrate(Run(d, ops), r) == Hydrate(d, r)
    decreases |ops|
  {
    hide Apply, Resolve;
    if ops != [] {
      ApplyGrows(d, ops[0]);
      var d' := Apply(d, ops[0]).0;
      if r.recipientRefs != [] && Resolve(d.registry, r.recipientRefs).Some? {
        ResolveStable(d.registry, d'.registry, r.recipientRefs);
      }
      RunKeepsReferences(d', ops[1..], r);
    }
  }

  /** What reading `path` gives: the record `last`, or nothing. References are how a
      record is kept, not part of what was submitted. */
  predicate Shows(d: Document, path: string, last: Option<Secret>) {
    match Get(d, path)
    case Err(_) => false
    case Ok(None) => last == None
    case Ok(Some(r)) => last.Some? && r.(recipientRefs := []) == last.value.(recipientRefs := [])
  }

  /** The record written last at `path` and not removed since, `last` before `ops`. */
  function LastWrite(d: Document, ops: seq<Op>, path: string, last: Option<Secret>): Option<Secret>
    decreases |ops|
  {
    if ops == [] then last
    else
      var op := ops[0];
      var next :=
        if op.path != path || Apply(d, op).1.Some? then last
        else if op.Set? then Some(op.envelope) else None;
      LastWrite(Apply(d, op).0, ops[1..], path, next)
  }

  lemma HydrateStable(d: Document, d': Document, r: Secret)
    requires Grows(d.registry, d'.registry) && Hydrate(d, r).Ok?
    ensures Hydrate(d', r) == Hydrate(d, r)
  {
    hide Resolve;
    if r.recipientRefs != [] { ResolveStable(d.registry, d'.registry, r.recipientRefs); }
  }

  lemma ShowsStep(d: Document, op: Op, path: string, last: Option<Secret>)
    requires Shows(d, path, last)
    ensures Shows(Apply(d, op).0, path,
                  if op.path != path || Apply(d, op).1.Some? then last
                  else if op.Set? then Some(op.envelope) else None)
  {
    hide Resolve, Register, Hydrate, Refused, RemoveRefused;
    var d' := Apply(d, op).0;
    if op.path == path && op.Set? && Apply(d, op).1.None? {
      WriteReadsBack(d, op.leaf, path, op.envelope, op.expected);
    } else if path in d'.secrets {
      ApplyGrows(d, op);
      HydrateStable(d, d', d.secrets[path]);
    }
  }

  /** Over any run every path reads exactly what was last written there and not
      removed since, whatever was written elsewhere; `last` is None for the empty
      store. */
  lemma {:induction false} ReadsLastWrite(d: Document, ops: seq<Op>, path: string, last: Option<Secret>)
    requires Shows(d, path, last)
    ensures Shows(Run(d, ops), path, LastWrite(d, ops, path, last))
    decreases |ops|
  {
    hide Apply, Shows;
    if ops != [] {
      ShowsStep(d, ops[0], path, last);
      var next := if ops[0].path != path || Apply(d, ops[0]).1.Some? then last
                  else if ops[0].Set? then Some(ops[0].envelope) else None;
      ReadsLastWrite(Apply(d, ops[0]).0, ops[1..], path, next);
    }
  }

  // ---- The store as the program runs it ----------------------------------------

  lemma {:induction false} ExistingSkips(keys: seq<string>, registry: map<string, string>, name: string, id: string, i: nat)
    requires i <= |keys|
    requires forall k :: 0 <= k < i ==>
      !(keys[k] in registry && name + "#" <= keys[k] && registry[keys[k]] == id)
    ensures Existing(keys, registry, name, id) == Existing(keys[i..], registry, name, id)
    decreases i
  {
    if i > 0 {
      ExistingSkips(keys[1..], registry, name, id, i - 1);
      assert keys[1..][i - 1..] == keys[i..];
    }
  }

  /** Finds the reference of a recipient, or a free revision for it. */
  method FindReference(registry: map<string, string>, name: string, id: string) returns (r: string)
    ensures r == Reference(registry, name, id)
  {
    hide Free, Le, Sorted;
    var keys := Sorted(registry.Keys);
    for i := 0 to |keys|
      invariant forall k :: 0 <= k < i ==>
        !(keys[k] in registry && name + "#" <= keys[k] && registry[keys[k]] == id)
    {
      assert keys[i] in SetOf(keys);
      if name + "#" <= keys[i] && registry[keys[i]] == id {
        ExistingSkips(keys, registry, name, id, i);
        return keys[i];
      }
    }
    ExistingSkips(keys, registry, name, id, |keys|);
    var revision: nat;
    r, revision := FreeRevision(registry, name);
  }

  /** The counter never exceeds the size of the registry, so 32 bits hold it while
      the registry has fewer than 2^32 entries. */
  method FreeRevision(registry: map<string, string>, name: string) returns (r: string, revision: nat)
    ensures r == Free(registry, name, 0) && r == Ref(name, revision)
    ensures Taken(registry, name, revision) && revision <= |registry|
  {
    hide Ref;
    revision := 0;
    TakenBound(registry, name, 0);
    while Ref(name, revision) in registry
      invariant Taken(registry, name, revision) && revision <= |registry|
      invariant Free(registry, name, 0) == Free(registry, name, revision)
      decreases |registry| - revision
    {
      assert Taken(registry, name, revision + 1);
      TakenBound(registry, name, revision + 1);
      revision := revision + 1;
    }
    r := Ref(name, revision);
  }

  class SecretStore {
    var document: Document

    constructor ()
      ensures document == Document(map[], map[])
    {
      document := Document(map[], map[]);
    }

    method RegisterAll(names: seq<string>, ids: seq<string>) returns (refs: seq<string>)
      requires |names| == |ids|
      modifies this
      ensures document.secrets == old(document).secrets
      ensures (document.registry, refs) == Register(old(document).registry, names, ids)
    {
      hide Reference;
      refs := [];
      for i := 0 to |names|
        invariant document.secrets == old(document).secrets
        invariant (document.registry, refs) == Register(old(document).registry, names[..i], ids[..i])
      {
        assert names[..i + 1][..i] == names[..i] && ids[..i + 1][..i] == ids[..i];
        var reference := FindReference(document.registry, names[i], ids[i]);
        if reference !in document.registry {
          document := document.(registry := document.registry[reference := ids[i]]);
        }
        refs := refs + [reference];
      }
      assert names[..|names|] == names && ids[..|ids|] == ids;
    }

    /** `set_checked`, with or without an expected version. */
    method SetChecked(leaf: Option<Leaf>, path: string, envelope: Secret, expected: Option<Option<Bytes>>)
      returns (error: Option<StoreError>)
      modifies this
      ensures (document, error) == Apply(old(document), Set(leaf, path, envelope, expected))
    {
      error := Refused(document, leaf, path, envelope, expected);
      if error.Some? {
        return;
      }
      var stored := envelope;
      if leaf.value.names != [] {
        var refs := RegisterAll(leaf.value.names, envelope.recipientIds);
        stored := stored.(recipientRefs := refs, recipientIds := []);
      } else {
        stored := stored.(recipientRefs := []);
      }
      document := document.(secrets := document.secrets[path := stored]);
    }

    method RemoveChecked(leaf: Option<Leaf>, path: string, expected: Option<Bytes>)
      returns (error: Option<StoreError>, removed: bool)
      modifies this
      ensures (document, error) == Apply(old(document), Remove(leaf, path, expected))
      ensures removed <==> error.None? && path in old(document).secrets
    {
      error := RemoveRefused(document, leaf, path, expected);
      removed := error.None? && path in document.secrets;
      if error.None? {
        document := document.(secrets := document.secrets - {path});
      }
    }
  }
}
