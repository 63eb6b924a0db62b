/** Values a target generates for itself during deployment: produced or adopted,
    encrypted for the operator, and scheduled for installation together with
    the values derived from them. */
module Generation {
  import opened Prelude
  import opened Wire
  import opened Envelope

  type Version = v: Bytes | |v| == VERSION_ID_SIZE witness seq(VERSION_ID_SIZE, i => 0)

  /** A derived leaf: its source, how the source value is framed, and the
      version of the result. Framing and hashing are library code. */
  datatype Derived = Derived(source: string, frame: Bytes -> Option<Bytes>, version: Version -> string)

  /** A stored leaf of this host. */
  datatype Spec = Spec(destination: string, recipients: seq<Recipient>, generator: Option<string>, derived: Option<Derived>)

  datatype Shared = Shared(generator: Option<string>, recipientIds: seq<string>, recipientKeys: seq<string>)

  /** `contribution` is the decoded client contribution, if it decodes. */
  datatype GenerateEntry = GenerateEntry(identifier: string, contribution: Option<Bytes>, shared: Option<Shared>)

  datatype Deployment = Deployment(identifier: string, versionId: string, contents: Bytes)

  datatype GeneratedRecord = GeneratedRecord(record: Record, versionId: string, adopted: bool)

  /** What the host holds and what it has drawn so far. */
  datatype Machine = Machine(files: map<string, Bytes>, mixed: seq<Bytes>, versions: nat, values: nat, encryptions: nat)

  /** The schema of this host, the installed versions, base64, the encryption
      provider, and the random source by position. */
  datatype Context = Context(
    leaves: map<string, Spec>, installed: map<string, string>,
    encode: Bytes -> string, decode: string -> Option<Bytes>, provider: Provider,
    versionAt: nat -> Version, valueAt: (string, nat) -> Bytes)

  ghost predicate Lawful(c: Context) {
    Inverse(c.provider) && forall b :: c.decode(c.encode(b)) == Some(b)
  }

  function DecodeVersion(c: Context, text: string): Option<Version> {
    match c.decode(text)
    case Some(b) => if |b| == VERSION_ID_SIZE then Some(b) else None
    case None => None
  }

  // ---- One value ------------------------------------------------------------------

  datatype Value = Value(version: Version, bytes: Bytes, adopted: bool, machine: Machine)

  function Generated(c: Context, generator: string, contribution: Bytes, m: Machine): Value {
    Value(c.versionAt(m.versions), c.valueAt(generator, m.values), false,
          m.(mixed := m.mixed + [contribution], versions := m.versions + 1, values := m.values + 1))
  }

  predicate ContributionOk(e: GenerateEntry) {
    e.contribution.Some? && |e.contribution.value| == 32
  }

  /** A value this target owns: adopted if a version of it is installed and its
      file is there, generated otherwise. */
  function Own(c: Context, e: GenerateEntry, m: Machine): Option<Value> {
    if e.identifier !in c.leaves || c.leaves[e.identifier].generator.None? || !ContributionOk(e) then None
    else
      var spec := c.leaves[e.identifier];
      if e.identifier in c.installed && spec.destination in m.files then
        var bytes := m.files[spec.destination];
        if |bytes| > MAX_SECRET_SIZE then None
        else
          match DecodeVersion(c, c.installed[e.identifier])
          case Some(v) => Some(Value(v, bytes, true, m))
          case None => Some(Value(c.versionAt(m.versions), bytes, true, m.(versions := m.versions + 1)))
      else Some(Generated(c, spec.generator.value, e.contribution.value, m))
  }

  predicate FramedFrom(c: Context, derive: seq<string>, source: string) {
    exists i :: 0 <= i < |derive| && derive[i] in c.leaves
      && c.leaves[derive[i]].derived.Some? && c.leaves[derive[i]].derived.value.source == source
  }

  /** A value another host owns: always fresh, and only for a requested
      derived value of this host. */
  function Foreign(c: Context, e: GenerateEntry, s: Shared, derive: seq<string>, m: Machine): Option<Value> {
    if !FramedFrom(c, derive, e.identifier) || s.generator.None? || s.recipientIds == []
       || |s.recipientIds| != |s.recipientKeys| || !ContributionOk(e) then None
    else Some(Generated(c, s.generator.value, e.contribution.value, m))
  }

  function RecipientsFor(c: Context, e: GenerateEntry): seq<Recipient> {
    if e.shared.Some? then
      var s := e.shared.value;
      seq(|s.recipientIds|, i requires 0 <= i < |s.recipientIds| =>
            Recipient(s.recipientIds[i], if i < |s.recipientKeys| then s.recipientKeys[i] else []))
    else if e.identifier in c.leaves then c.leaves[e.identifier].recipients else []
  }

  // ---- One run ----------------------------------------------------------------------

  datatype Acc = Acc(produced: map<string, (Version, Bytes)>, deployments: seq<Deployment>,
                     records: map<string, GeneratedRecord>, machine: Machine)

  function Produce(c: Context, e: GenerateEntry, derive: seq<string>, m: Machine): Option<Value> {
    if e.shared.Some? then Foreign(c, e, e.shared.value, derive, m) else Own(c, e, m)
  }

  function StepEntry(c: Context, e: GenerateEntry, derive: seq<string>, a: Acc): Option<Acc> {
    match Produce(c, e, derive, a.machine)
    case None => None
    case Some(v) =>
      match Encrypt(e.identifier, v.version, v.bytes, RecipientsFor(c, e), c.provider, v.machine.encryptions)
      case Err(_) => None
      case Ok(record) =>
        Some(Acc(a.produced[e.identifier := (v.version, v.bytes)],
                 a.deployments + if e.shared.Some? then []
                                 else [Deployment(e.identifier, c.encode(v.version), v.bytes)],
                 a.records[e.identifier := GeneratedRecord(record, c.encode(v.version), v.adopted)],
                 v.machine.(encryptions := v.machine.encryptions + 1)))
  }

  function StepDerive(c: Context, id: string, a: Acc): Option<Acc> {
    if id !in c.leaves || c.leaves[id].derived.None? then None
    else
      var d := c.leaves[id].derived.value;
      if d.source !in a.produced then None
      else
        match d.frame(a.produced[d.source].1)
        case None => None
        case Some(framed) =>
          Some(a.(deployments := a.deployments + [Deployment(id, d.version(a.produced[d.source].0), framed)]))
  }

  function Entries(c: Context, entries: seq<GenerateEntry>, derive: seq<string>, m: Machine): Option<Acc> {
    if entries == [] then Some(Acc(map[], [], map[], m))
    else
      match Entries(c, entries[..|entries| - 1], derive, m)
      case None => None
      case Some(a) => StepEntry(c, entries[|entries| - 1], derive, a)
  }

  function Derives(c: Context, ids: seq<string>, a: Acc): Option<Acc> {
    if ids == [] then Some(a)
    else
      match Derives(c, ids[..|ids| - 1], a)
      case None => None
      case Some(b) => StepDerive(c, ids[|ids| - 1], b)
  }

  function Run(c: Context, entries: seq<GenerateEntry>, derive: seq<string>, m: Machine): Option<Acc> {
    match Entries(c, entries, derive, m)
    case None => None
    case Some(a) => Derives(c, derive, a)
  }

  /** `run_value_generation`: two loops over the requested entries and the
      requested derived values. */
  method RunValueGeneration(c: Context, entries: seq<GenerateEntry>, derive: seq<string>, m: Machine)
    returns (r: Option<Acc>)
    ensures r == Run(c, entries, derive, m)
  {
    hide StepEntry, StepDerive;
    var acc := Acc(map[], [], map[], m);
    for i := 0 to |entries|
      invariant Entries(c, entries[..i], derive, m) == Some(acc)
    {
      assert entries[..i + 1][..i] == entries[..i];
      var next := StepEntry(c, entries[i], derive, acc);
      if next.None? {
        EntriesFail(c, entries, derive, m, i + 1);
        return None;
      }
      acc := next.value;
    }
    assert entries[..|entries|] == entries;
    ghost var produced := acc;
    for i := 0 to |derive|
      invariant Derives(c, derive[..i], produced) == Some(acc)
    {
      assert derive[..i + 1][..i] == derive[..i];
      var next := StepDerive(c, derive[i], acc);
      if next.None? {
        DerivesFail(c, derive, produced, i + 1);
        return None;
      }
      acc := next.value;
    }
    assert derive[..|derive|] == derive;
    r := Some(acc);
  }

  lemma {:induction false} EntriesFail(c: Context, entries: seq<GenerateEntry>, derive: seq<string>, m: Machine, i: nat)
    requires i <= |entries| && Entries(c, entries[..i], derive, m).None?
    ensures Entries(c, entries, derive, m).None?
    decreases |entries|
  {
    if i == |entries| {
      assert entries[..i] == entries;
    } else {
      assert entries[..|entries| - 1][..i] == entries[..i];
      EntriesFail(c, entries[..|entries| - 1], derive, m, i);
    }
  }

  lemma {:induction false} DerivesFail(c: Context, ids: seq<string>, a: Acc, i: nat)
    requires i <= |ids| && Derives(c, ids[..i], a).None?
    ensures Derives(c, ids, a).None?
    decreases |ids|
  {
    if i == |ids| {
      assert ids[..i] == ids;
    } else {
      assert ids[..|ids| - 1][..i] == ids[..i];
      DerivesFail(c, ids[..|ids| - 1], a, i);
    }
  }

  // ---- What a run returns -----------------------------------------------------------

  /** `id` was asked for as a value this host owns, never as a shared one. */
  predicate OwnOnly(entries: seq<GenerateEntry>, id: string) {
    forall i :: 0 <= i < |entries| && entries[i].identifier == id ==> entries[i].shared.None?
  }

  ghost predicate RecordFits(c: Context, a: Acc, entries: seq<GenerateEntry>, id: string) {
    id in a.produced && id in a.records &&
    var (version, value) := a.produced[id];
    var g := a.records[id];
    g.versionId == c.encode(version) && g.record.versionId == version
    && Decrypt(id, g.record, c.provider) == Ok(value)
    && (OwnOnly(entries, id) ==> Deployment(id, g.versionId, value) in a.deployments)
  }

  ghost predicate AccFits(c: Context, a: Acc, entries: seq<GenerateEntry>) {
    a.produced.Keys == a.records.Keys && forall id :: id in a.records ==> RecordFits(c, a, entries, id)
  }

  lemma StepEntryFits(c: Context, e: GenerateEntry, derive: seq<string>, a: Acc, entries: seq<GenerateEntry>)
    requires Lawful(c) && AccFits(c, a, entries) && StepEntry(c, e, derive, a).Some?
    ensures AccFits(c, StepEntry(c, e, derive, a).value, entries + [e])
  {
    hide Decrypt, Encrypt, Own, Foreign, RecipientsFor;
    var b := StepEntry(c, e, derive, a).value;
    var v := Produce(c, e, derive, a.machine).value;
    var record := b.records[e.identifier].record;
    var nonce := v.machine.encryptions;
    RecordBinds(e.identifier, v.version, v.bytes, RecipientsFor(c, e), c.provider, nonce, record, e.identifier, v.version);
    EncryptKeeps(e.identifier, v.version, v.bytes, RecipientsFor(c, e), c.provider, nonce);
    forall id | id in b.records ensures RecordFits(c, b, entries + [e], id) {
      if id == e.identifier {
        assert (entries + [e])[|entries|] == e;
      } else {
        assert RecordFits(c, a, entries, id);
        forall i | 0 <= i < |entries| && OwnOnly(entries + [e], id) && entries[i].identifier == id
          ensures entries[i].shared.None?
        {
          assert (entries + [e])[i] == entries[i];
        }
      }
    }
  }

  lemma EncryptKeeps(id: string, version: Version, value: Bytes, recipients: seq<Recipient>, p: Provider, nonce: nat)
    requires Encrypt(id, version, value, recipients, p, nonce).Ok?
    ensures
      var r := Encrypt(id, version, value, recipients, p, nonce).value;
      r == Record(FORMAT_VERSION, version, RecipientIds(recipients), r.ciphertext) && |value| <= MAX_SECRET_SIZE
  {
  }

  /** Encrypting again differs in nothing but the ciphertext. */
  lemma EncryptAgain(id: string, version: Version, value: Bytes, recipients: seq<Recipient>, p: Provider, m: nat, n: nat)
    requires Encrypt(id, version, value, recipients, p, m).Ok?
    ensures Steady(p) ==> Encrypt(id, version, value, recipients, p, n).Ok?
    ensures
      var r, r' := Encrypt(id, version, value, recipients, p, m), Encrypt(id, version, value, recipients, p, n);
      r'.Ok? ==> r'.value == r.value.(ciphertext := r'.value.ciphertext)
  {
    hide ValidIdentifier, Inner;
    var inner := Inner(id, version, value);
    assert p.encrypt(Keys(recipients), inner, m).Ok?;
    if Steady(p) {
      assert |p.encrypt(Keys(recipients), inner, n).value| == |p.encrypt(Keys(recipients), inner, m).value|;
    }
  }

  lemma {:induction false} EntriesFit(c: Context, entries: seq<GenerateEntry>, derive: seq<string>, m: Machine)
    requires Lawful(c) && Entries(c, entries, derive, m).Some?
    ensures AccFits(c, Entries(c, entries, derive, m).value, entries)
    decreases |entries|
  {
    hide StepEntry, Lawful, RecordFits, Decrypt;
    if entries != [] {
      hide AccFits;
      var init, e := entries[..|entries| - 1], entries[|entries| - 1];
      assert entries == init + [e];
      EntriesFit(c, init, derive, m);
      StepEntryFits(c, e, derive, Entries(c, init, derive, m).value, init);
    }
  }

  lemma {:induction false} DerivesKeep(c: Context, ids: seq<string>, a: Acc)
    requires Derives(c, ids, a).Some?
    ensures var b := Derives(c, ids, a).value;
      b.produced == a.produced && b.records == a.records && b.machine == a.machine
      && a.deployments <= b.deployments && |b.deployments| == |a.deployments| + |ids|
      && forall i :: 0 <= i < |ids| ==>
           ids[i] in c.leaves && c.leaves[ids[i]].derived.Some? &&
           var d := c.leaves[ids[i]].derived.value;
           d.source in a.produced && d.frame(a.produced[d.source].1).Some?
           && b.deployments[|a.deployments| + i]
              == Deployment(ids[i], d.version(a.produced[d.source].0), d.frame(a.produced[d.source].1).value)
    decreases |ids|
  {
    if ids != [] {
      DerivesKeep(c, ids[..|ids| - 1], a);
    }
  }

  /** Every record decrypts under its identifier and version to a value that is
      scheduled for installation under that version, unless the value belongs
      to another host; every derived value is framed from a value produced in
      this run. */
  lemma RecordsMatchDeployments(c: Context, entries: seq<GenerateEntry>, derive: seq<string>, m: Machine, id: string)
    requires Lawful(c) && Run(c, entries, derive, m).Some?
    ensures var a := Run(c, entries, derive, m).value;
      && (id in a.records ==> RecordFits(c, a, entries, id))
      && (id in derive ==>
            id in c.leaves && c.leaves[id].derived.Some? &&
            var d := c.leaves[id].derived.value;
            d.source in a.records && d.source in a.produced && exists value, framed ::
              Decrypt(d.source, a.records[d.source].record, c.provider) == Ok(value) && d.frame(value) == Some(framed)
              && Deployment(id, d.version(a.produced[d.source].0), framed) in a.deployments)
  {
    hide Decrypt, StepEntry, StepDerive, Derives;
    EntriesFit(c, entries, derive, m);
    var a := Entries(c, entries, derive, m).value;
    DerivesKeep(c, derive, a);
    var b := Derives(c, derive, a).value;
    if id in a.records {
      assert RecordFits(c, a, entries, id);
    }
    if id in derive {
      var i :| 0 <= i < |derive| && derive[i] == id;
      var d := c.leaves[id].derived.value;
      assert RecordFits(c, a, entries, d.source);
      var value := a.produced[d.source].1;
      assert b.deployments[|a.deployments| + i] in b.deployments;
      assert d.frame(value) == Some(d.frame(value).value);
    }
  }

  // ---- Runs after the deployments of a run were installed --------------------------

  function InstallVersions(installed: map<string, string>, ds: seq<Deployment>): map<string, string> {
    if ds == [] then installed
    else
      var d := ds[|ds| - 1];
      InstallVersions(installed, ds[..|ds| - 1])[d.identifier := d.versionId]
  }

  function Destination(c: Context, d: Deployment): string {
    if d.identifier in c.leaves then c.leaves[d.identifier].destination else []
  }

  function InstallFiles(c: Context, files: map<string, Bytes>, ds: seq<Deployment>): map<string, Bytes> {
    if ds == [] then files
    else
      var d := ds[|ds| - 1];
      InstallFiles(c, files, ds[..|ds| - 1])[Destination(c, d) := d.contents]
  }

  /** A batch the publisher accepts: distinct identifiers and destinations. */
  ghost predicate Installable(c: Context, ds: seq<Deployment>) {
    forall i, j :: 0 <= i < j < |ds| ==>
      ds[i].identifier != ds[j].identifier && Destination(c, ds[i]) != Destination(c, ds[j])
  }

  /** The context and files of a later run, after `ds` was installed. */
  function After(c: Context, ds: seq<Deployment>): Context {
    c.(installed := InstallVersions(c.installed, ds))
  }

  lemma {:induction false} InstalledAt(c: Context, files: map<string, Bytes>, ds: seq<Deployment>, i: nat)
    requires Installable(c, ds) && i < |ds|
    ensures var v := InstallVersions(c.installed, ds); var f := InstallFiles(c, files, ds);
      ds[i].identifier in v && v[ds[i].identifier] == ds[i].versionId
      && Destination(c, ds[i]) in f && f[Destination(c, ds[i])] == ds[i].contents
    decreases |ds|
  {
    if i < |ds| - 1 {
      InstalledAt(c, files, ds[..|ds| - 1], i);
      assert ds[i].identifier != ds[|ds| - 1].identifier;
    }
  }

  /** Installing the same deployments again changes nothing. */
  lemma InstallAgain(c: Context, files: map<string, Bytes>, ds: seq<Deployment>)
    requires Installable(c, ds)
    ensures var v := InstallVersions(c.installed, ds); var f := InstallFiles(c, files, ds);
      InstallVersions(v, ds) == v && InstallFiles(c, f, ds) == f
  {
    var v := InstallVersions(c.installed, ds);
    var f := InstallFiles(c, files, ds);
    forall i | 0 <= i < |ds|
      ensures ds[i].identifier in v && v[ds[i].identifier] == ds[i].versionId
      ensures Destination(c, ds[i]) in f && f[Destination(c, ds[i])] == ds[i].contents
    {
      InstalledAt(c, files, ds, i);
    }
    NoChange(c, v, f, ds);
  }

  lemma {:induction false} NoChange(c: Context, v: map<string, string>, f: map<string, Bytes>, ds: seq<Deployment>)
    requires forall i :: 0 <= i < |ds| ==>
      ds[i].identifier in v && v[ds[i].identifier] == ds[i].versionId
      && Destination(c, ds[i]) in f && f[Destination(c, ds[i])] == ds[i].contents
    ensures InstallVersions(v, ds) == v && InstallFiles(c, f, ds) == f
    decreases |ds|
  {
    if ds != [] {
      NoChange(c, v, f, ds[..|ds| - 1]);
    }
  }

  predicate OwnEntries(entries: seq<GenerateEntry>) {
    forall i :: 0 <= i < |entries| ==> entries[i].shared.None?
  }

  /** Entry `i` is deployed at position `i`, as it was produced. */
  lemma {:induction false} EntryDeployed(c: Context, entries: seq<GenerateEntry>, derive: seq<string>, m: Machine, i: nat)
    requires OwnEntries(entries) && Entries(c, entries, derive, m).Some? && i < |entries|
    ensures var a := Entries(c, entries, derive, m).value;
      |a.deployments| == |entries| && a.deployments[i].identifier == entries[i].identifier
    ensures Entries(c, entries[..i], derive, m).Some? && Entries(c, entries[..i + 1], derive, m).Some?
    ensures var a := Entries(c, entries, derive, m).value;
      var b := Entries(c, entries[..i], derive, m).value;
      var v := Produce(c, entries[i], derive, b.machine);
      v.Some? && a.deployments[i] == Deployment(entries[i].identifier, c.encode(v.value.version), v.value.bytes)
    decreases |entries|
  {
    hide Own, Encrypt, RecipientsFor;
    var n := |entries| - 1;
    var init := entries[..n];
    DeployedLength(c, init, derive, m);
    if i < n {
      assert init[..i] == entries[..i] && init[..i + 1] == entries[..i + 1];
      EntryDeployed(c, init, derive, m, i);
    } else {
      assert entries[..n + 1] == entries;
    }
  }

  lemma {:induction false} DeployedLength(c: Context, entries: seq<GenerateEntry>, derive: seq<string>, m: Machine)
    requires OwnEntries(entries) && Entries(c, entries, derive, m).Some?
    ensures |Entries(c, entries, derive, m).value.deployments| == |entries|
    decreases |entries|
  {
    if entries != [] {
      hide Own, Encrypt, RecipientsFor;
      DeployedLength(c, entries[..|entries| - 1], derive, m);
    }
  }

  /** What a repeated run gives: the same values, versions and deployments, every
      record adopted and new in its ciphertext alone, nothing mixed in and nothing
      drawn. */
  ghost predicate Repeats(a: Acc, b: Acc, m: Machine) {
    && b.produced == a.produced && b.deployments == a.deployments && b.records.Keys == a.records.Keys
    && (forall id :: id in b.records ==> RepeatsRecord(a.records[id], b.records[id]))
    && b.machine == m.(encryptions := b.machine.encryptions)
  }

  predicate RepeatsRecord(a: GeneratedRecord, b: GeneratedRecord) {
    b == GeneratedRecord(a.record.(ciphertext := b.record.ciphertext), a.versionId, true)
  }

  /** An installed value is adopted as it is. */
  lemma AdoptsInstalled(c: Context, c': Context, e: GenerateEntry, derive: seq<string>, m: Machine, m': Machine)
    requires Lawful(c) && e.shared.None? && Own(c, e, m).Some? && c' == c.(installed := c'.installed)
    requires |Own(c, e, m).value.bytes| <= MAX_SECRET_SIZE
    requires e.identifier in c'.installed
      && c'.installed[e.identifier] == c.encode(Own(c, e, m).value.version)
      && c.leaves[e.identifier].destination in m'.files
      && m'.files[c.leaves[e.identifier].destination] == Own(c, e, m).value.bytes
    ensures var v := Own(c, e, m).value;
      Own(c', e, m') == Some(Value(v.version, v.bytes, true, m'))
  {
  }

  lemma StepRepeats(c: Context, c': Context, e: GenerateEntry, derive: seq<string>, a: Acc, b: Acc, m': Machine)
    requires Lawful(c) && e.shared.None? && StepEntry(c, e, derive, a).Some? && c' == c.(installed := c'.installed)
    requires Repeats(a, b, m') && Own(c, e, a.machine).Some? && e.identifier in c'.installed
      && c'.installed[e.identifier] == c.encode(Own(c, e, a.machine).value.version)
      && c.leaves[e.identifier].destination in m'.files
      && m'.files[c.leaves[e.identifier].destination] == Own(c, e, a.machine).value.bytes
    ensures Steady(c.provider) ==> StepEntry(c', e, derive, b).Some?
    ensures StepEntry(c', e, derive, b).Some? ==>
      Repeats(StepEntry(c, e, derive, a).value, StepEntry(c', e, derive, b).value, m')
  {
    hide Own, Lawful, RecipientsFor, Encrypt, Steady;
    var v := Own(c, e, a.machine).value;
    var nonce, nonce' := v.machine.encryptions, b.machine.encryptions;
    SameRecipients(c, c', e);
    EncryptKeeps(e.identifier, v.version, v.bytes, RecipientsFor(c, e), c.provider, nonce);
    EncryptAgain(e.identifier, v.version, v.bytes, RecipientsFor(c, e), c.provider, nonce, nonce');
    AdoptsInstalled(c, c', e, derive, a.machine, b.machine);
  }

  lemma SameRecipients(c: Context, c': Context, e: GenerateEntry)
    requires c' == c.(installed := c'.installed)
    ensures RecipientsFor(c', e) == RecipientsFor(c, e)
  {
  }

  lemma {:induction false} EntriesRepeat(c: Context, entries: seq<GenerateEntry>, derive: seq<string>, m: Machine,
                                         c': Context, m': Machine, i: nat)
    requires Lawful(c) && OwnEntries(entries) && i <= |entries| && c' == c.(installed := c'.installed)
    requires Entries(c, entries, derive, m).Some?
    requires forall k :: 0 <= k < |entries| ==>
      EntryInstalled(c, c', m', Entries(c, entries, derive, m).value.deployments, k)
    ensures Entries(c, entries[..i], derive, m).Some?
    ensures
      var r := Entries(c', entries[..i], derive, m');
      (Steady(c.provider) ==> r.Some?) && (r.Some? ==> Repeats(Entries(c, entries[..i], derive, m).value, r.value, m'))
  {
    hide Own, Encrypt, Lawful, StepEntry, Repeats, Steady;
    if i == 0 {
      assert entries[..0] == [];
      NothingRepeats(m, m');
    } else {
      EntriesRepeat(c, entries, derive, m, c', m', i - 1);
      assert entries[..i][..i - 1] == entries[..i - 1];
      EntryDeployed(c, entries, derive, m, i - 1);
      var e := entries[i - 1];
      assert EntryInstalled(c, c', m', Entries(c, entries, derive, m).value.deployments, i - 1);
      OwnIsLeaf(c, e, Entries(c, entries[..i - 1], derive, m).value.machine);
      var r := Entries(c', entries[..i - 1], derive, m');
      if r.Some? {
        StepRepeats(c, c', e, derive, Entries(c, entries[..i - 1], derive, m).value, r.value, m');
      }
    }
  }

  lemma NothingRepeats(m: Machine, m': Machine)
    ensures Repeats(Acc(map[], [], map[], m), Acc(map[], [], map[], m'), m')
  {
  }

  lemma OwnIsLeaf(c: Context, e: GenerateEntry, m: Machine)
    requires Own(c, e, m).Some?
    ensures e.identifier in c.leaves
  {
  }

  ghost predicate EntryInstalled(c: Context, c': Context, m': Machine, ds: seq<Deployment>, k: nat) {
    k < |ds| && ds[k].identifier in c'.installed && c'.installed[ds[k].identifier] == ds[k].versionId
    && Destination(c, ds[k]) in m'.files && m'.files[Destination(c, ds[k])] == ds[k].contents
  }

  lemma {:induction false} DerivesRepeat(c: Context, c': Context, ids: seq<string>, a: Acc, b: Acc, m': Machine)
    requires c' == c.(installed := c'.installed) && Derives(c, ids, a).Some? && Repeats(a, b, m')
    ensures Derives(c', ids, b).Some? && Repeats(Derives(c, ids, a).value, Derives(c', ids, b).value, m')
    decreases |ids|
  {
    if ids != [] {
      DerivesRepeat(c, c', ids[..|ids| - 1], a, b, m');
    }
  }

  /** Every record decrypts to the value produced for it. */
  ghost predicate Readable(c: Context, a: Acc) {
    forall id :: id in a.records ==>
      id in a.produced && Decrypt(id, a.records[id].record, c.provider) == Ok(a.produced[id].1)
  }

  /** Once the deployments of a run are installed, running again for the same
      entries succeeds unless encryption fails, and then gives the same values,
      versions and derived values, marks every record adopted, and draws nothing;
      the new records decrypt to the same values. */
  lemma RetryConverges(c: Context, entries: seq<GenerateEntry>, derive: seq<string>, m: Machine, m': Machine)
    requires Lawful(c) && OwnEntries(entries) && Run(c, entries, derive, m).Some?
    requires Installable(c, Run(c, entries, derive, m).value.deployments)
    requires m'.files == InstallFiles(c, m.files, Run(c, entries, derive, m).value.deployments)
    ensures
      var a := Run(c, entries, derive, m).value;
      var r := Run(After(c, a.deployments), entries, derive, m');
      (Steady(c.provider) ==> r.Some?) && (r.Some? ==> Repeats(a, r.value, m') && Readable(c, r.value))
  {
    hide Own, Encrypt, StepEntry, StepDerive, Entries, Lawful, Installable, InstallVersions, InstallFiles, Repeats,
      Steady, Readable;
    var a := Run(c, entries, derive, m).value;
    var e := Entries(c, entries, derive, m).value;
    var c' := After(c, a.deployments);
    DerivesKeep(c, derive, e);
    DeployedLength(c, entries, derive, m);
    forall k | 0 <= k < |entries| ensures EntryInstalled(c, c', m', e.deployments, k) {
      InstalledAt(c, m.files, a.deployments, k);
      assert e.deployments[k] == a.deployments[k];
    }
    EntriesRepeat(c, entries, derive, m, c', m', |entries|);
    assert entries[..|entries|] == entries;
    var r := Entries(c', entries, derive, m');
    if r.Some? {
      DerivesRepeat(c, c', derive, e, r.value, m');
      SameLaws(c, a.deployments);
      RunReadable(c', entries, derive, m');
      SameReadable(c, c', Run(c', entries, derive, m').value);
    }
  }

  lemma RunReadable(c: Context, entries: seq<GenerateEntry>, derive: seq<string>, m: Machine)
    requires Lawful(c) && Run(c, entries, derive, m).Some?
    ensures Readable(c, Run(c, entries, derive, m).value)
  {
    hide Decrypt, Entries, Derives;
    EntriesFit(c, entries, derive, m);
    DerivesKeep(c, derive, Entries(c, entries, derive, m).value);
  }

  lemma SameReadable(c: Context, c': Context, a: Acc)
    requires c'.provider == c.provider && Readable(c', a)
    ensures Readable(c, a)
  {
  }

  /** The outcome of the `n`-th run, each installed before the next. */
  function Retry(c: Context, entries: seq<GenerateEntry>, derive: seq<string>, m: Machine, n: nat): Option<Acc>
    decreases n
  {
    match Run(c, entries, derive, m)
    case None => None
    case Some(a) =>
      if n == 0 then Some(a)
      else
        Retry(After(c, a.deployments), entries, derive,
              a.machine.(files := InstallFiles(c, a.machine.files, a.deployments)), n - 1)
  }

  lemma {:induction false} EntriesFiles(c: Context, entries: seq<GenerateEntry>, derive: seq<string>, m: Machine)
    requires Entries(c, entries, derive, m).Some?
    ensures Entries(c, entries, derive, m).value.machine.files == m.files
    decreases |entries|
  {
    if entries != [] {
      hide Encrypt, RecipientsFor;
      EntriesFiles(c, entries[..|entries| - 1], derive, m);
    }
  }

  /** Any number of further runs agrees with the first, and succeeds unless
      encryption fails. */
  lemma {:induction false} RetryForever(c: Context, entries: seq<GenerateEntry>, derive: seq<string>, m: Machine, n: nat)
    requires Lawful(c) && OwnEntries(entries) && Run(c, entries, derive, m).Some?
    requires Installable(c, Run(c, entries, derive, m).value.deployments)
    ensures
      var r := Retry(c, entries, derive, m, n); var a := Run(c, entries, derive, m).value;
      (Steady(c.provider) ==> r.Some?)
      && (r.Some? ==> r.value.produced == a.produced && r.value.deployments == a.deployments && Readable(c, r.value))
      && (r.Some? && n > 0 ==> Repeats(a, r.value, a.machine.(files := r.value.machine.files)))
    decreases n
  {
    hide Run, Lawful, Installable, InstallVersions, InstallFiles, Readable, Steady;
    var a := Run(c, entries, derive, m).value;
    RunFiles(c, entries, derive, m);
    RunReadable(c, entries, derive, m);
    if n > 0 {
      var c' := After(c, a.deployments);
      var m' := a.machine.(files := InstallFiles(c, a.machine.files, a.deployments));
      RetryConverges(c, entries, derive, m, m');
      SameLaws(c, a.deployments);
      if Run(c', entries, derive, m').Some? {
        RetryForever(c', entries, derive, m', n - 1);
        var r := Retry(c', entries, derive, m', n - 1);
        if r.Some? { SameReadable(c, c', r.value); }
      }
    }
  }

  lemma RunFiles(c: Context, entries: seq<GenerateEntry>, derive: seq<string>, m: Machine)
    requires Run(c, entries, derive, m).Some?
    ensures Run(c, entries, derive, m).value.machine.files == m.files
  {
    hide Entries, Derives;
    EntriesFiles(c, entries, derive, m);
    DerivesKeep(c, derive, Entries(c, entries, derive, m).value);
  }

  lemma SameLaws(c: Context, ds: seq<Deployment>)
    requires Lawful(c) && Installable(c, ds)
    ensures Lawful(After(c, ds)) && Installable(After(c, ds), ds)
  {
  }

  /** A provider and an encoding that obey the laws, with encryptions that differ. */
  lemma LawfulExists(c: Context) returns (c': Context)
    ensures Lawful(c') && Steady(c'.provider) && c'.leaves == c.leaves
    ensures forall keys, plain, m, n :: m < 256 && n < 256 && m != n ==>
      c'.provider.encrypt(keys, plain, m).Ok? && c'.provider.encrypt(keys, plain, m) != c'.provider.encrypt(keys, plain, n)
  {
    var p := Provider((keys: seq<string>, plain: Bytes, nonce: nat) => Ok(plain + [nonce % 256]),
                      (cipher: Bytes) => if cipher == [] then Err(InvalidRecord) else Ok(cipher[..|cipher| - 1]));
    c' := c.(provider := p, encode := (b: Bytes) => Chars(b), decode := (t: string) => Some(Ascii(t)));
    forall b ensures c'.decode(c'.encode(b)) == Some(b) {
      CharsBytes(b);
    }
    forall keys, plain, m, n | m < 256 && n < 256 && m != n
      ensures p.encrypt(keys, plain, m).Ok? && p.encrypt(keys, plain, m) != p.encrypt(keys, plain, n)
    {
      var a: Bytes, b: Bytes := plain + [m % 256], plain + [n % 256];
      assert a[|plain|] != b[|plain|];
    }
  }
}
