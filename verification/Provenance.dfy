/** Public defaults: a boot unit that installs a declared value where none is
    present, and may later replace only what it installed itself.

    Texts are byte strings here, because versions and identifiers are hashed,
    written to record files and read back. */
module Provenance {
  import opened Prelude

  const MAX_KNOWN_HOSTS_BYTES: nat := 64 * 1024
  const MAX_RECORD_BYTES: nat := 256
  const MAX_VERSION_BYTES: nat := 256

  datatype File = Regular(bytes: Bytes) | Special

  datatype Entry = Entry(identifier: Bytes, version: Bytes, contents: Bytes)

  /** One root as the deployment lock protects it: the destinations, the installed
      versions, and the record files by name. */
  datatype Root = Root(files: map<string, File>, versions: map<Bytes, Bytes>, records: map<Bytes, File>)

  /** Library code and the schema: SHA-256 in hex, UTF-8 validity, the checks on a
      known_hosts value, and the destination of each identifier. */
  datatype Env = Env(digest: Bytes -> Bytes, utf8: Bytes -> bool, knownHosts: Bytes -> bool,
                     place: Bytes -> string)

  predicate HexVersion(v: Bytes) {
    0 < |v| <= MAX_VERSION_BYTES
    && forall i :: 0 <= i < |v| ==> 48 <= v[i] <= 57 || 65 <= v[i] <= 70 || 97 <= v[i] <= 102
  }

  function HexDigit(d: nat, letters: nat): nat {
    if d < 10 then 48 + d else letters + (d - 10)
  }

  /** A hexadecimal digit, with letters of either case. */
  ghost predicate IsHex(b: Byte) {
    exists d: nat :: d < 16 && (b == HexDigit(d, 65) || b == HexDigit(d, 97))
  }

  lemma HexExactly(b: Byte)
    ensures IsHex(b) <==> 48 <= b <= 57 || 65 <= b <= 70 || 97 <= b <= 102
  {
    if 48 <= b <= 57 { assert b == HexDigit(b - 48, 65); }
    if 65 <= b <= 70 { assert b == HexDigit(10 + (b - 65), 65); }
    if 97 <= b <= 102 { assert b == HexDigit(10 + (b - 97), 97); }
  }

  lemma HexVersionExactly(v: Bytes)
    ensures HexVersion(v) <==> 1 <= |v| <= 256 && forall i :: 0 <= i < |v| ==> IsHex(v[i])
  {
    hide IsHex;
    forall i | 0 <= i < |v| ensures IsHex(v[i]) <==> 48 <= v[i] <= 57 || 65 <= v[i] <= 70 || 97 <= v[i] <= 102 {
      HexExactly(v[i]);
    }
  }

  /** What the library code promises of each single value. */
  ghost predicate Sane(env: Env) {
    (forall b :: HexVersion(env.digest(b)))
    && (forall v :: HexVersion(v) ==> env.utf8(v))
    && (forall b :: env.knownHosts(b) ==> |b| <= MAX_KNOWN_HOSTS_BYTES)
  }

  /** No two of these values have one digest. */
  ghost predicate Distinguishes(env: Env, used: set<Bytes>) {
    forall a, b :: a in used && b in used && env.digest(a) == env.digest(b) ==> a == b
  }

  // ---- The decision ---------------------------------------------------------------

  datatype Decision = Install | Unchanged | Replace | KeepOperatorValue

  datatype Installed = Absent | Present(digest: Option<Bytes>)

  function Decide(recorded: Option<Bytes>, byDefault: Option<Bytes>, version: Bytes, installed: Installed): Decision {
    match (recorded, installed)
    case (None, Absent) => Install
    case (Some(v), _) =>
      if v == version then Unchanged
      else if installed.Present? && installed.digest.Some? && byDefault == Some(v) && installed.digest.value == v
      then Replace
      else KeepOperatorValue
    case _ => KeepOperatorValue
  }

  function Get<K, V>(m: map<K, V>, k: K): Option<V> {
    if k in m then Some(m[k]) else None
  }

  /** `installed_by_default`: anything unreadable as a record counts as none. */
  function ByDefault(env: Env, r: Root, id: Bytes): Option<Bytes> {
    match Get<Bytes, File>(r.records, env.digest(id))
    case Some(Regular(b)) => if |b| <= MAX_RECORD_BYTES && env.utf8(b) then Some(b) else None
    case _ => None
  }

  function Inspect(env: Env, r: Root, id: Bytes): Installed {
    match Get<string, File>(r.files, env.place(id))
    case None => Absent
    case Some(Regular(b)) => Present(if |b| <= MAX_KNOWN_HOSTS_BYTES then Some(env.digest(b)) else None)
    case Some(Special) => Present(None)
  }

  function Decided(env: Env, r: Root, e: Entry): Decision {
    Decide(Get(r.versions, e.identifier), ByDefault(env, r, e.identifier), e.version, Inspect(env, r, e.identifier))
  }

  // ---- Steps ----------------------------------------------------------------------

  /** Where the machine dies during an installation, if it does. */
  datatype Crash = NoCrash | BeforeSwitch | BeforeRecord

  /** A boot of the unit: the source file, the version it is declared under, and
      the leaf's own default value. */
  datatype Request = Request(identifier: Bytes, source: File, version: Bytes, fallback: Option<Bytes>)

  datatype Step =
    | Default(request: Request, crash: Crash)
    | Operator(entries: seq<Entry>)
    | Edit(path: string, file: Option<File>)
    | LoseRecord(name: Bytes)

  /** `usable_default`: the source when it is valid under the schema, otherwise the
      leaf's own default under the digest of its contents, otherwise nothing. */
  function Usable(env: Env, q: Request, value: Bytes): Option<Entry> {
    if env.utf8(value) && env.knownHosts(value) then Some(Entry(q.identifier, q.version, value))
    else if q.fallback.Some? && env.knownHosts(q.fallback.value) then
      Some(Entry(q.identifier, env.digest(q.fallback.value), q.fallback.value))
    else None
  }

  /** What a boot offers for installation; None where it stops before that, by the
      version check, the fast path, or an unusable source. */
  function Offered(env: Env, r: Root, q: Request): Option<Entry> {
    if !HexVersion(q.version) || Get(r.versions, q.identifier) == Some(q.version) then None
    else if q.source.Special? || |q.source.bytes| > MAX_KNOWN_HOSTS_BYTES then None
    else Usable(env, q, q.source.bytes)
  }

  function Publish(env: Env, r: Root, e: Entry): Root {
    r.(files := r.files[env.place(e.identifier) := Regular(e.contents)],
       versions := r.versions[e.identifier := e.version])
  }

  function PublishAll(env: Env, r: Root, entries: seq<Entry>): Root {
    if entries == [] then r
    else Publish(env, PublishAll(env, r, entries[..|entries| - 1]), entries[|entries| - 1])
  }

  function Record(env: Env, r: Root, e: Entry): Root {
    r.(records := r.records[env.digest(e.identifier) := Regular(e.version)])
  }

  predicate Proceeds(d: Decision) {
    d == Install || d == Replace
  }

  function Installation(env: Env, r: Root, e: Entry, crash: Crash): Root {
    if !Proceeds(Decided(env, r, e)) || crash == BeforeSwitch then r
    else if crash == BeforeRecord then Publish(env, r, e)
    else Record(env, Publish(env, r, e), e)
  }

  function Apply(env: Env, r: Root, s: Step): Root {
    match s
    case Default(q, crash) => (match Offered(env, r, q) case None => r case Some(e) => Installation(env, r, e, crash))
    case Operator(entries) => PublishAll(env, r, entries)
    case Edit(path, Some(f)) => r.(files := r.files[path := f])
    case Edit(path, None) => r.(files := r.files - {path})
    case LoseRecord(name) => r.(records := r.records - {name})
  }

  function Run(env: Env, r: Root, steps: seq<Step>): Root {
    if steps == [] then r else Apply(env, Run(env, r, steps[..|steps| - 1]), steps[|steps| - 1])
  }

  /** The default this step publishes, if it gets that far. */
  function PublishedBy(env: Env, r: Root, s: Step): set<Entry> {
    match s
    case Default(q, crash) =>
      (match Offered(env, r, q)
       case Some(e) => if Proceeds(Decided(env, r, e)) && crash != BeforeSwitch then {e} else {}
       case None => {})
    case _ => {}
  }

  /** Every default the unit has published during the run, recorded or not. */
  function Published(env: Env, r: Root, steps: seq<Step>): set<Entry> {
    if steps == [] then {}
    else
      var init := steps[..|steps| - 1];
      Published(env, r, init) + PublishedBy(env, Run(env, r, init), steps[|steps| - 1])
  }

  // ---- The values a run hashes ----------------------------------------------------

  function RegularBytes(f: File): set<Bytes> {
    if f.Regular? then {f.bytes} else {}
  }

  /** Contents of every file of the root. */
  ghost predicate FilesWithin(r: Root, used: set<Bytes>) {
    forall p :: p in r.files ==> RegularBytes(r.files[p]) <= used
  }

  /** Identifiers of defaults, and contents of whatever may become a file. */
  ghost predicate StepWithin(s: Step, used: set<Bytes>) {
    match s
    case Default(q, _) =>
      q.identifier in used && RegularBytes(q.source) <= used && (q.fallback.Some? ==> q.fallback.value in used)
    case Operator(entries) => forall i :: 0 <= i < |entries| ==> entries[i].contents in used
    case Edit(_, file) => file.Some? ==> RegularBytes(file.value) <= used
    case LoseRecord(_) => true
  }

  /** `used` holds every value that the run from `r` hashes or installs. */
  ghost predicate Within(r: Root, steps: seq<Step>, used: set<Bytes>) {
    FilesWithin(r, used) && forall i :: 0 <= i < |steps| ==> StepWithin(steps[i], used)
  }

  lemma {:induction false} PublishAllWithin(env: Env, r: Root, entries: seq<Entry>, used: set<Bytes>)
    requires FilesWithin(r, used) && forall i :: 0 <= i < |entries| ==> entries[i].contents in used
    ensures FilesWithin(PublishAll(env, r, entries), used)
  {
    if entries != [] { PublishAllWithin(env, r, entries[..|entries| - 1], used); }
  }

  lemma OfferedWithin(env: Env, r: Root, q: Request, used: set<Bytes>)
    requires StepWithin(Default(q, NoCrash), used) && Offered(env, r, q).Some?
    ensures Offered(env, r, q).value.contents in used && Offered(env, r, q).value.identifier == q.identifier
  {
  }

  lemma StepStaysWithin(env: Env, r: Root, s: Step, used: set<Bytes>)
    requires FilesWithin(r, used) && StepWithin(s, used)
    ensures FilesWithin(Apply(env, r, s), used)
  {
    hide Offered, Decided;
    match s
    case Default(q, crash) => { if Offered(env, r, q).Some? { OfferedWithin(env, r, q, used); } }
    case Operator(entries) => PublishAllWithin(env, r, entries, used);
    case _ =>
  }

  // ---- What a record proves -------------------------------------------------------

  /** A readable record names the version of a default published earlier, and its
      identifier has an installed version. */
  ghost predicate Recorded(env: Env, r: Root, published: set<Entry>, id: Bytes) {
    ByDefault(env, r, id).Some? ==>
      id in r.versions
      && exists e :: e in published && e.identifier == id && e.version == ByDefault(env, r, id).value
  }

  /** So it is of every identifier the run uses, and what was published is used. */
  ghost predicate Sound(env: Env, r: Root, published: set<Entry>, used: set<Bytes>) {
    FilesWithin(r, used)
    && (forall id :: id in used ==> Recorded(env, r, published, id))
    && forall e :: e in published ==> e.contents in used
  }

  lemma {:induction false} PublishAllKeeps(env: Env, r: Root, entries: seq<Entry>)
    ensures PublishAll(env, r, entries).records == r.records
    ensures forall id :: id in r.versions ==> id in PublishAll(env, r, entries).versions
  {
    if entries != [] { PublishAllKeeps(env, r, entries[..|entries| - 1]); }
  }

  lemma InstallationSound(env: Env, r: Root, published: set<Entry>, e: Entry, crash: Crash, used: set<Bytes>)
    requires Distinguishes(env, used) && Sound(env, r, published, used)
    requires e.identifier in used && e.contents in used
    requires Proceeds(Decided(env, r, e)) && crash != BeforeSwitch
    ensures Sound(env, Installation(env, r, e, crash), published + {e}, used)
  {
    hide Decide;
    var after := Installation(env, r, e, crash);
    forall id | id in used ensures Recorded(env, after, published + {e}, id) {
      assert Recorded(env, r, published, id);
      if id != e.identifier {
        assert env.digest(id) != env.digest(e.identifier);
        assert ByDefault(env, after, id) == ByDefault(env, r, id);
      } else if crash == NoCrash && ByDefault(env, after, id).Some? {
        assert e in published + {e} && ByDefault(env, after, id).value == e.version;
      }
      if ByDefault(env, r, id).Some? {
        var d :| d in published && d.identifier == id && d.version == ByDefault(env, r, id).value;
        assert d in published + {e};
      }
    }
  }

  /** A step that publishes no default and brings no new record keeps records sound. */
  lemma QuietSound(env: Env, r: Root, published: set<Entry>, after: Root, used: set<Bytes>)
    requires Sound(env, r, published, used) && FilesWithin(after, used)
    requires forall name :: name in after.records ==> name in r.records && after.records[name] == r.records[name]
    requires forall id :: id in r.versions ==> id in after.versions
    ensures Sound(env, after, published + {}, used)
  {
    assert published + {} == published;
    forall id | id in used ensures Recorded(env, after, published, id) {
      assert Recorded(env, r, published, id);
      assert ByDefault(env, after, id).Some? ==> ByDefault(env, after, id) == ByDefault(env, r, id);
    }
  }

  lemma SoundFiles(env: Env, r: Root, published: set<Entry>, used: set<Bytes>)
    requires Sound(env, r, published, used)
    ensures FilesWithin(r, used)
  {
  }

  lemma StepSound(env: Env, r: Root, published: set<Entry>, s: Step, used: set<Bytes>)
    requires Distinguishes(env, used) && Sound(env, r, published, used) && StepWithin(s, used)
    ensures Sound(env, Apply(env, r, s), published + PublishedBy(env, r, s), used)
  {
    hide Decide, Offered, Sound, Distinguishes, FilesWithin;
    SoundFiles(env, r, published, used);
    StepStaysWithin(env, r, s, used);
    match s
    case Default(q, crash) => {
      if PublishedBy(env, r, s) != {} {
        OfferedWithin(env, r, q, used);
        InstallationSound(env, r, published, Offered(env, r, q).value, crash, used);
      } else {
        assert published + {} == published;
      }
    }
    case Operator(entries) => {
      PublishAllKeeps(env, r, entries);
      QuietSound(env, r, published, Apply(env, r, s), used);
    }
    case Edit(_, _) => QuietSound(env, r, published, Apply(env, r, s), used);
    case LoseRecord(_) => QuietSound(env, r, published, Apply(env, r, s), used);
  }

  lemma {:induction false} RunSound(env: Env, r: Root, steps: seq<Step>, used: set<Bytes>)
    requires r.records == map[] && Within(r, steps, used) && Distinguishes(env, used)
    ensures Sound(env, Run(env, r, steps), Published(env, r, steps), used)
  {
    if steps != [] {
      var init := steps[..|steps| - 1];
      RunSound(env, r, init, used);
      StepSound(env, Run(env, r, init), Published(env, r, init), steps[|steps| - 1], used);
    }
  }

  /** The declared version of this step's source is the digest of its contents. */
  predicate Hashed(env: Env, s: Step) {
    s.Default? && s.request.source.Regular? ==> s.request.version == env.digest(s.request.source.bytes)
  }

  lemma {:induction false} PublishedHashed(env: Env, r: Root, steps: seq<Step>)
    requires forall i :: 0 <= i < |steps| ==> Hashed(env, steps[i])
    ensures forall e :: e in Published(env, r, steps) ==> e.version == env.digest(e.contents)
  {
    if steps != [] {
      PublishedHashed(env, r, steps[..|steps| - 1]);
      assert Hashed(env, steps[|steps| - 1]);
    }
  }

  lemma ReplacedIsPublished(env: Env, now: Root, published: set<Entry>, e: Entry, used: set<Bytes>)
    requires Distinguishes(env, used) && Sound(env, now, published, used) && e.identifier in used
    requires forall d :: d in published ==> d.version == env.digest(d.contents)
    requires Proceeds(Decided(env, now, e)) && env.place(e.identifier) in now.files
    ensures e.identifier in now.versions && now.files[env.place(e.identifier)].Regular?
    ensures Entry(e.identifier, now.versions[e.identifier], now.files[env.place(e.identifier)].bytes) in published
  {
    var id, f := e.identifier, now.files[env.place(e.identifier)];
    assert Decided(env, now, e) == Replace;
    assert Recorded(env, now, published, id);
    var d :| d in published && d.identifier == id && d.version == ByDefault(env, now, id).value;
    assert f.bytes in RegularBytes(f);
    assert env.digest(d.contents) == env.digest(f.bytes);
    assert d == Entry(id, now.versions[id], f.bytes);
  }

  /** Over every run from a root without records whose values have distinct digests,
      a boot that changes a present value finds there the bytes and the version of
      a default this unit published at that identifier earlier in the run. It
      changes no other file. */
  lemma OnlyOwnDefaultsReplaced(env: Env, r: Root, steps: seq<Step>, q: Request, crash: Crash, used: set<Bytes>)
    requires r.records == map[] && Distinguishes(env, used)
    requires Within(r, steps, used) && q.identifier in used
    requires forall i :: 0 <= i < |steps| ==> Hashed(env, steps[i])
    ensures
      var now, p := Run(env, r, steps), env.place(q.identifier);
      var after := Apply(env, now, Default(q, crash));
      after.files - {p} == now.files - {p}
      && (p in now.files && Get(after.files, p) != Some(now.files[p]) ==>
            q.identifier in now.versions && now.files[p].Regular?
            && Entry(q.identifier, now.versions[q.identifier], now.files[p].bytes) in Published(env, r, steps))
  {
    hide Decided, Sound, Within, Distinguishes;
    var now, p := Run(env, r, steps), env.place(q.identifier);
    var after := Apply(env, now, Default(q, crash));
    RunSound(env, r, steps, used);
    PublishedHashed(env, r, steps);
    if p in now.files && Get(after.files, p) != Some(now.files[p]) {
      ReplacedIsPublished(env, now, Published(env, r, steps), Offered(env, now, q).value, used);
    }
  }

  // ---- How long a value stays -----------------------------------------------------

  /** The unit would replace the value installed at `id`: its record names the
      installed version, and the file hashes to it. */
  predicate Owned(env: Env, r: Root, id: Bytes) {
    id in r.versions && ByDefault(env, r, id) == Some(r.versions[id])
    && Inspect(env, r, id) == Present(Some(r.versions[id]))
  }

  /** No operator deployment or edit touches `id` or its destination, and no other
      default shares that destination or the name of its record. */
  predicate Leaves(env: Env, s: Step, id: Bytes) {
    match s
    case Default(q, _) =>
      q.identifier != id ==> env.place(q.identifier) != env.place(id) && env.digest(q.identifier) != env.digest(id)
    case Operator(entries) =>
      forall i :: 0 <= i < |entries| ==> entries[i].identifier != id && env.place(entries[i].identifier) != env.place(id)
    case Edit(path, _) => path != env.place(id)
    case LoseRecord(_) => true
  }

  lemma {:induction false} PublishAllLeaves(env: Env, r: Root, entries: seq<Entry>, id: Bytes)
    requires Leaves(env, Operator(entries), id)
    ensures
      var after := PublishAll(env, r, entries);
      Get(after.files, env.place(id)) == Get(r.files, env.place(id)) && Get(after.versions, id) == Get(r.versions, id)
  {
    if entries != [] { PublishAllLeaves(env, r, entries[..|entries| - 1], id); }
  }

  lemma KeptByInstallation(env: Env, r: Root, e: Entry, crash: Crash, id: Bytes)
    requires id in r.versions && !Owned(env, r, id)
    requires e.identifier != id ==>
      env.place(e.identifier) != env.place(id) && env.digest(e.identifier) != env.digest(id)
    ensures
      var after := Installation(env, r, e, crash);
      !Owned(env, after, id) && Get(after.versions, id) == Some(r.versions[id])
      && Get(after.files, env.place(id)) == Get(r.files, env.place(id))
  {
    if e.identifier == id {
      assert !Proceeds(Decided(env, r, e));
    } else {
      var after := Installation(env, r, e, crash);
      assert ByDefault(env, after, id) == ByDefault(env, r, id) && Inspect(env, after, id) == Inspect(env, r, id);
    }
  }

  /** Nothing at `id` changed, except that its record may be gone. */
  lemma KeptApart(env: Env, r: Root, after: Root, id: Bytes)
    requires id in r.versions && !Owned(env, r, id)
    requires Get(after.versions, id) == Some(r.versions[id])
    requires Get(after.files, env.place(id)) == Get(r.files, env.place(id))
    requires ByDefault(env, after, id).Some? ==> ByDefault(env, after, id) == ByDefault(env, r, id)
    ensures !Owned(env, after, id)
  {
    assert Inspect(env, after, id) == Inspect(env, r, id);
  }

  lemma KeptByStep(env: Env, r: Root, s: Step, id: Bytes)
    requires id in r.versions && !Owned(env, r, id) && Leaves(env, s, id)
    ensures
      var after := Apply(env, r, s);
      !Owned(env, after, id) && Get(after.versions, id) == Some(r.versions[id])
      && Get(after.files, env.place(id)) == Get(r.files, env.place(id))
  {
    hide Owned, Installation;
    var after := Apply(env, r, s);
    match s
    case Default(q, crash) => {
      if Offered(env, r, q).Some? { KeptByInstallation(env, r, Offered(env, r, q).value, crash, id); }
    }
    case Operator(entries) => {
      PublishAllLeaves(env, r, entries, id);
      PublishAllKeeps(env, r, entries);
      KeptApart(env, r, after, id);
    }
    case Edit(_, _) => KeptApart(env, r, after, id);
    case LoseRecord(_) => KeptApart(env, r, after, id);
  }

  lemma {:induction false} KeptForGood(env: Env, r: Root, steps: seq<Step>, id: Bytes)
    requires id in r.versions && !Owned(env, r, id)
    requires forall i :: 0 <= i < |steps| ==> Leaves(env, steps[i], id)
    ensures
      var after := Run(env, r, steps);
      !Owned(env, after, id) && Get(after.versions, id) == Some(r.versions[id])
      && Get(after.files, env.place(id)) == Get(r.files, env.place(id))
  {
    hide Apply, Owned, Leaves;
    if steps != [] {
      KeptForGood(env, r, steps[..|steps| - 1], id);
      KeptByStep(env, Run(env, r, steps[..|steps| - 1]), steps[|steps| - 1], id);
    }
  }

  ghost predicate Survives(env: Env, r: Root, id: Bytes) {
    forall steps ::
      (forall i :: 0 <= i < |steps| ==> Leaves(env, steps[i], id)) ==>
      Get(Run(env, r, steps).files, env.place(id)) == Get(r.files, env.place(id))
  }

  /** Whoever put it there, an installed value survives every later run of the unit
      (with any crashes, and changes elsewhere) exactly when the unit does not own
      it. `q` is any usable default with other contents and another version. */
  lemma SurvivesExactly(env: Env, r: Root, id: Bytes, q: Request)
    requires id in r.versions && q.identifier == id
    requires Offered(env, r, q).Some? && Offered(env, r, q).value.version != r.versions[id]
    requires Get(r.files, env.place(id)) != Some(Regular(Offered(env, r, q).value.contents))
    ensures Survives(env, r, id) <==> !Owned(env, r, id)
  {
    if Owned(env, r, id) {
      var steps := [Default(q, NoCrash)];
      assert steps[..0] == [];
      assert Run(env, r, steps) == Apply(env, Run(env, r, []), Default(q, NoCrash));
      assert Decided(env, r, Offered(env, r, q).value) == Replace;
      assert Get(Run(env, r, steps).files, env.place(id)) != Get(r.files, env.place(id));
      assert forall i :: 0 <= i < |steps| ==> Leaves(env, steps[i], id);
      assert !Survives(env, r, id);
    } else {
      forall steps | forall i :: 0 <= i < |steps| ==> Leaves(env, steps[i], id)
        ensures Get(Run(env, r, steps).files, env.place(id)) == Get(r.files, env.place(id))
      {
        KeptForGood(env, r, steps, id);
      }
    }
  }

  lemma OwnedAfterInstall(env: Env, r: Root, e: Entry, crash: Crash)
    requires Sane(env) && Proceeds(Decided(env, r, e)) && crash != BeforeSwitch
    requires e.version == env.digest(e.contents) && |e.contents| <= MAX_KNOWN_HOSTS_BYTES
    requires ByDefault(env, r, e.identifier) != Some(e.version)
    ensures Owned(env, Installation(env, r, e, crash), e.identifier) <==> crash == NoCrash
  {
    hide Decided;
    var after := Installation(env, r, e, crash);
    assert HexVersion(e.version);
    assert after.versions[e.identifier] == e.version && Inspect(env, after, e.identifier) == Present(Some(e.version));
    if crash == NoCrash {
      assert ByDefault(env, after, e.identifier) == Some(e.version);
    } else {
      assert ByDefault(env, after, e.identifier) == ByDefault(env, r, e.identifier);
    }
  }

  /** What is installed anew is not what the record named before. */
  lemma RecordIsOlder(env: Env, r: Root, published: set<Entry>, e: Entry)
    requires Recorded(env, r, published, e.identifier) && Proceeds(Decided(env, r, e))
    ensures ByDefault(env, r, e.identifier) != Some(e.version)
  {
    hide Inspect;
  }

  lemma OfferedHashed(env: Env, r: Root, q: Request, crash: Crash)
    requires Sane(env) && Hashed(env, Default(q, crash)) && Offered(env, r, q).Some?
    ensures
      var e := Offered(env, r, q).value;
      e.identifier == q.identifier && e.version == env.digest(e.contents) && |e.contents| <= MAX_KNOWN_HOSTS_BYTES
  {
  }

  /** After a published installation the unit owns the value exactly when it lived
      to write the record; a crash before that keeps the value for good. */
  lemma OwnedUnlessCrashed(env: Env, r: Root, steps: seq<Step>, q: Request, crash: Crash, used: set<Bytes>)
    requires Sane(env) && Distinguishes(env, used) && r.records == map[]
    requires Within(r, steps, used) && q.identifier in used && Hashed(env, Default(q, crash))
    requires PublishedBy(env, Run(env, r, steps), Default(q, crash)) != {}
    ensures Owned(env, Apply(env, Run(env, r, steps), Default(q, crash)), q.identifier) <==> crash == NoCrash
  {
    hide Run, Offered, Decided, Owned, Installation, Sane, Hashed, Recorded;
    var now := Run(env, r, steps);
    RunSound(env, r, steps, used);
    var e := Offered(env, now, q).value;
    OfferedHashed(env, now, q, crash);
    RecordIsOlder(env, now, Published(env, r, steps), e);
    OwnedAfterInstall(env, now, e, crash);
  }

  /** The default of this boot is the installed version. */
  predicate Current(env: Env, r: Root, q: Request) {
    q.identifier in r.versions
    && (r.versions[q.identifier] == q.version
        || (Offered(env, r, q).Some? && r.versions[q.identifier] == Offered(env, r, q).value.version))
  }

  lemma CurrentUnchanged(env: Env, r: Root, q: Request, crash: Crash)
    requires Current(env, r, q)
    ensures Apply(env, r, Default(q, crash)) == r
    ensures Offered(env, r, q).Some? ==> Decided(env, r, Offered(env, r, q).value) == Unchanged
  {
  }

  /** Booting again with the default that is installed changes nothing, whatever
      became of its file and its record in between. */
  lemma {:induction false} ReinstallUnchanged(env: Env, r: Root, steps: seq<Step>, q: Request, crash: Crash)
    requires Current(env, r, q)
    requires forall i :: 0 <= i < |steps| ==> Spares(steps[i], q)
    ensures Current(env, Run(env, r, steps), q)
    ensures Get(Run(env, r, steps).versions, q.identifier) == Some(r.versions[q.identifier])
    ensures Apply(env, Run(env, r, steps), Default(q, crash)) == Run(env, r, steps)
  {
    if steps != [] {
      var init, s := steps[..|steps| - 1], steps[|steps| - 1];
      ReinstallUnchanged(env, r, init, q, crash);
      SparesVersion(env, Run(env, r, init), s, q);
    }
    CurrentUnchanged(env, Run(env, r, steps), q, crash);
  }

  /** Deploys nothing else at the identifier of `q`. */
  predicate Spares(s: Step, q: Request) {
    match s
    case Default(other, _) => other == q || other.identifier != q.identifier
    case Operator(entries) => forall i :: 0 <= i < |entries| ==> entries[i].identifier != q.identifier
    case _ => true
  }

  lemma {:induction false} SparesAll(env: Env, r: Root, entries: seq<Entry>, id: Bytes)
    requires forall i :: 0 <= i < |entries| ==> entries[i].identifier != id
    ensures Get(PublishAll(env, r, entries).versions, id) == Get(r.versions, id)
  {
    if entries != [] { SparesAll(env, r, entries[..|entries| - 1], id); }
  }

  lemma SparesVersion(env: Env, r: Root, s: Step, q: Request)
    requires Current(env, r, q) && Spares(s, q)
    ensures Get(Apply(env, r, s).versions, q.identifier) == Some(r.versions[q.identifier])
  {
    hide Decided;
    match s
    case Default(other, crash) => { if other == q { CurrentUnchanged(env, r, q, crash); } }
    case Operator(entries) => SparesAll(env, r, entries, q.identifier);
    case _ =>
  }

  /** An operator's own deployment of an earlier default, under its digest, is owned
      by the unit as before, and the next default replaces it. */
  lemma OperatorCopyIsReplaced(env: Env, r: Root, former: Entry, q: Request)
    requires ByDefault(env, r, former.identifier) == Some(former.version)
    requires former.version == env.digest(former.contents) && |former.contents| <= MAX_KNOWN_HOSTS_BYTES
    requires q.identifier == former.identifier && Hashed(env, Default(q, NoCrash)) && q.version != former.version
    requires q.source.Regular? && HexVersion(q.version) && |q.source.bytes| <= MAX_KNOWN_HOSTS_BYTES
    requires env.utf8(q.source.bytes) && env.knownHosts(q.source.bytes)
    ensures
      var after := Apply(env, Apply(env, r, Operator([former])), Default(q, NoCrash));
      after.files[env.place(former.identifier)] == q.source
  {
    var mid := Apply(env, r, Operator([former]));
    assert [former][..0] == [];
    assert mid == Publish(env, PublishAll(env, r, []), former);
    assert Owned(env, mid, former.identifier);
  }

  // ---- One boot, in full ----------------------------------------------------------

  /** The unit owns a value exactly when the record file of its identifier holds the
      installed version, and the destination a file of that digest; both of them
      plain files within their limits. */
  lemma OwnedExactly(env: Env, r: Root, id: Bytes)
    ensures Owned(env, r, id) <==>
      id in r.versions
      && env.digest(id) in r.records && r.records[env.digest(id)] == Regular(r.versions[id])
      && |r.versions[id]| <= 256 && env.utf8(r.versions[id])
      && env.place(id) in r.files && r.files[env.place(id)].Regular?
      && |r.files[env.place(id)].bytes| <= 65536 && env.digest(r.files[env.place(id)].bytes) == r.versions[id]
  {
  }

  /** `e` is the default of this boot: the source under its declared version if it is
      valid, otherwise the leaf's own default under its digest. */
  predicate IsDefault(env: Env, q: Request, e: Entry) {
    && q.source.Regular? && |q.source.bytes| <= 65536 && e.identifier == q.identifier
    && var valid := env.utf8(q.source.bytes) && env.knownHosts(q.source.bytes);
       (valid ==> e.contents == q.source.bytes && e.version == q.version)
       && (!valid ==>
             q.fallback.Some? && env.knownHosts(q.fallback.value)
             && e.contents == q.fallback.value && e.version == env.digest(q.fallback.value))
  }

  /** The boot installs `e`: its declared version is a version and not the installed
      one, and nothing was ever installed and nothing is there, or the unit owns
      what is installed and `e` has another version. */
  predicate Boots(env: Env, r: Root, q: Request, e: Entry) {
    && IsDefault(env, q, e) && HexVersion(q.version) && Get(r.versions, q.identifier) != Some(q.version)
    && ((q.identifier !in r.versions && env.place(q.identifier) !in r.files)
        || (Owned(env, r, q.identifier) && Get(r.versions, q.identifier) != Some(e.version)))
  }

  /** A boot changes nothing unless it installs a default; then the destination, the
      version and, unless it crashed before that, the record are those of the default. */
  lemma BootExactly(env: Env, r: Root, q: Request, crash: Crash)
    ensures
      var after, id := Apply(env, r, Default(q, crash)), q.identifier;
      (crash == BeforeSwitch || (forall e :: !Boots(env, r, q, e)) ==> after == r)
      && forall e :: Boots(env, r, q, e) && crash != BeforeSwitch ==>
           after == Root(r.files[env.place(id) := Regular(e.contents)], r.versions[id := e.version],
                         if crash == NoCrash then r.records[env.digest(id) := Regular(e.version)] else r.records)
  {
    hide Owned;
    forall e ensures IsDefault(env, q, e) && HexVersion(q.version) && Get(r.versions, q.identifier) != Some(q.version)
      <==> Offered(env, r, q) == Some(e)
    {
    }
    forall e: Entry | e.identifier == q.identifier
      ensures Proceeds(Decided(env, r, e)) <==>
        (q.identifier !in r.versions && env.place(q.identifier) !in r.files)
        || (Owned(env, r, q.identifier) && Get(r.versions, q.identifier) != Some(e.version))
    {
      ProceedsExactly(env, r, e);
    }
    if Offered(env, r, q).Some? {
      var e := Offered(env, r, q).value;
      assert Boots(env, r, q, e) <==> Proceeds(Decided(env, r, e));
    }
  }

  lemma ProceedsExactly(env: Env, r: Root, e: Entry)
    ensures Proceeds(Decided(env, r, e)) <==>
      (e.identifier !in r.versions && env.place(e.identifier) !in r.files)
      || (Owned(env, r, e.identifier) && Get(r.versions, e.identifier) != Some(e.version))
  {
  }

  // ---- One run, in full -----------------------------------------------------------

  /** A digest that tells apart values with different first bytes below ten. */
  function SampleDigest(b: Bytes): (v: Bytes)
    ensures HexVersion(v)
  {
    var digit: int := if b == [] then 0 else b[0] as int % 10;
    [48 + digit]
  }

  const SAMPLE := Env(SampleDigest, (b: Bytes) => true, (b: Bytes) => |b| <= MAX_KNOWN_HOSTS_BYTES,
                      (id: Bytes) => "known_hosts")

  const NO_ROOT := Root(map[], map[], map[])
  const ID: Bytes := [1]
  const VALUES: set<Bytes> := {[1], [2], [3], [4]}

  /** A default at `ID`, versioned by its digest. */
  function SampleBoot(contents: Bytes): Step {
    Default(Request(ID, Regular(contents), SampleDigest(contents), None), NoCrash)
  }

  function SampleDeployment(contents: Bytes): Step {
    Operator([Entry(ID, SampleDigest(contents), contents)])
  }

  /** A default, then an operator's own value, then the operator's copy of the default. */
  const SAMPLE_RUN := [SampleBoot([2]), SampleDeployment([3]), SampleDeployment([2])]

  lemma SampleMeetsAssumptions()
    ensures Sane(SAMPLE) && Distinguishes(SAMPLE, VALUES) && Within(NO_ROOT, SAMPLE_RUN, VALUES)
    ensures forall i :: 0 <= i < |SAMPLE_RUN| ==> Hashed(SAMPLE, SAMPLE_RUN[i])
  {
    assert SampleDigest([1]) == [49] && SampleDigest([2]) == [50] && SampleDigest([3]) == [51] && SampleDigest([4]) == [52];
    forall a, b | a in VALUES && b in VALUES && SampleDigest(a) == SampleDigest(b) ensures a == b {
      assert SampleDigest(a)[0] == SampleDigest(b)[0];
    }
  }

  lemma SampleDeploys(r: Root, contents: Bytes)
    ensures Apply(SAMPLE, r, SampleDeployment(contents)) == Publish(SAMPLE, r, Entry(ID, SampleDigest(contents), contents))
  {
    var e := Entry(ID, SampleDigest(contents), contents);
    assert [e][..0] == [];
    assert PublishAll(SAMPLE, r, [e]) == Publish(SAMPLE, PublishAll(SAMPLE, r, []), e);
  }

  /** The root of the run after one, two and three steps. */
  lemma SampleStates()
    ensures
      var p := "known_hosts";
      var one := Run(SAMPLE, NO_ROOT, SAMPLE_RUN[..1]);
      var two := Run(SAMPLE, NO_ROOT, SAMPLE_RUN[..2]);
      var three := Run(SAMPLE, NO_ROOT, SAMPLE_RUN);
      one == Root(map[p := Regular([2])], map[ID := [50]], map[[49] := Regular([50])])
      && two == Root(map[p := Regular([3])], map[ID := [51]], map[[49] := Regular([50])])
      && three == one
  {
    var steps := SAMPLE_RUN;
    assert steps[..1][..0] == [] && steps[..2][..1] == steps[..1] && steps[..3][..2] == steps[..2] && steps[..3] == steps;
    assert SampleDigest(ID) == [49] && SampleDigest([2]) == [50] && SampleDigest([3]) == [51];
    assert Run(SAMPLE, NO_ROOT, steps[..1]) == Apply(SAMPLE, NO_ROOT, SampleBoot([2]));
    SampleDeploys(Run(SAMPLE, NO_ROOT, steps[..1]), [3]);
    SampleDeploys(Run(SAMPLE, NO_ROOT, steps[..2]), [2]);
  }

  /** The next default leaves the operator's own value alone and replaces the
      operator's copy of the earlier default. */
  lemma OperatorCopyRun()
    ensures
      var two := Run(SAMPLE, NO_ROOT, SAMPLE_RUN[..2]);
      var three := Run(SAMPLE, NO_ROOT, SAMPLE_RUN);
      Apply(SAMPLE, two, SampleBoot([4])) == two && two.files["known_hosts"] == Regular([3])
      && three.files["known_hosts"] == Regular([2])
      && Apply(SAMPLE, three, SampleBoot([4])).files["known_hosts"] == Regular([4])
  {
    SampleStates();
    assert SampleDigest([4]) == [52] && SampleDigest([2]) == [50] && SampleDigest([3]) == [51] && SampleDigest(ID) == [49];
    assert [50][0] != [51][0] && [50][0] != [52][0] && [51][0] != [52][0];
  }
}

/** The installer as it runs, under the deployment lock. */
module PublicDefault {
  import opened Prelude
  import opened Provenance

  class PublicRoot {
    var files: map<string, File>
    var versions: map<Bytes, Bytes>
    var records: map<Bytes, File>
    const env: Env

    constructor (env: Env)
      ensures State() == Root(map[], map[], map[]) && this.env == env
    {
      this.env := env;
      files, versions, records := map[], map[], map[];
    }

    function State(): Root
      reads this
    {
      Root(files, versions, records)
    }

    /** Publishes a batch: every entry, then its version. */
    method Deploy(entries: seq<Entry>)
      modifies this`files, this`versions
      ensures State() == Apply(env, old(State()), Operator(entries))
    {
      for i := 0 to |entries|
        invariant State() == PublishAll(env, old(State()), entries[..i])
      {
        files := files[env.place(entries[i].identifier) := Regular(entries[i].contents)];
        versions := versions[entries[i].identifier := entries[i].version];
        assert entries[..i + 1][..i] == entries[..i];
      }
      assert entries[..|entries|] == entries;
    }

    /** `install` through `deploy_if`: decides, publishes, then records. */
    method Install(entry: Entry, crash: Crash) returns (decision: Decision)
      modifies this
      ensures decision == Decided(env, old(State()), entry)
      ensures State() == Installation(env, old(State()), entry, crash)
    {
      decision := Decide(Get(versions, entry.identifier), ByDefault(env, State(), entry.identifier), entry.version,
                         Inspect(env, State(), entry.identifier));
      if !Proceeds(decision) || crash == BeforeSwitch {
        return;
      }
      assert [entry][..0] == [];
      assert PublishAll(env, State(), [entry]) == Publish(env, PublishAll(env, State(), []), entry);
      Deploy([entry]);
      if crash == BeforeRecord {
        return;
      }
      records := records[env.digest(entry.identifier) := Regular(entry.version)];
    }

    /** `install_public_default`: the checks and the fast path before `install`. */
    method InstallPublicDefault(request: Request, crash: Crash)
      modifies this
      ensures State() == Apply(env, old(State()), Default(request, crash))
    {
      if !HexVersion(request.version) || Get(versions, request.identifier) == Some(request.version) {
        return;
      }
      if request.source.Special? || |request.source.bytes| > MAX_KNOWN_HOSTS_BYTES {
        return;
      }
      var usable := Usable(env, request, request.source.bytes);
      if usable.Some? {
        var _ := Install(usable.value, crash);
      }
    }
  }
}
