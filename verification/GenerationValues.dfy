/** What a generation run produces, in closed form: which values are adopted, which
    draw of the random source every other one is, and when the run succeeds. */
module GenerationValues {
  import opened Prelude
  import opened Envelope
  import opened Generation

  /** The value is this host's own, a version of it is recorded, and its file is there. */
  predicate Adopts(c: Context, files: map<string, Bytes>, e: GenerateEntry) {
    e.shared.None? && e.identifier in c.leaves && e.identifier in c.installed
    && c.leaves[e.identifier].destination in files
  }

  /** A version is drawn for every value that is generated, and for an adopted one
      whose recorded version is not one. */
  predicate DrawsVersion(c: Context, files: map<string, Bytes>, e: GenerateEntry) {
    !Adopts(c, files, e) || DecodeVersion(c, c.installed[e.identifier]).None?
  }

  /** Draws made for `entries`, and the contributions mixed in for them. */
  function ValueDraws(c: Context, files: map<string, Bytes>, entries: seq<GenerateEntry>): nat {
    if entries == [] then 0
    else ValueDraws(c, files, entries[..|entries| - 1]) + if Adopts(c, files, entries[|entries| - 1]) then 0 else 1
  }

  function VersionDraws(c: Context, files: map<string, Bytes>, entries: seq<GenerateEntry>): nat {
    if entries == [] then 0
    else VersionDraws(c, files, entries[..|entries| - 1]) + if DrawsVersion(c, files, entries[|entries| - 1]) then 1 else 0
  }

  function MixedFor(c: Context, files: map<string, Bytes>, entries: seq<GenerateEntry>): seq<Bytes> {
    if entries == [] then []
    else
      var e := entries[|entries| - 1];
      MixedFor(c, files, entries[..|entries| - 1])
      + if Adopts(c, files, e) || e.contribution.None? then [] else [e.contribution.value]
  }

  /** The declared generator of the value. */
  function GeneratorOf(c: Context, e: GenerateEntry): Option<string> {
    if e.shared.Some? then e.shared.value.generator
    else if e.identifier in c.leaves then c.leaves[e.identifier].generator else None
  }

  function ExpectedValue(c: Context, m: Machine, entries: seq<GenerateEntry>, i: nat): Bytes
    requires i < |entries|
  {
    var e := entries[i];
    if Adopts(c, m.files, e) then m.files[c.leaves[e.identifier].destination]
    else
      match GeneratorOf(c, e)
      case Some(g) => c.valueAt(g, m.values + ValueDraws(c, m.files, entries[..i]))
      case None => []
  }

  function ExpectedVersion(c: Context, m: Machine, entries: seq<GenerateEntry>, i: nat): Version
    requires i < |entries|
  {
    var e := entries[i];
    if DrawsVersion(c, m.files, e) then c.versionAt(m.versions + VersionDraws(c, m.files, entries[..i]))
    else DecodeVersion(c, c.installed[e.identifier]).value
  }

  predicate DerivedFrom(c: Context, id: string, source: string) {
    id in c.leaves && c.leaves[id].derived.Some? && c.leaves[id].derived.value.source == source
  }

  lemma FramedExactly(c: Context, derive: seq<string>, source: string)
    ensures FramedFrom(c, derive, source) <==> exists id :: id in derive && DerivedFrom(c, id, source)
  {
    if FramedFrom(c, derive, source) {
      var i :| 0 <= i < |derive| && DerivedFrom(c, derive[i], source);
      assert derive[i] in derive;
    }
  }

  /** The entry may be produced: a contribution of 32 bytes, a declared generator, and
      either an own leaf whose installed file is not too large, or a value of another
      host from which a requested value is framed, with a key for every recipient. */
  predicate Allowed(c: Context, files: map<string, Bytes>, derive: seq<string>, e: GenerateEntry) {
    && e.contribution.Some? && |e.contribution.value| == 32 && GeneratorOf(c, e).Some?
    && match e.shared
       case None =>
         e.identifier in c.leaves
         && (Adopts(c, files, e) ==> |files[c.leaves[e.identifier].destination]| <= MAX_SECRET_SIZE)
       case Some(s) =>
         (exists id :: id in derive && DerivedFrom(c, id, e.identifier))
         && s.recipientIds != [] && |s.recipientIds| == |s.recipientKeys|
  }

  ghost predicate EntryOk(c: Context, m: Machine, derive: seq<string>, entries: seq<GenerateEntry>, i: nat)
    requires i < |entries|
  {
    Allowed(c, m.files, derive, entries[i])
    && Encrypt(entries[i].identifier, ExpectedVersion(c, m, entries, i), ExpectedValue(c, m, entries, i),
               RecipientsFor(c, entries[i]), c.provider, m.encryptions + i).Ok?
  }

  function MachineAfter(c: Context, m: Machine, entries: seq<GenerateEntry>): Machine {
    Machine(m.files, m.mixed + MixedFor(c, m.files, entries), m.versions + VersionDraws(c, m.files, entries),
            m.values + ValueDraws(c, m.files, entries), m.encryptions + |entries|)
  }

  /** One entry, after those before it. */
  lemma ProduceExactly(c: Context, m: Machine, derive: seq<string>, entries: seq<GenerateEntry>, i: nat)
    requires i < |entries|
    ensures
      var e, before := entries[i], MachineAfter(c, m, entries[..i]);
      var v := Produce(c, e, derive, before);
      (v.Some? <==> Allowed(c, m.files, derive, e))
      && (v.Some? ==>
            v.value.version == ExpectedVersion(c, m, entries, i) && v.value.bytes == ExpectedValue(c, m, entries, i)
            && v.value.adopted == Adopts(c, m.files, e)
            && v.value.machine.(encryptions := v.value.machine.encryptions + 1) == MachineAfter(c, m, entries[..i + 1]))
  {
    hide FramedFrom, DerivedFrom;
    FramedExactly(c, derive, entries[i].identifier);
    assert entries[..i + 1][..i] == entries[..i] && entries[..i + 1][i] == entries[i];
    var e := entries[i];
    var mixed := MixedFor(c, m.files, entries[..i]);
    if e.contribution.Some? { assert m.mixed + mixed + [e.contribution.value] == m.mixed + (mixed + [e.contribution.value]); }
    assert mixed + [] == mixed;
  }

  /** The loop over the entries succeeds exactly when every entry may be produced and
      its value can be encrypted; every value is the adopted file, or the next draw
      of its declared generator. */
  lemma {:induction false} EntriesExactly(c: Context, entries: seq<GenerateEntry>, derive: seq<string>, m: Machine)
    ensures Entries(c, entries, derive, m).Some? <==> forall i :: 0 <= i < |entries| ==> EntryOk(c, m, derive, entries, i)
    ensures Entries(c, entries, derive, m).Some? ==>
      Entries(c, entries, derive, m).value.machine == MachineAfter(c, m, entries)
    decreases |entries|
  {
    hide Produce, Encrypt, Allowed, ExpectedVersion, ExpectedValue, MachineAfter, RecipientsFor;
    if entries == [] {
      StartsAt(c, m);
    } else {
      var n := |entries| - 1;
      var init := entries[..n];
      EntriesExactly(c, init, derive, m);
      ProduceExactly(c, m, derive, entries, n);
      assert entries[..n + 1] == entries;
      forall i | 0 <= i < n ensures EntryOk(c, m, derive, init, i) <==> EntryOk(c, m, derive, entries, i) {
        PrefixEntry(c, m, entries, n, i);
      }
      assert (forall i :: 0 <= i < |entries| ==> EntryOk(c, m, derive, entries, i))
        <==> (forall i :: 0 <= i < n ==> EntryOk(c, m, derive, init, i)) && EntryOk(c, m, derive, entries, n);
      EncryptionsAfter(c, m, entries);
    }
  }

  lemma StartsAt(c: Context, m: Machine)
    ensures MachineAfter(c, m, []) == m
  {
    assert m.mixed + [] == m.mixed;
  }

  lemma EncryptionsAfter(c: Context, m: Machine, entries: seq<GenerateEntry>)
    ensures MachineAfter(c, m, entries).encryptions == m.encryptions + |entries|
  {
  }

  lemma PrefixEntry(c: Context, m: Machine, entries: seq<GenerateEntry>, n: nat, i: nat)
    requires i < n <= |entries|
    ensures entries[..n][i] == entries[i]
    ensures ExpectedVersion(c, m, entries[..n], i) == ExpectedVersion(c, m, entries, i)
    ensures ExpectedValue(c, m, entries[..n], i) == ExpectedValue(c, m, entries, i)
  {
    assert entries[..n][..i] == entries[..i];
  }

  /** No later entry asks for the same value. */
  predicate LastFor(entries: seq<GenerateEntry>, i: nat) {
    i < |entries| && forall j :: i < j < |entries| ==> entries[j].identifier != entries[i].identifier
  }

  /** The recipients of the entry, each with its own key. */
  predicate Addressed(c: Context, e: GenerateEntry, recipients: seq<Recipient>) {
    match e.shared
    case None => e.identifier in c.leaves ==> recipients == c.leaves[e.identifier].recipients
    case Some(s) =>
      |recipients| == |s.recipientIds|
      && forall i :: 0 <= i < |recipients| ==>
           recipients[i].id == s.recipientIds[i] && (i < |s.recipientKeys| ==> recipients[i].key == s.recipientKeys[i])
  }

  lemma RecipientsExactly(c: Context, e: GenerateEntry)
    ensures Addressed(c, e, RecipientsFor(c, e))
  {
  }

  /** The record of entry `i`: its value under its version, encrypted for its recipients. */
  ghost predicate RecordOf(c: Context, m: Machine, entries: seq<GenerateEntry>, i: nat, g: GeneratedRecord)
    requires i < |entries|
  {
    && g.adopted == Adopts(c, m.files, entries[i]) && g.versionId == c.encode(ExpectedVersion(c, m, entries, i))
    && exists recipients ::
         Addressed(c, entries[i], recipients)
         && Encrypt(entries[i].identifier, ExpectedVersion(c, m, entries, i), ExpectedValue(c, m, entries, i),
                    recipients, c.provider, m.encryptions + i) == Ok(g.record)
  }

  lemma PrefixRecord(c: Context, m: Machine, entries: seq<GenerateEntry>, n: nat, i: nat, g: GeneratedRecord)
    requires i < n <= |entries| && RecordOf(c, m, entries[..n], i, g)
    ensures RecordOf(c, m, entries, i, g)
  {
    hide ExpectedVersion, ExpectedValue, Addressed, Encrypt, Adopts;
    PrefixEntry(c, m, entries, n, i);
  }

  lemma LastRecord(c: Context, entries: seq<GenerateEntry>, derive: seq<string>, m: Machine)
    requires entries != [] && Entries(c, entries, derive, m).Some?
    ensures
      var n, a := |entries| - 1, Entries(c, entries, derive, m).value;
      var id := entries[n].identifier;
      id in a.produced && id in a.records
      && a.produced[id] == (ExpectedVersion(c, m, entries, n), ExpectedValue(c, m, entries, n))
      && RecordOf(c, m, entries, n, a.records[id])
  {
    hide Produce, Encrypt, Allowed, ExpectedVersion, ExpectedValue, MachineAfter, RecipientsFor, Adopts, Addressed;
    var n := |entries| - 1;
    EntriesExactly(c, entries[..n], derive, m);
    ProduceExactly(c, m, derive, entries, n);
    EncryptionsAfter(c, m, entries[..n]);
    EncryptionsAfter(c, m, entries[..n + 1]);
    RecipientsExactly(c, entries[n]);
  }

  lemma {:induction false} ProducedExactly(c: Context, entries: seq<GenerateEntry>, derive: seq<string>, m: Machine, i: nat)
    requires Entries(c, entries, derive, m).Some? && LastFor(entries, i)
    ensures
      var a, id := Entries(c, entries, derive, m).value, entries[i].identifier;
      id in a.produced && id in a.records
      && a.produced[id] == (ExpectedVersion(c, m, entries, i), ExpectedValue(c, m, entries, i))
      && RecordOf(c, m, entries, i, a.records[id])
    decreases |entries|
  {
    hide Produce, Encrypt, Allowed, ExpectedVersion, ExpectedValue, MachineAfter, RecipientsFor, Adopts, RecordOf;
    var n := |entries| - 1;
    LastRecord(c, entries, derive, m);
    if i < n {
      assert LastFor(entries[..n], i) by {
        forall j | i < j < n ensures entries[..n][j].identifier != entries[..n][i].identifier {
          assert entries[j].identifier != entries[i].identifier;
        }
      }
      ProducedExactly(c, entries[..n], derive, m, i);
      PrefixEntry(c, m, entries, n, i);
      PrefixRecord(c, m, entries, n, i, Entries(c, entries[..n], derive, m).value.records[entries[i].identifier]);
      assert entries[n].identifier != entries[i].identifier;
    }
  }

  /** The first `n` entries as installed on this host: its own values in order, none
      of another host's. */
  function Scheduled(c: Context, m: Machine, entries: seq<GenerateEntry>, n: nat): seq<Deployment>
    requires n <= |entries|
  {
    if n == 0 then []
    else
      Scheduled(c, m, entries, n - 1)
      + if entries[n - 1].shared.Some? then []
        else [Deployment(entries[n - 1].identifier, c.encode(ExpectedVersion(c, m, entries, n - 1)),
                         ExpectedValue(c, m, entries, n - 1))]
  }

  lemma {:induction false} ScheduledExactly(c: Context, entries: seq<GenerateEntry>, derive: seq<string>, m: Machine, n: nat)
    requires n <= |entries| && Entries(c, entries[..n], derive, m).Some?
    ensures
      var a := Entries(c, entries[..n], derive, m).value;
      a.deployments == Scheduled(c, m, entries, n)
      && forall id :: id in a.records <==> exists i :: 0 <= i < n && entries[i].identifier == id
    decreases n
  {
    hide Produce, Encrypt, Allowed, ExpectedVersion, ExpectedValue, MachineAfter, RecipientsFor;
    if n > 0 {
      assert entries[..n][..n - 1] == entries[..n - 1] && entries[..n][n - 1] == entries[n - 1];
      ScheduledExactly(c, entries, derive, m, n - 1);
      EntriesExactly(c, entries[..n - 1], derive, m);
      ProduceExactly(c, m, derive, entries, n - 1);
      var a, b := Entries(c, entries[..n - 1], derive, m).value, Entries(c, entries[..n], derive, m).value;
      forall id ensures id in b.records <==> exists i :: 0 <= i < n && entries[i].identifier == id {
        assert id in b.records <==> id in a.records || id == entries[n - 1].identifier;
        if id == entries[n - 1].identifier { assert entries[n - 1].identifier == id; }
      }
    }
  }

  /** The requested derived value can be framed from a value of this run. */
  predicate DerivesOk(c: Context, produced: map<string, (Version, Bytes)>, id: string) {
    id in c.leaves && c.leaves[id].derived.Some? && c.leaves[id].derived.value.source in produced
    && c.leaves[id].derived.value.frame(produced[c.leaves[id].derived.value.source].1).Some?
  }

  lemma {:induction false} DerivesExactly(c: Context, ids: seq<string>, a: Acc)
    ensures Derives(c, ids, a).Some? <==> forall i :: 0 <= i < |ids| ==> DerivesOk(c, a.produced, ids[i])
    decreases |ids|
  {
    if ids != [] {
      var n := |ids| - 1;
      DerivesExactly(c, ids[..n], a);
      assert forall i :: 0 <= i < n ==> ids[..n][i] == ids[i];
      if Derives(c, ids[..n], a).Some? { DerivesKeep(c, ids[..n], a); }
    }
  }

  /** A run succeeds exactly when its entries do and every requested derived value can
      be framed; then what it produced, adopted, drew and mixed in is as above. */
  lemma RunExactly(c: Context, entries: seq<GenerateEntry>, derive: seq<string>, m: Machine)
    ensures
      var e, r := Entries(c, entries, derive, m), Run(c, entries, derive, m);
      (e.Some? <==> forall i :: 0 <= i < |entries| ==> EntryOk(c, m, derive, entries, i))
      && (r.Some? <==> e.Some? && forall i :: 0 <= i < |derive| ==> DerivesOk(c, e.value.produced, derive[i]))
      && (r.Some? ==> r.value.machine == MachineAfter(c, m, entries) && r.value.produced == e.value.produced
                      && r.value.records == e.value.records)
    ensures Run(c, entries, derive, m).Some? ==> forall i: nat :: LastFor(entries, i) ==>
      var a, id := Run(c, entries, derive, m).value, entries[i].identifier;
      id in a.produced && id in a.records
      && a.produced[id] == (ExpectedVersion(c, m, entries, i), ExpectedValue(c, m, entries, i))
      && RecordOf(c, m, entries, i, a.records[id])
  {
    hide Entries, Derives, EntryOk, MachineAfter, ExpectedVersion, ExpectedValue, DerivesOk, RecordOf;
    EntriesExactly(c, entries, derive, m);
    var e := Entries(c, entries, derive, m);
    if e.Some? {
      DerivesExactly(c, derive, e.value);
      if Derives(c, derive, e.value).Some? { DerivesKeep(c, derive, e.value); }
      forall i: nat | LastFor(entries, i)
        ensures entries[i].identifier in e.value.produced && entries[i].identifier in e.value.records
        ensures e.value.produced[entries[i].identifier]
             == (ExpectedVersion(c, m, entries, i), ExpectedValue(c, m, entries, i))
        ensures RecordOf(c, m, entries, i, e.value.records[entries[i].identifier])
      {
        ProducedExactly(c, entries, derive, m, i);
      }
    }
  }
}
