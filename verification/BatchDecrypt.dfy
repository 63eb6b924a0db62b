/** Decrypting many ciphertexts at once: in waves of parallel workers, or
    through one launcher that speaks length-prefixed frames. */
module BatchDecrypt {
  import opened Prelude
  import opened Wire
  import opened Text
  import opened Envelope

  /** One after the other, stopping at the first error in input order. */
  function Sequential<T, R, E>(inputs: seq<T>, run: T -> Result<R, E>): Result<seq<R>, E> {
    if inputs == [] then Ok([])
    else
      match run(inputs[0])
      case Err(e) => Err(e)
      case Ok(r) =>
        match Sequential(inputs[1..], run)
        case Err(e) => Err(e)
        case Ok(rs) => Ok([r] + rs)
  }

  /** It succeeds exactly when every input does, with their results in order. */
  lemma {:induction false} SequentialOk<T, R, E>(inputs: seq<T>, run: T -> Result<R, E>, rs: seq<R>)
    ensures Sequential(inputs, run) == Ok(rs) <==>
      |rs| == |inputs| && forall i :: 0 <= i < |inputs| ==> run(inputs[i]) == Ok(rs[i])
  {
    if inputs != [] {
      if |rs| > 0 {
        SequentialOk(inputs[1..], run, rs[1..]);
        assert rs == [rs[0]] + rs[1..];
        if Sequential(inputs[1..], run) == Ok(rs[1..]) && run(inputs[0]) == Ok(rs[0]) {
          forall i | 0 <= i < |inputs| ensures run(inputs[i]) == Ok(rs[i]) {
            if i > 0 { assert inputs[1..][i - 1] == inputs[i] && rs[1..][i - 1] == rs[i]; }
          }
        }
      }
    }
  }

  lemma {:induction false} SequentialSplit<T, R, E>(a: seq<T>, b: seq<T>, run: T -> Result<R, E>)
    ensures Sequential(a + b, run) ==
      match Sequential(a, run)
      case Err(e) => Err(e)
      case Ok(rs) =>
        match Sequential(b, run)
        case Err(e) => Err(e)
        case Ok(more) => Ok(rs + more)
  {
    if a == [] {
      assert a + b == b;
      match Sequential(b, run) {
        case Err(_) =>
        case Ok(more) => assert [] + more == more;
      }
    } else {
      assert (a + b)[1..] == a[1..] + b;
      SequentialSplit(a[1..], b, run);
      match (run(a[0]), Sequential(a[1..], run), Sequential(b, run)) {
        case (Ok(r), Ok(rs), Ok(more)) => assert [r] + (rs + more) == [r] + rs + more;
        case _ =>
      }
    }
  }

  /** Results of one wave, joined in input order; all of it runs. */
  function Wave<T, R, E>(wave: seq<T>, run: T -> Result<R, E>): (r: seq<Result<R, E>>)
    ensures |r| == |wave| && forall i :: 0 <= i < |wave| ==> r[i] == run(wave[i])
  {
    seq(|wave|, i requires 0 <= i < |wave| => run(wave[i]))
  }

  /** `ordered_parallel` returns what one worker would, for any number of them;
      `started` counts the inputs that were run at all. */
  method OrderedParallel<T, R, E>(inputs: seq<T>, workers: nat, run: T -> Result<R, E>)
    returns (r: Result<seq<R>, E>, started: nat)
    ensures r == Sequential(inputs, run)
    ensures r.Ok? ==> started == |inputs|
    ensures r.Err? ==> exists k ::
      0 <= k < |inputs| && Sequential(inputs[..k], run).Ok? && run(inputs[k]) == Err(r.error)
      && k < started <= |inputs| && started - k <= (if workers > 1 then workers else 1)
  {
    var size := if workers > 1 then workers else 1;
    var output: seq<R> := [];
    started := 0;
    while started < |inputs|
      invariant 0 <= started <= |inputs|
      invariant Sequential(inputs[..started], run) == Ok(output)
    {
      var from := started;
      var to := if |inputs| - from < size then |inputs| else from + size;
      var results := Wave(inputs[from..to], run);
      started := to;
      for i := 0 to |results|
        invariant Sequential(inputs[..from + i], run) == Ok(output)
      {
        var k := from + i;
        SequentialSplit(inputs[..k], [inputs[k]], run);
        assert inputs[..k + 1] == inputs[..k] + [inputs[k]];
        assert [inputs[k]][1..] == [];
        assert Sequential([inputs[k]][1..], run) == Ok([]);
        if results[i].Err? {
          SequentialSplit(inputs[..k + 1], inputs[k + 1..], run);
          assert inputs == inputs[..k + 1] + inputs[k + 1..];
          return Err(results[i].error), started;
        }
        assert [results[i].value] + [] == [results[i].value];
        output := output + [results[i].value];
      }
    }
    assert inputs[..started] == inputs;
    r := Ok(output);
  }

  // ---- Frames -----------------------------------------------------------------

  function Frames(values: seq<Bytes>): Bytes {
    if values == [] then [] else Put(values[0]) + Frames(values[1..])
  }

  function Unframe(input: Bytes): Option<seq<Bytes>>
    decreases |input|
  {
    if input == [] then Some([])
    else
      match Take(input)
      case None => None
      case Some((value, rest)) =>
        match Unframe(rest)
        case None => None
        case Some(values) => Some([value] + values)
  }

  /** Reading frames is the inverse of writing them. */
  lemma {:induction false} UnframeExactly(input: Bytes, values: seq<Bytes>)
    ensures Unframe(input) == Some(values) <==>
      input == Frames(values) && forall i :: 0 <= i < |values| ==> |values[i]| < LIMIT
    decreases |input| + |values|
  {
    hide Take;
    if values == [] {
      if input != [] && Take(input).Some? {
        var (v, rest) := Take(input).value;
      }
    } else {
      var v, more := values[0], values[1..];
      assert values == [v] + more;
      if input != [] && Take(input).Some? && Take(input).value.0 == v {
        var rest := Take(input).value.1;
        TakeExactly(input, v, rest);
        UnframeExactly(rest, more);
      }
      if input == Frames(values) && |v| < LIMIT {
        TakeExactly(input, v, Frames(more));
        UnframeExactly(Frames(more), more);
      }
    }
  }

  type Launcher = Bytes -> Result<Bytes, CryptoError>

  predicate TooLarge(ciphertexts: seq<Bytes>) {
    exists i :: 0 <= i < |ciphertexts| && |ciphertexts[i]| > MAX_CIPHERTEXT_SIZE
  }

  /** The launcher path of `decrypt_batch`. */
  method DecryptFramed(ciphertexts: seq<Bytes>, launch: Launcher) returns (r: Result<seq<Bytes>, CryptoError>)
    ensures TooLarge(ciphertexts) ==> r == Err(SecretTooLarge)
    ensures ciphertexts == [] ==> r == Ok([])
    ensures !TooLarge(ciphertexts) && ciphertexts != [] ==>
      (r.Ok? <==>
         launch(Frames(ciphertexts)).Ok? && exists plain ::
           |plain| == |ciphertexts| && Unframe(launch(Frames(ciphertexts)).value) == Some(plain))
      && (r.Ok? ==> |r.value| == |ciphertexts| && Unframe(launch(Frames(ciphertexts)).value) == Some(r.value))
  {
    hide Take, Put;
    if TooLarge(ciphertexts) {
      return Err(SecretTooLarge);
    }
    if ciphertexts == [] {
      return Ok([]);
    }
    var input: Bytes := [];
    for i := 0 to |ciphertexts|
      invariant input + Frames(ciphertexts[i..]) == Frames(ciphertexts)
    {
      assert ciphertexts[i..][1..] == ciphertexts[i + 1..];
      assert input + (Put(ciphertexts[i]) + Frames(ciphertexts[i + 1..]))
          == input + Put(ciphertexts[i]) + Frames(ciphertexts[i + 1..]);
      input := input + Put(ciphertexts[i]);
    }
    assert input == Frames(ciphertexts);
    var output := launch(input);
    if output.Err? {
      return Err(output.error);
    }
    var rest := output.value;
    var plain: seq<Bytes> := [];
    assert forall more: seq<Bytes> :: [] + more == more;
    while rest != []
      invariant Unframe(output.value) ==
        match Unframe(rest) case None => None case Some(more) => Some(plain + more)
      decreases |rest|
    {
      var frame := Take(rest);
      if frame.None? {
        return Err(Foreign("malformed batch output"));
      }
      TakeShrinks(rest);
      assert forall more: seq<Bytes> :: plain + ([frame.value.0] + more) == plain + [frame.value.0] + more;
      plain := plain + [frame.value.0];
      rest := frame.value.1;
    }
    assert plain + [] == plain;
    if |plain| != |ciphertexts| {
      return Err(Foreign("the launcher returned a different number of values"));
    }
    r := Ok(plain);
  }

  lemma TakeShrinks(input: Bytes)
    requires Take(input).Some?
    ensures |Take(input).value.1| < |input|
  {
  }

  /** `decrypt` reads at most the largest plaintext from age. */
  ghost predicate Bounded(p: Provider) {
    forall cipher :: p.decrypt(cipher).Ok? ==> |p.decrypt(cipher).value| <= MAX_PLAINTEXT_SIZE
  }

  /** A launcher that decrypts frame by frame with the provider, and fails if one of
      them fails; its error is its own. */
  ghost predicate Honest(launch: Launcher, p: Provider) {
    forall cs :: !TooLarge(cs) ==>
      var out, plain := launch(Frames(cs)), Sequential(cs, p.decrypt);
      (out.Ok? <==> plain.Ok?) && (out.Ok? ==> out.value == Frames(plain.value))
  }

  lemma DecryptedFits(cs: seq<Bytes>, p: Provider)
    requires Bounded(p) && Sequential(cs, p.decrypt).Ok?
    ensures
      var plain := Sequential(cs, p.decrypt).value;
      |plain| == |cs| && Unframe(Frames(plain)) == Some(plain)
  {
    hide Unframe, Frames;
    var plain := Sequential(cs, p.decrypt).value;
    SequentialOk(cs, p.decrypt, plain);
    forall i | 0 <= i < |plain| ensures |plain[i]| < LIMIT {
      assert p.decrypt(cs[i]) == Ok(plain[i]);
    }
    UnframeExactly(Frames(plain), plain);
  }

  /** The launcher that unframes, decrypts and frames is honest. */
  function FrameByFrame(p: Provider): Launcher {
    (input: Bytes) =>
      match Unframe(input)
      case None => Err(InvalidRecord)
      case Some(cs) =>
        match Sequential(cs, p.decrypt)
        case Err(e) => Err(e)
        case Ok(plain) => Ok(Frames(plain))
  }

  lemma FrameByFrameIsHonest(p: Provider)
    ensures Honest(FrameByFrame(p), p)
  {
    hide Unframe, Frames, Sequential;
    forall cs | !TooLarge(cs) ensures Unframe(Frames(cs)) == Some(cs) {
      assert forall i :: 0 <= i < |cs| ==> |cs[i]| <= MAX_CIPHERTEXT_SIZE;
      UnframeExactly(Frames(cs), cs);
    }
  }

  /** How the provider runs age: directly with some workers, or through a launcher. */
  datatype Mode = Direct(workers: nat) | Launched(launch: Launcher)

  /** `decrypt_batch`: for an honest launcher as for any number of workers, what
      decrypting one by one gives. */
  method DecryptBatch(ciphertexts: seq<Bytes>, mode: Mode, p: Provider) returns (r: Result<seq<Bytes>, CryptoError>)
    requires Bounded(p) && (mode.Launched? ==> Honest(mode.launch, p))
    ensures TooLarge(ciphertexts) ==> r == Err(SecretTooLarge)
    ensures !TooLarge(ciphertexts) ==> (r.Ok? <==> Sequential(ciphertexts, p.decrypt).Ok?)
    ensures !TooLarge(ciphertexts) && (r.Ok? || mode.Direct?) ==> r == Sequential(ciphertexts, p.decrypt)
  {
    hide Unframe, Frames;
    if TooLarge(ciphertexts) {
      return Err(SecretTooLarge);
    }
    match mode
    case Direct(workers) =>
      var started;
      r, started := OrderedParallel(ciphertexts, workers, p.decrypt);
    case Launched(launch) =>
      ghost var plain := Sequential(ciphertexts, p.decrypt);
      assert var out := launch(Frames(ciphertexts)); (out.Ok? <==> plain.Ok?) && (out.Ok? ==> out.value == Frames(plain.value));
      if plain.Ok? { DecryptedFits(ciphertexts, p); }
      r := DecryptFramed(ciphertexts, launch);
  }

  // ---- Several records at once ---------------------------------------------------

  function Ciphertexts(records: seq<(string, Record)>): (r: seq<Bytes>)
    ensures |r| == |records| && forall i :: 0 <= i < |r| ==> r[i] == records[i].1.ciphertext
  {
    seq(|records|, i requires 0 <= i < |records| => records[i].1.ciphertext)
  }

  /** How far one record gets: 0 if its checks fail, 1 if it does not decrypt, 2 if
      the plaintext is not its envelope, 3 if it succeeds. */
  function Stage(record: (string, Record), p: Provider): (n: nat)
    ensures n < 3 <==> Decrypt(record.0, record.1, p).Err?
  {
    if !ValidIdentifier(record.0) || !RecordOk(record.1) then 0
    else if p.decrypt(record.1.ciphertext).Err? then 1
    else if Decrypt(record.0, record.1, p).Err? then 2
    else 3
  }

  /** The record whose error a batch reports: all records are checked before any is
      decrypted, and all are decrypted before any is decoded. */
  predicate Blamed(records: seq<(string, Record)>, p: Provider, k: nat) {
    k < |records| && Stage(records[k], p) < 3
    && (forall j :: 0 <= j < k ==> Stage(records[j], p) > Stage(records[k], p))
    && (forall j :: k < j < |records| ==> Stage(records[j], p) >= Stage(records[k], p))
  }

  /** The record at which decrypting one by one stops. */
  predicate FirstFailing(records: seq<(string, Record)>, p: Provider, k: nat) {
    k < |records| && Stage(records[k], p) < 3 && forall j :: 0 <= j < k ==> Stage(records[j], p) == 3
  }

  /** `decrypt_secrets` succeeds exactly when `decrypt_secret` does on every
      record, with the same values; an error is that of the record it blames. */
  method DecryptSecrets(records: seq<(string, Record)>, mode: Mode, p: Provider)
    returns (r: Result<seq<Bytes>, CryptoError>)
    requires Bounded(p) && (mode.Launched? ==> Honest(mode.launch, p))
    ensures r.Ok? <==>
      forall i :: 0 <= i < |records| ==> Decrypt(records[i].0, records[i].1, p).Ok?
    ensures r.Ok? ==> |r.value| == |records|
    ensures r.Ok? ==>
      forall i :: 0 <= i < |records| ==> Decrypt(records[i].0, records[i].1, p) == Ok(r.value[i])
    ensures r.Err? && mode.Direct? ==>
      exists k: nat :: Blamed(records, p, k) && Decrypt(records[k].0, records[k].1, p) == Err(r.error)
  {
    hide ValidIdentifier, DecodeInner, Bounded, Honest;
    for i := 0 to |records|
      invariant forall j :: 0 <= j < i ==> Stage(records[j], p) > 0
    {
      if !ValidIdentifier(records[i].0) {
        assert Blamed(records, p, i);
        return Err(InvalidIdentifier);
      }
      if !RecordOk(records[i].1) {
        assert Blamed(records, p, i);
        return Err(InvalidRecord);
      }
    }
    var ciphertexts := Ciphertexts(records);
    SizesOk(records, p);
    var inner := DecryptBatch(ciphertexts, mode, p);
    if inner.Err? {
      ghost var k: nat := SequentialErr(ciphertexts, p.decrypt);
      EarlierDecrypt(records, p, k);
      return Err(inner.error);
    }
    SequentialOk(ciphertexts, p.decrypt, inner.value);
    var plain: seq<Bytes> := [];
    for i := 0 to |records|
      invariant |plain| == i
      invariant forall j :: 0 <= j < i ==> Decrypt(records[j].0, records[j].1, p) == Ok(plain[j])
    {
      var value := DecodeInner(records[i].0, records[i].1.versionId, inner.value[i]);
      assert Decrypt(records[i].0, records[i].1, p) == value;
      if value.Err? {
        assert Blamed(records, p, i);
        return Err(value.error);
      }
      plain := plain + [value.value];
    }
    r := Ok(plain);
  }

  lemma SizesOk(records: seq<(string, Record)>, p: Provider)
    requires forall j :: 0 <= j < |records| ==> Stage(records[j], p) > 0
    ensures !TooLarge(Ciphertexts(records))
  {
    hide ValidIdentifier, Decrypt;
    forall i | 0 <= i < |records| ensures |records[i].1.ciphertext| <= MAX_CIPHERTEXT_SIZE {
      assert Stage(records[i], p) > 0;
    }
  }

  /** Where decrypting one by one stops. */
  lemma {:induction false} SequentialErr<T, R, E>(inputs: seq<T>, run: T -> Result<R, E>) returns (k: nat)
    requires Sequential(inputs, run).Err?
    ensures k < |inputs| && Sequential(inputs[..k], run).Ok? && run(inputs[k]) == Err(Sequential(inputs, run).error)
  {
    if run(inputs[0]).Err? {
      k := 0;
    } else {
      var n := SequentialErr(inputs[1..], run);
      k := n + 1;
      assert inputs[..k][1..] == inputs[1..][..n] && inputs[..k][0] == inputs[0];
    }
  }

  lemma EarlierDecrypt(records: seq<(string, Record)>, p: Provider, k: nat)
    requires k < |records| && forall j :: 0 <= j < |records| ==> Stage(records[j], p) > 0
    requires Sequential(Ciphertexts(records)[..k], p.decrypt).Ok? && p.decrypt(records[k].1.ciphertext).Err?
    ensures Blamed(records, p, k)
  {
    hide DecodeInner;
    var cs := Ciphertexts(records)[..k];
    SequentialOk(cs, p.decrypt, Sequential(cs, p.decrypt).value);
    forall j | 0 <= j < k ensures Stage(records[j], p) > 1 {
      assert cs[j] == records[j].1.ciphertext;
    }
  }

  /** A batch and decrypting one by one report the same record exactly when no later
      record gets less far than the first failing one. */
  lemma SameRecordExactly(records: seq<(string, Record)>, p: Provider, k: nat, first: nat)
    requires Blamed(records, p, k) && FirstFailing(records, p, first)
    ensures k == first <==> forall j :: first < j < |records| ==> Stage(records[j], p) >= Stage(records[first], p)
  {
    hide Stage;
    assert first <= k;
    if k != first {
      assert Stage(records[first], p) > Stage(records[k], p);
    }
  }

  function ShortIdentifier(): (id: string)
    ensures ValidIdentifier(id)
  {
    var parts := ["h", "services", "s", "x"];
    SplitJoin(parts, '.');
    assert parts[1..] == ["services", "s", "x"] && parts[1..][1..] == ["s", "x"] && parts[1..][1..][1..] == ["x"];
    assert Join(["x"], ".") == "x" && Join(["s", "x"], ".") == "s" + "." + "x";
    assert Join(parts[1..], ".") == "services" + "." + ("s" + "." + "x");
    assert |Join(parts, ".")| <= MAX_IDENTIFIER_SIZE;
    Join(parts, ".")
  }

  /** With a provider that decrypts nothing, a malformed second record is reported
      instead of the first. */
  lemma LaterRecordBlamed() returns (records: seq<(string, Record)>, p: Provider)
    ensures Blamed(records, p, 1) && FirstFailing(records, p, 0)
  {
    var record := Record(FORMAT_VERSION, seq(VERSION_ID_SIZE, i => 0), ["r"], [0]);
    p := Provider((keys, plain, nonce) => Err(InvalidRecord), cipher => Err(InvalidRecord));
    records := [(ShortIdentifier(), record), ("", record)];
    assert Stage(records[0], p) == 1;
    assert Stage(records[1], p) == 0;
  }
}
