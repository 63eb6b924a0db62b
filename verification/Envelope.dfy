/** The envelope inside an age ciphertext: it names the identifier and version
    the secret was encrypted for. */
module Envelope {
  import opened Prelude
  import opened Wire
  import opened Text
  import opened Naming

  const TAG := Ascii("NIXSECRT")
  const INNER_VERSION: Byte := 1
  const VERSION_ID_SIZE: nat := 16
  const MAX_IDENTIFIER_SIZE: nat := 4096
  const INNER_FIXED_SIZE: nat := 8 + 1 + 2 + VERSION_ID_SIZE
  const MAX_SECRET_SIZE: nat := 16 * 1024 * 1024
  const MAX_PLAINTEXT_SIZE: nat := MAX_SECRET_SIZE + MAX_IDENTIFIER_SIZE + INNER_FIXED_SIZE
  const MAX_CIPHERTEXT_SIZE: nat := MAX_PLAINTEXT_SIZE + 1024 * 1024
  const FORMAT_VERSION: nat := 1

  datatype CryptoError =
    InvalidRecord | InvalidIdentifier | InvalidRecipient | MetadataMismatch | SecretTooLarge | Foreign(reason: string)

  // ---- Identifiers ----------------------------------------------------------

  predicate ValidIdentifier(id: string) {
    var parts := Split(id, '.');
    |id| <= MAX_IDENTIFIER_SIZE && |parts| >= 4 && Namespace(parts[1])
    && forall i :: 0 <= i < |parts| ==> Component(parts[i])
  }

  function Chars(b: Bytes): (s: string)
    ensures |s| == |b|
  {
    seq(|b|, i requires 0 <= i < |b| => b[i] as char)
  }

  lemma {:induction false} JoinBytes(parts: seq<string>)
    requires forall i :: 0 <= i < |parts| ==> Component(parts[i])
    ensures forall i :: 0 <= i < |Join(parts, ".")| ==> Join(parts, ".")[i] as int < 256
  {
    if |parts| > 1 {
      JoinBytes(parts[1..]);
    }
  }

  /** A valid identifier is ASCII, so its bytes determine it. */
  lemma IdentifierBytes(id: string)
    requires ValidIdentifier(id)
    ensures Chars(Ascii(id)) == id
  {
    JoinSplit(id, '.');
    JoinBytes(Split(id, '.'));
  }

  lemma CharsBytes(b: Bytes)
    ensures Ascii(Chars(b)) == b
  {
  }

  // ---- The envelope -------------------------------------------------------------

  function Inner(id: string, version: Bytes, secret: Bytes): Bytes {
    TAG + [INNER_VERSION] + Be(|id|, 2) + Ascii(id) + version + secret
  }

  /** The envelope byte by byte: the eight letters NIXSECRT, the format 1, the length of
      the identifier in two bytes, the identifier, sixteen bytes of version, the secret. */
  lemma InnerLayout(id: string, version: Bytes, secret: Bytes)
    requires |version| == 16
    ensures
      var inner, n := Inner(id, version, secret), |id|;
      |inner| == 27 + n + |secret|
      && inner[..8] == [78, 73, 88, 83, 69, 67, 82, 84] && inner[8] == 1
      && inner[9..11] == [n / 256 % 256, n % 256]
      && (forall i :: 0 <= i < n ==> inner[11 + i] == id[i] as int % 256)
      && inner[11 + n..27 + n] == version && inner[27 + n..] == secret
  {
    BeBytes(|id|);
    Slices(TAG, [INNER_VERSION], Be(|id|, 2), Ascii(id), version, secret);
    assert TAG == [78, 73, 88, 83, 69, 67, 82, 84];
    var inner := Inner(id, version, secret);
    forall i | 0 <= i < |id| ensures inner[11 + i] == id[i] as int % 256 {
      assert inner[11..11 + |id|][i] == Ascii(id)[i];
    }
  }

  /** Appends the fields one by one, as `encode_inner` does. */
  method EncodeInner(id: string, version: Bytes, secret: Bytes) returns (output: Bytes)
    requires |version| == VERSION_ID_SIZE
    ensures output == Inner(id, version, secret)
  {
    output := TAG;
    output := output + [INNER_VERSION];
    output := output + Be(|id|, 2);
    output := output + Ascii(id);
    output := output + version;
    output := output + secret;
  }

  function DecodeInner(id: string, version: Bytes, inner: Bytes): Result<Bytes, CryptoError> {
    if |inner| < INNER_FIXED_SIZE || inner[..8] != TAG then Err(InvalidRecord)
    else if inner[8] != INNER_VERSION then Err(InvalidRecord)
    else
      var size := FromBe(inner[9..11]);
      var versionStart := 11 + size;
      var secretStart := versionStart + VERSION_ID_SIZE;
      if size > MAX_IDENTIFIER_SIZE || secretStart > |inner| then Err(InvalidRecord)
      else
        var authenticated := Chars(inner[11..versionStart]);
        if !ValidIdentifier(authenticated) then Err(InvalidRecord)
        else if authenticated != id || inner[versionStart..secretStart] != version then Err(MetadataMismatch)
        else if |inner| - secretStart > MAX_SECRET_SIZE then Err(SecretTooLarge)
        else Ok(inner[secretStart..])
  }

  /** Decoding yields `secret` exactly for the envelope of that identifier,
      version and secret. */
  lemma DecodeExactly(id: string, version: Bytes, inner: Bytes, secret: Bytes)
    ensures DecodeInner(id, version, inner) == Ok(secret) <==>
      ValidIdentifier(id) && |version| == VERSION_ID_SIZE && |secret| <= MAX_SECRET_SIZE
      && inner == Inner(id, version, secret)
  {
    hide ValidIdentifier;
    if DecodeInner(id, version, inner) == Ok(secret) {
      DecodeSound(id, version, inner, secret);
    }
    if ValidIdentifier(id) && |version| == VERSION_ID_SIZE && |secret| <= MAX_SECRET_SIZE
       && inner == Inner(id, version, secret) {
      DecodeComplete(id, version, secret);
    }
  }

  lemma DecodeSound(id: string, version: Bytes, inner: Bytes, secret: Bytes)
    requires DecodeInner(id, version, inner) == Ok(secret)
    ensures ValidIdentifier(id) && |version| == VERSION_ID_SIZE && |secret| <= MAX_SECRET_SIZE
    ensures inner == Inner(id, version, secret)
  {
    hide ValidIdentifier, Be, FromBe, Chars, Ascii;
    var size := FromBe(inner[9..11]);
    FromBeInverse(inner[9..11]);
    CharsBytes(inner[11..11 + size]);
    assert |id| == size && Be(|id|, 2) == inner[9..11] && Ascii(id) == inner[11..11 + size];
    assert inner[8..9] == [INNER_VERSION];
    Concatenated(inner, 8, 9, 11, 11 + size, 11 + size + 16);
  }

  lemma Concatenated(s: Bytes, a: nat, b: nat, c: nat, d: nat, e: nat)
    requires a <= b <= c <= d <= e <= |s|
    ensures s == s[..a] + s[a..b] + s[b..c] + s[c..d] + s[d..e] + s[e..]
  {
  }

  lemma DecodeComplete(id: string, version: Bytes, secret: Bytes)
    requires ValidIdentifier(id) && |version| == VERSION_ID_SIZE && |secret| <= MAX_SECRET_SIZE
    ensures DecodeInner(id, version, Inner(id, version, secret)) == Ok(secret)
  {
    IdentifierBytes(id);
    assert |id| <= MAX_IDENTIFIER_SIZE;
    hide ValidIdentifier;
    LimitIsPow();
    BeInverse(|id|, 2);
    Slices(TAG, [INNER_VERSION], Be(|id|, 2), Ascii(id), version, secret);
  }

  lemma Slices(t: Bytes, v: Bytes, l: Bytes, i: Bytes, w: Bytes, s: Bytes)
    requires |t| == 8 && |v| == 1 && |l| == 2
    ensures var x := t + v + l + i + w + s;
      x[..8] == t && x[8..9] == v && x[9..11] == l && x[11..11 + |i|] == i
      && x[11 + |i|..11 + |i| + |w|] == w && x[11 + |i| + |w|..] == s && x[8] == v[0]
  {
  }

  // ---- Records --------------------------------------------------------------------

  datatype Recipient = Recipient(id: string, key: string)

  datatype Record = Record(formatVersion: nat, versionId: Bytes, recipientIds: seq<string>, ciphertext: Bytes)

  /** An encryption provider; age is a foreign program. Encryption is randomised:
      each one depends on a number of its own. */
  datatype Provider = Provider(
    encrypt: (seq<string>, Bytes, nat) -> Result<Bytes, CryptoError>, decrypt: Bytes -> Result<Bytes, CryptoError>)

  ghost predicate Inverse(p: Provider) {
    forall keys, plain, nonce, cipher {:trigger p.encrypt(keys, plain, nonce), p.decrypt(cipher)} ::
      p.encrypt(keys, plain, nonce) == Ok(cipher) ==> p.decrypt(cipher) == Ok(plain)
  }

  /** Whether encryption succeeds, and the size of the ciphertext, are not random. */
  ghost predicate Steady(p: Provider) {
    forall keys, plain, m, n {:trigger p.encrypt(keys, plain, m), p.encrypt(keys, plain, n)} ::
      p.encrypt(keys, plain, m).Ok? ==>
        p.encrypt(keys, plain, n).Ok? && |p.encrypt(keys, plain, n).value| == |p.encrypt(keys, plain, m).value|
  }

  predicate Control(c: char) {
    c as int < 32 || c as int == 127
  }

  predicate RecipientOk(r: Recipient) {
    r.id != [] && r.key != [] && forall i :: 0 <= i < |r.id| ==> !Control(r.id[i])
  }

  predicate RecipientsOk(recipients: seq<Recipient>) {
    recipients != [] && forall i :: 0 <= i < |recipients| ==> RecipientOk(recipients[i])
  }

  predicate RecordOk(r: Record) {
    r.formatVersion == FORMAT_VERSION && |r.versionId| == VERSION_ID_SIZE && r.recipientIds != []
    && (forall i :: 0 <= i < |r.recipientIds| ==> r.recipientIds[i] != [])
    && r.ciphertext != [] && |r.ciphertext| <= MAX_CIPHERTEXT_SIZE
  }

  function RecipientIds(recipients: seq<Recipient>): (r: seq<string>)
    ensures |r| == |recipients| && forall i :: 0 <= i < |r| ==> r[i] == recipients[i].id
  {
    seq(|recipients|, i requires 0 <= i < |recipients| => recipients[i].id)
  }

  function Keys(recipients: seq<Recipient>): seq<string> {
    seq(|recipients|, i requires 0 <= i < |recipients| => recipients[i].key)
  }

  /** `encrypt_secret_with_version`. */
  function Encrypt(id: string, version: Bytes, plaintext: Bytes, recipients: seq<Recipient>, p: Provider, nonce: nat)
    : Result<Record, CryptoError>
    requires |version| == VERSION_ID_SIZE
  {
    if !ValidIdentifier(id) then Err(InvalidIdentifier)
    else if !RecipientsOk(recipients) then Err(InvalidRecipient)
    else if |plaintext| > MAX_SECRET_SIZE then Err(SecretTooLarge)
    else
      match p.encrypt(Keys(recipients), Inner(id, version, plaintext), nonce)
      case Err(e) => Err(e)
      case Ok(cipher) =>
        if cipher == [] || |cipher| > MAX_CIPHERTEXT_SIZE then Err(InvalidRecord)
        else Ok(Record(FORMAT_VERSION, version, RecipientIds(recipients), cipher))
  }

  /** A record is made exactly for a valid identifier, named recipients with keys, and a
      secret within the limit, if the provider encrypts its envelope for exactly the
      keys of the recipients, in their order. It names them, and the version. */
  lemma EncryptExactly(id: string, version: Bytes, plaintext: Bytes, recipients: seq<Recipient>, p: Provider, nonce: nat)
    requires |version| == 16
    ensures
      var keys := seq(|recipients|, i requires 0 <= i < |recipients| => recipients[i].key);
      var cipher := p.encrypt(keys, Inner(id, version, plaintext), nonce);
      var r := Encrypt(id, version, plaintext, recipients, p, nonce);
      (r.Ok? <==>
         ValidIdentifier(id) && RecipientsOk(recipients) && |plaintext| <= 16 * 1024 * 1024
         && cipher.Ok? && 0 < |cipher.value| <= MAX_CIPHERTEXT_SIZE)
      && (r.Ok? ==>
            r.value.ciphertext == cipher.value && r.value.versionId == version && r.value.formatVersion == 1
            && |r.value.recipientIds| == |recipients|
            && forall i :: 0 <= i < |recipients| ==> r.value.recipientIds[i] == recipients[i].id)
  {
    hide ValidIdentifier, Inner, RecipientsOk;
    assert Keys(recipients) == seq(|recipients|, i requires 0 <= i < |recipients| => recipients[i].key);
  }

  /** `decrypt_secret`. */
  function Decrypt(id: string, r: Record, p: Provider): Result<Bytes, CryptoError> {
    if !ValidIdentifier(id) then Err(InvalidIdentifier)
    else if !RecordOk(r) then Err(InvalidRecord)
    else
      match p.decrypt(r.ciphertext)
      case Err(e) => Err(e)
      case Ok(inner) => DecodeInner(id, r.versionId, inner)
  }

  /** A record decrypts to a secret exactly when it is a record of format 1 with a version,
      named recipients and a ciphertext within the limit, and the provider decrypts that
      to the envelope of the identifier, the record's version and the secret. */
  lemma DecryptExactly(id: string, r: Record, p: Provider, secret: Bytes)
    ensures Decrypt(id, r, p) == Ok(secret) <==>
      ValidIdentifier(id) && r.formatVersion == 1 && |r.versionId| == 16
      && r.recipientIds != [] && [] !in r.recipientIds && 0 < |r.ciphertext| <= MAX_CIPHERTEXT_SIZE
      && |secret| <= 16 * 1024 * 1024 && p.decrypt(r.ciphertext) == Ok(Inner(id, r.versionId, secret))
  {
    hide ValidIdentifier, DecodeInner, Inner;
    if p.decrypt(r.ciphertext).Ok? { DecodeExactly(id, r.versionId, p.decrypt(r.ciphertext).value, secret); }
  }

  /** A record decrypts under its own identifier and version to the plaintext,
      and under no other identifier or version to anything. */
  lemma RecordBinds(id: string, version: Bytes, plaintext: Bytes, recipients: seq<Recipient>, p: Provider,
                    nonce: nat, r: Record, id': string, version': Bytes)
    requires Inverse(p) && |version| == VERSION_ID_SIZE && Encrypt(id, version, plaintext, recipients, p, nonce) == Ok(r)
    ensures Decrypt(id, r, p) == Ok(plaintext)
    ensures Decrypt(id', r.(versionId := version'), p).Ok? ==> id' == id && version' == version
  {
    hide ValidIdentifier, DecodeInner, Inner;
    var inner := Inner(id, version, plaintext);
    assert p.encrypt(Keys(recipients), inner, nonce) == Ok(r.ciphertext);
    assert p.decrypt(r.ciphertext) == Ok(inner);
    assert RecordOk(r);
    DecodeExactly(id, version, inner, plaintext);
    var other := Decrypt(id', r.(versionId := version'), p);
    if other.Ok? {
      DecodeExactly(id', version', inner, other.value);
      InnerNames(id, version, plaintext, id', version', other.value);
    }
  }

  lemma InnerNames(id: string, version: Bytes, s: Bytes, id': string, version': Bytes, s': Bytes)
    requires ValidIdentifier(id) && ValidIdentifier(id')
    requires |version| == VERSION_ID_SIZE && |version'| == VERSION_ID_SIZE
    requires |s| <= MAX_SECRET_SIZE && |s'| <= MAX_SECRET_SIZE
    requires Inner(id, version, s) == Inner(id', version', s')
    ensures id == id' && version == version' && s == s'
  {
    hide ValidIdentifier;
    DecodeComplete(id, version, s);
    DecodeComplete(id', version', s');
  }
}
