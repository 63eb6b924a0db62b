/** The one SSH message that may be signed: a user authentication request for
    the approved key and user. */
module SshAuth {
  import opened Prelude
  import opened Wire

  const MAX_MESSAGE: nat := 256 * 1024
  const KEY_TYPE := Ascii("ssh-ed25519")
  const CONNECTION := Ascii("ssh-connection")
  const PUBLICKEY := Ascii("publickey")
  const HOSTBOUND := Ascii("publickey-hostbound-v00@openssh.com")
  const NAMESPACE := Ascii("nix-secrets-login-approval@sirati.me")

  /** The second field of a public key line, base64-decoded, if its first field
      is `ssh-ed25519`; field splitting and base64 are library calls. */
  type Decoder = string -> Option<Bytes>

  /** Whether the ssh-key library accepts the bytes as a host key. */
  type HostKeys = Bytes -> bool

  datatype SignatureRequest = SignatureRequest(publicKey: string, destination: string, message: Bytes)

  // ---- Key and destination ----------------------------------------------------

  function KeyBlob(decode: Decoder, publicKey: string): Option<Bytes> {
    match decode(publicKey)
    case None => None
    case Some(blob) =>
      match Take(blob)
      case None => None
      case Some((kind, rest)) =>
        match Take(rest)
        case None => None
        case Some((point, end)) =>
          if kind == KEY_TYPE && |point| == 32 && end == [] then Some(blob) else None
  }

  /** An accepted key is the key type followed by a 32-byte point. */
  lemma KeyBlobExactly(decode: Decoder, publicKey: string, blob: Bytes)
    ensures KeyBlob(decode, publicKey) == Some(blob)
      <==> decode(publicKey) == Some(blob) && exists point :: |point| == 32 && blob == Put(KEY_TYPE) + Put(point)
  {
    if KeyBlob(decode, publicKey) == Some(blob) {
      var (kind, rest) := Take(blob).value;
      var (point, end) := Take(rest).value;
      TakeExactly(blob, kind, rest);
      TakeExactly(rest, point, end);
      assert blob == Put(KEY_TYPE) + Put(point);
    }
    if point :| decode(publicKey) == Some(blob) && |point| == 32 && blob == Put(KEY_TYPE) + Put(point) {
      TakeExactly(blob, KEY_TYPE, Put(point));
      assert Put(point) == Put(point) + [];
      TakeExactly(Put(point), point, []);
    }
  }

  predicate UserByte(c: char) {
    '0' <= c <= '9' || 'a' <= c <= 'z' || 'A' <= c <= 'Z' || c in "_.-"
  }

  function IndexOf(s: string, c: char): nat {
    if s == [] || s[0] == c then 0 else 1 + IndexOf(s[1..], c)
  }

  lemma {:induction false} IndexOfFirst(s: string, c: char)
    ensures IndexOf(s, c) <= |s| && c !in s[..IndexOf(s, c)]
    ensures IndexOf(s, c) < |s| ==> s[IndexOf(s, c)] == c
  {
    if s != [] && s[0] != c {
      IndexOfFirst(s[1..], c);
      assert s[..IndexOf(s, c)] == [s[0]] + s[1..][..IndexOf(s[1..], c)];
    }
  }

  /** `destination_user`: the user of a valid `user@host`. */
  function DestinationUser(destination: string): Option<string> {
    IndexOfFirst(destination, '@');
    var at := IndexOf(destination, '@');
    if at == |destination| then None
    else
      var user, host := destination[..at], destination[at + 1..];
      if 0 < |user| <= 64 && 0 < |host| <= 253
         && (forall i :: 0 <= i < |user| ==> UserByte(user[i]))
         && (forall i :: 0 <= i < |host| ==> UserByte(host[i]) || host[i] == ':')
      then Some(user) else None
  }

  /** `user@host`, both parts short and plain. */
  predicate IsDestination(destination: string, user: string, host: string) {
    destination == user + "@" + host && 1 <= |user| <= 64 && 1 <= |host| <= 253
    && (forall c :: c in user ==> UserByte(c)) && (forall c :: c in host ==> UserByte(c) || c == ':')
  }

  /** The user is what stands before the first `@` of such a destination. */
  lemma DestinationExactly(destination: string, user: string)
    ensures DestinationUser(destination) == Some(user) <==> exists host :: IsDestination(destination, user, host)
  {
    IndexOfFirst(destination, '@');
    var at := IndexOf(destination, '@');
    if DestinationUser(destination) == Some(user) {
      var host := destination[at + 1..];
      assert destination == user + "@" + host;
      assert IsDestination(destination, user, host) by {
        forall c | c in user ensures UserByte(c) { var i :| 0 <= i < |user| && user[i] == c; }
        forall c | c in host ensures UserByte(c) || c == ':' { var i :| 0 <= i < |host| && host[i] == c; }
      }
    }
    if host :| IsDestination(destination, user, host) {
      assert destination[|user|] == '@' && forall i :: 0 <= i < |user| ==> destination[i] == user[i];
      forall i | 0 <= i < |user| ensures destination[i] != '@' { assert user[i] in user && !UserByte('@'); }
      forall i | 0 <= i < at ensures destination[i] != '@' { assert destination[..at][i] == destination[i]; }
      assert at == |user|;
      assert destination[..at] == user && destination[at + 1..] == host;
      forall i | 0 <= i < |user| ensures UserByte(user[i]) { assert user[i] in user; }
      forall i | 0 <= i < |host| ensures UserByte(host[i]) || host[i] == ':' { assert host[i] in host; }
    }
  }

  // ---- The message --------------------------------------------------------------

  /** The method part of section 7 of RFC 4252; with a host key, OpenSSH's
      host-bound variant of it. */
  function MethodPart(key: Bytes, hostKey: Option<Bytes>): Bytes {
    Put(if hostKey.Some? then HOSTBOUND else PUBLICKEY) + ([1] + (Put(KEY_TYPE) + (Put(key)
    + if hostKey.Some? then Put(hostKey.value) else [])))
  }

  /** The data a login signs. */
  function SignedData(key: Bytes, user: Bytes, session: Bytes, hostKey: Option<Bytes>): Bytes {
    Put(session) + ([50] + (Put(user) + (Put(CONNECTION) + MethodPart(key, hostKey))))
  }

  /** An agent's request to sign `data`. */
  function SignRequest(key: Bytes, data: Bytes): Bytes {
    [13] + (Put(key) + (Put(data) + [0, 0, 0, 0]))
  }

  ghost predicate HostKeyFits(hostKeys: HostKeys, hostKey: Option<Bytes>) {
    hostKey.Some? ==> |hostKey.value| < LIMIT && hostKeys(hostKey.value)
  }

  predicate SessionFits(session: Bytes) {
    |session| == 32 || |session| == 64
  }

  ghost predicate IsMethod(data: Bytes, key: Bytes, hostKeys: HostKeys) {
    |key| < LIMIT && exists hostKey :: HostKeyFits(hostKeys, hostKey) && data == MethodPart(key, hostKey)
  }

  ghost predicate IsData(data: Bytes, key: Bytes, user: Bytes, hostKeys: HostKeys) {
    |key| < LIMIT && |user| < LIMIT && exists session, hostKey ::
      SessionFits(session) && HostKeyFits(hostKeys, hostKey) && data == SignedData(key, user, session, hostKey)
  }

  ghost predicate IsLogin(message: Bytes, key: Bytes, user: Bytes, hostKeys: HostKeys) {
    |key| < LIMIT && |user| < LIMIT && exists session, hostKey ::
      SessionFits(session) && HostKeyFits(hostKeys, hostKey)
      && |SignedData(key, user, session, hostKey)| < LIMIT
      && message == SignRequest(key, SignedData(key, user, session, hostKey))
  }

  /** Reading strings is the inverse of writing them, for all inputs. */
  lemma TakeIsExact()
    ensures forall input: Bytes, value: Bytes, rest: Bytes ::
      Take(input) == Some((value, rest)) <==> |value| < LIMIT && input == Put(value) + rest
  {
    forall input: Bytes, value: Bytes, rest: Bytes
      ensures Take(input) == Some((value, rest)) <==> |value| < LIMIT && input == Put(value) + rest
    {
      TakeExactly(input, value, rest);
    }
  }

  lemma FirstByte(data: Bytes, b: Byte, rest: Bytes)
    ensures data == [b] + rest <==> data != [] && data[0] == b && data[1..] == rest
  {
    if data != [] {
      assert data == [data[0]] + data[1..];
    }
  }

  /** The end of the signed data, from the authentication method on. */
  method ValidateMethod(input: Bytes, key: Bytes, hostKeys: HostKeys) returns (ok: bool)
    ensures ok <==> IsMethod(input, key, hostKeys)
  {
    hide Take, Put;
    TakeIsExact();
    forall d: Bytes, b: Byte, rest: Bytes
      ensures d == [b] + rest <==> d != [] && d[0] == b && d[1..] == rest
    {
      FirstByte(d, b, rest);
    }
    assert |HOSTBOUND| != |PUBLICKEY|;
    assert forall v: Bytes :: Put(v) + [] == Put(v);
    ok := false;
    var data := input;
    var name := Take(data);
    if name.None? {
      return;
    }
    data := name.value.1;
    var hostBound := name.value.0 == HOSTBOUND;
    if !hostBound && name.value.0 != PUBLICKEY {
      return;
    }
    if data == [] || data[0] != 1 {
      return;
    }
    data := data[1..];
    var kind := Take(data);
    if kind.None? || kind.value.0 != KEY_TYPE {
      return;
    }
    data := kind.value.1;
    var blob := Take(data);
    if blob.None? || blob.value.0 != key {
      return;
    }
    data := blob.value.1;
    ghost var hostKey: Option<Bytes> := None;
    if hostBound {
      var host := Take(data);
      if host.None? || !hostKeys(host.value.0) {
        return;
      }
      data := host.value.1;
      hostKey := Some(host.value.0);
    }
    if data != [] {
      return;
    }
    assert HostKeyFits(hostKeys, hostKey) && input == MethodPart(key, hostKey);
    ok := true;
  }

  method ValidateData(input: Bytes, key: Bytes, user: Bytes, hostKeys: HostKeys) returns (ok: bool)
    ensures ok <==> IsData(input, key, user, hostKeys)
  {
    hide Take, Put, MethodPart;
    TakeIsExact();
    forall d: Bytes, b: Byte, rest: Bytes
      ensures d == [b] + rest <==> d != [] && d[0] == b && d[1..] == rest
    {
      FirstByte(d, b, rest);
    }
    ok := false;
    var data := input;
    var session := Take(data);
    if session.None? || !SessionFits(session.value.0) {
      return;
    }
    data := session.value.1;
    if data == [] || data[0] != 50 {
      return;
    }
    data := data[1..];
    var name := Take(data);
    if name.None? || name.value.0 != user {
      return;
    }
    var service := Take(name.value.1);
    if service.None? || service.value.0 != CONNECTION {
      return;
    }
    ok := ValidateMethod(service.value.1, key, hostKeys);
    if ok {
      ghost var hostKey :| HostKeyFits(hostKeys, hostKey) && service.value.1 == MethodPart(key, hostKey);
      assert input == SignedData(key, user, session.value.0, hostKey);
    }
  }

  /** `SignatureRequest::validate` accepts exactly the login messages for the
      request's own key and user. */
  method Validate(r: SignatureRequest, decode: Decoder, hostKeys: HostKeys) returns (ok: bool)
    ensures ok <==>
      var user := DestinationUser(r.destination); var key := KeyBlob(decode, r.publicKey);
      user.Some? && |r.message| <= MAX_MESSAGE && key.Some?
      && IsLogin(r.message, key.value, Ascii(user.value), hostKeys)
  {
    hide Take, Put, MethodPart, SignedData, KeyBlob, DestinationUser;
    ok := false;
    var user := DestinationUser(r.destination);
    var blob := KeyBlob(decode, r.publicKey);
    if user.None? || |r.message| > MAX_MESSAGE || blob.None? {
      return;
    }
    var key := blob.value;
    TakeIsExact();
    forall d: Bytes, b: Byte, rest: Bytes
      ensures d == [b] + rest <==> d != [] && d[0] == b && d[1..] == rest
    {
      FirstByte(d, b, rest);
    }
    if r.message == [] || r.message[0] != 13 {
      return;
    }
    var requested := Take(r.message[1..]);
    if requested.None? || requested.value.0 != key {
      return;
    }
    var data := Take(requested.value.1);
    if data.None? || data.value.1 != [0, 0, 0, 0] {
      return;
    }
    ok := ValidateData(data.value.0, key, Ascii(user.value), hostKeys);
    if ok {
      ghost var session, hostKey :| SessionFits(session) && HostKeyFits(hostKeys, hostKey)
        && data.value.0 == SignedData(key, Ascii(user.value), session, hostKey);
      assert r.message == SignRequest(key, SignedData(key, Ascii(user.value), session, hostKey));
    }
  }

  // ---- What that rules out ------------------------------------------------------

  lemma SignRequestCancel(k: Bytes, d: Bytes, k': Bytes, d': Bytes, x: Bytes)
    requires |k| < LIMIT && |d| < LIMIT && |k'| < LIMIT && |d'| < LIMIT
    requires SignRequest(k, d) + x == SignRequest(k', d')
    ensures k == k' && d == d' && x == []
  {
    hide Put;
    var zeros := [0, 0, 0, 0];
    var left, right := Put(d) + zeros + x, Put(d') + zeros;
    assert SignRequest(k, d) + x == [13] + (Put(k) + left);
    assert SignRequest(k', d') == [13] + (Put(k') + right);
    assert Put(k) + left == (SignRequest(k, d) + x)[1..];
    PutCancel(k, left, k', right);
    assert left == Put(d) + (zeros + x);
    PutCancel(d, zeros + x, d', zeros);
    assert |zeros + x| == 4;
  }

  /** No accepted message is a proper prefix of another, whatever keys, users
      and host key policies accepted them. */
  lemma LoginsArePrefixFree(m: Bytes, key: Bytes, user: Bytes, hostKeys: HostKeys,
                            m': Bytes, key': Bytes, user': Bytes, hostKeys': HostKeys)
    requires IsLogin(m, key, user, hostKeys) && IsLogin(m', key', user', hostKeys') && m <= m'
    ensures m == m'
  {
    hide SignRequest, SignedData;
    var session, hostKey :| SessionFits(session) && HostKeyFits(hostKeys, hostKey)
      && |SignedData(key, user, session, hostKey)| < LIMIT
      && m == SignRequest(key, SignedData(key, user, session, hostKey));
    var session', hostKey' :| SessionFits(session') && HostKeyFits(hostKeys', hostKey')
      && |SignedData(key', user', session', hostKey')| < LIMIT
      && m' == SignRequest(key', SignedData(key', user', session', hostKey'));
    assert m' == m + m'[|m|..];
    SignRequestCancel(key, SignedData(key, user, session, hostKey),
                      key', SignedData(key', user', session', hostKey'), m'[|m|..]);
  }

  /** One message logs in as one user with one key only. */
  lemma LoginNamesItsUser(m: Bytes, key: Bytes, user: Bytes, hostKeys: HostKeys,
                          key': Bytes, user': Bytes, hostKeys': HostKeys)
    requires IsLogin(m, key, user, hostKeys) && IsLogin(m, key', user', hostKeys')
    ensures key == key' && user == user'
  {
    hide SignRequest, MethodPart, Put;
    var session, hostKey :| SessionFits(session) && HostKeyFits(hostKeys, hostKey)
      && |SignedData(key, user, session, hostKey)| < LIMIT
      && m == SignRequest(key, SignedData(key, user, session, hostKey));
    var session', hostKey' :| SessionFits(session') && HostKeyFits(hostKeys', hostKey')
      && |SignedData(key', user', session', hostKey')| < LIMIT
      && m == SignRequest(key', SignedData(key', user', session', hostKey'));
    assert m + [] == m;
    SignRequestCancel(key, SignedData(key, user, session, hostKey),
                      key', SignedData(key', user', session', hostKey'), []);
    var rest := Put(user) + (Put(CONNECTION) + MethodPart(key, hostKey));
    var rest' := Put(user') + (Put(CONNECTION) + MethodPart(key', hostKey'));
    PutCancel(session, [50] + rest, session', [50] + rest');
    assert ([50] + rest)[1..] == rest && ([50] + rest')[1..] == rest';
    PutCancel(user, Put(CONNECTION) + MethodPart(key, hostKey), user', Put(CONNECTION) + MethodPart(key', hostKey'));
  }

  /** `LoginGrantRequest::agent_confirmation`: the SSHSIG blob an agent signs
      right after an approval; `digest` is SHA-512 of its statement. */
  method AgentConfirmation(key: Bytes, digest: Bytes) returns (message: Bytes)
    ensures message == SignRequest(key, ConfirmationData(digest))
  {
    hide Put, Ascii;
    var data := Ascii("SSHSIG");
    data := data + Put(NAMESPACE);
    data := data + Put([]);
    data := data + Put(Ascii("sha512"));
    data := data + Put(digest);
    assert data == ConfirmationData(digest);
    message := [13];
    message := message + Put(key);
    message := message + Put(data);
    message := message + [0, 0, 0, 0];
    Reassociate([13], Put(key), Put(data), [0, 0, 0, 0]);
  }

  lemma Reassociate(a: Bytes, b: Bytes, c: Bytes, d: Bytes)
    ensures a + b + c + d == a + (b + (c + d))
  {
  }

  function ConfirmationData(digest: Bytes): Bytes {
    Ascii("SSHSIG") + Put(NAMESPACE) + Put([]) + Put(Ascii("sha512")) + Put(digest)
  }

  /** A confirmation is never a login, for any key, user or host key policy. */
  lemma ConfirmationIsNoLogin(key: Bytes, digest: Bytes, key': Bytes, user: Bytes, hostKeys: HostKeys)
    requires |key| < LIMIT && |digest| == 64
    ensures !IsLogin(SignRequest(key, ConfirmationData(digest)), key', user, hostKeys)
  {
    hide SignRequest;
    var m := SignRequest(key, ConfirmationData(digest));
    assert ConfirmationData(digest)[0] == 83;
    if IsLogin(m, key', user, hostKeys) {
      var session, hostKey :| SessionFits(session) && HostKeyFits(hostKeys, hostKey)
        && |SignedData(key', user, session, hostKey)| < LIMIT
        && m == SignRequest(key', SignedData(key', user, session, hostKey));
      ConfirmationDiffers(key, digest, key', user, session, hostKey);
    }
  }

  lemma ConfirmationDiffers(key: Bytes, digest: Bytes,
                            key': Bytes, user: Bytes, session: Bytes, hostKey: Option<Bytes>)
    requires |key| < LIMIT && |digest| == 64 && |key'| < LIMIT && SessionFits(session)
    requires |SignedData(key', user, session, hostKey)| < LIMIT
    ensures SignRequest(key, ConfirmationData(digest)) != SignRequest(key', SignedData(key', user, session, hostKey))
  {
    var d, d' := ConfirmationData(digest), SignedData(key', user, session, hostKey);
    assert d[0] == 83;
    SmallLength(|session|);
    assert d'[0] == 0;
    if SignRequest(key, d) == SignRequest(key', d') {
      assert SignRequest(key, d) + [] == SignRequest(key, d);
      SignRequestCancel(key, d, key', d', []);
    }
  }

  lemma SmallLength(n: nat)
    requires n < 256
    ensures Be(n, 4)[0] == 0
  {
    assert Be(n, 4) == Be(n / 256, 3) + [n % 256];
    assert Be(0, 3) == Be(0, 2) + [0] && Be(0, 2) == Be(0, 1) + [0] && Be(0, 1) == Be(0, 0) + [0];
  }

  // ---- Reading a login field by field -------------------------------------------

  /** `input` is the string `value` followed by `rest`. */
  predicate Reads(input: Bytes, value: Bytes, rest: Bytes) {
    Take(input) == Some((value, rest))
  }

  /** The method part, in the order of section 7 of RFC 4252: method name, TRUE,
      algorithm, key, and for the host-bound variant the host's key. */
  ghost predicate ReadsMethod(data: Bytes, key: Bytes, hostKeys: HostKeys) {
    exists name, a, b, c ::
      Reads(data, name, a) && a != [] && a[0] == 1 && Reads(a[1..], Ascii("ssh-ed25519"), b) && Reads(b, key, c)
      && if name == Ascii("publickey") then c == []
         else name == Ascii("publickey-hostbound-v00@openssh.com") && exists hostKey :: Reads(c, hostKey, []) && hostKeys(hostKey)
  }

  /** The signed data: session identifier, message number 50, user, service, method. */
  ghost predicate ReadsData(data: Bytes, key: Bytes, user: Bytes, hostKeys: HostKeys) {
    exists session, a, b, c ::
      Reads(data, session, a) && (|session| == 32 || |session| == 64) && a != [] && a[0] == 50
      && Reads(a[1..], user, b) && Reads(b, Ascii("ssh-connection"), c) && ReadsMethod(c, key, hostKeys)
  }

  /** The request to the agent: message number 13, key, data, no flags. */
  ghost predicate ReadsLogin(message: Bytes, key: Bytes, user: Bytes, hostKeys: HostKeys) {
    exists a, data :: message != [] && message[0] == 13 && Reads(message[1..], key, a) && Reads(a, data, [0, 0, 0, 0])
                      && ReadsData(data, key, user, hostKeys)
  }

  lemma MethodReads(data: Bytes, key: Bytes, hostKeys: HostKeys)
    ensures IsMethod(data, key, hostKeys) <==> ReadsMethod(data, key, hostKeys)
  {
    hide Take, Put;
    TakeIsExact();
    if ReadsMethod(data, key, hostKeys) {
      var name, a, b, c :|
        Reads(data, name, a) && a != [] && a[0] == 1 && Reads(a[1..], Ascii("ssh-ed25519"), b) && Reads(b, key, c)
        && if name == Ascii("publickey") then c == []
           else name == Ascii("publickey-hostbound-v00@openssh.com")
                && exists hostKey :: Reads(c, hostKey, []) && hostKeys(hostKey);
      FirstByte(a, 1, a[1..]);
      if name == Ascii("publickey") {
        assert HostKeyFits(hostKeys, None) && data == MethodPart(key, None);
      } else {
        var hostKey :| Reads(c, hostKey, []) && hostKeys(hostKey);
        assert Put(hostKey) + [] == Put(hostKey);
        assert HostKeyFits(hostKeys, Some(hostKey)) && data == MethodPart(key, Some(hostKey));
      }
    }
    if IsMethod(data, key, hostKeys) {
      var hostKey :| HostKeyFits(hostKeys, hostKey) && data == MethodPart(key, hostKey);
      WrittenMethodReads(key, hostKey, hostKeys);
    }
  }

  lemma WrittenMethodReads(key: Bytes, hostKey: Option<Bytes>, hostKeys: HostKeys)
    requires |key| < LIMIT && HostKeyFits(hostKeys, hostKey)
    ensures ReadsMethod(MethodPart(key, hostKey), key, hostKeys)
  {
    hide Take, Put;
    TakeIsExact();
    var name := if hostKey.Some? then HOSTBOUND else PUBLICKEY;
    var c := if hostKey.Some? then Put(hostKey.value) else [];
    var b := Put(key) + c;
    var a := [1] + (Put(KEY_TYPE) + b);
    assert |HOSTBOUND| != |PUBLICKEY| && a[1..] == Put(KEY_TYPE) + b;
    if hostKey.Some? { assert c == Put(hostKey.value) + []; }
    assert Reads(MethodPart(key, hostKey), name, a) && Reads(a[1..], KEY_TYPE, b) && Reads(b, key, c);
  }

  lemma DataReads(data: Bytes, key: Bytes, user: Bytes, hostKeys: HostKeys)
    requires |key| < LIMIT && |user| < LIMIT
    ensures IsData(data, key, user, hostKeys) <==> ReadsData(data, key, user, hostKeys)
  {
    hide Take, Put, MethodPart, ReadsMethod;
    TakeIsExact();
    if ReadsData(data, key, user, hostKeys) {
      var session, a, b, c :|
        Reads(data, session, a) && (|session| == 32 || |session| == 64) && a != [] && a[0] == 50
        && Reads(a[1..], user, b) && Reads(b, Ascii("ssh-connection"), c) && ReadsMethod(c, key, hostKeys);
      FirstByte(a, 50, a[1..]);
      MethodReads(c, key, hostKeys);
      var hostKey :| HostKeyFits(hostKeys, hostKey) && c == MethodPart(key, hostKey);
      assert data == SignedData(key, user, session, hostKey);
    }
    if IsData(data, key, user, hostKeys) {
      var session, hostKey :|
        SessionFits(session) && HostKeyFits(hostKeys, hostKey) && data == SignedData(key, user, session, hostKey);
      var c := MethodPart(key, hostKey);
      var b := Put(CONNECTION) + c;
      var a := [50] + (Put(user) + b);
      assert a[1..] == Put(user) + b;
      MethodReads(c, key, hostKeys);
      assert Reads(data, session, a) && Reads(a[1..], user, b) && Reads(b, CONNECTION, c);
    }
  }

  /** A message is a login exactly when it reads, field after field, as the layout says. */
  lemma LoginReads(message: Bytes, key: Bytes, user: Bytes, hostKeys: HostKeys)
    requires |key| < LIMIT && |user| < LIMIT
    ensures IsLogin(message, key, user, hostKeys) <==> ReadsLogin(message, key, user, hostKeys)
  {
    hide Take, Put, SignedData, ReadsData;
    TakeIsExact();
    if ReadsLogin(message, key, user, hostKeys) {
      var a, data :| message != [] && message[0] == 13 && Reads(message[1..], key, a) && Reads(a, data, [0, 0, 0, 0])
                     && ReadsData(data, key, user, hostKeys);
      FirstByte(message, 13, message[1..]);
      DataReads(data, key, user, hostKeys);
      var session, hostKey :|
        SessionFits(session) && HostKeyFits(hostKeys, hostKey) && data == SignedData(key, user, session, hostKey);
      assert message == SignRequest(key, data);
    }
    if IsLogin(message, key, user, hostKeys) {
      var session, hostKey :|
        SessionFits(session) && HostKeyFits(hostKeys, hostKey)
        && |SignedData(key, user, session, hostKey)| < LIMIT
        && message == SignRequest(key, SignedData(key, user, session, hostKey));
      var data := SignedData(key, user, session, hostKey);
      var a := Put(data) + [0, 0, 0, 0];
      assert message[1..] == Put(key) + a;
      DataReads(data, key, user, hostKeys);
      assert Reads(message[1..], key, a) && Reads(a, data, [0, 0, 0, 0]);
    }
  }

  /** A confirmation reads as the SSHSIG preamble, the namespace, nothing reserved, the
      hash and the digest, in a request to sign with this key. */
  lemma ConfirmationReads(key: Bytes, digest: Bytes)
    requires |key| < LIMIT && |digest| == 64
    ensures
      var m := SignRequest(key, ConfirmationData(digest));
      exists a, data, b, c, d ::
        m[0] == 13 && Reads(m[1..], key, a) && Reads(a, data, [0, 0, 0, 0])
        && |data| >= 6 && data[..6] == [83, 83, 72, 83, 73, 71]
        && Reads(data[6..], Ascii("nix-secrets-login-approval@sirati.me"), b)
        && Reads(b, [], c) && Reads(c, Ascii("sha512"), d) && Reads(d, digest, [])
  {
    hide Take, Put;
    TakeIsExact();
    ConfirmationSize(digest);
    var data := ConfirmationData(digest);
    var m := SignRequest(key, data);
    var a := Put(data) + [0, 0, 0, 0];
    var d := Put(digest) + [];
    var c := Put(Ascii("sha512")) + d;
    var b := Put([]) + c;
    assert Put(digest) == d;
    assert data == Ascii("SSHSIG") + (Put(NAMESPACE) + b);
    assert Ascii("SSHSIG") == [83, 83, 72, 83, 73, 71];
    assert data[6..] == Put(NAMESPACE) + b && m[1..] == Put(key) + a;
    assert Reads(m[1..], key, a) && Reads(a, data, [0, 0, 0, 0]) && Reads(data[6..], NAMESPACE, b)
        && Reads(b, [], c) && Reads(c, Ascii("sha512"), d) && Reads(d, digest, []);
  }

  lemma ConfirmationSize(digest: Bytes)
    requires |digest| == 64
    ensures |ConfirmationData(digest)| < LIMIT
  {
  }
}
