/** What every call of the approval broker does to every request, said request by
    request: when it succeeds, what it answers, and which state it leaves. */
module ApprovalEffects {
  import opened Prelude
  import opened Approval

  /** The state of a request once expired claims are given back. */
  function Settled(state: State, now: nat): State {
    if state.Claimed? && state.lease.expires <= now then Pending else state
  }

  /** The session holds this lease on the request, and the lease has not expired. */
  predicate HoldsLive(b: Broker, session: nat, id: string, leaseId: nat, now: nat) {
    id in b.entries && b.entries[id].state.Claimed?
    && b.entries[id].state.lease.owner == session && b.entries[id].state.lease.id == leaseId
    && now < b.entries[id].state.lease.expires
  }

  predicate LeaseOk(duration: nat) {
    0 < duration <= MAX_LEASE
  }

  predicate MessageOk(message: Option<string>) {
    message.Some? ==> |message.value| <= MAX_MESSAGE
  }

  /** An acceptable request: an id of 1 to 128 plain characters, a target of 1 to 512
      bytes, and 1 to 4096 identifiers of 1 to 1024 bytes. */
  predicate RequestOk(r: Request) {
    1 <= |r.id| <= 128 && 1 <= |r.target| <= 512 && 1 <= |r.secrets| <= 4096
    && (forall c :: c in r.id ==> '0' <= c <= '9' || 'a' <= c <= 'z' || 'A' <= c <= 'Z' || c in {'-', '_', '.', ':'})
    && forall secret :: secret in r.secrets ==> 1 <= |secret| <= 1024
  }

  lemma RequestOkExactly(r: Request)
    ensures Refusal(r).None? <==> RequestOk(r)
  {
    assert "-_.:" == ['-', '_', '.', ':'];
    if Refusal(r).None? {
      forall c | c in r.id ensures ValidIdByte(c) {
        var i :| 0 <= i < |r.id| && r.id[i] == c;
      }
      forall secret | secret in r.secrets ensures 1 <= |secret| <= 1024 {
        var i :| 0 <= i < |r.secrets| && r.secrets[i] == secret;
      }
    }
    if RequestOk(r) {
      forall i | 0 <= i < |r.id| ensures ValidIdByte(r.id[i]) { assert r.id[i] in r.id; }
      forall i | 0 <= i < |r.secrets| ensures r.secrets[i] != [] && |r.secrets[i]| <= 1024 {
        assert r.secrets[i] in r.secrets;
      }
    }
  }

  predicate Succeeds(b: Broker, s: Step) {
    match s.call
    case Register(session) => session in b.frontends || |b.frontends| < MAX_FRONTENDS
    case Submit(r, _) =>
      Refusal(r).None? && if r.id in b.entries then b.entries[r.id].request == r else |b.entries| < MAX_REQUESTS
    case ListPending(session) => session in b.frontends
    case Claim(session, id, duration) =>
      session in b.frontends && LeaseOk(duration) && id in b.entries && Settled(b.entries[id].state, s.now) == Pending
    case Resolve(session, id, leaseId, _, message) => MessageOk(message) && HoldsLive(b, session, id, leaseId, s.now)
    case Renew(session, id, leaseId, duration) =>
      session in b.frontends && LeaseOk(duration) && HoldsLive(b, session, id, leaseId, s.now)
    case Cancel(id) => id in b.entries
    case ReadStatus(id) => id in b.entries
    case Disconnect(_) => true
  }

  /** The state in which the call leaves the request `id`. */
  function StateAfter(b: Broker, s: Step, id: string): State
    requires id in b.entries
  {
    var state := b.entries[id].state;
    match s.call
    case Disconnect(session) => if state.Claimed? && state.lease.owner == session then Pending else state
    case Submit(r, _) => if Refusal(r).Some? then state else Settled(state, s.now)
    case Claim(session, x, duration) =>
      if x == id && Succeeds(b, s) then Claimed(Lease(b.nextLease, session, s.later + duration)) else Settled(state, s.now)
    case Resolve(_, x, _, decision, message) =>
      if x == id && Succeeds(b, s) then Resolved(decision, message) else Settled(state, s.now)
    case Renew(session, x, leaseId, duration) =>
      if x == id && Succeeds(b, s) then Claimed(Lease(leaseId, session, s.later + duration)) else Settled(state, s.now)
    case Cancel(x) => if x == id then Cancelled else Settled(state, s.now)
    case _ => Settled(state, s.now)
  }

  /** What reclaiming leaves, request by request. */
  lemma ReclaimAt(b: Broker, now: nat)
    ensures
      var r := Reclaim(b, now);
      r.entries.Keys == b.entries.Keys && r.frontends.Keys == b.frontends.Keys && r.nextLease == b.nextLease
      && |r.entries| == |b.entries| && |r.frontends| == |b.frontends|
      && forall id :: id in b.entries ==> r.entries[id] == b.entries[id].(state := Settled(b.entries[id].state, now))
  {
    var r := Reclaim(b, now);
    assert |r.entries| == |r.entries.Keys| && |r.frontends| == |r.frontends.Keys|;
    assert |b.entries| == |b.entries.Keys| && |b.frontends| == |b.frontends.Keys|;
  }

  /** Reclaiming keeps the table, the sessions and the requests. */
  lemma ReclaimKeys(b: Broker, now: nat)
    ensures
      var r := Reclaim(b, now);
      r.entries.Keys == b.entries.Keys && r.frontends.Keys == b.frontends.Keys && r.nextLease == b.nextLease
      && |r.entries| == |b.entries| && |r.frontends| == |b.frontends|
  {
    hide Reclaim;
    ReclaimAt(b, now);
  }

  /** A call succeeds exactly when the conditions of that call are met. */
  lemma SucceedsExactly(b: Broker, s: Step)
    ensures Apply(b, s).1.Ok? <==> Succeeds(b, s)
  {
    hide Reclaim, Dropped, Broadcast, StatusAt, QueueAll;
    ReclaimAt(b, s.now);
  }

  /** Every request that is there stays, as submitted, in the state above. */
  lemma StateExactly(b: Broker, s: Step, id: string)
    requires id in b.entries
    ensures id in Apply(b, s).0.entries
    ensures Apply(b, s).0.entries[id] == b.entries[id].(state := StateAfter(b, s, id))
  {
    hide Reclaim, Registered, Submitted, Listed, Claiming, Resolving, Renewing, Dropped, Settled, Refusal, StatusAt, Succeeds;
    var r := Reclaim(b, s.now);
    ReclaimAt(b, s.now);
    match s.call
    case Disconnect(session) => DroppedAt(b, session, id);
    case Submit(request, procedure) => SubmittedAt(r, request, procedure, s.later);
    case Register(session) => QuietAt(r, session);
    case ListPending(session) => QuietAt(r, session);
    case Claim(session, x, duration) => ClaimingAt(b, s, id);
    case Resolve(_, _, _, _, _) => ResolvingAt(b, s, id);
    case Renew(_, _, _, _) => RenewingAt(b, s, id);
    case Cancel(_) =>
    case ReadStatus(_) =>
  }

  lemma DroppedAt(b: Broker, session: nat, id: string)
    requires id in b.entries
    ensures
      var b', state := Dropped(b, session), b.entries[id].state;
      b'.entries.Keys == b.entries.Keys && b'.frontends.Keys == b.frontends.Keys - {session} && b'.nextLease == b.nextLease
      && b'.entries[id]
         == b.entries[id].(state := if state.Claimed? && state.lease.owner == session then Pending else state)
  {
    hide QueueAll;
  }

  lemma SubmittedAt(r: Broker, request: Request, procedure: Option<string>, later: nat)
    ensures
      var b' := Submitted(r, request, procedure, later).0;
      var added := request.id !in r.entries && |r.entries| < MAX_REQUESTS;
      b'.entries == (if added then r.entries[request.id := Entry(request, Pending, procedure)] else r.entries)
      && (forall x :: x in b'.frontends <==> x in r.frontends) && b'.nextLease == r.nextLease
  {
    hide QueueAll, StatusAt;
  }

  lemma QuietAt(r: Broker, session: nat)
    ensures Registered(r, session).0 == r.(frontends := Registered(r, session).0.frontends)
    ensures Listed(r, session).0 == r.(frontends := Listed(r, session).0.frontends)
  {
    hide QueueAll, RequestsOf, PendingIds;
  }

  lemma RegisteredKeys(r: Broker, session: nat)
    ensures forall x ::
      x in Registered(r, session).0.frontends <==>
      x in r.frontends || (x == session && |r.frontends| < MAX_FRONTENDS)
  {
    hide QueueAll, PendingIds;
  }

  lemma ListedKeys(r: Broker, session: nat)
    ensures forall x :: x in Listed(r, session).0.frontends <==> x in r.frontends
  {
    hide RequestsOf;
  }

  lemma ClaimingAt(b: Broker, s: Step, id: string)
    requires s.call.Claim? && id in b.entries
    ensures id in Apply(b, s).0.entries
    ensures Apply(b, s).0.entries[id] == b.entries[id].(state := StateAfter(b, s, id))
  {
    hide Reclaim, Millis;
    ReclaimAt(b, s.now);
  }

  lemma ResolvingAt(b: Broker, s: Step, id: string)
    requires s.call.Resolve? && id in b.entries
    ensures id in Apply(b, s).0.entries
    ensures Apply(b, s).0.entries[id] == b.entries[id].(state := StateAfter(b, s, id))
  {
    hide Reclaim;
    ReclaimAt(b, s.now);
  }

  lemma RenewingAt(b: Broker, s: Step, id: string)
    requires s.call.Renew? && id in b.entries
    ensures id in Apply(b, s).0.entries
    ensures Apply(b, s).0.entries[id] == b.entries[id].(state := StateAfter(b, s, id))
  {
    hide Reclaim, Millis;
    ReclaimAt(b, s.now);
  }

  /** Calls on one request keep the table, the sessions and, but for a claim, the
      next lease id. */
  lemma LeasesAt(b: Broker, s: Step)
    requires s.call.Claim? || s.call.Resolve? || s.call.Renew? || s.call.Cancel? || s.call.ReadStatus?
    ensures
      var b' := Apply(b, s).0;
      (forall id :: id in b'.entries <==> id in b.entries) && (forall x :: x in b'.frontends <==> x in b.frontends)
      && b'.nextLease ==
         if s.call.Claim? && Succeeds(b, s) then (if b.nextLease < U64_MAX then b.nextLease + 1 else 1) else b.nextLease
  {
    hide Reclaim, Millis, StatusAt;
    ReclaimAt(b, s.now);
    var r := Reclaim(b, s.now);
    assert forall id :: id in r.entries <==> id in b.entries;
    assert forall session :: session in r.frontends <==> session in b.frontends;
  }

  /** The call adds this request. */
  predicate Adds(b: Broker, s: Step, id: string) {
    s.call.Submit? && s.call.request.id == id && id !in b.entries && Succeeds(b, s)
  }

  predicate InSession(b: Broker, s: Step, session: nat) {
    if s.call.Disconnect? && s.call.session == session then false
    else session in b.frontends || (s.call.Register? && s.call.session == session && Succeeds(b, s))
  }

  /** The table and the sessions after a call. */
  ghost predicate TablesAfter(b: Broker, s: Step, b': Broker) {
    && (forall id :: id in b'.entries <==> id in b.entries || Adds(b, s, id))
    && (forall id :: Adds(b, s, id) ==> b'.entries[id] == Entry(s.call.request, Pending, s.call.procedure))
    && (forall session :: session in b'.frontends <==> InSession(b, s, session))
    && b'.nextLease ==
         if s.call.Claim? && Succeeds(b, s) then (if b.nextLease < U64_MAX then b.nextLease + 1 else 1) else b.nextLease
  }

  lemma DisconnectTables(b: Broker, s: Step)
    requires s.call.Disconnect?
    ensures TablesAfter(b, s, Apply(b, s).0)
  {
    hide QueueAll;
  }

  lemma SubmitTables(b: Broker, s: Step)
    requires s.call.Submit?
    ensures TablesAfter(b, s, Apply(b, s).0)
  {
    hide Reclaim, Refusal, StatusAt, Submitted;
    var r := Reclaim(b, s.now);
    ReclaimKeys(b, s.now);
    SubmittedAt(r, s.call.request, s.call.procedure, s.later);
    assert forall id :: id in r.entries <==> id in b.entries;
    assert forall session :: session in r.frontends <==> session in b.frontends;
  }

  lemma SessionTables(b: Broker, s: Step)
    requires s.call.Register? || s.call.ListPending?
    ensures TablesAfter(b, s, Apply(b, s).0)
  {
    hide Reclaim, Registered, Listed;
    var r := Reclaim(b, s.now);
    ReclaimKeys(b, s.now);
    QuietAt(r, s.call.session);
    RegisteredKeys(r, s.call.session);
    ListedKeys(r, s.call.session);
    assert forall id :: id in r.entries <==> id in b.entries;
    assert forall session :: session in r.frontends <==> session in b.frontends;
  }

  /** Only a successful submission adds a request, as it was submitted and pending;
      only registering adds a session, only disconnecting removes one, and only a
      successful claim uses up a lease id. */
  lemma TablesExactly(b: Broker, s: Step)
    ensures TablesAfter(b, s, Apply(b, s).0)
  {
    hide Apply, Succeeds;
    match s.call
    case Disconnect(_) => DisconnectTables(b, s);
    case Submit(_, _) => SubmitTables(b, s);
    case Register(_) => SessionTables(b, s);
    case ListPending(_) => SessionTables(b, s);
    case _ => LeasesAt(b, s);
  }

  // ---- Answers --------------------------------------------------------------

  /** A status tells the state; of a claim it tells the lease and the time left, in
      whole milliseconds as far as 64 bits go. */
  predicate Tells(status: Status, state: State, now: nat) {
    match state
    case Pending => status == IsPending
    case Cancelled => status == IsCancelled
    case Resolved(decision, message) => status == IsResolved(decision, message)
    case Claimed(lease) =>
      status.IsClaimed? && status.leaseId == lease.id
      && InMillis(if now < lease.expires then lease.expires - now else 0, status.expiresInMs)
  }

  predicate InMillis(nanos: nat, ms: nat) {
    if nanos >= (U64_MAX + 1) * 1_000_000 then ms == U64_MAX
    else ms * 1_000_000 <= nanos < (ms + 1) * 1_000_000
  }

  lemma MillisExactly(nanos: nat)
    ensures InMillis(nanos, Millis(nanos))
  {
    var ms := nanos / 1_000_000;
    assert nanos == ms * 1_000_000 + nanos % 1_000_000;
  }

  lemma StatusExactly(entry: Entry, now: nat)
    ensures Tells(StatusAt(entry, now), entry.state, now)
  {
    hide Millis, InMillis;
    if entry.state.Claimed? {
      var lease := entry.state.lease;
      MillisExactly(if lease.expires > now then lease.expires - now else 0);
    }
  }

  predicate IsInvalid(r: Result<Reply, BrokerError>) {
    r.Err? && r.error.Invalid?
  }

  /** The answer to every call but listing. */
  predicate Answers(b: Broker, s: Step, r: Result<Reply, BrokerError>) {
    match s.call
    case Register(_) => r == if Succeeds(b, s) then Ok(Done) else Err(Full)
    case Submit(request, _) =>
      if Refusal(request).Some? then IsInvalid(r)
      else if request.id !in b.entries then r == if Succeeds(b, s) then Ok(StatusOf(IsPending)) else Err(Full)
      else if Succeeds(b, s) then
        r.Ok? && r.value.StatusOf? && Tells(r.value.status, StateAfter(b, s, request.id), s.later)
      else IsInvalid(r)
    case Claim(session, id, duration) =>
      if Succeeds(b, s) then
        r.Ok? && r.value.Leased? && r.value.leaseId == b.nextLease && InMillis(duration, r.value.expiresInMs)
      else if session !in b.frontends then r == Err(Unavailable)
      else if !LeaseOk(duration) then IsInvalid(r)
      else r == if id in b.entries then Err(Unavailable) else Err(Unknown)
    case Resolve(_, id, _, _, message) =>
      if Succeeds(b, s) then r == Ok(Done)
      else if !MessageOk(message) then IsInvalid(r)
      else r == if id in b.entries then Err(WrongLease) else Err(Unknown)
    case Renew(session, id, _, duration) =>
      if Succeeds(b, s) then r.Ok? && r.value.Extended? && InMillis(duration, r.value.expiresInMs)
      else if session !in b.frontends then r == Err(Unavailable)
      else if !LeaseOk(duration) then IsInvalid(r)
      else r == if id in b.entries then Err(WrongLease) else Err(Unknown)
    case Cancel(_) => r == if Succeeds(b, s) then Ok(Done) else Err(Unknown)
    case ReadStatus(id) =>
      if Succeeds(b, s) then r.Ok? && r.value.StatusOf? && Tells(r.value.status, StateAfter(b, s, id), s.later)
      else r == Err(Unknown)
    case Disconnect(_) => r == Ok(Done)
    case ListPending(_) => r.Ok? <==> Succeeds(b, s)
  }

  lemma AnswersExactly(b: Broker, s: Step)
    ensures Answers(b, s, Apply(b, s).1)
  {
    hide Reclaim, Dropped, Broadcast, StatusAt, QueueAll, Millis, InMillis, Refusal;
    ReclaimAt(b, s.now);
    match s.call
    case Claim(_, _, duration) => MillisExactly(duration);
    case Renew(_, _, _, duration) => MillisExactly(duration);
    case Submit(r, _) => if r.id in b.entries { StatusExactly(Reclaim(b, s.now).entries[r.id], s.later); }
    case ReadStatus(id) => if id in b.entries { StatusExactly(Reclaim(b, s.now).entries[id], s.later); }
    case _ =>
  }
}
