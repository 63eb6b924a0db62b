/** The approval broker: requests wait in one table, every frontend has its own
    queue of what it may claim, and a claim is a lease that expires.

    `Apply` gives each call of the broker as a function of the broker's value
    and the clock; the class `ApprovalBroker` holds that value in fields and
    proves every method against it. */
module Approval {
  import opened Prelude
  import opened Ordered

  const MAX_REQUESTS: nat := 4096
  const MAX_FRONTENDS: nat := 128
  const MAX_QUEUE: nat := 4096
  const MAX_MESSAGE: nat := 64 * 1024
  /** Durations and instants are counted in nanoseconds. */
  const MAX_LEASE: nat := 15 * 60 * 1_000_000_000
  const MAX_REQUEST_ID: nat := 128
  const MAX_APPROVAL_ITEMS: nat := 4096

  datatype BrokerError = Invalid(reason: string) | Full | Unknown | Unavailable | WrongLease

  datatype Request = Request(id: string, target: string, secrets: seq<string>, allowPartial: bool)

  datatype Decision = Approved | Rejected

  datatype Lease = Lease(id: nat, owner: nat, expires: nat)

  datatype State =
    | Pending
    | Claimed(lease: Lease)
    | Resolved(decision: Decision, message: Option<string>)
    | Cancelled

  datatype Entry = Entry(request: Request, state: State, procedure: Option<string>)

  datatype Frontend = Frontend(queued: seq<string>, known: set<string>)

  datatype Broker = Broker(entries: map<string, Entry>, frontends: map<nat, Frontend>, nextLease: nat)

  datatype Status =
    | IsPending
    | IsClaimed(leaseId: nat, expiresInMs: nat)
    | IsResolved(decision: Decision, message: Option<string>)
    | IsCancelled

  datatype Call =
    | Register(session: nat)
    | Submit(request: Request, procedure: Option<string>)
    | ListPending(session: nat)
    | Claim(session: nat, id: string, duration: nat)
    | Resolve(session: nat, id: string, leaseId: nat, decision: Decision, message: Option<string>)
    | Renew(session: nat, id: string, leaseId: nat, duration: nat)
    | Cancel(id: string)
    | ReadStatus(id: string)
    | Disconnect(session: nat)

  datatype Reply =
    | Done
    | StatusOf(status: Status)
    | Requests(requests: seq<Request>)
    | Leased(leaseId: nat, expiresInMs: nat)
    | Extended(expiresInMs: nat)

  /** One call, with the instants at which it reads the clock. */
  datatype Step = Step(call: Call, now: nat, later: nat)

  const Initial := Broker(map[], map[], 1)

  // ---- The broker's own operations, on values -----------------------------

  predicate ValidIdByte(c: char) {
    '0' <= c <= '9' || 'a' <= c <= 'z' || 'A' <= c <= 'Z' || c in "-_.:"
  }

  /** `ApprovalRequest::validate`. */
  function Refusal(r: Request): Option<string> {
    if r.id == [] || |r.id| > MAX_REQUEST_ID then Some("request id has an invalid length")
    else if exists i :: 0 <= i < |r.id| && !ValidIdByte(r.id[i]) then
      Some("request id contains invalid characters")
    else if r.target == [] || |r.target| > 512 then Some("target has an invalid length")
    else if r.secrets == [] || |r.secrets| > MAX_APPROVAL_ITEMS then
      Some("secret list has an invalid length")
    else if exists i :: 0 <= i < |r.secrets| && (r.secrets[i] == [] || |r.secrets[i]| > 1024) then
      Some("secret identifier has an invalid length")
    else None
  }

  function Millis(duration: nat): nat {
    var ms := duration / 1_000_000;
    if ms < U64_MAX then ms else U64_MAX
  }

  function StatusAt(entry: Entry, now: nat): Status {
    match entry.state
    case Pending => IsPending
    case Claimed(lease) =>
      IsClaimed(lease.id, Millis(if lease.expires > now then lease.expires - now else 0))
    case Resolved(decision, message) => IsResolved(decision, message)
    case Cancelled => IsCancelled
  }

  /** `queue`, with the eviction of the oldest id from a full queue. */
  function Queue(f: Frontend, id: string): Frontend {
    if id in f.known then f
    else if |f.queued| == MAX_QUEUE then
      Frontend(f.queued[1..] + [id], (f.known + {id}) - {f.queued[0]})
    else Frontend(f.queued + [id], f.known + {id})
  }

  function QueueAll(f: Frontend, ids: seq<string>): Frontend
    decreases |ids|
  {
    if ids == [] then f else QueueAll(Queue(f, ids[0]), ids[1..])
  }

  function Broadcast(frontends: map<nat, Frontend>, ids: seq<string>): map<nat, Frontend> {
    map s | s in frontends :: QueueAll(frontends[s], ids)
  }

  function PendingIds(entries: map<string, Entry>): set<string> {
    set id | id in entries && entries[id].state.Pending?
  }

  function ExpiredIds(entries: map<string, Entry>, now: nat): set<string> {
    set id | id in entries && entries[id].state.Claimed? && entries[id].state.lease.expires <= now
  }

  function OwnedIds(entries: map<string, Entry>, session: nat): set<string> {
    set id | id in entries && entries[id].state.Claimed? && entries[id].state.lease.owner == session
  }

  /** Makes `ids` pending again. */
  function Release(entries: map<string, Entry>, ids: set<string>): map<string, Entry> {
    map id | id in entries :: if id in ids then entries[id].(state := Pending) else entries[id]
  }

  function SetState(b: Broker, id: string, state: State): Broker
    requires id in b.entries
  {
    b.(entries := b.entries[id := b.entries[id].(state := state)])
  }

  function Reclaim(b: Broker, now: nat): Broker {
    var ids := ExpiredIds(b.entries, now);
    b.(entries := Release(b.entries, ids), frontends := Broadcast(b.frontends, Sorted(ids)))
  }

  function Dropped(b: Broker, session: nat): Broker {
    var ids := OwnedIds(b.entries, session);
    b.(entries := Release(b.entries, ids),
       frontends := Broadcast(b.frontends - {session}, Sorted(ids)))
  }

  function Registered(b: Broker, session: nat): (Broker, Result<Reply, BrokerError>) {
    if session !in b.frontends && |b.frontends| >= MAX_FRONTENDS then (b, Err(Full))
    else
      var f := if session in b.frontends then b.frontends[session] else Frontend([], {});
      (b.(frontends := b.frontends[session := QueueAll(f, Sorted(PendingIds(b.entries)))]), Ok(Done))
  }

  function Submitted(b: Broker, r: Request, procedure: Option<string>, later: nat)
    : (Broker, Result<Reply, BrokerError>)
  {
    if r.id in b.entries then
      if b.entries[r.id].request != r then (b, Err(Invalid("request id collision")))
      else (b, Ok(StatusOf(StatusAt(b.entries[r.id], later))))
    else if |b.entries| >= MAX_REQUESTS then (b, Err(Full))
    else
      (b.(entries := b.entries[r.id := Entry(r, Pending, procedure)],
          frontends := Broadcast(b.frontends, [r.id])), Ok(StatusOf(IsPending)))
  }

  function RequestsOf(entries: map<string, Entry>, ids: seq<string>): (r: seq<Request>)
    requires forall id :: id in ids ==> id in entries
    ensures |r| == |ids| && forall i :: 0 <= i < |ids| ==> r[i] == entries[ids[i]].request
  {
    seq(|ids|, i requires 0 <= i < |ids| => entries[ids[i]].request)
  }

  function Listed(b: Broker, session: nat): (Broker, Result<Reply, BrokerError>) {
    if session !in b.frontends then (b, Err(Unavailable))
    else
      var queued := Filter(b.frontends[session].queued,
                           id => id in b.entries && b.entries[id].state.Pending?);
      (b.(frontends := b.frontends[session := Frontend(queued, SetOf(queued))]),
       Ok(Requests(RequestsOf(b.entries, queued))))
  }

  /** `checked_add(1).unwrap_or(1)` on u64. */
  function NextLeaseId(id: nat): nat {
    if id < U64_MAX then id + 1 else 1
  }

  function Claiming(b: Broker, session: nat, id: string, duration: nat, later: nat)
    : (Broker, Result<Reply, BrokerError>)
  {
    if session !in b.frontends then (b, Err(Unavailable))
    else if duration == 0 || duration > MAX_LEASE then (b, Err(Invalid("invalid lease duration")))
    else if id !in b.entries then (b, Err(Unknown))
    else if !b.entries[id].state.Pending? then (b, Err(Unavailable))
    else
      (SetState(b, id, Claimed(Lease(b.nextLease, session, later + duration)))
       .(nextLease := NextLeaseId(b.nextLease)),
       Ok(Leased(b.nextLease, Millis(duration))))
  }

  predicate Holds(b: Broker, session: nat, id: string, leaseId: nat) {
    id in b.entries && b.entries[id].state.Claimed?
    && b.entries[id].state.lease.owner == session && b.entries[id].state.lease.id == leaseId
  }

  function Resolving(b: Broker, session: nat, id: string, leaseId: nat,
                     decision: Decision, message: Option<string>)
    : (Broker, Result<Reply, BrokerError>)
  {
    if message.Some? && |message.value| > MAX_MESSAGE then
      (b, Err(Invalid("resolution message is too long")))
    else if id !in b.entries then (b, Err(Unknown))
    else if !Holds(b, session, id, leaseId) then (b, Err(WrongLease))
    else (SetState(b, id, Resolved(decision, message)), Ok(Done))
  }

  function Renewing(b: Broker, session: nat, id: string, leaseId: nat, duration: nat, later: nat)
    : (Broker, Result<Reply, BrokerError>)
  {
    if session !in b.frontends then (b, Err(Unavailable))
    else if duration == 0 || duration > MAX_LEASE then (b, Err(Invalid("invalid lease duration")))
    else if id !in b.entries then (b, Err(Unknown))
    else if !Holds(b, session, id, leaseId) then (b, Err(WrongLease))
    else
      (SetState(b, id, Claimed(b.entries[id].state.lease.(expires := later + duration))),
       Ok(Extended(Millis(duration))))
  }

  function Apply(b: Broker, s: Step): (Broker, Result<Reply, BrokerError>) {
    match s.call
    case Disconnect(session) => (Dropped(b, session), Ok(Done))
    case Submit(r, procedure) =>
      if Refusal(r).Some? then (b, Err(Invalid(Refusal(r).value)))
      else Submitted(Reclaim(b, s.now), r, procedure, s.later)
    case Register(session) => Registered(Reclaim(b, s.now), session)
    case ListPending(session) => Listed(Reclaim(b, s.now), session)
    case Claim(session, id, duration) => Claiming(Reclaim(b, s.now), session, id, duration, s.later)
    case Resolve(session, id, leaseId, decision, message) =>
      Resolving(Reclaim(b, s.now), session, id, leaseId, decision, message)
    case Renew(session, id, leaseId, duration) =>
      Renewing(Reclaim(b, s.now), session, id, leaseId, duration, s.later)
    case Cancel(id) =>
      var r := Reclaim(b, s.now);
      if id in r.entries then (SetState(r, id, Cancelled), Ok(Done)) else (r, Err(Unknown))
    case ReadStatus(id) =>
      var r := Reclaim(b, s.now);
      (r, if id in r.entries then Ok(StatusOf(StatusAt(r.entries[id], s.later))) else Err(Unknown))
  }

  /** The broker after a run of calls that starts from `b`. */
  function RunFrom(b: Broker, steps: seq<Step>): Broker
    decreases |steps|
  {
    if steps == [] then b else RunFrom(Apply(b, steps[0]).0, steps[1..])
  }

  // ---- What every call keeps ----------------------------------------------

  /** A queue holds known entry ids, each once, and every pending id. */
  ghost predicate FrontendOk(f: Frontend, entries: map<string, Entry>) {
    NoDup(f.queued) && f.known == SetOf(f.queued) && f.known <= entries.Keys
    && PendingIds(entries) <= f.known
  }

  ghost predicate QueuesOk(frontends: map<nat, Frontend>, entries: map<string, Entry>) {
    forall s :: s in frontends ==> FrontendOk(frontends[s], entries)
  }

  /** Entries are filed under their own id and leased only to `sessions`. */
  ghost predicate EntriesOk(entries: map<string, Entry>, sessions: set<nat>) {
    forall id :: id in entries ==>
      entries[id].request.id == id
      && (entries[id].state.Claimed? ==> entries[id].state.lease.owner in sessions)
  }

  ghost predicate Inv(b: Broker) {
    && |b.entries.Keys| <= MAX_REQUESTS
    && |b.frontends.Keys| <= MAX_FRONTENDS
    && 1 <= b.nextLease <= U64_MAX
    && EntriesOk(b.entries, b.frontends.Keys)
    && QueuesOk(b.frontends, b.entries)
  }

  /** Pigeonhole: a queue without duplicates over at most `MAX_QUEUE` ids has
      room for any id that is not in it, so `queue` never evicts. */
  lemma NeverEvicts(f: Frontend, keys: set<string>, id: string)
    requires NoDup(f.queued) && f.known == SetOf(f.queued) && f.known <= keys
    requires |keys| <= MAX_QUEUE && id in keys && id !in f.known
    ensures |f.queued| < MAX_QUEUE
  {
    NoDupSize(f.queued);
    SubsetSize(f.known, keys - {id});
  }

  lemma {:induction false} QueueAllKeeps(f: Frontend, keys: set<string>, ids: seq<string>)
    requires NoDup(f.queued) && f.known == SetOf(f.queued) && f.known <= keys
    requires |keys| <= MAX_QUEUE && SetOf(ids) <= keys
    ensures var g := QueueAll(f, ids);
      NoDup(g.queued) && g.known == SetOf(g.queued) && g.known == f.known + SetOf(ids)
      && f.queued <= g.queued
    decreases |ids|
  {
    if ids != [] {
      var g := Queue(f, ids[0]);
      assert ids[0] in SetOf(ids);
      if ids[0] !in f.known {
        NeverEvicts(f, keys, ids[0]);
        assert SetOf(g.queued) == SetOf(f.queued) + {ids[0]};
      }
      assert SetOf(ids) == {ids[0]} + SetOf(ids[1..]);
      QueueAllKeeps(g, keys, ids[1..]);
    }
  }

  /** Broadcasting newly pending ids keeps every queue complete. */
  lemma BroadcastKeeps(frontends: map<nat, Frontend>, before: map<string, Entry>,
                       after: map<string, Entry>, ids: seq<string>)
    requires QueuesOk(frontends, before)
    requires before.Keys <= after.Keys && |after.Keys| <= MAX_QUEUE
    requires SetOf(ids) <= after.Keys
    requires PendingIds(after) <= PendingIds(before) + SetOf(ids)
    ensures QueuesOk(Broadcast(frontends, ids), after)
  {
    forall s | s in frontends ensures FrontendOk(QueueAll(frontends[s], ids), after) {
      QueueAllKeeps(frontends[s], after.Keys, ids);
    }
  }

  lemma ReleaseKeeps(entries: map<string, Entry>, ids: set<string>, frontends: map<nat, Frontend>)
    requires |entries.Keys| <= MAX_QUEUE && ids <= entries.Keys
    requires QueuesOk(frontends, entries)
    ensures Release(entries, ids).Keys == entries.Keys
    ensures QueuesOk(Broadcast(frontends, Sorted(ids)), Release(entries, ids))
  {
    var e := Release(entries, ids);
    assert e.Keys == entries.Keys;
    assert PendingIds(e) <= PendingIds(entries) + ids;
    BroadcastKeeps(frontends, entries, e, Sorted(ids));
  }

  lemma ReclaimInv(b: Broker, now: nat)
    requires Inv(b)
    ensures Inv(Reclaim(b, now))
    ensures Reclaim(b, now).frontends.Keys == b.frontends.Keys
  {
    var ids := ExpiredIds(b.entries, now);
    ReleaseKeeps(b.entries, ids, b.frontends);
    assert Broadcast(b.frontends, Sorted(ids)).Keys == b.frontends.Keys;
  }

  lemma DroppedInv(b: Broker, session: nat)
    requires Inv(b)
    ensures Inv(Dropped(b, session))
  {
    var ids := OwnedIds(b.entries, session);
    var rest := b.frontends - {session};
    ReleaseKeeps(b.entries, ids, rest);
    assert rest.Keys == b.frontends.Keys - {session};
    assert Broadcast(rest, Sorted(ids)).Keys == rest.Keys;
    SubsetSize(rest.Keys, b.frontends.Keys);
  }

  lemma EnrolInv(b: Broker, session: nat, f: Frontend)
    requires Inv(b) && (session in b.frontends || |b.frontends| < MAX_FRONTENDS)
    requires FrontendOk(f, b.entries)
    ensures Inv(b.(frontends := b.frontends[session := f]))
  {
    assert b.frontends[session := f].Keys == b.frontends.Keys + {session};
    assert |b.frontends| == |b.frontends.Keys|;
  }

  lemma RegisteredInv(b: Broker, session: nat)
    requires Inv(b)
    ensures Inv(Registered(b, session).0)
  {
    if session in b.frontends || |b.frontends| < MAX_FRONTENDS {
      var f := if session in b.frontends then b.frontends[session] else Frontend([], {});
      var order := Sorted(PendingIds(b.entries));
      assert SetOf<string>([]) == {};
      QueueAllKeeps(f, b.entries.Keys, order);
      EnrolInv(b, session, QueueAll(f, order));
    }
  }

  lemma InsertEntry(entries: map<string, Entry>, sessions: set<nat>, r: Request, procedure: Option<string>)
    requires EntriesOk(entries, sessions) && r.id !in entries && |entries| < MAX_REQUESTS
    ensures var after := entries[r.id := Entry(r, Pending, procedure)];
      EntriesOk(after, sessions) && |after.Keys| <= MAX_REQUESTS && entries.Keys <= after.Keys
      && PendingIds(after) <= PendingIds(entries) + {r.id}
  {
    var after := entries[r.id := Entry(r, Pending, procedure)];
    assert after.Keys == entries.Keys + {r.id};
    assert |entries| == |entries.Keys|;
  }

  lemma SubmittedInv(b: Broker, r: Request, procedure: Option<string>, later: nat)
    requires Inv(b)
    ensures Inv(Submitted(b, r, procedure, later).0)
  {
    hide StatusAt, FrontendOk, QueuesOk, EntriesOk, QueueAll, PendingIds;
    if r.id !in b.entries && |b.entries| < MAX_REQUESTS {
      InsertEntry(b.entries, b.frontends.Keys, r, procedure);
      assert SetOf([r.id]) == {r.id};
      BroadcastKeeps(b.frontends, b.entries, b.entries[r.id := Entry(r, Pending, procedure)], [r.id]);
      assert Broadcast(b.frontends, [r.id]).Keys == b.frontends.Keys;
    }
  }

  lemma ListedInv(b: Broker, session: nat)
    requires Inv(b)
    ensures Inv(Listed(b, session).0)
  {
    if session in b.frontends {
      var f := b.frontends[session];
      var keep := id => id in b.entries && b.entries[id].state.Pending?;
      FilterNoDup(f.queued, keep);
      var queued := Filter(f.queued, keep);
      var g := Frontend(queued, SetOf(queued));
      EnrolInv(b, session, g);
    }
  }

  lemma SetStateInv(b: Broker, id: string, state: State)
    requires Inv(b) && id in b.entries && !state.Pending?
    requires state.Claimed? ==> state.lease.owner in b.frontends
    ensures Inv(SetState(b, id, state))
  {
    var c := SetState(b, id, state);
    assert c.entries.Keys == b.entries.Keys;
    assert PendingIds(c.entries) <= PendingIds(b.entries);
    forall s | s in b.frontends ensures FrontendOk(b.frontends[s], c.entries) {
      assert FrontendOk(b.frontends[s], b.entries);
    }
  }

  lemma ClaimingInv(b: Broker, session: nat, id: string, duration: nat, later: nat)
    requires Inv(b)
    ensures Inv(Claiming(b, session, id, duration, later).0)
  {
    if Claiming(b, session, id, duration, later).1.Ok? {
      SetStateInv(b, id, Claimed(Lease(b.nextLease, session, later + duration)));
    }
  }

  lemma ResolvingInv(b: Broker, session: nat, id: string, leaseId: nat,
                     decision: Decision, message: Option<string>)
    requires Inv(b)
    ensures Inv(Resolving(b, session, id, leaseId, decision, message).0)
  {
    if Holds(b, session, id, leaseId) { SetStateInv(b, id, Resolved(decision, message)); }
  }

  lemma RenewingInv(b: Broker, session: nat, id: string, leaseId: nat, duration: nat, later: nat)
    requires Inv(b)
    ensures Inv(Renewing(b, session, id, leaseId, duration, later).0)
  {
    if session in b.frontends && Holds(b, session, id, leaseId) {
      SetStateInv(b, id, Claimed(b.entries[id].state.lease.(expires := later + duration)));
    }
  }

  lemma ApplyInv(b: Broker, s: Step)
    requires Inv(b)
    ensures Inv(Apply(b, s).0)
  {
    hide Inv, Reclaim, Dropped, Registered, Submitted, Listed, Claiming, Resolving, Renewing, Refusal, StatusAt;
    ReclaimInv(b, s.now);
    var r := Reclaim(b, s.now);
    match s.call
    case Disconnect(session) => DroppedInv(b, session);
    case Submit(request, procedure) =>
      SubmittedInv(r, request, procedure, s.later);
    case Register(session) => RegisteredInv(r, session);
    case ListPending(session) => ListedInv(r, session);
    case Claim(session, id, duration) => ClaimingInv(r, session, id, duration, s.later);
    case Resolve(session, id, leaseId, decision, message) =>
      ResolvingInv(r, session, id, leaseId, decision, message);
    case Renew(session, id, leaseId, duration) =>
      RenewingInv(r, session, id, leaseId, duration, s.later);
    case Cancel(id) => if id in r.entries { SetStateInv(r, id, Cancelled); }
    case ReadStatus(id) =>
  }

  lemma {:induction false} RunInv(b: Broker, steps: seq<Step>)
    requires Inv(b)
    ensures Inv(RunFrom(b, steps))
    decreases |steps|
  {
    if steps != [] {
      ApplyInv(b, steps[0]);
      RunInv(Apply(b, steps[0]).0, steps[1..]);
    }
  }
}
