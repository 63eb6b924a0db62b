/** What the approval broker guarantees over whole runs of calls. */
module ApprovalRuns {
  import opened Prelude
  import opened Ordered
  import opened Approval

  function IdsOf(requests: seq<Request>): (ids: seq<string>)
    ensures |ids| == |requests| && forall i :: 0 <= i < |ids| ==> ids[i] == requests[i].id
  {
    seq(|requests|, i requires 0 <= i < |requests| => requests[i].id)
  }

  lemma ListedIds(b: Broker, session: nat)
    requires Inv(b) && session in b.frontends
    ensures var reply := Listed(b, session).1;
      reply.Ok? && reply.value.Requests? && NoDup(IdsOf(reply.value.requests))
      && SetOf(IdsOf(reply.value.requests)) == PendingIds(b.entries)
      && forall r :: r in reply.value.requests ==> r.id in b.entries && b.entries[r.id].request == r
  {
    var f := b.frontends[session];
    var keep := id => id in b.entries && b.entries[id].state.Pending?;
    FilterNoDup(f.queued, keep);
    var queued := Filter(f.queued, keep);
    var requests := Listed(b, session).1.value.requests;
    assert requests == RequestsOf(b.entries, queued);
    assert IdsOf(requests) == queued;
    assert FrontendOk(f, b.entries);
    forall id ensures id in SetOf(queued) <==> id in PendingIds(b.entries) {
    }
  }

  /** In every reachable state, a registered frontend is told exactly the
      pending requests, each once; another session is refused. */
  lemma PendingIsExact(steps: seq<Step>, session: nat, now: nat, later: nat)
    ensures
      var before := RunFrom(Initial, steps);
      var (after, reply) := Apply(before, Step(ListPending(session), now, later));
      && after.entries == Release(before.entries, ExpiredIds(before.entries, now))
      && (session !in before.frontends ==> reply == Err(Unavailable))
      && (session in before.frontends ==>
            reply.Ok? && reply.value.Requests?
            && NoDup(IdsOf(reply.value.requests))
            && SetOf(IdsOf(reply.value.requests)) == PendingIds(after.entries)
            && forall r :: r in reply.value.requests ==>
                 r.id in after.entries && after.entries[r.id].request == r)
  {
    RunInv(Initial, steps);
    var before := RunFrom(Initial, steps);
    ReclaimInv(before, now);
    if session in before.frontends {
      ListedIds(Reclaim(before, now), session);
    }
  }

  // ---- The order of a listing -----------------------------------------------

  lemma BroadcastGrows(b: Broker, keys: set<string>, ids: seq<string>, session: nat)
    requires Inv(b) && session in b.frontends
    requires b.entries.Keys <= keys && |keys| <= MAX_QUEUE && SetOf(ids) <= keys
    ensures b.frontends[session].queued <= QueueAll(b.frontends[session], ids).queued
  {
    assert FrontendOk(b.frontends[session], b.entries);
    QueueAllKeeps(b.frontends[session], keys, ids);
  }

  lemma ReclaimGrows(b: Broker, now: nat, session: nat)
    requires Inv(b) && session in b.frontends
    ensures session in Reclaim(b, now).frontends
    ensures b.frontends[session].queued <= Reclaim(b, now).frontends[session].queued
  {
    BroadcastGrows(b, b.entries.Keys, Sorted(ExpiredIds(b.entries, now)), session);
  }

  lemma DropGrows(b: Broker, gone: nat, session: nat)
    requires Inv(b) && session in b.frontends && session != gone
    ensures session in Dropped(b, gone).frontends
    ensures b.frontends[session].queued <= Dropped(b, gone).frontends[session].queued
  {
    BroadcastGrows(b, b.entries.Keys, Sorted(OwnedIds(b.entries, gone)), session);
  }

  lemma SubmitGrows(b: Broker, r: Request, procedure: Option<string>, later: nat, session: nat)
    requires Inv(b) && session in b.frontends
    ensures var after := Submitted(b, r, procedure, later).0;
      session in after.frontends && b.frontends[session].queued <= after.frontends[session].queued
  {
    hide StatusAt;
    if r.id !in b.entries && |b.entries| < MAX_REQUESTS {
      InsertEntry(b.entries, b.frontends.Keys, r, procedure);
      BroadcastGrows(b, b.entries[r.id := Entry(r, Pending, procedure)].Keys, [r.id], session);
    }
  }

  lemma RegisterGrows(b: Broker, other: nat, session: nat)
    requires Inv(b) && session in b.frontends
    ensures var after := Registered(b, other).0;
      session in after.frontends && b.frontends[session].queued <= after.frontends[session].queued
  {
    BroadcastGrows(b, b.entries.Keys, Sorted(PendingIds(b.entries)), session);
  }

  /** The session's queue is neither read nor dropped by this call. */
  predicate LeavesQueue(s: Step, session: nat) {
    s.call != Disconnect(session) && s.call != ListPending(session)
  }

  lemma QueueGrows(b: Broker, s: Step, session: nat)
    requires Inv(b) && session in b.frontends && LeavesQueue(s, session)
    ensures var after := Apply(b, s).0;
      session in after.frontends && b.frontends[session].queued <= after.frontends[session].queued
  {
    hide Inv, Reclaim, Dropped, Registered, Submitted, Refusal, StatusAt;
    ReclaimInv(b, s.now);
    ReclaimGrows(b, s.now, session);
    var r := Reclaim(b, s.now);
    match s.call
    case Disconnect(gone) => DropGrows(b, gone, session);
    case Submit(request, procedure) => SubmitGrows(r, request, procedure, s.later, session);
    case Register(other) => RegisterGrows(r, other, session);
    case _ =>
  }

  lemma {:induction false} RunGrows(b: Broker, steps: seq<Step>, session: nat)
    requires Inv(b) && session in b.frontends
    requires forall i :: 0 <= i < |steps| ==> LeavesQueue(steps[i], session)
    ensures var after := RunFrom(b, steps);
      session in after.frontends && b.frontends[session].queued <= after.frontends[session].queued
    decreases |steps|
  {
    hide Apply, LeavesQueue, Inv;
    if steps != [] {
      QueueGrows(b, steps[0], session);
      ApplyInv(b, steps[0]);
      RunGrows(Apply(b, steps[0]).0, steps[1..], session);
    }
  }

  lemma {:induction false} FilterPrefix(a: seq<string>, b: seq<string>, keep: string -> bool)
    requires a <= b
    ensures Filter(a, keep) <= Filter(b, keep)
  {
    if a != [] {
      FilterPrefix(a[1..], b[1..], keep);
    }
  }

  /** What a listing answers, as the session's queue afterwards. */
  lemma ListedQueue(b: Broker, session: nat, now: nat, later: nat)
    requires Inv(b) && session in b.frontends
    ensures
      var (after, reply) := Apply(b, Step(ListPending(session), now, later));
      session in after.frontends && reply.Ok? && reply.value.Requests?
      && IdsOf(reply.value.requests) == after.frontends[session].queued
      && Filter(b.frontends[session].queued, id => id in PendingIds(after.entries)) <= IdsOf(reply.value.requests)
  {
    hide Inv, Reclaim;
    ReclaimInv(b, now);
    ReclaimGrows(b, now, session);
    var r := Reclaim(b, now);
    ListedIds(r, session);
    var was, queued := b.frontends[session].queued, r.frontends[session].queued;
    var keep := id => id in r.entries && r.entries[id].state.Pending?;
    var pending := id => id in PendingIds(r.entries);
    FilterSame(was, keep, pending);
    FilterPrefix(was, queued, keep);
    assert IdsOf(RequestsOf(r.entries, Filter(queued, keep))) == Filter(queued, keep) by { ListedNames(r, Filter(queued, keep)); }
  }

  lemma ListedNames(b: Broker, ids: seq<string>)
    requires Inv(b) && forall id :: id in ids ==> id in b.entries
    ensures IdsOf(RequestsOf(b.entries, ids)) == ids
  {
  }

  lemma {:induction false} FilterSame(s: seq<string>, a: string -> bool, b: string -> bool)
    requires forall x :: a(x) == b(x)
    ensures Filter(s, a) == Filter(s, b)
  {
    if s != [] {
      FilterSame(s[1..], a, b);
    }
  }

  /** Requests are listed in the order in which they became pending: a later listing
      starts with what is still pending of an earlier one, in the same order, and
      whatever has become pending since comes after it. */
  lemma ListingsInOrder(steps: seq<Step>, between: seq<Step>, session: nat, at: nat, at': nat)
    requires session in RunFrom(Initial, steps).frontends
    requires forall i :: 0 <= i < |between| ==> LeavesQueue(between[i], session)
    ensures
      var (b, first) := Apply(RunFrom(Initial, steps), Step(ListPending(session), at, at));
      var (c, second) := Apply(RunFrom(b, between), Step(ListPending(session), at', at'));
      first.Ok? && first.value.Requests? && second.Ok? && second.value.Requests?
      && Filter(IdsOf(first.value.requests), id => id in PendingIds(c.entries)) <= IdsOf(second.value.requests)
  {
    hide Apply, RunFrom, Inv, LeavesQueue;
    RunInv(Initial, steps);
    var before := RunFrom(Initial, steps);
    ListedQueue(before, session, at, at);
    ApplyInv(before, Step(ListPending(session), at, at));
    var (b, first) := Apply(before, Step(ListPending(session), at, at));
    RunInv(b, between);
    RunGrows(b, between, session);
    var d := RunFrom(b, between);
    ListedQueue(d, session, at', at');
    var (c, second) := Apply(d, Step(ListPending(session), at', at'));
    FilterPrefix(b.frontends[session].queued, d.frontends[session].queued, id => id in PendingIds(c.entries));
  }

  // ---- One entry through one call -----------------------------------------

  /** Every way one call can change the state of entry `id`. */
  ghost predicate Transition(id: string, st: State, st': State, s: Step, nextLease: nat) {
    || st' == st
    || (st' == Pending && st.Claimed?
        && (if s.call.Disconnect? then st.lease.owner == s.call.session else st.lease.expires <= s.now))
    || (s.call.Claim? && s.call.id == id
        && (st.Pending? || (st.Claimed? && st.lease.expires <= s.now))
        && st' == Claimed(Lease(nextLease, s.call.session, s.later + s.call.duration)))
    || (s.call.Renew? && s.call.id == id && st.Claimed? && st.lease.id == s.call.leaseId
        && st.lease.owner == s.call.session && st.lease.expires > s.now
        && st' == Claimed(st.lease.(expires := s.later + s.call.duration)))
    || (s.call.Resolve? && s.call.id == id && st.Claimed? && st.lease.id == s.call.leaseId
        && st.lease.owner == s.call.session && st.lease.expires > s.now
        && st' == Resolved(s.call.decision, s.call.message))
    || (s.call.Cancel? && s.call.id == id && st' == Cancelled)
  }

  lemma EntryReclaimed(b: Broker, now: nat, id: string)
    ensures var r := Reclaim(b, now);
      r.nextLease == b.nextLease && r.entries.Keys == b.entries.Keys
      && (id in b.entries ==>
            r.entries[id] == if id in ExpiredIds(b.entries, now) then b.entries[id].(state := Pending)
                             else b.entries[id])
  {
  }

  /** Calls never remove an entry and move each one only along `Transition`;
      a new entry starts pending. */
  lemma EntryStep(b: Broker, s: Step, id: string)
    ensures var b' := Apply(b, s).0;
      && (id in b.entries ==>
            id in b'.entries
            && b'.entries[id].request == b.entries[id].request
            && Transition(id, b.entries[id].state, b'.entries[id].state, s, b.nextLease))
      && (id !in b.entries && id in b'.entries ==> b'.entries[id].state == Pending)
  {
    hide Refusal, StatusAt, Millis, Broadcast, QueueAll, Sorted, Filter, Reclaim;
    EntryReclaimed(b, s.now, id);
    match s.call
    case Disconnect(session) =>
    case Submit(r, procedure) =>
    case Register(session) =>
    case ListPending(session) =>
    case Claim(session, claimed, duration) =>
    case Resolve(session, resolved, leaseId, decision, message) =>
    case Renew(session, renewed, leaseId, duration) =>
    case Cancel(cancelled) =>
    case ReadStatus(read) =>
  }

  /** A request becomes resolved only by the session that holds its current,
      unexpired lease, and with the decision that session gave. */
  lemma ResolvedByHolder(steps: seq<Step>, s: Step, id: string)
    requires var b := RunFrom(Initial, steps); var b' := Apply(b, s).0;
      id in b'.entries && b'.entries[id].state.Resolved?
      && (id in b.entries ==> b.entries[id].state != b'.entries[id].state)
    ensures var b := RunFrom(Initial, steps); var b' := Apply(b, s).0;
      s.call.Resolve? && s.call.id == id && s.call.session in b.frontends
      && Holds(b, s.call.session, id, s.call.leaseId)
      && b.entries[id].state.lease.expires > s.now
      && b'.entries[id].state == Resolved(s.call.decision, s.call.message)
  {
    var b := RunFrom(Initial, steps);
    RunInv(Initial, steps);
    EntryStep(b, s, id);
  }

  predicate Cancels(steps: seq<Step>, id: string) {
    exists i :: 0 <= i < |steps| && steps[i].call == Cancel(id)
  }

  /** A terminal request never becomes pending or claimed again. A resolution
      stays as it is exactly while nobody cancels the request; `cancel`
      overwrites it, and a cancelled request stays cancelled. */
  lemma {:induction false} TerminalForever(b: Broker, steps: seq<Step>, id: string)
    requires id in b.entries && (b.entries[id].state.Resolved? || b.entries[id].state.Cancelled?)
    ensures var b' := RunFrom(b, steps);
      id in b'.entries
      && b'.entries[id].state == if Cancels(steps, id) then Cancelled else b.entries[id].state
    decreases |steps|
  {
    if steps != [] {
      var c := Apply(b, steps[0]).0;
      EntryStep(b, steps[0], id);
      if steps[0].call == Cancel(id) { CancelSets(b, steps[0], id); }
      TerminalForever(c, steps[1..], id);
      if Cancels(steps[1..], id) {
        var i :| 0 <= i < |steps[1..]| && steps[1..][i].call == Cancel(id);
        assert steps[i + 1].call == Cancel(id);
      } else if Cancels(steps, id) {
        var i :| 0 <= i < |steps| && steps[i].call == Cancel(id);
        assert i != 0 ==> steps[1..][i - 1].call == Cancel(id);
      }
    }
  }

  lemma CancelSets(b: Broker, s: Step, id: string)
    requires id in b.entries && s.call == Cancel(id)
    ensures Apply(b, s).0.entries[id].state == Cancelled
  {
  }

  // ---- Lease ids ----------------------------------------------------------

  predicate ClaimsNow(b: Broker, s: Step) {
    s.call.Claim? && Apply(b, s).1.Ok?
  }

  /** How many calls of a run claim a request. */
  function Claims(b: Broker, steps: seq<Step>): nat
    decreases |steps|
  {
    if steps == [] then 0
    else (if ClaimsNow(b, steps[0]) then 1 else 0) + Claims(Apply(b, steps[0]).0, steps[1..])
  }

  lemma LeaseCounter(b: Broker, s: Step)
    requires 1 <= b.nextLease <= U64_MAX
    ensures Apply(b, s).0.nextLease == if ClaimsNow(b, s) then NextLeaseId(b.nextLease) else b.nextLease
    ensures ClaimsNow(b, s) ==> Apply(b, s).1.value.Leased? && Apply(b, s).1.value.leaseId == b.nextLease
  {
  }

  /** The k-th claim of a run gets lease id 1 + k mod (2^64 - 1). */
  lemma {:induction false} LeaseIdOfClaim(b: Broker, steps: seq<Step>)
    requires 1 <= b.nextLease <= U64_MAX
    ensures RunFrom(b, steps).nextLease == 1 + Cycle(b.nextLease - 1 + Claims(b, steps))
    decreases |steps|
  {
    hide Apply;
    if steps != [] {
      LeaseCounter(b, steps[0]);
      LeaseIdOfClaim(Apply(b, steps[0]).0, steps[1..]);
    }
  }

  /** Two claims of one run share a lease id exactly when a positive multiple
      of 2^64 - 1 claims lies from the first up to the second. */
  lemma LeaseIdsCollideExactly(b: Broker, first: Step, between: seq<Step>, second: Step)
    requires 1 <= b.nextLease <= U64_MAX && ClaimsNow(b, first)
    requires ClaimsNow(RunFrom(Apply(b, first).0, between), second)
    ensures var c := Apply(b, first).0; var d := RunFrom(c, between);
      Apply(b, first).1.value.Leased? && Apply(d, second).1.value.Leased?
      && (Apply(b, first).1.value.leaseId == Apply(d, second).1.value.leaseId
          <==> Cycle(1 + Claims(c, between)) == 0)
  {
    hide Apply;
    var c := Apply(b, first).0;
    LeaseCounter(b, first);
    LeaseIdOfClaim(c, between);
    LeaseCounter(RunFrom(c, between), second);
    CycleShift(b.nextLease - 1, 1 + Claims(c, between));
    CycleShift(c.nextLease - 1, 0);
  }

  /** Position `k` in the cycle of the 2^64 - 1 lease ids. */
  function Cycle(k: nat): nat {
    k % 0xFFFF_FFFF_FFFF_FFFF
  }

  lemma CycleStep(k: nat)
    ensures 1 + Cycle(k + 1) == NextLeaseId(1 + Cycle(k))
  {
  }

  lemma CycleShift(x: nat, k: nat)
    requires x < U64_MAX
    ensures Cycle(x) == x
    ensures Cycle(x + k) == x <==> Cycle(k) == 0
  {
  }

  /** Live leases have ids already handed out, no two the same. */
  ghost predicate LeaseInv(b: Broker) {
    && (forall id :: id in b.entries && b.entries[id].state.Claimed? ==>
          1 <= b.entries[id].state.lease.id < b.nextLease)
    && (forall i, j ::
          i in b.entries && j in b.entries && i != j
          && b.entries[i].state.Claimed? && b.entries[j].state.Claimed?
          ==> b.entries[i].state.lease.id != b.entries[j].state.lease.id)
  }

  ghost predicate Live(b: Broker, leaseId: nat) {
    exists id :: id in b.entries && b.entries[id].state.Claimed? && b.entries[id].state.lease.id == leaseId
  }

  /** A lease id that was handed out and is no longer live. */
  ghost predicate Spent(b: Broker, leaseId: nat) {
    leaseId < b.nextLease && !Live(b, leaseId)
  }

  lemma LeaseStep(b: Broker, s: Step, spent: nat)
    requires 1 <= b.nextLease <= U64_MAX && LeaseInv(b)
    requires ClaimsNow(b, s) ==> b.nextLease < U64_MAX
    ensures LeaseInv(Apply(b, s).0)
    ensures b.nextLease <= Apply(b, s).0.nextLease
    ensures Spent(b, spent) ==> Spent(Apply(b, s).0, spent)
  {
    var b' := Apply(b, s).0;
    LeaseCounter(b, s);
    forall id | id in b'.entries && b'.entries[id].state.Claimed?
      ensures id in b.entries
      ensures (b'.entries[id].state.lease.id == b.nextLease && ClaimsNow(b, s) && s.call.id == id)
           || (b.entries[id].state.Claimed? && b.entries[id].state.lease.id == b'.entries[id].state.lease.id)
    {
      EntryStep(b, s, id);
      if s.call.Claim? && s.call.id == id && b.entries[id].state != b'.entries[id].state { ClaimSucceeds(b, s, id); }
    }
  }

  lemma ClaimSucceeds(b: Broker, s: Step, id: string)
    requires id in b.entries && s.call.Claim? && s.call.id == id
    requires Apply(b, s).0.entries[id].state.Claimed?
    requires b.entries[id].state != Apply(b, s).0.entries[id].state
    ensures ClaimsNow(b, s)
  {
  }

  lemma {:induction false} LeaseRun(b: Broker, steps: seq<Step>, spent: nat)
    requires 1 <= b.nextLease && LeaseInv(b) && b.nextLease + Claims(b, steps) <= U64_MAX
    ensures LeaseInv(RunFrom(b, steps))
    ensures Spent(b, spent) ==> Spent(RunFrom(b, steps), spent)
    decreases |steps|
  {
    if steps != [] {
      LeaseCounter(b, steps[0]);
      LeaseStep(b, steps[0], spent);
      LeaseRun(Apply(b, steps[0]).0, steps[1..], spent);
    }
  }

  lemma {:induction false} RunSplit(b: Broker, s: seq<Step>, t: seq<Step>)
    ensures RunFrom(b, s + t) == RunFrom(RunFrom(b, s), t)
    ensures Claims(b, s + t) == Claims(b, s) + Claims(RunFrom(b, s), t)
    decreases |s|
  {
    if s == [] {
      assert s + t == t;
    } else {
      assert (s + t)[1..] == s[1..] + t;
      RunSplit(Apply(b, s[0]).0, s[1..], t);
    }
  }

  lemma NotLiveIsRefused(b: Broker, s: Step)
    requires (s.call.Resolve? || s.call.Renew?) && !Live(b, s.call.leaseId)
    ensures Apply(b, s).1.Err?
  {
  }

  /** A lease that was reclaimed, dropped or used up never resolves or renews
      anything again, in any continuation of the run with fewer than 2^64 - 1
      claims in all; live leases have distinct ids. */
  lemma SpentLeaseIsUseless(steps: seq<Step>, more: seq<Step>, leaseId: nat, s: Step)
    requires Claims(Initial, steps + more) < U64_MAX
    requires Spent(RunFrom(Initial, steps), leaseId)
    requires (s.call.Resolve? || s.call.Renew?) && s.call.leaseId == leaseId
    ensures LeaseInv(RunFrom(Initial, steps + more))
    ensures Spent(RunFrom(Initial, steps + more), leaseId)
    ensures Apply(RunFrom(Initial, steps + more), s).1.Err?
  {
    hide Apply;
    var b := RunFrom(Initial, steps);
    RunSplit(Initial, steps, more);
    LeaseRun(Initial, steps, 0);
    LeaseIdOfClaim(Initial, steps);
    LeaseRun(b, more, leaseId);
    NotLiveIsRefused(RunFrom(b, more), s);
  }

  // ---- A run that does reuse a lease id -----------------------------------

  const SAMPLE := Request("a", "host", ["host.services.web.key"], false)

  const PROLOGUE := [Step(Register(0), 0, 0), Step(Submit(SAMPLE, None), 0, 0)]

  /** Claim `i` comes after the one-nanosecond lease of claim `i - 1`. */
  function ClaimAt(i: nat): Step {
    Step(Claim(0, "a", 1), 2 * i, 2 * i)
  }

  function ClaimLoop(n: nat): seq<Step> {
    if n == 0 then [] else ClaimLoop(n - 1) + [ClaimAt(n - 1)]
  }

  ghost predicate Claimable(b: Broker, now: nat) {
    0 in b.frontends && "a" in b.entries
    && (b.entries["a"].state.Pending?
        || (b.entries["a"].state.Claimed? && b.entries["a"].state.lease.expires <= now))
  }

  lemma ClaimableClaims(b: Broker, i: nat)
    requires Claimable(b, 2 * i)
    ensures Apply(b, ClaimAt(i)).1 == Ok(Leased(b.nextLease, 0))
    ensures ClaimsNow(b, ClaimAt(i)) && Claimable(Apply(b, ClaimAt(i)).0, 2 * (i + 1))
  {
  }

  lemma PrologueRuns()
    ensures Claimable(RunFrom(Initial, PROLOGUE), 0) && RunFrom(Initial, PROLOGUE).nextLease == 1
  {
    var b := Apply(Initial, PROLOGUE[0]).0;
    assert 0 in b.frontends && b.nextLease == 1 && b.entries == map[];
    assert Refusal(SAMPLE).None?;
    var c := Apply(b, PROLOGUE[1]).0;
    assert "a" in c.entries && c.entries["a"].state.Pending? && 0 in c.frontends;
    assert PROLOGUE[1..] == [PROLOGUE[1]] && [PROLOGUE[1]][1..] == [];
    assert RunFrom(b, PROLOGUE[1..]) == RunFrom(c, []);
  }

  lemma {:induction false} ClaimLoopRuns(b: Broker, n: nat)
    requires Claimable(b, 0) && b.nextLease == 1
    ensures var c := RunFrom(b, ClaimLoop(n));
      Claimable(c, 2 * n) && c.nextLease == 1 + Cycle(n)
  {
    hide Apply;
    if n != 0 {
      ClaimLoopRuns(b, n - 1);
      var c := RunFrom(b, ClaimLoop(n - 1));
      RunSplit(b, ClaimLoop(n - 1), [ClaimAt(n - 1)]);
      ClaimableClaims(c, n - 1);
      LeaseCounter(c, ClaimAt(n - 1));
      assert RunFrom(c, [ClaimAt(n - 1)]) == RunFrom(Apply(c, ClaimAt(n - 1)).0, []);
      CycleStep(n - 1);
    }
  }

  /** Without the bound on claims the id does come back: the first and the
      2^64-th claim of this run both get lease 1. */
  lemma LeaseIdReused()
    ensures var b := RunFrom(Initial, PROLOGUE);
      Apply(b, ClaimAt(0)).1 == Apply(RunFrom(b, ClaimLoop(U64_MAX)), ClaimAt(U64_MAX)).1
      == Ok(Leased(1, 0))
  {
    hide Apply;
    PrologueRuns();
    var b := RunFrom(Initial, PROLOGUE);
    ClaimLoopRuns(b, U64_MAX);
    ClaimableClaims(b, 0);
    ClaimableClaims(RunFrom(b, ClaimLoop(U64_MAX)), U64_MAX);
  }

  // ---- A run in which a resolution is cancelled ---------------------------

  const APPROVED := PROLOGUE + [Step(Claim(0, "a", 9), 1, 1), Step(Resolve(0, "a", 1, Decision.Approved, None), 2, 2)]

  lemma ApprovedRuns(b: Broker)
    requires Claimable(b, 0) && b.nextLease == 1 && b.entries["a"].state.Pending?
    ensures
      var c := Apply(b, Step(Claim(0, "a", 9), 1, 1)).0;
      var d := Apply(c, Step(Resolve(0, "a", 1, Decision.Approved, None), 2, 2)).0;
      "a" in d.entries && d.entries["a"].state == Resolved(Decision.Approved, None)
  {
    var c := Apply(b, Step(Claim(0, "a", 9), 1, 1)).0;
    assert c.entries["a"].state == Claimed(Lease(1, 0, 10));
  }

  /** Registered, submitted, claimed, approved, and then cancelled after all. */
  lemma ApprovedThenCancelled()
    ensures
      var b := RunFrom(Initial, APPROVED);
      "a" in b.entries && b.entries["a"].state == Resolved(Decision.Approved, None)
    ensures
      var b := RunFrom(Initial, APPROVED + [Step(Cancel("a"), 3, 3)]);
      "a" in b.entries && b.entries["a"].state == Cancelled
  {
    hide Apply;
    PrologueRuns();
    PrologueIsPending();
    var b := RunFrom(Initial, PROLOGUE);
    var claim, resolve := Step(Claim(0, "a", 9), 1, 1), Step(Resolve(0, "a", 1, Decision.Approved, None), 2, 2);
    RunSplit(Initial, PROLOGUE, [claim, resolve]);
    assert [claim, resolve][1..] == [resolve] && [resolve][1..] == [];
    assert RunFrom(b, [claim, resolve]) == RunFrom(Apply(b, claim).0, [resolve]);
    assert RunFrom(Apply(b, claim).0, [resolve]) == RunFrom(Apply(Apply(b, claim).0, resolve).0, []);
    ApprovedRuns(b);
    var cancel := Step(Cancel("a"), 3, 3);
    RunSplit(Initial, APPROVED, [cancel]);
    assert [cancel][1..] == [] && Cancels([cancel], "a");
    TerminalForever(RunFrom(Initial, APPROVED), [cancel], "a");
  }

  lemma PrologueIsPending()
    ensures
      var b := RunFrom(Initial, PROLOGUE);
      "a" in b.entries && b.entries["a"].state == Pending
  {
    var b := Apply(Initial, PROLOGUE[0]).0;
    assert b.entries == map[];
    assert Refusal(SAMPLE).None?;
    assert PROLOGUE[1..] == [PROLOGUE[1]] && [PROLOGUE[1]][1..] == [];
    assert RunFrom(b, PROLOGUE[1..]) == RunFrom(Apply(b, PROLOGUE[1]).0, []);
  }
}
