/** The broker as the program runs it: fields updated in place, loops over the
    entries and over the frontends. */
module ApprovalBroker {
  import opened Prelude
  import opened Ordered
  import opened Approval

  lemma {:induction false} QueueAllSnoc(f: Frontend, ids: seq<string>, id: string)
    ensures QueueAll(f, ids + [id]) == Queue(QueueAll(f, ids), id)
    decreases |ids|
  {
    if ids == [] {
      assert [] + [id] == [id] && [id][1..] == [];
    } else {
      assert (ids + [id])[1..] == ids[1..] + [id];
      QueueAllSnoc(Queue(f, ids[0]), ids[1..], id);
    }
  }

  lemma BroadcastSnoc(frontends: map<nat, Frontend>, ids: seq<string>, id: string)
    ensures Broadcast(Broadcast(frontends, ids), [id]) == Broadcast(frontends, ids + [id])
  {
    forall s | s in frontends
      ensures QueueAll(QueueAll(frontends[s], ids), [id]) == QueueAll(frontends[s], ids + [id])
    {
      QueueAllSnoc(frontends[s], ids, id);
      QueueAllSnoc(QueueAll(frontends[s], ids), [], id);
      assert [] + [id] == [id];
    }
  }

  method QueueInOrder(frontend: Frontend, ids: seq<string>) returns (f: Frontend)
    ensures f == QueueAll(frontend, ids)
  {
    f := frontend;
    for i := 0 to |ids|
      invariant f == QueueAll(frontend, ids[..i])
    {
      QueueAllSnoc(frontend, ids[..i], ids[i]);
      assert ids[..i + 1] == ids[..i] + [ids[i]];
      f := Queue(f, ids[i]);
    }
    assert ids[..|ids|] == ids;
  }

  function IsLost(table: map<string, Entry>, lost: Lease -> bool): string -> bool {
    id => id in table && table[id].state.Claimed? && lost(table[id].state.lease)
  }

  function LostIds(table: map<string, Entry>, lost: Lease -> bool): set<string> {
    set id | id in table && IsLost(table, lost)(id)
  }

  lemma ReleaseNone(table: map<string, Entry>)
    ensures Release(table, SetOf([])) == table
  {
  }

  lemma ReleaseOne(table: map<string, Entry>, ids: seq<string>, id: string)
    requires id in table
    ensures var e := Release(table, SetOf(ids));
      e.Keys == table.Keys && (id !in ids ==> e[id] == table[id])
      && e[id := e[id].(state := Pending)] == Release(table, SetOf(ids + [id]))
  {
    assert SetOf(ids + [id]) == SetOf(ids) + {id};
  }

  class ApprovalBroker {
    var entries: map<string, Entry>
    var frontends: map<nat, Frontend>
    var nextLease: nat

    function Model(): Broker
      reads this
    {
      Broker(entries, frontends, nextLease)
    }

    constructor ()
      ensures Model() == Initial
    {
      entries, frontends, nextLease := map[], map[], 1;
    }

    method BroadcastOne(id: string)
      modifies this
      ensures entries == old(entries) && nextLease == old(nextLease)
      ensures frontends == Broadcast(old(frontends), [id])
    {
      var todo := frontends.Keys;
      while todo != {}
        invariant todo <= frontends.Keys == old(frontends).Keys
        invariant entries == old(entries) && nextLease == old(nextLease)
        invariant forall s :: s in frontends ==>
          frontends[s] == if s in todo then old(frontends)[s] else Queue(old(frontends)[s], id)
        decreases |todo|
      {
        var s :| s in todo;
        frontends := frontends[s := Queue(frontends[s], id)];
        todo := todo - {s};
      }
      forall s | s in frontends ensures QueueAll(old(frontends)[s], [id]) == Queue(old(frontends)[s], id) {
        QueueAllSnoc(old(frontends)[s], [], id);
        assert [] + [id] == [id];
      }
      assert frontends == Broadcast(old(frontends), [id]);
    }

    method BroadcastAll(ids: seq<string>)
      modifies this
      ensures entries == old(entries) && nextLease == old(nextLease)
      ensures frontends == Broadcast(old(frontends), ids)
    {
      assert old(frontends) == Broadcast(old(frontends), []);
      for i := 0 to |ids|
        invariant entries == old(entries) && nextLease == old(nextLease)
        invariant frontends == Broadcast(old(frontends), ids[..i])
      {
        BroadcastSnoc(old(frontends), ids[..i], ids[i]);
        assert ids[..i + 1] == ids[..i] + [ids[i]];
        BroadcastOne(ids[i]);
      }
      assert ids[..|ids|] == ids;
    }

    /** Makes the claimed entries whose lease is `lost` pending again and
        returns their ids in the order of the table. */
    method ReleaseClaims(lost: Lease -> bool) returns (ids: seq<string>)
      modifies this`entries
      ensures ids == Sorted(LostIds(old(entries), lost))
      ensures entries == Release(old(entries), LostIds(old(entries), lost))
    {
      hide Sorted, Release, Le;
      var table := entries;
      ghost var isLost := IsLost(table, lost);
      var order := Sorted(table.Keys);
      ids := [];
      ReleaseNone(table);
      for i := 0 to |order|
        invariant ids == Filter(order[..i], isLost)
        invariant entries == Release(table, SetOf(ids))
      {
        var id := order[i];
        assert id in SetOf(order);
        FilterSnoc(order[..i], id, isLost);
        assert order[..i + 1] == order[..i] + [id];
        assert id !in order[..i];
        ReleaseOne(table, ids, id);
        var state := entries[id].state;
        if state.Claimed? && lost(state.lease) {
          entries := entries[id := entries[id].(state := Pending)];
          ids := ids + [id];
        }
      }
      assert order[..|order|] == order;
      FilterSorted(table.Keys, isLost);
      assert LostIds(table, lost) == set x | x in table.Keys && isLost(x);
    }

    method Reclaim(now: nat)
      modifies this
      ensures Model() == Approval.Reclaim(old(Model()), now)
    {
      var ids := ReleaseClaims((lease: Lease) => lease.expires <= now);
      assert LostIds(old(entries), (lease: Lease) => lease.expires <= now) == ExpiredIds(old(entries), now);
      BroadcastAll(ids);
    }

    method Disconnect(session: nat)
      modifies this
      ensures Model() == Apply(old(Model()), Step(Call.Disconnect(session), 0, 0)).0
    {
      frontends := frontends - {session};
      var ids := ReleaseClaims((lease: Lease) => lease.owner == session);
      assert LostIds(old(entries), (lease: Lease) => lease.owner == session) == OwnedIds(old(entries), session);
      BroadcastAll(ids);
    }

    method Register(session: nat, now: nat) returns (r: Result<Reply, BrokerError>)
      modifies this
      ensures (Model(), r) == Apply(old(Model()), Step(Call.Register(session), now, now))
    {
      Reclaim(now);
      if session !in frontends && |frontends| >= MAX_FRONTENDS {
        return Err(Full);
      }
      var f := QueueInOrder(if session in frontends then frontends[session] else Frontend([], {}),
                            Sorted(PendingIds(entries)));
      frontends := frontends[session := f];
      r := Ok(Done);
    }

    method Submit(request: Request, procedure: Option<string>, now: nat, later: nat)
      returns (r: Result<Reply, BrokerError>)
      modifies this
      ensures (Model(), r) == Apply(old(Model()), Step(Call.Submit(request, procedure), now, later))
    {
      var refusal := Refusal(request);
      if refusal.Some? {
        return Err(Invalid(refusal.value));
      }
      Reclaim(now);
      if request.id in entries {
        if entries[request.id].request != request {
          return Err(Invalid("request id collision"));
        }
        return Ok(StatusOf(StatusAt(entries[request.id], later)));
      }
      if |entries| >= MAX_REQUESTS {
        return Err(Full);
      }
      entries := entries[request.id := Entry(request, Pending, procedure)];
      BroadcastOne(request.id);
      r := Ok(StatusOf(IsPending));
    }

    method ListPending(session: nat, now: nat) returns (r: Result<Reply, BrokerError>)
      modifies this
      ensures (Model(), r) == Apply(old(Model()), Step(Call.ListPending(session), now, now))
    {
      Reclaim(now);
      if session !in frontends {
        return Err(Unavailable);
      }
      var table := entries;
      var queued := Filter(frontends[session].queued, id => id in table && table[id].state.Pending?);
      frontends := frontends[session := Frontend(queued, SetOf(queued))];
      r := Ok(Requests(RequestsOf(entries, queued)));
    }

    method Claim(session: nat, id: string, duration: nat, now: nat, later: nat)
      returns (r: Result<Reply, BrokerError>)
      modifies this
      ensures (Model(), r) == Apply(old(Model()), Step(Call.Claim(session, id, duration), now, later))
    {
      Reclaim(now);
      if session !in frontends {
        return Err(Unavailable);
      }
      if duration == 0 || duration > MAX_LEASE {
        return Err(Invalid("invalid lease duration"));
      }
      if id !in entries {
        return Err(Unknown);
      }
      if !entries[id].state.Pending? {
        return Err(Unavailable);
      }
      var leaseId := nextLease;
      nextLease := NextLeaseId(nextLease);
      entries := entries[id := entries[id].(state := Claimed(Lease(leaseId, session, later + duration)))];
      r := Ok(Leased(leaseId, Millis(duration)));
    }

    method Resolve(session: nat, id: string, leaseId: nat, decision: Decision,
                   message: Option<string>, now: nat)
      returns (r: Result<Reply, BrokerError>)
      modifies this
      ensures (Model(), r)
           == Apply(old(Model()), Step(Call.Resolve(session, id, leaseId, decision, message), now, now))
    {
      Reclaim(now);
      if message.Some? && |message.value| > MAX_MESSAGE {
        return Err(Invalid("resolution message is too long"));
      }
      if id !in entries {
        return Err(Unknown);
      }
      match entries[id].state
      case Claimed(lease) =>
        if lease.owner == session && lease.id == leaseId {
          entries := entries[id := entries[id].(state := Resolved(decision, message))];
          return Ok(Done);
        }
        return Err(WrongLease);
      case _ => return Err(WrongLease);
    }

    method Renew(session: nat, id: string, leaseId: nat, duration: nat, now: nat, later: nat)
      returns (r: Result<Reply, BrokerError>)
      modifies this
      ensures (Model(), r)
           == Apply(old(Model()), Step(Call.Renew(session, id, leaseId, duration), now, later))
    {
      Reclaim(now);
      if session !in frontends {
        return Err(Unavailable);
      }
      if duration == 0 || duration > MAX_LEASE {
        return Err(Invalid("invalid lease duration"));
      }
      if id !in entries {
        return Err(Unknown);
      }
      match entries[id].state
      case Claimed(lease) =>
        if lease.owner == session && lease.id == leaseId {
          entries := entries[id := entries[id].(state := Claimed(lease.(expires := later + duration)))];
          return Ok(Extended(Millis(duration)));
        }
        return Err(WrongLease);
      case _ => return Err(WrongLease);
    }

    method Cancel(id: string, now: nat) returns (r: Result<Reply, BrokerError>)
      modifies this
      ensures (Model(), r) == Apply(old(Model()), Step(Call.Cancel(id), now, now))
    {
      Reclaim(now);
      if id !in entries {
        return Err(Unknown);
      }
      entries := entries[id := entries[id].(state := Cancelled)];
      r := Ok(Done);
    }
  }
}
