/** One deployment across the secret root and the public-info root, and the
    recovery of an interrupted one. A root is what its pointers and generations
    say; the contents of a generation are the batches deployed into it. */
module JointDeploy {
  import opened Prelude

  type Id = string
  type Batch = string
  type Contents = seq<Batch>

  datatype Root = Root(current: Option<Id>, generations: map<Id, Contents>, pending: set<Id>)

  datatype Pair = Pair(secrets: Root, public: Root)

  function View(r: Root): Contents {
    if r.current.Some? && r.current.value in r.generations then r.generations[r.current.value] else []
  }

  // ---- Steps on one root ----------------------------------------------------

  function Publish(r: Root, id: Id, b: Batch): Root {
    r.(generations := r.generations[id := View(r) + [b]])
  }

  function Point(r: Root, id: Id): Root {
    r.(pending := r.pending + {id})
  }

  function Switch(r: Root, id: Id): Root {
    r.(current := Some(id), pending := r.pending - {id})
  }

  function Unpoint(r: Root, id: Id): Root {
    r.(pending := r.pending - {id})
  }

  function Discard(r: Root, id: Id): Root {
    if r.current == Some(id) then r else r.(generations := r.generations - {id})
  }

  function Prune(r: Root, drop: set<Id>): Root {
    r.(generations := r.generations - (drop - (if r.current.Some? then {r.current.value} else {})))
  }

  /** States of the loop over the pending pointers, in the order of `read_dir`:
      all but the committed one are discarded. */
  function Discards(r: Root, committed: Option<Id>, order: seq<Id>): seq<Root>
    decreases |order|
  {
    if order == [] then []
    else if committed == Some(order[0]) then Discards(r, committed, order[1..])
    else
      var a := Unpoint(r, order[0]);
      var b := Discard(a, order[0]);
      [a, b] + Discards(b, committed, order[1..])
  }

  function LastOf(r: Root, states: seq<Root>): Root {
    if states == [] then r else states[|states| - 1]
  }

  /** `recover_pending`: every state it goes through. */
  function Recovery(r: Root, committed: Option<Id>, order: seq<Id>): seq<Root> {
    var states := Discards(r, committed, order);
    if committed.Some? && committed.value in order then states + [Switch(LastOf(r, states), committed.value)]
    else states
  }

  // ---- Operations on the pair -----------------------------------------------

  datatype Op =
    | Together(secretsBatch: Option<Batch>, publicBatch: Option<Batch>, id: Id,
               secretsOrder: seq<Id>, publicOrder: seq<Id>, drop: set<Id>)
    | PublicAlone(publicBatch: Option<Batch>, id: Id, publicOrder: seq<Id>, drop: set<Id>)
    | RecoverBoth(secretsOrder: seq<Id>, publicOrder: seq<Id>)
    | RecoverPublic(publicOrder: seq<Id>)

  /** A state, and whether the operation has committed in it. */
  type Moment = (Pair, bool)

  function Secrets(p: Pair, states: seq<Root>, committed: bool): (r: seq<Moment>)
    ensures |r| == |states| && forall i :: 0 <= i < |r| ==> r[i] == (p.(secrets := states[i]), committed)
  {
    seq(|states|, i requires 0 <= i < |states| => (p.(secrets := states[i]), committed))
  }

  function Public(p: Pair, states: seq<Root>, committed: bool): (r: seq<Moment>)
    ensures |r| == |states| && forall i :: 0 <= i < |r| ==> r[i] == (p.(public := states[i]), committed)
  {
    seq(|states|, i requires 0 <= i < |states| => (p.(public := states[i]), committed))
  }

  function Ending(p: Pair, t: seq<Moment>): Pair {
    if t == [] then p else t[|t| - 1].0
  }

  function RecoverSecretsRoot(p: Pair, order: seq<Id>): seq<Moment> {
    Secrets(p, Recovery(p.secrets, None, order), false)
  }

  function RecoverPublicRoot(p: Pair, order: seq<Id>): seq<Moment> {
    Public(p, Recovery(p.public, p.secrets.current, order), false)
  }

  function RecoverPair(p: Pair, secretsOrder: seq<Id>, publicOrder: seq<Id>): seq<Moment> {
    var s := RecoverSecretsRoot(p, secretsOrder);
    s + RecoverPublicRoot(Ending(p, s), publicOrder)
  }

  function Prepared(r: Root, id: Id, b: Option<Batch>): Root {
    if b.Some? then Point(Publish(r, id, b.value), id) else r
  }

  function Preparing(r: Root, id: Id, b: Option<Batch>): seq<Root> {
    if b.Some? then [Publish(r, id, b.value), Prepared(r, id, b)] else []
  }

  /** The publication part of `together`, from two recovered roots. The switch
      of the secret root commits; without secrets, that of the public root. */
  function PublishPair(p: Pair, sb: Option<Batch>, pb: Option<Batch>, id: Id, drop: set<Id>): seq<Moment> {
    var p1 := p.(public := Prepared(p.public, id, pb));
    var p2 := p1.(secrets := Prepared(p1.secrets, id, sb));
    var p3 := if sb.Some? then p2.(secrets := Switch(p2.secrets, id)) else p2;
    var p4 := if pb.Some? then p3.(public := Switch(p3.public, id)) else p3;
    var p5 := if sb.Some? then p4.(secrets := Prune(p4.secrets, drop)) else p4;
    var p6 := if pb.Some? then p5.(public := Prune(p5.public, drop)) else p5;
    Public(p, Preparing(p.public, id, pb), false)
    + Secrets(p1, Preparing(p1.secrets, id, sb), false)
    + (if sb.Some? then [(p3, true)] else [])
    + (if pb.Some? then [(p4, true)] else [])
    + [(p5, true), (p6, true)]
  }

  /** Every state an operation goes through; a crash stops it in any of them. */
  function Trace(p: Pair, op: Op): seq<Moment> {
    [(p, false)] +
    match op
    case RecoverBoth(so, po) => RecoverPair(p, so, po)
    case RecoverPublic(po) => RecoverPublicRoot(p, po)
    case Together(sb, pb, id, so, po, drop) =>
      var r := RecoverPair(p, so, po);
      r + (if sb.None? && pb.None? then [] else PublishPair(Ending(p, r), sb, pb, id, drop))
    case PublicAlone(pb, id, po, drop) =>
      var r := RecoverPublicRoot(p, po);
      r + (if pb.None? then [] else PublishPair(Ending(p, r), None, pb, id, drop))
  }

  predicate Fresh(p: Pair, id: Id) {
    id !in p.secrets.generations && id !in p.public.generations
    && id !in p.secrets.pending && id !in p.public.pending
    && p.secrets.current != Some(id) && p.public.current != Some(id)
  }

  /** Pointer lists as `read_dir` gives them, and an unused generation id. */
  ghost predicate Possible(p: Pair, op: Op) {
    match op
    case RecoverBoth(so, po) => SetOf(so) == p.secrets.pending && SetOf(po) == p.public.pending
    case RecoverPublic(po) => SetOf(po) == p.public.pending
    case Together(_, _, id, so, po, _) =>
      SetOf(so) == p.secrets.pending && SetOf(po) == p.public.pending && Fresh(p, id)
    case PublicAlone(_, id, po, _) => SetOf(po) == p.public.pending && Fresh(p, id)
  }

  // ---- What every step keeps ------------------------------------------------

  /** The committed batches of both roots. */
  datatype Log = Log(secrets: Contents, public: Contents)

  function Append(c: Contents, b: Option<Batch>): Contents {
    if b.Some? then c + [b.value] else c
  }

  function Extended(log: Log, op: Op): Log {
    match op
    case Together(sb, pb, _, _, _, _) => Log(Append(log.secrets, sb), Append(log.public, pb))
    case PublicAlone(pb, _, _, _) => log.(public := Append(log.public, pb))
    case _ => log
  }

  ghost predicate RootOk(r: Root) {
    r.current.Some? ==> r.current.value in r.generations
  }

  /** The secret root shows the log. The public root shows it too, or lags by
      a generation that is complete and named by the pending pointer that
      recovery will make current. */
  ghost predicate Consistent(p: Pair, log: Log) {
    && RootOk(p.secrets) && RootOk(p.public)
    && View(p.secrets) == log.secrets
    && if p.secrets.current.Some? && p.secrets.current.value in p.public.pending then
         p.secrets.current.value in p.public.generations
         && p.public.generations[p.secrets.current.value] == log.public
       else View(p.public) == log.public
  }

  ghost predicate Settled(p: Pair, log: Log) {
    Consistent(p, log) && View(p.public) == log.public && p.secrets.pending == {} && p.public.pending == {}
  }

  ghost predicate AllConsistent(t: seq<Moment>, before: Log, after: Log) {
    forall m :: m in t ==> Consistent(m.0, if m.1 then after else before)
  }

  lemma {:induction false} DiscardsSecrets(p: Pair, order: seq<Id>, log: Log)
    requires Consistent(p, log)
    ensures var states := Discards(p.secrets, None, order);
      (forall r :: r in states ==> Consistent(p.(secrets := r), log))
      && LastOf(p.secrets, states).pending == p.secrets.pending - SetOf(order)
      && LastOf(p.secrets, states).current == p.secrets.current
      && LastOf(p.secrets, states).generations.Keys <= p.secrets.generations.Keys
    decreases |order|
  {
    if order != [] {
      var a := Unpoint(p.secrets, order[0]);
      var b := Discard(a, order[0]);
      assert SetOf(order) == {order[0]} + SetOf(order[1..]);
      DiscardsSecrets(p.(secrets := b), order[1..], log);
    }
  }

  lemma {:induction false} DiscardsPublic(p: Pair, order: seq<Id>, log: Log)
    requires Consistent(p, log)
    ensures var states := Discards(p.public, p.secrets.current, order);
      (forall r :: r in states ==> Consistent(p.(public := r), log))
      && LastOf(p.public, states).current == p.public.current
      && LastOf(p.public, states).generations.Keys <= p.public.generations.Keys
      && LastOf(p.public, states).pending == p.public.pending - (SetOf(order) -
           if p.secrets.current.Some? then {p.secrets.current.value} else {})
    decreases |order|
  {
    if order != [] {
      assert SetOf(order) == {order[0]} + SetOf(order[1..]);
      if p.secrets.current == Some(order[0]) {
        DiscardsPublic(p, order[1..], log);
      } else {
        var a := Unpoint(p.public, order[0]);
        var b := Discard(a, order[0]);
        assert Consistent(p.(public := a), log) && Consistent(p.(public := b), log);
        DiscardsPublic(p.(public := b), order[1..], log);
      }
    }
  }

  lemma RecoverSecretsOk(p: Pair, order: seq<Id>, log: Log)
    requires Consistent(p, log) && SetOf(order) == p.secrets.pending
    ensures var t := RecoverSecretsRoot(p, order); var e := Ending(p, t);
      AllConsistent(t, log, log) && (forall m :: m in t ==> !m.1) && Consistent(e, log)
      && e.secrets.pending == {} && e.public == p.public && e.secrets.current == p.secrets.current
      && e.secrets.generations.Keys <= p.secrets.generations.Keys
  {
    DiscardsSecrets(p, order, log);
  }

  lemma RecoverPublicOk(p: Pair, order: seq<Id>, log: Log)
    requires Consistent(p, log) && SetOf(order) == p.public.pending
    ensures var t := RecoverPublicRoot(p, order); var e := Ending(p, t);
      AllConsistent(t, log, log) && (forall m :: m in t ==> !m.1) && Consistent(e, log) && View(e.public) == log.public
      && e.public.pending == {} && e.secrets == p.secrets
      && e.public.generations.Keys <= p.public.generations.Keys
      && (e.public.current == p.public.current || e.public.current == p.secrets.current)
  {
    DiscardsPublic(p, order, log);
    var states := Discards(p.public, p.secrets.current, order);
    var last := LastOf(p.public, states);
    assert Consistent(p.(public := last), log);
    if p.secrets.current.Some? && p.secrets.current.value in order {
      var id := p.secrets.current.value;
      assert id in SetOf(order);
      var r := Switch(last, id);
      assert Recovery(p.public, p.secrets.current, order) == states + [r];
      assert Consistent(p.(public := r), log);
    }
  }

  lemma RecoverPairOk(p: Pair, so: seq<Id>, po: seq<Id>, log: Log)
    requires Consistent(p, log) && SetOf(so) == p.secrets.pending && SetOf(po) == p.public.pending
    ensures var t := RecoverPair(p, so, po); var e := Ending(p, t);
      AllConsistent(t, log, log) && (forall m :: m in t ==> !m.1) && Settled(e, log)
      && e.secrets.generations.Keys <= p.secrets.generations.Keys
      && e.public.generations.Keys <= p.public.generations.Keys
      && e.secrets.current == p.secrets.current
      && (e.public.current == p.public.current || e.public.current == p.secrets.current)
  {
    RecoverSecretsOk(p, so, log);
    var s := RecoverSecretsRoot(p, so);
    var q := Ending(p, s);
    RecoverPublicOk(q, po, log);
    var u := RecoverPublicRoot(q, po);
    assert Ending(p, s + u) == Ending(q, u);
  }

  /** Between two switches the log already holds the whole deployment: the
      secret root shows it, and the pending pointer names the rest. */
  lemma PublishPairOk(p: Pair, sb: Option<Batch>, pb: Option<Batch>, id: Id, drop: set<Id>, log: Log)
    requires Consistent(p, log) && View(p.public) == log.public && p.public.pending == {}
    requires Fresh(p, id) && (sb.Some? || pb.Some?)
    ensures AllConsistent(PublishPair(p, sb, pb, id, drop), log,
                          Log(Append(log.secrets, sb), Append(log.public, pb)))
  {
    var after := Log(Append(log.secrets, sb), Append(log.public, pb));
    var p1 := p.(public := Prepared(p.public, id, pb));
    var p2 := p1.(secrets := Prepared(p1.secrets, id, sb));
    var p3 := if sb.Some? then p2.(secrets := Switch(p2.secrets, id)) else p2;
    var p4 := if pb.Some? then p3.(public := Switch(p3.public, id)) else p3;
    PreparingPublicOk(p, pb, id, log);
    PreparingSecretsOk(p1, sb, id, log);
    SwitchesOk(p, sb, pb, id, log);
    PruneOk(p4, sb.Some?, pb.Some?, drop, after);
    hide Consistent, Prepared, Preparing, Prune, Switch, Public, Secrets;
    var t1 := Public(p, Preparing(p.public, id, pb), false);
    var t2 := Secrets(p1, Preparing(p1.secrets, id, sb), false);
    assert AllConsistent(t1 + t2, log, after);
  }

  lemma SwitchesOk(p: Pair, sb: Option<Batch>, pb: Option<Batch>, id: Id, log: Log)
    requires Consistent(p, log) && View(p.public) == log.public && p.public.pending == {}
    requires Fresh(p, id) && (sb.Some? || pb.Some?)
    ensures var after := Log(Append(log.secrets, sb), Append(log.public, pb));
      var p2 := Pair(Prepared(p.secrets, id, sb), Prepared(p.public, id, pb));
      var p3 := if sb.Some? then p2.(secrets := Switch(p2.secrets, id)) else p2;
      var p4 := if pb.Some? then p3.(public := Switch(p3.public, id)) else p3;
      (sb.Some? ==> Consistent(p3, after)) && Consistent(p4, after)
      && View(p4.public) == after.public && p4.public.pending == {}
  {
    assert View(Prepared(p.secrets, id, sb)) == View(p.secrets);
    assert View(Prepared(p.public, id, pb)) == View(p.public);
  }

  lemma PreparingPublicOk(p: Pair, pb: Option<Batch>, id: Id, log: Log)
    requires Consistent(p, log) && Fresh(p, id)
    ensures AllConsistent(Public(p, Preparing(p.public, id, pb), false), log, log)
    ensures Consistent(p.(public := Prepared(p.public, id, pb)), log)
  {
    if pb.Some? {
      var a := p.(public := Publish(p.public, id, pb.value));
      assert View(a.public) == View(p.public);
      assert Consistent(a, log);
      assert View(Prepared(p.public, id, pb)) == View(p.public);
    }
  }

  lemma PreparingSecretsOk(p: Pair, sb: Option<Batch>, id: Id, log: Log)
    requires Consistent(p, log) && id !in p.secrets.generations && p.secrets.current != Some(id)
    ensures AllConsistent(Secrets(p, Preparing(p.secrets, id, sb), false), log, log)
    ensures Consistent(p.(secrets := Prepared(p.secrets, id, sb)), log)
  {
    if sb.Some? {
      var a := p.(secrets := Publish(p.secrets, id, sb.value));
      assert View(a.secrets) == View(p.secrets);
      assert View(Prepared(p.secrets, id, sb)) == View(p.secrets);
    }
  }

  lemma PruneOk(p: Pair, s: bool, u: bool, drop: set<Id>, log: Log)
    requires Consistent(p, log) && (u ==> View(p.public) == log.public)
    requires u ==> p.public.pending == {}
    ensures var p5 := if s then p.(secrets := Prune(p.secrets, drop)) else p;
      var p6 := if u then p5.(public := Prune(p5.public, drop)) else p5;
      Consistent(p5, log) && Consistent(p6, log)
  {
  }

  /** In every state any operation goes through, both roots are consistent
      with the log before it, or from its commit on with the log after it. */
  lemma TraceOk(p: Pair, op: Op, log: Log)
    requires Consistent(p, log) && Possible(p, op)
    ensures AllConsistent(Trace(p, op), log, Extended(log, op))
  {
    hide Consistent, RecoverPair, RecoverPublicRoot, PublishPair;
    match op
    case RecoverBoth(so, po) => RecoverPairOk(p, so, po, log);
    case RecoverPublic(po) => RecoverPublicOk(p, po, log);
    case Together(sb, pb, id, so, po, drop) =>
      RecoverPairOk(p, so, po, log);
      if sb.Some? || pb.Some? {
        PublishPairOk(Ending(p, RecoverPair(p, so, po)), sb, pb, id, drop, log);
      }
    case PublicAlone(pb, id, po, drop) =>
      RecoverPublicOk(p, po, log);
      if pb.Some? {
        PublishPairOk(Ending(p, RecoverPublicRoot(p, po)), None, pb, id, drop, log);
        assert Extended(log, op) == Log(Append(log.secrets, None), Append(log.public, pb));
      }
  }

  // ---- Whole runs -------------------------------------------------------------

  /** One operation of a run and the moment of it at which it ended or crashed. */
  datatype Event = Event(op: Op, at: Moment)

  ghost predicate IsRun(p: Pair, events: seq<Event>)
    decreases |events|
  {
    events != [] ==>
      Possible(p, events[0].op) && events[0].at in Trace(p, events[0].op) && IsRun(events[0].at.0, events[1..])
  }

  function RunEnd(p: Pair, events: seq<Event>): Pair
    decreases |events|
  {
    if events == [] then p else RunEnd(events[0].at.0, events[1..])
  }

  /** Each operation adds all of its batches to the log, or none. */
  function RunLog(log: Log, events: seq<Event>): Log
    decreases |events|
  {
    if events == [] then log
    else RunLog(if events[0].at.1 then Extended(log, events[0].op) else log, events[1..])
  }

  lemma {:induction false} RunConsistent(p: Pair, events: seq<Event>, log: Log)
    requires Consistent(p, log) && IsRun(p, events)
    ensures Consistent(RunEnd(p, events), RunLog(log, events))
    decreases |events|
  {
    if events != [] {
      TraceOk(p, events[0].op, log);
      var log' := if events[0].at.1 then Extended(log, events[0].op) else log;
      RunConsistent(events[0].at.0, events[1..], log');
    }
  }

  const Empty := Pair(Root(None, map[], {}), Root(None, map[], {}))

  /** After any run of joint deployments, public-only deployments and
      recoveries, each crashed at any moment, one complete recovery leaves both
      roots with exactly the same committed deployments: each joint one in
      both roots or in neither. */
  lemma RecoveredTogether(events: seq<Event>, so: seq<Id>, po: seq<Id>)
    requires IsRun(Empty, events)
    requires Possible(RunEnd(Empty, events), RecoverBoth(so, po))
    ensures var p := RunEnd(Empty, events); var log := RunLog(Log([], []), events);
      var e := Ending(p, RecoverPair(p, so, po));
      View(e.secrets) == log.secrets && View(e.public) == log.public
      && e.secrets.pending == {} && e.public.pending == {}
  {
    RunConsistent(Empty, events, Log([], []));
    RecoverPairOk(RunEnd(Empty, events), so, po, RunLog(Log([], []), events));
  }

  // ---- What an operation that does not crash achieves -------------------------

  lemma PublishedPair(p: Pair, sb: Option<Batch>, pb: Option<Batch>, id: Id, drop: set<Id>, log: Log)
    requires Settled(p, log) && Fresh(p, id) && (sb.Some? || pb.Some?)
    ensures
      var t := PublishPair(p, sb, pb, id, drop);
      t != [] && t[|t| - 1].1
      && Settled(Ending(p, t), Log(Append(log.secrets, sb), Append(log.public, pb)))
  {
    PublishPairOk(p, sb, pb, id, drop, log);
    SwitchesOk(p, sb, pb, id, log);
    var t := PublishPair(p, sb, pb, id, drop);
    assert t[|t| - 1] in t;
  }

  lemma PrunedPair(p: Pair, sb: Option<Batch>, pb: Option<Batch>, id: Id, drop: set<Id>)
    ensures
      var e := Ending(p, PublishPair(p, sb, pb, id, drop));
      forall g :: g in drop && g != id ==>
        (sb.Some? ==> g !in e.secrets.generations) && (pb.Some? ==> g !in e.public.generations)
  {
  }

  /** A joint deployment that is not interrupted ends with both batches shown, each in
      its own root, all earlier ones still there, nothing pending, and the old
      generations pruned. */
  lemma TogetherCompletes(p: Pair, op: Op, log: Log)
    requires Consistent(p, log) && Possible(p, op) && op.Together?
    ensures
      var t := Trace(p, op);
      var e := t[|t| - 1];
      View(e.0.secrets) == Append(log.secrets, op.secretsBatch) && View(e.0.public) == Append(log.public, op.publicBatch)
      && e.0.secrets.pending == {} && e.0.public.pending == {}
      && (e.1 <==> op.secretsBatch.Some? || op.publicBatch.Some?)
      && forall g :: g in op.drop && g != op.id ==>
           (op.secretsBatch.Some? ==> g !in e.0.secrets.generations) && (op.publicBatch.Some? ==> g !in e.0.public.generations)
  {
    hide RecoverPair, PublishPair, Consistent;
    var r := RecoverPair(p, op.secretsOrder, op.publicOrder);
    RecoverPairOk(p, op.secretsOrder, op.publicOrder, log);
    SettledViews(Ending(p, r), log);
    if op.secretsBatch.Some? || op.publicBatch.Some? {
      var q := Ending(p, r);
      PublishedPair(q, op.secretsBatch, op.publicBatch, op.id, op.drop, log);
      PrunedPair(q, op.secretsBatch, op.publicBatch, op.id, op.drop);
      var t := PublishPair(q, op.secretsBatch, op.publicBatch, op.id, op.drop);
      SettledViews(Ending(q, t), Log(Append(log.secrets, op.secretsBatch), Append(log.public, op.publicBatch)));
    } else {
      assert forall m :: m in r ==> !m.1;
      if r != [] { assert r[|r| - 1] in r; }
    }
  }

  lemma SettledViews(p: Pair, log: Log)
    requires Settled(p, log)
    ensures View(p.secrets) == log.secrets && View(p.public) == log.public
    ensures p.secrets.pending == {} && p.public.pending == {}
  {
  }

  lemma {:induction false} DiscardsGone(r: Root, committed: Option<Id>, order: seq<Id>, id: Id)
    requires id in order && committed != Some(id) && r.current != Some(id)
    ensures id !in LastOf(r, Discards(r, committed, order)).generations
    decreases |order|
  {
    if committed == Some(order[0]) {
      DiscardsGone(r, committed, order[1..], id);
    } else {
      var b := Discard(Unpoint(r, order[0]), order[0]);
      assert b.current == r.current;
      if id in order[1..] {
        DiscardsGone(b, committed, order[1..], id);
      } else {
        StaysGone(b, committed, order[1..], id);
      }
    }
  }

  lemma {:induction false} StaysGone(r: Root, committed: Option<Id>, order: seq<Id>, id: Id)
    requires id !in r.generations
    ensures id !in LastOf(r, Discards(r, committed, order)).generations
    decreases |order|
  {
    if order != [] {
      if committed == Some(order[0]) {
        StaysGone(r, committed, order[1..], id);
      } else {
        StaysGone(Discard(Unpoint(r, order[0]), order[0]), committed, order[1..], id);
      }
    }
  }

  /** Recovery removes every generation that was prepared and not committed. */
  lemma RecoveryDiscards(r: Root, committed: Option<Id>, order: seq<Id>, id: Id)
    requires id in order && committed != Some(id) && r.current != Some(id)
    ensures id !in LastOf(r, Recovery(r, committed, order)).generations
  {
    DiscardsGone(r, committed, order, id);
  }

  // ---- Every crash point is there -------------------------------------------

  /** One file system step: on generations, or on pointers. */
  predicate AtomicRoot(r: Root, r': Root) {
    r.generations == r'.generations || (r.current == r'.current && r.pending == r'.pending)
  }

  /** One step in one of the two roots. */
  predicate Atomic(p: Pair, p': Pair) {
    (p.public == p'.public && AtomicRoot(p.secrets, p'.secrets))
    || (p.secrets == p'.secrets && AtomicRoot(p.public, p'.public))
  }

  predicate AtomicRootAt(r: Root, states: seq<Root>, i: nat)
    requires i < |states|
  {
    AtomicRoot(if i == 0 then r else states[i - 1], states[i])
  }

  predicate AtomicAt(p: Pair, t: seq<Moment>, i: nat)
    requires i < |t|
  {
    Atomic(if i == 0 then p else t[i - 1].0, t[i].0)
  }

  ghost predicate AtomicRoots(r: Root, states: seq<Root>) {
    forall i :: 0 <= i < |states| ==> AtomicRootAt(r, states, i)
  }

  ghost predicate AtomicSteps(p: Pair, t: seq<Moment>) {
    forall i :: 0 <= i < |t| ==> AtomicAt(p, t, i)
  }

  lemma AtomicConcat(p: Pair, a: seq<Moment>, b: seq<Moment>)
    requires AtomicSteps(p, a) && AtomicSteps(Ending(p, a), b)
    ensures AtomicSteps(p, a + b) && Ending(p, a + b) == Ending(Ending(p, a), b)
  {
    var t := a + b;
    forall i | 0 <= i < |t| ensures AtomicAt(p, t, i) {
      if i < |a| { assert AtomicAt(p, a, i); } else { assert AtomicAt(Ending(p, a), b, i - |a|); }
    }
  }

  lemma AtomicSides(p: Pair, states: seq<Root>, committed: bool)
    ensures AtomicRoots(p.secrets, states) ==> AtomicSteps(p, Secrets(p, states, committed))
    ensures AtomicRoots(p.public, states) ==> AtomicSteps(p, Public(p, states, committed))
  {
    forall i | 0 <= i < |states|
      ensures AtomicRootAt(p.secrets, states, i) ==> AtomicAt(p, Secrets(p, states, committed), i)
      ensures AtomicRootAt(p.public, states, i) ==> AtomicAt(p, Public(p, states, committed), i)
    {
    }
  }

  lemma {:induction false} AtomicDiscards(r: Root, committed: Option<Id>, order: seq<Id>)
    ensures AtomicRoots(r, Discards(r, committed, order))
    decreases |order|
  {
    if order != [] {
      if committed == Some(order[0]) {
        AtomicDiscards(r, committed, order[1..]);
      } else {
        var a := Unpoint(r, order[0]);
        var b := Discard(a, order[0]);
        var rest := Discards(b, committed, order[1..]);
        AtomicDiscards(b, committed, order[1..]);
        forall i | 0 <= i < |[a, b] + rest| ensures AtomicRootAt(r, [a, b] + rest, i) {
          if i >= 2 { assert AtomicRootAt(b, rest, i - 2); }
        }
      }
    }
  }

  lemma AtomicRecovery(r: Root, committed: Option<Id>, order: seq<Id>)
    ensures AtomicRoots(r, Recovery(r, committed, order))
  {
    AtomicDiscards(r, committed, order);
    var states, t := Discards(r, committed, order), Recovery(r, committed, order);
    forall i | 0 <= i < |t| ensures AtomicRootAt(r, t, i) {
      if i < |states| { assert AtomicRootAt(r, states, i); }
    }
  }

  lemma AtomicRecoverPair(p: Pair, secretsOrder: seq<Id>, publicOrder: seq<Id>)
    ensures AtomicSteps(p, RecoverPair(p, secretsOrder, publicOrder))
  {
    hide Recovery, AtomicRoots, AtomicSteps;
    var s := RecoverSecretsRoot(p, secretsOrder);
    var q := Ending(p, s);
    AtomicRecovery(p.secrets, None, secretsOrder);
    AtomicSides(p, Recovery(p.secrets, None, secretsOrder), false);
    AtomicRecovery(q.public, q.secrets.current, publicOrder);
    AtomicSides(q, Recovery(q.public, q.secrets.current, publicOrder), false);
    AtomicConcat(p, s, RecoverPublicRoot(q, publicOrder));
  }

  lemma AtomicPrepared(r: Root, id: Id, b: Option<Batch>)
    ensures AtomicRoots(r, Preparing(r, id, b)) && LastOf(r, Preparing(r, id, b)) == Prepared(r, id, b)
  {
  }

  lemma AtomicMoment(p: Pair, p': Pair, there: bool)
    requires Atomic(p, p') && (!there ==> p' == p)
    ensures var t: seq<Moment> := if there then [(p', true)] else []; AtomicSteps(p, t) && Ending(p, t) == p'
  {
  }

  lemma AtomicPublish(p: Pair, sb: Option<Batch>, pb: Option<Batch>, id: Id, drop: set<Id>)
    ensures AtomicSteps(p, PublishPair(p, sb, pb, id, drop))
  {
    hide AtomicSteps, AtomicRoots;
    var p1 := p.(public := Prepared(p.public, id, pb));
    var p2 := p1.(secrets := Prepared(p1.secrets, id, sb));
    var p3 := if sb.Some? then p2.(secrets := Switch(p2.secrets, id)) else p2;
    var p4 := if pb.Some? then p3.(public := Switch(p3.public, id)) else p3;
    var p5 := if sb.Some? then p4.(secrets := Prune(p4.secrets, drop)) else p4;
    var p6 := if pb.Some? then p5.(public := Prune(p5.public, drop)) else p5;
    var a, b := Public(p, Preparing(p.public, id, pb), false), Secrets(p1, Preparing(p1.secrets, id, sb), false);
    AtomicPrepared(p.public, id, pb);
    AtomicSides(p, Preparing(p.public, id, pb), false);
    AtomicPrepared(p1.secrets, id, sb);
    AtomicSides(p1, Preparing(p1.secrets, id, sb), false);
    AtomicConcat(p, a, b);
    var c: seq<Moment>, d: seq<Moment> := if sb.Some? then [(p3, true)] else [], if pb.Some? then [(p4, true)] else [];
    AtomicMoment(p2, p3, sb.Some?);
    AtomicConcat(p, a + b, c);
    AtomicMoment(p3, p4, pb.Some?);
    AtomicConcat(p, a + b + c, d);
    AtomicMoment(p4, p5, true);
    AtomicConcat(p, a + b + c + d, [(p5, true)]);
    AtomicMoment(p5, p6, true);
    AtomicConcat(p, a + b + c + d + [(p5, true)], [(p6, true)]);
    assert a + b + c + d + [(p5, true)] + [(p6, true)] == a + b + c + d + [(p5, true), (p6, true)];
  }

  /** A trace leaves no state out: it starts where the operation does, and two states next
      to each other are one step on the generations or the pointers of one root apart. */
  lemma TraceIsAtomic(p: Pair, op: Op)
    ensures AtomicSteps(p, Trace(p, op)) && Trace(p, op)[0] == (p, false)
  {
    hide AtomicSteps, PublishPair, RecoverPair, Recovery, AtomicRoots;
    var start: seq<Moment> := [(p, false)];
    assert AtomicSteps(p, start) by { AtomicStart(p); }
    match op
    case RecoverBoth(so, po) =>
      AtomicRecoverPair(p, so, po);
      AtomicConcat(p, start, RecoverPair(p, so, po));
    case RecoverPublic(po) =>
      AtomicRecoverPublic(p, po);
      AtomicConcat(p, start, RecoverPublicRoot(p, po));
    case Together(sb, pb, id, so, po, drop) =>
      var r := RecoverPair(p, so, po);
      AtomicRecoverPair(p, so, po);
      AtomicConcat(p, start, r);
      AtomicPublish(Ending(p, r), sb, pb, id, drop);
      if sb.Some? || pb.Some? {
        var t := PublishPair(Ending(p, r), sb, pb, id, drop);
        AtomicConcat(p, start + r, t);
        assert start + r + t == start + (r + t);
      } else {
        assert r + [] == r;
      }
    case PublicAlone(pb, id, po, drop) =>
      var r := RecoverPublicRoot(p, po);
      AtomicRecoverPublic(p, po);
      AtomicConcat(p, start, r);
      AtomicPublish(Ending(p, r), None, pb, id, drop);
      if pb.Some? {
        var t := PublishPair(Ending(p, r), None, pb, id, drop);
        AtomicConcat(p, start + r, t);
        assert start + r + t == start + (r + t);
      } else {
        assert r + [] == r;
      }
  }

  lemma AtomicStart(p: Pair)
    ensures AtomicSteps(p, [(p, false)])
  {
  }

  lemma AtomicRecoverPublic(p: Pair, order: seq<Id>)
    ensures AtomicSteps(p, RecoverPublicRoot(p, order))
  {
    hide Recovery, AtomicRoots, AtomicSteps;
    AtomicRecovery(p.public, p.secrets.current, order);
    AtomicSides(p, Recovery(p.public, p.secrets.current, order), false);
  }

  // ---- A deployment into the secret root alone --------------------------------

  /** Recovers and deploys into the secret root only. */
  function SecretsAlone(p: Pair, b: Batch, id: Id, order: seq<Id>): Pair {
    var q := Ending(p, RecoverSecretsRoot(p, order));
    q.(secrets := Switch(Prepared(q.secrets, id, Some(b)), id))
  }

  /** The committed generation is still pending in the public root. */
  predicate Lags(p: Pair) {
    p.secrets.current.Some? && p.secrets.current.value in p.public.pending
  }

  /** Every pending generation of a root is one batch ahead of what it shows. */
  ghost predicate Ahead(r: Root) {
    forall id :: id in r.pending ==> id in r.generations && |r.generations[id]| == |View(r)| + 1
  }

  lemma {:induction false} DiscardsAhead(r: Root, committed: Option<Id>, order: seq<Id>)
    requires Ahead(r)
    ensures forall x :: x in Discards(r, committed, order) ==> Ahead(x)
    decreases |order|
  {
    if order != [] {
      if committed == Some(order[0]) {
        DiscardsAhead(r, committed, order[1..]);
      } else {
        var a := Unpoint(r, order[0]);
        var b := Discard(a, order[0]);
        assert View(a) == View(r) && View(b) == View(a);
        DiscardsAhead(b, committed, order[1..]);
      }
    }
  }

  lemma RecoverAhead(p: Pair, order: seq<Id>, log: Log)
    requires Consistent(p, log) && SetOf(order) == p.public.pending && Ahead(p.public)
    ensures forall m :: m in RecoverPublicRoot(p, order) ==> Ahead(m.0.public)
  {
    DiscardsAhead(p.public, p.secrets.current, order);
    DiscardsPublic(p, order, log);
    var states := Discards(p.public, p.secrets.current, order);
    forall x | x in Recovery(p.public, p.secrets.current, order) ensures Ahead(x) {
      assert x in states || x.pending == {};
    }
  }

  lemma PublishAhead(p: Pair, sb: Option<Batch>, pb: Option<Batch>, id: Id, drop: set<Id>)
    requires p.public.pending == {} && Fresh(p, id)
    ensures forall m :: m in PublishPair(p, sb, pb, id, drop) ==> Ahead(m.0.public)
  {
    PreparedAhead(p.public, id, pb, drop);
    hide Ahead, Prepared, Preparing, Prune, Switch;
    var p1 := p.(public := Prepared(p.public, id, pb));
    var t1 := Public(p, Preparing(p.public, id, pb), false);
    var t2 := Secrets(p1, Preparing(p1.secrets, id, sb), false);
    assert forall m :: m in t1 ==> m.0.public in Preparing(p.public, id, pb);
    assert forall m :: m in t2 ==> m.0.public == p1.public;
    var p2 := p1.(secrets := Prepared(p1.secrets, id, sb));
    var p3 := if sb.Some? then p2.(secrets := Switch(p2.secrets, id)) else p2;
    var p4 := if pb.Some? then p3.(public := Switch(p3.public, id)) else p3;
    var p5 := if sb.Some? then p4.(secrets := Prune(p4.secrets, drop)) else p4;
    var p6 := if pb.Some? then p5.(public := Prune(p5.public, drop)) else p5;
    assert Ahead(p3.public) && Ahead(p4.public) && Ahead(p5.public) && Ahead(p6.public);
    hide Public, Secrets;
    forall m | m in PublishPair(p, sb, pb, id, drop) ensures Ahead(m.0.public) {
      assert m in t1 || m in t2 || m.0 in [p3, p4, p5, p6];
    }
  }

  lemma PreparedAhead(r: Root, id: Id, b: Option<Batch>, drop: set<Id>)
    requires r.pending == {} && id !in r.generations && r.current != Some(id)
    ensures Ahead(Prepared(r, id, b)) && forall x :: x in Preparing(r, id, b) ==> Ahead(x)
    ensures Ahead(Switch(Prepared(r, id, b), id)) && Ahead(Prune(Switch(Prepared(r, id, b), id), drop))
  {
    assert View(Prepared(r, id, b)) == View(r);
  }

  lemma TraceAhead(p: Pair, op: Op, log: Log)
    requires Consistent(p, log) && Possible(p, op) && Ahead(p.public)
    ensures forall m :: m in Trace(p, op) ==> Ahead(m.0.public)
  {
    hide Consistent, RecoverPublicRoot, PublishPair, Ahead;
    match op
    case RecoverBoth(so, po) => RecoverPairAhead(p, so, po, log);
    case RecoverPublic(po) => RecoverAhead(p, po, log);
    case Together(sb, pb, id, so, po, drop) =>
      RecoverPairAhead(p, so, po, log);
      RecoverPairOk(p, so, po, log);
      PublishAhead(Ending(p, RecoverPair(p, so, po)), sb, pb, id, drop);
    case PublicAlone(pb, id, po, drop) =>
      RecoverAhead(p, po, log);
      RecoverPublicOk(p, po, log);
      PublishAhead(Ending(p, RecoverPublicRoot(p, po)), None, pb, id, drop);
  }

  lemma RecoverPairAhead(p: Pair, so: seq<Id>, po: seq<Id>, log: Log)
    requires Consistent(p, log) && Ahead(p.public) && SetOf(so) == p.secrets.pending && SetOf(po) == p.public.pending
    ensures forall m :: m in RecoverPair(p, so, po) ==> Ahead(m.0.public)
  {
    hide Consistent, RecoverPublicRoot, Ahead;
    RecoverSecretsOk(p, so, log);
    var s := RecoverSecretsRoot(p, so);
    assert forall m :: m in s ==> m.0.public == p.public;
    RecoverAhead(Ending(p, s), po, log);
  }

  lemma {:induction false} RunAhead(p: Pair, events: seq<Event>, log: Log)
    requires Consistent(p, log) && IsRun(p, events) && Ahead(p.public)
    ensures Ahead(RunEnd(p, events).public)
    decreases |events|
  {
    hide Consistent, Ahead, Trace;
    if events != [] {
      TraceOk(p, events[0].op, log);
      TraceAhead(p, events[0].op, log);
      RunAhead(events[0].at.0, events[1..], if events[0].at.1 then Extended(log, events[0].op) else log);
    }
  }

  lemma SecretsAloneState(p: Pair, b: Batch, id: Id, order: seq<Id>, log: Log)
    requires Consistent(p, log) && SetOf(order) == p.secrets.pending && Fresh(p, id)
    ensures
      var q := SecretsAlone(p, b, id, order);
      q.public == p.public && q.secrets.pending == {} && Consistent(q, Log(log.secrets + [b], View(p.public)))
  {
    RecoverSecretsOk(p, order, log);
    var q := Ending(p, RecoverSecretsRoot(p, order));
    var r := Prepared(q.secrets, id, Some(b));
    assert r.generations[id] == View(q.secrets) + [b];
  }

  /** After any run, a deployment into the secret root alone and a complete recovery
      show all that was committed exactly when the public root did not lag: then
      the pointer that would have finished the earlier deployment still named the
      committed generation. */
  lemma SecretsAloneExactly(events: seq<Event>, b: Batch, id: Id, order: seq<Id>, po: seq<Id>)
    requires IsRun(Empty, events)
    requires SetOf(order) == RunEnd(Empty, events).secrets.pending && Fresh(RunEnd(Empty, events), id)
    requires SetOf(po) == RunEnd(Empty, events).public.pending
    ensures
      var p, log := RunEnd(Empty, events), RunLog(Log([], []), events);
      var q := SecretsAlone(p, b, id, order);
      var e := Ending(q, RecoverPair(q, [], po));
      View(e.secrets) == log.secrets + [b] && (View(e.public) == log.public <==> !Lags(p))
  {
    hide RecoverPair, SecretsAlone, IsRun, RunEnd, RunLog;
    var p, log := RunEnd(Empty, events), RunLog(Log([], []), events);
    RunConsistent(Empty, events, Log([], []));
    RunAhead(Empty, events, Log([], []));
    SecretsAloneState(p, b, id, order, log);
    var q := SecretsAlone(p, b, id, order);
    assert SetOf<Id>([]) == {};
    RecoverPairOk(q, [], po, Log(log.secrets + [b], View(p.public)));
  }

  /** A run of one joint deployment that crashes between its two switches. */
  const LAGGING := Pair(Root(Some("1"), map["1" := ["x"]], {}), Root(None, map["1" := ["y"]], {"1"}))

  lemma LaggingIsReachable()
    ensures IsRun(Empty, [Event(Together(Some("x"), Some("y"), "1", [], [], {}), (LAGGING, true))])
  {
    var op := Together(Some("x"), Some("y"), "1", [], [], {});
    assert RecoverPair(Empty, [], []) == [];
    var t := PublishPair(Empty, Some("x"), Some("y"), "1", {});
    var p2 := Pair(Prepared(Empty.secrets, "1", Some("x")), Prepared(Empty.public, "1", Some("y")));
    assert View(Empty.secrets) + ["x"] == ["x"] && View(Empty.public) + ["y"] == ["y"];
    var p3 := p2.(secrets := Switch(p2.secrets, "1"));
    assert p3.secrets.generations == map["1" := ["x"]] && p3.secrets.pending == {};
    assert p3.public.generations == map["1" := ["y"]] && p3.public.pending == {"1"};
    assert p3 == LAGGING;
    assert (p3, true) in t;
    assert (LAGGING, true) in Trace(Empty, op);
    assert SetOf<string>([]) == {};
    var e := Event(op, (LAGGING, true));
    assert [e][1..] == [];
    assert IsRun(LAGGING, [e][1..]);
  }

  /** From there, a deployment into the secret root alone makes recovery throw
      the public half of the first deployment away. */
  lemma SecretsAloneLoses()
    ensures Lags(LAGGING)
    ensures var p := SecretsAlone(LAGGING, "z", "2", []);
      View(p.secrets) == ["x", "z"] && View(Ending(p, RecoverPublicRoot(p, ["1"])).public) == []
  {
    var p := SecretsAlone(LAGGING, "z", "2", []);
    assert RecoverSecretsRoot(LAGGING, []) == [];
    assert p.secrets.current == Some("2") && "2"[0] != "1"[0];
    assert ["1"][1..] == [];
    var u := Discard(Unpoint(p.public, "1"), "1");
    assert Discards(p.public, Some("2"), ["1"]) == [Unpoint(p.public, "1"), u] + Discards(u, Some("2"), []);
  }
}
