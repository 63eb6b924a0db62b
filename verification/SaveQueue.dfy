/** The save queue between the user interface and the backend worker: two
    threads and two FIFO channels. The UI keeps a draft of every value it hands
    over until it learns what became of it. */
module SaveQueue {
  import opened Prelude

  const MAX_SECRET_SIZE: nat := 16 * 1024 * 1024
  const MAX_PENDING: nat := 8
  const STOPPED := "backend worker stopped"
  const RETAINED := "backend worker stopped; this submitted value was retained for retry"

  datatype Command = Write(path: string, value: Bytes) | Other(kind: string)

  datatype Completion =
    | Failed(message: string)
    | SaveFailed(path: string, value: Bytes, message: string)
    | BulkProgress
    | Finished(what: string)

  /** What travels back. `serial` is the number of the command a completion
      answers; the program neither sends nor reads it. */
  datatype Event =
    | WorkerStopped
    | Completed(result: Completion, serial: nat)
    | Problem(message: string)
    | Notice

  type Draft = Option<(string, Bytes)>

  /** The fields of `AsyncWriter` that save handling uses. */
  datatype Ui = Ui(busy: bool, pending: seq<string>, drafts: seq<Draft>, completions: seq<Completion>)

  function DraftOf(c: Command): Draft {
    if c.Write? then Some((c.path, c.value)) else None
  }

  /** What an open command is listed as: the path of a write, or its kind. */
  function LabelOf(c: Command): string {
    match c
    case Write(path, _) => path
    case Other(kind) => kind
  }

  // ---- The UI's operations, on values ---------------------------------------

  function Refusal(u: Ui, c: Command): Option<string> {
    match c
    case Write(_, value) =>
      if |value| > MAX_SECRET_SIZE then Some("value exceeds the maximum secret size")
      else if |u.pending| >= MAX_PENDING then
        Some("save queue is full; keep this value and retry after a save completes")
      else None
    case Other(_) => if u.busy then Some("another operation is still running") else None
  }

  function Queued(u: Ui, c: Command): Ui {
    u.(busy := true, pending := u.pending + [if c.Write? then c.path else c.kind],
       drafts := u.drafts + [DraftOf(c)])
  }

  function Tail<T>(s: seq<T>): seq<T> {
    if s == [] then [] else s[1..]
  }

  /** The result as the UI reports it: a failed save gets its own draft. */
  function Reported(u: Ui, result: Completion): Completion {
    if u.drafts != [] && u.drafts[0].Some? && result.Failed?
    then SaveFailed(u.drafts[0].value.0, u.drafts[0].value.1, result.message)
    else result
  }

  function Answered(u: Ui, result: Completion): Ui {
    Ui(Tail(u.pending) != [], Tail(u.pending), Tail(u.drafts), u.completions + [Reported(u, result)])
  }

  function Rescue(draft: Draft): seq<Completion> {
    if draft.Some? then [SaveFailed(draft.value.0, draft.value.1, RETAINED)] else []
  }

  function Rescued(drafts: seq<Draft>): seq<Completion> {
    if drafts == [] then [] else Rescue(drafts[0]) + Rescued(drafts[1..])
  }

  function Stopped(u: Ui): Ui {
    var saved := Rescued(u.drafts);
    Ui(false, [], [], u.completions + saved + if u.busy && saved == [] then [Failed(STOPPED)] else [])
  }

  /** One event of `pump`. */
  function Received(u: Ui, e: Event): Ui {
    match e
    case WorkerStopped => Stopped(u)
    case Completed(result, _) =>
      if result.BulkProgress? then u.(completions := u.completions + [result]) else Answered(u, result)
    case Problem(message) => u.(completions := u.completions + [Failed(message)])
    case Notice => u
  }

  function ReceivedAll(u: Ui, events: seq<Event>): Ui
    decreases |events|
  {
    if events == [] then u else ReceivedAll(Received(u, events[0]), events[1..])
  }

  // ---- Both threads -----------------------------------------------------------

  /** Between `Stopping` and `Gone` the worker has announced its end, but its
      end of the command channel still exists. */
  datatype Worker = Idle | Running(serial: nat) | Stopping | Gone

  datatype Report = Report(serial: nat, completion: Completion)

  /** Commands are numbered in the order in which they were accepted. `answers`
      records what the worker answered to which command, `reports` which completion
      was reported for which command. */
  datatype System = System(
    ui: Ui, commands: seq<nat>, events: seq<Event>, worker: Worker, senders: bool,
    accepted: seq<Command>, answers: map<nat, Completion>, reports: seq<Report>)

  datatype Step =
    | Submit(command: Command)
    | Receive
    | Take
    | Say(event: Event)
    | Complete(result: Completion)
    | Die
    | DropCommands
    | DropSenders

  const Start := System(Ui(false, [], [], []), [], [], Idle, true, [], map[], [])

  function FirstOpen(s: System): int {
    |s.accepted| - |s.ui.drafts|
  }

  function DraftReport(draft: Draft, serial: nat): seq<Report> {
    if draft.Some? then [Report(serial, SaveFailed(draft.value.0, draft.value.1, RETAINED))] else []
  }

  function DraftReports(drafts: seq<Draft>, first: nat): seq<Report> {
    if drafts == [] then [] else DraftReport(drafts[0], first) + DraftReports(drafts[1..], first + 1)
  }

  function NewReports(s: System, e: Event): seq<Report> {
    if FirstOpen(s) < 0 then []
    else match e
      case WorkerStopped => DraftReports(s.ui.drafts, FirstOpen(s))
      case Completed(result, serial) =>
        if result.BulkProgress? then [] else [Report(serial, Reported(s.ui, result))]
      case _ => []
  }

  function Handle(s: System, e: Event, rest: seq<Event>): System {
    s.(ui := Received(s.ui, e), events := rest, reports := s.reports + NewReports(s, e))
  }

  /** A worker that reports a failed save itself hands back the write it got. */
  predicate OwnFailure(s: System, serial: nat, result: Completion) {
    result.SaveFailed? ==> serial < |s.accepted| && s.accepted[serial] == Write(result.path, result.value)
  }

  /** A step that is not possible changes nothing. A worker that dies says so;
      a UI that finds no event and no sender left treats that as a stop. */
  function Apply(s: System, step: Step): System {
    match step
    case Submit(c) =>
      if Refusal(s.ui, c).Some? || s.worker.Gone? then s
      else s.(ui := Queued(s.ui, c), commands := s.commands + [|s.accepted|], accepted := s.accepted + [c])
    case Receive =>
      if s.events != [] then Handle(s, s.events[0], s.events[1..])
      else if !s.senders then Handle(s, WorkerStopped, [])
      else s
    case Take =>
      if s.worker.Idle? && s.commands != [] then s.(worker := Running(s.commands[0]), commands := s.commands[1..])
      else s
    case Say(e) =>
      if s.senders && (e.Problem? || e.Notice? || (e.Completed? && e.result.BulkProgress? && s.worker.Running?))
      then s.(events := s.events + [e]) else s
    case Complete(result) =>
      if s.worker.Running? && !result.BulkProgress? && OwnFailure(s, s.worker.serial, result)
      then s.(worker := Idle, events := s.events + [Completed(result, s.worker.serial)],
              answers := s.answers[s.worker.serial := result]) else s
    case Die =>
      if s.worker.Idle? || s.worker.Running?
      then s.(worker := Stopping, events := s.events + [WorkerStopped]) else s
    case DropCommands => if s.worker.Stopping? then s.(worker := Gone, commands := []) else s
    case DropSenders => if s.worker.Gone? then s.(senders := false) else s
  }

  function Run(s: System, steps: seq<Step>): System
    decreases |steps|
  {
    if steps == [] then s else Run(Apply(s, steps[0]), steps[1..])
  }

  // ---- What every interleaving keeps ----------------------------------------

  function Range(from: int, to: int): (r: seq<int>)
    ensures |r| == if from < to then to - from else 0
    ensures forall i :: 0 <= i < |r| ==> r[i] == from + i
  {
    seq(if from < to then to - from else 0, i requires 0 <= i => from + i)
  }

  /** The numbers of the commands that queued events answer, in order. */
  function Serials(events: seq<Event>): seq<int> {
    if events == [] then []
    else (if events[0].Completed? && !events[0].result.BulkProgress? then [events[0].serial] else [])
         + Serials(events[1..])
  }

  function InHand(w: Worker): seq<int> {
    if w.Running? then [w.serial] else []
  }

  predicate Alive(w: Worker) {
    w.Idle? || w.Running?
  }

  function AsInts(s: seq<nat>): (r: seq<int>)
    ensures |r| == |s| && forall i :: 0 <= i < |s| ==> r[i] == s[i]
  {
    seq(|s|, i requires 0 <= i < |s| => s[i])
  }

  /** The lists of the UI stay in step with each other and with the commands. */
  ghost predicate UiInv(s: System) {
    && |s.ui.pending| == |s.ui.drafts| <= |s.accepted|
    && |s.ui.pending| <= MAX_PENDING
    && (s.ui.busy <==> s.ui.pending != [])
    && (forall i :: 0 <= i < |s.ui.drafts| ==> s.ui.drafts[i] == DraftOf(s.accepted[FirstOpen(s) + i]))
    && forall i :: 0 <= i < |s.ui.pending| ==> s.ui.pending[i] == LabelOf(s.accepted[FirstOpen(s) + i])
  }

  /** Open commands are, in order: answered in the event queue, in the worker's
      hands, in the command queue. A dead worker's later ones are lost. */
  ghost predicate ChannelInv(s: System) {
    var open := Range(FirstOpen(s), |s.accepted|);
    if Alive(s.worker) then
      WorkerStopped !in s.events && s.senders
      && Serials(s.events) + InHand(s.worker) + AsInts(s.commands) == open
    else
      Serials(s.events) <= open
      && (WorkerStopped !in s.events ==> Serials(s.events) == [])
      && forall i, j :: 0 <= i < j < |s.events| && s.events[i].WorkerStopped? ==>
           !(s.events[j].Completed? && !s.events[j].result.BulkProgress?)
  }

  function AnswerTo(answers: map<nat, Completion>, n: int): Option<Completion> {
    if n >= 0 && n in answers then Some(answers[n]) else None
  }

  /** What is reported for a command: the worker's own answer, except that a failed
      write comes with its path and bytes; a write the worker never answered comes
      with them too, retained. */
  ghost predicate ReportFits(c: Command, answer: Option<Completion>, r: Completion) {
    match answer
    case None => c.Write? && r == SaveFailed(c.path, c.value, RETAINED)
    case Some(Failed(message)) => if c.Write? then r == SaveFailed(c.path, c.value, message) else r == Failed(message)
    case Some(other) => r == other
  }

  /** Exactly the closed writes have been reported, each once and in order. */
  ghost predicate ReportInv(s: System) {
    Covers(s.accepted, s.answers, s.reports, 0, FirstOpen(s))
  }

  /** Queued answers are the recorded ones, and every recorded answer to an open
      command is still queued. */
  ghost predicate AnswerInv(s: System) {
    && (forall i :: 0 <= i < |s.events| && s.events[i].Completed? && !s.events[i].result.BulkProgress? ==>
          AnswerTo(s.answers, s.events[i].serial) == Some(s.events[i].result))
    && (forall n :: n in s.answers ==> n < FirstOpen(s) || n in Serials(s.events))
  }

  ghost predicate Inv(s: System) {
    UiInv(s) && ChannelInv(s) && ReportInv(s) && AnswerInv(s)
  }

  lemma {:induction false} SerialsSnoc(events: seq<Event>, e: Event)
    ensures Serials(events + [e]) == Serials(events) + Serials([e])
  {
    if events == [] {
      assert events + [e] == [e];
    } else {
      assert (events + [e])[1..] == events[1..] + [e];
      SerialsSnoc(events[1..], e);
    }
  }

  lemma {:induction false} SerialsNone(events: seq<Event>)
    requires forall j :: 0 <= j < |events| ==> !(events[j].Completed? && !events[j].result.BulkProgress?)
    ensures Serials(events) == []
  {
    if events != [] {
      SerialsNone(events[1..]);
    }
  }

  lemma SubmitUi(s: System, c: Command)
    requires UiInv(s)
    ensures UiInv(Apply(s, Submit(c))) && FirstOpen(Apply(s, Submit(c))) == FirstOpen(s)
  {
    var s', n := Apply(s, Submit(c)), FirstOpen(s);
    if s' != s {
      forall i | 0 <= i < |s'.ui.drafts|
        ensures s'.ui.drafts[i] == DraftOf(s'.accepted[n + i]) && s'.ui.pending[i] == LabelOf(s'.accepted[n + i])
      {
        if i < |s.ui.drafts| {
          assert s.ui.drafts[i] == DraftOf(s.accepted[n + i]) && s.ui.pending[i] == LabelOf(s.accepted[n + i]);
        }
      }
    }
  }

  lemma SubmitChannel(s: System, c: Command)
    requires UiInv(s) && ChannelInv(s)
    ensures ChannelInv(Apply(s, Submit(c)))
  {
    hide Refusal;
    var s' := Apply(s, Submit(c));
    if s' != s {
      assert Range(FirstOpen(s), |s.accepted| + 1) == Range(FirstOpen(s), |s.accepted|) + [|s.accepted|];
      assert AsInts(s.commands + [|s.accepted|]) == AsInts(s.commands) + [|s.accepted|];
    }
  }

  lemma SubmitKeeps(s: System, c: Command)
    requires Inv(s)
    ensures Inv(Apply(s, Submit(c)))
  {
    hide Covers, UiInv, ChannelInv, AnswerInv, Refusal, Queued;
    var s' := Apply(s, Submit(c));
    SubmitUi(s, c);
    SubmitChannel(s, c);
    SameAnswers(s, s');
    if s' != s {
      CoversSame(s.accepted, s.answers, [c], s.answers, s.reports, FirstOpen(s));
    }
  }

  lemma SameUi(s: System, s': System)
    requires UiInv(s) && ReportInv(s)
    requires s'.ui == s.ui.(completions := s'.ui.completions) && s'.accepted == s.accepted && s'.reports == s.reports
    requires forall n :: 0 <= n < FirstOpen(s) ==> AnswerTo(s'.answers, n) == AnswerTo(s.answers, n)
    ensures UiInv(s') && ReportInv(s')
  {
    hide Covers, AnswerTo;
    CoversSame(s.accepted, s.answers, [], s'.answers, s.reports, FirstOpen(s));
    assert s.accepted + [] == s.accepted;
  }

  lemma TakeOne(answered: seq<int>, commands: seq<nat>)
    requires commands != []
    ensures answered + [] + AsInts(commands) == answered + [commands[0]] + AsInts(commands[1..])
  {
    assert AsInts(commands) == [commands[0]] + AsInts(commands[1..]);
  }

  lemma TakeChannel(s: System)
    requires ChannelInv(s)
    ensures ChannelInv(Apply(s, Take))
  {
    if s.worker.Idle? && s.commands != [] {
      TakeOne(Serials(s.events), s.commands);
    }
  }

  lemma SayChannel(s: System, e: Event)
    requires ChannelInv(s) && (e.Problem? || e.Notice? || (e.Completed? && e.result.BulkProgress?))
    ensures ChannelInv(s.(events := s.events + [e]))
  {
    SerialsSnoc(s.events, e);
    assert Serials([e]) == [];
    var events := s.events + [e];
    assert Serials(events) == Serials(s.events) && (WorkerStopped in events <==> WorkerStopped in s.events);
    if !Alive(s.worker) {
      forall i, j | 0 <= i < j < |events| && events[i].WorkerStopped?
        ensures !(events[j].Completed? && !events[j].result.BulkProgress?)
      {
        assert j < |s.events| ==> events[j] == s.events[j] && events[i] == s.events[i];
      }
    }
  }

  lemma CompleteChannel(s: System, result: Completion)
    requires ChannelInv(s) && s.worker.Running? && !result.BulkProgress?
    ensures ChannelInv(s.(worker := Idle, events := s.events + [Completed(result, s.worker.serial)]))
  {
    var e := Completed(result, s.worker.serial);
    SerialsSnoc(s.events, e);
    assert Serials([e]) == [s.worker.serial];
    assert Serials(s.events + [e]) + [] + AsInts(s.commands)
        == Serials(s.events) + [s.worker.serial] + AsInts(s.commands);
  }

  lemma DieChannel(s: System)
    requires ChannelInv(s) && Alive(s.worker)
    ensures ChannelInv(s.(worker := Stopping, events := s.events + [WorkerStopped]))
  {
    SerialsSnoc(s.events, WorkerStopped);
    assert Serials([WorkerStopped]) == [];
    assert WorkerStopped in s.events + [WorkerStopped];
    forall i | 0 <= i < |s.events| ensures !s.events[i].WorkerStopped? {
      assert s.events[i] in s.events;
    }
  }

  /** The command in the worker's hands is open. */
  lemma InHandOpen(s: System)
    requires UiInv(s) && ChannelInv(s) && s.worker.Running?
    ensures FirstOpen(s) <= s.worker.serial < |s.accepted|
  {
    var open := Range(FirstOpen(s), |s.accepted|);
    var k := |Serials(s.events)|;
    assert open[k] == (Serials(s.events) + InHand(s.worker) + AsInts(s.commands))[k] == s.worker.serial;
  }

  lemma EventAppended(s: System, e: Event, answers: map<nat, Completion>)
    requires AnswerInv(s)
    requires forall n :: n in s.answers ==> n in answers && answers[n] == s.answers[n]
    requires forall n :: n in answers && n !in s.answers ==> e.Completed? && !e.result.BulkProgress? && e.serial == n
    requires e.Completed? && !e.result.BulkProgress? ==> AnswerTo(answers, e.serial) == Some(e.result)
    ensures AnswerInv(s.(events := s.events + [e], answers := answers))
  {
    SerialsSnoc(s.events, e);
    var s' := s.(events := s.events + [e], answers := answers);
    forall n | n in answers ensures n < FirstOpen(s') || n in Serials(s'.events) {
      if n !in s.answers { assert Serials([e]) == [e.serial]; }
    }
  }

  /** The worker answers a command that has no answer yet. */
  lemma CompleteKeeps(s: System, result: Completion)
    requires Inv(s) && s.worker.Running? && !result.BulkProgress? && OwnFailure(s, s.worker.serial, result)
    ensures Inv(Apply(s, Complete(result)))
  {
    hide Covers, UiInv, ChannelInv, AnswerInv, OwnFailure;
    var n := s.worker.serial;
    var s' := Apply(s, Complete(result));
    InHandOpen(s);
    Unanswered(s);
    SameUi(s, s');
    CompleteChannel(s, result);
    SameChannel(s', s.(worker := Idle, events := s'.events));
    EventAppended(s, Completed(result, n), s'.answers);
    SameAnswers(s.(events := s'.events, answers := s'.answers), s');
  }

  lemma Unanswered(s: System)
    requires UiInv(s) && ChannelInv(s) && AnswerInv(s) && s.worker.Running?
    ensures s.worker.serial !in s.answers
  {
    InHandOpen(s);
    var n := s.worker.serial;
    var k := |Serials(s.events)|;
    var all := Serials(s.events) + InHand(s.worker) + AsInts(s.commands);
    assert all[k] == n;
    forall i | 0 <= i < k ensures Serials(s.events)[i] != n {
      assert all[i] == Serials(s.events)[i];
    }
  }

  lemma SameChannel(s: System, s': System)
    requires ChannelInv(s') && s.worker == s'.worker && s.events == s'.events && s.commands == s'.commands
    requires s.senders == s'.senders && s.accepted == s'.accepted && |s.ui.drafts| == |s'.ui.drafts|
    ensures ChannelInv(s)
  {
  }

  lemma SameAnswers(s: System, s': System)
    requires AnswerInv(s) && s'.answers == s.answers && s'.events == s.events && FirstOpen(s') == FirstOpen(s)
    ensures AnswerInv(s')
  {
  }

  lemma WorkerKeeps(s: System, step: Step)
    requires Inv(s) && !step.Submit? && !step.Receive?
    ensures Inv(Apply(s, step))
  {
    hide Covers, UiInv, ChannelInv, AnswerInv;
    var s' := Apply(s, step);
    if s' != s {
      match step
      case Take => {
        SameUi(s, s');
        TakeChannel(s);
        SameAnswers(s, s');
      }
      case Say(e) => {
        SameUi(s, s');
        SayChannel(s, e);
        EventAppended(s, e, s.answers);
      }
      case Complete(result) => CompleteKeeps(s, result);
      case Die => {
        SameUi(s, s');
        DieChannel(s);
        EventAppended(s, WorkerStopped, s.answers);
        SameAnswers(s.(events := s'.events), s');
      }
      case DropCommands => {
        SameUi(s, s');
        DeadChannel(s, s');
        SameAnswers(s, s');
      }
      case DropSenders => {
        SameUi(s, s');
        DeadChannel(s, s');
        SameAnswers(s, s');
      }
    }
  }

  lemma DeadChannel(s: System, s': System)
    requires ChannelInv(s) && !Alive(s.worker) && !Alive(s'.worker) && s'.events == s.events
    requires s'.accepted == s.accepted && s'.ui == s.ui
    ensures ChannelInv(s')
  {
  }

  /** An answer reaches the UI when its own command is the oldest open one. */
  lemma AnswerIsForOldest(s: System)
    requires UiInv(s) && ChannelInv(s) && s.events != []
    requires s.events[0].Completed? && !s.events[0].result.BulkProgress?
    ensures s.ui.drafts != [] && s.events[0].serial == FirstOpen(s)
  {
    var open := Range(FirstOpen(s), |s.accepted|);
    assert Serials(s.events)[0] == s.events[0].serial;
    assert Serials(s.events) <= open;
  }

  lemma ReceiveAnswerKeeps(s: System)
    requires Inv(s) && s.events != []
    requires s.events[0].Completed? && !s.events[0].result.BulkProgress?
    ensures Inv(Apply(s, Receive))
  {
    hide UiInv, ReportInv, ChannelInv, AnswerInv;
    AnswerIsForOldest(s);
    var s' := Apply(s, Receive);
    var n := FirstOpen(s);
    AnswerUi(s);
    assert Range(n, n + 1) == [n];
    assert Range(n, |s.accepted|) == [n] + Range(n + 1, |s.accepted|);
    assert Serials(s.events) == [n] + Serials(s.events[1..]);
    AnswerReported(s, s');
    TailChannel(s, s');
    AnswersAfter(s, s');
  }

  lemma AnswerUi(s: System)
    requires UiInv(s) && s.ui.drafts != [] && s.events != []
    requires s.events[0].Completed? && !s.events[0].result.BulkProgress?
    ensures UiInv(Apply(s, Receive)) && FirstOpen(Apply(s, Receive)) == FirstOpen(s) + 1 <= |s.accepted|
  {
    hide Reported;
    var s', n := Apply(s, Receive), FirstOpen(s);
    forall i | 0 <= i < |s'.ui.drafts| ensures s'.ui.drafts[i] == DraftOf(s.accepted[n + 1 + i]) {
      assert s.ui.drafts[i + 1] == DraftOf(s.accepted[n + (i + 1)]);
    }
    forall i | 0 <= i < |s'.ui.pending| ensures s'.ui.pending[i] == LabelOf(s.accepted[n + 1 + i]) {
      assert s.ui.pending[i + 1] == LabelOf(s.accepted[n + (i + 1)]);
    }
  }

  /** Handling the first event closes what it answers. */
  lemma AnswersAfter(s: System, s': System)
    requires AnswerInv(s) && s.events != [] && s'.events == s.events[1..] && s'.answers == s.answers
    requires FirstOpen(s) <= FirstOpen(s')
    requires s.events[0].Completed? && !s.events[0].result.BulkProgress? ==> s.events[0].serial < FirstOpen(s')
    ensures AnswerInv(s')
  {
    forall n | n in s.answers ensures n < FirstOpen(s') || n in Serials(s'.events) {
      if n >= FirstOpen(s') { assert n in Serials(s.events); }
    }
  }

  lemma TailChannel(s: System, s': System)
    requires ChannelInv(s) && s.events != [] && !s.events[0].WorkerStopped? && s'.events == s.events[1..]
    requires s'.worker == s.worker && s'.commands == s.commands && s'.senders == s.senders
    requires s'.accepted == s.accepted
    requires Serials(s.events) == Range(FirstOpen(s), FirstOpen(s')) + Serials(s'.events)
    requires Range(FirstOpen(s), |s.accepted|)
          == Range(FirstOpen(s), FirstOpen(s')) + Range(FirstOpen(s'), |s.accepted|)
    ensures ChannelInv(s')
  {
    var k := |Range(FirstOpen(s), FirstOpen(s'))|;
    if Alive(s.worker) {
      var all := Serials(s.events) + InHand(s.worker) + AsInts(s.commands);
      assert all[k..] == Serials(s'.events) + InHand(s.worker) + AsInts(s.commands);
    } else {
      assert Serials(s'.events) == Serials(s.events)[k..];
      if WorkerStopped in s.events {
        assert WorkerStopped in s'.events;
      }
    }
  }

  lemma AnswerReported(s: System, s': System)
    requires UiInv(s) && ReportInv(s) && AnswerInv(s) && s.ui.drafts != [] && s.events != []
    requires s.events[0].Completed? && !s.events[0].result.BulkProgress?
    requires s.events[0].serial == FirstOpen(s) && s' == Apply(s, Receive)
    ensures ReportInv(s')
  {
    hide Covers;
    var n := FirstOpen(s);
    var r := Report(n, Reported(s.ui, s.events[0].result));
    assert s'.reports == s.reports + [r] && s'.accepted == s.accepted;
    assert s.ui.drafts[0] == DraftOf(s.accepted[n + 0]);
    assert AnswerTo(s.answers, n) == Some(s.events[0].result);
    CoversOne(s.accepted, s.answers, n, [r]);
    CoversConcat(s.accepted, s.answers, s.reports, [r], 0, n, n + 1);
  }

  /** `r` reports exactly the writes from `first` up to `last`, each once, in
      order, as the worker answered them. */
  ghost predicate Covers(accepted: seq<Command>, answers: map<nat, Completion>, r: seq<Report>, first: int, last: int) {
    && 0 <= first <= last <= |accepted|
    && (forall i, j :: 0 <= i < j < |r| ==> r[i].serial < r[j].serial)
    && (forall i :: 0 <= i < |r| ==>
          first <= r[i].serial < last
          && ReportFits(accepted[r[i].serial], AnswerTo(answers, r[i].serial), r[i].completion))
    && forall n :: first <= n < last && accepted[n].Write? ==>
         exists i :: 0 <= i < |r| && r[i].serial == n
  }

  lemma CoversConcat(accepted: seq<Command>, answers: map<nat, Completion>, a: seq<Report>, b: seq<Report>,
                     x: int, y: int, z: int)
    requires Covers(accepted, answers, a, x, y) && Covers(accepted, answers, b, y, z)
    ensures Covers(accepted, answers, a + b, x, z)
  {
    hide ReportFits;
    var r := a + b;
    forall n | x <= n < z && accepted[n].Write? ensures exists i :: 0 <= i < |r| && r[i].serial == n {
      if n < y {
        var i :| 0 <= i < |a| && a[i].serial == n;
        assert r[i].serial == n;
      } else {
        var i :| 0 <= i < |b| && b[i].serial == n;
        assert r[|a| + i].serial == n;
      }
    }
  }

  lemma CoversOne(accepted: seq<Command>, answers: map<nat, Completion>, n: int, r: seq<Report>)
    requires 0 <= n < |accepted|
    requires r == [] ==> !accepted[n].Write?
    requires r != [] ==>
      |r| == 1 && r[0].serial == n && ReportFits(accepted[n], AnswerTo(answers, n), r[0].completion)
    ensures Covers(accepted, answers, r, n, n + 1)
  {
    hide ReportFits;
    if r != [] {
      assert r[0].serial == n;
    }
  }

  /** Later commands and their answers do not matter. */
  lemma CoversSame(accepted: seq<Command>, answers: map<nat, Completion>, more: seq<Command>,
                   answers': map<nat, Completion>, r: seq<Report>, last: int)
    requires Covers(accepted, answers, r, 0, last)
    requires forall n :: 0 <= n < last ==> AnswerTo(answers', n) == AnswerTo(answers, n)
    ensures Covers(accepted + more, answers', r, 0, last)
  {
    hide ReportFits, AnswerTo;
    assert forall n :: 0 <= n < last ==> (accepted + more)[n] == accepted[n];
  }

  ghost predicate DraftsOf(accepted: seq<Command>, drafts: seq<Draft>, first: nat) {
    first + |drafts| <= |accepted|
    && forall i :: 0 <= i < |drafts| ==> drafts[i] == DraftOf(accepted[first + i])
  }

  lemma DraftsTail(accepted: seq<Command>, drafts: seq<Draft>, first: nat)
    requires DraftsOf(accepted, drafts, first) && drafts != []
    ensures DraftsOf(accepted, drafts[1..], first + 1) && drafts[0] == DraftOf(accepted[first])
  {
    assert drafts[0] == DraftOf(accepted[first + 0]);
    forall i | 0 <= i < |drafts[1..]| ensures drafts[1..][i] == DraftOf(accepted[first + 1 + i]) {
      assert drafts[i + 1] == DraftOf(accepted[first + (i + 1)]);
    }
  }

  lemma DraftsWithin(accepted: seq<Command>, drafts: seq<Draft>, first: nat)
    requires DraftsOf(accepted, drafts, first) && drafts != []
    ensures first < |accepted|
  {
  }

  lemma DraftCovers(accepted: seq<Command>, answers: map<nat, Completion>, draft: Draft, first: nat)
    requires first < |accepted| && draft == DraftOf(accepted[first]) && AnswerTo(answers, first) == None
    ensures Covers(accepted, answers, DraftReport(draft, first), first, first + 1)
  {
    hide Covers;
    CoversOne(accepted, answers, first, DraftReport(draft, first));
  }

  /** Reporting the drafts reports each of their writes once, in order. */
  lemma {:induction false} DraftReportsCover(accepted: seq<Command>, answers: map<nat, Completion>, drafts: seq<Draft>, first: nat)
    requires DraftsOf(accepted, drafts, first)
    requires forall n :: first <= n < first + |drafts| ==> AnswerTo(answers, n) == None
    ensures Covers(accepted, answers, DraftReports(drafts, first), first, first + |drafts|)
    decreases |drafts|
  {
    hide Covers, DraftsOf, AnswerTo, DraftReport;
    if drafts == [] {
      NothingCovered(accepted, answers, drafts, first);
    } else {
      DraftsTail(accepted, drafts, first);
      DraftsWithin(accepted, drafts, first);
      DraftReportsCover(accepted, answers, drafts[1..], first + 1);
      DraftCovers(accepted, answers, drafts[0], first);
      CoversConcat(accepted, answers, DraftReport(drafts[0], first), DraftReports(drafts[1..], first + 1),
                   first, first + 1, first + |drafts|);
    }
  }

  lemma NothingCovered(accepted: seq<Command>, answers: map<nat, Completion>, drafts: seq<Draft>, first: nat)
    requires DraftsOf(accepted, drafts, first) && drafts == []
    ensures Covers(accepted, answers, [], first, first)
  {
  }

  lemma StopKeeps(s: System, rest: seq<Event>)
    requires Inv(s) && !Alive(s.worker)
    requires s.events == [WorkerStopped] + rest || (s.events == [] && rest == [])
    ensures Inv(Handle(s, WorkerStopped, rest))
  {
    hide UiInv, ReportInv, AnswerInv, ChannelInv, Handle;
    NothingQueued(s, rest);
    StopUi(s, rest);
    StopReports(s, rest);
    StopChannel(s, rest);
  }

  lemma StopUi(s: System, rest: seq<Event>)
    requires UiInv(s)
    ensures UiInv(Handle(s, WorkerStopped, rest)) && FirstOpen(Handle(s, WorkerStopped, rest)) == |s.accepted|
  {
    hide Rescued, DraftReports;
  }

  lemma StopReports(s: System, rest: seq<Event>)
    requires UiInv(s) && ReportInv(s) && forall n :: n >= FirstOpen(s) ==> AnswerTo(s.answers, n) == None
    ensures ReportInv(Handle(s, WorkerStopped, rest))
  {
    hide Covers, Rescued, DraftReports, AnswerTo;
    StopUi(s, rest);
    DraftReportsCover(s.accepted, s.answers, s.ui.drafts, FirstOpen(s));
    CoversConcat(s.accepted, s.answers, s.reports, DraftReports(s.ui.drafts, FirstOpen(s)),
                 0, FirstOpen(s), |s.accepted|);
  }

  /** When the UI learns of the stop, no answer to an open command is left. */
  lemma NothingQueued(s: System, rest: seq<Event>)
    requires UiInv(s) && ChannelInv(s) && AnswerInv(s) && !Alive(s.worker)
    requires s.events == [WorkerStopped] + rest || (s.events == [] && rest == [])
    ensures Serials(s.events) == [] && forall n :: n >= FirstOpen(s) ==> AnswerTo(s.answers, n) == None
    ensures AnswerInv(Handle(s, WorkerStopped, rest))
  {
    forall j | 0 <= j < |s.events| ensures !(s.events[j].Completed? && !s.events[j].result.BulkProgress?) {
      if j > 0 { assert s.events[0].WorkerStopped?; }
    }
    SerialsNone(s.events);
    SerialsNone(rest) by {
      forall j | 0 <= j < |rest| ensures !(rest[j].Completed? && !rest[j].result.BulkProgress?) {
        assert s.events[j + 1] == rest[j];
      }
    }
  }

  lemma StopChannel(s: System, rest: seq<Event>)
    requires ChannelInv(s) && !Alive(s.worker)
    requires s.events == [WorkerStopped] + rest || (s.events == [] && rest == [])
    ensures ChannelInv(Handle(s, WorkerStopped, rest))
  {
    forall j | 0 <= j < |rest| ensures !(rest[j].Completed? && !rest[j].result.BulkProgress?) {
      assert s.events[0].WorkerStopped? && s.events[j + 1] == rest[j];
    }
    SerialsNone(rest);
  }

  /** The worker answers accepted commands, and a failed save that it reports itself
      with the write it got. */
  ghost predicate AnswersOk(s: System) {
    forall n :: n in s.answers ==>
      n < |s.accepted| && !s.answers[n].BulkProgress? && OwnFailure(s, n, s.answers[n])
  }

  lemma AnswersKept(s: System, step: Step)
    requires UiInv(s) && ChannelInv(s) && AnswersOk(s)
    ensures AnswersOk(Apply(s, step))
  {
    hide UiInv, ChannelInv;
    if step.Complete? && s.worker.Running? { InHandOpen(s); }
  }

  lemma ReceiveOtherKeeps(s: System)
    requires Inv(s) && s.events != [] && !s.events[0].WorkerStopped?
    requires s.events[0].Completed? ==> s.events[0].result.BulkProgress?
    ensures Inv(Apply(s, Receive))
  {
    hide UiInv, ReportInv, ChannelInv, AnswerInv;
    var s' := Apply(s, Receive);
    assert s'.reports == s.reports + [] == s.reports;
    assert s'.ui == s.ui.(completions := s'.ui.completions) && FirstOpen(s') == FirstOpen(s);
    assert Serials(s.events) == Serials(s'.events) && Range(FirstOpen(s), FirstOpen(s)) == [];
    SameUi(s, s');
    AnswersAfter(s, s');
    TailChannel(s, s');
  }

  lemma ReceiveKeeps(s: System)
    requires Inv(s)
    ensures Inv(Apply(s, Receive))
  {
    hide UiInv, ReportInv, AnswerInv;
    if s.events == [] {
      if !s.senders {
        StopKeeps(s, []);
      }
    } else {
      var e, rest := s.events[0], s.events[1..];
      if e.WorkerStopped? {
        assert WorkerStopped in s.events;
        assert s.events == [e] + rest;
        StopKeeps(s, rest);
      } else if e.Completed? && !e.result.BulkProgress? {
        ReceiveAnswerKeeps(s);
      } else {
        ReceiveOtherKeeps(s);
      }
    }
  }

  lemma {:induction false} RunKeeps(s: System, steps: seq<Step>)
    requires Inv(s) && AnswersOk(s)
    ensures Inv(Run(s, steps)) && AnswersOk(Run(s, steps))
    decreases |steps|
  {
    if steps != [] {
      match steps[0] {
        case Submit(c) => SubmitKeeps(s, c);
        case Receive => ReceiveKeeps(s);
        case _ => WorkerKeeps(s, steps[0]);
      }
      AnswersKept(s, steps[0]);
      RunKeeps(Apply(s, steps[0]), steps[1..]);
    }
  }

  /** A report about a write is its success, or its failure with its path and bytes. */
  predicate OwnReport(c: Command, r: Completion) {
    c.Write? ==> !r.Failed? && !r.BulkProgress? && (r.SaveFailed? ==> r.path == c.path && r.value == c.value)
  }

  /** In every interleaving of the UI, the worker and its death: each accepted
      write is still held as a draft with its own path and bytes, or has been
      reported exactly once. The report is the worker's answer; a failed save, or
      one the worker never answered, reports that write's own path and bytes.
      Reports come in the order of submission. */
  lemma NoWriteIsLost(steps: seq<Step>, n: nat)
    requires n < |Run(Start, steps).accepted| && Run(Start, steps).accepted[n].Write?
    ensures var s := Run(Start, steps); var c := s.accepted[n]; var open := FirstOpen(s);
      && (n >= open ==>
            0 <= n - open < |s.ui.drafts| && s.ui.drafts[n - open] == Some((c.path, c.value))
            && forall i :: 0 <= i < |s.reports| ==> s.reports[i].serial != n)
      && (n < open ==>
            exists i ::
              0 <= i < |s.reports| && s.reports[i].serial == n
              && ReportFits(c, AnswerTo(s.answers, n), s.reports[i].completion)
              && OwnReport(c, s.reports[i].completion)
              && forall j :: 0 <= j < |s.reports| && j != i ==> s.reports[j].serial != n)
      && forall i, j :: 0 <= i < j < |s.reports| ==> s.reports[i].serial < s.reports[j].serial
  {
    hide Inv, AnswersOk, ReportFits, OwnReport, Run;
    StartInv();
    RunKeeps(Start, steps);
    var s := Run(Start, steps);
    ReportsOrdered(s);
    if n >= FirstOpen(s) { StillHeld(s, n); } else { ReportedOnce(s, n); }
  }

  lemma ReportsOrdered(s: System)
    requires Inv(s)
    ensures forall i, j :: 0 <= i < j < |s.reports| ==> s.reports[i].serial < s.reports[j].serial
    ensures forall i :: 0 <= i < |s.reports| ==> s.reports[i].serial < FirstOpen(s)
  {
    hide UiInv, ChannelInv, AnswerInv, ReportFits;
  }

  lemma StillHeld(s: System, n: nat)
    requires Inv(s) && FirstOpen(s) <= n < |s.accepted| && s.accepted[n].Write?
    ensures n - FirstOpen(s) < |s.ui.drafts|
    ensures s.ui.drafts[n - FirstOpen(s)] == Some((s.accepted[n].path, s.accepted[n].value))
  {
    hide ChannelInv, AnswerInv, Covers;
    var open := FirstOpen(s);
    assert s.ui.drafts[n - open] == DraftOf(s.accepted[open + (n - open)]);
  }

  lemma ReportedOnce(s: System, n: nat)
    requires Inv(s) && AnswersOk(s) && n < FirstOpen(s) && n < |s.accepted| && s.accepted[n].Write?
    ensures exists i ::
      0 <= i < |s.reports| && s.reports[i].serial == n
      && ReportFits(s.accepted[n], AnswerTo(s.answers, n), s.reports[i].completion)
      && OwnReport(s.accepted[n], s.reports[i].completion)
      && forall j :: 0 <= j < |s.reports| && j != i ==> s.reports[j].serial != n
  {
    hide UiInv, ChannelInv, AnswerInv;
    var i :| 0 <= i < |s.reports| && s.reports[i].serial == n;
    assert forall j :: 0 <= j < |s.reports| && j != i ==> s.reports[j].serial != n;
    FitsOwn(s, n, s.reports[i].completion);
  }

  lemma FitsOwn(s: System, n: nat, r: Completion)
    requires AnswersOk(s) && n < |s.accepted| && ReportFits(s.accepted[n], AnswerTo(s.answers, n), r)
    ensures OwnReport(s.accepted[n], r)
  {
  }

  lemma StartInv()
    ensures Inv(Start) && AnswersOk(Start)
  {
    assert Range(0, 0) == [];
  }

  // ---- Nothing stays open ---------------------------------------------------------

  function Receives(n: nat): (r: seq<Step>)
    ensures |r| == n && forall i :: 0 <= i < n ==> r[i] == Receive
  {
    seq(n, i => Receive)
  }

  lemma {:induction false} RunConcat(s: System, a: seq<Step>, b: seq<Step>)
    ensures Run(s, a + b) == Run(Run(s, a), b)
    decreases |a|
  {
    if a == [] {
      assert a + b == b;
    } else {
      assert (a + b)[1..] == a[1..] + b;
      RunConcat(Apply(s, a[0]), a[1..], b);
    }
  }

  /** Receiving empties the event queue, and then finds out about a worker that is gone. */
  lemma {:induction false} Drained(s: System)
    ensures
      var t := Run(s, Receives(|s.events| + 1));
      t.events == [] && t.accepted == s.accepted && t.answers == s.answers
      && t.worker == s.worker && t.commands == s.commands && t.senders == s.senders
      && (!s.senders ==> t.ui.drafts == [])
    decreases |s.events|
  {
    hide NewReports;
    var steps := Receives(|s.events| + 1);
    assert steps[1..] == Receives(|s.events|);
    var next := Apply(s, Receive);
    if s.events == [] {
      assert Run(next, steps[1..]) == next;
    } else {
      Drained(next);
    }
  }

  lemma NoneOpen(s: System)
    requires Inv(s) && s.events == []
    requires s.ui.drafts == [] || (s.worker.Idle? && s.commands == [])
    ensures FirstOpen(s) == |s.accepted|
  {
    hide ReportInv, AnswerInv;
    assert Serials([]) == [];
  }

  /** Once the worker has handled every command, or is gone, and the UI has received
      what is waiting, every accepted write has been reported. */
  lemma EveryWriteIsReported(steps: seq<Step>, n: nat)
    requires var s := Run(Start, steps);
      (!s.senders || (s.worker.Idle? && s.commands == [])) && n < |s.accepted| && s.accepted[n].Write?
    ensures
      var s := Run(Start, steps);
      var t := Run(s, Receives(|s.events| + 1));
      exists i ::
        0 <= i < |t.reports| && t.reports[i].serial == n
        && ReportFits(s.accepted[n], AnswerTo(s.answers, n), t.reports[i].completion)
  {
    hide Inv, Run, ReportFits;
    var s := Run(Start, steps);
    var all := steps + Receives(|s.events| + 1);
    RunConcat(Start, steps, Receives(|s.events| + 1));
    Drained(s);
    StartInv();
    RunKeeps(Start, all);
    NoneOpen(Run(Start, all));
    NoWriteIsLost(all, n);
  }

  /** A command is accepted exactly while the worker takes commands: a write of at most
      16 MiB with fewer than eight open commands, another one when nothing is open.
      It goes to the end of every queue; a command that is not accepted changes nothing. */
  lemma AcceptsExactly(steps: seq<Step>, c: Command)
    ensures
      var s := Run(Start, steps);
      var t := Apply(s, Submit(c));
      if !s.worker.Gone? && (if c.Write? then |c.value| <= 16 * 1024 * 1024 && |s.ui.pending| < 8 else s.ui.pending == [])
      then t.accepted == s.accepted + [c] && t.commands == s.commands + [|s.accepted|] && t.events == s.events
        && t.ui.drafts == s.ui.drafts + [if c.Write? then Some((c.path, c.value)) else None]
      else t == s
  {
    hide Inv, Run;
    QueueBounded(steps);
  }

  /** Busy exactly while something is pending, at most eight pending, and every pending
      command is listed under its own name and has its draft slot. */
  lemma QueueBounded(steps: seq<Step>)
    ensures
      var s := Run(Start, steps);
      (s.ui.busy <==> s.ui.pending != []) && |s.ui.pending| == |s.ui.drafts| <= 8 && |s.ui.pending| <= |s.accepted|
      && forall i :: 0 <= i < |s.ui.pending| ==>
           var c := s.accepted[|s.accepted| - |s.ui.pending| + i];
           s.ui.pending[i] == LabelOf(c) && (s.ui.drafts[i].Some? <==> c.Write?)
  {
    hide Inv, Run;
    StartInv();
    RunKeeps(Start, steps);
    Bounded(Run(Start, steps));
  }

  lemma Bounded(s: System)
    requires Inv(s)
    ensures (s.ui.busy <==> s.ui.pending != []) && |s.ui.pending| == |s.ui.drafts| <= 8 && |s.ui.pending| <= |s.accepted|
    ensures forall i :: 0 <= i < |s.ui.pending| ==>
      var c := s.accepted[|s.accepted| - |s.ui.pending| + i];
      s.ui.pending[i] == LabelOf(c) && (s.ui.drafts[i].Some? <==> c.Write?)
  {
    hide ChannelInv, ReportInv, AnswerInv;
    var n := FirstOpen(s);
    forall i | 0 <= i < |s.ui.pending|
      ensures s.ui.pending[i] == LabelOf(s.accepted[n + i]) && s.ui.drafts[i] == DraftOf(s.accepted[n + i])
    {
    }
  }

  function CompletionsOf(reports: seq<Report>): (r: seq<Completion>)
    ensures |r| == |reports| && forall i :: 0 <= i < |r| ==> r[i] == reports[i].completion
  {
    seq(|reports|, i requires 0 <= i < |reports| => reports[i].completion)
  }

  lemma {:induction false} RescuedAreReports(drafts: seq<Draft>, first: nat)
    ensures Rescued(drafts) == CompletionsOf(DraftReports(drafts, first))
    decreases |drafts|
  {
    if drafts != [] {
      RescuedAreReports(drafts[1..], first + 1);
      assert CompletionsOf(DraftReports(drafts, first))
          == CompletionsOf(DraftReport(drafts[0], first)) + CompletionsOf(DraftReports(drafts[1..], first + 1));
    }
  }

  /** What the UI hands out for an event: for an answer its report, for an end of the
      worker the report of every open write, or of the stop alone if only another
      command was open, for a problem its message, and for progress the progress. */
  lemma CompletionsExactly(s: System, e: Event)
    requires UiInv(s)
    ensures
      var added := Received(s.ui, e).completions;
      var reports := CompletionsOf(NewReports(s, e));
      match e
      case Completed(result, _) =>
        if result.BulkProgress? then added == s.ui.completions + [BulkProgress]
        else |reports| == 1 && added == s.ui.completions + reports
      case Problem(message) => added == s.ui.completions + [Failed(message)]
      case Notice => added == s.ui.completions
      case WorkerStopped =>
        var stopped := s.ui.pending != [] && forall i :: 0 <= i < |s.ui.drafts| ==> s.ui.drafts[i].None?;
        added == s.ui.completions + reports + (if stopped then [Failed(STOPPED)] else [])
  {
    hide Reported;
    if e.WorkerStopped? {
      RescuedAreReports(s.ui.drafts, FirstOpen(s));
      RescuedSome(s.ui.drafts);
    }
  }

  lemma {:induction false} RescuedSome(drafts: seq<Draft>)
    ensures Rescued(drafts) == [] <==> forall i :: 0 <= i < |drafts| ==> drafts[i].None?
    decreases |drafts|
  {
    if drafts != [] {
      RescuedSome(drafts[1..]);
      assert forall i :: 1 <= i < |drafts| ==> drafts[i] == drafts[1..][i - 1];
      if forall i :: 0 <= i < |drafts| ==> drafts[i].None? {
        assert forall i :: 0 <= i < |drafts[1..]| ==> drafts[1..][i] == drafts[i + 1];
      }
    }
  }

  /** The reports of one event are completions it adds, in that order. */
  lemma EventHandsOut(s: System, e: Event)
    requires UiInv(s)
    ensures s.ui.completions + CompletionsOf(NewReports(s, e)) <= Received(s.ui, e).completions
  {
    if e.WorkerStopped? {
      RescuedAreReports(s.ui.drafts, FirstOpen(s));
    }
  }

  /** `a` stands in `b` at the increasing positions `at`. */
  ghost predicate Embeds(a: seq<Completion>, b: seq<Completion>, at: seq<nat>) {
    |at| == |a|
    && (forall i, j :: 0 <= i < j < |at| ==> at[i] < at[j])
    && forall i :: 0 <= i < |at| ==> at[i] < |b| && b[at[i]] == a[i]
  }

  ghost predicate Subsequence(a: seq<Completion>, b: seq<Completion>) {
    exists at :: Embeds(a, b, at)
  }

  lemma SubsequenceExtends(a: seq<Completion>, b: seq<Completion>, more: seq<Completion>, b': seq<Completion>)
    requires Subsequence(a, b) && b + more <= b'
    ensures Subsequence(a + more, b')
  {
    var at :| Embeds(a, b, at);
    var at' := at + seq(|more|, i requires 0 <= i => |b| + i);
    forall i | 0 <= i < |at'| ensures at'[i] < |b'| && b'[at'[i]] == (a + more)[i] {
      if i < |a| {
        assert b'[at[i]] == b[at[i]];
      } else {
        assert b'[|b| + (i - |a|)] == (b + more)[|b| + (i - |a|)];
      }
    }
    assert Embeds(a + more, b', at');
  }

  lemma HandleHandsOut(s: System, e: Event, rest: seq<Event>)
    requires UiInv(s) && Subsequence(CompletionsOf(s.reports), s.ui.completions)
    ensures
      var s' := Handle(s, e, rest);
      Subsequence(CompletionsOf(s'.reports), s'.ui.completions)
  {
    hide Subsequence, NewReports, Received, UiInv;
    EventHandsOut(s, e);
    var added := NewReports(s, e);
    SubsequenceExtends(CompletionsOf(s.reports), s.ui.completions, CompletionsOf(added), Received(s.ui, e).completions);
    assert CompletionsOf(s.reports + added) == CompletionsOf(s.reports) + CompletionsOf(added);
  }

  lemma {:induction false} RunHandsOut(s: System, steps: seq<Step>)
    requires Inv(s) && AnswersOk(s) && Subsequence(CompletionsOf(s.reports), s.ui.completions)
    ensures
      var s' := Run(s, steps);
      Subsequence(CompletionsOf(s'.reports), s'.ui.completions)
    decreases |steps|
  {
    hide UiInv, ChannelInv, ReportInv, AnswersOk, Subsequence, Handle, Refusal;
    if steps != [] {
      var next := Apply(s, steps[0]);
      assert Inv(next) && AnswersOk(next) by {
        RunKeeps(s, [steps[0]]);
        assert [steps[0]][1..] == [];
        assert Run(s, [steps[0]]) == Run(next, []);
      }
      if steps[0].Receive? && (s.events != [] || !s.senders) {
        if s.events != [] { HandleHandsOut(s, s.events[0], s.events[1..]); } else { HandleHandsOut(s, WorkerStopped, []); }
      } else {
        assert next.reports == s.reports && next.ui.completions == s.ui.completions;
      }
      RunHandsOut(next, steps[1..]);
    }
  }

  /** In every interleaving the reports are completions the UI hands out, in the
      order in which it hands them out. */
  lemma ReportsAreHandedOut(steps: seq<Step>)
    ensures
      var s := Run(Start, steps);
      Subsequence(CompletionsOf(s.reports), s.ui.completions)
  {
    StartInv();
    assert Embeds(CompletionsOf(Start.reports), Start.ui.completions, []);
    RunHandsOut(Start, steps);
  }
}

/** The UI's side of the queue as the program runs it. */
module AsyncWriter {
  import opened Prelude
  import opened SaveQueue

  lemma {:induction false} ReceivedAllSnoc(u: Ui, events: seq<Event>, e: Event)
    ensures ReceivedAll(u, events + [e]) == Received(ReceivedAll(u, events), e)
    decreases |events|
  {
    if events == [] {
      assert [] + [e] == [e] && [e][1..] == [];
      assert ReceivedAll(Received(u, e), []) == Received(u, e);
    } else {
      assert (events + [e])[1..] == events[1..] + [e];
      ReceivedAllSnoc(Received(u, events[0]), events[1..], e);
    }
  }

  lemma {:induction false} RescuedSnoc(drafts: seq<Draft>, d: Draft)
    ensures Rescued(drafts + [d]) == Rescued(drafts) + Rescue(d)
    decreases |drafts|
  {
    if drafts == [] {
      assert [] + [d] == [d] && [d][1..] == [];
      assert Rescued([d]) == Rescue(d) + Rescued([]);
    } else {
      assert (drafts + [d])[1..] == drafts[1..] + [d];
      RescuedSnoc(drafts[1..], d);
      assert Rescued(drafts + [d]) == Rescue(drafts[0]) + Rescued(drafts[1..] + [d]);
    }
  }

  lemma {:induction false} RescuedNone(drafts: seq<Draft>)
    ensures Rescued(drafts) != [] <==> exists i :: 0 <= i < |drafts| && drafts[i].Some?
    decreases |drafts|
  {
    if drafts != [] {
      RescuedNone(drafts[1..]);
      if i :| 0 <= i < |drafts[1..]| && drafts[1..][i].Some? {
        assert drafts[i + 1].Some?;
      }
      if i :| 0 <= i < |drafts| && drafts[i].Some? {
        assert i == 0 || drafts[1..][i - 1].Some?;
      }
    }
  }

  lemma ReceivedNone(u: Ui, events: seq<Event>)
    ensures ReceivedAll(u, events[..0]) == u
  {
  }

  class AsyncWriter {
    var busy: bool
    var pending: seq<string>
    var drafts: seq<Draft>
    var completions: seq<Completion>
    /** Commands sent, and whether the worker's end still takes them. */
    var commands: seq<Command>
    var receiver: bool
    /** Events waiting, and whether anything may still send one. */
    var events: seq<Event>
    var senders: bool

    function Model(): Ui
      reads this
    {
      Ui(busy, pending, drafts, completions)
    }

    constructor ()
      ensures Model() == Start.ui && commands == [] && events == [] && receiver && senders
    {
      busy, pending, drafts, completions := false, [], [], [];
      commands, receiver, events, senders := [], true, [], true;
    }

    /** Accepts a value, or hands it back untouched with the reason. */
    method Write(path: string, value: Bytes) returns (r: Result<bool, (string, Bytes)>)
      modifies this
      ensures events == old(events) && receiver == old(receiver) && senders == old(senders)
      ensures r.Ok? <==> |value| <= MAX_SECRET_SIZE && |old(pending)| < MAX_PENDING && receiver
      ensures r.Ok? ==> busy && pending == old(pending) + [path] && drafts == old(drafts) + [Some((path, value))]
      ensures r.Ok? ==> Model() == Queued(old(Model()), Command.Write(path, value))
      ensures r.Ok? ==> commands == old(commands) + [Command.Write(path, value)]
      ensures r.Err? ==> Model() == old(Model()) && commands == old(commands) && r.error.1 == value
    {
      if |value| > MAX_SECRET_SIZE {
        return Err(("value exceeds the maximum secret size", value));
      }
      if |pending| >= MAX_PENDING {
        return Err(("save queue is full; keep this value and retry after a save completes", value));
      }
      var retained := value;
      if !receiver {
        return Err((STOPPED, value));
      }
      commands := commands + [Command.Write(path, value)];
      busy := true;
      pending := pending + [path];
      drafts := drafts + [Some((path, retained))];
      r := Ok(true);
    }

    method Queue(kind: string) returns (r: Result<bool, string>)
      modifies this
      ensures events == old(events) && receiver == old(receiver) && senders == old(senders)
      ensures r.Ok? <==> !old(busy) && receiver
      ensures r.Ok? ==> busy && pending == old(pending) + [kind] && drafts == old(drafts) + [None]
      ensures r.Ok? ==> Model() == Queued(old(Model()), Other(kind)) && commands == old(commands) + [Other(kind)]
      ensures r.Err? ==> Model() == old(Model()) && commands == old(commands)
    {
      if busy {
        return Err("another operation is still running");
      }
      if !receiver {
        return Err(STOPPED);
      }
      commands := commands + [Other(kind)];
      busy := true;
      pending := pending + [kind];
      drafts := drafts + [None];
      r := Ok(true);
    }

    method WorkerStopped()
      modifies this`busy, this`pending, this`drafts, this`completions
      ensures Model() == Stopped(old(Model()))
    {
      RescuedNone(drafts);
      var had := exists i :: 0 <= i < |drafts| && drafts[i].Some?;
      var i := 0;
      while i < |drafts|
        invariant 0 <= i <= |drafts| && drafts == old(drafts) && busy == old(busy)
        invariant completions == old(completions) + Rescued(drafts[..i])
      {
        RescuedSnoc(drafts[..i], drafts[i]);
        assert drafts[..i + 1] == drafts[..i] + [drafts[i]];
        if drafts[i].Some? {
          completions := completions + [SaveFailed(drafts[i].value.0, drafts[i].value.1, RETAINED)];
        }
        i := i + 1;
      }
      assert drafts[..|drafts|] == drafts;
      if busy && !had {
        completions := completions + [Failed(STOPPED)];
      }
      drafts, pending, busy := [], [], false;
    }

    /** Handles one completion: a failed save takes its own draft along. */
    method Complete(answer: Completion)
      modifies this`busy, this`pending, this`drafts, this`completions
      ensures Model() == Received(old(Model()), Completed(answer, 0))
    {
      var result := answer;
      if !result.BulkProgress? {
        pending := if pending == [] then [] else pending[1..];
        if drafts != [] {
          if drafts[0].Some? && result.Failed? {
            result := SaveFailed(drafts[0].value.0, drafts[0].value.1, result.message);
          }
          drafts := drafts[1..];
        }
        busy := pending != [];
      }
      completions := completions + [result];
    }

    /** Handles every waiting event, and then the end of the channel if nothing
        can send another one. */
    method Pump()
      modifies this
      ensures commands == old(commands) && receiver == old(receiver) && senders == old(senders) && events == []
      ensures var u := ReceivedAll(old(Model()), old(events)); Model() == if senders then u else Stopped(u)
    {
      hide ReceivedAll, Answered;
      ghost var n := 0;
      ReceivedNone(Model(), events);
      while events != []
        invariant commands == old(commands) && receiver == old(receiver) && senders == old(senders)
        invariant 0 <= n <= |old(events)| && events == old(events)[n..]
        invariant Model() == ReceivedAll(old(Model()), old(events)[..n])
        decreases |events|
      {
        var event := events[0];
        events := events[1..];
        ReceivedAllSnoc(old(Model()), old(events)[..n], event);
        assert old(events)[..n + 1] == old(events)[..n] + [event];
        n := n + 1;
        match event
        case WorkerStopped => WorkerStopped();
        case Completed(answer, _) =>
          Complete(answer);
        case Problem(message) => completions := completions + [Failed(message)];
        case Notice =>
      }
      assert old(events)[..n] == old(events);
      if !senders {
        WorkerStopped();
      }
    }
  }
}
