/**
 queryFastest (internal/resolver/iterative.go) as a system of steps: the calling goroutine, one
 goroutine for each admitted server, and the one that closes the channel. Any enabled step may
 be taken next, so a run is one interleaving.
 */
module FanOut {
  import opened Octets
  import opened Records

  /** What queryWithRetries returns: an error, neither error nor message, or a message. */
  datatype Result = Error | Blank | Success(message: Message)

  datatype Phase =
    | Waiting              // not reached by the loop
    | Refused              // its breaker was open
    | Running              // its goroutine is querying
    | Decided(r: Result)   // the query is over
    | Reported(r: Result)  // the breaker has been told
    | Delivered(r: Result) // the result is in the channel
    | Left(r: Result)      // wg.Done has run

  datatype Item = Item(server: nat, r: Result)

  datatype Final = NoServers | AllOpen | Answered(message: Message) | AllFailed

  datatype Main = Launching | Collecting | Returned(final: Final)

  datatype Closer = Idle | WaitingGroup | Closed

  /**
   `sent` is every item ever sent and `taken` how many were received, so the channel holds
   `sent[taken..]`; its capacity is the number of servers. `outcomes` is what each server's
   breaker was told, true for a success.
   */
  datatype System = System(main: Main, pos: nat, started: nat, phases: seq<Phase>, sent: seq<Item>, taken: nat, closer: Closer,
                           wg: int, outcomes: seq<seq<bool>>, events: seq<Item>)

  datatype Label = Admit | Refuse | Launched | Finish(i: nat, r: Result) | Report(i: nat) | Deliver(i: nat) | Leave(i: nat)
                 | Close | Receive | Drained

  function Start(n: nat): System {
    System(if n == 0 then Returned(NoServers) else Launching, 0, 0, seq(n, i => Waiting), [], 0, Idle, 0, seq(n, i => []), [])
  }

  predicate HasRoom(s: System) {
    |s.sent| - s.taken < |s.phases|
  }

  /** Whether the step can be taken; a send waits for room, and on a closed channel it would panic. */
  predicate Enabled(s: System, l: Label) {
    match l
    case Admit => s.main == Launching && s.pos < |s.phases|
    case Refuse => s.main == Launching && s.pos < |s.phases| && HasRoom(s) && s.closer != Closed
    case Launched => s.main == Launching && s.pos == |s.phases|
    case Finish(i, _) => i < |s.phases| && s.phases[i].Running?
    case Report(i) => i < |s.phases| && s.phases[i].Decided? && i < |s.outcomes|
    case Deliver(i) => i < |s.phases| && s.phases[i].Reported? && HasRoom(s) && s.closer != Closed
    case Leave(i) => i < |s.phases| && s.phases[i].Delivered?
    case Close => s.closer == WaitingGroup && s.wg == 0
    case Receive => s.main == Collecting && s.taken < |s.sent|
    case Drained => s.main == Collecting && s.taken == |s.sent| && s.closer == Closed
  }

  function Next(s: System, l: Label): System
    requires Enabled(s, l)
  {
    match l
    case Admit => s.(phases := s.phases[s.pos := Running], pos := s.pos + 1, started := s.started + 1, wg := s.wg + 1)
    case Refuse => s.(phases := s.phases[s.pos := Refused], pos := s.pos + 1, sent := s.sent + [Item(s.pos, Error)])
    case Launched => if s.started == 0 then s.(main := Returned(AllOpen)) else s.(main := Collecting, closer := WaitingGroup)
    case Finish(i, r) => s.(phases := s.phases[i := Decided(r)])
    case Report(i) =>
      s.(phases := s.phases[i := Reported(s.phases[i].r)],
         outcomes := s.outcomes[i := s.outcomes[i] + [s.phases[i].r != Error]])
    case Deliver(i) => s.(phases := s.phases[i := Delivered(s.phases[i].r)], sent := s.sent + [Item(i, s.phases[i].r)])
    case Leave(i) => s.(phases := s.phases[i := Left(s.phases[i].r)], wg := s.wg - 1)
    case Close => s.(closer := Closed)
    case Receive =>
      var item := s.sent[s.taken];
      s.(taken := s.taken + 1, events := s.events + [item],
         main := if item.r.Success? then Returned(Answered(item.r.message)) else s.main)
    case Drained => s.(main := Returned(AllFailed))
  }

  /** The system after an interleaving; nothing when some step of it was not enabled. */
  function Run(n: nat, labels: seq<Label>): Option<System> {
    if labels == [] then Some(Start(n))
    else
      var last := labels[|labels| - 1];
      match Run(n, labels[..|labels| - 1])
      case Some(s) => if Enabled(s, last) then Some(Next(s, last)) else None
      case None => None
  }

  // ---- the invariant ----

  predicate HasSent(p: Phase) {
    p.Refused? || p.Delivered? || p.Left?
  }

  /** A goroutine that has been added to the wait group and is not done. */
  predicate Working(p: Phase) {
    p.Running? || p.Decided? || p.Reported? || p.Delivered?
  }

  function ResultOf(p: Phase): Result {
    if p.Delivered? || p.Left? then p.r else Error
  }

  function Senders(phases: seq<Phase>): nat {
    if phases == [] then 0 else Senders(phases[1..]) + (if HasSent(phases[0]) then 1 else 0)
  }

  function Workers(phases: seq<Phase>): nat {
    if phases == [] then 0 else Workers(phases[1..]) + (if Working(phases[0]) then 1 else 0)
  }

  lemma {:induction false} CountUpdate(phases: seq<Phase>, i: nat, p: Phase)
    requires i < |phases|
    ensures Senders(phases[i := p])
            == Senders(phases) - (if HasSent(phases[i]) then 1 else 0) + (if HasSent(p) then 1 else 0)
    ensures Workers(phases[i := p])
            == Workers(phases) - (if Working(phases[i]) then 1 else 0) + (if Working(p) then 1 else 0)
  {
    var t := phases[i := p];
    if i == 0 {
      assert t[1..] == phases[1..];
    } else {
      assert t[1..] == phases[1..][i - 1 := p];
      CountUpdate(phases[1..], i - 1, p);
    }
  }

  lemma {:induction false} SomeNotSent(phases: seq<Phase>)
    ensures Senders(phases) <= |phases|
    ensures Senders(phases) < |phases| <==> exists i :: 0 <= i < |phases| && !HasSent(phases[i])
    ensures Workers(phases) == 0 <==> forall i :: 0 <= i < |phases| ==> !Working(phases[i])
  {
    if phases != [] {
      var rest := phases[1..];
      SomeNotSent(rest);
      assert forall i :: 1 <= i < |phases| ==> phases[i] == rest[i - 1];
      assert forall i :: 0 <= i < |rest| ==> rest[i] == phases[i + 1];
    }
  }

  /** Every item sent comes from a server that has sent, carries its result, and is that server's only one. */
  ghost predicate MailFrom(sent: seq<Item>, phases: seq<Phase>) {
    && (forall i, j :: 0 <= i < j < |sent| ==> sent[i].server != sent[j].server)
    && (forall k :: 0 <= k < |sent| ==>
          && sent[k].server < |phases| && HasSent(phases[sent[k].server])
          && sent[k].r == ResultOf(phases[sent[k].server]))
  }

  /** Every server that has sent has its item among those sent. */
  ghost predicate MailTo(sent: seq<Item>, phases: seq<Phase>) {
    forall i :: 0 <= i < |phases| && HasSent(phases[i]) ==> Item(i, ResultOf(phases[i])) in sent
  }

  /** The channel: one item for each server that has sent, carrying its result. */
  ghost predicate Mail(s: System) {
    && |s.sent| == Senders(s.phases) && s.taken <= |s.sent| && s.events == s.sent[..s.taken]
    && MailFrom(s.sent, s.phases) && MailTo(s.sent, s.phases)
  }

  /** Each admitted server's breaker is told the outcome once, after the query and before the send. */
  ghost predicate Told(s: System) {
    && |s.outcomes| == |s.phases|
    && forall i :: 0 <= i < |s.phases| ==>
         s.outcomes[i] == match s.phases[i]
                          case Reported(r) => [r != Error]
                          case Delivered(r) => [r != Error]
                          case Left(r) => [r != Error]
                          case _ => []
  }

  /** The loop has reached exactly the first `pos` servers, and admitted `started` of them. */
  ghost predicate Reached(s: System) {
    && s.pos <= |s.phases|
    && (forall i :: 0 <= i < |s.phases| ==> (s.phases[i].Waiting? <==> i >= s.pos))
    && s.wg == Workers(s.phases)
    && (s.started == 0 <==> forall i :: 0 <= i < s.pos ==> s.phases[i].Refused?)
  }

  ghost predicate Returning(s: System) {
    && (s.main == Launching ==> s.closer == Idle && s.taken == 0 && |s.phases| > 0)
    && (s.main != Launching ==> s.pos == |s.phases|)
    && (s.closer == Closed ==> s.wg == 0)
    && (s.main == Collecting ==> s.closer != Idle && forall e :: e in s.events ==> !e.r.Success?)
    && (s.closer != Idle ==> s.started > 0 && s.main != Launching)
    && match s.main
       case Returned(NoServers) => |s.phases| == 0
       case Returned(AllOpen) => s.started == 0 && s.closer == Idle && |s.phases| > 0
       case Returned(AllFailed) =>
         s.closer == Closed && s.taken == |s.sent| && forall e :: e in s.events ==> !e.r.Success?
       case Returned(Answered(m)) =>
         && s.events != [] && s.events[|s.events| - 1].r == Success(m) && s.closer != Idle
         && forall k :: 0 <= k < |s.events| - 1 ==> !s.events[k].r.Success?
       case _ => true
  }

  ghost predicate Inv(s: System) {
    Mail(s) && Told(s) && Reached(s) && Returning(s)
  }

  // ---- every step keeps it ----

  lemma StartInv(n: nat)
    ensures Inv(Start(n))
  {
    NothingYet(seq(n, i => Waiting));
  }

  lemma {:induction false} NothingYet(phases: seq<Phase>)
    requires forall i :: 0 <= i < |phases| ==> phases[i].Waiting?
    ensures Senders(phases) == 0 && Workers(phases) == 0
  {
    if phases != [] {
      NothingYet(phases[1..]);
    }
  }

  /** A phase changes without a send. */
  lemma QuietPhase(s: System, t: System, i: nat, p: Phase)
    requires Mail(s) && i < |s.phases| && HasSent(p) == HasSent(s.phases[i])
    requires HasSent(p) ==> ResultOf(p) == ResultOf(s.phases[i])
    requires t.phases == s.phases[i := p] && t.sent == s.sent && t.taken == s.taken && t.events == s.events
    ensures Mail(t)
  {
    CountUpdate(s.phases, i, p);
    hide Senders, Workers;
  }

  /** A phase changes with a send: the server has not sent before. */
  lemma SendingPhase(s: System, t: System, i: nat, p: Phase)
    requires Mail(s) && i < |s.phases| && HasSent(p) && !HasSent(s.phases[i])
    requires t.phases == s.phases[i := p] && t.sent == s.sent + [Item(i, ResultOf(p))]
    requires t.taken == s.taken && t.events == s.events
    ensures Mail(t)
  {
    hide Senders, Workers, MailFrom, MailTo;
    CountUpdate(s.phases, i, p);
    SendingFrom(s.sent, s.phases, i, p);
    SendingTo(s.sent, s.phases, i, p);
  }

  lemma SendingFrom(sent: seq<Item>, phases: seq<Phase>, i: nat, p: Phase)
    requires MailFrom(sent, phases) && i < |phases| && HasSent(p) && !HasSent(phases[i])
    ensures MailFrom(sent + [Item(i, ResultOf(p))], phases[i := p])
  {
    hide ResultOf, HasSent;
    assert forall k :: 0 <= k < |sent| ==> sent[k].server != i;
  }

  lemma SendingTo(sent: seq<Item>, phases: seq<Phase>, i: nat, p: Phase)
    requires MailTo(sent, phases) && i < |phases| && HasSent(p)
    ensures MailTo(sent + [Item(i, ResultOf(p))], phases[i := p])
  {
    hide ResultOf, HasSent;
    var more := sent + [Item(i, ResultOf(p))];
    assert more[|sent|] == Item(i, ResultOf(p));
    assert forall x :: x in sent ==> x in more;
  }

  lemma MailKept(s: System, l: Label)
    requires Inv(s) && Enabled(s, l)
    ensures Mail(Next(s, l))
  {
    hide Senders, Workers, Told, Returning;
    var t := Next(s, l);
    match l
    case Admit => QuietPhase(s, t, s.pos, Running);
    case Refuse => SendingPhase(s, t, s.pos, Refused);
    case Finish(i, r) => QuietPhase(s, t, i, Decided(r));
    case Report(i) => QuietPhase(s, t, i, Reported(s.phases[i].r));
    case Deliver(i) => SendingPhase(s, t, i, Delivered(s.phases[i].r));
    case Leave(i) => QuietPhase(s, t, i, Left(s.phases[i].r));
    case Receive => Received(s, t);
    case _ => SameMail(s, t);
  }

  lemma SameMail(s: System, t: System)
    requires Mail(s) && t.phases == s.phases && t.sent == s.sent && t.taken == s.taken && t.events == s.events
    ensures Mail(t)
  {
  }

  lemma Received(s: System, t: System)
    requires Mail(s) && s.taken < |s.sent| && t.phases == s.phases && t.sent == s.sent
    requires t.taken == s.taken + 1 && t.events == s.events + [s.sent[s.taken]]
    ensures Mail(t)
  {
    assert s.sent[..s.taken + 1] == s.sent[..s.taken] + [s.sent[s.taken]];
  }

  lemma ToldKept(s: System, l: Label)
    requires Inv(s) && Enabled(s, l)
    ensures Told(Next(s, l))
  {
    hide Mail, Senders, Workers, Returning;
  }

  lemma ReachedKept(s: System, l: Label)
    requires Inv(s) && Enabled(s, l)
    ensures Reached(Next(s, l))
  {
    hide Mail, Told;
    var t := Next(s, l);
    match l
    case Admit => PhaseReached(s, t, s.pos, Running);
    case Refuse => PhaseReached(s, t, s.pos, Refused);
    case Finish(i, r) => PhaseReached(s, t, i, Decided(r));
    case Report(i) => PhaseReached(s, t, i, Reported(s.phases[i].r));
    case Deliver(i) => PhaseReached(s, t, i, Delivered(s.phases[i].r));
    case Leave(i) => PhaseReached(s, t, i, Left(s.phases[i].r));
    case _ =>
  }

  lemma PhaseReached(s: System, t: System, i: nat, p: Phase)
    requires Reached(s) && i < |s.phases| && t.phases == s.phases[i := p] && !p.Waiting?
    requires t.pos == (if i == s.pos then s.pos + 1 else s.pos) && (i == s.pos || i < s.pos)
    requires t.wg == s.wg - (if Working(s.phases[i]) then 1 else 0) + (if Working(p) then 1 else 0)
    requires t.started == (if i == s.pos && p.Running? then s.started + 1 else s.started)
    requires i == s.pos ==> p.Running? || p.Refused?
    requires i < s.pos ==> !p.Refused? && !s.phases[i].Refused?
    ensures Reached(t)
  {
    CountUpdate(s.phases, i, p);
    hide Senders, Workers;
    assert t.phases[i] == p;
    assert forall j :: 0 <= j < |s.phases| && j != i ==> t.phases[j] == s.phases[j];
    if i < s.pos {
      assert !s.phases[i].Refused? && s.started != 0 && !t.phases[i].Refused?;
    }
  }

  lemma ReturningKept(s: System, l: Label)
    requires Inv(s) && Enabled(s, l)
    ensures Returning(Next(s, l))
  {
    hide Told, Senders, Workers;
    assert s.taken == 0 ==> s.events == [];
    hide Mail;
    if s.closer == Closed {
      NobodyAfterClose(s);
    }
    if l.Receive? {
      ReceiveReturning(s);
    }
  }

  lemma ReceiveReturning(s: System)
    requires Returning(s) && Reached(s) && Enabled(s, Receive)
    ensures Returning(Next(s, Receive))
  {
    hide Reached;
  }

  /** Once the channel is closed every goroutine has left. */
  lemma NobodyAfterClose(s: System)
    requires Inv(s) && s.closer == Closed
    ensures forall i :: 0 <= i < |s.phases| ==> s.phases[i].Refused? || s.phases[i].Left?
  {
    hide Mail, Told, Senders;
    SomeNotSent(s.phases);
  }

  lemma InvKept(s: System, l: Label)
    requires Inv(s) && Enabled(s, l)
    ensures Inv(Next(s, l))
  {
    MailKept(s, l);
    ToldKept(s, l);
    ReachedKept(s, l);
    ReturningKept(s, l);
    hide Mail, Told, Reached, Returning, Next;
  }

  lemma {:induction false} RunInv(n: nat, labels: seq<Label>)
    ensures Run(n, labels).Some? ==> Inv(Run(n, labels).value) && |Run(n, labels).value.phases| == n
  {
    hide Inv;
    if labels == [] {
      StartInv(n);
    } else {
      RunInv(n, labels[..|labels| - 1]);
      var before, last := Run(n, labels[..|labels| - 1]), labels[|labels| - 1];
      if before.Some? && Enabled(before.value, last) {
        InvKept(before.value, last);
        SameServers(before.value, last);
      }
    }
  }

  lemma SameServers(s: System, l: Label)
    requires Enabled(s, l)
    ensures |Next(s, l).phases| == |s.phases|
  {
  }

  // ---- safety ----

  /** No sender ever waits for room or finds the channel closed, even after the caller has returned. */
  lemma NeverBlocked(n: nat, labels: seq<Label>, i: nat)
    requires Run(n, labels).Some? && i < n
    ensures var s := Run(n, labels).value;
            && |s.phases| == n
            && (s.phases[i].Reported? ==> Enabled(s, Deliver(i)))
            && (s.main == Launching && s.pos < n ==> Enabled(s, Refuse))
  {
    hide Run, Told, Senders, Workers;
    RunInv(n, labels);
    var s := Run(n, labels).value;
    SomeNotSent(s.phases);
    if s.main == Launching && s.pos < n {
      assert !HasSent(s.phases[s.pos]);
    }
    if s.closer == Closed {
      NobodyAfterClose(s);
    }
  }

  /** The channel is closed only after the last send: nothing is ever sent on it again. */
  lemma ClosedIsFinal(n: nat, labels: seq<Label>, l: Label)
    requires Run(n, labels).Some? && Run(n, labels).value.closer == Closed && Enabled(Run(n, labels).value, l)
    ensures var s := Run(n, labels).value;
            Next(s, l).sent == s.sent && |s.sent| == n && Next(s, l).closer == Closed
  {
    hide Run, Told, Senders, Workers;
    RunInv(n, labels);
    var s := Run(n, labels).value;
    NobodyAfterClose(s);
    SomeNotSent(s.phases);
  }

  /** A server's breaker is told at most once, only if it was admitted, and before its result is sent. */
  lemma OneOutcome(n: nat, labels: seq<Label>, i: nat)
    requires Run(n, labels).Some? && i < n
    ensures var s := Run(n, labels).value;
            && |s.phases| == n && |s.outcomes| == n && |s.outcomes[i]| <= 1
            && (s.phases[i].Refused? || s.phases[i].Waiting? || s.phases[i].Running? ==> s.outcomes[i] == [])
            && (forall k :: 0 <= k < |s.sent| && s.sent[k].server == i && !s.phases[i].Refused? ==>
                  s.outcomes[i] == [s.sent[k].r != Error])
  {
    hide Run, Senders, Workers, Reached, Returning;
    RunInv(n, labels);
  }

  ghost predicate HasEvent(s: System, i: nat) {
    exists e :: e in s.events && e.server == i
  }

  /**
   What the caller gets: a message is the first success received; an error, once a query has
   started, means that every server has exactly one event and none of them a success.
   */
  lemma ReturnMeans(n: nat, labels: seq<Label>)
    requires Run(n, labels).Some? && Run(n, labels).value.main.Returned?
    ensures var s := Run(n, labels).value;
            match s.main.final
            case NoServers => n == 0
            case AllOpen => s.started == 0 && forall i :: 0 <= i < |s.phases| ==> s.phases[i].Refused?
            case Answered(m) =>
              && s.events != [] && s.events <= s.sent && s.events[|s.events| - 1].r == Success(m)
              && forall k :: 0 <= k < |s.events| - 1 ==> !s.events[k].r.Success?
            case AllFailed =>
              && s.started > 0 && |s.events| == n
              && (forall i, j :: 0 <= i < j < |s.events| ==> s.events[i].server != s.events[j].server)
              && (forall i :: 0 <= i < n ==> HasEvent(s, i))
              && (forall e :: e in s.events ==> e.server < n && !e.r.Success?)
  {
    hide Run, Told, Senders, Workers;
    RunInv(n, labels);
    var s := Run(n, labels).value;
    if s.main.final == AllFailed {
      NobodyAfterClose(s);
      SomeNotSent(s.phases);
      assert s.sent[..s.taken] == s.sent;
      forall i | 0 <= i < n
        ensures HasEvent(s, i)
      {
        assert HasSent(s.phases[i]);
        assert Item(i, ResultOf(s.phases[i])) in s.events;
      }
    }
  }

  // ---- every interleaving ends ----

  function Rank(p: Phase): nat {
    match p
    case Waiting => 7
    case Running => 6
    case Decided(_) => 5
    case Reported(_) => 4
    case Delivered(_) => 2
    case _ => 0
  }

  function RankSum(phases: seq<Phase>): nat {
    if phases == [] then 0 else RankSum(phases[1..]) + Rank(phases[0])
  }

  lemma {:induction false} RankUpdate(phases: seq<Phase>, i: nat, p: Phase)
    requires i < |phases|
    ensures RankSum(phases[i := p]) == RankSum(phases) - Rank(phases[i]) + Rank(p)
  {
    var t := phases[i := p];
    if i == 0 {
      assert t[1..] == phases[1..];
    } else {
      assert t[1..] == phases[1..][i - 1 := p];
      RankUpdate(phases[1..], i - 1, p);
    }
  }

  lemma {:induction false} RankOfStart(phases: seq<Phase>)
    requires forall i :: 0 <= i < |phases| ==> phases[i].Waiting?
    ensures RankSum(phases) == 7 * |phases|
  {
    if phases != [] {
      RankOfStart(phases[1..]);
    }
  }

  /** The steps that may still be taken. */
  function Measure(s: System): int {
    RankSum(s.phases) + |s.sent| - s.taken + (match s.main case Launching => 2 case Collecting => 1 case Returned(_) => 0)
    + (if s.closer == Closed then 0 else 1)
  }

  lemma StepDecreases(s: System, l: Label)
    requires Inv(s) && Enabled(s, l)
    ensures Measure(Next(s, l)) < Measure(s)
  {
    hide RankSum, Mail, Told, Senders, Workers;
    match l
    case Admit => RankUpdate(s.phases, s.pos, Running);
    case Refuse => RankUpdate(s.phases, s.pos, Refused);
    case Finish(i, r) => RankUpdate(s.phases, i, Decided(r));
    case Report(i) => RankUpdate(s.phases, i, Reported(s.phases[i].r));
    case Deliver(i) => RankUpdate(s.phases, i, Delivered(s.phases[i].r));
    case Leave(i) => RankUpdate(s.phases, i, Left(s.phases[i].r));
    case _ =>
  }

  /** No interleaving takes more than 7n + 3 steps. */
  lemma {:induction false} RunsAreShort(n: nat, labels: seq<Label>)
    requires Run(n, labels).Some?
    ensures |labels| + Measure(Run(n, labels).value) <= 7 * n + 3
    ensures Measure(Run(n, labels).value) >= 0
  {
    hide Inv, Next, Enabled, Measure, Start;
    RunInv(n, labels);
    MeasurePositive(Run(n, labels).value);
    if labels == [] {
      MeasureOfStart(n);
    } else {
      var m := |labels| - 1;
      RunsAreShort(n, labels[..m]);
      RunInv(n, labels[..m]);
      StepDecreases(Run(n, labels[..m]).value, labels[m]);
    }
  }

  lemma MeasureOfStart(n: nat)
    ensures Measure(Start(n)) <= 7 * n + 3
  {
    RankOfStart(Start(n).phases);
  }

  lemma MeasurePositive(s: System)
    requires Inv(s)
    ensures Measure(s) >= 0
  {
    hide RankSum, Told, Reached, Returning;
  }

  /** Nothing is left to do: the caller has returned, every goroutine has left, and the channel is closed if any ran. */
  ghost predicate AllDone(s: System) {
    && s.main.Returned?
    && (forall i :: 0 <= i < |s.phases| ==> s.phases[i].Refused? || s.phases[i].Left?)
    && (s.closer == Closed || s.started == 0)
  }

  /** There is no deadlock and no leak: when no step is enabled, everything is done. */
  lemma NoDeadlock(n: nat, labels: seq<Label>)
    requires Run(n, labels).Some?
    requires forall l :: !Enabled(Run(n, labels).value, l)
    ensures AllDone(Run(n, labels).value)
  {
    hide Run, Told, Senders, Workers;
    RunInv(n, labels);
    var s := Run(n, labels).value;
    SomeNotSent(s.phases);
    assert !Enabled(s, Admit) && !Enabled(s, Launched) && !Enabled(s, Receive) && !Enabled(s, Drained) && !Enabled(s, Close);
    forall i | 0 <= i < |s.phases|
      ensures s.phases[i].Refused? || s.phases[i].Left?
    {
      assert !Enabled(s, Finish(i, Error)) && !Enabled(s, Report(i)) && !Enabled(s, Deliver(i)) && !Enabled(s, Leave(i));
      assert |s.outcomes| == |s.phases| by { OutcomesFor(s); }
      if s.phases[i].Reported? {
        NeverBlocked(n, labels, i);
      }
    }
  }

  lemma OutcomesFor(s: System)
    requires Told(s)
    ensures |s.outcomes| == |s.phases|
  {
  }
}
