/** The circuit breaker of internal/resolver/circuit_breaker.go: the object, its steps, and the law of its runs. */
module Breaker {
  import opened Octets
  import opened Durations

  datatype Phase = Closed | Open | HalfOpen

  datatype Limits = Limits(failures: positive, successes: positive, openTimeout: positive)

  datatype State = State(phase: Phase, failures: nat, successes: nat, lastFailure: int, limits: Limits)

  datatype Event = Ask(now: int) | Success | Failure(now: int)

  function NewLimits(failures: int, successes: int, openTimeout: int): Limits {
    Limits(if failures <= 0 then 5 else failures, if successes <= 0 then 2 else successes,
           if openTimeout <= 0 then 30 * SECOND else openTimeout)
  }

  function New(limits: Limits): State {
    State(Closed, 0, 0, 0, limits)
  }

  function Granted(s: State, now: int): bool {
    s.phase != Open || now - s.lastFailure >= s.limits.openTimeout
  }

  function Step(s: State, e: Event): State {
    match e
    case Ask(now) => if s.phase == Open && Granted(s, now) then s.(phase := HalfOpen, successes := 0) else s
    case Success =>
      (match s.phase
       case Closed => s.(failures := 0)
       case HalfOpen =>
         if s.successes + 1 >= s.limits.successes then s.(phase := Closed, failures := 0, successes := 0)
         else s.(successes := s.successes + 1)
       case Open => s)
    case Failure(now) =>
      (match s.phase
       case Closed =>
         if s.failures + 1 >= s.limits.failures
         then s.(phase := Open, failures := s.failures + 1, lastFailure := now, successes := 0)
         else s.(failures := s.failures + 1)
       case HalfOpen => s.(phase := Open, lastFailure := now, successes := 0, failures := s.limits.failures)
       case Open => s.(lastFailure := now))
  }

  class CircuitBreaker {
    var phase: Phase
    var failures: nat
    var successes: nat
    var lastFailureTime: int
    var failureThreshold: positive
    var successThreshold: positive
    var openTimeout: positive

    function View(): State
      reads this
    {
      State(phase, failures, successes, lastFailureTime, Limits(failureThreshold, successThreshold, openTimeout))
    }

    constructor (f: int, s: int, timeout: int)
      ensures View() == New(NewLimits(f, s, timeout))
    {
      var limits := NewLimits(f, s, timeout);
      phase, failures, successes, lastFailureTime := Closed, 0, 0, 0;
      failureThreshold, successThreshold, openTimeout := limits.failures, limits.successes, limits.openTimeout;
    }

    method Allow(now: int) returns (ok: bool)
      modifies this
      ensures View() == Step(old(View()), Ask(now)) && ok == Granted(old(View()), now)
    {
      if phase == Open {
        if now - lastFailureTime >= openTimeout {
          phase := HalfOpen;
          successes := 0;
          return true;
        }
        return false;
      }
      return true;
    }

    method OnSuccess()
      modifies this
      ensures View() == Step(old(View()), Success)
    {
      match phase
      case Closed => failures := 0;
      case HalfOpen =>
        successes := successes + 1;
        if successes >= successThreshold {
          phase := Closed;
          failures := 0;
          successes := 0;
        }
      case Open =>
    }

    method OnFailure(now: int)
      modifies this
      ensures View() == Step(old(View()), Failure(now))
    {
      match phase
      case Closed =>
        failures := failures + 1;
        if failures >= failureThreshold {
          phase := Open;
          lastFailureTime := now;
          successes := 0;
        }
      case HalfOpen =>
        phase := Open;
        lastFailureTime := now;
        successes := 0;
        failures := failureThreshold;
      case Open => lastFailureTime := now;
    }

    method UpdateConfig(f: int, s: int, timeout: int)
      modifies this
      ensures View() == old(View()).(limits := old(
        Limits(if f > 0 then f else failureThreshold, if s > 0 then s else successThreshold,
               if timeout > 0 then timeout else openTimeout)))
    {
      if f > 0 {
        failureThreshold := f;
      }
      if s > 0 {
        successThreshold := s;
      }
      if timeout > 0 {
        openTimeout := timeout;
      }
    }
  }

  // ---- runs with fixed limits ----

  function Run(limits: Limits, h: seq<Event>): State {
    if h == [] then New(limits) else Step(Run(limits, h[..|h| - 1]), h[|h| - 1])
  }

  /** Where the present phase began: the longest end of the history in which the phase never changed. */
  function Since(limits: Limits, h: seq<Event>): (k: nat)
    ensures k <= |h|
  {
    if h == [] then 0
    else
      var before := h[..|h| - 1];
      if Run(limits, before).phase == Run(limits, h).phase then Since(limits, before) else |h|
  }

  /** The outcomes reported, true for a success. */
  function Outcomes(h: seq<Event>): seq<bool> {
    if h == [] then []
    else
      var init, e := Outcomes(h[..|h| - 1]), h[|h| - 1];
      if e.Ask? then init else init + [e.Success?]
  }

  /** The last n outcomes are all failures. */
  ghost predicate LastFail(h: seq<Event>, n: nat) {
    var o := Outcomes(h);
    n <= |o| && forall i :: |o| - n <= i < |o| ==> !o[i]
  }

  function Successes(h: seq<Event>): nat {
    if h == [] then 0 else Successes(h[..|h| - 1]) + (if h[|h| - 1].Success? then 1 else 0)
  }

  ghost predicate NoFailure(h: seq<Event>) {
    forall i :: 0 <= i < |h| ==> !h[i].Failure?
  }

  function LatestFailure(h: seq<Event>): Option<int> {
    if h == [] then None
    else if h[|h| - 1].Failure? then Some(h[|h| - 1].now) else LatestFailure(h[..|h| - 1])
  }

  /** The fields, in terms of the history alone. */
  ghost predicate Summary(s: State, since: seq<Event>, h: seq<Event>) {
    match s.phase
    case Closed =>
      && s.failures < s.limits.failures && LastFail(since, s.failures) && !LastFail(since, s.failures + 1)
    case HalfOpen =>
      && s.successes == Successes(since) && s.successes < s.limits.successes && NoFailure(since)
    case Open => LatestFailure(h) == Some(s.lastFailure)
  }

  lemma {:induction false} SummaryHolds(limits: Limits, h: seq<Event>)
    ensures var s := Run(limits, h);
            s.limits == limits && Summary(s, h[Since(limits, h)..], h)
  {
    hide Summary, Step;
    if h == [] {
      SummaryStart(limits);
    } else {
      var before, e := h[..|h| - 1], h[|h| - 1];
      var k := Since(limits, before);
      SummaryHolds(limits, before);
      assert h[k..] == before[k..] + [e];
      SummaryStep(Run(limits, before), before[k..], before, e);
      if Since(limits, h) == |h| {
        assert h[Since(limits, h)..] == [];
      }
      assert before + [e] == h;
    }
  }

  lemma SummaryStart(limits: Limits)
    ensures Summary(New(limits), [], [])
  {
  }

  lemma SummaryStep(s: State, since: seq<Event>, h: seq<Event>, e: Event)
    requires Summary(s, since, h)
    ensures var t := Step(s, e);
            t.limits == s.limits && Summary(t, if t.phase == s.phase then since + [e] else [], h + [e])
  {
    assert (since + [e])[..|since|] == since && (h + [e])[..|h|] == h;
    OutcomesOfEmpty();
    LastFailStep(since, e, s.failures);
    LastFailStep(since, e, s.failures + 1);
    hide LastFail;
  }

  lemma LastFailStep(since: seq<Event>, e: Event, n: nat)
    ensures e.Failure? ==> (LastFail(since + [e], n + 1) <==> LastFail(since, n))
    ensures e.Success? ==> !LastFail(since + [e], n + 1)
    ensures e.Ask? ==> (LastFail(since + [e], n) <==> LastFail(since, n))
    ensures forall m: nat :: m <= n && LastFail(since, n) ==> LastFail(since, m)
  {
    var o := Outcomes(since);
    assert (since + [e])[..|since|] == since;
    if e.Failure? && LastFail(since + [e], n + 1) {
      assert forall i :: |o| - n <= i < |o| ==> (o + [false])[i] == o[i];
    }
    if e.Success? {
      assert Outcomes(since + [e])[|o|];
    }
  }

  lemma OutcomesOfEmpty()
    ensures Outcomes([]) == [] && Successes([]) == 0 && NoFailure([])
  {
  }

  /**
   The law: Closed opens exactly when the last `failures` outcomes since closing are all
   failures; Open lets nothing through until the timeout has passed since the latest failure,
   and then becomes HalfOpen; HalfOpen opens on any failure, and closes exactly at the
   `successes`-th success, no failure having come since it was entered.
   */
  lemma Law(limits: Limits, h: seq<Event>, e: Event)
    ensures var s, t := Run(limits, h), Run(limits, h + [e]);
            var since := h[Since(limits, h)..];
            match s.phase
            case Closed =>
              && (e.Ask? ==> Granted(s, e.now))
              && (t.phase == Open <==> e.Failure? && LastFail(since + [e], limits.failures))
              && t.phase != HalfOpen
            case Open =>
              && LatestFailure(h).Some?
              && (e.Ask? ==> (Granted(s, e.now) <==> e.now - LatestFailure(h).value >= limits.openTimeout))
              && (t.phase == HalfOpen <==> e.Ask? && e.now - LatestFailure(h).value >= limits.openTimeout)
              && t.phase != Closed
            case HalfOpen =>
              && NoFailure(since)
              && (e.Ask? ==> Granted(s, e.now))
              && (t.phase == Open <==> e.Failure?)
              && (t.phase == Closed <==> e.Success? && Successes(since + [e]) == limits.successes)
  {
    SummaryHolds(limits, h);
    var since := h[Since(limits, h)..];
    assert (h + [e])[..|h|] == h && (since + [e])[..|since|] == since;
    LastFailStep(since, e, limits.failures - 1);
    hide LastFail;
  }

  /** The defaults: five failures open, two successes close, after thirty seconds. */
  lemma Defaults(failures: int, successes: int, openTimeout: int)
    ensures var l := NewLimits(failures, successes, openTimeout);
            && (if failures > 0 then l.failures == failures else l.failures == 5)
            && (if successes > 0 then l.successes == successes else l.successes == 2)
            && (if openTimeout > 0 then l.openTimeout == openTimeout else l.openTimeout == 30_000_000_000)
  {
  }
}
