/** The circuit breaker in front of the object store. Times are nanoseconds. */
module Breaker {
  import Digits

  /** What an operation returns: nil, ErrNotFound, or any other error. */
  datatype Error = Nil | NotFound | Other

  /** Nothing found is no failure of the backend. */
  predicate Healthy(err: Error) { err == Nil || err == NotFound }

  datatype State = State(threshold: nat, backoff: nat, failures: nat, openUntil: int)

  ghost predicate Valid(s: State) { s.threshold >= 1 && s.failures < s.threshold }

  function Open(s: State, now: int): bool { now < s.openUntil }

  function Record(s: State, err: Error, now: int): State {
    if Healthy(err) then s.(failures := 0)
    else if s.failures + 1 >= s.threshold then s.(failures := 0, openUntil := now + s.backoff)
    else s.(failures := s.failures + 1)
  }

  // ---- every interleaving: records arrive in any order, from any number of calls in flight ----

  datatype Entry = Entry(err: Error, at: int)

  function Recorded(s: State, log: seq<Entry>): State {
    if log == [] then s
    else Record(Recorded(s, log[..|log| - 1]), log[|log| - 1].err, log[|log| - 1].at)
  }

  /** How many failures the log ends with. */
  function Trailing(log: seq<Entry>): nat {
    if log == [] || Healthy(log[|log| - 1].err) then 0 else Trailing(log[..|log| - 1]) + 1
  }

  lemma NextRemainder(n: nat, d: nat)
    requires d >= 1
    ensures (n + 1) % d == if n % d + 1 >= d then 0 else n % d + 1
  {
    Digits.Fundamental(n, d);
    if n % d + 1 >= d {
      Digits.DivModUnique(n + 1, d, n / d + 1, 0);
    } else {
      Digits.DivModUnique(n + 1, d, n / d, n % d + 1);
    }
  }

  /** The run of failures a log ends with: those results were neither nil nor not-found, and the one
      before them, if there is one, was. */
  lemma {:induction false} TrailingMeans(log: seq<Entry>, n: nat)
    ensures Trailing(log) == n <==>
      && n <= |log| && (forall i :: |log| - n <= i < |log| ==> log[i].err != Nil && log[i].err != NotFound)
      && (n < |log| ==> log[|log| - n - 1].err == Nil || log[|log| - n - 1].err == NotFound)
  {
    if log != [] {
      var init := log[..|log| - 1];
      if Healthy(log[|log| - 1].err) {
        assert n > 0 && n <= |log| ==> Healthy(log[|log| - 1].err);
      } else if n > 0 {
        TrailingMeans(init, n - 1);
        assert forall i :: 0 <= i < |init| ==> init[i] == log[i];
      }
    }
  }

  /** Results that are nil or not-found, however many, leave the circuit as it is and forget failures. */
  lemma {:induction false} HealthyRun(s: State, log: seq<Entry>)
    requires log != [] && forall i :: 0 <= i < |log| ==> log[i].err == Nil || log[i].err == NotFound
    ensures Recorded(s, log) == s.(failures := 0)
  {
    var init := log[..|log| - 1];
    if init != [] { HealthyRun(s, init); }
  }

  /** The counter is what is left of the current run of failures once every full threshold of it has
      opened the circuit; so it stays below the threshold under any interleaving. */
  lemma {:induction false} FailuresCount(s: State, log: seq<Entry>)
    requires Valid(s) && s.failures == 0
    ensures Valid(Recorded(s, log)) && Recorded(s, log).failures == Trailing(log) % s.threshold
    ensures Recorded(s, log).threshold == s.threshold && Recorded(s, log).backoff == s.backoff
  {
    if log != [] {
      var init, e := log[..|log| - 1], log[|log| - 1];
      FailuresCount(s, init);
      CountOne(Recorded(s, init), Trailing(init), e.err, e.at);
    } else {
      Digits.DivModUnique(0, s.threshold, 0, 0);
    }
  }

  lemma CountOne(s: State, n: nat, err: Error, at: int)
    requires Valid(s) && s.failures == n % s.threshold
    ensures Valid(Record(s, err, at))
    ensures Record(s, err, at).failures == (if Healthy(err) then 0 else n + 1) % s.threshold
  {
    NextRemainder(n, s.threshold);
    Digits.DivModUnique(0, s.threshold, 0, 0);
  }

  /** The circuit opens exactly on the failures that complete a full threshold in a row. */
  lemma OpensExactly(s: State, log: seq<Entry>, e: Entry)
    requires Valid(s) && s.failures == 0
    ensures Recorded(s, log + [e]).openUntil ==
      if Trailing(log + [e]) > 0 && Trailing(log + [e]) % s.threshold == 0 then e.at + s.backoff
      else Recorded(s, log).openUntil
  {
    assert (log + [e])[..|log|] == log;
    FailuresCount(s, log);
    FailuresCount(s, log + [e]);
    NextRemainder(Trailing(log), s.threshold);
  }

  // ---- one caller at a time, against a dead backend ----

  /** A guarded operation: when it arrives, and when its backend call, if it makes one, has failed. */
  datatype Attempt = Attempt(start: int, end: int)

  /** The clock never runs backwards. */
  ghost predicate Ordered(attempts: seq<Attempt>) {
    (forall i :: 0 <= i < |attempts| ==> attempts[i].start <= attempts[i].end)
    && (forall i, j :: 0 <= i < j < |attempts| ==> attempts[i].end <= attempts[j].start)
  }

  function AfterFailing(s: State, attempts: seq<Attempt>): State {
    if attempts == [] then s
    else
      var t, a := AfterFailing(s, attempts[..|attempts| - 1]), attempts[|attempts| - 1];
      if Open(t, a.start) then t else Record(t, Other, a.end)
  }

  /** How many backend calls start between from and from + span. */
  function CallsWithin(s: State, attempts: seq<Attempt>, from: int, span: nat): nat {
    if attempts == [] then 0
    else
      var init, a := attempts[..|attempts| - 1], attempts[|attempts| - 1];
      CallsWithin(s, init, from, span)
        + if !Open(AfterFailing(s, init), a.start) && from <= a.start <= from + span then 1 else 0
  }

  lemma {:induction false} AfterFailingValid(s: State, attempts: seq<Attempt>)
    requires Valid(s)
    ensures Valid(AfterFailing(s, attempts)) && AfterFailing(s, attempts).threshold == s.threshold
      && AfterFailing(s, attempts).backoff == s.backoff
  {
    if attempts != [] { AfterFailingValid(s, attempts[..|attempts| - 1]); }
  }

  /** The calls of a span, counted in full thresholds: each completed one keeps the circuit open for
      another backoff. */
  ghost predicate Counted(s: State, calls: nat, opens: nat, base: nat, from: int) {
    && calls + base == opens * s.threshold + s.failures
    && base < s.threshold
    && (opens > 0 ==> s.openUntil >= from + opens * s.backoff)
  }

  lemma CountCall(s: State, calls: nat, opens: nat, base: nat, from: int, span: nat, a: Attempt)
    returns (opens': nat)
    requires Valid(s) && s.backoff > 0 && Counted(s, calls, opens, base, from)
    requires !Open(s, a.start) && from <= a.start <= from + span && a.start <= a.end
    ensures Counted(Record(s, Other, a.end), calls + 1, opens', base, from)
    ensures calls + 1 <= (span / s.backoff + 1) * s.threshold
  {
    assert opens * s.backoff <= span;
    AtMost(opens, span, s.backoff);
    Scale(opens, span / s.backoff, s.threshold);
    opens' := if s.failures + 1 >= s.threshold then opens + 1 else opens;
    Distribute(opens, s.threshold);
    Distribute(opens, s.backoff);
  }

  lemma AtMost(n: nat, span: nat, b: nat)
    requires b > 0 && n * b <= span
    ensures n <= span / b
  {
    Digits.Fundamental(span, b);
    if n > span / b {
      Digits.MulSub(b, n, span / b);
      Digits.MulAtLeast(b, n - span / b);
    }
  }

  lemma Scale(n: nat, m: nat, t: nat)
    requires n <= m
    ensures n * t + t <= (m + 1) * t
  {}

  lemma Distribute(n: nat, t: nat)
    ensures (n + 1) * t == n * t + t
  {}

  lemma {:induction false} Pace(s: State, attempts: seq<Attempt>, from: int, span: nat)
    returns (opens: nat, base: nat)
    requires Valid(s) && s.backoff > 0 && Ordered(attempts)
    requires forall i :: 0 <= i < |attempts| ==> attempts[i].start <= from + span
    ensures Valid(AfterFailing(s, attempts))
    ensures Counted(AfterFailing(s, attempts), CallsWithin(s, attempts, from, span), opens, base, from)
    ensures CallsWithin(s, attempts, from, span) <= (span / s.backoff + 1) * s.threshold
    ensures attempts != [] && attempts[|attempts| - 1].start < from ==>
      CallsWithin(s, attempts, from, span) == 0 && opens == 0
  {
    hide Counted;
    AfterFailingValid(s, attempts);
    if attempts == [] {
      NoCalls(s, from);
      Bounded(span, s.backoff, s.threshold);
      return 0, s.failures;
    }
    var n := |attempts| - 1;
    var init, a := attempts[..n], attempts[n];
    var t := AfterFailing(s, init);
    AfterFailingValid(s, init);
    opens, base := Pace(s, init, from, span);
    if n > 0 { assert attempts[n - 1].start <= attempts[n - 1].end <= a.start; }
    if a.start < from {
      assert CallsWithin(s, init, from, span) == 0;
      NoCalls(AfterFailing(s, attempts), from);
      opens, base := 0, AfterFailing(s, attempts).failures;
    } else if !Open(t, a.start) {
      opens := CountCall(t, CallsWithin(s, init, from, span), opens, base, from, span, a);
    }
  }

  lemma NoCalls(s: State, from: int)
    requires Valid(s)
    ensures Counted(s, 0, 0, s.failures, from)
  {}

  lemma Bounded(span: nat, b: nat, t: nat)
    requires b > 0
    ensures 0 <= (span / b + 1) * t
  {}

  /** Rate bound: whatever the span, at most a threshold of calls for every backoff that fits in it,
      plus one threshold. */
  lemma {:induction false} RateBound(s: State, attempts: seq<Attempt>, from: int, span: nat)
    requires Valid(s) && s.backoff > 0 && Ordered(attempts)
    ensures CallsWithin(s, attempts, from, span) <= (span / s.backoff + 1) * s.threshold
  {
    if attempts != [] && attempts[|attempts| - 1].start > from + span {
      RateBound(s, attempts[..|attempts| - 1], from, span);
    } else {
      forall i | 0 <= i < |attempts|
        ensures attempts[i].start <= from + span
      {
        if i < |attempts| - 1 { assert attempts[i].start <= attempts[i].end <= attempts[|attempts| - 1].start; }
      }
      var opens, base := Pace(s, attempts, from, span);
    }
  }

  // ---- the object ----

  const THRESHOLD: nat := 5
  const BACKOFF: nat := 60_000_000_000

  datatype GuardResult = CircuitOpen | Ran(err: Error)

  class CircuitBreaker {
    const threshold: nat
    const backoff: nat
    var failures: nat
    var openUntil: int

    function View(): State
      reads this
    {
      State(threshold, backoff, failures, openUntil)
    }

    constructor (zeroTime: int)
      ensures View() == State(5, 60_000_000_000, 0, zeroTime) && Valid(View())
    {
      threshold, backoff := THRESHOLD, BACKOFF;
      failures, openUntil := 0, zeroTime;
    }

    /** Under the lock, before the operation runs. */
    method Admit(now: int) returns (open: bool)
      ensures open <==> now < openUntil
    {
      open := now < openUntil;
    }

    /** `record`, under the lock, after the operation. */
    method RecordError(err: Error, now: int)
      requires Valid(View())
      modifies this
      ensures View() == Record(old(View()), err, now) && Valid(View())
      ensures err == Nil || err == NotFound ==> failures == 0 && openUntil == old(openUntil)
      ensures err == Other && old(failures) + 1 < threshold ==>
        failures == old(failures) + 1 && openUntil == old(openUntil)
      ensures err == Other && old(failures) + 1 == threshold ==> failures == 0 && openUntil == now + backoff
    {
      if err == Nil || err == NotFound {
        failures := 0;
        return;
      }
      failures := failures + 1;
      if failures >= threshold {
        openUntil := now + backoff;
        failures := 0;
      }
    }

    /** `guard` with nobody else around: the operation runs from start to end and returns err. */
    method Guard(start: int, err: Error, end: int) returns (result: GuardResult)
      requires Valid(View())
      modifies this
      ensures Valid(View()) && (result == CircuitOpen <==> old(Open(View(), start)))
      ensures result == CircuitOpen ==> View() == old(View())
      ensures result != CircuitOpen ==> result == Ran(err) && View() == Record(old(View()), err, end)
    {
      var open := Admit(start);
      if open { return CircuitOpen; }
      RecordError(err, end);
      return Ran(err);
    }
  }
}
