/** The upload loop: size cap, idle timeout and a minimum rate over a five second window. */
module StreamBody {
  import Digits

  type Byte = bv8

  /** How a read ends besides its bytes. */
  datatype ReadEnd = More | Eof | Timeout | Broken

  /** One scripted r.Body.Read: the bytes it delivers, how it ends, how long it takes, and whether
      writing those bytes to the destination succeeds. */
  datatype Read = Read(data: seq<Byte>, end: ReadEnd, duration: nat, writable: bool)

  /** StillReading: the script is used up and the loop waits for its next read. */
  datatype Outcome = Finished | TooLarge | Stalled | TooSlow | ReadFailed | WriteFailed | StillReading

  const SECOND: nat := 1_000_000_000 // nanoseconds
  const RATE_WINDOW: nat := 5 * SECOND

  function Elapsed(script: seq<Read>): nat {
    if script == [] then 0 else Elapsed(script[..|script| - 1]) + script[|script| - 1].duration
  }

  function Received(script: seq<Read>): seq<Byte> {
    if script == [] then [] else Received(script[..|script| - 1]) + script[|script| - 1].data
  }

  /** With a read deadline, no single read takes longer than the idle timeout. */
  ghost predicate WithinIdle(script: seq<Read>, idle: nat) {
    forall i :: 0 <= i < |script| ==> script[i].duration <= idle
  }

  /** Time and bytes between two positions of the script. */
  function Span(script: seq<Read>, a: nat, b: nat): int
    requires a <= |script| && b <= |script|
  {
    Elapsed(script[..b]) - Elapsed(script[..a])
  }

  function Carried(script: seq<Read>, a: nat, b: nat): int
    requires a <= |script| && b <= |script|
  {
    |Received(script[..b])| - |Received(script[..a])|
  }

  /** Where the rate window that is open before read i began. The windows follow each other: one is
      closed by the first read that ends a window's length or more after its start. */
  function Mark(script: seq<Read>, i: nat): (m: nat)
    requires i <= |script|
    ensures m <= i
  {
    if i == 0 then 0 else if Span(script, Mark(script, i - 1), i) >= RATE_WINDOW then i else Mark(script, i - 1)
  }

  /** Read i closes its window, and the window brought less than the minimum. */
  predicate SlowWindow(script: seq<Read>, i: nat, windowMin: nat)
    requires i < |script|
  {
    var m := Mark(script, i);
    windowMin > 0 && Span(script, m, i + 1) >= RATE_WINDOW && Carried(script, m, i + 1) < windowMin
  }

  /** How an upload that has got as far as read i ends there, StillReading if it goes on. */
  function StopAt(script: seq<Read>, i: nat, limit: nat, windowMin: nat): Outcome
    requires i < |script|
  {
    var r := script[i];
    if r.data != [] && |Received(script[..i + 1])| > limit then TooLarge
    else if r.data != [] && !r.writable then WriteFailed
    else if SlowWindow(script, i, windowMin) then TooSlow
    else match r.end
         case More => StillReading
         case Eof => Finished
         case Timeout => Stalled
         case Broken => ReadFailed
  }

  /** The one way an upload can end: at the first read that stops it. */
  ghost predicate Ends(script: seq<Read>, limit: nat, windowMin: nat, used: nat, outcome: Outcome) {
    && used <= |script|
    && (forall i :: 0 <= i < used - 1 ==> StopAt(script, i, limit, windowMin) == StillReading)
    && outcome == (if used == 0 then StillReading else StopAt(script, used - 1, limit, windowMin))
    && (outcome == StillReading ==> used == |script|)
  }

  lemma EndsOnce(script: seq<Read>, limit: nat, windowMin: nat, used: nat, outcome: Outcome,
                 used': nat, outcome': Outcome)
    requires Ends(script, limit, windowMin, used, outcome) && Ends(script, limit, windowMin, used', outcome')
    ensures used == used' && outcome == outcome'
  {
    hide StopAt;
  }

  // ---- what the consecutive windows leave of a rolling average ----

  lemma {:induction false} MarkOpen(script: seq<Read>, i: nat)
    requires i <= |script|
    ensures Span(script, Mark(script, i), i) < RATE_WINDOW
  {
    if i > 0 { MarkOpen(script, i - 1); }
  }

  lemma {:induction false} MarkCloses(script: seq<Read>, i: nat)
    requires i <= |script| && Mark(script, i) > 0
    ensures var m := Mark(script, i); Span(script, Mark(script, m - 1), m) >= RATE_WINDOW
  {
    hide Span;
    if Span(script, Mark(script, i - 1), i) < RATE_WINDOW { MarkCloses(script, i - 1); }
  }

  /** A refusal as too slow is earned: the window that ended there lasted five seconds and brought less
      than five seconds' worth of the minimum rate. */
  lemma TooSlowMeans(script: seq<Read>, limit: nat, minRate: nat, used: nat)
    requires Ends(script, limit, 5 * minRate, used, TooSlow)
    ensures exists m :: 0 <= m <= used && Span(script, m, used) >= 5_000_000_000
                        && Carried(script, m, used) < 5 * minRate
    ensures minRate > 0 && (|Received(script[..used])| <= limit || script[used - 1].data == [])
  {
    hide Elapsed, Received, Mark;
    assert SlowWindow(script, used - 1, 5 * minRate);
    var m := Mark(script, used - 1);
  }

  lemma {:induction false} Monotone(script: seq<Read>, a: nat, b: nat)
    requires a <= b <= |script|
    ensures Span(script, a, b) >= 0 && Carried(script, a, b) >= 0
    decreases b - a
  {
    if a < b {
      Monotone(script, a, b - 1);
      Grows(script, b - 1);
    }
  }

  /** The last complete window before b began at most two windows and an idle period ago. */
  lemma LastWindow(script: seq<Read>, b: nat, idle: nat) returns (i: nat)
    requires WithinIdle(script, idle) && b <= |script| && Elapsed(script[..b]) >= RATE_WINDOW
    ensures i < b && Span(script, Mark(script, i), i + 1) >= RATE_WINDOW
    ensures Span(script, Mark(script, i), b) <= 2 * RATE_WINDOW + idle - 2
  {
    hide Received, Elapsed;
    var m := Mark(script, b);
    MarkOpen(script, b);
    Nothing(script, 0, 0, 0);
    i := m - 1;
    MarkCloses(script, b);
    MarkOpen(script, i);
    Grows(script, i);
  }

  /** Whatever else stops an upload, every stretch of reads that lasts at least two windows and an
      idle period, less a nanosecond, brought the minimum of a window. */
  lemma RollingGuarantee(script: seq<Read>, limit: nat, windowMin: nat, idle: nat, used: nat, outcome: Outcome,
                         a: nat, b: nat)
    requires Ends(script, limit, windowMin, used, outcome) && outcome != TooSlow
    requires windowMin > 0 && WithinIdle(script, idle)
    requires a <= b <= if outcome == TooLarge || outcome == WriteFailed then used - 1 else used
    requires Span(script, a, b) >= 2 * RATE_WINDOW + idle - 1
    ensures Carried(script, a, b) >= windowMin
  {
    hide Elapsed, Received, Mark;
    Monotone(script, 0, a);
    Nothing(script, limit, windowMin, idle);
    var i := LastWindow(script, b, idle);
    assert StopAt(script, i, limit, windowMin) != TooSlow;
    assert !SlowWindow(script, i, windowMin);
    var m := Mark(script, i);
    if m < a { Monotone(script, m, a); }
    Monotone(script, a, m);
    Monotone(script, i + 1, b);
  }

  // ---- nothing shorter will do ----

  /** One byte at a time, each as late as the idle timeout lets it be. */
  function Trickle(total: nat, idle: nat): (slow: seq<Read>)
    requires idle > 0
    ensures forall i :: 0 <= i < |slow| ==> |slow[i].data| == 1 && slow[i].end == More && slow[i].writable
    ensures forall i :: 0 <= i < |slow| ==> slow[i].duration <= idle
    decreases total
  {
    if total == 0 then []
    else
      var d := if total < idle then total else idle;
      Trickle(total - d, idle) + [Read([0], More, d, true)]
  }

  lemma {:induction false} TrickleSums(total: nat, idle: nat)
    requires idle > 0
    ensures Elapsed(Trickle(total, idle)) == total && |Received(Trickle(total, idle))| == |Trickle(total, idle)|
    decreases total
  {
    hide Elapsed, Received;
    if total == 0 {
      Nothing([], 0, 0, 0);
    } else {
      var d := if total < idle then total else idle;
      TrickleSums(total - d, idle);
      SumsOfOne(Read([0], More, d, true));
      SumsAdd(Trickle(total - d, idle), [Read([0], More, d, true)]);
    }
  }

  lemma {:induction false} SumsAdd(s: seq<Read>, t: seq<Read>)
    ensures Elapsed(s + t) == Elapsed(s) + Elapsed(t) && |Received(s + t)| == |Received(s)| + |Received(t)|
  {
    if t == [] {
      assert s + t == s;
    } else {
      SumsAdd(s, t[..|t| - 1]);
      assert (s + t)[..|s + t| - 1] == s + t[..|t| - 1];
    }
  }

  lemma SumsOfOne(r: Read)
    ensures Elapsed([r]) == r.duration && |Received([r])| == |r.data|
  {
    assert [r][..0] == [];
  }

  /** Just in time for the first window, then a trickle through both windows, and the rest just in time
      for the second. */
  function Lull(data: seq<Byte>, idle: nat): seq<Read>
    requires idle > 0
  {
    var p := Trickle(RATE_WINDOW - 1, idle);
    [Read(data, More, 0, true)] + p + [Read([0], More, idle, true)] + p + [Read(data, Eof, idle, true)]
  }

  /** How many reads a window less a nanosecond takes. */
  function Reads(idle: nat): nat
    requires idle > 0
  {
    |Trickle(RATE_WINDOW - 1, idle)|
  }

  lemma LullReads(data: seq<Byte>, idle: nat)
    requires idle > 0 && data != []
    ensures var s := Lull(data, idle); var n := Reads(idle);
      && |s| == 2 * n + 3 && WithinIdle(s, idle)
      && (forall i :: 0 <= i < |s| ==> s[i].data != [] && s[i].writable)
      && (forall i :: 0 <= i < |s| - 1 ==> s[i].end == More) && s[|s| - 1].end == Eof
  {
    hide Trickle;
    var p := Trickle(RATE_WINDOW - 1, idle);
    TrickleFacts(RATE_WINDOW - 1, idle);
  }

  lemma TrickleFacts(total: nat, idle: nat)
    requires idle > 0
    ensures forall i :: 0 <= i < |Trickle(total, idle)| ==> |Trickle(total, idle)[i].data| == 1
    ensures forall i :: 0 <= i < |Trickle(total, idle)| ==>
      var r := Trickle(total, idle)[i]; r.end == More && r.writable && r.duration <= idle
  {}

  lemma LullSums(data: seq<Byte>, idle: nat)
    requires idle > 0 && |Lull(data, idle)| == 2 * Reads(idle) + 3
    ensures var s := Lull(data, idle); var n := Reads(idle);
      && Elapsed(s[..0]) == 0 && Elapsed(s[..1]) == 0 && Elapsed(s[..n + 1]) == RATE_WINDOW - 1
      && Elapsed(s[..n + 2]) == RATE_WINDOW - 1 + idle && Elapsed(s[..2 * n + 2]) == 2 * RATE_WINDOW - 2 + idle
      && Elapsed(s[..2 * n + 3]) == 2 * RATE_WINDOW - 2 + 2 * idle
    ensures var s := Lull(data, idle); var n := Reads(idle);
      && |Received(s[..0])| == 0 && |Received(s[..1])| == |data|
      && |Received(s[..n + 2])| == |data| + n + 1 && |Received(s[..2 * n + 2])| == |data| + 2 * n + 1
      && |Received(s[..2 * n + 3])| == 2 * |data| + 2 * n + 1
  {
    hide Trickle, Elapsed, Received;
    var s, p, n := Lull(data, idle), Trickle(RATE_WINDOW - 1, idle), Reads(idle);
    var first, middle, last := Read(data, More, 0, true), Read([0], More, idle, true), Read(data, Eof, idle, true);
    Nothing(s, 0, 0, 0);
    TrickleSums(RATE_WINDOW - 1, idle);
    SumsOfOne(first);
    SumsOfOne(middle);
    SumsOfOne(last);
    assert s[..1] == [first];
    assert s[..n + 1] == [first] + p;
    assert s[..n + 2] == [first] + p + [middle];
    assert s[..2 * n + 2] == [first] + p + [middle] + p;
    assert s[..2 * n + 3] == [first] + p + [middle] + p + [last];
    SumsAdd([first], p);
    SumsAdd([first] + p, [middle]);
    SumsAdd([first] + p + [middle], p);
    SumsAdd([first] + p + [middle] + p, [last]);
  }

  /** A window stays open for as long as it lasts. */
  lemma {:induction false} MarkStays(script: seq<Read>, m: nat, i: nat)
    requires m <= i <= |script| && Mark(script, m) == m && Span(script, m, i) < RATE_WINDOW
    ensures Mark(script, i) == m
    decreases i
  {
    hide Span;
    if m < i {
      Monotone(script, i - 1, i);
      SpanAdds(script, m, i - 1, i);
      MarkStays(script, m, i - 1);
    }
  }

  lemma SpanAdds(script: seq<Read>, a: nat, b: nat, c: nat)
    requires a <= |script| && b <= |script| && c <= |script|
    ensures Span(script, a, c) == Span(script, a, b) + Span(script, b, c)
    ensures Carried(script, a, c) == Carried(script, a, b) + Carried(script, b, c)
  {}

  /** Before a window ends nothing stops an upload that is within its limit. */
  lemma GoesOn(script: seq<Read>, m: nat, i: nat, e: nat, limit: nat, windowMin: nat)
    requires m <= i < e <= |script| && Mark(script, m) == m && Span(script, m, e) < RATE_WINDOW
    requires script[i].end == More && script[i].writable && |Received(script)| <= limit
    ensures StopAt(script, i, limit, windowMin) == StillReading
  {
    hide Elapsed, Received, Mark;
    Monotone(script, i, e);
    Monotone(script, i + 1, e);
    Monotone(script, i + 1, |script|);
    assert script[..|script|] == script;
    MarkStays(script, m, i);
  }

  /** For every idle timeout: an upload that finishes, although for two windows and an idle timeout, less
      two nanoseconds, it only trickled. */
  lemma SlackIsReal(data: seq<Byte>, idle: nat)
    requires idle > 0 && |data| > 2 * Reads(idle) + 1
    ensures var s := Lull(data, idle); var b := 2 * Reads(idle) + 2;
      && WithinIdle(s, idle) && b < |s| && (forall i :: 0 <= i < |s| ==> s[i].data != [])
      && Ends(s, |Received(s)|, |data|, |s|, Finished)
      && Span(s, 1, b) == 2 * RATE_WINDOW + idle - 2 && Carried(s, 1, b) == 2 * Reads(idle) + 1 < |data|
  {
    hide Elapsed, Received, Mark, Lull, Reads;
    var s, n := Lull(data, idle), Reads(idle);
    var limit := |Received(s)|;
    LullReads(data, idle);
    LullSums(data, idle);
    assert s[..|s|] == s;
    assert Mark(s, 0) == 0 by { NextMark(s, 0); }
    MarkStays(s, 0, n + 1);
    NextMark(s, n + 1);
    MarkStays(s, n + 2, 2 * n + 2);
    forall i | 0 <= i < 2 * n + 2
      ensures StopAt(s, i, limit, |data|) == StillReading
    {
      if i <= n {
        GoesOn(s, 0, i, n + 1, limit, |data|);
      } else if i == n + 1 {
        Monotone(s, n + 2, |s|);
      } else {
        GoesOn(s, n + 2, i, 2 * n + 2, limit, |data|);
      }
    }
  }

  /** The bound of a whole upload: one window and one idle period for each minimum's worth of bytes
      the limit allows, plus one. */
  function Bound(limit: nat, windowMin: nat, idle: nat): nat
    requires windowMin > 0
  {
    (limit / windowMin + 1) * (RATE_WINDOW + idle)
  }

  /** After w full windows: they took less than w windows and idle periods, and w minimums fit in
      the bytes accepted. */
  lemma WindowsBound(w: nat, elapsed: nat, limit: nat, windowMin: nat, idle: nat)
    requires windowMin > 0 && w * windowMin <= limit && elapsed <= (w + 1) * (RATE_WINDOW + idle)
    ensures elapsed <= Bound(limit, windowMin, idle)
  {
    assert w <= limit / windowMin by {
      Digits.Fundamental(limit, windowMin);
      if w > limit / windowMin {
        Digits.MulSub(windowMin, w, limit / windowMin);
        Digits.MulAtLeast(windowMin, w - limit / windowMin);
      }
    }
    MulMonotone(w + 1, limit / windowMin + 1, RATE_WINDOW + idle);
  }

  lemma BoundMeans(limit: nat, minRate: nat, idle: nat)
    requires minRate > 0
    ensures Bound(limit, 5 * minRate, idle) == (limit / (5 * minRate) + 1) * (5_000_000_000 + idle)
  {}

  lemma MulMonotone(a: int, b: int, c: int)
    requires a <= b && c >= 0
    ensures a * c <= b * c
  {}

  method StreamBody(script: seq<Read>, limit: nat, minRate: nat, idle: nat)
    returns (total: nat, outcome: Outcome, written: seq<Byte>, used: nat)
    // the reads consumed
    ensures used <= |script| && total == |Received(script[..used])|
    // never a byte past the limit, and what is written is what was read, in order
    ensures |written| <= limit && written <= Received(script[..used])
    ensures outcome == Finished ==> used > 0 && script[used - 1].end == Eof
    ensures outcome == Finished ==> written == Received(script[..used]) && total == |written|
    ensures outcome == StillReading ==> used == |script| && written == Received(script)
    ensures outcome == TooLarge || outcome == WriteFailed ==> used > 0 && script[used - 1].data != []
    ensures outcome == WriteFailed ==> !script[used - 1].writable
    ensures outcome == Stalled ==> used > 0 && script[used - 1].end == Timeout
    ensures outcome == ReadFailed ==> used > 0 && script[used - 1].end == Broken
    ensures outcome == TooSlow ==> minRate > 0 && used > 0
    // it stops exactly at the first read that gives a reason
    ensures Ends(script, limit, 5 * minRate, used, outcome)
    ensures outcome == TooLarge <==> total > limit
    // an upload cannot hold its slot longer than this
    ensures minRate > 0 && WithinIdle(script, idle) ==> Elapsed(script[..used]) <= Bound(limit, 5 * minRate, idle)
  {
    hide Elapsed, Received, Bound, WithinIdle, Paced, Mark, StopAt;
    var windowMin := minRate * 5;
    var clock: nat := 0;
    var windowStart: nat, windowBytes: nat := 0, 0;
    ghost var w: nat, windowFrom: nat := 0, 0;
    ghost var timed := windowMin > 0 && WithinIdle(script, idle);
    total, written, used := 0, [], 0;
    Nothing(script, limit, windowMin, idle);
    while used < |script|
      invariant used <= |script| && written == Received(script[..used]) && total == |written| <= limit
      invariant clock == Elapsed(script[..used])
      invariant windowFrom <= used && windowStart == Elapsed(script[..windowFrom])
      invariant windowBytes == total - |Received(script[..windowFrom])|
      invariant windowMin > 0 ==> clock - windowStart < RATE_WINDOW && windowFrom == Mark(script, used)
      invariant forall i :: 0 <= i < used ==> StopAt(script, i, limit, windowMin) == StillReading
      invariant timed ==> Paced(w, windowStart, total - windowBytes, windowMin, idle)
      invariant timed ==> clock <= Bound(limit, windowMin, idle)
    {
      var r := script[used];
      Grows(script, used);
      NextMark(script, used);
      Judged(script, used, limit, windowMin);
      if timed { ReadInTime(script, used, w, windowStart, clock, total - windowBytes, limit, windowMin, idle); }
      used := used + 1;
      clock := clock + r.duration;
      if |r.data| > 0 {
        total := total + |r.data|;
        windowBytes := windowBytes + |r.data|;
        if total > limit { return total, TooLarge, written, used; }
        if !r.writable { return total, WriteFailed, written, used; }
        written := written + r.data;
      }
      assert written == Received(script[..used]);
      if windowMin > 0 && clock - windowStart >= RATE_WINDOW {
        if windowBytes < windowMin {
          return total, TooSlow, written, used;
        }
        if timed { NextWindow(w, windowStart, clock, total - windowBytes, total, windowMin, idle); }
        w, windowFrom := w + 1, used;
        windowStart := clock;
        windowBytes := 0;
      }
      if r.end == Eof { return total, Finished, written, used; }
      if r.end != More {
        return total, if r.end == Timeout then Stalled else ReadFailed, written, used;
      }
    }
    assert script[..used] == script;
    outcome := StillReading;
  }

  /** After w full windows, the last ending at windowStart with `accepted` bytes. */
  ghost predicate Paced(w: nat, windowStart: int, accepted: int, windowMin: nat, idle: nat) {
    w * windowMin <= accepted && windowStart <= w * (RATE_WINDOW + idle)
  }

  lemma Nothing(script: seq<Read>, limit: nat, windowMin: nat, idle: nat)
    ensures Elapsed(script[..0]) == 0 && Received(script[..0]) == []
    ensures Paced(0, 0, 0, windowMin, idle)
    ensures windowMin > 0 ==> Bound(limit, windowMin, idle) >= 0
  {}

  lemma Grows(script: seq<Read>, i: nat)
    requires i < |script|
    ensures Elapsed(script[..i + 1]) == Elapsed(script[..i]) + script[i].duration
    ensures Received(script[..i + 1]) == Received(script[..i]) + script[i].data
  {
    assert script[..i + 1][..i] == script[..i];
  }

  lemma NextMark(script: seq<Read>, i: nat)
    requires i < |script|
    ensures Mark(script, 0) == 0
    ensures Mark(script, i + 1) ==
      if Elapsed(script[..i + 1]) - Elapsed(script[..Mark(script, i)]) >= RATE_WINDOW then i + 1 else Mark(script, i)
  {}

  /** What the loop asks of one read, in terms of the positions it keeps. */
  lemma Judged(script: seq<Read>, i: nat, limit: nat, windowMin: nat)
    requires i < |script|
    ensures var r := script[i]; var m := Mark(script, i);
      StopAt(script, i, limit, windowMin) ==
      if |r.data| > 0 && |Received(script[..i + 1])| > limit then TooLarge
      else if |r.data| > 0 && !r.writable then WriteFailed
      else if windowMin > 0 && Elapsed(script[..i + 1]) - Elapsed(script[..m]) >= RATE_WINDOW
              && |Received(script[..i + 1])| - |Received(script[..m])| < windowMin then TooSlow
      else if r.end == Eof then Finished
      else if r.end == Timeout then Stalled
      else if r.end == Broken then ReadFailed
      else StillReading
  {
    hide Elapsed, Received, Mark;
  }

  lemma ReadInTime(script: seq<Read>, i: nat, w: nat, windowStart: int, clock: int, accepted: int, limit: nat,
                   windowMin: nat, idle: nat)
    requires i < |script| && WithinIdle(script, idle) && windowMin > 0
    requires Paced(w, windowStart, accepted, windowMin, idle) && clock - windowStart < RATE_WINDOW && accepted <= limit
    requires clock >= 0
    ensures clock + script[i].duration - windowStart <= RATE_WINDOW + idle
    ensures clock + script[i].duration <= Bound(limit, windowMin, idle)
  {
    hide Bound;
    AddWindow(w, windowStart, clock + script[i].duration, idle);
    WindowsBound(w, clock + script[i].duration, limit, windowMin, idle);
  }

  lemma AddWindow(w: nat, windowStart: int, clock: int, idle: nat)
    requires windowStart <= w * (RATE_WINDOW + idle) && clock - windowStart <= RATE_WINDOW + idle
    ensures clock <= (w + 1) * (RATE_WINDOW + idle)
  {}

  lemma NextWindow(w: nat, windowStart: int, clock: int, before: int, total: int, windowMin: nat, idle: nat)
    requires Paced(w, windowStart, before, windowMin, idle)
    requires clock - windowStart <= RATE_WINDOW + idle && total - before >= windowMin
    ensures Paced(w + 1, clock, total, windowMin, idle)
  {
    AddWindow(w, windowStart, clock, idle);
  }

}
