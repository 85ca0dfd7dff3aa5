/** The three cursor loops that walk an event store past its per-query cap. */
module PagedWalks {
  import opened Coordinates
  import opened Text
  import opened Wrappers
  import Digits

  const PAGE: nat := 1000
  const SCAN_CEILING: nat := 200000

  // ---- the store ----

  /** What a store holds for one filter: newest first, one entry per id. */
  ghost predicate Store(events: seq<Event>) {
    (forall i, j :: 0 <= i < j < |events| ==> events[i].createdAt >= events[j].createdAt)
    && (forall i, j :: 0 <= i < j < |events| ==> events[i].id != events[j].id)
  }

  /** The position of the newest event dated at or before until. */
  function Start(events: seq<Event>, until: int): (p: nat)
    ensures p <= |events|
    ensures forall i :: 0 <= i < p ==> events[i].createdAt > until
    ensures p < |events| ==> events[p].createdAt <= until
  {
    if events == [] || events[0].createdAt <= until then 0 else 1 + Start(events[1..], until)
  }

  function Min(a: int, b: int): int { if a < b then a else b }

  /** QueryEvents of NIP-01: the newest `limit` events dated at or before until. */
  function Query(events: seq<Event>, until: int, limit: nat): (page: seq<Event>)
    ensures page == events[Start(events, until)..Min(|events|, Start(events, until) + limit)]
  {
    events[Start(events, until)..Min(|events|, Start(events, until) + limit)]
  }

  function InRange(events: seq<Event>, until: int): seq<Event> { events[Start(events, until)..] }

  function Ids(events: seq<Event>): set<string> { set e | e in events :: e.id }

  function Selected(events: seq<Event>, matches: Event -> bool): seq<Event> {
    if events == [] then []
    else
      var n := |events| - 1;
      Selected(events[..n], matches) + if matches(events[n]) then [events[n]] else []
  }

  /** The positions of the events that match, in order. */
  function Positions(events: seq<Event>, matches: Event -> bool): (at: seq<nat>)
    ensures forall i :: 0 <= i < |at| ==> at[i] < |events| && matches(events[at[i]])
    ensures forall i, j :: 0 <= i < j < |at| ==> at[i] < at[j]
  {
    if events == [] then []
    else
      var n := |events| - 1;
      var init := Positions(events[..n], matches);
      if matches(events[n]) then init + [n] else init
  }

  /** The selected events are those at the matching positions, */
  lemma {:induction false} SelectedMeans(events: seq<Event>, matches: Event -> bool, i: nat)
    ensures |Selected(events, matches)| == |Positions(events, matches)|
    ensures i < |Selected(events, matches)| ==>
      Selected(events, matches)[i] == events[Positions(events, matches)[i]]
  {
    if events != [] { SelectedMeans(events[..|events| - 1], matches, i); }
  }

  /** and no matching position is left out. */
  lemma {:induction false} NoneLeftOut(events: seq<Event>, matches: Event -> bool, k: nat)
    requires k < |events| && matches(events[k])
    ensures k in Positions(events, matches)
  {
    var n := |events| - 1;
    if k < n {
      assert events[..n][k] == events[k];
      NoneLeftOut(events[..n], matches, k);
    }
  }

  // ---- how far a walk that re-reads the boundary second gets ----

  /** A full page, starting at i, that never leaves one second. */
  predicate FullSecond(events: seq<Event>, i: nat) {
    i + PAGE <= |events| && events[i].createdAt == events[i + PAGE - 1].createdAt
  }

  function FirstFullSecond(events: seq<Event>, from: nat): (r: Option<nat>)
    requires from <= |events|
    ensures r.None? ==> forall i :: from <= i ==> !FullSecond(events, i)
    ensures r.Some? ==> r.value >= from && FullSecond(events, r.value)
    ensures r.Some? ==> forall i :: from <= i < r.value ==> !FullSecond(events, i)
    decreases |events| - from
  {
    if FullSecond(events, from) then Some(from)
    else if from == |events| then None
    else FirstFullSecond(events, from + 1)
  }

  /** The number of in-range events such a walk visits before it stops of its own accord. */
  function Reach(events: seq<Event>): (n: nat)
    ensures n <= |events|
  {
    match FirstFullSecond(events, 0)
    case None => |events|
    case Some(i) => i + PAGE
  }

  /** The walk is complete exactly when nothing follows a second that fills a whole page. */
  lemma ReachIsAll(events: seq<Event>)
    ensures Reach(events) == |events| <==> !exists i: nat :: FullSecond(events, i) && i + PAGE < |events|
  {
    var first := FirstFullSecond(events, 0);
    if first.Some? && first.value + PAGE == |events| {
      forall i: nat | FullSecond(events, i)
        ensures i + PAGE == |events|
      {}
    }
  }

  /** Every second holds fewer events than a page. */
  ghost predicate Sparse(events: seq<Event>) {
    forall i, j :: 0 <= i <= j < |events| && events[i].createdAt == events[j].createdAt ==> j - i + 1 < PAGE
  }

  lemma SparseReachIsAll(events: seq<Event>)
    requires Sparse(events)
    ensures Reach(events) == |events|
  {
    forall i: nat
      ensures !FullSecond(events, i)
    {}
  }

  // ---- facts both loops share ----

  /** Between two rounds: the next page starts at p, the first n events have been visited, and of
      those the next page can only repeat events dated exactly until. */
  ghost predicate Between(events: seq<Event>, until: int, n: nat) {
    var p := Start(events, until);
    && p <= n <= |events| && n <= p + PAGE
    && (forall i :: p <= i < n ==> events[i].createdAt == until)
    && (forall i :: 0 <= i < p ==> !FullSecond(events, i))
  }

  lemma BetweenAtStart(events: seq<Event>, until: int)
    requires Start(events, until) == 0
    ensures Between(events, until, 0)
  {}

  /** A repeat is recognised by its id. */
  lemma SeenExactly(events: seq<Event>, n: nat, i: nat)
    requires Store(events) && n <= |events| && i < |events|
    ensures events[i].id in Ids(events[..n]) <==> i < n
  {
    if i < n {
      assert events[i] == events[..n][i];
    } else {
      forall e | e in events[..n]
        ensures e.id != events[i].id
      {
        var j :| 0 <= j < n && events[j] == e;
      }
    }
  }

  lemma IdsGrow(events: seq<Event>, n: nat)
    requires n < |events|
    ensures Ids(events[..n + 1]) == Ids(events[..n]) + {events[n].id}
  {
    assert events[..n + 1] == events[..n] + [events[n]];
  }

  /** What a later page can repeat of a page that ended at `oldest` is dated exactly `oldest`: so a
      walk that skips repeats before it updates its cursor misses nothing. */
  lemma RepeatsAreBoundary(events: seq<Event>, e: nat, oldest: int)
    requires Store(events) && 0 < e <= |events| && oldest == events[e - 1].createdAt
    ensures Start(events, oldest) < e
    ensures forall i :: Start(events, oldest) <= i < e ==> events[i].createdAt == oldest
  {
    hide Start;
    StartBounds(events, oldest);
  }

  /** A full page that reached an older second: the walk goes on, strictly further. */
  lemma Advance(events: seq<Event>, until: int, n: nat, oldest: int)
    requires Store(events) && Between(events, until, n)
    requires Start(events, until) + PAGE <= |events|
    requires oldest == events[Start(events, until) + PAGE - 1].createdAt < until
    ensures Between(events, oldest, Start(events, until) + PAGE)
    ensures n < Start(events, until) + PAGE
  {
    hide Start, FullSecond;
    var p, q := Start(events, until), Start(events, oldest);
    StartBounds(events, until);
    StartBounds(events, oldest);
    RepeatsAreBoundary(events, p + PAGE, oldest);
    forall i | p <= i < q
      ensures !FullSecond(events, i)
    {
      NotFull(events, i, oldest);
    }
  }

  lemma StartBounds(events: seq<Event>, until: int)
    ensures Start(events, until) <= |events|
    ensures forall i :: 0 <= i < Start(events, until) ==> events[i].createdAt > until
    ensures Start(events, until) < |events| ==> events[Start(events, until)].createdAt <= until
  {}

  lemma NotFull(events: seq<Event>, i: nat, oldest: int)
    requires i < |events| && events[i].createdAt > oldest
    requires i + PAGE <= |events| ==> events[i + PAGE - 1].createdAt <= oldest
    ensures !FullSecond(events, i)
  {}

  /** A page that is short, or full and within one second, ends the walk at Reach. */
  lemma Finish(events: seq<Event>, until: int, n: nat)
    requires Store(events) && Between(events, until, n)
    requires Start(events, until) + PAGE <= |events| ==>
      events[Start(events, until) + PAGE - 1].createdAt == until
    ensures Reach(events) == Min(|events|, Start(events, until) + PAGE)
  {
    var p := Start(events, until);
    if p + PAGE <= |events| {
      assert events[p].createdAt == until by {
        assert events[p].createdAt >= events[p + PAGE - 1].createdAt;
      }
      assert FullSecond(events, p);
    } else {
      forall i | p <= i
        ensures !FullSecond(events, i)
      {}
    }
  }

  /** Below the range's upper end, querying the store is querying the range. */
  lemma QueryInRange(events: seq<Event>, until: int, u: int, limit: nat)
    requires u <= until
    ensures Query(events, u, limit) == Query(InRange(events, until), u, limit)
  {
    hide Start;
    var range := InRange(events, until);
    var p, r := Start(events, until), Start(range, u);
    StartBounds(events, until);
    StartBounds(range, u);
    assert forall i :: p <= i < p + r ==> events[i] == range[i - p];
    assert p + r < |events| ==> events[p + r] == range[r];
    StartUnique(events, u, p + r);
    SliceOfTail(events, p, r, limit);
  }

  lemma SliceOfTail(events: seq<Event>, p: nat, r: nat, limit: nat)
    requires p <= |events| && p + r <= |events|
    ensures var tail := events[p..];
      events[p + r..Min(|events|, p + r + limit)] == tail[r..Min(|tail|, r + limit)]
  {}

  lemma StartUnique(events: seq<Event>, until: int, p: nat)
    requires p <= |events| && (forall i :: 0 <= i < p ==> events[i].createdAt > until)
    requires p < |events| ==> events[p].createdAt <= until
    ensures Start(events, until) == p
  {}

  lemma StoreInRange(events: seq<Event>, until: int)
    requires Store(events)
    ensures Store(InRange(events, until)) && Start(InRange(events, until), until) == 0
  {}

  lemma SelectedGrows(events: seq<Event>, n: nat, matches: Event -> bool)
    requires n < |events|
    ensures Selected(events[..n + 1], matches) ==
      Selected(events[..n], matches) + if matches(events[n]) then [events[n]] else []
  {
    assert events[..n + 1][..n] == events[..n];
  }

  /** One page of the paged query, cut short when the limit is reached. */
  method ScanPage(page: seq<Event>, matches: Event -> bool, limit: nat, until: int, out0: seq<Event>,
                  seen0: set<string>, scanned0: nat, ghost range: seq<Event>, ghost p: nat)
    returns (out: seq<Event>, seen: set<string>, scanned: nat, oldest: int, full: bool)
    requires Store(range) && p <= scanned0 <= |range| && p + |page| <= |range| && page == range[p..p + |page|]
    requires seen0 == Ids(range[..scanned0]) && out0 == Selected(range[..scanned0], matches) && |out0| < limit
    requires p < |range| ==> range[p].createdAt <= until
    ensures scanned <= |range| && seen == Ids(range[..scanned]) && out == Selected(range[..scanned], matches)
    ensures if full then |out| == limit else |out| < limit
    ensures scanned <= scanned0 + |page|
    ensures !full ==> scanned == if p + |page| > scanned0 then p + |page| else scanned0
    ensures !full ==> oldest == if page == [] then until else range[p + |page| - 1].createdAt
  {
    hide Store, Ids, Selected;
    out, seen, scanned, oldest := out0, seen0, scanned0, until;
    for got := 0 to |page|
      invariant scanned == (if p + got > scanned0 then p + got else scanned0)
      invariant seen == Ids(range[..scanned])
      invariant out == Selected(range[..scanned], matches) && |out| < limit
      invariant oldest == if got == 0 then until else range[p + got - 1].createdAt
    {
      var evt := page[got];
      assert evt == range[p + got];
      SeenExactly(range, scanned, p + got);
      if got > 0 { Sorted(range, p + got - 1, p + got); }
      if evt.id !in seen {
        IdsGrow(range, scanned);
        SelectedGrows(range, scanned, matches);
        seen := seen + {evt.id};
        scanned := scanned + 1;
        if matches(evt) {
          out := out + [evt];
          if |out| >= limit { return out, seen, scanned, oldest, true; }
        }
      }
      if evt.createdAt < oldest { oldest := evt.createdAt; }
    }
    full := false;
  }

  /** `queryEventsPaged`. `failing(k)` says that the store's k-th query returns an error. */
  method QueryEventsPaged(events: seq<Event>, start: int, matches: Event -> bool, limit: nat,
                          failing: nat -> bool)
    returns (out: seq<Event>, truncated: bool, scanned: nat, ghost failed: bool)
    requires Store(events) && limit >= 1
    // always: the matches among a newest-first prefix of the range, no event twice
    ensures scanned <= |InRange(events, start)|
    ensures out == Selected(InRange(events, start)[..scanned], matches) && |out| <= limit
    // why it stopped
    ensures truncated ==> !failed && (|out| == limit || scanned >= 200000)
    ensures scanned < 201000
    ensures |out| == limit ==> truncated
    ensures failed ==> exists k :: failing(k)
    ensures !truncated && !failed ==> scanned == Reach(InRange(events, start))
  {
    hide Start, Query, Ids, Selected, Reach, FullSecond, Store, Between, InRange;
    ghost var range := InRange(events, start);
    StoreInRange(events, start);
    BetweenAtStart(range, start);
    var seen: set<string> := {};
    var until := start;
    var round: nat := 0;
    out, scanned, failed := [], 0, false;
    NothingYet(range, matches);
    while true
      invariant until <= start && scanned <= |range| && Between(range, until, scanned) && scanned < SCAN_CEILING
      invariant seen == Ids(range[..scanned])
      invariant out == Selected(range[..scanned], matches) && |out| < limit
      decreases |range| - scanned
    {
      if failing(round) { return out, false, scanned, true; }
      round := round + 1;
      var page := Query(events, until, PAGE);
      ghost var n := scanned;
      QueryInRange(events, start, until, PAGE);
      PageIs(range, until, n);
      var oldest, full;
      out, seen, scanned, oldest, full :=
        ScanPage(page, matches, limit, until, out, seen, scanned, range, Start(range, until));
      if full { return out, true, scanned, false; }
      if |page| < PAGE || oldest >= until {
        Finish(range, until, n);
        return out, false, scanned, false;
      }
      Advance(range, until, n, oldest);
      if scanned >= SCAN_CEILING { return out, true, scanned, false; }
      until := oldest;
    }
  }

  lemma NothingYet(range: seq<Event>, matches: Event -> bool)
    ensures Ids(range[..0]) == {} && Selected(range[..0], matches) == []
  {}

  lemma PageIs(range: seq<Event>, until: int, n: nat)
    requires Between(range, until, n)
    ensures Start(range, until) <= n <= |range| && n <= Start(range, until) + PAGE
    ensures forall i :: Start(range, until) <= i < n ==> range[i].createdAt == until
    ensures Query(range, until, PAGE) == range[Start(range, until)..Min(|range|, Start(range, until) + PAGE)]
    ensures Start(range, until) < |range| ==> range[Start(range, until)].createdAt <= until
  {}

  /** One page of the index rebuild: repeats are skipped before `oldest` is updated. */
  method NotePage(page: seq<Event>, noted0: seq<Event>, seen0: set<string>, until: int,
                  ghost range: seq<Event>, ghost p: nat)
    returns (noted: seq<Event>, seen: set<string>, oldest: int)
    requires Store(range) && p <= |noted0| <= |range| && p + |page| <= |range|
    requires page == range[p..p + |page|] && noted0 == range[..|noted0|] && seen0 == Ids(noted0)
    requires forall i :: p <= i < |noted0| ==> range[i].createdAt == until
    requires p < |range| ==> range[p].createdAt <= until
    ensures noted == range[..if p + |page| > |noted0| then p + |page| else |noted0|] && seen == Ids(noted)
    ensures oldest == if page == [] then until else range[p + |page| - 1].createdAt
  {
    hide Store, Ids;
    noted, seen, oldest := noted0, seen0, until;
    ghost var n := |noted0|;
    for got := 0 to |page|
      invariant n == (if p + got > |noted0| then p + got else |noted0|)
      invariant noted == range[..n] && seen == Ids(range[..n])
      invariant oldest == if got == 0 then until else range[p + got - 1].createdAt
    {
      var evt := page[got];
      assert evt == range[p + got];
      SeenExactly(range, n, p + got);
      if got > 0 { Sorted(range, p + got - 1, p + got); }
      if evt.id in seen { continue; }
      IdsGrow(range, n);
      seen := seen + {evt.id};
      noted := noted + [evt];
      n := n + 1;
      if evt.createdAt < oldest { oldest := evt.createdAt; }
    }
  }

  /** `backfillRefs`: every event of the range up to Reach is noted once, newest first. */
  method BackfillRefs(events: seq<Event>, now: int, failing: nat -> bool)
    returns (noted: seq<Event>, ghost failed: bool)
    requires Store(events)
    ensures noted <= InRange(events, now)
    ensures failed ==> exists k :: failing(k)
    ensures !failed ==> noted == InRange(events, now)[..Reach(InRange(events, now))]
  {
    hide Start, Query, Ids, Reach, FullSecond, Store, Between, InRange;
    ghost var range := InRange(events, now);
    StoreInRange(events, now);
    BetweenAtStart(range, now);
    var seen: set<string> := {};
    var until := now;
    var round: nat := 0;
    noted, failed := [], false;
    NothingYet(range, _ => true);
    while true
      invariant until <= now && |noted| <= |range| && noted == range[..|noted|]
      invariant Between(range, until, |noted|) && seen == Ids(noted)
      decreases |range| - |noted|
    {
      if failing(round) { return noted, true; }
      round := round + 1;
      var page := Query(events, until, PAGE);
      ghost var n := |noted|;
      QueryInRange(events, now, until, PAGE);
      PageIs(range, until, n);
      var oldest;
      noted, seen, oldest := NotePage(page, noted, seen, until, range, Start(range, until));
      if |page| < PAGE || oldest >= until {
        Finish(range, until, n);
        return noted, false;
      }
      Advance(range, until, n, oldest);
      until := oldest;
    }
  }

  /** A second of n events. */
  function Burst(n: nat, t: int): (events: seq<Event>)
    requires n <= 10000
    ensures |events| == n && forall i :: 0 <= i < n ==> events[i].createdAt == t && events[i].id == PaddedId(i)
  {
    seq(n, i requires 0 <= i < n => Event(PaddedId(i), "", t, 0, [], ""))
  }

  lemma BurstIsStore(n: nat, t: int)
    requires n <= 10000
    ensures Store(Burst(n, t)) && forall i :: 0 <= i < n ==> Burst(n, t)[i].WellFormed()
  {
    hide PaddedId;
    var events := Burst(n, t);
    forall i, j | 0 <= i < j < n
      ensures events[i].id != events[j].id
    {
      PaddedIds(i, j);
    }
    forall i | 0 <= i < n
      ensures events[i].WellFormed()
    {
      PaddedIds(i, i);
    }
  }

  /** A second of 1001 events: 1000 are visited, and the admin query reports them as everything. */
  lemma BurstNotFinished(t: int)
    ensures Store(Burst(1001, t)) && Start(Burst(1001, t), t) == 0
    ensures Reach(Burst(1001, t)) == 1000
  {
    BurstIsStore(1001, t);
    assert FullSecond(Burst(1001, t), 0);
  }

  // ---- the relay walk, which steps past the boundary second instead ----

  /** Page ends fall on multiples of the cap k. The walk gets over the end e when no second
      straddles it and the page before it reached below its own upper end. */
  ghost predicate Crosses(events: seq<Event>, start: int, k: nat, e: nat)
    requires 0 < k <= e < |events|
  {
    && events[e].createdAt < events[e - 1].createdAt
    && events[e - 1].createdAt < if e == k then start else events[e - k - 1].createdAt - 1
  }

  ghost predicate Complete(events: seq<Event>, start: int, k: nat)
    requires k > 0
  {
    forall e :: k <= e < |events| && e % k == 0 ==> Crosses(events, start, k, e)
  }

  lemma NextMultiple(s: nat, k: nat)
    requires k > 0 && s % k == 0
    ensures (s + k) % k == 0
    ensures forall e :: s < e < s + k ==> e % k != 0
  {
    Digits.Fundamental(s, k);
    Digits.DivModUnique(s + k, k, s / k + 1, 0);
    forall e | s < e < s + k
      ensures e % k != 0
    {
      Digits.DivModUnique(e, k, s / k, e - s);
    }
  }

  /** The events a relay walk may still ask for lie at or after s; so far nothing was missed, or
      something was and can no longer be reached. */
  ghost predicate OnTrack(events: seq<Event>, start: int, k: nat, until: int, s: nat)
    requires k > 0
  {
    && s == Start(events, until)
    && (s == |events| || s % k == 0)
    && (s == 0 ==> until == start)
    && (s > 0 ==> until == events[s - 1].createdAt - 1)
    && (forall e :: k <= e <= s && e < |events| && e % k == 0 ==> Crosses(events, start, k, e))
  }

  lemma Sorted(events: seq<Event>, i: nat, j: nat)
    requires Store(events) && i <= j < |events|
    ensures events[i].createdAt >= events[j].createdAt
    ensures i < j ==> events[i].id != events[j].id
  {}

  /** The next start lies behind everything dated oldest or later, and right behind e - 1 exactly
      when the second ends there. */
  lemma StartBelow(events: seq<Event>, e: nat)
    requires Store(events) && 0 < e <= |events|
    ensures Start(events, events[e - 1].createdAt - 1) >= e
    ensures e < |events| ==>
      (Start(events, events[e - 1].createdAt - 1) == e <==> events[e].createdAt < events[e - 1].createdAt)
  {
    hide Store, Start;
    var q := Start(events, events[e - 1].createdAt - 1);
    StartBounds(events, events[e - 1].createdAt - 1);
    if q < e { Sorted(events, q, e - 1); }
  }

  /** What one full page does: the next start is right behind it exactly when its end is crossed. */
  lemma Cross(events: seq<Event>, start: int, k: nat, until: int, s: nat)
    requires Store(events) && k > 0 && OnTrack(events, start, k, until, s)
    requires s + k < |events|
    ensures Crosses(events, start, k, s + k) <==>
      events[s + k - 1].createdAt < until && Start(events, events[s + k - 1].createdAt - 1) == s + k
  {
    hide Start, Store;
    StartBelow(events, s + k);
  }

  lemma KeepOnTrack(events: seq<Event>, start: int, k: nat, until: int, s: nat)
    requires Store(events) && k > 0 && OnTrack(events, start, k, until, s)
    requires s + k < |events| && Crosses(events, start, k, s + k)
    ensures OnTrack(events, start, k, events[s + k - 1].createdAt - 1, s + k)
  {
    Cross(events, start, k, until, s);
    NextMultiple(s, k);
  }

  lemma OnTrackToTheEnd(events: seq<Event>, start: int, k: nat, until: int, s: nat)
    requires k > 0 && OnTrack(events, start, k, until, s) && s + k >= |events|
    ensures Complete(events, start, k)
  {
    if s % k == 0 { NextMultiple(s, k); }
  }

  lemma OffTrack(events: seq<Event>, start: int, k: nat, until: int, s: nat)
    requires k > 0 && OnTrack(events, start, k, until, s)
    requires s + k < |events| && !Crosses(events, start, k, s + k)
    ensures !Complete(events, start, k)
  {
    NextMultiple(s, k);
  }

  function Upto(from: nat, to: nat): (ps: seq<nat>)
    requires from <= to
    ensures |ps| == to - from && forall i :: 0 <= i < |ps| ==> ps[i] == from + i
  {
    seq(to - from, i => from + i)
  }

  /** Events handed out by their positions: newest first, none twice. */
  ghost predicate Offered(events: seq<Event>, offered: seq<Event>, at: seq<nat>, s: nat) {
    && |at| == |offered| <= s <= |events|
    && (forall i :: 0 <= i < |at| ==> at[i] < s && offered[i] == events[at[i]])
    && (forall i, j :: 0 <= i < j < |at| ==> at[i] < at[j])
  }

  lemma OfferPage(events: seq<Event>, offered: seq<Event>, at: seq<nat>, s: nat, e: nat, next: nat)
    requires Offered(events, offered, at, s) && s <= e <= next <= |events|
    ensures Offered(events, offered + events[s..e], at + Upto(s, e), next)
  {}

  /** The state before a round: nothing missed so far, or something missed for good. */
  ghost predicate Walking(events: seq<Event>, start: int, k: nat, until: int, offered: seq<Event>, at: seq<nat>,
                          on: bool)
    requires k > 0
  {
    var s := Start(events, until);
    && Offered(events, offered, at, s)
    && (on ==> OnTrack(events, start, k, until, s) && offered == events[..s])
    && (!on ==> |offered| < s && !Complete(events, start, k))
  }

  lemma StartWalking(events: seq<Event>, start: int, k: nat)
    requires k > 0 && Start(events, start) == 0
    ensures Walking(events, start, k, start, [], [], true)
  {}

  lemma StopWalking(events: seq<Event>, start: int, k: nat, until: int, offered: seq<Event>, at: seq<nat>, on: bool)
    returns (at': seq<nat>)
    requires Store(events) && k > 0 && Walking(events, start, k, until, offered, at, on)
    requires var page := Query(events, until, k); page == [] || page[|page| - 1].createdAt >= until
    ensures Offered(events, offered + Query(events, until, k), at', |events|)
    ensures offered + Query(events, until, k) == events <==> Complete(events, start, k)
  {
    hide Store, Start, OnTrack, Complete, Offered, Query;
    var s := Start(events, until);
    var e := Min(|events|, s + k);
    StartBounds(events, until);
    assert Query(events, until, k) == events[s..e] by { QueryIs(events, until, k); }
    OfferPage(events, offered, at, s, e, |events|);
    at' := at + Upto(s, e);
    if on {
      UpTo(events, s, e);
      LastPage(events, start, k, until, s, e);
    } else {
      assert |offered + events[s..e]| < |events|;
    }
  }

  lemma KeepWalking(events: seq<Event>, start: int, k: nat, until: int, offered: seq<Event>, at: seq<nat>, on: bool)
    returns (at': seq<nat>, on': bool)
    requires Store(events) && k > 0 && Walking(events, start, k, until, offered, at, on)
    requires var page := Query(events, until, k); page != [] && page[|page| - 1].createdAt < until
    ensures var page := Query(events, until, k); var next := page[|page| - 1].createdAt - 1;
      && Walking(events, start, k, next, offered + page, at', on')
      && Start(events, until) < Start(events, next)
  {
    hide Store, Start, OnTrack, Complete, Offered;
    var s := Start(events, until);
    var e := Min(|events|, s + k);
    var next := events[e - 1].createdAt - 1;
    StartBelow(events, e);
    StartBounds(events, next);
    OfferPage(events, offered, at, s, e, Start(events, next));
    at' := at + Upto(s, e);
    on' := on;
    if on {
      assert events[..s] + events[s..e] == events[..e];
      on' := NextPage(events, start, k, until, s, e);
    }
  }

  lemma UpTo(events: seq<Event>, s: nat, e: nat)
    requires s <= e <= |events|
    ensures events[..s] + events[s..e] == events[..e]
    ensures events[..e] == events <==> e == |events|
    ensures e > s ==> events[s..e] != [] && events[s..e][|events[s..e]| - 1] == events[e - 1]
  {}

  lemma QueryIs(events: seq<Event>, until: int, limit: nat)
    ensures var s := Start(events, until); Query(events, until, limit) == events[s..Min(|events|, s + limit)]
  {}

  lemma PageBounds(events: seq<Event>, until: int, k: nat)
    requires Store(events)
    ensures Query(events, until, k) != [] ==> Query(events, until, k)[0].createdAt <= until
    ensures var page := Query(events, until, k);
      forall i, j :: 0 <= i < j < |page| ==> page[i].createdAt >= page[j].createdAt
  {}

  /** `backfillRelay` against a relay that answers at most k events per request. No event is offered
      twice, and all of them are offered exactly when every page end is crossed. */
  method BackfillRelay(events: seq<Event>, start: int, k: nat)
    returns (offered: seq<Event>, ghost at: seq<nat>)
    requires Store(events) && Start(events, start) == 0 && k >= 1
    ensures Offered(events, offered, at, |events|)
    ensures offered == events <==> Complete(events, start, k)
  {
    hide Start, Store, Complete, Offered, Walking, Query;
    offered, at := [], [];
    var until := start;
    ghost var on := true;
    StartWalking(events, start, k);
    while true
      invariant Walking(events, start, k, until, offered, at, on)
      decreases |events| - Start(events, until)
    {
      var page := Query(events, until, k);
      PageBounds(events, until, k);
      var oldest;
      ghost var before := offered;
      offered, oldest := OfferEach(page, offered, until);
      if |page| == 0 || oldest >= until {
        at := StopWalking(events, start, k, until, before, at, on);
        return;
      }
      at, on := KeepWalking(events, start, k, until, before, at, on);
      StartBounds(events, oldest - 1);
      until := oldest - 1;
    }
  }

  method OfferEach(page: seq<Event>, offered0: seq<Event>, until: int) returns (offered: seq<Event>, oldest: int)
    requires forall i, j :: 0 <= i < j < |page| ==> page[i].createdAt >= page[j].createdAt
    requires page != [] ==> page[0].createdAt <= until
    ensures offered == offered0 + page
    ensures oldest == if page == [] then until else page[|page| - 1].createdAt
  {
    offered, oldest := offered0, until;
    for got := 0 to |page|
      invariant offered == offered0 + page[..got]
      invariant oldest == if got == 0 then until else page[got - 1].createdAt
    {
      assert page[..got + 1] == page[..got] + [page[got]];
      if page[got].createdAt < oldest { oldest := page[got].createdAt; }
      offered := offered + [page[got]];
    }
  }

  /** A walk on track that stops is complete exactly when its last page reached the end. */
  lemma LastPage(events: seq<Event>, start: int, k: nat, until: int, s: nat, e: nat)
    requires Store(events) && k > 0 && OnTrack(events, start, k, until, s)
    requires e == Min(|events|, s + k) && (e > s ==> events[e - 1].createdAt >= until)
    ensures e == |events| <==> Complete(events, start, k)
  {
    if e < |events| {
      Cross(events, start, k, until, s);
      OffTrack(events, start, k, until, s);
    } else {
      OnTrackToTheEnd(events, start, k, until, s);
    }
  }

  /** A walk on track that goes on stays on track, or has just lost the rest of a second. */
  lemma NextPage(events: seq<Event>, start: int, k: nat, until: int, s: nat, e: nat) returns (on: bool)
    requires Store(events) && k > 0 && OnTrack(events, start, k, until, s)
    requires s < e == Min(|events|, s + k) && events[e - 1].createdAt < until
    ensures on ==> Start(events, events[e - 1].createdAt - 1) == e
    ensures on ==> OnTrack(events, start, k, events[e - 1].createdAt - 1, e)
    ensures !on ==> e < Start(events, events[e - 1].createdAt - 1) && !Complete(events, start, k)
  {
    hide Store, Start, Complete, Crosses;
    StartBelow(events, e);
    if e == |events| {
      EndOnTrack(events, start, k, until, s);
      return true;
    }
    Cross(events, start, k, until, s);
    on := Crosses(events, start, k, e);
    StartBounds(events, events[e - 1].createdAt - 1);
    if on {
      KeepOnTrack(events, start, k, until, s);
    } else {
      OffTrack(events, start, k, until, s);
    }
  }

  /** Behind the last event there is nothing left to miss. */
  lemma EndOnTrack(events: seq<Event>, start: int, k: nat, until: int, s: nat)
    requires Store(events) && k > 0 && OnTrack(events, start, k, until, s) && s < |events| <= s + k
    ensures OnTrack(events, start, k, events[|events| - 1].createdAt - 1, |events|)
  {
    hide Start, Store;
    StartBelow(events, |events|);
    StartBounds(events, events[|events| - 1].createdAt - 1);
    NextMultiple(s, k);
  }

  // ---- when the relay walk is complete ----

  /** With a cap of at least two, pairwise distinct timestamps are enough. */
  lemma DistinctTimesComplete(events: seq<Event>, start: int, k: nat)
    requires Store(events) && Start(events, start) == 0 && k >= 2
    requires forall i, j :: 0 <= i < j < |events| ==> events[i].createdAt != events[j].createdAt
    ensures Complete(events, start, k)
  {
    forall e | k <= e < |events| && e % k == 0
      ensures Crosses(events, start, k, e)
    {
      assert events[e - 1].createdAt < events[e - 2].createdAt;
      if e > k { assert events[e - 2].createdAt < events[e - k - 1].createdAt; }
    }
  }

  /** The event before position e lies more than a second below the one before it. */
  ghost predicate Gap(events: seq<Event>, start: int, e: nat)
    requires 1 <= e <= |events|
  {
    events[e - 1].createdAt < if e == 1 then start else events[e - 2].createdAt - 1
  }

  /** With a cap of one they are not: the walk stops at the first pair of consecutive seconds. */
  lemma CapOneComplete(events: seq<Event>, start: int)
    requires Store(events) && Start(events, start) == 0
    requires forall i, j :: 0 <= i < j < |events| ==> events[i].createdAt != events[j].createdAt
    ensures Complete(events, start, 1) <==> forall e :: 1 <= e < |events| ==> Gap(events, start, e)
  {
    forall e | 1 <= e < |events|
      ensures e % 1 == 0 && (Crosses(events, start, 1, e) <==> Gap(events, start, e))
    {
      assert events[e].createdAt < events[e - 1].createdAt;
    }
  }

  lemma CapOneExample(a: Event, b: Event, c: Event)
    requires a.createdAt == 10 && b.createdAt == 9 && c.createdAt == 8 && a.id != b.id && b.id != c.id && a.id != c.id
    ensures Store([a, b, c]) && Start([a, b, c], 11) == 0 && !Complete([a, b, c], 11, 1)
  {
    var events := [a, b, c];
    assert 2 % 1 == 0 && !Crosses(events, 11, 1, 2);
  }
}
