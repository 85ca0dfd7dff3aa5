/** Mirroring another relay: the backward walk of `backfillRelay` feeding the write policy. What the
    node promises to be afterwards is a mirror of everything its policy accepts. */
module Mirroring {
  import opened Coordinates
  import opened RelayPolicy
  import RelayNode
  import PagedWalks

  /** Some stored event at e's address counts at least as much as e. */
  ghost predicate Covered(store: set<Event>, e: Event) { exists f :: f in store && SameAddress(f, e) && !Older(f, e) }

  // ---- revisions are ordered ----

  lemma {:induction false} IdAboveTransitive(a: string, b: string, c: string)
    requires IdAbove(a, b) && IdAbove(b, c)
    ensures IdAbove(a, c)
  {
    if b != "" && c != "" && a[0] == b[0] == c[0] { IdAboveTransitive(a[1..], b[1..], c[1..]); }
  }

  lemma {:induction false} NotAboveItself(a: string)
    ensures !IdAbove(a, a)
  {
    if a != "" { NotAboveItself(a[1..]); }
  }

  lemma OlderTransitive(a: Event, b: Event, c: Event)
    requires Older(a, b) && Older(b, c)
    ensures Older(a, c)
  {
    hide IdAbove;
    if IdAbove(a.id, b.id) && IdAbove(b.id, c.id) { IdAboveTransitive(a.id, b.id, c.id); }
  }

  /** Ids are hashes of the events they name. */
  ghost predicate OneEventPerId(store: set<Event>, evt: Event) { forall e :: e in store && e.id == evt.id ==> e == evt }

  // ---- one mirrored event ----

  lemma CoversItself(store: set<Event>, evt: Event)
    requires OneEventPerId(store, evt)
    ensures Covered(Replace(store, evt), evt)
  {
    hide IdAbove;
    NotAboveItself(evt.id);
    var rest := set e | e in store && !(SameAddress(e, evt) && Older(e, evt));
    if e :| e in AtAddress(store, evt) && !Older(e, evt) {
      assert e in rest;
    } else {
      assert evt in Insert(rest, evt);
    }
  }

  lemma StaysCovered(store: set<Event>, evt: Event, e: Event)
    requires WellKept(store) && OneEventPerId(store, evt) && Addressable(e.kind) && Covered(store, e)
    ensures Covered(Replace(store, evt), e)
  {
    hide IdAbove, Older;
    var f :| f in store && SameAddress(f, e) && !Older(f, e);
    var rest := set x | x in store && !(SameAddress(x, evt) && Older(x, evt));
    if SameAddress(f, evt) && Older(f, evt) {
      OnlyPrior(store, evt, f);
      assert Replace(store, evt) == Insert(rest, evt);
      assert evt in Insert(rest, evt);
      if Older(evt, e) { OlderTransitive(f, evt, e); }
    } else {
      assert f in rest;
    }
  }

  // ---- a whole history ----

  function IngestAll(cfg: Config, s: State, evts: seq<Event>): State {
    if evts == [] then s else Step(cfg, IngestAll(cfg, s, evts[..|evts| - 1]), Ingest(evts[|evts| - 1]))
  }

  /** Checked events, each id naming one event. */
  ghost predicate Mirrorable(store: set<Event>, evts: seq<Event>) {
    && (forall i :: 0 <= i < |evts| ==> evts[i].WellFormed())
    && (forall i :: 0 <= i < |evts| ==> OneEventPerId(store, evts[i]))
    && (forall i, j :: 0 <= i < j < |evts| && evts[i].id == evts[j].id ==> evts[i] == evts[j])
  }

  lemma IngestKeepsPolicy(cfg: Config, s: State, evt: Event, e: Event)
    ensures RejectEvent(cfg, Step(cfg, s, Ingest(evt)), e) == RejectEvent(cfg, s, e)
  {
    hide KindVerdict, ModerationKey, Replace;
  }

  lemma IngestAdds(cfg: Config, s: State, evt: Event)
    ensures Step(cfg, s, Ingest(evt)).store <= s.store + {evt}
  {}

  /** Whatever the order of a history: everything stored afterwards was stored before or is part of
      the history, and every addressable event of it that the policy accepts is stored, or superseded by
      a stored revision of the same address. */
  lemma {:induction false} MirrorsAll(cfg: Config, s: State, evts: seq<Event>)
    requires Inv(cfg, s) && Mirrorable(s.store, evts)
    ensures var t := IngestAll(cfg, s, evts);
      && Inv(cfg, t)
      && (forall e :: RejectEvent(cfg, t, e) == RejectEvent(cfg, s, e))
      && (forall e :: e in t.store ==> e in s.store || e in evts)
      && (forall e :: e in s.store && Addressable(e.kind) ==> Covered(t.store, e))
      && (forall e :: e in evts && Addressable(e.kind) && RejectEvent(cfg, s, e) == Accept ==> Covered(t.store, e))
  {
    hide Inv, RejectEvent, Step, Covered, Older, SameAddress, Mirrorable, OneEventPerId, Addressable;
    if evts == [] {
      forall e | e in s.store
        ensures Covered(s.store, e)
      {
        AlreadyCovered(s.store, e);
      }
    } else {
      var n := |evts| - 1;
      var before := IngestAll(cfg, s, evts[..n]);
      LastMirrorable(s.store, evts);
      MirrorsAll(cfg, s, evts[..n]);
      OneOfAll(s.store, evts, before.store);
      assert evts == evts[..n] + [evts[n]];
      MirrorOne(cfg, before, evts[n]);
    }
  }

  lemma LastMirrorable(store: set<Event>, evts: seq<Event>)
    requires Mirrorable(store, evts) && evts != []
    ensures Mirrorable(store, evts[..|evts| - 1]) && evts[|evts| - 1].WellFormed()
  {}

  /** The last event's id is its own among everything stored and mirrored before it. */
  lemma OneOfAll(store: set<Event>, evts: seq<Event>, later: set<Event>)
    requires Mirrorable(store, evts) && evts != [] && forall e :: e in later ==> e in store || e in evts[..|evts| - 1]
    ensures OneEventPerId(later, evts[|evts| - 1])
  {
    forall e | e in later && e.id == evts[|evts| - 1].id
      ensures e == evts[|evts| - 1]
    {
      if e !in store { SameInHistory(store, evts, e); }
    }
  }

  lemma AlreadyCovered(store: set<Event>, e: Event)
    requires e in store
    ensures Covered(store, e)
  {
    NotAboveItself(e.id);
  }

  lemma SameInHistory(store: set<Event>, evts: seq<Event>, e: Event)
    requires Mirrorable(store, evts) && evts != [] && e in evts[..|evts| - 1] && e.id == evts[|evts| - 1].id
    ensures e == evts[|evts| - 1]
  {
    var i :| 0 <= i < |evts| - 1 && evts[i] == e;
  }

  lemma MirrorOne(cfg: Config, s: State, evt: Event)
    requires Inv(cfg, s) && evt.WellFormed() && OneEventPerId(s.store, evt)
    ensures var t := Step(cfg, s, Ingest(evt));
      && Inv(cfg, t)
      && (forall e :: RejectEvent(cfg, t, e) == RejectEvent(cfg, s, e))
      && (forall e :: e in t.store ==> e in s.store || e == evt)
      && (forall e: Event :: Addressable(e.kind) && Covered(s.store, e) ==> Covered(t.store, e))
      && (RejectEvent(cfg, s, evt) == Accept ==> Covered(t.store, evt))
  {
    hide RejectEvent, Replace, Covered, KindVerdict, ModerationKey, WellKept;
    var t := Step(cfg, s, Ingest(evt));
    StepKeepsInv(cfg, s, Ingest(evt));
    forall e
      ensures RejectEvent(cfg, t, e) == RejectEvent(cfg, s, e)
    {
      IngestKeepsPolicy(cfg, s, evt, e);
    }
    IngestAdds(cfg, s, evt);
    if RejectEvent(cfg, s, evt) == Accept {
      CoversItself(s.store, evt);
      forall e: Event | Addressable(e.kind) && Covered(s.store, e)
        ensures Covered(t.store, e)
      {
        StaysCovered(s.store, evt, e);
      }
    }
  }

  /** What is left of a relay's answer once events with a bad signature or format are skipped. */
  function Checked(evts: seq<Event>, valid: Event -> bool): seq<Event> {
    if evts == [] then []
    else
      var n := |evts| - 1;
      Checked(evts[..n], valid) + if valid(evts[n]) then [evts[n]] else []
  }

  lemma {:induction false} InChecked(evts: seq<Event>, valid: Event -> bool)
    ensures forall e :: e in Checked(evts, valid) <==> e in evts && valid(e)
  {
    if evts != [] {
      var n := |evts| - 1;
      InChecked(evts[..n], valid);
      assert evts == evts[..n] + [evts[n]];
    }
  }

  /** The signature check lets through well-formed events only; among those at hand, no two have
      colliding ids. */
  ghost predicate Checks(valid: Event -> bool, store: set<Event>, evts: seq<Event>) {
    && (forall e :: valid(e) ==> e.WellFormed())
    && (forall e, f | (e in store || e in evts) && (f in store || f in evts) ::
          valid(e) && valid(f) && e.id == f.id ==> e == f)
  }

  lemma FewerChecks(valid: Event -> bool, store: set<Event>, evts: seq<Event>, fewer: seq<Event>)
    requires Checks(valid, store, evts) && forall e :: e in fewer ==> e in evts
    ensures Checks(valid, store, fewer)
  {}

  lemma CheckedMirrorable(store: set<Event>, evts: seq<Event>, valid: Event -> bool)
    requires Checks(valid, store, evts) && forall e :: e in store ==> valid(e)
    ensures Mirrorable(store, Checked(evts, valid))
  {
    InChecked(evts, valid);
    var c := Checked(evts, valid);
    assert forall i :: 0 <= i < |c| ==> c[i] in c && valid(c[i]);
  }

  /** Both halves of the ingest: the walk hands out a relay's events, good and bad, the checks and the
      policy decide on each. The mirror is complete whenever the walk is; the walk never depends on what
      is stored, so the pages are collected here before their events are offered. */
  method Backfill(relay: RelayNode.Relay, events: seq<Event>, start: int, k: nat, valid: Event -> bool)
    returns (offered: seq<Event>)
    requires PagedWalks.Store(events) && PagedWalks.Start(events, start) == 0 && k >= 1
    requires Inv(relay.cfg, relay.View()) && Checks(valid, relay.store, events)
    requires forall e :: e in relay.store ==> valid(e)
    modifies relay
    ensures relay.View() == IngestAll(relay.cfg, old(relay.View()), Checked(offered, valid))
    ensures Inv(relay.cfg, relay.View())
    ensures forall e :: e in relay.store ==> e in old(relay.store) || (e in events && valid(e))
    ensures offered == events <==> PagedWalks.Complete(events, start, k)
    ensures PagedWalks.Complete(events, start, k) ==>
      forall e | e in events && valid(e) && Addressable(e.kind) ::
        RejectEvent(relay.cfg, old(relay.View()), e) == Accept ==> Covered(relay.store, e)
  {
    hide Inv, Step, RejectEvent, Covered, Addressable, Checks, Mirrorable,
      PagedWalks.Store, PagedWalks.Start, PagedWalks.Complete;
    ghost var before := relay.View();
    ghost var at;
    offered, at := PagedWalks.BackfillRelay(events, start, k);
    assert forall e :: e in offered ==> e in events;
    assert Checks(valid, relay.store, offered) by { FewerChecks(valid, relay.store, events, offered); }
    CheckedMirrorable(relay.store, offered, valid);
    InChecked(offered, valid);
    MirrorsAll(relay.cfg, before, Checked(offered, valid));
    for i := 0 to |offered|
      invariant relay.View() == IngestAll(relay.cfg, before, Checked(offered[..i], valid))
    {
      assert offered[..i + 1][..i] == offered[..i];
      if valid(offered[i]) {
        var stored := relay.Ingest(offered[i]);
        ghost var c := Checked(offered[..i], valid);
        assert (c + [offered[i]])[..|c|] == c;
      } else {
        assert Checked(offered[..i], valid) + [] == Checked(offered[..i], valid);
      }
    }
    assert offered[..|offered|] == offered;
  }
}
