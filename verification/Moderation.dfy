/** What deletions and takedowns amount to: whose they are, how long they last, what a failed save, a
    restart and a capped query leave of them. */
module Moderation {
  import opened Text
  import opened Coordinates
  import opened RelayPolicy

  // ---- deletions are the author's own ----

  lemma RecordedChanges(s: State, target: Event, deletion: Event, saved: bool, key: string)
    ensures var t := DeleteTarget(s, target, deletion, saved);
      DeletedAt(t, key) == if AcceptedKind(target.kind) && ModerationKey(target) == key
                           then Max(DeletedAt(s, key), deletion.createdAt) else DeletedAt(s, key)
  {
    hide ModerationKey, Recorded;
    RecordedDate(s.deletions, ModerationKey(target), deletion.createdAt, key);
  }

  /** One request, every list of targets. It is accepted exactly when it names no stored event of
      somebody else. Accepted or not, only named events of the requester go. */
  lemma {:induction false} OnlyOwnTargetsGo(s: State, deletion: Event, targets: seq<Event>, written: Event -> bool)
    ensures var (t, ok) := DeleteTargets(s, deletion, targets, written);
      && (ok <==> forall e :: e in targets && e in s.store ==> e.pubkey == deletion.pubkey)
      && t.store <= s.store
      && (forall e :: e in s.store && e !in t.store ==> e in targets && e.pubkey == deletion.pubkey)
      && (ok ==> forall e :: e in targets ==> e !in t.store)
    decreases targets
  {
    hide Outcome;
    if targets != [] {
      var e, rest := targets[0], targets[1..];
      assert targets == [e] + rest;
      if e !in s.store {
        OnlyOwnTargetsGo(s, deletion, rest, written);
      } else if e.pubkey == deletion.pubkey {
        OnlyOwnTargetsGo(DeleteTarget(s, e, deletion, written(e)), deletion, rest, written);
      }
    }
  }

  /** A stored event of the requester, of an accepted kind, with that key. */
  ghost predicate Names(s: State, deletion: Event, targets: seq<Event>, key: string) {
    exists e :: e in targets && e in s.store && e.pubkey == deletion.pubkey && AcceptedKind(e.kind)
                && ModerationKey(e) == key
  }

  lemma NamesNext(s: State, t: State, deletion: Event, targets: seq<Event>, key: string)
    requires targets != [] && t.store == s.store - {targets[0]}
    ensures Names(s, deletion, targets, key) <==>
      (targets[0] in s.store && targets[0].pubkey == deletion.pubkey && AcceptedKind(targets[0].kind)
       && ModerationKey(targets[0]) == key) || Names(t, deletion, targets[1..], key)
  {
    hide ModerationKey, AcceptedKind;
    assert targets == [targets[0]] + targets[1..];
  }

  /** A deletion date moves only for the key of a stored target of the requester, and to the request's
      own date; an accepted request moves every such date that was older. */
  lemma {:induction false} OnlyOwnDatesMove(s: State, deletion: Event, targets: seq<Event>, written: Event -> bool,
                                            key: string)
    ensures var (t, ok) := DeleteTargets(s, deletion, targets, written);
      && (DeletedAt(t, key) == DeletedAt(s, key)
          || (Names(s, deletion, targets, key) && DeletedAt(t, key) == deletion.createdAt > DeletedAt(s, key)))
      && (ok && Names(s, deletion, targets, key) ==> DeletedAt(t, key) == Max(DeletedAt(s, key), deletion.createdAt))
    decreases targets
  {
    hide ModerationKey, AcceptedKind, Outcome, Names;
    if targets == [] {
      NobodyNamed(s, deletion, key);
    } else {
      var e, rest := targets[0], targets[1..];
      if e !in s.store {
        OnlyOwnDatesMove(s, deletion, rest, written, key);
        NamesNext(s, s, deletion, targets, key);
      } else if e.pubkey == deletion.pubkey {
        var t := DeleteTarget(s, e, deletion, written(e));
        OnlyOwnDatesMove(t, deletion, rest, written, key);
        RecordedChanges(s, e, deletion, written(e), key);
        NamesNext(s, t, deletion, targets, key);
      }
    }
  }

  lemma NobodyNamed(s: State, deletion: Event, key: string)
    ensures !Names(s, deletion, [], key)
  {}

  /** The position of the first stored target of somebody else. */
  function FirstForeign(s: State, deletion: Event, targets: seq<Event>): (n: nat)
    ensures n <= |targets|
    ensures forall i :: 0 <= i < n ==> targets[i] in s.store ==> targets[i].pubkey == deletion.pubkey
    ensures n < |targets| ==> targets[n] in s.store && targets[n].pubkey != deletion.pubkey
  {
    if targets == [] || (targets[0] in s.store && targets[0].pubkey != deletion.pubkey) then 0
    else 1 + FirstForeign(s, deletion, targets[1..])
  }

  lemma ForeignStays(s: State, e: Event, deletion: Event, saved: bool, targets: seq<Event>)
    requires e.pubkey == deletion.pubkey
    ensures FirstForeign(DeleteTarget(s, e, deletion, saved), deletion, targets) == FirstForeign(s, deletion, targets)
    decreases targets
  {
    hide Outcome;
    var t := DeleteTarget(s, e, deletion, saved);
    assert t.store == s.store - {e};
    if targets != [] { ForeignStays(s, e, deletion, saved, targets[1..]); }
  }

  /** A refused request has already done what its targets before the first foreign one ask for. */
  lemma {:induction false} RefusedLeaves(s: State, deletion: Event, targets: seq<Event>, written: Event -> bool)
    ensures var n := FirstForeign(s, deletion, targets);
      DeleteTargets(s, deletion, targets, written) ==
      (DeleteTargets(s, deletion, targets[..n], written).0, n == |targets|)
    decreases targets
  {
    hide DeleteTarget;
    var n := FirstForeign(s, deletion, targets);
    if targets != [] && n > 0 {
      var e, rest := targets[0], targets[1..];
      assert targets[..n][0] == e && targets[..n][1..] == rest[..n - 1];
      if e !in s.store {
        RefusedLeaves(s, deletion, rest, written);
      } else {
        ForeignStays(s, e, deletion, written(e), rest);
        RefusedLeaves(DeleteTarget(s, e, deletion, written(e)), deletion, rest, written);
      }
    }
  }

  /** A refused request changed nothing exactly when no stored target of the requester came before the
      first foreign one. */
  lemma RefusedChangedNothing(s: State, deletion: Event, targets: seq<Event>, written: Event -> bool)
    requires !DeleteTargets(s, deletion, targets, written).1
    ensures DeleteTargets(s, deletion, targets, written).0 == s <==>
      forall i :: 0 <= i < FirstForeign(s, deletion, targets) ==> targets[i] !in s.store
  {
    hide DeleteTargets, FirstForeign;
    var n := FirstForeign(s, deletion, targets);
    FirstForeignMeans(s, deletion, targets);
    RefusedLeaves(s, deletion, targets, written);
    OnlyOwnTargetsGo(s, deletion, targets[..n], written);
    if i :| 0 <= i < n && targets[i] in s.store {
      assert targets[..n][i] == targets[i];
    } else {
      AbsentChangeNothing(s, deletion, targets[..n], written);
    }
  }

  lemma FirstForeignMeans(s: State, deletion: Event, targets: seq<Event>)
    ensures var n := FirstForeign(s, deletion, targets);
      n <= |targets| && forall i :: 0 <= i < n && targets[i] in s.store ==> targets[i].pubkey == deletion.pubkey
  {}

  lemma {:induction false} AbsentChangeNothing(s: State, deletion: Event, targets: seq<Event>, written: Event -> bool)
    requires forall i :: 0 <= i < |targets| ==> targets[i] !in s.store
    ensures DeleteTargets(s, deletion, targets, written) == (s, true)
    decreases targets
  {
    if targets != [] { AbsentChangeNothing(s, deletion, targets[1..], written); }
  }

  lemma {:induction false} LogMaxMeans(log: seq<Deletion>, key: string)
    ensures LogMax(log, key) >= 0
    ensures forall i :: 0 <= i < |log| && ModerationKey(log[i].target) == key ==> log[i].at <= LogMax(log, key)
    ensures LogMax(log, key) == 0
      || exists i :: 0 <= i < |log| && ModerationKey(log[i].target) == key && log[i].at == LogMax(log, key)
  {
    hide ModerationKey;
    if log != [] {
      var n := |log| - 1;
      LogMaxMeans(log[..n], key);
      assert forall i :: 0 <= i < n ==> log[..n][i] == log[i];
      if LogMax(log, key) != 0 && LogMax(log, key) == LogMax(log[..n], key) {
        var i :| 0 <= i < n && ModerationKey(log[..n][i].target) == key && log[..n][i].at == LogMax(log, key);
        assert log[i].at == LogMax(log, key);
      }
    }
  }

  /** In every reachable state, an event counts as deleted only because its own author asked for the
      deletion of an event at its address, no earlier than its date. */
  lemma DeletedByItsAuthor(cfg: Config, actions: seq<Action>, evt: Event)
    requires forall i :: 0 <= i < |actions| ==> Sane(cfg, actions[i])
    requires evt.WellFormed() && Deleted(Run(cfg, EMPTY, actions), evt)
    requires forall d :: d in Run(cfg, EMPTY, actions).log && d.target.id == evt.id ==> d.target == evt
    ensures exists d :: d in Run(cfg, EMPTY, actions).log && d.asker == evt.pubkey && d.at >= evt.createdAt
                        && ModerationKey(d.target) == ModerationKey(evt)
  {
    hide Run, ModerationKey, WellKept, LogMax, KindVerdict;
    RunKeepsInv(cfg, actions);
    var s := Run(cfg, EMPTY, actions);
    LogMaxMeans(s.log, ModerationKey(evt));
    var i :| 0 <= i < |s.log| && ModerationKey(s.log[i].target) == ModerationKey(evt)
      && s.log[i].at == LogMax(s.log, ModerationKey(evt));
    KeysEqual(s.log[i].target, evt);
  }

  // ---- how long deletions last ----

  lemma {:induction false} TargetsGrow(s: State, deletion: Event, targets: seq<Event>, written: Event -> bool,
                                       key: string)
    ensures var t := DeleteTargets(s, deletion, targets, written).0;
      && DeletedAt(s, key) <= DeletedAt(t, key) && t.banned == s.banned && t.files.banned == s.files.banned
      && t.blocked == s.blocked
    decreases targets
  {
    hide ModerationKey, Recorded, AcceptedKind;
    if targets != [] {
      var e := targets[0];
      if e !in s.store {
        TargetsGrow(s, deletion, targets[1..], written, key);
      } else if e.pubkey == deletion.pubkey {
        RecordedChanges(s, e, deletion, written(e), key);
        TargetsGrow(DeleteTarget(s, e, deletion, written(e)), deletion, targets[1..], written, key);
      }
    }
  }

  /** The date on disk: never ahead of the one in memory, it only moves forward. */
  lemma {:induction false} TargetsGrowOnDisk(cfg: Config, s: State, deletion: Event, targets: seq<Event>,
                                             written: Event -> bool, key: string)
    requires Inv(cfg, s)
    ensures var t := DeleteTargets(s, deletion, targets, written).0;
      DateOf(s.files.deletions, key) <= DateOf(t.files.deletions, key)
    decreases targets
  {
    hide ModerationKey, Recorded, AcceptedKind, Inv;
    if targets != [] {
      var e := targets[0];
      if e !in s.store {
        TargetsGrowOnDisk(cfg, s, deletion, targets[1..], written, key);
      } else if e.pubkey == deletion.pubkey {
        var t := DeleteTarget(s, e, deletion, written(e));
        DiskBehind(cfg, s, key);
        RecordedChanges(s, e, deletion, written(e), key);
        DeleteTargetKeepsInv(cfg, s, e, deletion, written(e));
        TargetsGrowOnDisk(cfg, t, deletion, targets[1..], written, key);
      }
    }
  }

  lemma StepGrows(cfg: Config, s: State, a: Action, key: string)
    requires Inv(cfg, s)
    ensures !a.Restart? ==> DeletedAt(s, key) <= DeletedAt(Step(cfg, s, a), key)
    ensures DateOf(s.files.deletions, key) <= DateOf(Step(cfg, s, a).files.deletions, key)
  {
    hide RejectEvent, Save, Replace, TrimSpace, DeleteTargets, Inv;
    if a.PublishDeletion? {
      TargetsGrow(s, a.evt, a.targets, a.written, key);
      TargetsGrowOnDisk(cfg, s, a.evt, a.targets, a.written, key);
    }
  }

  lemma {:induction false} LogMaxSplit(log: seq<Deletion>, n: nat, key: string)
    requires n <= |log|
    ensures LogMax(log, key) >= LogMax(log[..n], key)
    ensures LogMax(log, key) > LogMax(log[..n], key) <==>
      exists i :: n <= i < |log| && ModerationKey(log[i].target) == key && log[i].at > LogMax(log[..n], key)
  {
    hide ModerationKey;
    if n == |log| {
      assert log[..n] == log;
    } else {
      var init := log[..|log| - 1];
      LogMaxSplit(init, n, key);
      assert init[..n] == log[..n];
      assert forall i :: 0 <= i < |init| ==> init[i] == log[i];
    }
  }

  /** A recorded date falls exactly at a restart that forgets a newer deletion whose save, and every
      save since, has failed. */
  lemma DeletedAtFallsExactly(cfg: Config, s: State, a: Action, key: string)
    requires Inv(cfg, s)
    ensures DeletedAt(Step(cfg, s, a), key) < DeletedAt(s, key) <==>
      a.Restart? && (exists i :: |s.files.log| <= i < |s.log| && ModerationKey(s.log[i].target) == key
                       && s.log[i].at > DateOf(s.files.deletions, key))
  {
    hide RejectEvent, Save, Replace, TrimSpace, DeleteTargets, ModerationKey, KindVerdict, WellKept, LogMax;
    StepGrows(cfg, s, a, key);
    assert s.log[..|s.files.log|] == s.files.log;
    LogMaxSplit(s.log, |s.files.log|, key);
  }

  /** A deleted event stays away from later mirroring exactly when the deletion is dated no earlier
      than the event (and after the epoch), and from mirroring after a restart exactly when it was
      saved besides. */
  lemma UnsavedDeletionExactly(cfg: Config, s: State, target: Event, deletion: Event, saved: bool)
    requires Inv(cfg, s) && target in s.store && target.pubkey == deletion.pubkey
    requires target.kind in {31142, 30402, 31143, 31243, 31343, 30985} && !Exempt(cfg, target)
    ensures var t := DeleteTarget(s, target, deletion, saved);
      && (Deleted(t, target) <==> deletion.createdAt >= target.createdAt && deletion.createdAt > 0)
      && (Deleted(Step(cfg, t, Restart), target) <==>
          saved && deletion.createdAt >= target.createdAt && deletion.createdAt > 0)
  {
    hide KindVerdict, ModerationKey, WellKept, Recorded, LogMax, AcceptedKind;
    var key := ModerationKey(target);
    AcceptedKinds(target.kind);
    assert Lasting(cfg, s, target);
    LogMaxMeans(s.log, key);
    LogMaxMeans(s.files.log, key);
    DiskBehind(cfg, s, key);
    RecordedDate(s.deletions, key, deletion.createdAt, key);
  }

  /** Deletions hold: an event that counts as deleted, by the record on disk or for as long as there is
      no restart, is never stored again by any run, whatever fails. */
  lemma {:induction false} DeletedStaysAway(cfg: Config, s: State, evt: Event, actions: seq<Action>)
    requires Inv(cfg, s) && Deleted(s, evt) && !Exempt(cfg, evt)
    requires DeletedOnDisk(s, evt) || Restart !in actions
    requires forall i :: 0 <= i < |actions| ==> Sane(cfg, actions[i])
    ensures var t := Run(cfg, s, actions);
      && Inv(cfg, t) && Deleted(t, evt) && (DeletedOnDisk(s, evt) ==> DeletedOnDisk(t, evt))
      && evt !in t.store && RejectEvent(cfg, t, evt) != Accept
  {
    hide Step, KindVerdict, ModerationKey, WellKept, Backed;
    var t := Run(cfg, s, actions);
    if actions != [] {
      var n := |actions| - 1;
      var before := Run(cfg, s, actions[..n]);
      assert actions[n] in actions;
      DeletedStaysAway(cfg, s, evt, actions[..n]);
      StepGrows(cfg, before, actions[n], ModerationKey(evt));
      StepKeepsInv(cfg, before, actions[n]);
      if actions[n] == Restart { RestartReads(cfg, before); }
    }
    assert evt in t.store ==> Lasting(cfg, t, evt);
  }

  lemma RestartReads(cfg: Config, s: State)
    ensures Step(cfg, s, Restart).deletions == s.files.deletions && Step(cfg, s, Restart).banned == s.files.banned
  {}

  // ---- takedowns ----

  ghost predicate NoneTakenDown(cfg: Config, s: State) {
    forall e :: e in s.store && !Exempt(cfg, e) ==> ModerationKey(e) !in s.banned
  }

  /** A stored event would outlive the step under a banned key: a takedown that was not saved, or whose
      query did not return it; or a restart that brings a ban back. */
  ghost predicate Outlives(cfg: Config, s: State, a: Action) {
    match a
    case Ban(key, saved, found) =>
      TrimSpace(key) != "" && (exists e :: e in s.store && !Exempt(cfg, e) && ModerationKey(e) == TrimSpace(key)
                                           && (!saved || e !in found))
    case Restart => exists e :: e in s.store && !Exempt(cfg, e) && ModerationKey(e) in s.files.banned
    case _ => false
  }

  /** Nothing is added to the store against a ban. */
  lemma AddedIsAllowed(cfg: Config, s: State, a: Action, e: Event)
    requires Inv(cfg, s) && Sane(cfg, a) && e in Step(cfg, s, a).store && e !in s.store
    ensures Exempt(cfg, e) || (ModerationKey(e) !in s.banned && e.pubkey !in s.blocked)
    ensures !a.Ban? && !a.Restart? && !a.Sweep?
  {
    hide KindVerdict, ModerationKey, TrimSpace, WellKept, Save, Replace, DeleteTargets, Backed;
    match a
    case Publish(evt) => WriteAdds(cfg, s, evt, e);
    case PublishDeletion(evt, targets, written) =>
      var t := DeleteTargets(s, evt, targets, written).0;
      OnlyOwnTargetsGo(s, evt, targets, written);
      TargetsGrow(s, evt, targets, written, "");
      DeleteTargetsKeepInv(cfg, s, evt, targets, written);
      WriteAdds(cfg, t, evt, e);
    case Ingest(evt) =>
      ReplaceFacts(s.store, evt);
      if RejectEvent(cfg, s, evt) == Accept { AcceptedLasts(cfg, s, evt); }
    case PutInventory(evt) => ReplaceFacts(s.store, evt);
    case _ =>
  }

  lemma WriteAdds(cfg: Config, s: State, evt: Event, e: Event)
    requires Inv(cfg, s) && evt.WellFormed() && e !in s.store
    ensures e in Write(cfg, s, evt).store ==> ModerationKey(e) !in s.banned && e.pubkey !in s.blocked
    ensures Write(cfg, s, evt).banned == s.banned
  {
    hide KindVerdict, ModerationKey, WellKept, Save, Backed;
    SaveFacts(s.store, evt);
  }

  /** The bans after a step, in memory. */
  lemma BansAfter(cfg: Config, s: State, a: Action, key: string)
    ensures key in Step(cfg, s, a).banned <==>
      match a
      case Ban(k, _, _) => key in s.banned || (key == TrimSpace(k) && key != "")
      case Unban(k, _) => key in s.banned && key != TrimSpace(k)
      case Restart => key in s.files.banned
      case _ => key in s.banned
  {
    hide RejectEvent, Save, Replace, TrimSpace, DeleteTargets;
    if a.PublishDeletion? { TargetsGrow(s, a.evt, a.targets, a.written, key); }
  }

  /** "No stored event is taken down" is kept by every step, but for exactly these. */
  lemma TakedownsExactly(cfg: Config, s: State, a: Action)
    requires Inv(cfg, s) && NoneTakenDown(cfg, s) && Sane(cfg, a)
    ensures NoneTakenDown(cfg, Step(cfg, s, a)) <==> !Outlives(cfg, s, a)
  {
    hide KindVerdict, ModerationKey, TrimSpace, WellKept, RejectEvent, Save, Replace, DeleteTargets, Inv;
    var t := Step(cfg, s, a);
    if Outlives(cfg, s, a) {
      if a.Ban? {
        var e :| e in s.store && !Exempt(cfg, e) && ModerationKey(e) == TrimSpace(a.key) && (!a.saved || e !in a.found);
        assert e in t.store && ModerationKey(e) in t.banned;
      } else {
        var e :| e in s.store && !Exempt(cfg, e) && ModerationKey(e) in s.files.banned;
        assert e in t.store && ModerationKey(e) in t.banned;
      }
    } else {
      forall e | e in t.store && !Exempt(cfg, e)
        ensures ModerationKey(e) !in t.banned
      {
        BansAfter(cfg, s, a, ModerationKey(e));
        if e !in s.store { AddedIsAllowed(cfg, s, a, e); }
      }
    }
  }

  /** The bans on disk are those in memory at the last save. */
  lemma BanLasts(cfg: Config, s: State, a: Action, key: string)
    requires key in s.banned && key in s.files.banned && !(a.Unban? && TrimSpace(a.key) == key)
    ensures key in Step(cfg, s, a).banned && key in Step(cfg, s, a).files.banned
  {
    hide RejectEvent, Save, Replace, TrimSpace, DeleteTargets;
    if a.PublishDeletion? { TargetsGrow(s, a.evt, a.targets, a.written, key); }
  }

  /** Takedowns hold: a saved ban whose key no stored event has keeps every event with that key away
      until it is unbanned: republished or mirrored, before and after any restart, whatever other save
      fails. */
  lemma {:induction false} BannedStaysAway(cfg: Config, s: State, key: string, actions: seq<Action>)
    requires Inv(cfg, s) && key in s.banned && key in s.files.banned
    requires forall e :: e in s.store && !Exempt(cfg, e) ==> ModerationKey(e) != key
    requires forall i :: 0 <= i < |actions| ==>
      Sane(cfg, actions[i]) && !(actions[i].Unban? && TrimSpace(actions[i].key) == key)
    ensures var t := Run(cfg, s, actions);
      && Inv(cfg, t) && key in t.banned && key in t.files.banned
      && forall e :: ModerationKey(e) == key && !Exempt(cfg, e) ==> e !in t.store && RejectEvent(cfg, t, e) != Accept
  {
    hide Step, KindVerdict, ModerationKey, WellKept, TrimSpace, Inv;
    if actions != [] {
      var n := |actions| - 1;
      var before := Run(cfg, s, actions[..n]);
      BannedStaysAway(cfg, s, key, actions[..n]);
      BanLasts(cfg, before, actions[n], key);
      StepKeepsInv(cfg, before, actions[n]);
      forall e | ModerationKey(e) == key && !Exempt(cfg, e)
        ensures e !in Step(cfg, before, actions[n]).store
      {
        if e in Step(cfg, before, actions[n]).store { AddedIsAllowed(cfg, before, actions[n], e); }
      }
    }
  }

  /** The block list changes by its own two calls only. */
  lemma BlockedAfter(cfg: Config, s: State, a: Action, pubkey: string)
    ensures pubkey in Step(cfg, s, a).blocked <==>
      a == Block(pubkey) || (pubkey in s.blocked && a != Allow(pubkey))
  {
    hide RejectEvent, Save, Replace, TrimSpace, DeleteTargets;
    if a.PublishDeletion? { TargetsGrow(s, a.evt, a.targets, a.written, ""); }
  }

  /** A blocked author stays out: until allowed again, nothing of theirs is added by any run, but for the
      node's own inventory, and everything new of theirs is refused. */
  lemma {:induction false} BlockedStaysOut(cfg: Config, s: State, pubkey: string, actions: seq<Action>)
    requires Inv(cfg, s) && pubkey in s.blocked
    requires forall i :: 0 <= i < |actions| ==> Sane(cfg, actions[i]) && actions[i] != Allow(pubkey)
    ensures var t := Run(cfg, s, actions);
      && Inv(cfg, t) && pubkey in t.blocked
      && (forall e: Event :: e.pubkey == pubkey ==> RejectEvent(cfg, t, e) == PubkeyBanned)
      && (forall e: Event :: e.pubkey == pubkey && e in t.store ==> e in s.store || Exempt(cfg, e))
  {
    hide Step, KindVerdict, ModerationKey, WellKept, Inv;
    if actions != [] {
      var n := |actions| - 1;
      var before := Run(cfg, s, actions[..n]);
      BlockedStaysOut(cfg, s, pubkey, actions[..n]);
      BlockedAfter(cfg, before, actions[n], pubkey);
      StepKeepsInv(cfg, before, actions[n]);
      forall e: Event | e.pubkey == pubkey && e in Step(cfg, before, actions[n]).store && e !in before.store
        ensures Exempt(cfg, e)
      {
        AddedIsAllowed(cfg, before, actions[n], e);
      }
    }
  }

  /** A ban that could not be saved is in force for new events at once, but leaves stored ones in
      place, and a restart forgets it unless it was on disk before. */
  lemma UnsavedBanExactly(cfg: Config, s: State, key: string, found: set<Event>)
    requires Inv(cfg, s) && NoneTakenDown(cfg, s) && TrimSpace(key) != ""
    ensures var t := Step(cfg, s, Ban(key, false, found));
      && TrimSpace(key) in t.banned
      && (NoneTakenDown(cfg, t) <==> forall e :: e in s.store && !Exempt(cfg, e) ==> ModerationKey(e) != TrimSpace(key))
      && (TrimSpace(key) in Step(cfg, t, Restart).banned <==> TrimSpace(key) in s.files.banned)
  {
    hide KindVerdict, ModerationKey, TrimSpace, WellKept;
    TakedownsExactly(cfg, s, Ban(key, false, found));
  }

  /** Lifting a ban holds across a restart exactly when it was saved or the ban never was. */
  lemma UnsavedUnbanExactly(cfg: Config, s: State, key: string, saved: bool)
    ensures var t := Step(cfg, s, Unban(key, saved));
      && TrimSpace(key) !in t.banned
      && (TrimSpace(key) in Step(cfg, t, Restart).banned <==> !saved && TrimSpace(key) in s.files.banned)
  {
    hide TrimSpace;
  }

  // ---- the cap on one query ----

  function Newer(events: set<Event>, e: Event): set<Event> { set f | f in events && f.createdAt > e.createdAt }

  function AsNew(events: set<Event>, e: Event): set<Event> { set f | f in events && f.createdAt >= e.createdAt }

  lemma SubsetSize(a: set<Event>, b: set<Event>)
    requires a <= b
    ensures |a| <= |b| && (|a| == |b| ==> a == b)
  {
    assert b == a + (b - a);
    assert |b| == |a| + |b - a|;
    if a != b {
      var x :| x in b - a;
    }
  }

  /** A query returns everything exactly when no more than CAP events match. */
  lemma AnswerIsAll(matching: set<Event>, found: set<Event>)
    requires Answer(matching, found)
    ensures found == matching <==> |matching| <= CAP
    ensures matching - found == {} <==> |matching| <= CAP
  {
    SubsetSize(found, matching);
    if matching - found == {} {
      forall e | e in matching
        ensures e in found
      {
        assert e !in found ==> e in matching - found;
      }
      assert matching == found;
    }
  }

  lemma ReturnedMeansFewNewer(matching: set<Event>, found: set<Event>, e: Event)
    requires Answer(matching, found) && e in found
    ensures |Newer(matching, e)| < CAP
  {
    var newer := Newer(matching, e);
    assert newer <= found - {e};
    SubsetSize(newer, found - {e});
    SubsetSize(found, matching);
  }

  lemma LeftOutMeansManyAsNew(matching: set<Event>, found: set<Event>, e: Event)
    requires Answer(matching, found) && e in matching && e !in found
    ensures |AsNew(matching, e)| > CAP
  {
    var asNew := AsNew(matching, e);
    assert found + {e} <= matching;
    SubsetSize(found + {e}, matching);
    assert found + {e} <= asNew;
    SubsetSize(found + {e}, asNew);
  }

  /** An event is returned if at most CAP are as new as itself, not if CAP are newer; for a date of its
      own, that is exactly when fewer than CAP are newer. */
  lemma AnswerRank(matching: set<Event>, found: set<Event>, e: Event)
    requires Answer(matching, found) && e in matching
    ensures |Newer(matching, e)| >= CAP ==> e !in found
    ensures |AsNew(matching, e)| <= CAP ==> e in found
    ensures (forall f :: f in matching && f.createdAt == e.createdAt ==> f == e) ==>
      (e in found <==> |Newer(matching, e)| < CAP)
  {
    hide Answer;
    if e in found { ReturnedMeansFewNewer(matching, found, e); } else { LeftOutMeansManyAsNew(matching, found, e); }
    if forall f :: f in matching && f.createdAt == e.createdAt ==> f == e {
      assert AsNew(matching, e) == Newer(matching, e) + {e};
    }
  }

  /** After a saved takedown, stored events that its query matches remain exactly when more than CAP
      matched; one with the key itself remains exactly when the answer left it out, which takes CAP
      others as new as itself. */
  lemma TakedownReaches(cfg: Config, s: State, key: string, found: set<Event>)
    requires Inv(cfg, s) && TrimSpace(key) != "" && Answer(Matching(s.store, TrimSpace(key)), found)
    ensures var t := Step(cfg, s, Ban(key, true, found)); var matching := Matching(s.store, TrimSpace(key));
      && (Matching(t.store, TrimSpace(key)) == {} <==> |matching| <= CAP)
      && (forall e :: e in s.store && ModerationKey(e) == TrimSpace(key) ==>
            (e in t.store <==> e !in found) && (e in t.store ==> |AsNew(matching, e)| > CAP)
            && (|Newer(matching, e)| >= CAP ==> e in t.store))
  {
    hide KindVerdict, ModerationKey, TrimSpace, FilterOfKey, Matches, WellKept, Backed, Newer, AsNew;
    var matching := Matching(s.store, TrimSpace(key));
    var t := Step(cfg, s, Ban(key, true, found));
    assert Matching(t.store, TrimSpace(key)) == matching - found;
    AnswerIsAll(matching, found);
    forall e | e in s.store && ModerationKey(e) == TrimSpace(key)
      ensures e in t.store ==> |AsNew(matching, e)| > CAP
      ensures |Newer(matching, e)| >= CAP ==> e in t.store
    {
      StoredWellFormed(s.store, e);
      TakedownCovers(e);
      AnswerRank(matching, found, e);
    }
  }

  /** A sweep leaves expired deletion requests exactly when there are more than CAP of them. */
  lemma SweepExactly(cfg: Config, s: State, cutoff: int, found: set<Event>)
    requires Answer(Expired(s.store, cutoff), found)
    ensures var t := Step(cfg, s, Sweep(cutoff, found));
      && (Expired(t.store, cutoff) == {} <==> |Expired(s.store, cutoff)| <= CAP)
      && forall e :: e in s.store && (e.kind != 5 || e.createdAt > cutoff) ==> e in t.store
  {
    AnswerIsAll(Expired(s.store, cutoff), found);
    assert Expired(Step(cfg, s, Sweep(cutoff, found)).store, cutoff) == Expired(s.store, cutoff) - found;
  }

  // ---- a takedown that is outlived ----

  function Note(i: nat): Event
    requires i < 10000
  {
    Event(PaddedId(i), "author", 1, 1, [["d", "x"]], "")
  }

  const NOTE_KEY := Coordinate(1, "author", "x")

  lemma NoteFacts(i: nat)
    requires i < 10000
    ensures Note(i).WellFormed() && D(Note(i)) == "x" && ModerationKey(Note(i)) == NOTE_KEY
  {
    PaddedIds(i, i);
  }

  function Notes(n: nat): set<Event>
    requires n <= 10000
  {
    set i | 0 <= i < n :: Note(i)
  }

  lemma {:induction false} NotesCount(n: nat)
    requires n <= 10000
    ensures |Notes(n)| == n
  {
    hide Note, Notes;
    assert n == 0 ==> Notes(n) == {} by { NoNotes(); }
    if n > 0 {
      NotesCount(n - 1);
      NextNote(n - 1);
    }
  }

  lemma NextNote(n: nat)
    requires n < 10000
    ensures Notes(n + 1) == Notes(n) + {Note(n)} && Note(n) !in Notes(n)
    ensures forall e :: e in Notes(n) ==> e.id != Note(n).id
  {
    hide Note;
    forall i | 0 <= i < n
      ensures Note(i).id != Note(n).id
    {
      NotesApart(i, n);
    }
  }

  lemma NoNotes()
    ensures Notes(0) == {}
  {}

  lemma NotesApart(i: nat, j: nat)
    requires i < 10000 && j < 10000 && i != j
    ensures Note(i) != Note(j) && Note(i).id != Note(j).id
  {
    PaddedIds(i, j);
  }

  /** A node that accepts every kind, without work, stores them all. */
  lemma {:induction false} NotesAreStored(cfg: Config, n: nat)
    requires cfg.acceptAll && cfg.minPow <= 0 && n <= 10000
    ensures Run(cfg, EMPTY, seq(n, i requires 0 <= i < n => Publish(Note(i)))) == EMPTY.(store := Notes(n))
  {
    hide Note, ModerationKey;
    var actions := seq(n, i requires 0 <= i < n => Publish(Note(i)));
    if n > 0 {
      var init := seq(n - 1, i requires 0 <= i < n - 1 => Publish(Note(i)));
      assert actions[..n - 1] == init;
      NotesAreStored(cfg, n - 1);
      var before := EMPTY.(store := Notes(n - 1));
      assert Note(n - 1).kind == 1 by { KindOfNote(n - 1); }
      assert RejectEvent(cfg, before, Note(n - 1)) == Accept;
      NextNote(n - 1);
    }
  }

  lemma KindOfNote(i: nat)
    requires i < 10000
    ensures Note(i).kind == 1
  {}

  /** 1001 events of kind 1 that share an author and a d: whatever the takedown's query returns, one of
      them outlives it. */
  lemma TakedownOutlived(cfg: Config, found: set<Event>)
    requires cfg.acceptAll && cfg.minPow <= 0
    ensures var s := Run(cfg, EMPTY, seq(1001, i requires 0 <= i < 1001 => Publish(Note(i))));
      Answer(Matching(s.store, NOTE_KEY), found) ==>
        exists e :: e in Step(cfg, s, Ban(NOTE_KEY, true, found)).store && ModerationKey(e) == NOTE_KEY
  {
    hide Note, ModerationKey, TrimSpace, FilterOfKey, Matches, RejectEvent, Run;
    var s := EMPTY.(store := Notes(1001));
    NotesAreStored(cfg, 1001);
    NotesCount(1001);
    forall e | e in s.store
      ensures ModerationKey(e) == NOTE_KEY && Matches(FilterOfKey(NOTE_KEY), e)
    {
      var i :| 0 <= i < 1001 && Note(i) == e;
      NoteFacts(i);
      TakedownCovers(e);
    }
    assert Matching(s.store, NOTE_KEY) == s.store;
    if Answer(s.store, found) {
      AnswerIsAll(s.store, found);
      assert s.store - found != {};
      var e :| e in s.store - found;
      assert TrimSpace(NOTE_KEY) == NOTE_KEY by { NoteKeyTrimmed(); }
      assert e in Step(cfg, s, Ban(NOTE_KEY, true, found)).store;
    }
  }

  lemma NoteKeyTrimmed()
    ensures TrimSpace(NOTE_KEY) == NOTE_KEY
  {
    TrimFixpoint(NOTE_KEY);
    assert NOTE_KEY[|NOTE_KEY| - 1] == 'x';
    assert Digit(NOTE_KEY[0]);
  }

  // ---- what is stored at all ----

  /** What a node that keeps to its kinds ever stores besides its inventory: deletions; mods and jam
      events with an identifier and enough work; the admin's own moderation tags; old GameMod posts. */
  lemma StoredShapes(cfg: Config, actions: seq<Action>, evt: Event)
    requires !cfg.acceptAll && (forall i :: 0 <= i < |actions| ==> Sane(cfg, actions[i]))
    requires evt in Run(cfg, EMPTY, actions).store && !Exempt(cfg, evt)
    ensures evt.kind in {5, 31142, 30402, 31143, 31243, 31343, 30985}
    ensures evt.kind != 5 && evt.kind != 30402 ==> D(evt) != ""
    ensures evt.kind in {31142, 31143, 31243, 31343} && cfg.minPow > 0 ==> cfg.difficulty(evt.id) >= cfg.minPow
    ensures evt.kind == 30985 ==> evt.pubkey == cfg.admin != ""
    ensures evt.kind == 30402 ==> evt.createdAt < LEGACY_CUTOFF && HasTagValue(evt.tags, "t", "GameMod")
  {
    hide Run, ModerationKey, WellKept, Backed;
    RunKeepsInv(cfg, actions);
    assert Lasting(cfg, Run(cfg, EMPTY, actions), evt);
  }

  /** The node's own inventory is outside every takedown: published again, it is stored under a banned
      key. */
  lemma InventoryEscapes(cfg: Config, evt: Event)
    requires evt.WellFormed() && Exempt(cfg, evt) && TrimSpace(cfg.inventory) == cfg.inventory != ""
    ensures var s := Step(cfg, Step(cfg, EMPTY, Ban(cfg.inventory, true, {})), PutInventory(evt));
      evt in s.store && ModerationKey(evt) in s.banned
  {
    hide ModerationKey, TrimSpace;
    var banned := Step(cfg, EMPTY, Ban(cfg.inventory, true, {}));
    assert banned.store == {};
    assert Replace({}, evt) == {evt};
  }
}
