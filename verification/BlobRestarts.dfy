/** What failed saves leave for the next restart: when the records on disk contradict each other, and
    what a run needs to keep them whole. */
module BlobRestarts {
  import opened Text
  import opened Coordinates
  import opened BlobStore
  import opened BlobRecords
  import opened BlobLifecycle
  import opened BlobGuarantees

  // ---- what a handler will do, told from the state before it ----

  /** The author of an accepted upload or claim is entered and the blob revived. */
  ghost predicate Enrolls(cfg: Config, s: State, a: Action) {
    (a.Upload? && UploadAccepted(cfg, s, a)) || (a.Claim? && ClaimAccepted(s, a))
  }

  /** An uploader takes back their own upload. */
  predicate Retracts(cfg: Config, s: State, a: Action) {
    a.Delete? && IsSha256Hex(a.hash) && !ByAdmin(cfg, a) && a.pubkey in Owners(s.owners, a.hash)
  }

  predicate HardDeletes(cfg: Config, a: Action) { a.Delete? && IsSha256Hex(a.hash) && ByAdmin(cfg, a) && a.works }

  predicate Bars(a: Action) { a.BlacklistAdd? && IsSha256Hex(a.hash) && a.saved }

  /** All uploaders of the hash are forgotten. */
  predicate Forgets(cfg: Config, a: Action) {
    HardDeletes(cfg, a) || Bars(a) || (a.AdminDelete? && IsSha256Hex(a.hash) && a.works)
  }

  /** And its bytes go. */
  predicate Purges(cfg: Config, a: Action) { Forgets(cfg, a) && a.works }

  ghost predicate OwnedAfter(cfg: Config, s: State, a: Action, h: string) {
    if h == Target(a) && Enrolls(cfg, s, a) then h in s.owners || a.pubkey != ""
    else if h == Target(a) && Retracts(cfg, s, a) then Owners(s.owners, h) != [a.pubkey]
    else h in s.owners && !(h == Target(a) && Forgets(cfg, a))
  }

  ghost predicate WithheldAfter(cfg: Config, s: State, a: Action, h: string) {
    if h == Target(a) && (Enrolls(cfg, s, a) || HardDeletes(cfg, a) || a.Release?) then false
    else h in s.quarantined || (h == Target(a) && Retracts(cfg, s, a) && Owners(s.owners, h) == [a.pubkey]
                                && !Referenced(cfg, s.noted, h))
  }

  ghost predicate StoredAfter(cfg: Config, s: State, a: Action, h: string) {
    if h == Target(a) && Purges(cfg, a) then false
    else Stored(s.files, h) || (h == Target(a) && a.Upload? && UploadAccepted(cfg, s, a))
  }

  /** The owner record changes, so it is written if it can be. */
  ghost predicate OwnersWritten(cfg: Config, s: State, a: Action) {
    && SavesOf(a).owners
    && (Retracts(cfg, s, a) || (Forgets(cfg, a) && Target(a) in s.owners)
        || (Enrolls(cfg, s, a) && a.pubkey != "" && a.pubkey !in Owners(s.owners, Target(a))
            && |Owners(s.owners, Target(a))| < MAX_UPLOADERS))
  }

  /** The quarantine changes, so it is written if it can be. */
  ghost predicate QuarantineWritten(cfg: Config, s: State, a: Action) {
    SavesOf(a).quarantine && (WithheldAfter(cfg, s, a, Target(a)) <==> Target(a) !in s.quarantined)
  }

  lemma EnrollPredicted(s: State, hash: string, pubkey: string)
    requires Listed(s.owners, s.claims, s.clock) && hash != ""
    ensures var t := Enroll(s, hash, pubkey);
      && (hash in t.owners <==> hash in s.owners || pubkey != "") && hash !in t.quarantined
      && (t.owners != s.owners <==> pubkey != "" && pubkey !in Owners(s.owners, hash)
                                    && |Owners(s.owners, hash)| < MAX_UPLOADERS)
  {
    hide IsSha256Hex, NoRepeats;
    assert hash in s.owners ==> ListedAt(s.owners[hash], s.claims, s.clock, hash);
    var list := Owners(s.owners, hash);
    assert list + [pubkey] != list;
  }

  lemma RetractPredicted(cfg: Config, s: State, hash: string, pubkey: string)
    requires pubkey in Owners(s.owners, hash)
    ensures var t := Retract(cfg, s, pubkey, hash);
      && (hash in t.owners <==> Owners(s.owners, hash) != [pubkey]) && t.owners != s.owners
      && (hash in t.quarantined <==>
          hash in s.quarantined || (Owners(s.owners, hash) == [pubkey] && !Referenced(cfg, s.noted, hash)))
  {
    hide Referenced, Dropped;
    SoleOwner(Owners(s.owners, hash), pubkey);
    DropChanges(s.owners, hash, pubkey);
  }

  /** The four questions about a handler's effect on its own hash. */
  lemma TargetPredicted(cfg: Config, s: State, a: Action)
    requires Inv(cfg, s) && !a.Restart? && IsSha256Hex(Target(a))
    ensures var t := Effect(cfg, s, a); var h := Target(a);
      && (h in t.owners <==> OwnedAfter(cfg, s, a, h))
      && (h in t.quarantined <==> WithheldAfter(cfg, s, a, h))
      && (Stored(t.files, h) <==> StoredAfter(cfg, s, a, h))
  {
    hide Stored, Purged, Put, ContentAddressed, IsHash, Listed, Enroll, Retract, Referenced, Accepted, ExtOf,
      IsSha256Hex;
    HexNotEmpty(Target(a));
    PurgedIsGone(s.files, Target(a));
    match a
    case Upload(pubkey, claimed, body, _, _, _) =>
      if UploadAccepted(cfg, s, a) {
        var put := s.(files := Put(s.files, claimed, ExtOf(body), body));
        PutKeepsStored(s.files, cfg.sha, body, claimed);
        EnrollPredicted(put, claimed, pubkey);
        EnrollFrame(put, claimed, pubkey);
      }
    case Claim(pubkey, hash, _, _, _) =>
      EnrollPredicted(s, hash, pubkey);
      EnrollFrame(s, hash, pubkey);
    case Delete(pubkey, hash, _, _) =>
      RetractFrame(cfg, s, pubkey, hash);
      if pubkey in Owners(s.owners, hash) {
        RetractPredicted(cfg, s, hash, pubkey);
      } else {
        NotRetracted(cfg, s, hash, pubkey);
      }
    case _ =>
  }

  lemma NotRetracted(cfg: Config, s: State, hash: string, pubkey: string)
    requires pubkey !in Owners(s.owners, hash)
    ensures Retract(cfg, s, pubkey, hash) == s
  {}

  /** And about every other. */
  lemma Predicted(cfg: Config, s: State, a: Action, h: string)
    requires Inv(cfg, s) && !a.Restart? && IsSha256Hex(h)
    ensures var t := Effect(cfg, s, a);
      && (h in t.owners <==> OwnedAfter(cfg, s, a, h))
      && (h in t.quarantined <==> WithheldAfter(cfg, s, a, h))
      && (Stored(t.files, h) <==> StoredAfter(cfg, s, a, h))
  {
    hide Effect, Stored, IsSha256Hex, Enrolls, Retracts, Forgets, HardDeletes, Purges, Target, Listed, ListedAt;
    if h == Target(a) {
      TargetPredicted(cfg, s, a);
    } else {
      OthersUntouched(cfg, s, a, h);
      OwnedIsListed(cfg, s, a, h);
    }
  }

  /** A hash has an entry exactly when it has an uploader. */
  lemma OwnedIsListed(cfg: Config, s: State, a: Action, h: string)
    requires Inv(cfg, s) && !a.Restart?
    ensures var t := Effect(cfg, s, a);
      (h in s.owners <==> Owners(s.owners, h) != []) && (h in t.owners <==> Owners(t.owners, h) != [])
  {
    hide Effect, IsSha256Hex;
    EffectListed(cfg, s, a);
    var t := Effect(cfg, s, a);
    assert h in s.owners ==> ListedAt(s.owners[h], s.claims, s.clock, h);
    assert h in t.owners ==> ListedAt(t.owners[h], t.claims, t.clock, h);
  }

  /** When a record changes. */
  lemma ChangePredicted(cfg: Config, s: State, a: Action)
    requires Inv(cfg, s) && !a.Restart?
    ensures var t := Effect(cfg, s, a);
      && (t.owners != s.owners && SavesOf(a).owners <==> OwnersWritten(cfg, s, a))
      && (t.quarantined != s.quarantined && SavesOf(a).quarantine <==> QuarantineWritten(cfg, s, a))
  {
    hide Stored, Purged, Put, ContentAddressed, IsHash, Listed, Enroll, Retract, Referenced, Accepted, ExtOf,
      IsSha256Hex, Dropped;
    match a
    case Upload(pubkey, claimed, body, _, _, _) =>
      if UploadAccepted(cfg, s, a) {
        var put := s.(files := Put(s.files, claimed, ExtOf(body), body));
        HashIsHex(cfg.sha, body);
        HexNotEmpty(claimed);
        EnrollPredicted(put, claimed, pubkey);
        EnrollFrame(put, claimed, pubkey);
      }
    case Claim(pubkey, hash, _, _, _) =>
      if ClaimAccepted(s, a) {
        HexNotEmpty(hash);
        EnrollPredicted(s, hash, pubkey);
        EnrollFrame(s, hash, pubkey);
      }
    case Delete(pubkey, hash, _, _) =>
      RetractFrame(cfg, s, pubkey, hash);
      if pubkey in Owners(s.owners, hash) {
        RetractPredicted(cfg, s, hash, pubkey);
      } else {
        NotRetracted(cfg, s, hash, pubkey);
      }
    case _ =>
  }

  // ---- when the records on disk become, or stop being, contradictory ----

  /** For any state of the files: a step that writes both records leaves them whole. One that writes
      only the uploaders must not meet a hash the old quarantine withholds; one that writes only the
      quarantine, or neither, must not meet an old entry that is withheld or loses its bytes. */
  ghost predicate Tears(cfg: Config, s: State, a: Action) {
    if OwnersWritten(cfg, s, a) && QuarantineWritten(cfg, s, a) then false
    else if OwnersWritten(cfg, s, a) then exists h :: h in s.disk.quarantined && OwnedAfter(cfg, s, a, h)
    else if QuarantineWritten(cfg, s, a) then
      exists h :: h in s.disk.owners && (WithheldAfter(cfg, s, a, h) || !StoredAfter(cfg, s, a, h))
    else exists h :: h in s.disk.owners && (h in s.disk.quarantined || !StoredAfter(cfg, s, a, h))
  }

  /** After a handler the records on disk are torn exactly then, whichever saves have failed before. */
  lemma TornExactly(cfg: Config, s: State, a: Action)
    requires Inv(cfg, s) && Coherent(s) && !a.Restart?
    ensures Torn(Step(cfg, s, a)) <==> Tears(cfg, s, a)
  {
    hide Effect, Stored, ContentAddressed, IsHash, Listed, IsSha256Hex, OwnedAfter, WithheldAfter, StoredAfter,
      OwnersWritten, QuarantineWritten;
    var t := Effect(cfg, s, a);
    EffectAgrees(cfg, s, a);
    EffectListed(cfg, s, a);
    ChangePredicted(cfg, s, a);
    forall h | h in s.disk.owners || h in s.disk.quarantined
      ensures h in t.owners <==> OwnedAfter(cfg, s, a, h)
      ensures h in t.quarantined <==> WithheldAfter(cfg, s, a, h)
      ensures Stored(t.files, h) <==> StoredAfter(cfg, s, a, h)
    {
      if h in s.disk.owners { ListedHex(s.disk.owners, s.disk.claims, s.clock, h); }
      Predicted(cfg, s, a, h);
    }
  }

  /** The same for a quarantine on disk that has a hash without bytes. */
  lemma StaleExactly(cfg: Config, s: State, a: Action)
    requires Inv(cfg, s) && !a.Restart?
    ensures Stale(Step(cfg, s, a)) <==>
      if QuarantineWritten(cfg, s, a)
      then exists h :: IsSha256Hex(h) && WithheldAfter(cfg, s, a, h) && !StoredAfter(cfg, s, a, h)
      else exists h :: h in s.disk.quarantined && !StoredAfter(cfg, s, a, h)
  {
    hide Effect, Stored, ContentAddressed, IsHash, Listed, IsSha256Hex, OwnedAfter, WithheldAfter, StoredAfter,
      OwnersWritten, QuarantineWritten;
    var t := Effect(cfg, s, a);
    EffectListed(cfg, s, a);
    ChangePredicted(cfg, s, a);
    forall h | IsSha256Hex(h)
      ensures h in t.quarantined <==> WithheldAfter(cfg, s, a, h)
      ensures Stored(t.files, h) <==> StoredAfter(cfg, s, a, h)
    {
      Predicted(cfg, s, a, h);
    }
  }

  /** Over whole runs: as long as no handler tears the records, uploaders, bytes and quarantine agree in
      memory and on disk, through every restart. */
  lemma {:induction false} UntornRunIsCoherent(cfg: Config, actions: seq<Action>)
    requires IsHash(cfg.sha) && SaneRun(cfg, actions)
    requires forall i :: 0 <= i < |actions| && !actions[i].Restart? ==>
      !Tears(cfg, Run(cfg, EMPTY, actions[..i]), actions[i])
    ensures Coherent(Run(cfg, EMPTY, actions)) && !Torn(Run(cfg, EMPTY, actions))
  {
    hide Step, Inv, Stored, Tears;
    if actions == [] {
      NothingTorn();
    } else {
      var n := |actions| - 1;
      var before := Run(cfg, EMPTY, actions[..n]);
      forall i | 0 <= i < n && !actions[..n][i].Restart?
        ensures !Tears(cfg, Run(cfg, EMPTY, actions[..n][..i]), actions[..n][i])
      {
        assert actions[..n][..i] == actions[..i];
      }
      UntornRunIsCoherent(cfg, actions[..n]);
      RunKeepsInv(cfg, actions[..n]);
      CoherentExactly(cfg, before, actions[n]);
      if actions[n].Restart? {
        RestartKeepsFiles(cfg, before, actions[n]);
      } else {
        TornExactly(cfg, before, actions[n]);
      }
    }
  }

  lemma NothingTorn()
    ensures Coherent(EMPTY) && !Torn(EMPTY)
  {}

  lemma RestartKeepsFiles(cfg: Config, s: State, a: Action)
    requires a.Restart?
    ensures Torn(Step(cfg, s, a)) <==> Torn(s)
  {
    hide Stored;
  }

  // ---- the first failure, and a later one ----

  /** Memory and disk hold the same. */
  ghost predicate InSync(s: State) { s.disk == Records(s.owners, s.claims, s.quarantined, s.blacklisted) }

  /** With records in sync, these are the failures that leave them torn: a revival or a quarantine of
      which only one half was saved, and a purge whose uploaders were not. */
  ghost predicate FirstTears(cfg: Config, s: State, a: Action) {
    || (Enrolls(cfg, s, a) && Target(a) in s.quarantined && a.pubkey != ""
        && SavesOf(a).owners && !SavesOf(a).quarantine)
    || (Retracts(cfg, s, a) && Owners(s.owners, a.hash) == [a.pubkey] && !Referenced(cfg, s.noted, a.hash)
        && SavesOf(a).quarantine && !SavesOf(a).owners)
    || (Purges(cfg, a) && Target(a) in s.owners && !SavesOf(a).owners)
  }

  lemma FirstTornExactly(cfg: Config, s: State, a: Action)
    requires Inv(cfg, s) && Coherent(s) && InSync(s) && !a.Restart?
    ensures Torn(Step(cfg, s, a)) <==> FirstTears(cfg, s, a)
  {
    hide Step, Torn, Stored, ContentAddressed, IsHash, Listed, IsSha256Hex, Referenced, UploadAccepted, ClaimAccepted,
      ByAdmin;
    TornExactly(cfg, s, a);
    var h := Target(a);
    if FirstTears(cfg, s, a) {
      assert Tears(cfg, s, a);
    } else {
      assert !Tears(cfg, s, a);
    }
  }

  /** Once a save has failed, a save that succeeds can tear the records: a retraction of which nothing
      was saved, then the release of some other blob. */
  lemma LaterTear(cfg: Config, s: State, pubkey: string, hash: string, other: string, saves: Saves)
    requires Inv(cfg, s) && Coherent(s) && InSync(s) && !(cfg.admin != "" && pubkey == cfg.admin)
    requires Owners(s.owners, hash) == [pubkey] && !Referenced(cfg, s.noted, hash)
    requires other in s.quarantined && saves.quarantine
    ensures var first := Step(cfg, s, Delete(pubkey, hash, true, Saves(false, false)));
      var second := Step(cfg, first, Release(other, saves));
      && !Torn(first) && Torn(second)
      && hash in Step(cfg, second, Restart([])).owners && hash in Step(cfg, second, Restart([])).quarantined
  {
    hide Stored, ContentAddressed, IsHash, IsSha256Hex, Referenced, Dropped, Listed;
    assert hash in s.owners && hash !in s.quarantined;
    ListedHex(s.owners, s.claims, s.clock, hash);
    SoleOwner([pubkey], pubkey);
    var first := Step(cfg, s, Delete(pubkey, hash, true, Saves(false, false)));
    assert first.disk == s.disk && first.files == s.files && first.quarantined == s.quarantined + {hash};
    var second := Step(cfg, first, Release(other, saves));
    assert other != hash && second.disk.quarantined == second.quarantined == first.quarantined - {other};
  }

  /** Every record the step changes is saved. */
  predicate AllSaved(a: Action) {
    match a
    case BlacklistAdd(_, saved, _, saves) => saved && saves == Saves(true, true)
    case BlacklistRemove(_, saved) => saved
    case Note(_) => true
    case Restart(_) => true
    case _ => a.saves == Saves(true, true)
  }

  lemma SavedStaysInSync(cfg: Config, s: State, a: Action)
    requires InSync(s) && AllSaved(a)
    ensures InSync(Step(cfg, s, a))
  {
    hide Purged, Put, IsSha256Hex, Retract, ExtOf, Accepted;
    if a.Delete? { RetractFrame(cfg, s, a.pubkey, a.hash); }
  }

  /** When every save succeeds, uploaders, bytes and quarantine agree after every run, restarts
      included. */
  lemma {:induction false} SavedRunIsCoherent(cfg: Config, actions: seq<Action>)
    requires IsHash(cfg.sha) && SaneRun(cfg, actions)
    requires forall i :: 0 <= i < |actions| ==> AllSaved(actions[i])
    ensures var t := Run(cfg, EMPTY, actions); Inv(cfg, t) && InSync(t) && Coherent(t)
  {
    hide Step, Inv, Stored;
    RunKeepsInv(cfg, actions);
    if actions != [] {
      var n := |actions| - 1;
      var before := Run(cfg, EMPTY, actions[..n]);
      SavedRunIsCoherent(cfg, actions[..n]);
      SavedStaysInSync(cfg, before, actions[n]);
      CoherentExactly(cfg, before, actions[n]);
    }
  }
}
