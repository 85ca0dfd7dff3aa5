/** What the blob steps can and cannot do, step by step and over whole runs. */
module BlobGuarantees {
  import opened Text
  import opened Coordinates
  import opened BlobStore
  import opened BlobRecords
  import opened BlobLifecycle
  import BlobRefs

  // ---- bytes ----

  /** One object per hash, in every reachable state: its bytes hash to the name, so bare-hash lookup
      cannot be ambiguous and a delete leaves nothing behind. */
  lemma OneObjectPerHash(cfg: Config, actions: seq<Action>, hash: string)
    requires IsHash(cfg.sha) && SaneRun(cfg, actions) && IsSha256Hex(hash)
    ensures var files := Run(cfg, EMPTY, actions).files;
      && Unambiguous(files, hash)
      && (forall p :: p in files && Names(p, hash) ==>
            cfg.sha.f(files[p]) == hash && p == KeyPath(hash, ExtOf(files[p])))
  {
    hide Run, Unambiguous;
    RunKeepsInv(cfg, actions);
    OneFilePerHash(Run(cfg, EMPTY, actions).files, cfg.sha, hash);
  }

  predicate AdminAction(cfg: Config, a: Action) {
    a.AdminDelete? || a.BlacklistAdd? || (a.Delete? && cfg.admin != "" && a.pubkey == cfg.admin)
  }

  /** No request of anybody but the admin removes or replaces bytes. */
  lemma OnlyAdminRemovesBytes(cfg: Config, s: State, a: Action, p: Path)
    requires Inv(cfg, s) && !AdminAction(cfg, a) && p in s.files
    ensures p in Step(cfg, s, a).files
    ensures Sane(cfg, a) ==> Step(cfg, s, a).files[p] == s.files[p]
  {
    hide Stored, IsSha256Hex, Names, Enroll, Retract, ExtOf, KeyPath, Listed, Kept;
    if a.Upload? && UploadAccepted(cfg, s, a) {
      if Sane(cfg, a) { PutKeepsAddressed(s.files, cfg.sha, a.body); }
      EnrollFrame(s.(files := Put(s.files, a.claimed, ExtOf(a.body), a.body)), a.claimed, a.pubkey);
    } else if a.Claim? {
      EnrollFrame(s, a.hash, a.pubkey);
    } else if a.Delete? {
      RetractFrame(cfg, s, a.pubkey, a.hash);
    }
  }

  // ---- uploaders and quarantine ----

  /** A hash enters quarantine only when its last uploader leaves and no noted event links to it, or at
      a restart whose record on disk has it. */
  lemma QuarantineEntry(cfg: Config, s: State, a: Action, hash: string)
    requires Inv(cfg, s) && hash !in s.quarantined
    ensures hash in Step(cfg, s, a).quarantined <==>
      || (a.Restart? && hash in s.disk.quarantined)
      || (a.Delete? && a.hash == hash && IsSha256Hex(hash) && !ByAdmin(cfg, a) && Owners(s.owners, hash) == [a.pubkey]
          && forall i :: 0 <= i < |s.noted| ==> !BlobRefs.Refers(s.noted[i], cfg.lower, cfg.host, hash))
  {
    hide Stored, Purged, Put, IsSha256Hex, ContentAddressed, IsHash, BlobRefs.RefsOf, BlobRefs.Refers, Kept, Listed,
      Dropped, ExtOf, Accepted;
    BlobRefs.ClaimedExactly(s.noted, cfg.lower, cfg.host, hash);
    if a.Delete? && a.hash == hash && a.pubkey in Owners(s.owners, hash) {
      SoleOwner(Owners(s.owners, hash), a.pubkey);
    }
  }

  /** A retraction touches nobody else: other hashes keep their lists, and of this one only that
      uploader goes. */
  lemma RetractIsOwn(cfg: Config, s: State, pubkey: string, hash: string, other: string)
    requires Inv(cfg, s)
    ensures var t := Retract(cfg, s, pubkey, hash);
      && (other != hash ==> Owners(t.owners, other) == Owners(s.owners, other))
      && (forall pk :: pk in Owners(t.owners, hash) <==> pk in Owners(s.owners, hash) && pk != pubkey)
      && t.files == s.files && t.blacklisted == s.blacklisted
  {
    hide Stored, IsSha256Hex, ContentAddressed, IsHash, Referenced, Dropped, NoRepeats;
    if pubkey in Owners(s.owners, hash) {
      assert ListedAt(s.owners[hash], s.claims, s.clock, hash);
      DroppedMeans(s.owners[hash], pubkey);
    }
  }

  /** The first of a list has the earliest claim among those that stand. */
  lemma FirstIsOriginal(cfg: Config, s: State, hash: string, pk: string)
    requires Inv(cfg, s) && pk in Owners(s.owners, hash)
    ensures var first := Owners(s.owners, hash)[0];
      && (hash, first) in s.claims && (hash, pk) in s.claims
      && (pk == first || s.claims[(hash, first)] < s.claims[(hash, pk)])
  {
    hide IsSha256Hex, NoRepeats;
    assert ListedAt(s.owners[hash], s.claims, s.clock, hash);
    var i :| 0 <= i < |s.owners[hash]| && s.owners[hash][i] == pk;
  }

  /** An upload is taken exactly when its author is not blocked, its hash not barred and the hash of its
      bytes, their type allowed, and storing works; a claim when the blob can be found instead. It is then
      served at once and its author entered, while there is room; otherwise nothing changes. */
  lemma AcceptedExactly(cfg: Config, s: State, a: Action)
    requires Inv(cfg, s) && (a.Upload? || a.Claim?)
    ensures var hash := if a.Upload? then a.claimed else a.hash; var t := Step(cfg, s, a);
      if !a.blocked && hash !in s.blacklisted && a.works
         && (if a.Upload? then cfg.sha.f(a.body) == hash && Accepted(a.body, cfg.allowed)
             else IsSha256Hex(hash) && Stored(s.files, hash))
      then
        && Served(t, hash) && (a.Upload? ==> KeyPath(hash, ExtOf(a.body)) in t.files)
        && (a.pubkey == "" || a.pubkey in Owners(t.owners, hash) || |Owners(t.owners, hash)| >= 50)
        && forall pk :: pk in Owners(s.owners, hash) ==> pk in Owners(t.owners, hash)
      else t == s
  {
    hide Names, KeyPath, ExtOf, IsSha256Hex, ContentAddressed, Listed, Served, Stored, Accepted, Enroll;
    if (a.Upload? && UploadAccepted(cfg, s, a)) || (a.Claim? && ClaimAccepted(s, a)) {
      AcceptedIsServed(cfg, s, a);
    } else {
      assert Effect(cfg, s, a) == s;
    }
  }

  /** Whoever is neither the admin nor an uploader changes nothing by asking for a deletion, and a backend
      that fails leaves everything as it is. */
  lemma DeletionRefused(cfg: Config, s: State, a: Action)
    requires a.Delete? || a.AdminDelete?
    requires !IsSha256Hex(a.hash)
      || (a.AdminDelete? && !a.works)
      || (a.Delete? && if cfg.admin != "" && a.pubkey == cfg.admin then !a.works
                       else a.pubkey !in Owners(s.owners, a.hash))
    ensures Step(cfg, s, a) == s
  {
    hide IsSha256Hex;
    assert Effect(cfg, s, a) == s;
  }

  lemma AcceptedIsServed(cfg: Config, s: State, a: Action)
    requires Inv(cfg, s)
    requires (a.Upload? && UploadAccepted(cfg, s, a)) || (a.Claim? && ClaimAccepted(s, a))
    ensures var hash := if a.Upload? then a.claimed else a.hash; var t := Step(cfg, s, a);
      && Served(t, hash) && (a.Upload? ==> KeyPath(hash, ExtOf(a.body)) in t.files)
      && (a.pubkey == "" || a.pubkey in Owners(t.owners, hash) || |Owners(t.owners, hash)| >= 50)
      && forall pk :: pk in Owners(s.owners, hash) ==> pk in Owners(t.owners, hash)
  {
    hide Names, KeyPath, ExtOf, IsSha256Hex, ContentAddressed, Listed, Kept, Enroll;
    var hash := if a.Upload? then a.claimed else a.hash;
    var from := if a.Upload? then s.(files := Put(s.files, a.claimed, ExtOf(a.body), a.body)) else s;
    if a.Upload? {
      PutKeepsStored(s.files, cfg.sha, a.body, a.claimed);
      HashIsHex(cfg.sha, a.body);
    }
    HexNotEmpty(hash);
    EnrollFrame(from, hash, a.pubkey);
  }

  /** A withheld blob comes back with the next claim: the sole uploader's retraction undone, whatever of
      either could be saved. */
  lemma ClaimRevives(cfg: Config, s: State, pubkey: string, hash: string, saves: Saves, saves': Saves)
    requires Inv(cfg, s) && Coherent(s) && Owners(s.owners, hash) == [pubkey] && hash !in s.blacklisted
    requires !(cfg.admin != "" && pubkey == cfg.admin)
    ensures var gone := Step(cfg, s, Delete(pubkey, hash, true, saves));
      var back := Step(cfg, gone, Claim(pubkey, hash, false, true, saves'));
      && (Served(gone, hash) <==> Referenced(cfg, s.noted, hash))
      && Served(back, hash) && back.owners == s.owners && back.files == s.files && back.quarantined == s.quarantined
  {
    hide Stored, IsSha256Hex, ContentAddressed, IsHash, Referenced, Step, ListedAt;
    ListedHex(s.owners, s.claims, s.clock, hash);
    SoleEntry(s, pubkey, hash);
    var gone := Step(cfg, s, Delete(pubkey, hash, true, saves));
    SoleRetracts(cfg, s, pubkey, hash, saves);
    ClaimedAgain(cfg, gone, pubkey, hash, saves');
    PutBack(s.owners, hash);
  }

  lemma SoleEntry(s: State, pubkey: string, hash: string)
    requires Listed(s.owners, s.claims, s.clock) && Owners(s.owners, hash) == [pubkey]
    ensures hash in s.owners && s.owners[hash] == [pubkey] && pubkey != ""
  {
    assert ListedAt(s.owners[hash], s.claims, s.clock, hash);
    assert pubkey == s.owners[hash][0];
  }

  lemma SoleRetracts(cfg: Config, s: State, pubkey: string, hash: string, saves: Saves)
    requires Owners(s.owners, hash) == [pubkey] && IsSha256Hex(hash) && !(cfg.admin != "" && pubkey == cfg.admin)
    ensures var gone := Step(cfg, s, Delete(pubkey, hash, true, saves));
      && gone.owners == s.owners - {hash} && gone.files == s.files && gone.blacklisted == s.blacklisted
      && gone.quarantined == if Referenced(cfg, s.noted, hash) then s.quarantined else s.quarantined + {hash}
  {
    hide IsSha256Hex, Referenced, Kept, Dropped;
    SoleOwner([pubkey], pubkey);
  }

  lemma ClaimedAgain(cfg: Config, s: State, pubkey: string, hash: string, saves: Saves)
    requires hash !in s.owners && IsSha256Hex(hash) && Stored(s.files, hash) && hash !in s.blacklisted && pubkey != ""
    ensures var back := Step(cfg, s, Claim(pubkey, hash, false, true, saves));
      && back.owners == s.owners[hash := [pubkey]] && back.files == s.files && back.blacklisted == s.blacklisted
      && back.quarantined == s.quarantined - {hash}
  {
    hide IsSha256Hex, Stored, Kept;
    HexNotEmpty(hash);
    assert [] + [pubkey] == [pubkey];
  }

  lemma PutBack(m: OwnerMap, hash: string)
    requires hash in m
    ensures (m - {hash})[hash := m[hash]] == m
  {
    var n := (m - {hash})[hash := m[hash]];
    assert n.Keys == m.Keys;
    forall k | k in m
      ensures n[k] == m[k]
    {}
  }

  // ---- moderation ----

  /** What each moderation step is for: a barred hash is not served even if nothing could be saved; a
      delete that worked leaves neither bytes nor uploaders; a release and a lifted entry serve again
      what nothing else withholds. */
  lemma ModerationTakesEffect(cfg: Config, s: State, hash: string, saved: bool, works: bool, saves: Saves)
    requires Inv(cfg, s) && IsSha256Hex(hash)
    ensures var t := Step(cfg, s, BlacklistAdd(hash, saved, works, saves));
      && !Served(t, hash)
      && (saved ==> Owners(t.owners, hash) == [] && (Stored(t.files, hash) <==> Stored(s.files, hash) && !works))
      && (!saved ==> t.files == s.files && t.owners == s.owners)
    ensures !Stored(Step(cfg, s, AdminDelete(hash, true, saves)).files, hash)
    ensures Owners(Step(cfg, s, AdminDelete(hash, true, saves)).owners, hash) == []
    ensures cfg.admin != "" ==> var t := Step(cfg, s, Delete(cfg.admin, hash, true, saves));
      !Stored(t.files, hash) && Owners(t.owners, hash) == [] && hash !in t.quarantined
    ensures Served(Step(cfg, s, Release(hash, saves)), hash) <==> Stored(s.files, hash) && hash !in s.blacklisted
    ensures Served(Step(cfg, s, BlacklistRemove(hash, saved)), hash) <==>
      Stored(s.files, hash) && hash !in s.quarantined
  {
    hide IsSha256Hex, Stored, Purged, ContentAddressed, IsHash, Listed, Kept;
    PurgedIsGone(s.files, hash);
  }

  /** The hash a handler is about. */
  function Target(a: Action): string {
    match a
    case Upload(_, claimed, _, _, _, _) => claimed
    case Note(_) => ""
    case Restart(_) => ""
    case _ => a.hash
  }

  /** Nothing a handler does to one blob changes another: bytes, uploaders, quarantine and blacklist of
      every other hash stay as they were. */
  lemma OthersUntouched(cfg: Config, s: State, a: Action, other: string)
    requires Inv(cfg, s) && IsSha256Hex(other) && other != Target(a) && !a.Restart?
    ensures var t := Step(cfg, s, a);
      && (Stored(t.files, other) <==> Stored(s.files, other))
      && Owners(t.owners, other) == Owners(s.owners, other)
      && (other in t.quarantined <==> other in s.quarantined)
      && (other in t.blacklisted <==> other in s.blacklisted)
      && (Served(t, other) <==> Served(s, other))
  {
    hide IsSha256Hex, ContentAddressed, Referenced, Names, ExtOf, KeyPath, IsHash, Stored, Purged, Put, Listed, Kept;
    match a
    case Upload(pubkey, claimed, body, _, _, _) =>
      if UploadAccepted(cfg, s, a) {
        HashIsHex(cfg.sha, body);
        PutElsewhere(s.files, claimed, body, other);
        PutKeepsStored(s.files, cfg.sha, body, other);
      }
    case Delete(_, hash, _, _) => if IsSha256Hex(hash) { PurgeKeepsOthers(s.files, cfg.sha, hash, other); }
    case AdminDelete(hash, _, _) => if IsSha256Hex(hash) { PurgeKeepsOthers(s.files, cfg.sha, hash, other); }
    case BlacklistAdd(hash, _, _, _) => if IsSha256Hex(hash) { PurgeKeepsOthers(s.files, cfg.sha, hash, other); }
    case _ =>
  }

  lemma PutElsewhere(files: Files, hash: string, body: Bytes, other: string)
    requires IsSha256Hex(hash) && IsSha256Hex(other) && hash != other
    ensures Stored(Put(files, hash, ExtOf(body), body), other) ==> Stored(files, other)
  {
    hide Names, ExtOf, KeyPath, IsSha256Hex;
    NamesItsHash(hash, body, other);
  }

  // ---- how long a blacklisting lasts ----

  /** An entry stays in force but for two steps: lifting it, and a restart whose file does not have it. */
  lemma BlacklistExactly(cfg: Config, s: State, a: Action, hash: string)
    requires hash in s.blacklisted
    ensures hash in Step(cfg, s, a).blacklisted <==>
      !(a.BlacklistRemove? && a.hash == hash) && (a.Restart? ==> hash in s.disk.blacklisted)
  {
    hide Stored, Purged, Put, IsSha256Hex, Referenced, Kept, ExtOf, Accepted;
  }

  /** The file loses an entry only when lifting it is saved, or when some other blacklist change is saved
      after it has been lifted in memory. */
  lemma BlacklistOnDisk(cfg: Config, s: State, a: Action, hash: string)
    requires hash in s.disk.blacklisted
    requires BlacklistSaved(a) ==> hash in s.blacklisted && !(a.BlacklistRemove? && a.hash == hash)
    ensures hash in Step(cfg, s, a).disk.blacklisted
  {
    hide Stored, Purged, Put, IsSha256Hex, Referenced, ExtOf, Accepted, Enroll, Retract;
  }

  /** While it is in force a blacklisted hash is not served and gains no bytes; it gains uploaders only
      from a restart whose owner record still has them. */
  lemma BlacklistHolds(cfg: Config, s: State, a: Action, hash: string)
    requires Inv(cfg, s) && hash in s.blacklisted && hash in Step(cfg, s, a).blacklisted && IsSha256Hex(hash)
    ensures var t := Step(cfg, s, a);
      && !Served(t, hash)
      && (Stored(t.files, hash) ==> Stored(s.files, hash))
      && (forall pk :: pk in Owners(t.owners, hash) ==>
            pk in Owners(s.owners, hash) || (a.Restart? && pk in Owners(s.disk.owners, hash)))
  {
    hide IsSha256Hex, ContentAddressed, Referenced, Names, ExtOf, KeyPath, IsHash, Listed, Kept;
    match a
    case Upload(pubkey, claimed, body, _, _, _) =>
      if UploadAccepted(cfg, s, a) {
        HashIsHex(cfg.sha, body);
        PutElsewhere(s.files, claimed, body, hash);
      }
    case Delete(pubkey, h, _, _) => RetractIsOwn(cfg, s, pubkey, h, hash);
    case _ =>
  }

  lemma NoNewOwners(cfg: Config, s: State, a: Action, hash: string)
    requires Inv(cfg, s) && hash in s.blacklisted && hash in Step(cfg, s, a).blacklisted && IsSha256Hex(hash)
    requires hash !in s.owners && hash !in s.disk.owners
    ensures hash !in Step(cfg, s, a).owners && hash !in Step(cfg, s, a).disk.owners
  {
    hide IsSha256Hex, ContentAddressed, Referenced, ExtOf, IsHash, Put, Purged, Stored, Dropped, NoRepeats;
    if a.Upload? { HexNotEmpty(hash); }
  }

  /** A blacklisting that was saved and whose purge worked sticks: through any run that does not lift it,
      restarts and failing saves included, the blob is barred and absent. It has no uploaders either,
      if their record was clear of it on disk. */
  lemma {:induction false} BlacklistSticks(cfg: Config, s: State, hash: string, saves: Saves, actions: seq<Action>)
    requires Inv(cfg, s) && IsSha256Hex(hash)
    requires SaneRun(cfg, actions)
    requires forall i :: 0 <= i < |actions| ==> !(actions[i].BlacklistRemove? && actions[i].hash == hash)
    ensures var barred := Step(cfg, s, BlacklistAdd(hash, true, true, saves)); var t := Run(cfg, barred, actions);
      && Inv(cfg, t) && hash in t.blacklisted && hash in t.disk.blacklisted && !Stored(t.files, hash)
      && (hash !in barred.disk.owners ==> hash !in t.owners && hash !in t.disk.owners)
  {
    hide Stored, IsSha256Hex, Inv, Step;
    var barred := Step(cfg, s, BlacklistAdd(hash, true, true, saves));
    if actions == [] {
      StepKeepsInv(cfg, s, BlacklistAdd(hash, true, true, saves));
      JustBarred(cfg, s, hash, saves);
    } else {
      var n := |actions| - 1;
      BlacklistSticks(cfg, s, hash, saves, actions[..n]);
      var before := Run(cfg, barred, actions[..n]);
      StepKeepsInv(cfg, before, actions[n]);
      BlacklistExactly(cfg, before, actions[n], hash);
      BlacklistOnDisk(cfg, before, actions[n], hash);
      BlacklistHolds(cfg, before, actions[n], hash);
      if hash !in barred.disk.owners { NoNewOwners(cfg, before, actions[n], hash); }
    }
  }

  lemma JustBarred(cfg: Config, s: State, hash: string, saves: Saves)
    requires IsSha256Hex(hash)
    ensures var barred := Step(cfg, s, BlacklistAdd(hash, true, true, saves));
      && hash in barred.blacklisted && hash in barred.disk.blacklisted
      && !Stored(barred.files, hash) && hash !in barred.owners
      && (hash in barred.disk.owners <==> hash in s.disk.owners && !(saves.owners && hash in s.owners))
  {
    hide IsSha256Hex, Stored, Purged;
    PurgedIsGone(s.files, hash);
    assert hash !in s.owners ==> s.owners - {hash} == s.owners;
  }

  /** What a restart makes of a blacklisting, of lifting one, and of the uploaders a purge has removed:
      each depends on its own save alone. */
  lemma BlacklistAcrossRestart(cfg: Config, s: State, hash: string, saved: bool, works: bool, saves: Saves,
                               rebuilt: seq<Event>)
    requires IsSha256Hex(hash)
    ensures hash in Step(cfg, Step(cfg, s, BlacklistAdd(hash, saved, works, saves)), Restart(rebuilt)).blacklisted <==>
      saved || hash in s.disk.blacklisted
    ensures hash in Step(cfg, Step(cfg, s, BlacklistRemove(hash, saved)), Restart(rebuilt)).blacklisted <==>
      !saved && hash in s.disk.blacklisted
    ensures hash in Step(cfg, Step(cfg, s, BlacklistAdd(hash, true, true, saves)), Restart(rebuilt)).owners <==>
      hash in s.disk.owners && !(saves.owners && hash in s.owners)
  {
    hide IsSha256Hex, Stored, Purged;
    JustBarred(cfg, s, hash, saves);
  }

  /** A blacklisting that could not be saved is refused with an error, is in force until the next
      restart, and then lets the same bytes be uploaded and served. */
  lemma UnsavedBlacklistServed(cfg: Config, body: Bytes, pubkey: string, saves: Saves)
    requires IsHash(cfg.sha) && Accepted(body, cfg.allowed)
    ensures var hash := cfg.sha.f(body);
      var barred := Step(cfg, EMPTY, BlacklistAdd(hash, false, true, saves));
      var upload := Upload(pubkey, hash, body, false, true, saves);
      && !Served(Step(cfg, barred, upload), hash)
      && Served(Step(cfg, Step(cfg, barred, Restart([])), upload), hash)
  {
    hide IsSha256Hex, Stored, Accepted, ExtOf, Put;
    var hash := cfg.sha.f(body);
    HashIsHex(cfg.sha, body);
    var upload := Upload(pubkey, hash, body, false, true, saves);
    var barred := Step(cfg, EMPTY, BlacklistAdd(hash, false, true, saves));
    var back := Step(cfg, barred, Restart([]));
    assert barred.blacklisted == {hash} && back == EMPTY.(disk := back.disk);
    PutKeepsStored(back.files, cfg.sha, body, hash);
  }

  lemma FirstUploadServed(cfg: Config, a: Action)
    requires IsHash(cfg.sha) && a.Upload? && UploadAccepted(cfg, EMPTY, a)
    ensures Served(Run(cfg, EMPTY, [a]), a.claimed)
  {
    hide Served, IsSha256Hex, Step, UploadAccepted;
    EmptyInv(cfg);
    AcceptedIsServed(cfg, EMPTY, a);
    assert [a][..0] == [] && Run(cfg, EMPTY, [a][..0]) == EMPTY;
  }

  const ZIP: Bytes := [0x50, 0x4b, 0x03, 0x04]

  /** The assumptions of this module are met by some node and some run: one that serves a zip file. */
  lemma SomeNodeServes(allowed: string -> bool, lower: string -> string)
    requires allowed("zip")
    ensures var cfg := Config("", Hash(LengthHash, {ZIP}), allowed, "", lower);
      var upload := Upload("author", LengthHash(ZIP), ZIP, false, true, Saves(true, true));
      IsHash(cfg.sha) && SaneRun(cfg, [upload]) && Served(Run(cfg, EMPTY, [upload]), LengthHash(ZIP))
  {
    hide Served, IsHash, Run, LengthHash, Accepted;
    var cfg := Config("", Hash(LengthHash, {ZIP}), allowed, "", lower);
    var upload := Upload("author", LengthHash(ZIP), ZIP, false, true, Saves(true, true));
    HashWitness({ZIP});
    ZipAccepted(allowed);
    FirstUploadServed(cfg, upload);
  }

  lemma ZipAccepted(allowed: string -> bool)
    requires allowed("zip")
    ensures Accepted(ZIP, allowed)
  {
    assert Head(ZIP) == ZIP;
  }

  // ---- quarantine and bytes ----

  ghost predicate QuarantinedIsStored(s: State) { forall h :: h in s.quarantined ==> Stored(s.files, h) }

  /** The admin's dashboard delete and the blacklist purge remove the bytes of a quarantined blob and
      leave its entry behind; a restart may bring such an entry back. */
  ghost predicate Strands(s: State, a: Action) {
    || (a.AdminDelete? && IsSha256Hex(a.hash) && a.works && a.hash in s.quarantined)
    || (a.BlacklistAdd? && IsSha256Hex(a.hash) && a.saved && a.works && a.hash in s.quarantined)
    || (a.Restart? && Stale(s))
  }

  /** "A quarantined blob is stored" is not an invariant; these steps are exactly what breaks it. */
  lemma QuarantinedIsStoredExactly(cfg: Config, s: State, a: Action)
    requires Inv(cfg, s) && Coherent(s) && QuarantinedIsStored(s)
    ensures QuarantinedIsStored(Step(cfg, s, a)) <==> !Strands(s, a)
  {
    hide IsSha256Hex, ContentAddressed, IsHash, Referenced, Names, KeyPath, ExtOf, Put, Purged, Stored, Retract, Enroll,
      Kept, Listed;
    var t := Step(cfg, s, a);
    if a.Restart? {
    } else if Strands(s, a) {
      PurgedIsGone(s.files, a.hash);
      assert a.hash in t.quarantined && !Stored(t.files, a.hash);
    } else {
      forall h | h in t.quarantined
        ensures Stored(t.files, h)
      {
        StaysStored(cfg, s, a, h);
      }
    }
  }

  lemma StaysStored(cfg: Config, s: State, a: Action, h: string)
    requires Inv(cfg, s) && Coherent(s) && QuarantinedIsStored(s) && !Strands(s, a) && !a.Restart?
    requires h in Step(cfg, s, a).quarantined
    ensures Stored(Step(cfg, s, a).files, h)
  {
    hide IsSha256Hex, ContentAddressed, IsHash, Referenced, Names, KeyPath, ExtOf, Put, Purged, Kept, Listed;
    if h in s.quarantined {
      var p :| p in s.files && Names(p, h);
      if AdminAction(cfg, a) {
        KeptByPurge(cfg, s, a, p, h);
      } else {
        OnlyAdminRemovesBytes(cfg, s, a, p);
      }
    } else {
      QuarantineEntry(cfg, s, a, h);
      assert h in s.owners;
      RetractFrame(cfg, s, a.pubkey, a.hash);
    }
  }

  /** A purge of another hash leaves a file alone. */
  lemma KeptByPurge(cfg: Config, s: State, a: Action, p: Path, h: string)
    requires Inv(cfg, s) && AdminAction(cfg, a) && p in s.files && Names(p, h)
    requires h in s.quarantined && h in Step(cfg, s, a).quarantined && !Strands(s, a)
    ensures p in Step(cfg, s, a).files
  {
    hide KeyPath, ExtOf, IsHash, Listed, Kept;
    assert IsSha256Hex(h);
    if IsSha256Hex(a.hash) && Names(p, a.hash) { SameHash(p, h, a.hash); }
  }

  /** A file answers to one hash. */
  lemma SameHash(p: Path, h: string, hash: string)
    requires Names(p, h) && Names(p, hash) && IsSha256Hex(h) && IsSha256Hex(hash)
    ensures h == hash
  {
    assert p.name[..64] == h by { if p.name != h { assert (h + ".")[..64] == h; } }
    assert p.name[..64] == hash by { if p.name != hash { assert (hash + ".")[..64] == hash; } }
  }
}
