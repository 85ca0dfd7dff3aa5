/** The life of a blob: upload, claim, retraction, quarantine, deletion and blacklisting, one step per
    HTTP handler, over records that live in memory and on disk. */
module BlobLifecycle {
  import opened Text
  import opened Coordinates
  import opened BlobStore
  import opened BlobRecords
  import BlobRefs

  /** admin is "" when none is configured; allowed is the upload type allow-list. */
  datatype Config = Config(admin: string, sha: Hash, allowed: string -> bool, host: string, lower: string -> string)

  /** When each standing uploader was entered; only records history. */
  type Claims = map<(string, string), nat>

  /** The last saved copies of the three records. */
  datatype Records = Records(owners: OwnerMap, claims: Claims, quarantined: set<string>, blacklisted: set<string>)

  datatype State = State(files: Files, owners: OwnerMap, quarantined: set<string>, blacklisted: set<string>,
                         noted: seq<Event>, claims: Claims, clock: nat, disk: Records)

  /** Whether the owner record and the quarantine could be written; nobody looks. */
  datatype Saves = Saves(owners: bool, quarantine: bool)

  /** Requests whose authorization has been checked. `works` says whether the storage operation
      succeeds, `saved` whether the blacklist could be written, which is reported. */
  datatype Action =
    | Upload(pubkey: string, claimed: string, body: Bytes, blocked: bool, works: bool, saves: Saves)
    | Claim(pubkey: string, hash: string, blocked: bool, works: bool, saves: Saves)
    | Delete(pubkey: string, hash: string, works: bool, saves: Saves)
    | AdminDelete(hash: string, works: bool, saves: Saves)
    | BlacklistAdd(hash: string, saved: bool, works: bool, saves: Saves)
    | BlacklistRemove(hash: string, saved: bool)
    | Release(hash: string, saves: Saves)
    | Note(evt: Event)
    | Restart(rebuilt: seq<Event>)

  ghost predicate Referenced(cfg: Config, noted: seq<Event>, hash: string) {
    BlobRefs.RefsOf(noted, cfg.lower, cfg.host, hash) != []
  }

  /** A download is answered with the bytes. */
  ghost predicate Served(s: State, hash: string) {
    Stored(s.files, hash) && hash !in s.quarantined && hash !in s.blacklisted
  }

  ghost function Enroll(s: State, hash: string, pubkey: string): State {
    s.(owners := AddOwner(s.owners, hash, pubkey),
       claims := if AddOwner(s.owners, hash, pubkey) == s.owners then s.claims else s.claims[(hash, pubkey) := s.clock],
       clock := s.clock + 1,
       quarantined := s.quarantined - {hash})
  }

  /** What the assumption on hashes asks of a step: an uploaded body is one of those that occur. */
  predicate Sane(cfg: Config, a: Action) { a.Upload? ==> a.body in cfg.sha.bodies }

  ghost predicate UploadAccepted(cfg: Config, s: State, a: Action)
    requires a.Upload?
  {
    !a.blocked && a.claimed !in s.blacklisted && cfg.sha.f(a.body) == a.claimed
    && Accepted(a.body, cfg.allowed) && a.works
  }

  ghost predicate ClaimAccepted(s: State, a: Action)
    requires a.Claim?
  {
    IsSha256Hex(a.hash) && !a.blocked && a.hash !in s.blacklisted && a.works && Stored(s.files, a.hash)
  }

  predicate ByAdmin(cfg: Config, a: Action)
    requires a.Delete?
  {
    cfg.admin != "" && a.pubkey == cfg.admin
  }

  ghost function Retract(cfg: Config, s: State, pubkey: string, hash: string): State {
    if pubkey !in Owners(s.owners, hash) then s
    else
      s.(owners := DropOwner(s.owners, hash, pubkey),
         quarantined := if Dropped(Owners(s.owners, hash), pubkey) == [] && !Referenced(cfg, s.noted, hash)
                        then s.quarantined + {hash} else s.quarantined)
  }

  /** What a handler does to the bytes and to the records in memory. */
  ghost function Effect(cfg: Config, s: State, a: Action): State {
    match a
    case Upload(pubkey, claimed, body, _, _, _) =>
      if UploadAccepted(cfg, s, a)
      then Enroll(s.(files := Put(s.files, claimed, ExtOf(body), body)), claimed, pubkey)
      else s
    case Claim(pubkey, hash, _, _, _) => if ClaimAccepted(s, a) then Enroll(s, hash, pubkey) else s
    case Delete(pubkey, hash, works, _) =>
      if !IsSha256Hex(hash) then s
      else if !ByAdmin(cfg, a) then Retract(cfg, s, pubkey, hash)
      else if !works then s
      else s.(files := Purged(s.files, hash), owners := s.owners - {hash}, quarantined := s.quarantined - {hash})
    case AdminDelete(hash, works, _) =>
      if !IsSha256Hex(hash) || !works then s
      else s.(files := Purged(s.files, hash), owners := s.owners - {hash})
    case BlacklistAdd(hash, saved, works, _) =>
      if !IsSha256Hex(hash) then s
      else if !saved then s.(blacklisted := s.blacklisted + {hash})
      else
        s.(blacklisted := s.blacklisted + {hash}, owners := s.owners - {hash},
           files := if works then Purged(s.files, hash) else s.files)
    case BlacklistRemove(hash, _) => s.(blacklisted := s.blacklisted - {hash})
    case Release(hash, _) => s.(quarantined := s.quarantined - {hash})
    case Note(evt) => s.(noted := s.noted + [evt])
    case Restart(_) => s
  }

  function SavesOf(a: Action): Saves {
    match a
    case BlacklistRemove(_, _) => Saves(false, false)
    case Note(_) => Saves(false, false)
    case Restart(_) => Saves(false, false)
    case _ => a.saves
  }

  predicate BlacklistSaved(a: Action) {
    (a.BlacklistAdd? && IsSha256Hex(a.hash) && a.saved) || (a.BlacklistRemove? && a.saved)
  }

  /** A record that has changed is saved as a whole; the blacklist always is. */
  function Kept(s: State, t: State, saves: Saves, blacklistSaved: bool): Records {
    var owners := t.owners != s.owners && saves.owners;
    Records(if owners then t.owners else s.disk.owners,
            if owners then t.claims else s.disk.claims,
            if t.quarantined != s.quarantined && saves.quarantine then t.quarantined else s.disk.quarantined,
            if blacklistSaved then t.blacklisted else s.disk.blacklisted)
  }

  /** A restart reads the saved records back and rebuilds the reference index. */
  function Loaded(s: State, rebuilt: seq<Event>): State {
    s.(owners := s.disk.owners, claims := s.disk.claims, quarantined := s.disk.quarantined,
       blacklisted := s.disk.blacklisted, noted := rebuilt)
  }

  ghost function Step(cfg: Config, s: State, a: Action): State {
    if a.Restart? then Loaded(s, a.rebuilt)
    else
      var t := Effect(cfg, s, a);
      t.(disk := Kept(s, t, SavesOf(a), BlacklistSaved(a)))
  }

  // ---- the invariant, whatever fails ----

  /** One owner list: nonempty, at most fifty, without repeats, in the order of the claims. */
  ghost predicate ListedAt(list: seq<string>, claims: Claims, clock: nat, hash: string) {
    && IsSha256Hex(hash) && 0 < |list| <= 50 && NoRepeats(list)
    && (forall i :: 0 <= i < |list| ==> list[i] != "" && (hash, list[i]) in claims && claims[(hash, list[i])] < clock)
    && (forall i, j :: 0 <= i < j < |list| ==> claims[(hash, list[i])] < claims[(hash, list[j])])
  }

  ghost predicate Listed(owners: OwnerMap, claims: Claims, clock: nat) {
    forall h :: h in owners ==> ListedAt(owners[h], claims, clock, h)
  }

  ghost predicate AllHex(hashes: set<string>) { forall h :: h in hashes ==> IsSha256Hex(h) }

  ghost predicate Inv(cfg: Config, s: State) {
    && IsHash(cfg.sha) && ContentAddressed(s.files, cfg.sha)
    && Listed(s.owners, s.claims, s.clock) && AllHex(s.quarantined)
    && Listed(s.disk.owners, s.disk.claims, s.clock) && AllHex(s.disk.quarantined)
  }

  const EMPTY := State(map[], map[], {}, {}, [], map[], 0, Records(map[], map[], {}, {}))

  lemma EmptyInv(cfg: Config)
    requires IsHash(cfg.sha)
    ensures Inv(cfg, EMPTY)
  {}

  lemma HashIsHex(sha: Hash, body: Bytes)
    requires IsHash(sha)
    ensures IsSha256Hex(sha.f(body))
  {}

  lemma EnrollKeepsLists(s: State, hash: string, pubkey: string)
    requires Listed(s.owners, s.claims, s.clock) && IsSha256Hex(hash)
    ensures var t := Enroll(s, hash, pubkey); Listed(t.owners, t.claims, t.clock)
  {
    hide IsSha256Hex;
    var t := Enroll(s, hash, pubkey);
    forall h | h in t.owners
      ensures ListedAt(t.owners[h], t.claims, t.clock, h)
    {
      if h in s.owners { assert ListedAt(s.owners[h], s.claims, s.clock, h); }
      if h == hash { EnrollSame(s, hash, pubkey); } else { EnrollOther(s, hash, pubkey, h); }
    }
  }

  lemma EnrollOther(s: State, hash: string, pubkey: string, h: string)
    requires h != hash && h in s.owners && ListedAt(s.owners[h], s.claims, s.clock, h)
    ensures var t := Enroll(s, hash, pubkey); h in t.owners && ListedAt(t.owners[h], t.claims, t.clock, h)
  {
    hide IsSha256Hex, NoRepeats;
  }

  lemma EnrollSame(s: State, hash: string, pubkey: string)
    requires IsSha256Hex(hash) && hash in Enroll(s, hash, pubkey).owners
    requires hash in s.owners ==> ListedAt(s.owners[hash], s.claims, s.clock, hash)
    ensures var t := Enroll(s, hash, pubkey); ListedAt(t.owners[hash], t.claims, t.clock, hash)
  {
    hide IsSha256Hex;
    var t := Enroll(s, hash, pubkey);
    var list := Owners(s.owners, hash);
    if t.owners != s.owners {
      assert t.owners[hash] == list + [pubkey];
      assert t.claims == s.claims[(hash, pubkey) := s.clock];
    }
  }

  lemma RetractKeepsLists(cfg: Config, s: State, pubkey: string, hash: string)
    requires Listed(s.owners, s.claims, s.clock)
    ensures var t := Retract(cfg, s, pubkey, hash); Listed(t.owners, t.claims, t.clock)
  {
    hide IsSha256Hex, Referenced, NoRepeats, Dropped;
    var t := Retract(cfg, s, pubkey, hash);
    forall h | h in t.owners
      ensures ListedAt(t.owners[h], t.claims, t.clock, h)
    {
      assert ListedAt(s.owners[h], s.claims, s.clock, h);
      if h == hash && pubkey in s.owners[hash] {
        DroppedMeans(s.owners[hash], pubkey);
        DroppedOrder(s.owners[hash], pubkey, hash, s.claims);
      }
    }
  }

  /** Dropping an entry keeps the others in order. */
  lemma DroppedOrder(list: seq<string>, pubkey: string, hash: string, claims: Claims)
    requires forall i :: 0 <= i < |list| ==> (hash, list[i]) in claims
    requires forall i, j :: 0 <= i < j < |list| ==> claims[(hash, list[i])] < claims[(hash, list[j])]
    ensures forall i :: 0 <= i < |Dropped(list, pubkey)| ==> Dropped(list, pubkey)[i] in list
    ensures |Dropped(list, pubkey)| <= |list|
    ensures forall i, j :: 0 <= i < j < |Dropped(list, pubkey)| ==>
      claims[(hash, Dropped(list, pubkey)[i])] < claims[(hash, Dropped(list, pubkey)[j])]
  {
    hide Dropped;
    var d := Dropped(list, pubkey);
    if d != [] { DroppedAt(list, pubkey, 0); }
    forall i | 0 <= i < |d|
      ensures d[i] in list && (hash, d[i]) in claims
    {
      DroppedAt(list, pubkey, i);
    }
    forall i, j | 0 <= i < j < |d|
      ensures claims[(hash, d[i])] < claims[(hash, d[j])]
    {
      DroppedAt(list, pubkey, i);
      DroppedAt(list, pubkey, j);
    }
  }

  lemma DroppedAt(list: seq<string>, pubkey: string, k: nat)
    requires k < |Dropped(list, pubkey)|
    ensures |Dropped(list, pubkey)| <= |list|
    ensures var idx := PositionFrom(list, pubkey, 0); var at := if idx < 0 || k < idx then k else k + 1;
      at < |list| && Dropped(list, pubkey)[k] == list[at]
  {}

  lemma ListedLess(owners: OwnerMap, claims: Claims, clock: nat, hash: string)
    requires Listed(owners, claims, clock)
    ensures Listed(owners - {hash}, claims, clock)
  {
    hide ListedAt;
  }

  lemma ListedLater(owners: OwnerMap, claims: Claims, clock: nat, later: nat)
    requires Listed(owners, claims, clock) && clock <= later
    ensures Listed(owners, claims, later)
  {
    hide IsSha256Hex, NoRepeats;
    forall h | h in owners
      ensures ListedAt(owners[h], claims, later, h)
    {
      assert ListedAt(owners[h], claims, clock, h);
    }
  }

  lemma AddressedAfterPurge(files: Files, sha: Hash, hash: string)
    requires ContentAddressed(files, sha)
    ensures ContentAddressed(Purged(files, hash), sha)
  {}

  /** What a handler leaves in memory is as it should be. */
  lemma EffectKeepsInv(cfg: Config, s: State, a: Action)
    requires Inv(cfg, s) && Sane(cfg, a)
    ensures var t := Effect(cfg, s, a);
      && ContentAddressed(t.files, cfg.sha) && Listed(t.owners, t.claims, t.clock) && s.clock <= t.clock
      && AllHex(t.quarantined) && t.disk == s.disk
  {
    hide Purged, Put, IsSha256Hex, ContentAddressed, IsHash, Listed, AllHex, Enroll, Retract;
    EffectListed(cfg, s, a);
    match a
    case Upload(pubkey, claimed, body, _, _, _) =>
      if UploadAccepted(cfg, s, a) {
        PutKeepsAddressed(s.files, cfg.sha, body);
        EnrollFrame(s.(files := Put(s.files, claimed, ExtOf(body), body)), claimed, pubkey);
      }
    case Claim(pubkey, hash, _, _, _) => EnrollFrame(s, hash, pubkey);
    case Delete(pubkey, hash, _, _) =>
      RetractFrame(cfg, s, pubkey, hash);
      AddressedAfterPurge(s.files, cfg.sha, hash);
    case AdminDelete(hash, _, _) => AddressedAfterPurge(s.files, cfg.sha, hash);
    case BlacklistAdd(hash, _, _, _) => AddressedAfterPurge(s.files, cfg.sha, hash);
    case _ =>
  }

  /** Lists stay lists without the assumption on hashes. */
  lemma EffectListed(cfg: Config, s: State, a: Action)
    requires Inv(cfg, s)
    ensures var t := Effect(cfg, s, a);
      Listed(t.owners, t.claims, t.clock) && s.clock <= t.clock && AllHex(t.quarantined) && t.disk == s.disk
  {
    hide Purged, Put, IsSha256Hex, ContentAddressed, IsHash, Listed, Enroll, Retract;
    match a
    case Upload(pubkey, claimed, body, _, _, _) =>
      if UploadAccepted(cfg, s, a) {
        HashIsHex(cfg.sha, body);
        var put := s.(files := Put(s.files, claimed, ExtOf(body), body));
        EnrollKeepsLists(put, claimed, pubkey);
        EnrollFrame(put, claimed, pubkey);
      }
    case Claim(pubkey, hash, _, _, _) =>
      if ClaimAccepted(s, a) {
        EnrollKeepsLists(s, hash, pubkey);
        EnrollFrame(s, hash, pubkey);
      }
    case Delete(pubkey, hash, _, _) =>
      RetractKeepsLists(cfg, s, pubkey, hash);
      RetractFrame(cfg, s, pubkey, hash);
      ListedLess(s.owners, s.claims, s.clock, hash);
    case AdminDelete(hash, _, _) => ListedLess(s.owners, s.claims, s.clock, hash);
    case BlacklistAdd(hash, _, _, _) => ListedLess(s.owners, s.claims, s.clock, hash);
    case _ =>
  }

  lemma EnrollFrame(s: State, hash: string, pubkey: string)
    ensures var t := Enroll(s, hash, pubkey);
      && t.files == s.files && t.blacklisted == s.blacklisted && t.noted == s.noted && t.disk == s.disk
      && t.clock == s.clock + 1 && t.quarantined == s.quarantined - {hash}
      && t.owners == AddOwner(s.owners, hash, pubkey)
  {}

  lemma RetractFrame(cfg: Config, s: State, pubkey: string, hash: string)
    ensures var t := Retract(cfg, s, pubkey, hash);
      && t.files == s.files && t.blacklisted == s.blacklisted && t.noted == s.noted && t.disk == s.disk
      && t.clock == s.clock && t.claims == s.claims && s.quarantined <= t.quarantined <= s.quarantined + {hash}
  {}

  /** Every handler, and every restart, keeps the invariant, whichever saves fail. */
  lemma StepKeepsInv(cfg: Config, s: State, a: Action)
    requires Inv(cfg, s) && Sane(cfg, a)
    ensures Inv(cfg, Step(cfg, s, a))
  {
    hide Effect, IsSha256Hex, ContentAddressed, IsHash, Listed, AllHex;
    if !a.Restart? {
      EffectKeepsInv(cfg, s, a);
      ListedLater(s.disk.owners, s.disk.claims, s.clock, Effect(cfg, s, a).clock);
    }
  }

  ghost function Run(cfg: Config, s: State, actions: seq<Action>): State {
    if actions == [] then s else Step(cfg, Run(cfg, s, actions[..|actions| - 1]), actions[|actions| - 1])
  }

  ghost predicate SaneRun(cfg: Config, actions: seq<Action>) {
    forall i :: 0 <= i < |actions| ==> Sane(cfg, actions[i])
  }

  /** The invariant holds after every run from an empty node, whichever saves fail. */
  lemma {:induction false} RunKeepsInv(cfg: Config, actions: seq<Action>)
    requires IsHash(cfg.sha) && SaneRun(cfg, actions)
    ensures Inv(cfg, Run(cfg, EMPTY, actions))
  {
    hide Step, Inv;
    if actions == [] {
      EmptyInv(cfg);
    } else {
      RunKeepsInv(cfg, actions[..|actions| - 1]);
      StepKeepsInv(cfg, Run(cfg, EMPTY, actions[..|actions| - 1]), actions[|actions| - 1]);
    }
  }

  // ---- owners, bytes and quarantine agree ----

  /** A hash with an uploader has stored bytes and is not withheld. */
  ghost predicate Agree(files: Files, owners: OwnerMap, quarantined: set<string>) {
    forall h :: h in owners ==> Stored(files, h) && h !in quarantined
  }

  ghost predicate Coherent(s: State) { Agree(s.files, s.owners, s.quarantined) }

  /** The quarantine on disk has a hash without stored bytes. */
  ghost predicate Stale(s: State) { exists h :: h in s.disk.quarantined && !Stored(s.files, h) }

  /** The records on disk contradict each other or the stored bytes. */
  ghost predicate Torn(s: State) { !Agree(s.files, s.disk.owners, s.disk.quarantined) }

  /** Files of other hashes survive a purge. */
  lemma PurgeKeepsOthers(files: Files, sha: Hash, hash: string, other: string)
    requires IsHash(sha) && ContentAddressed(files, sha) && IsSha256Hex(hash) && IsSha256Hex(other) && hash != other
    ensures Stored(files, other) <==> Stored(Purged(files, hash), other)
    ensures !Stored(Purged(files, hash), hash)
  {
    hide Names, KeyPath, ExtOf;
    if Stored(files, other) {
      var p :| p in files && Names(p, other);
      NamesItsHash(sha.f(files[p]), files[p], other);
      NamesItsHash(sha.f(files[p]), files[p], hash);
      assert p in Purged(files, hash);
    }
  }

  lemma PutKeepsStored(files: Files, sha: Hash, body: Bytes, other: string)
    requires IsHash(sha)
    ensures Stored(files, other) ==> Stored(Put(files, sha.f(body), ExtOf(body), body), other)
    ensures Stored(Put(files, sha.f(body), ExtOf(body), body), sha.f(body))
  {
    hide Names, ExtOf, KeyPath;
    var after := Put(files, sha.f(body), ExtOf(body), body);
    NamesItsHash(sha.f(body), body, sha.f(body));
    assert KeyPath(sha.f(body), ExtOf(body)) in after;
    if Stored(files, other) {
      var p :| p in files && Names(p, other);
      assert p in after;
    }
  }

  lemma ListedHex(owners: OwnerMap, claims: Claims, clock: nat, h: string)
    requires Listed(owners, claims, clock) && h in owners
    ensures IsSha256Hex(h)
  {
    assert ListedAt(owners[h], claims, clock, h);
  }

  /** One record that agrees with the bytes still does after a purge of a hash it does not list. */
  lemma AgreeAfterPurge(files: Files, sha: Hash, owners: OwnerMap, claims: Claims, clock: nat, quarantined: set<string>,
                        hash: string)
    requires IsHash(sha) && ContentAddressed(files, sha) && Listed(owners, claims, clock) && IsSha256Hex(hash)
    requires Agree(files, owners, quarantined)
    ensures Agree(Purged(files, hash), owners, quarantined) <==> hash !in owners
    ensures Agree(Purged(files, hash), owners - {hash}, quarantined)
    ensures Agree(files, owners - {hash}, quarantined)
  {
    hide Stored, Purged, IsSha256Hex, ContentAddressed, IsHash, Listed;
    forall h | h in owners && h != hash
      ensures Stored(Purged(files, hash), h)
    {
      ListedHex(owners, claims, clock, h);
      PurgeKeepsOthers(files, sha, hash, h);
    }
    PurgedIsGone(files, hash);
  }

  lemma PurgedIsGone(files: Files, hash: string)
    ensures !Stored(Purged(files, hash), hash)
  {}

  lemma AgreeWithMore(files: Files, sha: Hash, owners: OwnerMap, quarantined: set<string>, body: Bytes)
    requires IsHash(sha) && Agree(files, owners, quarantined)
    ensures Agree(Put(files, sha.f(body), ExtOf(body), body), owners, quarantined)
  {
    hide Stored, ContentAddressed, IsHash, Put;
    forall h | h in owners
      ensures Stored(Put(files, sha.f(body), ExtOf(body), body), h)
    {
      PutKeepsStored(files, sha, body, h);
    }
  }

  lemma EnrollAgrees(s: State, hash: string, pubkey: string)
    requires Coherent(s) && Stored(s.files, hash)
    ensures Coherent(Enroll(s, hash, pubkey))
  {
    hide Stored;
  }

  lemma RetractAgrees(cfg: Config, s: State, pubkey: string, hash: string)
    requires Coherent(s)
    ensures Coherent(Retract(cfg, s, pubkey, hash))
  {
    hide Stored, Referenced, Dropped;
  }

  /** Every handler keeps bytes, uploaders and quarantine in agreement, even if no record can be saved. */
  lemma EffectAgrees(cfg: Config, s: State, a: Action)
    requires Inv(cfg, s) && Coherent(s)
    ensures Coherent(Effect(cfg, s, a))
  {
    hide Stored, Purged, Put, IsSha256Hex, ContentAddressed, IsHash, Listed, Enroll, Retract;
    match a
    case Upload(pubkey, claimed, body, _, _, _) =>
      if UploadAccepted(cfg, s, a) {
        AgreeWithMore(s.files, cfg.sha, s.owners, s.quarantined, body);
        PutKeepsStored(s.files, cfg.sha, body, claimed);
        EnrollAgrees(s.(files := Put(s.files, claimed, ExtOf(body), body)), claimed, pubkey);
      }
    case Claim(pubkey, hash, _, _, _) => if ClaimAccepted(s, a) { EnrollAgrees(s, hash, pubkey); }
    case Delete(pubkey, hash, _, _) =>
      RetractAgrees(cfg, s, pubkey, hash);
      if IsSha256Hex(hash) { AgreeAfterPurge(s.files, cfg.sha, s.owners, s.claims, s.clock, s.quarantined, hash); }
    case AdminDelete(hash, _, _) =>
      if IsSha256Hex(hash) { AgreeAfterPurge(s.files, cfg.sha, s.owners, s.claims, s.clock, s.quarantined, hash); }
    case BlacklistAdd(hash, _, _, _) =>
      if IsSha256Hex(hash) { AgreeAfterPurge(s.files, cfg.sha, s.owners, s.claims, s.clock, s.quarantined, hash); }
    case _ =>
  }

  /** "A hash with an uploader is stored and not quarantined" is kept by every step but one: a restart
      from torn records. */
  lemma CoherentExactly(cfg: Config, s: State, a: Action)
    requires Inv(cfg, s) && Coherent(s)
    ensures Coherent(Step(cfg, s, a)) <==> !(a.Restart? && Torn(s))
  {
    hide Effect, Inv, Stored;
    if !a.Restart? { EffectAgrees(cfg, s, a); }
  }

  /** So it holds after every run no restart of which found its records torn. */
  lemma {:induction false} RunIsCoherent(cfg: Config, actions: seq<Action>)
    requires IsHash(cfg.sha) && SaneRun(cfg, actions)
    requires forall i :: 0 <= i < |actions| && actions[i].Restart? ==> !Torn(Run(cfg, EMPTY, actions[..i]))
    ensures Coherent(Run(cfg, EMPTY, actions))
  {
    hide Step, Inv, Torn, Stored;
    if actions != [] {
      var n := |actions| - 1;
      forall i | 0 <= i < n && actions[..n][i].Restart?
        ensures !Torn(Run(cfg, EMPTY, actions[..n][..i]))
      {
        assert actions[..n][..i] == actions[..i];
      }
      RunIsCoherent(cfg, actions[..n]);
      RunKeepsInv(cfg, actions[..n]);
      CoherentExactly(cfg, Run(cfg, EMPTY, actions[..n]), actions[n]);
    }
  }

  /** Dropping the only uploader, and nobody else, empties the list. */
  lemma SoleOwner(list: seq<string>, pubkey: string)
    requires pubkey in list
    ensures Dropped(list, pubkey) == [] <==> list == [pubkey]
  {
    var idx := PositionFrom(list, pubkey, 0);
    assert |Dropped(list, pubkey)| == |list| - 1;
    assert idx == 0 ==> list[0] == pubkey;
  }

  lemma DropChanges(m: OwnerMap, hash: string, pubkey: string)
    requires pubkey in Owners(m, hash)
    ensures DropOwner(m, hash, pubkey) != m
  {
    var list := Owners(m, hash);
    assert |Dropped(list, pubkey)| == |list| - 1;
    assert |Owners(DropOwner(m, hash, pubkey), hash)| < |list|;
  }

  lemma HexNotEmpty(hash: string)
    requires IsSha256Hex(hash)
    ensures hash != ""
  {}
}
