/** The server object with the stores its blob handlers change. Authorization, HTTP answers and the
    listing cache are left out; each method is a handler from the point where the request's author is
    known. */
module BlobServer {
  import opened Text
  import opened Coordinates
  import opened BlobStore
  import opened BlobRecords
  import opened BlobLifecycle
  import opened BlobGuarantees
  import BlobRefs
  import PagedWalks

  class Server {
    const cfg: Config
    const files: Disk
    const owners: BlobOwners
    const quarantine: Quarantine
    const blacklist: Blacklist
    var refs: BlobRefs.Index
    ghost var claims: Claims
    ghost var savedClaims: Claims
    ghost var clock: nat

    ghost predicate Valid()
      reads this, files, owners, quarantine, blacklist, refs
    {
      refs.Valid() && refs.host == cfg.host && refs.lower == cfg.lower && Inv(cfg, View())
    }

    ghost function View(): State
      reads this, files, owners, quarantine, blacklist, refs
    {
      State(files.files, owners.m, quarantine.since.Keys, blacklist.entries.Keys, refs.history, claims, clock,
            Records(owners.onDisk, savedClaims, quarantine.onDisk.Keys, blacklist.onDisk.Keys))
    }

    constructor (cfg: Config)
      requires IsHash(cfg.sha) && Without(cfg.host, '/')
      ensures Valid() && View() == EMPTY && this.cfg == cfg
      ensures fresh(files) && fresh(owners) && fresh(quarantine) && fresh(blacklist) && fresh(refs)
    {
      this.cfg := cfg;
      files := new Disk();
      owners := new BlobOwners();
      quarantine := new Quarantine();
      blacklist := new Blacklist();
      refs := new BlobRefs.Index(cfg.host, cfg.lower);
      claims, savedClaims, clock := map[], map[], 0;
      new;
      EmptyInv(cfg);
    }

    /** The owner record has just changed: history follows what was saved. */
    ghost method NoteSaved(before: OwnerMap, saved: bool)
      modifies `savedClaims
      ensures savedClaims == if owners.m != before && saved then claims else old(savedClaims)
    {
      if owners.m != before && saved { savedClaims := claims; }
    }

    /** `owners.add` and `quarantine.remove`, the last two lines of an upload and of a claim. */
    method Register(hash: string, pubkey: string, saves: Saves)
      requires refs.Valid()
      modifies owners, quarantine, `claims, `savedClaims, `clock
      ensures refs.Valid()
      ensures var t := Enroll(old(View()), hash, pubkey); View() == t.(disk := Kept(old(View()), t, saves, false))
    {
      hide AddOwner, BlobRefs.Index.Valid;
      ghost var before := owners.m;
      owners.Add(hash, pubkey, saves.owners);
      if owners.m != before { claims := claims[(hash, pubkey) := clock]; }
      NoteSaved(before, saves.owners);
      clock := clock + 1;
      quarantine.Remove(hash, saves.quarantine);
    }

    /** `handleUploadPut` once the body is in its temporary file. */
    method HandleUpload(pubkey: string, claimed: string, body: Bytes, blocked: bool, works: bool, saves: Saves)
      requires Valid() && body in cfg.sha.bodies
      modifies files, owners, quarantine, `claims, `savedClaims, `clock
      ensures Valid() && View() == Step(cfg, old(View()), Upload(pubkey, claimed, body, blocked, works, saves))
    {
      hide Inv, Enroll, BlobRefs.Index.Valid;
      ghost var a := Upload(pubkey, claimed, body, blocked, works, saves);
      StepKeepsInv(cfg, View(), a);
      if blocked { return; }
      var barred := blacklist.Has(claimed);
      if barred { return; }
      var sum := cfg.sha.f(body);
      if sum != claimed { return; }
      var ext := ClassifyUpload(body, cfg.allowed);
      if ext.None? { return; }
      files.Store(sum, ext.value, body, works);
      if !works { return; }
      Register(sum, pubkey, saves);
    }

    /** What the dashboard shows of a blob: its original uploader, and everybody who stands behind it. */
    method Uploaders(hash: string) returns (original: string, list: seq<string>)
      requires Valid()
      ensures list == Owners(View().owners, hash) && NoRepeats(list) && |list| <= 50
      ensures if list == [] then original == "" else original == list[0]
      ensures forall pk | pk in list ::
        && (hash, original) in claims && (hash, pk) in claims
        && (pk == original || claims[(hash, original)] < claims[(hash, pk)])
    {
      hide IsSha256Hex, BlobRefs.Index.Valid, ContentAddressed, IsHash;
      original := owners.First(hash);
      list := owners.List(hash);
      assert hash in owners.m ==> ListedAt(owners.m[hash], claims, clock, hash);
      forall pk | pk in list
        ensures (hash, original) in claims && (hash, pk) in claims
          && (pk == original || claims[(hash, original)] < claims[(hash, pk)])
      {
        FirstIsOriginal(cfg, View(), hash, pk);
      }
    }

    /** `works` says whether the storage could be asked at all. */
    method HandleClaim(pubkey: string, hash: string, blocked: bool, works: bool, saves: Saves)
      requires Valid()
      modifies owners, quarantine, `claims, `savedClaims, `clock
      ensures Valid() && View() == Step(cfg, old(View()), Claim(pubkey, hash, blocked, works, saves))
    {
      hide Inv, Enroll, BlobRefs.Index.Valid;
      ghost var a := Claim(pubkey, hash, blocked, works, saves);
      StepKeepsInv(cfg, View(), a);
      if !IsSha256Hex(hash) || blocked { return; }
      var barred := blacklist.Has(hash);
      if barred { return; }
      var found := files.Has(hash, "");
      if !works || !found { return; }
      Register(hash, pubkey, saves);
    }

    method HandleDelete(pubkey: string, hash: string, works: bool, saves: Saves, now: int)
      requires Valid()
      modifies files, owners, quarantine, `savedClaims
      ensures Valid() && View() == Step(cfg, old(View()), Delete(pubkey, hash, works, saves))
    {
      hide Inv, Effect, Kept, IsSha256Hex;
      ghost var a := Delete(pubkey, hash, works, saves);
      StepKeepsInv(cfg, View(), a);
      NoDelete(cfg, View(), a);
      if !IsSha256Hex(hash) { return; }
      if cfg.admin != "" && pubkey == cfg.admin {
        HardDelete(hash, works, saves, a);
      } else {
        RetractUpload(pubkey, hash, saves, now, a);
      }
    }

    /** The admin's branch: content moderation. */
    method HardDelete(hash: string, works: bool, saves: Saves, ghost a: Action)
      requires Valid() && IsSha256Hex(hash) && a.Delete? && ByAdmin(cfg, a)
      requires a.hash == hash && a.works == works && a.saves == saves
      modifies files, owners, quarantine, `savedClaims
      ensures refs.Valid() && View() == Step(cfg, old(View()), a)
    {
      hide Inv, Stored, Purged, Names, ContentAddressed, Listed, IsSha256Hex, BlobRefs.Index.Valid;
      ghost var before := owners.m;
      FilesUnambiguous(cfg, View(), hash);
      files.Delete(hash, works);
      if !works { return; }
      owners.Remove(hash, saves.owners);
      NoteSaved(before, saves.owners);
      quarantine.Remove(hash, saves.quarantine);
    }

    /** Everybody else's branch: an uploader takes back their own upload, and bytes stay. */
    method RetractUpload(pubkey: string, hash: string, saves: Saves, now: int, ghost a: Action)
      requires Valid() && IsSha256Hex(hash) && a.Delete? && !ByAdmin(cfg, a)
      requires a.hash == hash && a.pubkey == pubkey && a.saves == saves
      modifies owners, quarantine, `savedClaims
      ensures refs.Valid() && View() == Step(cfg, old(View()), a)
    {
      hide Inv, Listed, IsSha256Hex, BlobRefs.RefsOf, Dropped, DropOwner, Owners;
      ghost var before := owners.m;
      var removed, nowEmpty := owners.RemoveOne(hash, pubkey, saves.owners);
      NoteSaved(before, saves.owners);
      if !removed {
        NotDropped(before, hash, pubkey);
        return;
      }
      if nowEmpty {
        var linking := refs.RefsFor(hash);
        if |linking| == 0 { quarantine.Add(hash, now, saves.quarantine); }
      }
    }

    method HandleAdminBlobDelete(hash: string, works: bool, saves: Saves)
      requires Valid()
      modifies files, owners, `savedClaims
      ensures Valid() && View() == Step(cfg, old(View()), AdminDelete(hash, works, saves))
    {
      hide Inv, Stored, Purged, Names, ContentAddressed, BlobRefs.Index.Valid;
      StepKeepsInv(cfg, View(), AdminDelete(hash, works, saves));
      if !IsSha256Hex(hash) { return; }
      ghost var before := owners.m;
      FilesUnambiguous(cfg, View(), hash);
      files.Delete(hash, works);
      if !works { return; }
      owners.Remove(hash, saves.owners);
      NoteSaved(before, saves.owners);
    }

    method HandleBlacklistAdd(hash: string, reason: string, saved: bool, works: bool, saves: Saves, now: int)
      returns (ok: bool)
      requires Valid()
      modifies files, owners, blacklist, `savedClaims
      ensures ok <==> IsSha256Hex(hash) && saved
      ensures Valid() && View() == Step(cfg, old(View()), BlacklistAdd(hash, saved, works, saves))
    {
      hide Inv, Stored, Purged, Names, ContentAddressed, IsSha256Hex, Listed, BlobRefs.Index.Valid;
      StepKeepsInv(cfg, View(), BlacklistAdd(hash, saved, works, saves));
      if !IsSha256Hex(hash) { return false; }
      ghost var before := owners.m;
      FilesUnambiguous(cfg, View(), hash);
      ok := blacklist.Add(hash, reason, now, saved);
      if !ok { return; }
      files.Delete(hash, works);
      owners.Remove(hash, saves.owners);
      NoteSaved(before, saves.owners);
    }

    method HandleBlacklistRemove(hash: string, saved: bool) returns (ok: bool)
      requires Valid()
      modifies blacklist
      ensures ok == saved
      ensures Valid() && View() == Step(cfg, old(View()), BlacklistRemove(hash, saved))
    {
      hide Inv;
      StepKeepsInv(cfg, View(), BlacklistRemove(hash, saved));
      ok := blacklist.Remove(hash, saved);
    }

    method HandleQuarantineRelease(hash: string, saves: Saves)
      requires Valid()
      modifies quarantine
      ensures Valid() && View() == Step(cfg, old(View()), Release(hash, saves))
    {
      hide Inv;
      StepKeepsInv(cfg, View(), Release(hash, saves));
      quarantine.Remove(hash, saves.quarantine);
    }

    /** The relay's OnEventSaved hook. */
    method OnEventSaved(evt: Event)
      requires Valid()
      modifies refs
      ensures Valid() && View() == Step(cfg, old(View()), Note(evt))
    {
      hide Inv;
      StepKeepsInv(cfg, View(), Note(evt));
      refs.Note(evt);
    }

    /** A restart: the three records are what was last saved; the reference index is rebuilt from the
        event store, as far as the walk of `backfillRefs` gets. */
    method HandleRestart(events: seq<Event>, now: int, failing: nat -> bool)
      requires Valid() && PagedWalks.Store(events)
      modifies owners, quarantine, blacklist, `refs, `claims
      ensures Valid() && fresh(refs)
      ensures View() == Step(cfg, old(View()), Restart(refs.history))
      ensures var range := PagedWalks.InRange(events, now);
        refs.history <= range
        && (refs.history == range[..PagedWalks.Reach(range)] || exists k :: failing(k))
    {
      hide Inv, PagedWalks.Reach, PagedWalks.InRange, PagedWalks.Store;
      ghost var before := View();
      var noted, failed := PagedWalks.BackfillRefs(events, now, failing);
      StepKeepsInv(cfg, before, Restart(noted));
      owners.Reload();
      claims := savedClaims;
      quarantine.Reload();
      blacklist.Reload();
      refs := new BlobRefs.Index(cfg.host, cfg.lower);
      for i := 0 to |noted|
        invariant fresh(refs) && refs.Valid() && refs.host == cfg.host && refs.lower == cfg.lower
        invariant View() == Loaded(before, noted[..i])
      {
        refs.Note(noted[i]);
        assert noted[..i + 1] == noted[..i] + [noted[i]];
      }
      assert noted[..|noted|] == noted;
    }
  }

  lemma NotDropped(m: OwnerMap, hash: string, pubkey: string)
    requires pubkey !in Owners(m, hash)
    ensures DropOwner(m, hash, pubkey) == m
  {}

  /** A deletion for what is no hash does nothing. */
  lemma NoDelete(cfg: Config, s: State, a: Action)
    requires a.Delete?
    ensures !IsSha256Hex(a.hash) ==> Step(cfg, s, a) == s
  {}

  lemma FilesUnambiguous(cfg: Config, s: State, hash: string)
    requires Inv(cfg, s) && IsSha256Hex(hash)
    ensures Unambiguous(s.files, hash)
  {
    OneFilePerHash(s.files, cfg.sha, hash);
  }
}
