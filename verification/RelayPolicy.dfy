/** The relay's write policy with persistent deletions and takedowns: live writes, mirrored writes,
    NIP-09 deletions and admin bans over one event store. */
module RelayPolicy {
  import opened Text
  import opened Coordinates
  import PagedWalks

  const CURRENT_MOD: int := 31142
  const LEGACY_MOD: int := 30402
  const JAM: int := 31143
  const JAM_BALLOT: int := 31243
  const JAM_RESULT: int := 31343
  const MODERATION_TAG: int := 30985
  const DELETION: int := 5
  const LEGACY_CUTOFF: int := 1785542400 // 2026-08-01T00:00:00Z

  /** admin is "" when none is configured; difficulty is nip13.Difficulty of an id; inventory is the
      coordinate of the node's own ad inventory, which is stored without asking the policy. */
  datatype Config = Config(admin: string, minPow: int, acceptAll: bool, difficulty: string -> int, inventory: string)

  /** A deletion that was accepted: of which stored event, asked for by whom, dated when. */
  datatype Deletion = Deletion(target: Event, asker: string, at: int)

  /** What outlives a restart: the last saved copies. log is history, the deletions behind the dates. */
  datatype Files = Files(deletions: map<string, int>, banned: set<string>, log: seq<Deletion>)

  /** log records history: the deletions behind the dates in memory. */
  datatype State = State(store: set<Event>, deletions: map<string, int>, banned: set<string>,
                         blocked: set<string>, files: Files, log: seq<Deletion>)

  // ---- rejectEvent ----

  datatype Verdict = Accept | PubkeyBanned | TakenDown | DeletedByAuthor | NeedsWork | MissingD | NoAdmin | NotAdmin
                   | LegacyRule | OutOfScope

  predicate HasTagValue(tags: seq<seq<string>>, name: string, value: string) {
    exists i :: 0 <= i < |tags| && HasTag(tags[i], name) && tags[i][1] == value
  }

  predicate IsLegacyMod(evt: Event) {
    evt.kind == LEGACY_MOD && evt.createdAt < LEGACY_CUTOFF && HasTagValue(evt.tags, "t", "GameMod")
  }

  predicate IsJamKind(k: int) { k == JAM || k == JAM_BALLOT || k == JAM_RESULT }

  predicate AcceptedKind(k: int) { k == CURRENT_MOD || k == LEGACY_MOD || IsJamKind(k) || k == MODERATION_TAG }

  predicate Underworked(cfg: Config, evt: Event) { cfg.minPow > 0 && cfg.difficulty(evt.id) < cfg.minPow }

  function DateOf(dates: map<string, int>, key: string): int { if key in dates then dates[key] else 0 }

  function DeletedAt(s: State, key: string): int { DateOf(s.deletions, key) }

  predicate Covers(date: int, evt: Event) { date > 0 && evt.createdAt <= date }

  /** The author has deleted this revision, or a later one. */
  predicate Deleted(s: State, evt: Event) { Covers(DeletedAt(s, ModerationKey(evt)), evt) }

  /** The same by the record on disk. */
  predicate DeletedOnDisk(s: State, evt: Event) { Covers(DateOf(s.files.deletions, ModerationKey(evt)), evt) }

  /** The part of the policy that looks at the event alone. */
  function KindVerdict(cfg: Config, evt: Event): Verdict {
    if cfg.acceptAll then
      if evt.kind != DELETION && Underworked(cfg, evt) then NeedsWork else Accept
    else if evt.kind == DELETION then Accept
    else if evt.kind == CURRENT_MOD || IsJamKind(evt.kind) then
      if D(evt) == "" then MissingD else if Underworked(cfg, evt) then NeedsWork else Accept
    else if evt.kind == MODERATION_TAG then
      if cfg.admin == "" then NoAdmin
      else if evt.pubkey != cfg.admin then NotAdmin
      else if D(evt) == "" then MissingD
      else Accept
    else if evt.kind == LEGACY_MOD then
      if !IsLegacyMod(evt) then LegacyRule else Accept
    else OutOfScope
  }

  function RejectEvent(cfg: Config, s: State, evt: Event): Verdict {
    if evt.pubkey in s.blocked then PubkeyBanned
    else if ModerationKey(evt) in s.banned then TakenDown
    else if Deleted(s, evt) then DeletedByAuthor
    else KindVerdict(cfg, evt)
  }

  predicate Tagged(evt: Event, name: string, value: string) {
    exists i :: 0 <= i < |evt.tags| && |evt.tags[i]| >= 2 && evt.tags[i][0] == name && evt.tags[i][1] == value
  }

  /** What is accepted, in full. Whatever the kind: an author who is not blocked, a key that is not taken
      down, a date past the author's own deletion. Then, on a node that accepts every kind, enough work,
      which deletions need not show; on any other, the rule of the kind. */
  lemma AcceptExactly(cfg: Config, s: State, evt: Event)
    ensures var key := ModerationKey(evt);
      var work := cfg.minPow <= 0 || cfg.difficulty(evt.id) >= cfg.minPow;
      RejectEvent(cfg, s, evt) == Accept <==>
        && evt.pubkey !in s.blocked && key !in s.banned
        && (key in s.deletions && s.deletions[key] > 0 ==> evt.createdAt > s.deletions[key])
        && (if cfg.acceptAll then evt.kind == 5 || work
            else if evt.kind in {31142, 31143, 31243, 31343} then D(evt) != "" && work
            else if evt.kind == 30985 then cfg.admin != "" && evt.pubkey == cfg.admin && D(evt) != ""
            else if evt.kind == 30402 then evt.createdAt < 1785542400 && Tagged(evt, "t", "GameMod")
            else evt.kind == 5)
  {
    hide ModerationKey, D;
    assert HasTagValue(evt.tags, "t", "GameMod") <==> Tagged(evt, "t", "GameMod") by { SameTag(evt, "t", "GameMod"); }
  }

  lemma SameTag(evt: Event, name: string, value: string)
    ensures HasTagValue(evt.tags, name, value) <==> Tagged(evt, name, value)
  {
    if i :| 0 <= i < |evt.tags| && |evt.tags[i]| >= 2 && evt.tags[i][0] == name && evt.tags[i][1] == value {
      assert HasTag(evt.tags[i], name);
    }
  }

  /** The reasons that come first, in order. */
  lemma RefusalReasons(cfg: Config, s: State, evt: Event)
    ensures var key := ModerationKey(evt); var verdict := RejectEvent(cfg, s, evt);
      var deleted := key in s.deletions && s.deletions[key] > 0 && evt.createdAt <= s.deletions[key];
      && (verdict == PubkeyBanned <==> evt.pubkey in s.blocked)
      && (verdict == TakenDown <==> evt.pubkey !in s.blocked && key in s.banned)
      && (verdict == DeletedByAuthor <==> evt.pubkey !in s.blocked && key !in s.banned && deleted)
      && (verdict == NeedsWork ==> cfg.minPow > 0 && cfg.difficulty(evt.id) < cfg.minPow && evt.kind != 5)
      && (verdict == MissingD ==> D(evt) == "" && !cfg.acceptAll)
  {
    hide ModerationKey, D;
  }

  // ---- the event store, as NIP-01 has relays keep events ----

  predicate Addressable(k: int) { 30000 <= k < 40000 }
  predicate Replaceable(k: int) { k == 0 || k == 3 || 10000 <= k < 20000 }
  predicate Ephemeral(k: int) { 20000 <= k < 30000 }

  predicate SameAddress(a: Event, b: Event) {
    a.kind == b.kind && a.pubkey == b.pubkey && (Addressable(a.kind) ==> D(a) == D(b))
  }

  /** Of two revisions the later one counts, the smaller id on a tie. */
  predicate Older(a: Event, b: Event) {
    a.createdAt < b.createdAt || (a.createdAt == b.createdAt && IdAbove(a.id, b.id))
  }

  predicate IdAbove(a: string, b: string) {
    a != "" && (b == "" || a[0] > b[0] || (a[0] == b[0] && IdAbove(a[1..], b[1..])))
  }

  /** Ids compare like strings: the first difference decides, and a proper prefix is below. */
  lemma {:induction false} IdAboveMeans(a: string, b: string, k: nat)
    requires k <= |a| && k <= |b| && a[..k] == b[..k]
    ensures k < |a| && k < |b| && a[k] != b[k] ==> (IdAbove(a, b) <==> a[k] > b[k])
    ensures k == |b| ==> (IdAbove(a, b) <==> k < |a|)
    ensures k == |a| ==> !IdAbove(a, b)
  {
    if k > 0 {
      assert a[0] == a[..k][0] == b[..k][0] == b[0];
      assert a[1..][..k - 1] == a[..k][1..] && b[1..][..k - 1] == b[..k][1..];
      IdAboveMeans(a[1..], b[1..], k - 1);
    }
  }

  /** SaveEvent: an id is stored once. */
  function Insert(store: set<Event>, evt: Event): set<Event> {
    if exists e :: e in store && e.id == evt.id then store else store + {evt}
  }

  function AtAddress(store: set<Event>, evt: Event): set<Event> { set e | e in store && SameAddress(e, evt) }

  /** ReplaceEvent: older revisions go; a newer one keeps the event out. */
  function Replace(store: set<Event>, evt: Event): set<Event> {
    var rest := set e | e in store && !(SameAddress(e, evt) && Older(e, evt));
    if exists e :: e in AtAddress(store, evt) && !Older(e, evt) then rest else Insert(rest, evt)
  }

  /** What the relay does with an accepted live event. */
  function Save(store: set<Event>, evt: Event): set<Event> {
    if Ephemeral(evt.kind) then store
    else if Addressable(evt.kind) || Replaceable(evt.kind) then Replace(store, evt)
    else Insert(store, evt)
  }

  // ---- deletions ----

  function Max(a: int, b: int): int { if a > b then a else b }

  /** `record`: the newest date is kept; dates up to the epoch are not recorded. */
  function Recorded(dates: map<string, int>, key: string, ts: int): map<string, int> {
    if ts > DateOf(dates, key) then dates[key := ts] else dates
  }

  /** `onDeletionOutcome` for an author: deletions of the accepted kinds are recorded. A failed save is
      not noticed. */
  function Outcome(s: State, target: Event, deletion: Event, saved: bool): State {
    var dates := Recorded(s.deletions, ModerationKey(target), deletion.createdAt);
    var log := s.log + [Deletion(target, deletion.pubkey, deletion.createdAt)];
    if AcceptedKind(target.kind) then
      s.(deletions := dates, log := log, files := if saved then s.files.(deletions := dates, log := log) else s.files)
    else s
  }

  /** The outcome, and the removal of the target that follows it. */
  function DeleteTarget(s: State, target: Event, deletion: Event, saved: bool): State {
    Outcome(s, target, deletion, saved).(store := s.store - {target})
  }

  /** A deletion request against the stored events it refers to, in order. A foreign target stops it
      and the request itself is refused. */
  function DeleteTargets(s: State, deletion: Event, targets: seq<Event>, saved: Event -> bool): (State, bool)
    decreases targets
  {
    if targets == [] then (s, true)
    else if targets[0] !in s.store then DeleteTargets(s, deletion, targets[1..], saved)
    else if targets[0].pubkey != deletion.pubkey then (s, false)
    else DeleteTargets(DeleteTarget(s, targets[0], deletion, saved(targets[0])), deletion, targets[1..], saved)
  }

  // ---- what one query of the store returns ----

  /** The backend's limit on the answer to a query. */
  const CAP: nat := PagedWalks.PAGE

  /** Some newest CAP of the matching events, or all of them. Which of several events of one second
      make it is up to the backend. */
  ghost predicate Answer(matching: set<Event>, found: set<Event>) {
    && found <= matching
    && |found| == (if |matching| <= CAP then |matching| else CAP)
    && forall e, f :: e in found && f in matching && f !in found ==> f.createdAt <= e.createdAt
  }

  function Matching(store: set<Event>, key: string): set<Event> {
    set e | e in store && Matches(FilterOfKey(key), e)
  }

  predicate IsExpired(e: Event, cutoff: int) { e.kind == DELETION && e.createdAt <= cutoff }

  function Expired(store: set<Event>, cutoff: int): set<Event> { set e | e in store && IsExpired(e, cutoff) }

  // ---- steps ----

  /** `saved` says whether the step could write its file to disk, for a deletion request after which
      of its targets. `found` is what the query behind a takedown or a sweep returned. */
  datatype Action =
    | Publish(evt: Event)
    | PublishDeletion(evt: Event, targets: seq<Event>, written: Event -> bool)
    | Ingest(evt: Event)
    | PutInventory(evt: Event)
    | Ban(key: string, saved: bool, found: set<Event>)
    | Unban(key: string, saved: bool)
    | Block(pubkey: string)
    | Allow(pubkey: string)
    | Sweep(cutoff: int, found: set<Event>)
    | Restart

  function Write(cfg: Config, s: State, evt: Event): State {
    if RejectEvent(cfg, s, evt) == Accept then s.(store := Save(s.store, evt)) else s
  }

  function Step(cfg: Config, s: State, a: Action): State {
    match a
    case Publish(evt) => Write(cfg, s, evt)
    case PublishDeletion(evt, targets, written) =>
      var (t, ok) := DeleteTargets(s, evt, targets, written);
      if ok then Write(cfg, t, evt) else t
    case Ingest(evt) =>
      if RejectEvent(cfg, s, evt) == Accept then s.(store := Replace(s.store, evt)) else s
    case PutInventory(evt) => s.(store := Replace(s.store, evt))
    case Ban(key, saved, found) =>
      var k := TrimSpace(key);
      if k == "" then s
      else if !saved then s.(banned := s.banned + {k})
      else s.(banned := s.banned + {k}, files := s.files.(banned := s.banned + {k}), store := s.store - found)
    case Unban(key, saved) =>
      var rest := s.banned - {TrimSpace(key)};
      s.(banned := rest, files := if saved then s.files.(banned := rest) else s.files)
    case Block(pubkey) => s.(blocked := s.blocked + {pubkey})
    case Allow(pubkey) => s.(blocked := s.blocked - {pubkey})
    case Sweep(_, found) => s.(store := s.store - found)
    case Restart => s.(deletions := s.files.deletions, banned := s.files.banned, log := s.files.log)
  }

  // ---- the invariant ----

  ghost predicate WellKept(store: set<Event>) {
    && (forall e :: e in store ==> e.WellFormed())
    && (forall a, b :: a in store && b in store && a.id == b.id ==> a == b)
    && (forall a, b :: a in store && b in store && Addressable(a.kind) && SameAddress(a, b) ==> a == b)
  }

  predicate Exempt(cfg: Config, evt: Event) { ModerationKey(evt) == cfg.inventory }

  /** An event that may stay whatever happens to takedowns: not deleted by its author, of a kind and
      shape the relay accepts. */
  predicate Lasting(cfg: Config, s: State, evt: Event) {
    Exempt(cfg, evt) || (!Deleted(s, evt) && KindVerdict(cfg, evt) == Accept)
  }

  /** The newest recorded deletion of a key, by the history alone; 0 when there is none after the
      epoch. */
  function LogMax(log: seq<Deletion>, key: string): int {
    if log == [] then 0
    else
      var init, last := LogMax(log[..|log| - 1], key), log[|log| - 1];
      if ModerationKey(last.target) == key then Max(init, last.at) else init
  }

  /** Every recorded deletion was asked for by the author of its target. */
  ghost predicate Own(log: seq<Deletion>) {
    forall i :: 0 <= i < |log| ==>
      log[i].asker == log[i].target.pubkey && AcceptedKind(log[i].target.kind) && log[i].target.WellFormed()
  }

  /** The dates are those of a history of authors' own deletions. */
  ghost predicate Backed(dates: map<string, int>, log: seq<Deletion>) {
    Own(log) && forall key :: DateOf(dates, key) == LogMax(log, key)
  }

  ghost predicate Inv(cfg: Config, s: State) {
    && WellKept(s.store)
    && (forall e :: e in s.store ==> Lasting(cfg, s, e))
    && Backed(s.deletions, s.log)
    && Backed(s.files.deletions, s.files.log)
    && s.files.log <= s.log
  }

  /** What reaches the store has been checked, and as inventory only the node's own is put there. */
  ghost predicate Sane(cfg: Config, a: Action) {
    match a
    case Publish(evt) => evt.WellFormed()
    case PublishDeletion(evt, _, _) => evt.WellFormed()
    case Ingest(evt) => evt.WellFormed()
    case PutInventory(evt) => evt.WellFormed() && Exempt(cfg, evt)
    case _ => true
  }

  lemma InsertFacts(store: set<Event>, evt: Event)
    requires WellKept(store) && evt.WellFormed()
    requires Addressable(evt.kind) ==> forall e :: e in store ==> !SameAddress(e, evt) && !SameAddress(evt, e)
    ensures WellKept(Insert(store, evt))
    ensures forall e :: e in Insert(store, evt) ==> e in store || e == evt
  {}

  lemma SubsetKept(store: set<Event>, rest: set<Event>)
    requires WellKept(store) && rest <= store
    ensures WellKept(rest)
  {}

  lemma ReplaceFacts(store: set<Event>, evt: Event)
    requires WellKept(store) && evt.WellFormed()
    ensures WellKept(Replace(store, evt))
    ensures forall e :: e in Replace(store, evt) ==> e in store || e == evt
  {
    hide WellKept;
    var rest := set e | e in store && !(SameAddress(e, evt) && Older(e, evt));
    SubsetKept(store, rest);
    if !exists e :: e in AtAddress(store, evt) && !Older(e, evt) {
      forall e | e in rest
        ensures !SameAddress(e, evt) && !SameAddress(evt, e)
      {
        assert SameAddress(e, evt) ==> e in AtAddress(store, evt);
      }
      InsertFacts(rest, evt);
    }
  }

  lemma SaveFacts(store: set<Event>, evt: Event)
    requires WellKept(store) && evt.WellFormed()
    ensures WellKept(Save(store, evt))
    ensures forall e :: e in Save(store, evt) ==> e in store || e == evt
  {
    hide WellKept, Replace, Insert;
    ReplaceFacts(store, evt);
    if !Addressable(evt.kind) { InsertFacts(store, evt); }
  }

  /** Adding one lasting event, and perhaps dropping others, keeps the invariant. */
  lemma StoreChange(cfg: Config, s: State, store: set<Event>, evt: Event)
    requires Inv(cfg, s) && WellKept(store) && Lasting(cfg, s, evt)
    requires forall e :: e in store ==> e in s.store || e == evt
    ensures Inv(cfg, s.(store := store))
  {
    hide WellKept, KindVerdict, ModerationKey, Backed;
    var t := s.(store := store);
    forall e | e in store
      ensures Lasting(cfg, t, e)
    {
      assert Lasting(cfg, s, e);
    }
  }

  lemma AcceptedLasts(cfg: Config, s: State, evt: Event)
    requires RejectEvent(cfg, s, evt) == Accept
    ensures Lasting(cfg, s, evt) && ModerationKey(evt) !in s.banned
  {}

  lemma WriteKeepsInv(cfg: Config, s: State, evt: Event)
    requires Inv(cfg, s) && evt.WellFormed()
    ensures Inv(cfg, Write(cfg, s, evt))
  {
    hide Save, Lasting, Backed;
    if RejectEvent(cfg, s, evt) == Accept {
      SaveFacts(s.store, evt);
      AcceptedLasts(cfg, s, evt);
      StoreChange(cfg, s, Save(s.store, evt), evt);
    }
  }

  /** The kinds this node stores for others. */
  lemma AcceptedKinds(k: int)
    ensures AcceptedKind(k) <==> k in {31142, 30402, 31143, 31243, 31343, 30985}
  {}

  /** A refused event changes nothing. An accepted one is stored: a regular event as it is; of a
      replaceable or addressable one a revision of its address remains that is later, or of the same date
      with an id no larger, or itself; an ephemeral one is not kept. */
  lemma AcceptedIsStored(cfg: Config, s: State, evt: Event)
    requires forall e :: e in s.store && e.id == evt.id ==> e == evt
    ensures RejectEvent(cfg, s, evt) != Accept ==> Write(cfg, s, evt) == s
    ensures RejectEvent(cfg, s, evt) == Accept ==>
      var t := Write(cfg, s, evt); var k := evt.kind;
      if 20000 <= k < 30000 then t == s
      else if k == 0 || k == 3 || 10000 <= k < 20000 || 30000 <= k < 40000 then
        exists f :: f in t.store && f.kind == k && f.pubkey == evt.pubkey && (30000 <= k < 40000 ==> D(f) == D(evt))
                    && (f.createdAt > evt.createdAt
                        || (f.createdAt == evt.createdAt && (f == evt || !IdAbove(f.id, evt.id))))
      else evt in t.store
  {
    hide RejectEvent, D, IdAbove;
    var rest := set e | e in s.store && !(SameAddress(e, evt) && Older(e, evt));
    if e :| e in AtAddress(s.store, evt) && !Older(e, evt) {
      assert e in rest && e in Replace(s.store, evt);
    } else {
      assert Replace(s.store, evt) == Insert(rest, evt);
      assert evt in Insert(rest, evt);
    }
  }

  lemma AcceptedAreAddressable(k: int)
    requires AcceptedKind(k)
    ensures Addressable(k)
  {}

  /** No other stored event has the key of an accepted target. */
  lemma KeyIsUnique(store: set<Event>, target: Event, other: Event)
    requires WellKept(store) && target in store && other in store && AcceptedKind(target.kind)
    requires ModerationKey(other) == ModerationKey(target)
    ensures other == target
  {
    hide ModerationKey;
    KeysEqual(target, other);
    AcceptedAreAddressable(target.kind);
  }

  lemma RecordedDate(dates: map<string, int>, key: string, ts: int, k: string)
    ensures DateOf(Recorded(dates, key, ts), k) == if k == key then Max(DateOf(dates, k), ts) else DateOf(dates, k)
  {}

  lemma RecordedIsBacked(dates: map<string, int>, log: seq<Deletion>, d: Deletion)
    requires Backed(dates, log) && Own([d])
    ensures Backed(Recorded(dates, ModerationKey(d.target), d.at), log + [d])
  {
    hide ModerationKey, Recorded;
    assert (log + [d])[..|log|] == log;
    assert Own(log + [d]) by { assert [d][0] == d; }
    forall k
      ensures DateOf(Recorded(dates, ModerationKey(d.target), d.at), k) == LogMax(log + [d], k)
    {
      RecordedDate(dates, ModerationKey(d.target), d.at, k);
    }
  }

  lemma StoredWellFormed(store: set<Event>, e: Event)
    requires WellKept(store) && e in store
    ensures e.WellFormed()
  {}

  lemma DeleteTargetKeepsInv(cfg: Config, s: State, target: Event, deletion: Event, saved: bool)
    requires Inv(cfg, s) && target in s.store && target.pubkey == deletion.pubkey
    ensures Inv(cfg, DeleteTarget(s, target, deletion, saved))
  {
    hide KindVerdict, ModerationKey, Recorded, WellKept, Backed, Lasting;
    var t := DeleteTarget(s, target, deletion, saved);
    var d := Deletion(target, deletion.pubkey, deletion.createdAt);
    SubsetKept(s.store, t.store);
    StoredWellFormed(s.store, target);
    if AcceptedKind(target.kind) {
      RecordedIsBacked(s.deletions, s.log, d);
      forall e | e in t.store
        ensures Lasting(cfg, t, e)
      {
        StillLasting(cfg, s, t, target, deletion.createdAt, e);
      }
    } else {
      assert Lasting(cfg, s, target);
      StoreChange(cfg, s, t.store, target);
    }
  }

  lemma StillLasting(cfg: Config, s: State, t: State, target: Event, at: int, e: Event)
    requires WellKept(s.store) && target in s.store && e in s.store && e != target && AcceptedKind(target.kind)
    requires Lasting(cfg, s, e) && t.deletions == Recorded(s.deletions, ModerationKey(target), at)
    ensures Lasting(cfg, t, e)
  {
    hide KindVerdict, ModerationKey, WellKept, Recorded;
    if ModerationKey(e) == ModerationKey(target) { KeyIsUnique(s.store, target, e); }
    RecordedDate(s.deletions, ModerationKey(target), at, ModerationKey(e));
  }

  lemma {:induction false} DeleteTargetsKeepInv(cfg: Config, s: State, deletion: Event, targets: seq<Event>,
                                                written: Event -> bool)
    requires Inv(cfg, s)
    ensures Inv(cfg, DeleteTargets(s, deletion, targets, written).0)
    decreases targets
  {
    hide Inv, DeleteTarget;
    if targets != [] {
      if targets[0] !in s.store {
        DeleteTargetsKeepInv(cfg, s, deletion, targets[1..], written);
      } else if targets[0].pubkey == deletion.pubkey {
        DeleteTargetKeepsInv(cfg, s, targets[0], deletion, written(targets[0]));
        var t := DeleteTarget(s, targets[0], deletion, written(targets[0]));
        DeleteTargetsKeepInv(cfg, t, deletion, targets[1..], written);
      }
    }
  }

  lemma {:induction false} LogMaxGrows(log: seq<Deletion>, n: nat, key: string)
    requires n <= |log|
    ensures LogMax(log[..n], key) <= LogMax(log, key)
  {
    if n == |log| {
      assert log[..n] == log;
    } else {
      LogMaxGrows(log[..|log| - 1], n, key);
      assert log[..|log| - 1][..n] == log[..n];
    }
  }

  /** The record on disk is never ahead of the one in memory. */
  lemma DiskBehind(cfg: Config, s: State, key: string)
    requires Inv(cfg, s)
    ensures DateOf(s.files.deletions, key) <= DeletedAt(s, key)
  {
    hide ModerationKey, KindVerdict, WellKept, LogMax;
    assert s.log[..|s.files.log|] == s.files.log;
    LogMaxGrows(s.log, |s.files.log|, key);
  }

  /** A restart forgets deletions, so it cannot make a stored event one that should be gone. */
  lemma RestartKeepsInv(cfg: Config, s: State)
    requires Inv(cfg, s)
    ensures Inv(cfg, Step(cfg, s, Restart))
  {
    hide KindVerdict, ModerationKey, WellKept, Backed;
    var t := Step(cfg, s, Restart);
    forall e | e in t.store
      ensures Lasting(cfg, t, e)
    {
      assert Lasting(cfg, s, e);
      DiskBehind(cfg, s, ModerationKey(e));
    }
  }

  /** Fewer events, other bans. */
  lemma LooserKeepsInv(cfg: Config, s: State, t: State)
    requires Inv(cfg, s) && t.store <= s.store && t.deletions == s.deletions && t.log == s.log
    requires t.files.deletions == s.files.deletions && t.files.log == s.files.log
    ensures Inv(cfg, t)
  {
    hide KindVerdict, ModerationKey, WellKept, Backed;
    SubsetKept(s.store, t.store);
    forall e | e in t.store
      ensures Lasting(cfg, t, e)
    {
      assert Lasting(cfg, s, e);
    }
  }

  /** Every step that can happen to the relay keeps its promises, whether its file can be written or
      not and whatever its queries return. */
  lemma StepKeepsInv(cfg: Config, s: State, a: Action)
    requires Inv(cfg, s) && Sane(cfg, a)
    ensures Inv(cfg, Step(cfg, s, a))
  {
    hide KindVerdict, ModerationKey, WellKept, TrimSpace, Write, Replace, DeleteTargets, Backed;
    match a
    case Publish(evt) => WriteKeepsInv(cfg, s, evt);
    case PublishDeletion(evt, targets, written) =>
      DeleteTargetsKeepInv(cfg, s, evt, targets, written);
      WriteKeepsInv(cfg, DeleteTargets(s, evt, targets, written).0, evt);
    case Ingest(evt) =>
      if RejectEvent(cfg, s, evt) == Accept {
        ReplaceFacts(s.store, evt);
        AcceptedLasts(cfg, s, evt);
        StoreChange(cfg, s, Replace(s.store, evt), evt);
      }
    case PutInventory(evt) =>
      ReplaceFacts(s.store, evt);
      StoreChange(cfg, s, Replace(s.store, evt), evt);
    case Restart => RestartKeepsInv(cfg, s);
    case _ => LooserKeepsInv(cfg, s, Step(cfg, s, a));
  }

  const EMPTY := State({}, map[], {}, {}, Files(map[], {}, []), [])

  function Run(cfg: Config, s: State, actions: seq<Action>): State {
    if actions == [] then s else Step(cfg, Run(cfg, s, actions[..|actions| - 1]), actions[|actions| - 1])
  }

  /** Over every run of writes, mirrored writes, deletions, bans, sweeps and restarts, with any of the
      saves failing: no stored event is deleted by its author, every one is of a kind and shape the
      policy accepts; the deletion record of a key is the newest of its authors' own deletions. */
  lemma {:induction false} RunKeepsInv(cfg: Config, actions: seq<Action>)
    requires forall i :: 0 <= i < |actions| ==> Sane(cfg, actions[i])
    ensures Inv(cfg, Run(cfg, EMPTY, actions))
  {
    hide Step, Lasting;
    if actions != [] {
      RunKeepsInv(cfg, actions[..|actions| - 1]);
      StepKeepsInv(cfg, Run(cfg, EMPTY, actions[..|actions| - 1]), actions[|actions| - 1]);
    }
  }

  /** Replacing keeps exactly one revision of an address, the later of the stored one and the new
      one, and touches no other address. */
  lemma ReplaceKeepsNewest(store: set<Event>, evt: Event, prior: Event)
    requires WellKept(store) && Addressable(evt.kind) && prior in store && SameAddress(prior, evt)
    requires forall e :: e in store && e.id == evt.id ==> e == evt
    ensures AtAddress(Replace(store, evt), evt) == {if Older(prior, evt) then evt else prior}
    ensures forall e :: e in store && !SameAddress(e, evt) ==> e in Replace(store, evt)
  {
    hide IdAbove;
    var rest := set e | e in store && !(SameAddress(e, evt) && Older(e, evt));
    OnlyPrior(store, evt, prior);
    if Older(prior, evt) {
      assert !exists e :: e in AtAddress(store, evt) && !Older(e, evt);
      assert forall e :: e in rest ==> !SameAddress(e, evt);
      assert prior !in rest;
    } else {
      assert prior in AtAddress(store, evt) && prior in rest;
    }
  }

  lemma OnlyPrior(store: set<Event>, evt: Event, prior: Event)
    requires WellKept(store) && Addressable(evt.kind) && prior in store && SameAddress(prior, evt)
    ensures AtAddress(store, evt) == {prior}
  {
    forall e | e in store && SameAddress(e, evt)
      ensures e == prior
    {
      assert SameAddress(prior, e);
    }
  }
}
