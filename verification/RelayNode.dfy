/** The relay's objects. Each method is one call of the source, tied to a step of the policy. */
module RelayNode {
  import opened Text
  import opened Coordinates
  import opened RelayPolicy
  import Moderation

  /** The deletion record. dates is in memory, onDisk what a reload would read. */
  class Deletions {
    var dates: map<string, int>
    var onDisk: map<string, int>

    constructor ()
      ensures dates == map[] && onDisk == map[]
    {
      dates := map[];
      onDisk := map[];
    }

    method DeletedAt(key: string) returns (ts: int)
      ensures ts == DateOf(dates, key)
    {
      ts := if key in dates then dates[key] else 0;
    }

    method Record(key: string, ts: int, saved: bool)
      modifies this
      ensures dates == Recorded(old(dates), key, ts)
      ensures onDisk == if saved then dates else old(onDisk)
    {
      var known := DeletedAt(key);
      if ts > known { dates := dates[key := ts]; }
      if saved { onDisk := dates; }
    }

    method Reload()
      modifies this
      ensures dates == old(onDisk) == onDisk
    {
      dates := onDisk;
    }
  }

  /** The keys under a takedown, with the moderator's reason. */
  class BannedEvents {
    var reasons: map<string, string>
    var onDisk: map<string, string>

    constructor ()
      ensures reasons == map[] && onDisk == map[]
    {
      reasons := map[];
      onDisk := map[];
    }

    method Has(key: string) returns (banned: bool)
      ensures banned <==> key in reasons.Keys
    {
      banned := key in reasons;
    }

    method Ban(key: string, reason: string, saved: bool)
      modifies this
      ensures reasons == old(reasons)[key := reason]
      ensures reasons.Keys == old(reasons).Keys + {key}
      ensures onDisk == if saved then reasons else old(onDisk)
    {
      reasons := reasons[key := reason];
      if saved { onDisk := reasons; }
    }

    method Unban(key: string, saved: bool)
      modifies this
      ensures reasons == old(reasons) - {key}
      ensures reasons.Keys == old(reasons).Keys - {key}
      ensures onDisk == if saved then reasons else old(onDisk)
    {
      reasons := reasons - {key};
      if saved { onDisk := reasons; }
    }

    method Reload()
      modifies this
      ensures reasons == old(onDisk) == onDisk
    {
      reasons := onDisk;
    }
  }

  class Relay {
    const cfg: Config
    const deletions: Deletions
    const bannedEv: BannedEvents
    var store: set<Event>
    var blocked: set<string>
    ghost var log: seq<Deletion>
    ghost var savedLog: seq<Deletion>

    ghost function View(): State
      reads this, deletions, bannedEv
    {
      State(store, deletions.dates, bannedEv.reasons.Keys, blocked,
            Files(deletions.onDisk, bannedEv.onDisk.Keys, savedLog), log)
    }

    constructor (cfg: Config)
      ensures this.cfg == cfg && fresh(deletions) && fresh(bannedEv)
      ensures View() == EMPTY && Inv(cfg, View())
    {
      this.cfg := cfg;
      deletions := new Deletions();
      bannedEv := new BannedEvents();
      store, blocked, log, savedLog := {}, {}, [], [];
      new;
      assert View() == EMPTY;
      RunKeepsInv(cfg, []);
    }

    /** `rejectEvent`. */
    method Reject(evt: Event) returns (verdict: Verdict)
      ensures verdict == RejectEvent(cfg, View(), evt)
    {
      if evt.pubkey in blocked { return PubkeyBanned; }
      var banned := bannedEv.Has(ModerationKey(evt));
      if banned { return TakenDown; }
      var ts := deletions.DeletedAt(ModerationKey(evt));
      if ts > 0 && evt.createdAt <= ts { return DeletedByAuthor; }
      verdict := KindVerdict(cfg, evt);
    }

    /** A live event: refused, or stored as its kind says. */
    method Publish(evt: Event) returns (verdict: Verdict)
      modifies this
      ensures verdict == RejectEvent(cfg, old(View()), evt)
      ensures View() == Step(cfg, old(View()), Action.Publish(evt))
      ensures old(Inv(cfg, View())) && evt.WellFormed() ==> Inv(cfg, View())
    {
      hide KindVerdict, ModerationKey, Save, Inv;
      if Inv(cfg, View()) && evt.WellFormed() { StepKeepsInv(cfg, View(), Action.Publish(evt)); }
      verdict := Reject(evt);
      if verdict == Accept { store := Save(store, evt); }
    }

    /** A mirrored event that passed the policy replaces what is stored at its address. */
    method Ingest(evt: Event) returns (stored: bool)
      modifies this
      ensures View() == Step(cfg, old(View()), Action.Ingest(evt))
      ensures stored <==> RejectEvent(cfg, old(View()), evt) == Accept
      ensures old(Inv(cfg, View())) && evt.WellFormed() ==> Inv(cfg, View())
    {
      hide KindVerdict, ModerationKey, Replace, Inv;
      if Inv(cfg, View()) && evt.WellFormed() { StepKeepsInv(cfg, View(), Action.Ingest(evt)); }
      var verdict := Reject(evt);
      stored := verdict == Accept;
      if stored { store := Replace(store, evt); }
    }

    method OnDeletionOutcome(target: Event, deletion: Event, saved: bool) returns (accepted: bool)
      modifies this, deletions
      ensures accepted <==> target.pubkey == deletion.pubkey
      ensures View() == if accepted then Outcome(old(View()), target, deletion, saved) else old(View())
    {
      hide ModerationKey, Recorded;
      if target.pubkey != deletion.pubkey { return false; }
      if AcceptedKind(target.kind) {
        deletions.Record(ModerationKey(target), deletion.createdAt, saved);
        log := log + [Deletion(target, deletion.pubkey, deletion.createdAt)];
        if saved { savedLog := log; }
      }
      accepted := true;
    }

    /** A deletion request: every stored event it names goes through the outcome hook before the
        policy sees the request itself. */
    method PublishDeletion(evt: Event, targets: seq<Event>, written: Event -> bool) returns (ok: bool)
      modifies this, deletions
      ensures View() == Step(cfg, old(View()), Action.PublishDeletion(evt, targets, written))
      ensures old(Inv(cfg, View())) && evt.WellFormed() ==> Inv(cfg, View())
    {
      hide KindVerdict, ModerationKey, Save, Inv, AcceptedKind, Recorded;
      if Inv(cfg, View()) && evt.WellFormed() {
        StepKeepsInv(cfg, View(), Action.PublishDeletion(evt, targets, written));
      }
      ghost var start := View();
      var i := 0;
      while i < |targets|
        invariant 0 <= i <= |targets|
        invariant DeleteTargets(start, evt, targets, written) == DeleteTargets(View(), evt, targets[i..], written)
      {
        assert targets[i..][1..] == targets[i + 1..];
        if targets[i] in store {
          var accepted := OnDeletionOutcome(targets[i], evt, written(targets[i]));
          if !accepted { return false; }
          store := store - {targets[i]};
        }
        i := i + 1;
      }
      var verdict := Reject(evt);
      ok := verdict == Accept;
      if ok { store := Save(store, evt); }
    }

    /** The node's own inventory, which no policy is asked about. */
    method PutInventory(evt: Event)
      modifies this
      ensures View() == Step(cfg, old(View()), Action.PutInventory(evt))
    {
      hide Replace;
      store := Replace(store, evt);
    }

    /** The store's answer to a query: newest first, up to the backend's limit. */
    method QueryEvents(matching: set<Event>) returns (found: set<Event>)
      ensures Answer(matching, found)
    {
      found := {};
      var rest := matching;
      while rest != {} && |found| < CAP
        invariant found <= matching && rest == matching - found && |found| <= CAP
        invariant forall e, f :: e in found && f in rest ==> f.createdAt <= e.createdAt
        decreases rest
      {
        var evt := Newest(rest);
        rest := rest - {evt};
        found := found + {evt};
      }
      Moderation.SubsetSize(found, matching);
      if rest == {} { assert found == matching; } else { assert |found| == CAP; }
    }

    method Newest(events: set<Event>) returns (evt: Event)
      requires events != {}
      ensures evt in events && forall f :: f in events ==> f.createdAt <= evt.createdAt
    {
      evt :| evt in events;
      var rest := events - {evt};
      while rest != {}
        invariant rest <= events && evt in events
        invariant forall f :: f in events && f !in rest ==> f.createdAt <= evt.createdAt
        decreases rest
      {
        var next :| next in rest;
        if next.createdAt > evt.createdAt { evt := next; }
        rest := rest - {next};
      }
    }

    method DeleteStoredByKey(key: string) returns (found: set<Event>)
      modifies this
      ensures Answer(Matching(old(store), key), found)
      ensures View() == old(View()).(store := old(store) - found)
    {
      hide FilterOfKey, Matches, Answer;
      found := QueryEvents(Matching(store, key));
      DeleteAll(found);
    }

    /** The loop both the takedown and the sweep run over what their query returned. */
    method DeleteAll(found: set<Event>)
      modifies this
      ensures View() == old(View()).(store := old(store) - found)
    {
      var todo := found;
      while todo != {}
        invariant todo <= found
        invariant View() == old(View()).(store := old(store) - (found - todo))
        decreases todo
      {
        var evt :| evt in todo;
        store := store - {evt};
        todo := todo - {evt};
      }
    }

    /** A takedown whose query was answered with `found`. */
    method BanEvent(key: string, reason: string, saved: bool) returns (ok: bool, found: set<Event>)
      modifies this, bannedEv
      ensures ok <==> TrimSpace(key) != "" && saved
      ensures ok ==> Answer(Matching(old(store), TrimSpace(key)), found)
      ensures View() == Step(cfg, old(View()), Action.Ban(key, saved, found))
      ensures old(Inv(cfg, View())) ==> Inv(cfg, View())
    {
      hide KindVerdict, TrimSpace, Inv, Matching, Answer;
      var k := TrimSpace(key);
      found := {};
      ghost var before := View();
      if k == "" { return false, {}; }
      bannedEv.Ban(k, TrimSpace(reason), saved);
      if saved { found := DeleteStoredByKey(k); }
      ok := saved;
      if Inv(cfg, before) { StepKeepsInv(cfg, before, Action.Ban(key, saved, found)); }
    }

    method UnbanEvent(key: string, saved: bool)
      modifies this, bannedEv
      ensures View() == Step(cfg, old(View()), Action.Unban(key, saved))
      ensures old(Inv(cfg, View())) ==> Inv(cfg, View())
    {
      hide KindVerdict, TrimSpace, Inv;
      if Inv(cfg, View()) { StepKeepsInv(cfg, View(), Action.Unban(key, saved)); }
      bannedEv.Unban(TrimSpace(key), saved);
    }

    method SweepDeletionEvents(cutoff: int) returns (found: set<Event>)
      modifies this
      ensures Answer(Expired(old(store), cutoff), found)
      ensures View() == Step(cfg, old(View()), Action.Sweep(cutoff, found))
      ensures old(Inv(cfg, View())) ==> Inv(cfg, View())
    {
      hide KindVerdict, Inv, Expired, Answer;
      found := QueryEvents(Expired(store, cutoff));
      if Inv(cfg, View()) { StepKeepsInv(cfg, View(), Action.Sweep(cutoff, found)); }
      DeleteAll(found);
    }

    /** A restart keeps exactly what the two files hold. */
    method Reload()
      modifies deletions, bannedEv, `log
      ensures View() == Step(cfg, old(View()), Restart)
      ensures old(Inv(cfg, View())) ==> Inv(cfg, View())
    {
      hide KindVerdict, Inv;
      if Inv(cfg, View()) { StepKeepsInv(cfg, View(), Restart); }
      deletions.Reload();
      bannedEv.Reload();
      log := savedLog;
    }
  }
}
