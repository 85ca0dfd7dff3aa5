/** Upload admission: a channel of slots and a set of busy keys, taken by many goroutines at once.
    Every atomic section of `acquire` and of the release closure is one step. */
module UploadLimiter {

  datatype Outcome = NpubBusy | Busy | Released

  /** Where a goroutine stands. */
  datatype Phase =
    | Idle                    // about to take the lock for the first check
    | Checked                 // about to try the channel
    | SlotTaken               // about to take the lock for the re-check
    | Refusing                // lost the race, about to drain its slot
    | Holding                 // acquire returned; its upload runs
    | Releasing               // key forgotten, about to drain its slot
    | Done(outcome: Outcome)

  datatype Goroutine = Goroutine(pubkey: string, phase: Phase)

  datatype State = State(cap: nat, slots: nat, inflight: set<string>, gs: seq<Goroutine>)

  predicate OwnsSlot(g: Goroutine) {
    g.phase.SlotTaken? || g.phase.Refusing? || g.phase.Holding? || g.phase.Releasing?
  }

  function B(b: bool): nat { if b then 1 else 0 }

  function SlotOwners(gs: seq<Goroutine>): nat {
    if gs == [] then 0 else B(OwnsSlot(gs[0])) + SlotOwners(gs[1..])
  }

  function Holders(gs: seq<Goroutine>): nat {
    if gs == [] then 0 else B(gs[0].phase.Holding?) + Holders(gs[1..])
  }

  function HolderKeys(gs: seq<Goroutine>): set<string> {
    set i | 0 <= i < |gs| && gs[i].phase.Holding? :: gs[i].pubkey
  }

  // ---- steps ----

  /** The only steps that could block are the two drains of the channel. */
  predicate Enabled(s: State, g: nat)
    requires g < |s.gs|
  {
    s.gs[g].phase.Refusing? || s.gs[g].phase.Releasing? ==> s.slots > 0
  }

  function Move(s: State, g: nat, phase: Phase): State
    requires g < |s.gs|
  {
    s.(gs := s.gs[g := s.gs[g].(phase := phase)])
  }

  function Next(s: State, g: nat): State
    requires g < |s.gs| && Enabled(s, g)
  {
    var key := s.gs[g].pubkey;
    match s.gs[g].phase
    case Idle => if key in s.inflight then Move(s, g, Done(NpubBusy)) else Move(s, g, Checked)
    case Checked =>
      if s.slots < s.cap then Move(s, g, SlotTaken).(slots := s.slots + 1) else Move(s, g, Done(Busy))
    case SlotTaken =>
      if key in s.inflight then Move(s, g, Refusing)
      else Move(s, g, Holding).(inflight := s.inflight + {key})
    case Refusing => Move(s, g, Done(NpubBusy)).(slots := s.slots - 1)
    case Holding => Move(s, g, Releasing).(inflight := s.inflight - {key})
    case Releasing => Move(s, g, Done(Released)).(slots := s.slots - 1)
    case Done(_) => s // a second release changes nothing
  }

  // ---- the invariant ----

  ghost predicate OneHolderPerKey(gs: seq<Goroutine>) {
    forall i, j :: 0 <= i < j < |gs| && gs[i].phase.Holding? && gs[j].phase.Holding? ==> gs[i].pubkey != gs[j].pubkey
  }

  ghost predicate Inv(s: State) {
    && s.slots == SlotOwners(s.gs) <= s.cap
    && s.inflight == HolderKeys(s.gs)
    && OneHolderPerKey(s.gs)
  }

  lemma {:induction false} SlotOwnersUpdate(gs: seq<Goroutine>, g: nat, x: Goroutine)
    requires g < |gs|
    ensures SlotOwners(gs[g := x]) == SlotOwners(gs) - B(OwnsSlot(gs[g])) + B(OwnsSlot(x))
  {
    if g == 0 {
      assert gs[g := x][1..] == gs[1..];
    } else {
      SlotOwnersUpdate(gs[1..], g - 1, x);
      assert gs[g := x][1..] == gs[1..][g - 1 := x];
    }
  }

  lemma {:induction false} OwnerCounted(gs: seq<Goroutine>, g: nat)
    requires g < |gs| && OwnsSlot(gs[g])
    ensures SlotOwners(gs) >= 1
  {
    if g > 0 { OwnerCounted(gs[1..], g - 1); }
  }

  /** The drain `<-l.global` never blocks. */
  lemma NeverBlocks(s: State, g: nat)
    requires Inv(s) && g < |s.gs|
    ensures Enabled(s, g)
  {
    if OwnsSlot(s.gs[g]) { OwnerCounted(s.gs, g); }
  }

  lemma StepKeepsInv(s: State, g: nat)
    requires Inv(s) && g < |s.gs| && Enabled(s, g)
    ensures Inv(Next(s, g)) && |Next(s, g).gs| == |s.gs|
  {
    hide SlotOwners, HolderKeys;
    var t := Next(s, g);
    assert t.gs == s.gs[g := t.gs[g]];
    SlotOwnersUpdate(s.gs, g, t.gs[g]);
    HolderKeysUpdate(s.gs, g, t.gs[g]);
    if t.gs[g].phase.Holding? && !s.gs[g].phase.Holding? { NotHeld(s.gs, s.gs[g].pubkey); }
  }

  lemma NotHeld(gs: seq<Goroutine>, key: string)
    requires key !in HolderKeys(gs)
    ensures forall i :: 0 <= i < |gs| && gs[i].phase.Holding? ==> gs[i].pubkey != key
  {}

  /** When one goroutine moves, only its own key can enter or leave the set of held keys. */
  lemma HolderKeysUpdate(gs: seq<Goroutine>, g: nat, x: Goroutine)
    requires g < |gs| && x.pubkey == gs[g].pubkey && OneHolderPerKey(gs)
    ensures HolderKeys(gs[g := x]) ==
      (if gs[g].phase.Holding? then HolderKeys(gs) - {x.pubkey} else HolderKeys(gs))
      + if x.phase.Holding? then {x.pubkey} else {}
  {
    var after := gs[g := x];
    forall k | k in HolderKeys(gs) && (k != x.pubkey || !gs[g].phase.Holding?)
      ensures k in HolderKeys(after)
    {
      var i :| 0 <= i < |gs| && gs[i].phase.Holding? && gs[i].pubkey == k;
      assert after[i] == gs[i];
    }
    forall k | k in HolderKeys(after)
      ensures k in HolderKeys(gs) || (x.phase.Holding? && k == x.pubkey)
      ensures gs[g].phase.Holding? && !x.phase.Holding? ==> k != x.pubkey
    {
      var i :| 0 <= i < |gs| && after[i].phase.Holding? && after[i].pubkey == k;
      assert i != g ==> after[i] == gs[i];
    }
    if x.phase.Holding? { assert after[g] == x; }
  }

  // ---- whole runs, under every schedule ----

  function Start(maxConcurrent: int, keys: seq<string>): State {
    State(if maxConcurrent < 1 then 1 else maxConcurrent, 0, {},
          seq(|keys|, i requires 0 <= i < |keys| => Goroutine(keys[i], Idle)))
  }

  ghost predicate Schedule(schedule: seq<nat>, n: nat) { forall i :: 0 <= i < |schedule| ==> schedule[i] < n }

  /** The state after a schedule: goroutine schedule[i] takes the i-th step. */
  function Run(s: State, schedule: seq<nat>): State
    requires Inv(s) && Schedule(schedule, |s.gs|)
    ensures Inv(Run(s, schedule)) && |Run(s, schedule).gs| == |s.gs|
  {
    if schedule == [] then s
    else
      var before := Run(s, schedule[..|schedule| - 1]);
      var g := schedule[|schedule| - 1];
      NeverBlocks(before, g);
      StepKeepsInv(before, g);
      Next(before, g)
  }

  lemma StartKeepsInv(maxConcurrent: int, keys: seq<string>)
    ensures Inv(Start(maxConcurrent, keys)) && Start(maxConcurrent, keys).cap >= 1
  {
    AllIdle(Start(maxConcurrent, keys).gs);
  }

  lemma {:induction false} AllIdle(gs: seq<Goroutine>)
    requires forall i :: 0 <= i < |gs| ==> gs[i].phase == Idle
    ensures SlotOwners(gs) == 0 && HolderKeys(gs) == {}
  {
    if gs != [] { AllIdle(gs[1..]); }
  }

  /** Safety in every state every schedule reaches: occupancy counts the slot owners and respects the
      cap, the busy keys are the holders' keys with one holder each, and no drain can block. */
  lemma Safety(maxConcurrent: int, keys: seq<string>, schedule: seq<nat>)
    requires Schedule(schedule, |keys|)
    ensures Inv(Start(maxConcurrent, keys))
    ensures var s := Run(Start(maxConcurrent, keys), schedule);
      && s.slots == SlotOwners(s.gs) <= s.cap
      && s.inflight == HolderKeys(s.gs)
      && OneHolderPerKey(s.gs)
      && Holders(s.gs) <= s.cap
      && forall g :: 0 <= g < |s.gs| ==> Enabled(s, g)
  {
    StartKeepsInv(maxConcurrent, keys);
    var s := Run(Start(maxConcurrent, keys), schedule);
    HoldersOwnSlots(s.gs);
    forall g | 0 <= g < |s.gs|
      ensures Enabled(s, g)
    {
      NeverBlocks(s, g);
    }
  }

  lemma {:induction false} HoldersOwnSlots(gs: seq<Goroutine>)
    ensures Holders(gs) <= SlotOwners(gs)
  {
    if gs != [] { HoldersOwnSlots(gs[1..]); }
  }

  /** When every goroutine has finished, every slot is back and no key is busy. */
  lemma FinishedIsEmpty(s: State)
    requires Inv(s) && forall i :: 0 <= i < |s.gs| ==> s.gs[i].phase.Done?
    ensures s.slots == 0 && s.inflight == {}
  {
    NoOwners(s.gs);
  }

  lemma {:induction false} NoOwners(gs: seq<Goroutine>)
    requires forall i :: 0 <= i < |gs| ==> gs[i].phase.Done?
    ensures SlotOwners(gs) == 0 && HolderKeys(gs) == {}
  {
    if gs != [] { NoOwners(gs[1..]); }
  }

  /** A refusal is justified when it is issued: Busy by a full channel, NpubBusy by another
      goroutine's upload under the same key. */
  lemma RefusalsJustified(s: State, g: nat)
    requires Inv(s) && g < |s.gs| && Enabled(s, g)
    ensures Next(s, g).gs[g].phase == Done(Busy) && s.gs[g].phase != Done(Busy) ==> s.slots == s.cap
    ensures (s.gs[g].phase.Idle? && Next(s, g).gs[g].phase.Done?) || Next(s, g).gs[g].phase.Refusing? ==>
      exists i :: 0 <= i < |s.gs| && i != g && s.gs[i].phase.Holding? && s.gs[i].pubkey == s.gs[g].pubkey
  {
    var key := s.gs[g].pubkey;
    if key in s.inflight {
      var i :| 0 <= i < |s.gs| && s.gs[i].phase.Holding? && s.gs[i].pubkey == key;
      assert i != g || s.gs[g].phase.Holding?;
    }
  }

  /** Some point of the run, before or after a step. */
  ghost predicate Held(s: State, schedule: seq<nat>, g: nat)
    requires Inv(s) && Schedule(schedule, |s.gs|) && g < |s.gs|
  {
    exists n :: 0 <= n <= |schedule| && Run(s, schedule[..n]).gs[g].phase.Holding?
  }

  ghost predicate FoundFull(s: State, schedule: seq<nat>, g: nat)
    requires Inv(s) && Schedule(schedule, |s.gs|) && g < |s.gs|
  {
    exists n :: 0 <= n <= |schedule|
      && var t := Run(s, schedule[..n]); t.gs[g].phase.Checked? && t.slots == t.cap
  }

  ghost predicate FoundTaken(s: State, schedule: seq<nat>, g: nat)
    requires Inv(s) && Schedule(schedule, |s.gs|) && g < |s.gs|
  {
    exists n :: 0 <= n <= |schedule| && Taken(Run(s, schedule[..n]), g)
  }

  ghost predicate Taken(t: State, g: nat)
    requires g < |t.gs|
  {
    exists h :: 0 <= h < |t.gs| && h != g && t.gs[h].phase.Holding? && t.gs[h].pubkey == t.gs[g].pubkey
  }

  lemma Longer(s: State, schedule: seq<nat>, g: nat)
    requires Inv(s) && Schedule(schedule, |s.gs|) && g < |s.gs| && schedule != []
    ensures var init := schedule[..|schedule| - 1];
      && (Held(s, schedule, g) <==> Held(s, init, g) || Run(s, schedule).gs[g].phase.Holding?)
      && (FoundFull(s, init, g) ==> FoundFull(s, schedule, g))
      && (FoundTaken(s, init, g) ==> FoundTaken(s, schedule, g))
  {
    hide Run, Taken;
    var init := schedule[..|schedule| - 1];
    assert forall n :: 0 <= n <= |init| ==> init[..n] == schedule[..n];
    assert schedule[..|schedule|] == schedule;
  }

  lemma NowCounts(s: State, schedule: seq<nat>, g: nat)
    requires Inv(s) && Schedule(schedule, |s.gs|) && g < |s.gs|
    ensures var t := Run(s, schedule);
      && (t.gs[g].phase.Checked? && t.slots == t.cap ==> FoundFull(s, schedule, g))
      && (Taken(t, g) ==> FoundTaken(s, schedule, g)) && (t.gs[g].phase.Holding? ==> Held(s, schedule, g))
  {
    hide Run, Taken;
    assert schedule[..|schedule|] == schedule;
  }

  /** How an acquire ends says what happened: released only if it was holding at some time; busy only if
      it found the channel full; npub-busy only if it found another upload of its key; and whoever was
      refused never held. */
  lemma {:induction false} OutcomeSaysWhy(s: State, schedule: seq<nat>, g: nat)
    requires Inv(s) && Schedule(schedule, |s.gs|) && g < |s.gs| && s.gs[g].phase.Idle?
    ensures var phase := Run(s, schedule).gs[g].phase;
      && (Held(s, schedule, g) <==> phase.Holding? || phase.Releasing? || phase == Done(Released))
      && (phase == Done(Busy) ==> FoundFull(s, schedule, g))
      && (phase.Refusing? || phase == Done(NpubBusy) ==> FoundTaken(s, schedule, g))
    decreases |schedule|
  {
    hide Held, FoundFull, FoundTaken, Inv, Taken;
    if schedule == [] {
      NeverYet(s, g);
    } else {
      var n := |schedule| - 1;
      var init, h := schedule[..n], schedule[n];
      var before := Run(s, init);
      OutcomeSaysWhy(s, init, g);
      NowCounts(s, init, g);
      Longer(s, schedule, g);
      NeverBlocks(before, h);
      NeverBlocks(before, g);
      WhyRefused(before, g);
      assert h != g ==> Run(s, schedule).gs[g] == before.gs[g];
    }
  }

  lemma NeverYet(s: State, g: nat)
    requires Inv(s) && g < |s.gs| && s.gs[g].phase.Idle?
    ensures !Held(s, [], g)
  {}

  lemma WhyRefused(s: State, g: nat)
    requires Inv(s) && g < |s.gs| && Enabled(s, g)
    ensures s.gs[g].pubkey in s.inflight && !s.gs[g].phase.Holding? ==> Taken(s, g)
    ensures s.slots <= s.cap
  {
    if s.gs[g].pubkey in s.inflight {
      var i :| 0 <= i < |s.gs| && s.gs[i].phase.Holding? && s.gs[i].pubkey == s.gs[g].pubkey;
    }
  }

  /** And it is not refused for nothing: with a free slot and its key free, three undisturbed turns
      admit it. */
  lemma AdmittedWhenFree(s: State, g: nat)
    requires Inv(s) && g < |s.gs| && s.gs[g].phase.Idle? && s.gs[g].pubkey !in s.inflight && s.slots < s.cap
    ensures var t := Run(s, [g, g, g]);
      t.gs[g].phase.Holding? && t.slots == s.slots + 1 && t.inflight == s.inflight + {s.gs[g].pubkey}
  {
    hide Inv;
    assert [g, g, g][..2] == [g, g] && [g, g][..1] == [g] && [g][..0] == [];
    assert Run(s, [g]) == Next(s, g);
    assert Run(s, [g, g]) == Next(Next(s, g), g);
  }

  // ---- progress ----

  /** Steps a goroutine still needs, at most. */
  function Rank(phase: Phase): nat {
    match phase
    case Idle => 5 case Checked => 4 case SlotTaken => 3 case Holding => 2
    case Refusing => 1 case Releasing => 1 case Done(_) => 0
  }

  function Turns(schedule: seq<nat>, g: nat): nat {
    if schedule == [] then 0
    else Turns(schedule[..|schedule| - 1], g) + B(schedule[|schedule| - 1] == g)
  }

  lemma StepRank(s: State, h: nat, g: nat)
    requires h < |s.gs| && g < |s.gs| && Enabled(s, h)
    ensures Rank(Next(s, h).gs[g].phase) + B(h == g) <= Rank(s.gs[g].phase)
      || (s.gs[g].phase.Done? && Next(s, h).gs[g] == s.gs[g])
  {}

  /** No goroutine is ever stuck: after five turns of its own it has finished, whatever the others
      do in between. */
  lemma {:induction false} FiveTurnsFinish(s: State, schedule: seq<nat>, g: nat)
    requires Inv(s) && Schedule(schedule, |s.gs|) && g < |s.gs|
    ensures Rank(Run(s, schedule).gs[g].phase) + Turns(schedule, g) <= Rank(s.gs[g].phase)
      || Run(s, schedule).gs[g].phase.Done?
    ensures Turns(schedule, g) >= 5 ==> Run(s, schedule).gs[g].phase.Done?
  {
    hide Next, Inv, Enabled;
    if schedule != [] {
      var n := |schedule| - 1;
      FiveTurnsFinish(s, schedule[..n], g);
      var before := Run(s, schedule[..n]);
      NeverBlocks(before, schedule[n]);
      StepRank(before, schedule[n], g);
    }
    RankBound(s.gs[g].phase);
    RankBound(Run(s, schedule).gs[g].phase);
  }

  lemma RankBound(phase: Phase)
    ensures Rank(phase) <= 5 && (Rank(phase) == 0 ==> phase.Done?)
  {}

  // ---- the object ----

  /** The limiter with its callers. Each method is one atomic section of the source: the code
      between two locks, or one channel operation. */
  class Limiter {
    const cap: nat
    var slots: nat            // elements in the channel `global`
    var inflight: set<string> // keys mapped to true
    var gs: seq<Goroutine>

    function View(): State
      reads this
    {
      State(cap, slots, inflight, gs)
    }

    constructor (maxConcurrent: int, keys: seq<string>)
      ensures View() == Start(maxConcurrent, keys)
      ensures cap == (if maxConcurrent < 1 then 1 else maxConcurrent) && slots == 0 && inflight == {}
    {
      cap := if maxConcurrent < 1 then 1 else maxConcurrent;
      slots := 0;
      inflight := {};
      gs := seq(|keys|, i requires 0 <= i < |keys| => Goroutine(keys[i], Idle));
    }

    method Jump(g: nat, phase: Phase)
      requires g < |gs|
      modifies this`gs
      ensures View() == Move(old(View()), g, phase)
    {
      gs := gs[g := gs[g].(phase := phase)];
    }

    method FirstCheck(g: nat)
      requires g < |gs| && gs[g].phase.Idle?
      modifies this
      ensures View() == old(Next(View(), g))
    {
      if gs[g].pubkey in inflight {
        Jump(g, Done(NpubBusy));
        return;
      }
      Jump(g, Checked);
    }

    method TrySend(g: nat)
      requires g < |gs| && gs[g].phase.Checked?
      modifies this
      ensures View() == old(Next(View(), g))
    {
      if slots < cap {
        slots := slots + 1;
        Jump(g, SlotTaken);
      } else {
        Jump(g, Done(Busy));
      }
    }

    method Recheck(g: nat)
      requires g < |gs| && gs[g].phase.SlotTaken?
      modifies this
      ensures View() == old(Next(View(), g))
    {
      if gs[g].pubkey in inflight {
        Jump(g, Refusing);
        return;
      }
      inflight := inflight + {gs[g].pubkey};
      Jump(g, Holding);
    }

    method Forget(g: nat)
      requires g < |gs| && gs[g].phase.Holding?
      modifies this
      ensures View() == old(Next(View(), g))
    {
      inflight := inflight - {gs[g].pubkey};
      Jump(g, Releasing);
    }

    /** `<-l.global`, at the end of a refusal or of a release. That it cannot block is proved. */
    method Drain(g: nat)
      requires g < |gs| && (gs[g].phase.Refusing? || gs[g].phase.Releasing?) && Inv(View())
      modifies this
      ensures old(Enabled(View(), g))
      ensures View() == old(Next(View(), g))
    {
      NeverBlocks(View(), g);
      slots := slots - 1;
      Jump(g, if gs[g].phase.Refusing? then Done(NpubBusy) else Done(Released));
    }
  }
}
