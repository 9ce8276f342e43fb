/** The binary semaphore of hxlib/binsem.c: a mutex, a condition variable and a flush generation, under any interleaving
    of givers, takers and flushers, with spurious wakeups. */
module BinSem {
  import opened CTypes
  import opened Options

  // ---------------------------------------------------------------- the bodies under the mutex

  /** What the loop of a take decides when it looks at the semaphore. */
  datatype Outcome = Wait | Flushed | Consume

  function TakeOutcome(val: int, generation: U32, localGen: U32): Outcome
  {
    if val < 1 && localGen == generation then Wait
    else if localGen != generation then Flushed
    else Consume
  }

  function NextGeneration(generation: U32): U32 { (generation + 1) % TWO_32 }

  // ---------------------------------------------------------------- the protocol

  /** Where a thread is. A take carries its local_gen, and since: how many flushes there had been when it read it. */
  datatype Pc =
    | Outside
    | TakeEntering | TakeTesting(gen: U32, since: nat) | Sleeping(gen: U32, since: nat) | Awake(gen: U32, since: nat)
    | TakeLeaving(consumed: bool)
    | GiveEntering | GiveTesting | GiveSignalling | GiveLeaving
    | FlushEntering | FlushHolding | FlushBroadcasting | FlushLeaving

  datatype Call = Take | Give | Flush

  /** Signal's argument is the set of sleepers that the condition variable lets go. */
  datatype Action = Enter(call: Call) | Lock | Body | Signal(woken: set<nat>) | SpuriousWakeup | Unlock

  datatype Event = Event(thread: nat, action: Action)

  /** flushes, raised and consumed count the flushes, the gives that raised val, and the takes that consumed it. */
  datatype State = State(val: int, generation: U32, lock: Option<nat>, pcs: seq<Pc>, flushes: nat, raised: nat, consumed: nat)

  function Wake(pcs: seq<Pc>, woken: set<nat>): (r: seq<Pc>)
    ensures |r| == |pcs|
    ensures forall i | 0 <= i < |pcs| ::
      r[i] == if i in woken && pcs[i].Sleeping? then Awake(pcs[i].gen, pcs[i].since) else pcs[i]
  {
    if pcs == [] then []
    else
      var n := |pcs| - 1;
      Wake(pcs[..n], woken) + [if n in woken && pcs[n].Sleeping? then Awake(pcs[n].gen, pcs[n].since) else pcs[n]]
  }

  function Sleepers(pcs: seq<Pc>): set<nat> { set i: nat | i < |pcs| && pcs[i].Sleeping? }

  function Goto(s: State, t: nat, pc: Pc): State
    requires t < |s.pcs|
  {
    s.(pcs := s.pcs[t := pc])
  }

  function Acquire(s: State, t: nat, pc: Pc): Option<State>
    requires t < |s.pcs|
  {
    if s.lock == None then Some(Goto(s, t, pc).(lock := Some(t))) else None
  }

  /** The step of thread t, or None when it is not enabled. cond_signal lets go of at least one sleeper if there is one. */
  function Step(s: State, t: nat, a: Action): Option<State>
  {
    if t >= |s.pcs| then None
    else match (s.pcs[t], a)
      case (Outside, Enter(Take)) => Some(Goto(s, t, TakeEntering))
      case (Outside, Enter(Give)) => Some(Goto(s, t, GiveEntering))
      case (Outside, Enter(Flush)) => Some(Goto(s, t, FlushEntering))
      case (TakeEntering, Lock) => Acquire(s, t, TakeTesting(s.generation, s.flushes))
      case (Awake(gen, since), Lock) => Acquire(s, t, TakeTesting(gen, since))
      case (GiveEntering, Lock) => Acquire(s, t, GiveTesting)
      case (FlushEntering, Lock) => Acquire(s, t, FlushHolding)
      case (TakeTesting(gen, since), Body) =>
        (match TakeOutcome(s.val, s.generation, gen)
         case Wait => Some(Goto(s, t, Sleeping(gen, since)).(lock := None))
         case Flushed => Some(Goto(s, t, TakeLeaving(false)))
         case Consume => Some(Goto(s, t, TakeLeaving(true)).(val := 0, consumed := s.consumed + 1)))
      case (GiveTesting, Body) =>
        if s.val < 1 then Some(Goto(s, t, GiveSignalling).(val := 1, raised := s.raised + 1))
        else Some(Goto(s, t, GiveLeaving))
      case (FlushHolding, Body) =>
        Some(Goto(s, t, FlushBroadcasting).(generation := NextGeneration(s.generation), flushes := s.flushes + 1))
      case (GiveSignalling, Signal(woken)) =>
        if woken <= Sleepers(s.pcs) && (Sleepers(s.pcs) != {} ==> woken != {}) then
          Some(s.(pcs := Wake(s.pcs, woken)[t := GiveLeaving]))
        else None
      case (FlushBroadcasting, Signal(woken)) =>
        if woken == Sleepers(s.pcs) then Some(s.(pcs := Wake(s.pcs, woken)[t := FlushLeaving])) else None
      case (Sleeping(gen, since), SpuriousWakeup) => Some(Goto(s, t, Awake(gen, since)))
      case (TakeLeaving(_), Unlock) => Some(Goto(s, t, Outside).(lock := None))
      case (GiveLeaving, Unlock) => Some(Goto(s, t, Outside).(lock := None))
      case (FlushLeaving, Unlock) => Some(Goto(s, t, Outside).(lock := None))
      case _ => None
  }

  function Do(s: State, e: Event): State
  {
    match Step(s, e.thread, e.action) case Some(next) => next case None => s
  }

  /** Any schedule: an event that is not enabled leaves the state alone. */
  function Run(s: State, events: seq<Event>): State
    decreases |events|
  {
    if events == [] then s else Do(Run(s, events[..|events| - 1]), events[|events| - 1])
  }

  ghost predicate Initial(s: State)
  {
    && s.val == 0 && s.generation == 0 && s.lock == None && s.flushes == s.raised == s.consumed == 0
    && forall t | 0 <= t < |s.pcs| :: s.pcs[t] == Outside
  }

  // ---------------------------------------------------------------- the bodies in place

  /** The two fields, updated in place by the code between lock and unlock. Each body run by thread t in a state s of the
      protocol leaves what the step of the protocol leaves, and tells t where to go on. */
  class Semaphore {
    var val: int
    var generation: U32

    constructor ()
      ensures val == 0 && generation == 0
    {
      val, generation := 0, 0;
    }

    /** These fields are those of the state. */
    ghost predicate IsIn(s: State) reads this { val == s.val && generation == s.generation }

    method GiveLocked(ghost s: State, ghost t: nat) returns (signal: bool)
      requires t < |s.pcs| && s.pcs[t] == GiveTesting && IsIn(s)
      modifies this
      ensures var s' := Do(s, Event(t, Body));
        IsIn(s') && s'.pcs[t] == (if signal then GiveSignalling else GiveLeaving) && (signal <==> s'.raised > s.raised)
    {
      signal := val < 1;
      if signal {
        val := 1;
      }
    }

    method TakeLocked(localGen: U32, ghost s: State, ghost t: nat) returns (o: Outcome)
      requires t < |s.pcs| && s.pcs[t].TakeTesting? && s.pcs[t].gen == localGen && s.lock == Some(t) && IsIn(s)
      modifies this
      ensures var s' := Do(s, Event(t, Body));
        && IsIn(s') && (o == Wait <==> s'.lock == None) && (o == Consume <==> s'.consumed > s.consumed)
        && s'.pcs[t] == match o case Wait => Sleeping(localGen, s.pcs[t].since) case _ => TakeLeaving(o == Consume)
    {
      if val < 1 && localGen == generation {
        return Wait;
      }
      if localGen != generation {
        return Flushed;
      }
      val := 0;
      return Consume;
    }

    method FlushLocked(ghost s: State, ghost t: nat)
      requires t < |s.pcs| && s.pcs[t] == FlushHolding && IsIn(s)
      modifies this
      ensures var s' := Do(s, Event(t, Body));
        IsIn(s') && s'.pcs[t] == FlushBroadcasting && s'.flushes == s.flushes + 1
    {
      generation := (generation + 1) % TWO_32;
    }
  }

  // ---------------------------------------------------------------- the invariant

  predicate HoldsLock(pc: Pc)
  {
    pc.TakeTesting? || pc.TakeLeaving? || pc.GiveTesting? || pc.GiveSignalling? || pc.GiveLeaving?
    || pc.FlushHolding? || pc.FlushBroadcasting? || pc.FlushLeaving?
  }

  ghost predicate LockDiscipline(s: State)
  {
    && (s.lock.Some? ==> s.lock.value < |s.pcs|)
    && forall t | 0 <= t < |s.pcs| :: HoldsLock(s.pcs[t]) <==> s.lock == Some(t)
  }

  predicate InTake(pc: Pc) { pc.TakeTesting? || pc.Sleeping? || pc.Awake? }

  /** The captured generations, as flush counts. */
  ghost predicate Generations(s: State)
  {
    && s.generation == s.flushes % TWO_32
    && forall t | 0 <= t < |s.pcs| && InTake(s.pcs[t]) :: s.pcs[t].since <= s.flushes && s.pcs[t].gen == s.pcs[t].since % TWO_32
  }

  /** A flusher has raised the generation and not yet woken the sleepers. */
  ghost predicate BroadcastPending(s: State) { s.lock.Some? && s.lock.value < |s.pcs| && s.pcs[s.lock.value].FlushBroadcasting? }
  /** A giver has raised val and not yet signalled. */
  ghost predicate SignalPending(s: State) { s.lock.Some? && s.lock.value < |s.pcs| && s.pcs[s.lock.value].GiveSignalling? }

  /** Whoever sleeps has captured the current generation, or is about to be woken by a flusher. */
  ghost predicate SleepersCurrent(s: State)
  {
    forall t | 0 <= t < |s.pcs| && s.pcs[t].Sleeping? :: s.pcs[t].gen == s.generation || BroadcastPending(s)
  }

  /** t is a taker with the current generation that will look at val again. */
  ghost predicate OnItsWay(s: State, t: nat)
  {
    t < |s.pcs| && (s.pcs[t].Awake? || s.pcs[t].TakeTesting?) && s.pcs[t].gen == s.generation
  }

  /** A raised val is never forgotten while somebody sleeps. */
  ghost predicate WakeupKept(s: State)
  {
    s.val == 1 && Sleepers(s.pcs) != {} ==> SignalPending(s) || BroadcastPending(s) || exists t: nat :: OnItsWay(s, t)
  }

  ghost predicate Conserved(s: State)
  {
    (s.val == 0 || s.val == 1) && s.raised == s.consumed + s.val
  }

  ghost predicate Inv(s: State)
  {
    LockDiscipline(s) && Generations(s) && SleepersCurrent(s) && WakeupKept(s) && Conserved(s)
  }

  lemma StepLocks(s: State, t: nat, a: Action)
    requires LockDiscipline(s) && Step(s, t, a).Some?
    ensures LockDiscipline(Step(s, t, a).value)
  {
  }

  lemma StepGenerations(s: State, t: nat, a: Action)
    requires Generations(s) && Step(s, t, a).Some?
    ensures Generations(Step(s, t, a).value)
  {
  }

  lemma StepConserved(s: State, t: nat, a: Action)
    requires Conserved(s) && Step(s, t, a).Some?
    ensures Conserved(Step(s, t, a).value)
  {
  }

  lemma StepSleepers(s: State, t: nat, a: Action)
    requires LockDiscipline(s) && Generations(s) && SleepersCurrent(s) && Step(s, t, a).Some?
    ensures SleepersCurrent(Step(s, t, a).value)
  {
  }

  lemma SignalWakes(s: State, t: nat, a: Action)
    requires LockDiscipline(s) && SleepersCurrent(s) && Step(s, t, a).Some? && s.pcs[t].GiveSignalling?
    ensures WakeupKept(Step(s, t, a).value)
  {
    var s' := Step(s, t, a).value;
    if Sleepers(s'.pcs) != {} {
      var z :| z in Sleepers(s'.pcs);
      assert z in Sleepers(s.pcs);
      var w: nat :| w in a.woken;
      assert OnItsWay(s', w);
    }
  }

  lemma StepWakeup(s: State, t: nat, a: Action)
    requires Inv(s) && Step(s, t, a).Some?
    ensures WakeupKept(Step(s, t, a).value)
  {
    var s' := Step(s, t, a).value;
    if s.pcs[t].GiveSignalling? {
      SignalWakes(s, t, a);
    } else if s'.val == 1 && Sleepers(s'.pcs) != {} && !SignalPending(s') && !BroadcastPending(s') {
      var z :| z in Sleepers(s'.pcs);
      assert z in Sleepers(s.pcs);
      var w: nat :| OnItsWay(s, w);
      assert OnItsWay(s', w);
    }
  }

  lemma {:induction false} RunInv(s: State, events: seq<Event>)
    requires Initial(s)
    ensures Inv(Run(s, events))
  {
    if events == [] {
    } else {
      RunInv(s, events[..|events| - 1]);
      var before, e := Run(s, events[..|events| - 1]), events[|events| - 1];
      if Step(before, e.thread, e.action).Some? {
        StepLocks(before, e.thread, e.action);
        StepGenerations(before, e.thread, e.action);
        StepConserved(before, e.thread, e.action);
        StepSleepers(before, e.thread, e.action);
        StepWakeup(before, e.thread, e.action);
      }
    }
  }

  // ---------------------------------------------------------------- what holds over every run

  /** Left alone, the awake taker t takes the mutex and consumes val. */
  ghost predicate WouldConsume(s: State, t: nat)
  {
    t < |s.pcs| &&
    var r := Do(Do(s, Event(t, Lock)), Event(t, Body));
    r.pcs == s.pcs[t := TakeLeaving(true)] && r.val == 0 && r.consumed == s.consumed + 1
  }

  /** No lost wakeup. Whenever the mutex is free: every sleeping taker has the current generation, and if val is 1 while
      someone sleeps, then a taker is awake that only has to be scheduled to consume it. */
  lemma NoLostWakeup(s: State, events: seq<Event>)
    requires Initial(s)
    ensures var r := Run(s, events);
      r.lock == None ==>
        && (forall t | 0 <= t < |r.pcs| && r.pcs[t].Sleeping? :: r.pcs[t].gen == r.generation)
        && (r.val == 1 && Sleepers(r.pcs) != {} ==> exists t: nat :: t < |r.pcs| && r.pcs[t].Awake? && WouldConsume(r, t))
  {
    RunInv(s, events);
    var r := Run(s, events);
    if r.lock == None && r.val == 1 && Sleepers(r.pcs) != {} {
      var t: nat :| OnItsWay(r, t);
      assert r.pcs[t].Awake?;
      ConsumesNext(r, t);
    }
  }

  lemma ConsumesNext(s: State, t: nat)
    requires t < |s.pcs| && s.pcs[t].Awake? && s.pcs[t].gen == s.generation && s.val == 1 && s.lock == None
    ensures WouldConsume(s, t)
  {
    var gen, since := s.pcs[t].gen, s.pcs[t].since;
    var r := Goto(s, t, TakeTesting(gen, since)).(lock := Some(t));
    assert Do(s, Event(t, Lock)) == r;
    assert r.pcs[t := TakeLeaving(true)] == s.pcs[t := TakeLeaving(true)];
  }

  /** val is 0 or 1, and over every run the gives that raised it are the takes that consumed it, plus val. */
  lemma Conservation(s: State, events: seq<Event>)
    requires Initial(s)
    ensures var r := Run(s, events);
      (r.val == 0 || r.val == 1) && r.raised == r.consumed + r.val
  {
    RunInv(s, events);
  }

  /** What the taker t, holding the mutex, does next: it leaves empty-handed exactly when the flushes since its capture
      are not a multiple of 2^32, and otherwise consumes val or goes to sleep. */
  ghost predicate Decides(r: State, t: nat)
    requires t < |r.pcs| && r.pcs[t].TakeTesting?
  {
    var r' := Do(r, Event(t, Body));
    if (r.flushes - r.pcs[t].since) % TWO_32 != 0 then r' == Goto(r, t, TakeLeaving(false))
    else if r.val == 1 then r' == Goto(r, t, TakeLeaving(true)).(val := 0, consumed := r.consumed + 1)
    else r' == Goto(r, t, Sleeping(r.pcs[t].gen, r.pcs[t].since)).(lock := None)
  }

  lemma GenerationsDecide(r: State, t: nat)
    requires Generations(r) && Conserved(r) && t < |r.pcs| && r.pcs[t].TakeTesting?
    ensures Decides(r, t)
  {
    SameResidue(r.flushes, r.pcs[t].since);
  }

  /** In every reachable state. */
  lemma FlushDecides(s: State, events: seq<Event>, t: nat)
    requires Initial(s) && t < |Run(s, events).pcs| && Run(s, events).pcs[t].TakeTesting?
    ensures Decides(Run(s, events), t)
  {
    RunInv(s, events);
    GenerationsDecide(Run(s, events), t);
  }

  lemma SameResidue(a: nat, b: nat)
    ensures a % TWO_32 == b % TWO_32 <==> (a - b) % TWO_32 == 0
  {
    var x, y := a / TWO_32, b / TWO_32;
    assert a == x * TWO_32 + a % TWO_32 && b == y * TWO_32 + b % TWO_32;
  }

  /** With fewer than 2^32 flushes during one take, a take overtaken by a flush consumes nothing. */
  lemma FlushedTakeConsumesNothing(s: State, events: seq<Event>, t: nat)
    requires Initial(s) && t < |Run(s, events).pcs| && Run(s, events).pcs[t].TakeTesting?
    requires 0 < Run(s, events).flushes - Run(s, events).pcs[t].since < TWO_32
    ensures var r := Run(s, events);
      Do(r, Event(t, Body)) == Goto(r, t, TakeLeaving(false))
  {
    FlushDecides(s, events, t);
  }

  // ---------------------------------------------------------------- when a take captures the generation

  /** A take captures the generation and the flushes of the moment at which it first holds the mutex. */
  lemma CaptureIsCurrent(s: State, t: nat)
    requires t < |s.pcs| && s.pcs[t] == TakeEntering
    ensures Step(s, t, Lock).Some? <==> s.lock == None
    ensures s.lock == None ==>
      var s' := Do(s, Event(t, Lock));
      s'.pcs[t] == TakeTesting(s.generation, s.flushes) && s'.lock == Some(t) && s'.val == s.val
  {
  }

  /** The flushes are counted by the bodies of the flushers, and nothing else counts or moves the generation. */
  lemma FlushBodiesCount(s: State, e: Event)
    ensures var flushed := e.thread < |s.pcs| && s.pcs[e.thread] == FlushHolding && e.action == Body;
      Do(s, e).flushes == s.flushes + (if flushed then 1 else 0)
      && (!flushed ==> Do(s, e).generation == s.generation)
  {
  }

  /** Thread t, if it is still in its take, has captured gen and since. */
  ghost predicate Captured(s: State, t: nat, gen: U32, since: nat)
  {
    && t < |s.pcs| && s.pcs[t] != TakeEntering
    && (InTake(s.pcs[t]) ==> s.pcs[t].gen == gen && s.pcs[t].since == since)
  }

  lemma StepCaptured(s: State, t: nat, gen: U32, since: nat, e: Event)
    requires Captured(s, t, gen, since) && e != Event(t, Enter(Take))
    ensures Captured(Do(s, e), t, gen, since)
  {
  }

  lemma {:induction false} RunCaptured(s: State, t: nat, gen: U32, since: nat, more: seq<Event>)
    requires Captured(s, t, gen, since) && Event(t, Enter(Take)) !in more
    ensures Captured(Run(s, more), t, gen, since)
    decreases |more|
  {
    if more != [] {
      var n := |more| - 1;
      RunCaptured(s, t, gen, since, more[..n]);
      StepCaptured(Run(s, more[..n]), t, gen, since, more[n]);
    }
  }

  lemma {:induction false} RunTogether(s: State, events: seq<Event>, more: seq<Event>)
    ensures Run(s, events + more) == Run(Run(s, events), more)
    decreases |more|
  {
    if more == [] {
      assert events + more == events;
    } else {
      var n := |more| - 1;
      RunTogether(s, events, more[..n]);
      assert (events + more)[..|events + more| - 1] == events + more[..n];
    }
  }

  /** A take that no flush has overtaken since it first held the mutex, whatever else has happened, is decided by val:
      holding the mutex, it consumes a 1, and sleeps on a 0. */
  lemma UndisturbedTakeConsumes(s: State, events: seq<Event>, t: nat, more: seq<Event>)
    requires Initial(s) && t < |Run(s, events).pcs| && Run(s, events).pcs[t] == TakeEntering && Run(s, events).lock == None
    requires Event(t, Enter(Take)) !in more
    ensures var r, later := Run(s, events), Run(s, events + [Event(t, Lock)] + more);
      && t < |later.pcs|
      && (later.flushes == r.flushes && later.pcs[t].TakeTesting? ==>
            var after := Do(later, Event(t, Body));
            && (later.val == 1 ==>
                  after.pcs[t] == TakeLeaving(true) && after.val == 0 && after.consumed == later.consumed + 1)
            && (later.val == 0 ==> after.pcs[t].Sleeping? && after.lock == None && after.consumed == later.consumed)
            && (later.val == 0 || later.val == 1))
  {
    var r, locked := Run(s, events), events + [Event(t, Lock)];
    assert locked[..|events|] == events;
    CaptureIsCurrent(r, t);
    RunCaptured(Run(s, locked), t, r.generation, r.flushes, more);
    RunTogether(s, locked, more);
    RunInv(s, locked + more);
    var later := Run(s, locked + more);
    if later.pcs[t].TakeTesting? {
      GenerationsDecide(later, t);
    }
  }

  /** In particular its first look: a take that begins with val at 1 consumes it, however many flushes went before. */
  lemma FreshTakeDecides(s: State, events: seq<Event>, t: nat)
    requires Initial(s) && t < |Run(s, events).pcs| && Run(s, events).pcs[t] == TakeEntering && Run(s, events).lock == None
    ensures var r := Run(s, events);
      var after := Do(Do(r, Event(t, Lock)), Event(t, Body));
      && (r.val == 1 ==> after.pcs[t] == TakeLeaving(true) && after.val == 0 && after.consumed == r.consumed + 1)
      && (r.val == 0 ==> after.pcs[t].Sleeping? && after.lock == None && after.consumed == r.consumed)
      && (r.val == 0 || r.val == 1)
  {
    RunInv(s, events);
    CaptureIsCurrent(Run(s, events), t);
  }

  /** A give raises val from 0 to 1 and goes on to signal, and does nothing if val is 1; either way val is 1 behind it. */
  lemma GiveRaises(s: State, events: seq<Event>, t: nat)
    requires Initial(s) && t < |Run(s, events).pcs| && Run(s, events).pcs[t] == GiveTesting
    ensures var r := Run(s, events);
      var after := Do(r, Event(t, Body));
      && after.val == 1 && after.generation == r.generation && after.consumed == r.consumed
      && (r.val == 0 ==> after.pcs[t] == GiveSignalling && after.raised == r.raised + 1)
      && (r.val == 1 ==> after.pcs[t] == GiveLeaving && after.raised == r.raised)
  {
    RunInv(s, events);
  }

  /** The signal of a give lets go of a sleeper, if there is one, and disturbs nobody who is awake. */
  lemma SignalLetsGo(s: State, t: nat, woken: set<nat>)
    requires t < |s.pcs| && s.pcs[t] == GiveSignalling && Step(s, t, Signal(woken)).Some?
    ensures var s' := Step(s, t, Signal(woken)).value;
      && s'.pcs[t] == GiveLeaving && s'.val == s.val
      && (forall z | 0 <= z < |s.pcs| && z != t && !s.pcs[z].Sleeping? :: s'.pcs[z] == s.pcs[z])
      && (Sleepers(s.pcs) != {} ==> exists z: nat :: z in Sleepers(s.pcs) && s'.pcs[z].Awake? && s'.pcs[z].gen == s.pcs[z].gen)
  {
    if Sleepers(s.pcs) != {} {
      var z: nat :| z in woken;
      assert z in Sleepers(s.pcs);
    }
  }

  /** A completed flush leaves nobody asleep. */
  lemma FlushWakesAll(s: State, t: nat, woken: set<nat>)
    requires t < |s.pcs| && s.pcs[t].FlushBroadcasting? && Step(s, t, Signal(woken)).Some?
    ensures Sleepers(Step(s, t, Signal(woken)).value.pcs) == {}
    ensures Step(s, t, Signal(woken)).value.val == s.val
  {
    var s' := Step(s, t, Signal(woken)).value;
    forall z: nat | z < |s'.pcs|
      ensures !s'.pcs[z].Sleeping?
    {
      assert s.pcs[z].Sleeping? ==> z in Sleepers(s.pcs);
    }
  }

  // ---------------------------------------------------------------- the generation wraps around

  ghost predicate Reachable(s: State, r: State) { exists events :: Run(s, events) == r }

  lemma Extend(s: State, r: State, e: Event, next: State)
    requires Reachable(s, r) && next == Do(r, e)
    ensures Reachable(s, next)
  {
    var events :| Run(s, events) == r;
    var more := events + [e];
    assert more[..|more| - 1] == events;
    assert Run(s, more) == next;
  }

  lemma Extend2(s: State, r: State, d: Event, e: Event, next: State)
    requires Reachable(s, r) && next == Do(Do(r, d), e)
    ensures Reachable(s, next)
  {
    Extend(s, r, d, Do(r, d));
    Extend(s, Do(r, d), e, next);
  }

  /** Two threads: thread 0 is in pc, thread 1 is outside every call and the mutex is free. */
  ghost predicate Idle(r: State, pc: Pc)
  {
    r.pcs == [pc, Outside] && r.lock == None
  }

  lemma NobodySleeps(pcs: seq<Pc>)
    requires |pcs| == 2 && !pcs[0].Sleeping? && !pcs[1].Sleeping?
    ensures Sleepers(pcs) == {} && Wake(pcs, {}) == pcs
  {
  }

  lemma ThreadOneEnters(r: State, pc: Pc, call: Call)
    requires Idle(r, pc) && pc.Awake?
    ensures call == Flush ==>
      Do(Do(r, Event(1, Enter(call))), Event(1, Lock)) == r.(pcs := [pc, FlushHolding], lock := Some(1))
    ensures call == Give ==>
      Do(Do(r, Event(1, Enter(call))), Event(1, Lock)) == r.(pcs := [pc, GiveTesting], lock := Some(1))
  {
    var entered := if call == Take then TakeEntering else if call == Give then GiveEntering else FlushEntering;
    var r1 := r.(pcs := [pc, entered]);
    assert r.pcs[1 := entered] == r1.pcs;
    assert Do(r, Event(1, Enter(call))) == r1;
    assert r1.pcs[1 := FlushHolding] == [pc, FlushHolding] && r1.pcs[1 := GiveTesting] == [pc, GiveTesting];
  }

  lemma ThreadOneLeaves(r: State, pc: Pc)
    requires r.pcs == [pc, FlushBroadcasting] || r.pcs == [pc, GiveSignalling]
    requires pc.Awake?
    ensures Do(Do(r, Event(1, Signal({}))), Event(1, Unlock)) == r.(pcs := [pc, Outside], lock := None)
  {
    NobodySleeps(r.pcs);
    var leaving := if r.pcs[1] == GiveSignalling then GiveLeaving else FlushLeaving;
    var r1 := r.(pcs := [pc, leaving]);
    assert r.pcs[1 := leaving] == r1.pcs;
    assert Do(r, Event(1, Signal({}))) == r1;
    assert r1.pcs[1 := Outside] == [pc, Outside];
  }

  /** Thread 1 flushes once while thread 0 is awake but not scheduled. */
  lemma OneFlush(s: State, r: State, pc: Pc)
    requires Reachable(s, r) && Idle(r, pc) && pc.Awake?
    ensures Reachable(s, r.(generation := NextGeneration(r.generation), flushes := r.flushes + 1))
  {
    ThreadOneEnters(r, pc, Flush);
    var r2 := r.(pcs := [pc, FlushHolding], lock := Some(1));
    Extend2(s, r, Event(1, Enter(Flush)), Event(1, Lock), r2);
    var r3 := r2.(pcs := [pc, FlushBroadcasting], generation := NextGeneration(r.generation), flushes := r.flushes + 1);
    assert r2.pcs[1 := FlushBroadcasting] == r3.pcs;
    Extend(s, r2, Event(1, Body), r3);
    ThreadOneLeaves(r3, pc);
    Extend2(s, r3, Event(1, Signal({})), Event(1, Unlock), r3.(pcs := [pc, Outside], lock := None));
  }

  lemma {:induction false} ManyFlushes(s: State, r: State, pc: Pc, k: nat) returns (after: State)
    requires Reachable(s, r) && Idle(r, pc) && pc.Awake?
    ensures Reachable(s, after) && after == r.(generation := after.generation, flushes := r.flushes + k)
  {
    after := r;
    if k > 0 {
      after := ManyFlushes(s, r, pc, k - 1);
      OneFlush(s, after, pc);
      after := after.(generation := NextGeneration(after.generation), flushes := after.flushes + 1);
    }
  }

  /** Thread 1 gives once. */
  lemma OneGive(s: State, r: State, pc: Pc)
    requires Reachable(s, r) && Idle(r, pc) && pc.Awake? && r.val == 0
    ensures Reachable(s, r.(val := 1, raised := r.raised + 1))
  {
    ThreadOneEnters(r, pc, Give);
    var r2 := r.(pcs := [pc, GiveTesting], lock := Some(1));
    Extend2(s, r, Event(1, Enter(Give)), Event(1, Lock), r2);
    var r3 := r2.(pcs := [pc, GiveSignalling], val := 1, raised := r.raised + 1);
    assert r2.pcs[1 := GiveSignalling] == r3.pcs;
    Extend(s, r2, Event(1, Body), r3);
    ThreadOneLeaves(r3, pc);
    Extend2(s, r3, Event(1, Signal({})), Event(1, Unlock), r3.(pcs := [pc, Outside], lock := None));
  }

  /** A take that falls asleep and wakes spuriously. */
  lemma AwakeTaker() returns (s: State, r: State)
    ensures Initial(s) && Reachable(s, r) && Idle(r, Awake(0, 0)) && r.val == 0 && r.flushes == 0
  {
    s := State(0, 0, None, [Outside, Outside], 0, 0, 0);
    assert Run(s, []) == s;
    var s1 := s.(pcs := [TakeEntering, Outside]);
    Extend(s, s, Event(0, Enter(Take)), s1);
    var s2 := s.(pcs := [TakeTesting(0, 0), Outside], lock := Some(0));
    Extend(s, s1, Event(0, Lock), s2);
    var s3 := s.(pcs := [Sleeping(0, 0), Outside]);
    Extend(s, s2, Event(0, Body), s3);
    r := s.(pcs := [Awake(0, 0), Outside]);
    Extend(s, s3, Event(0, SpuriousWakeup), r);
  }

  /** The bound on the flushes during one take is needed: after exactly 2^32 of them, a taker that has not been scheduled
      in between consumes the token as if there had been none. */
  lemma WrappedFlushIsMissed() returns (s: State, r: State)
    ensures Initial(s) && Reachable(s, r) && |r.pcs| == 2 && r.pcs[0].TakeTesting?
    ensures r.flushes - r.pcs[0].since == TWO_32
    ensures Do(r, Event(0, Body)).pcs[0] == TakeLeaving(true) && Do(r, Event(0, Body)).consumed == r.consumed + 1
  {
    var start: State;
    s, start := AwakeTaker();
    var pc := Awake(0, 0);
    var k := TWO_32;
    var flushed := ManyFlushes(s, start, pc, k);
    OneGive(s, flushed, pc);
    var given := flushed.(val := 1, raised := flushed.raised + 1);
    r := given.(pcs := [TakeTesting(0, 0), Outside], lock := Some(0));
    Extend(s, given, Event(0, Lock), r);
    var events :| Run(s, events) == r;
    RunInv(s, events);
    MissedNext(r);
  }

  lemma MissedNext(r: State)
    requires r.pcs == [TakeTesting(0, 0), Outside] && r.generation == r.flushes % TWO_32 && r.flushes == TWO_32 && r.val == 1
    ensures Do(r, Event(0, Body)).pcs[0] == TakeLeaving(true) && Do(r, Event(0, Body)).consumed == r.consumed + 1
  {
    assert r.generation == 0;
  }
}
