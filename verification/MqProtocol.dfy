/** The producer/consumer protocol of hxlib/mq.c: any number of threads sending and receiving on one queue,
    interleaved at every semaphore, lock and copy step. */
module MqProtocol {
  import opened Bytes
  import opened MqRing
  import opened Options

  const SEM_VALUE_MAX: nat := 32767

  /** Where a thread is. Granted: holds a semaphore token. Locked: holds the mutex. Copied: moved the data under the
      mutex. Unlocked: has released the mutex and still has to post the other semaphore. */
  datatype Pc =
    | Idle
    | SendWaiting(msg: Message) | SendGranted(msg: Message) | SendLocked(msg: Message) | SendCopied | SendUnlocked
    | RecvWaiting | RecvGranted | RecvLocked | RecvCopied(msg: Message) | RecvUnlocked(msg: Message)

  /** One thread's next move. GiveUp is a timeout or a refused non-blocking attempt. */
  datatype Action = StartSend(msg: Message) | StartReceive | TakeToken | GiveUp | Lock | Copy | Unlock | Post

  datatype Event = Event(thread: nat, action: Action)

  /** sent and received record the messages in the order their locked sections ran. */
  datatype State = State(ring: Ring, space: nat, msgs: nat, lock: Option<nat>, pcs: seq<Pc>,
                         sent: seq<Message>, received: seq<Message>)

  /** ReleaseSemaphore cannot report overflow: the kernel caps the count. */
  function PostSem(v: nat): nat { if v < SEM_VALUE_MAX then v + 1 else v }

  /** So many bytes at slot i lie inside the buffer. */
  predicate FitsAt(r: Ring, i: nat, len: nat)
  {
    r.maxmsg > 0 && i < |r.lens| && Offset(i, r.msgsize) + len <= |r.buf|
  }

  /** The step of thread t, or None when it is not enabled: a full or empty queue, a taken lock, the wrong place, or a copy
      that would leave the buffer. */
  function Step(s: State, t: nat, a: Action): Option<State>
  {
    if t >= |s.pcs| then None
    else match (s.pcs[t], a)
      case (Idle, StartSend(msg)) => if |msg| <= s.ring.msgsize then Some(Goto(s, t, SendWaiting(msg))) else None
      case (Idle, StartReceive) => Some(Goto(s, t, RecvWaiting))
      case (SendWaiting(msg), TakeToken) =>
        if s.space > 0 then Some(Goto(s, t, SendGranted(msg)).(space := s.space - 1)) else None
      case (RecvWaiting, TakeToken) => if s.msgs > 0 then Some(Goto(s, t, RecvGranted).(msgs := s.msgs - 1)) else None
      case (SendWaiting(_), GiveUp) => Some(Goto(s, t, Idle))
      case (RecvWaiting, GiveUp) => Some(Goto(s, t, Idle))
      case (SendGranted(msg), Lock) =>
        if s.lock == None then Some(Goto(s, t, SendLocked(msg)).(lock := Some(t))) else None
      case (RecvGranted, Lock) => if s.lock == None then Some(Goto(s, t, RecvLocked).(lock := Some(t))) else None
      case (SendLocked(msg), Copy) =>
        if FitsAt(s.ring, s.ring.tail, |msg|) then
          Some(Goto(s, t, SendCopied).(ring := Enqueue(s.ring, msg), sent := s.sent + [msg]))
        else None
      case (RecvLocked, Copy) =>
        if s.ring.head < |s.ring.lens| && FitsAt(s.ring, s.ring.head, s.ring.lens[s.ring.head]) then
          var (ring, msg) := Dequeue(s.ring);
          Some(Goto(s, t, RecvCopied(msg)).(ring := ring, received := s.received + [msg]))
        else None
      case (SendCopied, Unlock) => Some(Goto(s, t, SendUnlocked).(lock := None))
      case (RecvCopied(msg), Unlock) => Some(Goto(s, t, RecvUnlocked(msg)).(lock := None))
      case (SendUnlocked, Post) => Some(Goto(s, t, Idle).(msgs := PostSem(s.msgs)))
      case (RecvUnlocked(_), Post) => Some(Goto(s, t, Idle).(space := PostSem(s.space)))
      case _ => None
  }

  function Goto(s: State, t: nat, pc: Pc): State
    requires t < |s.pcs|
  {
    s.(pcs := s.pcs[t := pc])
  }

  /** Any schedule: an event that is not enabled leaves the state alone. */
  function Run(s: State, events: seq<Event>): State
    decreases |events|
  {
    if events == [] then s else Do(Run(s, events[..|events| - 1]), events[|events| - 1])
  }

  function Do(s: State, e: Event): State
  {
    match Step(s, e.thread, e.action) case Some(next) => next case None => s
  }

  /** The state mq_open leaves behind: an empty ring, sem_space = mq_maxmsg, sem_msgs = 0, every thread elsewhere. */
  ghost predicate Initial(s: State)
  {
    && Wf(s.ring) && s.ring.cur == 0 && s.ring.maxmsg <= SEM_VALUE_MAX
    && s.space == s.ring.maxmsg && s.msgs == 0 && s.lock == None
    && (forall t | 0 <= t < |s.pcs| :: s.pcs[t] == Idle)
    && s.sent == [] && s.received == []
  }

  // ---------------------------------------------------------------- counting threads

  function Tally(pcs: seq<Pc>, weight: Pc -> nat): nat
  {
    if pcs == [] then 0 else Tally(pcs[..|pcs| - 1], weight) + weight(pcs[|pcs| - 1])
  }

  lemma {:induction false} TallyUpdate(pcs: seq<Pc>, t: nat, pc: Pc, weight: Pc -> nat)
    requires t < |pcs|
    ensures Tally(pcs[t := pc], weight) + weight(pcs[t]) == Tally(pcs, weight) + weight(pc)
  {
    var n := |pcs| - 1;
    if t == n {
      assert pcs[t := pc][..n] == pcs[..n];
    } else {
      TallyUpdate(pcs[..n], t, pc, weight);
      assert pcs[t := pc][..n] == pcs[..n][t := pc];
    }
  }

  lemma {:induction false} TallyBound(pcs: seq<Pc>, t: nat, weight: Pc -> nat)
    requires t < |pcs|
    ensures weight(pcs[t]) <= Tally(pcs, weight)
  {
    var n := |pcs| - 1;
    if t < n {
      TallyBound(pcs[..n], t, weight);
    }
  }

  lemma {:induction false} TallyZero(pcs: seq<Pc>, weight: Pc -> nat)
    requires forall t | 0 <= t < |pcs| :: weight(pcs[t]) == 0
    ensures Tally(pcs, weight) == 0
  {
    if pcs != [] {
      TallyZero(pcs[..|pcs| - 1], weight);
    }
  }

  /** A sender between taking a space token and posting its message, before and after the copy. */
  function SendsBefore(pc: Pc): nat { if pc.SendGranted? || pc.SendLocked? then 1 else 0 }
  function SendsAfter(pc: Pc): nat { if pc.SendCopied? || pc.SendUnlocked? then 1 else 0 }
  /** A receiver between taking a message token and posting the space, before and after the copy. */
  function RecvsBefore(pc: Pc): nat { if pc.RecvGranted? || pc.RecvLocked? then 1 else 0 }
  function RecvsAfter(pc: Pc): nat { if pc.RecvCopied? || pc.RecvUnlocked? then 1 else 0 }

  // ---------------------------------------------------------------- the invariant

  predicate HoldsLock(pc: Pc) { pc.SendLocked? || pc.SendCopied? || pc.RecvLocked? || pc.RecvCopied? }

  ghost predicate LockDiscipline(s: State)
  {
    && (s.lock.Some? ==> s.lock.value < |s.pcs|)
    && (forall t | 0 <= t < |s.pcs| :: HoldsLock(s.pcs[t]) <==> s.lock == Some(t))
  }

  ghost predicate MessagesFit(s: State)
  {
    forall t | 0 <= t < |s.pcs| :: match s.pcs[t]
      case SendWaiting(msg) => |msg| <= s.ring.msgsize
      case SendGranted(msg) => |msg| <= s.ring.msgsize
      case SendLocked(msg) => |msg| <= s.ring.msgsize
      case _ => true
  }

  /** Every slot is accounted for: the free ones and the queued ones, token by token. */
  ghost predicate TokensAccounted(s: State)
  {
    && s.msgs + Tally(s.pcs, SendsAfter) + Tally(s.pcs, RecvsBefore) == s.ring.cur
    && s.space + Tally(s.pcs, SendsBefore) + Tally(s.pcs, RecvsAfter) == s.ring.maxmsg - s.ring.cur
  }

  ghost predicate Inv(s: State)
  {
    && Wf(s.ring) && s.ring.maxmsg <= SEM_VALUE_MAX
    && LockDiscipline(s) && MessagesFit(s) && TokensAccounted(s)
    && s.sent == s.received + Contents(s.ring)
  }

  lemma InitialInv(s: State)
    requires Initial(s)
    ensures Inv(s)
  {
    TallyZero(s.pcs, SendsBefore);
    TallyZero(s.pcs, SendsAfter);
    TallyZero(s.pcs, RecvsBefore);
    TallyZero(s.pcs, RecvsAfter);
  }

  lemma Moved(pcs: seq<Pc>, t: nat, pc: Pc)
    requires t < |pcs|
    ensures Tally(pcs[t := pc], SendsBefore) + SendsBefore(pcs[t]) == Tally(pcs, SendsBefore) + SendsBefore(pc)
    ensures Tally(pcs[t := pc], SendsAfter) + SendsAfter(pcs[t]) == Tally(pcs, SendsAfter) + SendsAfter(pc)
    ensures Tally(pcs[t := pc], RecvsBefore) + RecvsBefore(pcs[t]) == Tally(pcs, RecvsBefore) + RecvsBefore(pc)
    ensures Tally(pcs[t := pc], RecvsAfter) + RecvsAfter(pcs[t]) == Tally(pcs, RecvsAfter) + RecvsAfter(pc)
  {
    TallyUpdate(pcs, t, pc, SendsBefore);
    TallyUpdate(pcs, t, pc, SendsAfter);
    TallyUpdate(pcs, t, pc, RecvsBefore);
    TallyUpdate(pcs, t, pc, RecvsAfter);
  }

  /** At the copy of a send there is room, at the copy of a receive there is a message, and both stay inside the buffer. */
  lemma CopyIsSafe(s: State, t: nat)
    requires Inv(s) && t < |s.pcs|
    ensures s.pcs[t].SendGranted? || s.pcs[t].SendLocked? ==> s.ring.cur < s.ring.maxmsg
    ensures s.pcs[t].SendLocked? ==> FitsAt(s.ring, s.ring.tail, |s.pcs[t].msg|)
    ensures s.pcs[t].RecvGranted? || s.pcs[t].RecvLocked? ==>
      s.ring.cur > 0 && Pos(s.ring.head, 0, s.ring.maxmsg) == s.ring.head
    ensures s.pcs[t].RecvLocked? ==> FitsAt(s.ring, s.ring.head, s.ring.lens[s.ring.head])
  {
    TallyBound(s.pcs, t, SendsBefore);
    TallyBound(s.pcs, t, RecvsBefore);
    OffsetSteps(s.ring.tail, s.ring.maxmsg, s.ring.msgsize);
    OffsetSteps(s.ring.head, s.ring.maxmsg, s.ring.msgsize);
  }

  /** A post never hits the semaphore's cap. */
  lemma PostIsExact(s: State, t: nat)
    requires Inv(s) && t < |s.pcs|
    ensures s.pcs[t].SendUnlocked? ==> PostSem(s.msgs) == s.msgs + 1
    ensures s.pcs[t].RecvUnlocked? ==> PostSem(s.space) == s.space + 1
  {
    TallyBound(s.pcs, t, SendsAfter);
    TallyBound(s.pcs, t, RecvsAfter);
  }

  lemma StepLocks(s: State, t: nat, a: Action)
    requires LockDiscipline(s) && Step(s, t, a).Some?
    ensures LockDiscipline(Step(s, t, a).value)
  {
  }

  lemma StepFits(s: State, t: nat, a: Action)
    requires MessagesFit(s) && Step(s, t, a).Some?
    ensures MessagesFit(Step(s, t, a).value)
  {
  }

  /** What one step does to the two accounts: a token moves between a semaphore, the thread and the ring. */
  lemma StepBalance(s: State, t: nat, a: Action)
    requires Step(s, t, a).Some?
    requires s.pcs[t].SendUnlocked? ==> s.msgs < SEM_VALUE_MAX
    requires s.pcs[t].RecvUnlocked? ==> s.space < SEM_VALUE_MAX
    ensures var s' := Step(s, t, a).value;
      var pc, pc' := s.pcs[t], s'.pcs[t];
      && s'.pcs == s.pcs[t := pc'] && s'.ring.maxmsg == s.ring.maxmsg
      && s'.msgs + SendsAfter(pc') + RecvsBefore(pc') - s'.ring.cur
         == s.msgs + SendsAfter(pc) + RecvsBefore(pc) - s.ring.cur
      && s'.space + SendsBefore(pc') + RecvsAfter(pc') + s'.ring.cur
         == s.space + SendsBefore(pc) + RecvsAfter(pc) + s.ring.cur
  {
  }

  lemma StepTokens(s: State, t: nat, a: Action)
    requires Inv(s) && Step(s, t, a).Some?
    ensures TokensAccounted(Step(s, t, a).value)
  {
    PostIsExact(s, t);
    StepBalance(s, t, a);
    Moved(s.pcs, t, Step(s, t, a).value.pcs[t]);
  }

  lemma StepHistory(s: State, t: nat, a: Action)
    requires Inv(s) && Step(s, t, a).Some?
    ensures var s' := Step(s, t, a).value;
      Wf(s'.ring) && s'.ring.maxmsg == s.ring.maxmsg && s'.sent == s'.received + Contents(s'.ring)
  {
    CopyIsSafe(s, t);
    if s.pcs[t].SendLocked? && a == Copy {
      EnqueueAppends(s.ring, s.pcs[t].msg);
    } else if s.pcs[t].RecvLocked? && a == Copy {
      DequeueTakesOldest(s.ring);
    }
  }

  lemma StepInv(s: State, t: nat, a: Action)
    requires Inv(s) && Step(s, t, a).Some?
    ensures Inv(Step(s, t, a).value)
  {
    StepLocks(s, t, a);
    StepFits(s, t, a);
    StepTokens(s, t, a);
    StepHistory(s, t, a);
  }

  // ---------------------------------------------------------------- what holds over every run

  lemma {:induction false} RunInv(s: State, events: seq<Event>)
    requires Initial(s)
    ensures Inv(Run(s, events)) && Run(s, events).ring.maxmsg == s.ring.maxmsg
  {
    if events == [] {
      InitialInv(s);
    } else {
      RunInv(s, events[..|events| - 1]);
      var before := Run(s, events[..|events| - 1]);
      var e := events[|events| - 1];
      if Step(before, e.thread, e.action).Some? {
        StepInv(before, e.thread, e.action);
        StepHistory(before, e.thread, e.action);
      }
    }
  }

  /** In every schedule the tokens in the two semaphores and in the hands of threads add up to mq_maxmsg,
      at most one thread is inside the mutex, and a copy always finds room or a message. */
  lemma Conservation(s: State, events: seq<Event>)
    requires Initial(s)
    ensures var r := Run(s, events);
      && r.space + r.msgs + Tally(r.pcs, SendsBefore) + Tally(r.pcs, SendsAfter)
         + Tally(r.pcs, RecvsBefore) + Tally(r.pcs, RecvsAfter) == s.ring.maxmsg
      && 0 <= r.ring.cur <= s.ring.maxmsg
      && (forall t | 0 <= t < |r.pcs| && r.pcs[t].SendLocked? :: r.ring.cur < s.ring.maxmsg)
      && (forall t | 0 <= t < |r.pcs| && r.pcs[t].RecvLocked? :: r.ring.cur > 0)
      && (forall t, u | 0 <= t < u < |r.pcs| :: !(HoldsLock(r.pcs[t]) && HoldsLock(r.pcs[u])))
  {
    RunInv(s, events);
    var r := Run(s, events);
    forall t | 0 <= t < |r.pcs| && (r.pcs[t].SendLocked? || r.pcs[t].RecvLocked?)
      ensures r.pcs[t].SendLocked? ==> r.ring.cur < s.ring.maxmsg
      ensures r.pcs[t].RecvLocked? ==> r.ring.cur > 0
    {
      CopyIsSafe(r, t);
    }
  }

  /** First in, first out: the messages received are a prefix of those sent, and the ring holds exactly the rest. */
  lemma Fifo(s: State, events: seq<Event>)
    requires Initial(s)
    ensures var r := Run(s, events);
      && Wf(r.ring) && r.sent == r.received + Contents(r.ring) && r.received <= r.sent
      && r.ring.tail == (r.ring.head + r.ring.cur) % s.ring.maxmsg
  {
    RunInv(s, events);
    var r := Run(s, events);
    InvFifo(r);
  }

  lemma InvFifo(r: State)
    requires Inv(r)
    ensures Wf(r.ring) && r.sent == r.received + Contents(r.ring) && r.received <= r.sent
    ensures r.ring.tail == (r.ring.head + r.ring.cur) % r.ring.maxmsg
  {
    WrapAround(r.ring.head + r.ring.cur, r.ring.maxmsg);
  }

  ghost predicate Extends(r: State, s: State) { s.sent <= r.sent && s.received <= r.received }

  lemma DoExtends(s: State, e: Event)
    ensures Extends(Do(s, e), s)
  {
  }

  lemma ExtendsTransitive(r: State, s: State, t: State)
    requires Extends(r, s) && Extends(s, t)
    ensures Extends(r, t)
  {
  }

  lemma RunStep(s: State, all: seq<Event>, init: seq<Event>, last: Event, before: State)
    requires all == init + [last] && before == Run(s, init)
    ensures Run(s, all) == Do(before, last)
  {
    assert all[..|all| - 1] == init;
  }

  lemma RunLast(s: State, events: seq<Event>, more: seq<Event>)
    requires more != []
    ensures Run(s, events + more) == Do(Run(s, events + more[..|more| - 1]), more[|more| - 1])
  {
    var n := |more| - 1;
    var init, last := events + more[..n], more[n];
    assert events + more == init + [last];
    RunStep(s, events + more, init, last, Run(s, init));
  }

  /** The histories only grow: what was sent or received stays sent or received. */
  lemma {:induction false} HistoryGrows(s: State, events: seq<Event>, more: seq<Event>)
    ensures Extends(Run(s, events + more), Run(s, events))
    decreases |more|
  {
    var start, last := Run(s, events), Run(s, events + more);
    if more == [] {
      assert events + more == events;
    } else {
      var n := |more| - 1;
      HistoryGrows(s, events, more[..n]);
      var before := Run(s, events + more[..n]);
      RunLast(s, events, more);
      DoExtends(before, more[n]);
      ExtendsTransitive(last, before, start);
    }
  }

  lemma {:induction false} RunTogether(s: State, events: seq<Event>, more: seq<Event>)
    ensures Run(s, events + more) == Run(Run(s, events), more)
    decreases |more|
  {
    if more == [] {
      assert events + more == events;
    } else {
      RunTogether(s, events, more[..|more| - 1]);
      RunLast(s, events, more);
    }
  }

  /** A step looks at no thread's place but its own. */
  lemma StepIsLocal(s: State, pcs: seq<Pc>, u: nat, a: Action)
    requires u < |s.pcs| && u < |pcs| && pcs[u] == s.pcs[u]
    ensures Step(s.(pcs := pcs), u, a) == match Step(s, u, a)
      case None => None
      case Some(next) => Some(next.(pcs := pcs[u := next.pcs[u]]))
    ensures Step(s, u, a).Some? ==> Step(s, u, a).value.pcs == s.pcs[u := Step(s, u, a).value.pcs[u]]
  {
  }

  /** Where thread t is makes no difference to the others. */
  lemma OthersUnaware(s: State, t: nat, pc: Pc, e: Event)
    requires t < |s.pcs| && e.thread != t
    ensures t < |Do(s, e).pcs| && Do(Goto(s, t, pc), e) == Goto(Do(s, e), t, pc) && Do(s, e).pcs[t] == s.pcs[t]
  {
    var u, a, pcs := e.thread, e.action, s.pcs[t := pc];
    if u < |s.pcs| {
      StepIsLocal(s, pcs, u, a);
      if Step(s, u, a).Some? {
        var pc' := Step(s, u, a).value.pcs[u];
        assert pcs[u := pc'] == s.pcs[u := pc'][t := pc];
      }
    }
  }

  lemma {:induction false} OthersRunUnaware(s: State, t: nat, pc: Pc, events: seq<Event>)
    requires t < |s.pcs| && forall e | e in events :: e.thread != t
    ensures t < |Run(s, events).pcs| && Run(s, events).pcs[t] == s.pcs[t]
    ensures Run(Goto(s, t, pc), events) == Goto(Run(s, events), t, pc)
    decreases |events|
  {
    if events != [] {
      var n := |events| - 1;
      OthersRunUnaware(s, t, pc, events[..n]);
      OthersUnaware(Run(s, events[..n]), t, pc, events[n]);
    }
  }

  /** An attempt from the start to the timeout or refusal, with whatever the other threads do meanwhile. */
  lemma AttemptForgotten(s: State, t: nat, start: Action, meanwhile: seq<Event>)
    requires t < |s.pcs| && s.pcs[t] == Idle && (start.StartSend? || start.StartReceive?)
    requires forall e | e in meanwhile :: e.thread != t
    ensures Run(Do(s, Event(t, start)), meanwhile + [Event(t, GiveUp)]) == Run(s, meanwhile)
  {
    var begun, last := Do(s, Event(t, start)), Event(t, GiveUp);
    assert begun == Goto(s, t, begun.pcs[t]);
    OthersRunUnaware(s, t, begun.pcs[t], meanwhile);
    var r := Run(s, meanwhile);
    assert (meanwhile + [last])[..|meanwhile|] == meanwhile;
    assert Goto(r, t, begun.pcs[t]).pcs[t := Idle] == r.pcs;
  }

  /** A send or receive that times out or is refused leaves no trace: taking its start and its end out of a schedule leads
      to the same ring, semaphores, mutex, threads and histories, whatever comes before, meanwhile and after. */
  lemma GiveUpLeavesNoTrace(s: State, before: seq<Event>, t: nat, start: Action, meanwhile: seq<Event>, after: seq<Event>)
    requires t < |Run(s, before).pcs| && Run(s, before).pcs[t] == Idle && (start.StartSend? || start.StartReceive?)
    requires forall e | e in meanwhile :: e.thread != t
    ensures Run(s, before + [Event(t, start)] + (meanwhile + [Event(t, GiveUp)]) + after) == Run(s, before + meanwhile + after)
  {
    var first, rest := Event(t, start), meanwhile + [Event(t, GiveUp)];
    assert (before + [first])[..|before|] == before;
    AttemptForgotten(Run(s, before), t, start, meanwhile);
    RunTogether(s, before + [first], rest);
    RunTogether(s, before, meanwhile);
    RunTogether(s, before + [first] + rest, after);
    RunTogether(s, before + meanwhile, after);
  }

  /** With nobody inside an operation, the semaphores count the queued messages and the free slots exactly. */
  lemma Quiescent(s: State, events: seq<Event>)
    requires Initial(s)
    ensures var r := Run(s, events);
      (forall t | 0 <= t < |r.pcs| :: r.pcs[t] == Idle || r.pcs[t].SendWaiting? || r.pcs[t].RecvWaiting?)
      ==> r.msgs == r.ring.cur && r.space == s.ring.maxmsg - r.ring.cur && r.lock == None
  {
    RunInv(s, events);
    var r := Run(s, events);
    if forall t | 0 <= t < |r.pcs| :: r.pcs[t] == Idle || r.pcs[t].SendWaiting? || r.pcs[t].RecvWaiting? {
      TallyZero(r.pcs, SendsBefore);
      TallyZero(r.pcs, SendsAfter);
      TallyZero(r.pcs, RecvsBefore);
      TallyZero(r.pcs, RecvsAfter);
    }
  }

  /** The thread has begun an operation and cannot take its next step. */
  ghost predicate Blocked(s: State, t: nat)
    requires t < |s.pcs|
  {
    && Step(s, t, TakeToken) == None && Step(s, t, Lock) == None && Step(s, t, Copy) == None
    && Step(s, t, Unlock) == None && Step(s, t, Post) == None
  }

  lemma HolderMoves(s: State, h: nat)
    requires Inv(s) && s.lock == Some(h)
    ensures !Blocked(s, h)
  {
    assert HoldsLock(s.pcs[h]);
    CopyIsSafe(s, h);
    if s.pcs[h].SendLocked? || s.pcs[h].RecvLocked? {
      assert Step(s, h, Copy).Some?;
    } else {
      assert Step(s, h, Unlock).Some?;
    }
  }

  lemma WaitsForToken(s: State, t: nat)
    requires Inv(s) && s.lock == None && t < |s.pcs| && Blocked(s, t)
    ensures s.pcs[t] == Idle || (s.pcs[t].SendWaiting? && s.space == 0) || (s.pcs[t].RecvWaiting? && s.msgs == 0)
  {
    assert !HoldsLock(s.pcs[t]);
  }

  /** No deadlock: if every thread inside an operation is blocked, then each is a sender facing a full queue or a
      receiver facing an empty one. */
  lemma OnlyFullOrEmptyBlocks(s: State, events: seq<Event>)
    requires Initial(s)
    requires forall t | 0 <= t < |Run(s, events).pcs| :: Blocked(Run(s, events), t)
    ensures var r := Run(s, events);
      forall t | 0 <= t < |r.pcs| ::
        || r.pcs[t] == Idle
        || (r.pcs[t].SendWaiting? && r.ring.cur == s.ring.maxmsg)
        || (r.pcs[t].RecvWaiting? && r.ring.cur == 0)
  {
    RunInv(s, events);
    var r := Run(s, events);
    if r.lock.Some? {
      HolderMoves(r, r.lock.value);
      assert false;
    }
    forall t | 0 <= t < |r.pcs|
      ensures r.pcs[t] == Idle || (r.pcs[t].SendWaiting? && r.space == 0) || (r.pcs[t].RecvWaiting? && r.msgs == 0)
    {
      WaitsForToken(r, t);
    }
    Quiescent(s, events);
  }

  // ---------------------------------------------------------------- what a call gets and gives

  /** Thread t has taken msg out of the ring and not yet returned. */
  ghost predicate Holds(s: State, t: nat, msg: Message)
  {
    t < |s.pcs| && (s.pcs[t] == RecvCopied(msg) || s.pcs[t] == RecvUnlocked(msg))
  }

  lemma StepHolds(s: State, t: nat, msg: Message, e: Event)
    requires Holds(s, t, msg) && e != Event(t, Post)
    ensures Holds(Do(s, e), t, msg)
  {
    if e.thread < |s.pcs| && e.thread != t {
      StepIsLocal(s, s.pcs, e.thread, e.action);
    }
  }

  lemma {:induction false} RunHolds(s: State, t: nat, msg: Message, more: seq<Event>)
    requires Holds(s, t, msg) && Event(t, Post) !in more
    ensures Holds(Run(s, more), t, msg)
    decreases |more|
  {
    if more != [] {
      var n := |more| - 1;
      RunHolds(s, t, msg, more[..n]);
      StepHolds(Run(s, more[..n]), t, msg, more[n]);
    }
  }

  /** The copy of a receive takes the oldest message into the caller's hands and into the history. */
  lemma CopyReceives(s: State, t: nat)
    requires Inv(s) && t < |s.pcs| && s.pcs[t] == RecvLocked
    ensures Contents(s.ring) != []
    ensures var msg, s' := Contents(s.ring)[0], Do(s, Event(t, Copy));
      Holds(s', t, msg) && s'.received == s.received + [msg] && Inv(s') && Contents(s'.ring) == Contents(s.ring)[1..]
  {
    CopyIsSafe(s, t);
    DequeueTakesOldest(s.ring);
    StepInv(s, t, Copy);
  }

  /** A receive returns the message that was oldest when it copied, whatever happens until it returns, and that message
      stands at its place in the history. */
  lemma ReceiverGetsOldest(s: State, events: seq<Event>, t: nat, more: seq<Event>)
    requires Initial(s) && t < |Run(s, events).pcs| && Run(s, events).pcs[t] == RecvLocked && Event(t, Post) !in more
    ensures Wf(Run(s, events).ring) && Contents(Run(s, events).ring) != []
    ensures var r, later := Run(s, events), Run(s, events + [Event(t, Copy)] + more);
      var msg := Contents(r.ring)[0];
      Holds(later, t, msg) && |r.received| < |later.received| && later.received[|r.received|] == msg
  {
    var r, copied := Run(s, events), events + [Event(t, Copy)];
    RunInv(s, events);
    CopyReceives(r, t);
    assert copied[..|events|] == events;
    RunHolds(Do(r, Event(t, Copy)), t, Contents(r.ring)[0], more);
    RunTogether(s, copied, more);
    HistoryGrows(s, copied, more);
  }

  /** Thread t is on its way to copy msg into the ring. */
  ghost predicate Carries(s: State, t: nat, msg: Message)
  {
    t < |s.pcs| && (s.pcs[t] == SendWaiting(msg) || s.pcs[t] == SendGranted(msg) || s.pcs[t] == SendLocked(msg))
  }

  lemma {:induction false} RunCarries(s: State, t: nat, msg: Message, more: seq<Event>)
    requires Carries(s, t, msg) && Event(t, Copy) !in more && Event(t, GiveUp) !in more
    ensures Carries(Run(s, more), t, msg)
    decreases |more|
  {
    if more != [] {
      var n := |more| - 1;
      RunCarries(s, t, msg, more[..n]);
      StepCarries(Run(s, more[..n]), t, msg, more[n]);
    }
  }

  lemma StepCarries(s: State, t: nat, msg: Message, e: Event)
    requires Carries(s, t, msg) && e != Event(t, Copy) && e != Event(t, GiveUp)
    ensures Carries(Do(s, e), t, msg)
  {
    if e.thread < |s.pcs| && e.thread != t {
      StepIsLocal(s, s.pcs, e.thread, e.action);
    }
  }

  lemma CopySends(s: State, t: nat, msg: Message)
    requires Inv(s) && t < |s.pcs| && s.pcs[t] == SendLocked(msg)
    ensures var s' := Do(s, Event(t, Copy));
      s'.pcs[t] == SendCopied && s'.sent == s.sent + [msg] && Inv(s') && Contents(s'.ring) == Contents(s.ring) + [msg]
  {
    CopyIsSafe(s, t);
    EnqueueAppends(s.ring, msg);
    StepInv(s, t, Copy);
  }

  /** What a send puts into the ring, and into the history, is the message that it was called with. */
  lemma SenderSendsItsMessage(s: State, events: seq<Event>, t: nat, msg: Message, more: seq<Event>)
    requires Initial(s) && t < |Run(s, events).pcs| && Run(s, events).pcs[t] == Idle && |msg| <= Run(s, events).ring.msgsize
    requires Event(t, Copy) !in more && Event(t, GiveUp) !in more
    ensures var r := Run(s, events + [Event(t, StartSend(msg))] + more);
      && Carries(r, t, msg) && Wf(r.ring)
      && (r.pcs[t].SendLocked? ==>
            var r' := Do(r, Event(t, Copy));
            Wf(r'.ring) && r'.sent == r.sent + [msg] && Contents(r'.ring) == Contents(r.ring) + [msg])
  {
    var begun := events + [Event(t, StartSend(msg))];
    assert begun[..|events|] == events;
    RunCarries(Run(s, begun), t, msg, more);
    RunTogether(s, begun, more);
    RunInv(s, begun + more);
    var r := Run(s, begun + more);
    if r.pcs[t].SendLocked? {
      CopySends(r, t, msg);
    }
  }

  /** A call that is not disturbed: with the mutex free, a send into a queue with room goes through and leaves one message
      more; with a full queue it waits and can give up. */
  lemma SendGoesThrough(s: State, t: nat, msg: Message)
    requires Inv(s) && s.lock == None && t < |s.pcs| && s.pcs[t] == Idle && |msg| <= s.ring.msgsize
    ensures var begun := Do(s, Event(t, StartSend(msg)));
      begun == Goto(s, t, SendWaiting(msg)) && (Step(begun, t, TakeToken).None? <==> s.space == 0)
    ensures s.space > 0 ==>
      var copied := Do(Do(Do(Do(s, Event(t, StartSend(msg))), Event(t, TakeToken)), Event(t, Lock)), Event(t, Copy));
      var s' := Do(Do(copied, Event(t, Unlock)), Event(t, Post));
      && Wf(s'.ring) && Contents(s'.ring) == Contents(s.ring) + [msg] && s'.sent == s.sent + [msg]
      && s'.received == s.received && s'.space == s.space - 1 && s'.msgs == s.msgs + 1 && s'.lock == None && s'.pcs == s.pcs
  {
    if s.space > 0 {
      var a := Goto(s, t, SendWaiting(msg));
      StepInv(s, t, StartSend(msg));
      var b := Goto(a, t, SendGranted(msg)).(space := s.space - 1);
      StepInv(a, t, TakeToken);
      var c := Goto(b, t, SendLocked(msg)).(lock := Some(t));
      StepInv(b, t, Lock);
      CopySends(c, t, msg);
      var d := Do(c, Event(t, Copy));
      FinishSend(d, t);
      assert d.pcs[t := Idle] == s.pcs;
    }
  }

  lemma FinishSend(d: State, t: nat)
    requires Inv(d) && t < |d.pcs| && d.pcs[t] == SendCopied
    ensures Do(Do(d, Event(t, Unlock)), Event(t, Post)) == Goto(d, t, Idle).(lock := None, msgs := d.msgs + 1)
  {
    var e := Goto(d, t, SendUnlocked).(lock := None);
    StepInv(d, t, Unlock);
    PostIsExact(e, t);
    assert e.pcs[t := Idle] == d.pcs[t := Idle];
  }

  /** So does a receive from a queue with a message, which takes the oldest one. */
  lemma ReceiveGoesThrough(s: State, t: nat)
    requires Inv(s) && s.lock == None && t < |s.pcs| && s.pcs[t] == Idle
    ensures var begun := Do(s, Event(t, StartReceive));
      begun == Goto(s, t, RecvWaiting) && (Step(begun, t, TakeToken).None? <==> s.msgs == 0)
    ensures s.msgs > 0 ==>
      var copied := Do(Do(Do(Do(s, Event(t, StartReceive)), Event(t, TakeToken)), Event(t, Lock)), Event(t, Copy));
      var s' := Do(Do(copied, Event(t, Unlock)), Event(t, Post));
      && Contents(s.ring) != [] && Holds(copied, t, Contents(s.ring)[0])
      && Wf(s'.ring) && Contents(s'.ring) == Contents(s.ring)[1..] && s'.received == s.received + [Contents(s.ring)[0]]
      && s'.sent == s.sent && s'.space == s.space + 1 && s'.msgs == s.msgs - 1 && s'.lock == None && s'.pcs == s.pcs
  {
    if s.msgs > 0 {
      var a := Goto(s, t, RecvWaiting);
      StepInv(s, t, StartReceive);
      var b := Goto(a, t, RecvGranted).(msgs := s.msgs - 1);
      StepInv(a, t, TakeToken);
      var c := Goto(b, t, RecvLocked).(lock := Some(t));
      StepInv(b, t, Lock);
      CopyReceives(c, t);
      var d := Do(c, Event(t, Copy));
      FinishReceive(d, t);
      assert d.pcs[t := Idle] == s.pcs;
    }
  }

  lemma FinishReceive(d: State, t: nat)
    requires Inv(d) && t < |d.pcs| && d.pcs[t].RecvCopied?
    ensures Do(Do(d, Event(t, Unlock)), Event(t, Post)) == Goto(d, t, Idle).(lock := None, space := d.space + 1)
  {
    var e := Goto(d, t, RecvUnlocked(d.pcs[t].msg)).(lock := None);
    StepInv(d, t, Unlock);
    PostIsExact(e, t);
    assert e.pcs[t := Idle] == d.pcs[t := Idle];
  }

  // ---------------------------------------------------------------- a buffer that is too small

  /** What mq_open leaves behind for some buffer, which need not have the size that the ring needs. */
  ghost predicate Created(s: State)
  {
    && s.ring.maxmsg > 0 && |s.ring.lens| == s.ring.maxmsg && s.ring.head == s.ring.tail == 0 && s.ring.cur == 0
    && s.space == s.ring.maxmsg <= SEM_VALUE_MAX && s.msgs == 0 && s.lock == None
    && (forall t | 0 <= t < |s.pcs| :: s.pcs[t] == Idle)
    && s.sent == [] && s.received == []
  }

  /** Thread t holds the mutex and is about to copy its message to where the buffer has already ended. */
  ghost predicate Overruns(s: State, t: nat)
  {
    t < |s.pcs| && s.pcs[t].SendLocked? && Offset(s.ring.tail, s.ring.msgsize) + |s.pcs[t].msg| > |s.ring.buf|
  }

  ghost predicate Reachable(s: State, r: State) { exists events :: Run(s, events) == r }

  lemma Extend(s: State, r: State, e: Event, next: State)
    requires Reachable(s, r) && next == Do(r, e)
    ensures Reachable(s, next)
  {
    var events :| Run(s, events) == r;
    var more := events + [e];
    assert more[..|more| - 1] == events;
    assert Run(s, more) == next;
  }

  /** Thread 0 is in pc and the others are where pcs says, with k messages sent so far to slots of this size. */
  ghost predicate SentBy0(r: State, pcs: seq<Pc>, pc: Pc, n: nat, size: nat, room: nat, k: nat)
  {
    && r.ring.maxmsg == n == |r.ring.lens| && r.ring.msgsize == size && |r.ring.buf| == room && r.ring.tail == k < n
    && pcs != [] && r.pcs == pcs[0 := pc]
  }

  lemma BeginSend(s: State, r: State, pcs: seq<Pc>, n: nat, size: nat, room: nat, k: nat, msg: Message) returns (next: State)
    requires Reachable(s, r) && SentBy0(r, pcs, Idle, n, size, room, k) && r.space == n - k && r.lock == None && |msg| <= size
    ensures Reachable(s, next) && SentBy0(next, pcs, SendLocked(msg), n, size, room, k)
    ensures next.space == n - k - 1 && next.lock == Some(0)
  {
    var a := Goto(r, 0, SendWaiting(msg));
    Extend(s, r, Event(0, StartSend(msg)), a);
    var b := Goto(a, 0, SendGranted(msg)).(space := r.space - 1);
    Extend(s, a, Event(0, TakeToken), b);
    next := Goto(b, 0, SendLocked(msg)).(lock := Some(0));
    Extend(s, b, Event(0, Lock), next);
  }

  lemma CopySend(s: State, r: State, pcs: seq<Pc>, n: nat, size: nat, room: nat, k: nat, msg: Message) returns (next: State)
    requires Reachable(s, r) && SentBy0(r, pcs, SendLocked(msg), n, size, room, k)
    requires Offset(k, size) + |msg| <= room && k + 1 < n
    ensures Reachable(s, next) && SentBy0(next, pcs, SendCopied, n, size, room, k + 1) && next.space == r.space
  {
    WrapAround(k + 1, n);
    next := Do(r, Event(0, Copy));
    Extend(s, r, Event(0, Copy), next);
  }

  lemma EndSend(s: State, r: State, pcs: seq<Pc>, n: nat, size: nat, room: nat, k: nat) returns (next: State)
    requires Reachable(s, r) && SentBy0(r, pcs, SendCopied, n, size, room, k)
    ensures Reachable(s, next) && SentBy0(next, pcs, Idle, n, size, room, k) && next.space == r.space && next.lock == None
  {
    var a := Goto(r, 0, SendUnlocked).(lock := None);
    Extend(s, r, Event(0, Unlock), a);
    next := Goto(a, 0, Idle).(msgs := PostSem(a.msgs));
    Extend(s, a, Event(0, Post), next);
  }

  /** Full messages, one after the other, until the next one does not fit. */
  lemma {:induction false} SendUntilFull(s: State, r: State, pcs: seq<Pc>, n: nat, size: nat, room: nat, k: nat, msg: Message)
    returns (next: State)
    requires Reachable(s, r) && SentBy0(r, pcs, Idle, n, size, room, k) && r.space == n - k && r.lock == None
    requires |msg| == size && room < Offset(n, size)
    ensures Reachable(s, next) && Overruns(next, 0)
    decreases n - k
  {
    next := BeginSend(s, r, pcs, n, size, room, k, msg);
    if Offset(k, size) + size <= room {
      assert Offset(k + 1, size) == Offset(k, size) + size;
      next := CopySend(s, next, pcs, n, size, room, k, msg);
      next := EndSend(s, next, pcs, n, size, room, k + 1);
      next := SendUntilFull(s, next, pcs, n, size, room, k + 1, msg);
    }
  }

  /** In some run a send is about to leave the buffer. */
  ghost predicate CanOverrun(s: State) { exists events: seq<Event>, t: nat :: Overruns(Run(s, events), t) }

  lemma InitialIsSafe(s: State)
    requires Initial(s)
    ensures !CanOverrun(s)
  {
    forall events: seq<Event>, t: nat
      ensures !Overruns(Run(s, events), t)
    {
      RunInv(s, events);
      if t < |Run(s, events).pcs| {
        CopyIsSafe(Run(s, events), t);
      }
    }
  }

  lemma ShortOverruns(s: State)
    requires Created(s) && s.pcs != [] && |s.ring.buf| < Offset(s.ring.maxmsg, s.ring.msgsize)
    ensures CanOverrun(s)
  {
    assert Run(s, []) == s;
    var k, size := 0, s.ring.msgsize;
    var r := SendUntilFull(s, s, s.pcs, s.ring.maxmsg, size, |s.ring.buf|, k, Repeat(0, size));
    var events :| Run(s, events) == r;
    assert Overruns(Run(s, events), 0);
  }

  /** A send leaves the buffer in some run, if and only if the buffer is smaller than all the slots together. */
  lemma OverrunIffShort(s: State)
    requires Created(s) && s.pcs != [] && |s.ring.buf| <= Offset(s.ring.maxmsg, s.ring.msgsize)
    ensures CanOverrun(s) == (|s.ring.buf| < Offset(s.ring.maxmsg, s.ring.msgsize))
  {
    if |s.ring.buf| < Offset(s.ring.maxmsg, s.ring.msgsize) {
      ShortOverruns(s);
    } else {
      InitialIsSafe(s);
    }
  }
}
