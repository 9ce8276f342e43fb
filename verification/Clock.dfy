/** The counter arithmetic, the monotonic clock and nanosleep of hxlib/time.c. */
module Clock {
  import opened CTypes
  import Shifts

  const NS_PER_SEC: nat := 1_000_000_000
  const NS_PER_MS: nat := 1_000_000
  const KERNEL_GRAN_NS: nat := 5_000_000
  const SAFETY_NS: nat := 2_000_000

  // ---------------------------------------------------------------- conversions in 64 bits

  function TscDeltaToNs(delta: nat, freq: nat): nat
    requires freq > 0
  {
    var sec, frac := delta / freq, delta % freq;
    var nsec := frac * NS_PER_SEC % TWO_64 / freq;
    (sec * NS_PER_SEC + nsec) % TWO_64
  }

  function NsToTicks(ns: nat, freq: nat): nat
  {
    var sec, nsec := ns / NS_PER_SEC, ns % NS_PER_SEC;
    (sec * freq + nsec * freq % TWO_64 / NS_PER_SEC) % TWO_64
  }

  /** Splitting off the whole part does not change the quotient: (q * b + r) * k / b == q * k + r * k / b. */
  lemma SplitQuotient(q: nat, b: nat, r: nat, k: nat)
    requires b > 0
    ensures (q * b + r) * k / b == q * k + r * k / b
  {
    var m := r * k / b;
    var rest := r * k - m * b;
    assert (q * b + r) * k == (q * k + m) * b + rest;
    Shifts.DivModUnique((q * b + r) * k, b, q * k + m, rest);
  }

  lemma Product(a: nat, b: nat, k: nat)
    requires a < b && b * k <= TWO_64 && k > 0
    ensures a * k < TWO_64 && a * k % TWO_64 == a * k
  {
    assert a * k < b * k;
  }

  lemma WrapsOnlyIfLarge(x: nat)
    ensures x % TWO_64 <= x && x % TWO_64 < TWO_64 && (x % TWO_64 == x <==> x < TWO_64)
  {
  }

  /** The nanoseconds of so many ticks, and the ticks of so many nanoseconds, rounded down. */
  function ExactNs(delta: nat, freq: nat): nat
    requires freq > 0
  {
    delta * NS_PER_SEC / freq
  }

  function ExactTicks(ns: nat, freq: nat): nat { ns * freq / NS_PER_SEC }

  /** For frequencies up to 18.4 GHz the nanoseconds are exact, if and only if they fit into 64 bits. */
  lemma NsExact(delta: nat, freq: nat)
    requires 0 < freq && freq * NS_PER_SEC <= TWO_64
    ensures TscDeltaToNs(delta, freq) == ExactNs(delta, freq) <==> ExactNs(delta, freq) < TWO_64
  {
    var sec, frac := delta / freq, delta % freq;
    Product(frac, freq, NS_PER_SEC);
    SplitQuotient(sec, freq, frac, NS_PER_SEC);
    assert delta == sec * freq + frac;
    var exact := sec * NS_PER_SEC + frac * NS_PER_SEC / freq;
    WrapsOnlyIfLarge(exact);
  }

  /** So are the ticks. */
  lemma TicksExact(ns: nat, freq: nat)
    requires 0 < freq && freq * NS_PER_SEC <= TWO_64
    ensures NsToTicks(ns, freq) == ExactTicks(ns, freq) <==> ExactTicks(ns, freq) < TWO_64
  {
    var sec, nsec := ns / NS_PER_SEC, ns % NS_PER_SEC;
    Product(nsec, NS_PER_SEC, freq);
    SplitQuotient(sec, NS_PER_SEC, nsec, freq);
    assert ns == sec * NS_PER_SEC + nsec;
    var exact := sec * freq + nsec * freq / NS_PER_SEC;
    WrapsOnlyIfLarge(exact);
  }

  // ---------------------------------------------------------------- the monotonic clock

  datatype Timespec = Timespec(sec: nat, nsec: nat)

  predicate NotLater(a: Timespec, b: Timespec) { a.sec < b.sec || (a.sec == b.sec && a.nsec <= b.nsec) }

  /** clock_gettime(CLOCK_MONOTONIC): the time since the counter read origin. */
  function Monotonic(now: nat, origin: nat, freq: nat): Timespec
    requires freq > 0
  {
    ToTimespec(TscDeltaToNs((now - origin) % TWO_64, freq))
  }

  lemma ExactGrows(a: nat, b: nat, freq: nat)
    requires a <= b && freq > 0
    ensures ExactNs(a, freq) <= ExactNs(b, freq)
  {
    FloorGrows(a * NS_PER_SEC, b * NS_PER_SEC, freq);
  }

  lemma FloorGrows(a: nat, b: nat, d: nat)
    requires a <= b && d > 0
    ensures a / d <= b / d
  {
    var p, q := a / d, b / d;
    assert p * d <= a && b < (q + 1) * d;
    if q < p {
      Shifts.MulMono(q + 1, p, d);
    }
  }

  /** Seconds and nanoseconds of a number of nanoseconds. */
  function ToTimespec(ns: nat): Timespec { Timespec(ns / NS_PER_SEC, ns % NS_PER_SEC) }

  lemma TimespecGrows(a: nat, b: nat)
    requires a <= b
    ensures NotLater(ToTimespec(a), ToTimespec(b))
    ensures ToTimespec(a).nsec < NS_PER_SEC && ToTimespec(a).sec * NS_PER_SEC + ToTimespec(a).nsec == a
  {
  }

  lemma MonotonicIsExact(now: nat, origin: nat, freq: nat)
    requires 0 < freq && freq * NS_PER_SEC <= TWO_64 && origin <= now < TWO_64 && ExactNs(now - origin, freq) < TWO_64
    ensures Monotonic(now, origin, freq) == ToTimespec(ExactNs(now - origin, freq))
  {
    WrapsOnlyIfLarge(now - origin);
    NsExact(now - origin, freq);
  }

  /** The clock never goes back while the counter does not, and it is the exact time, rounded down to nanoseconds. */
  lemma NeverGoesBack(origin: nat, now: nat, later: nat, freq: nat)
    requires 0 < freq && freq * NS_PER_SEC <= TWO_64
    requires origin <= now <= later < TWO_64 && ExactNs(later - origin, freq) < TWO_64
    ensures NotLater(Monotonic(now, origin, freq), Monotonic(later, origin, freq))
    ensures Monotonic(now, origin, freq) == ToTimespec(ExactNs(now - origin, freq))
  {
    var a, b := ExactNs(now - origin, freq), ExactNs(later - origin, freq);
    ExactGrows(now - origin, later - origin, freq);
    MonotonicIsExact(now, origin, freq);
    MonotonicIsExact(later, origin, freq);
    TimespecGrows(a, b);
  }

  // ---------------------------------------------------------------- nanosleep

  predicate Earlier(i: nat, j: nat) { i < j }

  /** What successive reads of the processor's counter give: 0 for a failed read, and otherwise more than before. */
  ghost predicate Growing(script: nat -> nat)
  {
    && (forall i: nat :: script(i) < TWO_64)
    && (forall i: nat, j: nat {:trigger Earlier(i, j)} | Earlier(i, j) && script(i) != 0 && script(j) != 0 :: script(i) < script(j))
  }

  /** How many milliseconds to sleep: all but 2 ms of what remains, rounded down to the kernel's 5 ms; 0 for none. */
  function CoarseSleep(remainingNs: nat): (ms: nat)
    ensures ms % 5 == 0 && (ms > 0 ==> ms * NS_PER_MS + SAFETY_NS <= remainingNs)
  {
    if remainingNs > KERNEL_GRAN_NS + SAFETY_NS then (remainingNs - SAFETY_NS) / NS_PER_MS % 0x1_0000_0000 / 5 * 5 else 0
  }

  /** The code sleeps when more than 7 ms remain and leaves 2 to 7 ms of them, as long as the milliseconds fit into the
      32 bits of the argument of Sleep. Beyond, it does not sleep at all exactly if fewer than 5 are left of them. */
  lemma CoarseSleepIs(remainingNs: nat)
    ensures remainingNs <= 7_000_000 ==> CoarseSleep(remainingNs) == 0
    ensures 7_000_000 < remainingNs < 4_294_967_298_000_000 ==>
      CoarseSleep(remainingNs) >= 5 && 2_000_000 <= remainingNs - CoarseSleep(remainingNs) * 1_000_000 < 7_000_000
    ensures remainingNs > 7_000_000 ==>
      (CoarseSleep(remainingNs) == 0 <==> (remainingNs - 2_000_000) / 1_000_000 % 0x1_0000_0000 < 5)
  {
    var q := (remainingNs - 2_000_000) / 1_000_000;
    if 7_000_000 < remainingNs < 4_294_967_298_000_000 {
      assert q < 0x1_0000_0000 && q % 0x1_0000_0000 == q;
    }
  }

  /** With 2^32 + 2 ms to go, which is 49.7 days, the code spins for all of it; with one millisecond less it sleeps. */
  lemma LongRestSpins()
    ensures CoarseSleep(4_294_967_298_000_000) == 0 && CoarseSleep(4_294_967_297_000_000) == 4_294_967_295
  {
  }

  /** The plan of nanosleep: the milliseconds to sleep when so many ticks remain. */
  function Plan(freq: nat): nat -> nat
    requires freq > 0
  {
    (remaining: nat) => CoarseSleep(TscDeltaToNs(remaining, freq))
  }

  /** With so many ticks gone by, the rest is too short for a sleep, and the call spins. */
  predicate Spins(plan: nat -> nat, target: nat, elapsed: nat)
  {
    elapsed < target && plan(target - elapsed) < 5
  }

  /** Within 2^32 ms the call sleeps exactly while more than 7 ms remain, and spins below. */
  lemma SpinsIs(freq: nat, target: nat, elapsed: nat)
    requires freq > 0 && elapsed < target && TscDeltaToNs(target - elapsed, freq) < 4_294_967_298_000_000
    ensures Spins(Plan(freq), target, elapsed) <==> TscDeltaToNs(target - elapsed, freq) <= 7_000_000
  {
    var remaining := target - elapsed;
    var ns := TscDeltaToNs(remaining, freq);
    CoarseSleepIs(ns);
    assert Plan(freq)(remaining) == CoarseSleep(ns);
  }

  /** One of the reads behind the first has made the call spin. */
  ghost predicate SpunBefore(script: nat -> nat, first: nat, last: nat, plan: nat -> nat, target: nat)
  {
    exists k | first < k < last :: script(k) >= script(first) && Spins(plan, target, script(k) - script(first))
  }

  /** The reads from first up to last are those of one call that had to wait for target ticks. */
  ghost predicate Waited(script: nat -> nat, first: nat, last: nat, plan: nat -> nat, target: nat, result: int)
  {
    && (result == 0 || result == -1)
    && first < last && (forall i | first <= i < last - 1 :: script(i) != 0)
    && (script(last - 1) != 0 ==> result == 0 && script(last - 1) - script(first) >= target)
    && (script(last - 1) == 0 ==> (result == 0 <==> SpunBefore(script, first, last - 1, plan, target)))
  }

  /** The reads from first up to last are those of a call that has neither ended nor begun to spin. */
  ghost predicate Waiting(script: nat -> nat, first: nat, last: nat, plan: nat -> nat, target: nat)
  {
    first < last && (forall i | first <= i < last :: script(i) != 0) && !SpunBefore(script, first, last, plan, target)
  }

  lemma StartsWaiting(script: nat -> nat, first: nat, next: nat, plan: nat -> nat, target: nat)
    requires script(first) != 0 && next == first + 1
    ensures Waiting(script, first, next, plan, target)
  {
  }

  /** One more read: it fails, it shows that the target has passed, or the call goes on sleeping. */
  lemma OneMoreRead(script: nat -> nat, first: nat, last: nat, next: nat, plan: nat -> nat, target: nat, elapsed: int)
    requires Growing(script) && Waiting(script, first, last, plan, target) && next == last + 1
    requires elapsed == script(last) - script(first)
    ensures script(last) == 0 ==> Waited(script, first, next, plan, target, -1)
    ensures script(last) != 0 ==>
      && script(last - 1) < script(last) < TWO_64 && 0 < elapsed && elapsed % TWO_64 == elapsed
      && (elapsed >= target ==> Waited(script, first, next, plan, target, 0))
      && (!Spins(plan, target, elapsed) ==> Waiting(script, first, next, plan, target))
  {
    assert Earlier(first, last) && Earlier(last - 1, last);
  }

  /** The reads from first up to last are those of one spin of target ticks. */
  ghost predicate Spun(script: nat -> nat, first: nat, last: nat, target: nat)
  {
    && first < last && (forall i | first <= i < last - 1 :: script(i) != 0)
    && (forall i | first < i < last - 1 :: script(i) - script(first) < target)
    && (script(last - 1) != 0 ==> first < last - 1 && script(last - 1) - script(first) >= target)
  }

  /** A spin that begins behind the last read ends well or with a failed read. */
  lemma SpinEnds(script: nat -> nat, first: nat, k: nat, spin: nat, plan: nat -> nat, target: nat, remaining: nat)
    requires spin == k + 1 && Growing(script) && Waiting(script, first, k, plan, target) && script(k) != 0
    requires remaining + (script(k) - script(first)) == target && 0 < remaining && plan(remaining) < 5
    ensures forall last: nat | Spun(script, spin, last, remaining) :: Waited(script, first, last, plan, target, 0)
  {
    assert Earlier(first, k) && Earlier(k, spin);
    assert Spins(plan, target, script(k) - script(first));
  }

  /** The milliseconds slept after the reads from first up to last: as planned after each, until one makes the call spin. */
  ghost function SleptBy(script: nat -> nat, first: nat, last: nat, plan: nat -> nat, target: nat): nat
  {
    if last <= first + 1 then 0
    else SleptBy(script, first, last - 1, plan, target) + NapAt(script, first, last - 1, plan, target)
  }

  ghost function NapAt(script: nat -> nat, first: nat, k: nat, plan: nat -> nat, target: nat): nat
  {
    var elapsed := script(k) - script(first);
    if script(k) == 0 || elapsed < 0 || elapsed >= target || SpunBefore(script, first, k + 1, plan, target) then 0
    else plan(target - elapsed)
  }

  lemma SpinsNext(script: nat -> nat, first: nat, last: nat, next: nat, plan: nat -> nat, target: nat, elapsed: int)
    requires Waiting(script, first, last, plan, target) && next == last + 1
    requires elapsed == script(last) - script(first) && 0 < elapsed
    ensures SpunBefore(script, first, next, plan, target) == Spins(plan, target, elapsed)
  {
    if Spins(plan, target, elapsed) {
      assert first < last < next && script(last) >= script(first);
    }
  }

  /** One more read, and the sleep after it. */
  lemma OneMoreNap(script: nat -> nat, first: nat, last: nat, next: nat, plan: nat -> nat, target: nat, elapsed: int)
    requires Waiting(script, first, last, plan, target) && next == last + 1
    requires elapsed == script(last) - script(first) && (script(last) != 0 ==> 0 < elapsed)
    ensures SleptBy(script, first, next, plan, target) == SleptBy(script, first, last, plan, target) +
      if script(last) == 0 || elapsed >= target || plan(target - elapsed) < 5 then 0 else plan(target - elapsed)
    ensures script(last) != 0 && elapsed < target && plan(target - elapsed) < 5 ==>
      SpunBefore(script, first, next, plan, target)
  {
    if script(last) != 0 {
      SpinsNext(script, first, last, next, plan, target, elapsed);
    }
  }

  /** The read and the sleep of one round of the loop. */
  lemma OneMoreRound(script: nat -> nat, first: nat, last: nat, next: nat, plan: nat -> nat, target: nat, elapsed: int)
    requires Growing(script) && Waiting(script, first, last, plan, target) && next == last + 1
    requires elapsed == script(last) - script(first)
    ensures script(last) == 0 ==> Waited(script, first, next, plan, target, -1)
    ensures script(last) != 0 ==>
      && script(last - 1) < script(last) < TWO_64 && 0 < elapsed && elapsed % TWO_64 == elapsed
      && (elapsed >= target ==> Waited(script, first, next, plan, target, 0))
      && (!Spins(plan, target, elapsed) ==> Waiting(script, first, next, plan, target))
    ensures SleptBy(script, first, next, plan, target) == SleptBy(script, first, last, plan, target) +
      if script(last) == 0 || elapsed >= target || plan(target - elapsed) < 5 then 0 else plan(target - elapsed)
    ensures script(last) != 0 && elapsed < target && plan(target - elapsed) < 5 ==>
      SpunBefore(script, first, next, plan, target)
  {
    OneMoreRead(script, first, last, next, plan, target, elapsed);
    OneMoreNap(script, first, last, next, plan, target, elapsed);
  }

  /** A call that has begun to spin does not sleep again. */
  lemma {:induction false} NoMoreNaps(script: nat -> nat, first: nat, next: nat, later: nat, plan: nat -> nat, target: nat)
    requires first < next <= later && SpunBefore(script, first, next, plan, target)
    ensures SleptBy(script, first, later, plan, target) == SleptBy(script, first, next, plan, target)
    decreases later
  {
    if next < later {
      NoMoreNaps(script, first, next, later - 1, plan, target);
      assert SpunBefore(script, first, later, plan, target);
    }
  }

  /** The machine under nanosleep: any script of counter reads. next is the read to come, slept the milliseconds slept. */
  class Machine {
    const script: nat -> nat
    var next: nat
    var slept: nat

    constructor (script: nat -> nat)
      ensures this.script == script && next == 0 && slept == 0
    {
      this.script, next, slept := script, 0, 0;
    }

    method ReadTsc() returns (now: nat)
      modifies this`next
      ensures now == script(old(next)) && next == old(next) + 1
    {
      now := script(next);
      next := next + 1;
    }

    /** The time that passes shows in the next read. */
    method Sleep(ms: nat)
      modifies this`slept
      ensures slept == old(slept) + ms
    {
      slept := slept + ms;
    }

    /** busy_wait_ticks: spins until so many ticks have passed since its own first read, or until a read fails. */
    method BusyWait(target: nat)
      requires Growing(script)
      modifies this`next
      ensures Spun(script, old(next), next, target)
    {
      var start := ReadTsc();
      if start == 0 {
        return;
      }
      while true
        invariant next > old(next) && forall i | old(next) <= i < next :: script(i) != 0
        invariant forall i | old(next) < i < next :: script(i) - start < target
        decreases TWO_64 - script(next - 1)
      {
        var now := ReadTsc();
        if now == 0 {
          return;
        }
        assert Earlier(next - 2, next - 1) && Earlier(old(next), next - 1);
        if (now - start) % TWO_64 >= target {
          return;
        }
      }
    }

    /** An invalid request is refused, and an empty one granted, without reading or sleeping. Of the reads made for any
        other request at most the last fails. If none does, the call succeeds, and the target has passed. If one does,
        the call fails, unless it was spinning: then it succeeds as well. The sleeps are those of the plan. */
    method Nanosleep(freq: nat, sec: int, nsec: int) returns (result: int)
      requires freq > 0 && Growing(script)
      modifies this
      ensures result == 0 || result == -1
      ensures sec < 0 || nsec < 0 || nsec >= NS_PER_SEC ==> result == -1 && next == old(next) && slept == old(slept)
      ensures sec >= 0 && 0 <= nsec < NS_PER_SEC ==>
        var total := (sec * NS_PER_SEC + nsec) % TWO_64;
        if total == 0 then result == 0 && next == old(next) && slept == old(slept)
        else
          && Waited(script, old(next), next, Plan(freq), NsToTicks(total, freq), result)
          && slept == old(slept) + SleptBy(script, old(next), next, Plan(freq), NsToTicks(total, freq))
    {
      if sec < 0 || nsec < 0 || nsec >= NS_PER_SEC {
        return -1;
      }
      var total := (sec * NS_PER_SEC + nsec) % TWO_64;
      if total == 0 {
        return 0;
      }
      var start := ReadTsc();
      if start == 0 {
        return -1;
      }
      var target := NsToTicks(total, freq);
      if target == 0 {
        return 0;
      }
      result := SleepUntil(Plan(freq), start, target, next - 1);
    }

    /** Spins for what remains after read k. */
    method SpinOut(ghost first: nat, ghost k: nat, ghost plan: nat -> nat, ghost target: nat, remaining: nat)
      requires next == k + 1 && Growing(script) && Waiting(script, first, k, plan, target) && script(k) != 0
      requires remaining + (script(k) - script(first)) == target && 0 < remaining && plan(remaining) < 5
      modifies this`next
      ensures Waited(script, first, next, plan, target, 0) && next > old(next)
    {
      SpinEnds(script, first, k, next, plan, target, remaining);
      BusyWait(remaining);
    }

    /** The loop: coarse sleeps while more than 7 ms remain, then spinning. */
    method SleepUntil(plan: nat -> nat, start: nat, target: nat, ghost first: nat) returns (result: int)
      requires Growing(script) && target > 0
      requires next == first + 1 && start == script(first) && start != 0
      modifies this
      ensures Waited(script, first, next, plan, target, result)
      ensures slept == old(slept) + SleptBy(script, first, next, plan, target)
    {
      StartsWaiting(script, first, next, plan, target);
      while true
        invariant next > 0 && Waiting(script, first, next, plan, target)
        invariant slept == old(slept) + SleptBy(script, first, next, plan, target)
        decreases TWO_64 - script(next - 1)
      {
        ghost var last := next;
        var now := ReadTsc();
        OneMoreRound(script, first, last, next, plan, target, now - start);
        if now == 0 {
          return -1;
        }
        var elapsed := (now - start) % TWO_64;
        if elapsed >= target {
          return 0;
        }
        var remaining := target - elapsed;
        var ms := plan(remaining);
        if ms >= 5 {
          Sleep(ms);
        } else {
          ghost var spin := next;
          SpinOut(first, last, plan, target, remaining);
          NoMoreNaps(script, first, spin, next, plan, target);
          return 0;
        }
      }
    }
  }

  // ---------------------------------------------------------------- sleeps and the deadline

  /** With so many ticks a millisecond, times 10^9, every sleep of the plan ends 2 ms before what remains. */
  ghost predicate Cautious(plan: nat -> nat, unit: nat)
  {
    forall remaining: nat | plan(remaining) > 0 :: (plan(remaining) + 2) * unit <= remaining * NS_PER_SEC
  }

  lemma PlanIsCautious(freq: nat, plan: nat -> nat)
    requires 0 < freq && freq * NS_PER_SEC <= TWO_64 && plan == Plan(freq)
    ensures Cautious(plan, NS_PER_MS * freq)
  {
    forall remaining: nat | plan(remaining) > 0
      ensures (plan(remaining) + 2) * (NS_PER_MS * freq) <= remaining * NS_PER_SEC
    {
      var ns := TscDeltaToNs(remaining, freq);
      NsBelow(remaining, freq, ns);
      NapBelow(CoarseSleep(ns), ns, freq);
    }
  }

  lemma NsBelow(remaining: nat, freq: nat, ns: nat)
    requires 0 < freq && freq * NS_PER_SEC <= TWO_64 && ns == TscDeltaToNs(remaining, freq)
    ensures ns * freq <= remaining * NS_PER_SEC
  {
    var exact := ExactNs(remaining, freq);
    NsWrap(remaining, freq);
    WrapsOnlyIfLarge(exact);
    Shifts.MulMono(ns, exact, freq);
  }

  lemma NapBelow(ms: nat, ns: nat, freq: nat)
    requires ms * NS_PER_MS + SAFETY_NS <= ns
    ensures (ms + 2) * (NS_PER_MS * freq) <= ns * freq
  {
    Shifts.MulMono((ms + 2) * NS_PER_MS, ns, freq);
    assert (ms + 2) * (NS_PER_MS * freq) == (ms + 2) * NS_PER_MS * freq;
  }

  lemma NsWrap(delta: nat, freq: nat)
    requires 0 < freq && freq * NS_PER_SEC <= TWO_64
    ensures TscDeltaToNs(delta, freq) == ExactNs(delta, freq) % TWO_64
  {
    var sec, frac := delta / freq, delta % freq;
    Product(frac, freq, NS_PER_SEC);
    SplitQuotient(sec, freq, frac, NS_PER_SEC);
    assert delta == sec * freq + frac;
  }

  /** Every sleep shows at most its milliseconds in the next read. */
  ghost predicate ShortSleeps(script: nat -> nat, first: nat, plan: nat -> nat, target: nat, unit: nat)
  {
    forall k: nat {:trigger NapAt(script, first, k, plan, target)} |
      first < k && NapAt(script, first, k, plan, target) > 0 && script(k + 1) != 0 ::
      (script(k + 1) - script(k)) * NS_PER_SEC <= NapAt(script, first, k, plan, target) * unit
  }

  /** Every sleep shows at least its milliseconds in the next read. */
  ghost predicate LongSleeps(script: nat -> nat, first: nat, plan: nat -> nat, target: nat, unit: nat)
  {
    forall k: nat {:trigger NapAt(script, first, k, plan, target)} |
      first < k && NapAt(script, first, k, plan, target) > 0 && script(k + 1) != 0 ::
      (script(k + 1) - script(k)) * NS_PER_SEC >= NapAt(script, first, k, plan, target) * unit
  }

  lemma Add2(a: int, b: int, unit: int)
    ensures (a + b + 2) * unit == a * unit + (b + 2) * unit && (a + b) * unit == a * unit + b * unit
  {
  }

  lemma NapPlanned(script: nat -> nat, first: nat, k: nat, plan: nat -> nat, target: nat)
    requires Waiting(script, first, k + 1, plan, target) && first < k
    ensures Waiting(script, first, k, plan, target)
    ensures script(k) >= script(first) && script(k) - script(first) < target ==>
      NapAt(script, first, k, plan, target) == plan(target - (script(k) - script(first))) >= 5
  {
    if script(k) >= script(first) && script(k) - script(first) < target {
      assert !Spins(plan, target, script(k) - script(first));
    }
  }

  /** As long as sleeps are no longer than planned, no sleep reaches the target: at least 2 ms are left to spin. */
  lemma {:induction false} CoarseEndsBefore(script: nat -> nat, first: nat, last: nat, plan: nat -> nat, target: nat, unit: nat)
    requires Growing(script) && Cautious(plan, unit) && unit > 0 && ShortSleeps(script, first, plan, target, unit)
    requires Waiting(script, first, last, plan, target) && script(last) != 0 && script(first + 1) - script(first) < target
    ensures script(last) - script(first) < target
    ensures last > first + 1 ==> (target - (script(last) - script(first))) * NS_PER_SEC >= 2 * unit
    decreases last
  {
    if last > first + 1 {
      var k := last - 1;
      NapPlanned(script, first, k, plan, target);
      CoarseEndsBefore(script, first, k, plan, target, unit);
      assert Earlier(first, k);
      var left, nap := target - (script(k) - script(first)), NapAt(script, first, k, plan, target);
      Overslept(script(last) - script(k), nap, left, unit);
    }
  }

  lemma Overslept(passed: int, nap: nat, left: nat, unit: nat)
    requires unit > 0 && passed * NS_PER_SEC <= nap * unit && (nap + 2) * unit <= left * NS_PER_SEC
    ensures passed < left && (left - passed) * NS_PER_SEC >= 2 * unit
  {
    Add2(nap, 0, unit);
  }

  /** So a call that succeeds without a failed read has spun, unless its first read in the loop already showed the target. */
  lemma SpinsToTarget(script: nat -> nat, first: nat, last: nat, freq: nat, target: nat)
    requires 0 < freq && freq * NS_PER_SEC <= TWO_64 && Growing(script) && target > 0
    requires ShortSleeps(script, first, Plan(freq), target, NS_PER_MS * freq)
    requires Waited(script, first, last, Plan(freq), target, 0) && script(last - 1) != 0
    ensures SpunBefore(script, first, last - 1, Plan(freq), target) || script(first + 1) - script(first) >= target
  {
    var plan := Plan(freq);
    PlanIsCautious(freq, plan);
    if !SpunBefore(script, first, last - 1, plan, target) && script(first + 1) - script(first) < target {
      CoarseEndsBefore(script, first, last - 1, plan, target, NS_PER_MS * freq);
    }
  }

  lemma NapWithin(script: nat -> nat, first: nat, k: nat, plan: nat -> nat, target: nat, unit: nat, nap: nat, elapsed: nat)
    requires Cautious(plan, unit) && nap == NapAt(script, first, k, plan, target) && elapsed == script(k) - script(first)
    ensures nap == 0 || (nap + 2) * unit <= (target - elapsed) * NS_PER_SEC
  {
  }

  lemma NapShown(script: nat -> nat, first: nat, k: nat, plan: nat -> nat, target: nat, unit: nat, nap: nat, passed: nat)
    requires LongSleeps(script, first, plan, target, unit) && nap == NapAt(script, first, k, plan, target)
    requires first < k && script(k + 1) != 0 && passed == script(k + 1) - script(k)
    ensures nap == 0 || nap * unit <= passed * NS_PER_SEC
  {
  }

  /** What has been slept before read k has shown in read k. */
  lemma {:induction false} SleptShown(script: nat -> nat, first: nat, k: nat, plan: nat -> nat, target: nat, unit: nat)
    requires Growing(script) && LongSleeps(script, first, plan, target, unit)
    requires first <= k && forall i | first <= i <= k :: script(i) != 0
    ensures script(first) <= script(k)
    ensures SleptBy(script, first, k, plan, target) * unit <= (script(k) - script(first)) * NS_PER_SEC
    decreases k
  {
    if k > first {
      assert Earlier(k - 1, k) && Earlier(first, k);
      SleptShown(script, first, k - 1, plan, target, unit);
      var elapsed, passed := script(k) - script(first), script(k) - script(k - 1);
      if k > first + 1 {
        var nap := NapAt(script, first, k - 1, plan, target);
        NapShown(script, first, k - 1, plan, target, unit, nap, passed);
        Shown(SleptBy(script, first, k - 1, plan, target), nap, elapsed - passed, passed, unit);
      }
    }
  }

  /** So it stays 2 ms below the target. */
  lemma {:induction false} SleptSoFar(script: nat -> nat, first: nat, last: nat, plan: nat -> nat, target: nat, unit: nat)
    requires Growing(script) && Cautious(plan, unit) && LongSleeps(script, first, plan, target, unit)
    requires first < last && forall i | first <= i < last :: script(i) != 0
    ensures var slept := SleptBy(script, first, last, plan, target);
      slept == 0 || (slept + 2) * unit <= target * NS_PER_SEC
    decreases last
  {
    if last > first + 1 {
      var k := last - 1;
      SleptSoFar(script, first, k, plan, target, unit);
      SleptShown(script, first, k, plan, target, unit);
      var next, elapsed := NapAt(script, first, k, plan, target), script(k) - script(first);
      NapWithin(script, first, k, plan, target, unit, next, elapsed);
      StaysWithin(SleptBy(script, first, k, plan, target), next, elapsed, target, unit);
    }
  }

  lemma StaysWithin(slept: nat, nap: nat, elapsed: nat, target: nat, unit: nat)
    requires slept * unit <= elapsed * NS_PER_SEC && (slept == 0 || (slept + 2) * unit <= target * NS_PER_SEC)
    requires nap == 0 || (nap + 2) * unit <= (target - elapsed) * NS_PER_SEC
    ensures slept + nap == 0 || (slept + nap + 2) * unit <= target * NS_PER_SEC
  {
    Add2(slept, nap, unit);
  }

  lemma Shown(before: nat, nap: nat, elapsed: nat, passed: nat, unit: nat)
    requires before * unit <= elapsed * NS_PER_SEC && (nap == 0 || nap * unit <= passed * NS_PER_SEC)
    ensures (before + nap) * unit <= (elapsed + passed) * NS_PER_SEC
  {
    Add2(before, nap, unit);
  }

  lemma SleptByCall(script: nat -> nat, first: nat, last: nat, plan: nat -> nat, target: nat, unit: nat)
    requires Growing(script) && Cautious(plan, unit) && LongSleeps(script, first, plan, target, unit)
    requires first < last && forall i | first <= i < last - 1 :: script(i) != 0
    ensures var slept := SleptBy(script, first, last, plan, target);
      slept == 0 || (slept + 2) * unit <= target * NS_PER_SEC
  {
    if script(last - 1) != 0 {
      SleptSoFar(script, first, last, plan, target, unit);
    } else if last > first + 1 {
      SleptSoFar(script, first, last - 1, plan, target, unit);
      assert NapAt(script, first, last - 1, plan, target) == 0;
    }
  }

  /** As long as sleeps are no shorter than planned, a call sleeps 2 ms less than its target, or not at all. */
  lemma SleptWithin(script: nat -> nat, first: nat, last: nat, freq: nat, target: nat, result: int)
    requires 0 < freq && freq * NS_PER_SEC <= TWO_64 && Growing(script)
    requires LongSleeps(script, first, Plan(freq), target, NS_PER_MS * freq)
    requires Waited(script, first, last, Plan(freq), target, result)
    ensures var slept := SleptBy(script, first, last, Plan(freq), target);
      slept == 0 || (slept + 2) * (NS_PER_MS * freq) <= target * NS_PER_SEC
  {
    var plan, unit := Plan(freq), NS_PER_MS * freq;
    PlanIsCautious(freq, plan);
    SleptByCall(script, first, last, plan, target, unit);
  }

  lemma FailedSpin(script: nat -> nat, last: nat, plan: nat -> nat, target: nat, result: int)
    requires 0 < script(0) < script(1) && script(2) == 0 && Spins(plan, target, script(1) - script(0))
    requires Waited(script, 0, last, plan, target, result)
    ensures result == 0 && last == 3
  {
  }

  lemma ShortRest()
    ensures NsToTicks(1_000_000, 1_000_000_000) == 1_000_000 && Plan(1_000_000_000)(999_000) == 0
  {
  }

  /** At 1 GHz a call is to wait a millisecond, or 1000000 ticks. It succeeds, although no read has shown more than 1000
      ticks: the third read fails, and by then it spins. */
  method EarlySuccess() returns (m: Machine, result: int)
    ensures result == 0 && m.next == 3 && NsToTicks(1_000_000, 1_000_000_000) == 1_000_000
    ensures m.script(0) == 1000 && m.script(1) == 2000 && m.script(2) == 0
  {
    var script: nat -> nat := i => if i == 0 then 1000 else if i == 1 then 2000 else 0;
    m := new Machine(script);
    var freq, sec, nsec, target := 1_000_000_000, 0, 1_000_000, 1_000_000;
    ShortRest();
    result := m.Nanosleep(freq, sec, nsec);
    FailedSpin(script, m.next, Plan(freq), target, result);
  }

  // ---------------------------------------------------------------- the request as ticks

  lemma TicksWrap(ns: nat, freq: nat)
    requires 0 < freq && freq * NS_PER_SEC <= TWO_64
    ensures NsToTicks(ns, freq) == ExactTicks(ns, freq) % TWO_64
  {
    var sec, nsec := ns / NS_PER_SEC, ns % NS_PER_SEC;
    Product(nsec, NS_PER_SEC, freq);
    SplitQuotient(sec, NS_PER_SEC, nsec, freq);
    assert ns == sec * NS_PER_SEC + nsec;
  }

  /** Taking away 2^64 nanoseconds takes away ticks, whatever the frequency. */
  lemma WrapLosesTicks(total: nat, freq: nat)
    requires freq > 0 && total >= TWO_64
    ensures ExactTicks(total % TWO_64, freq) < ExactTicks(total, freq)
  {
    var w := total % TWO_64;
    assert w + TWO_64 <= total;
    Shifts.MulMono(w + TWO_64, total, freq);
    Shifts.MulMono(1, freq, TWO_64);
    FloorGrows(w * freq + NS_PER_SEC, total * freq, NS_PER_SEC);
    Shifts.DivModUnique(w * freq + NS_PER_SEC, NS_PER_SEC, ExactTicks(w, freq) + 1, w * freq % NS_PER_SEC);
  }

  /** The target of nanosleep is the exact request, rounded down to ticks, if and only if neither the nanoseconds nor the
      ticks leave 64 bits. Otherwise it is less. */
  lemma TargetIsExact(total: nat, freq: nat)
    requires 0 < freq && freq * NS_PER_SEC <= TWO_64
    ensures NsToTicks(total % TWO_64, freq) == ExactTicks(total, freq) <==>
            total < TWO_64 && ExactTicks(total, freq) < TWO_64
    ensures NsToTicks(total % TWO_64, freq) <= ExactTicks(total, freq)
  {
    var kept, wrapped := total % TWO_64, ExactTicks(total % TWO_64, freq);
    WrapsOnlyIfLarge(total);
    TicksWrap(kept, freq);
    WrapsOnlyIfLarge(wrapped);
    if total >= TWO_64 {
      WrapLosesTicks(total, freq);
    }
  }

  /** At 500 MHz a request for 18446744074 seconds, which is 584 years, waits for 0.29 seconds. */
  lemma WrappedRequest()
    ensures NsToTicks(18_446_744_074 * NS_PER_SEC % TWO_64, 500_000_000) == 145_224_192
    ensures ExactTicks(18_446_744_074 * NS_PER_SEC, 500_000_000) == 9_223_372_037_000_000_000
  {
  }
}
