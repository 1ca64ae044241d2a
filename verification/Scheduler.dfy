/** The delay test of the LUFA scheduler: sixteen-bit tick counts that wrap around. */
module Scheduler {
  import opened Words

  const MAX_DELAYCTR_COUNT := 0xFFFF
  const TASK_MAX_DELAY := MAX_DELAYCTR_COUNT - 1

  type count = x: nat | x <= MAX_DELAYCTR_COUNT

  /** The delay the test sees between a remembered count and the current one. */
  function Seen(counter: count, tick: count): (d: nat) {
    if tick >= counter then tick - counter else MAX_DELAYCTR_COUNT - counter + tick
  }

  predicate Elapsed(delay: count, counter: count, tick: count) {
    Seen(counter, tick) >= delay
  }

  /** The count `time` ticks after `counter`. */
  function At(counter: count, time: nat): (tick: count)
  {
    (counter + time) % 0x1_0000
  }

  /** The counter has started over between the two. */
  predicate Wraps(counter: count, time: nat) {
    counter + time > MAX_DELAYCTR_COUNT
  }

  // ----- the test

  class Timer {
    var tickCounter: count

    constructor ()
      ensures tickCounter == 0
    {
      tickCounter := 0;
    }

    /** The clock interrupt. */
    method Tick()
      modifies this
      ensures tickCounter == At(old(tickCounter), 1)
    {
      tickCounter := if tickCounter == MAX_DELAYCTR_COUNT then 0 else tickCounter + 1;
    }
  }

  class DelayCounter {
    var count: count

    constructor (count: count)
      ensures this.count == count
    {
      this.count := count;
    }
  }

  /** Starts the next delay when the current one is over. */
  method HasDelayElapsed(timer: Timer, delay: count, counter: DelayCounter) returns (elapsed: bool)
    modifies counter
    ensures elapsed == Elapsed(delay, old(counter.count), timer.tickCounter)
    ensures counter.count == if elapsed then timer.tickCounter else old(counter.count)
  {
    var currentTickValue, delayCounter := timer.tickCounter, counter.count;
    if currentTickValue >= delayCounter {
      if currentTickValue - delayCounter >= delay {
        counter.count := currentTickValue;
        return true;
      }
    } else {
      if MAX_DELAYCTR_COUNT - delayCounter + currentTickValue >= delay {
        counter.count := currentTickValue;
        return true;
      }
    }
    return false;
  }

  // ----- its bounds

  /** Within one period the test sees the time that has passed, less one if the counter has wrapped. */
  lemma SeenTime(counter: count, time: nat)
    requires time <= MAX_DELAYCTR_COUNT
    ensures Seen(counter, At(counter, time)) == if Wraps(counter, time) then time - 1 else time
  {
    if Wraps(counter, time) {
      assert At(counter, time) == counter + time - 0x1_0000;
    }
  }

  /** Never early; at most one tick late, and that only across the wrap. */
  lemma DelayBounds(delay: count, counter: count, time: nat)
    requires time <= MAX_DELAYCTR_COUNT
    ensures Elapsed(delay, counter, At(counter, time)) ==> time >= delay
    ensures time > delay ==> Elapsed(delay, counter, At(counter, time))
    ensures time == delay && delay > 0 ==> (Elapsed(delay, counter, At(counter, time)) <==> !Wraps(counter, delay))
  {
    SeenTime(counter, time);
  }

  /** After a whole period the test sees the same again. */
  lemma Periodic(counter: count, time: nat)
    ensures At(counter, time + 0x1_0000) == At(counter, time)
  {
  }

  /** Whether polling at every tick ever succeeds. */
  ghost predicate EverElapses(delay: count, counter: count) {
    exists time: nat :: Elapsed(delay, counter, At(counter, time))
  }

  predicate ElapsesInPeriod(delay: count, counter: count) {
    exists time: nat :: time <= MAX_DELAYCTR_COUNT && Elapsed(delay, counter, At(counter, time))
  }

  lemma {:induction false} NeverElapses(counter: count, time: nat)
    requires counter > 0
    ensures !Elapsed(MAX_DELAYCTR_COUNT, counter, At(counter, time))
  {
    if time <= MAX_DELAYCTR_COUNT {
      SeenTime(counter, time);
    } else {
      NeverElapses(counter, time - 0x1_0000);
      Periodic(counter, time - 0x1_0000);
    }
  }

  /** A delay out of bounds is never over, unless it starts at count zero. */
  lemma OutOfBounds()
    ensures forall counter :: EverElapses(MAX_DELAYCTR_COUNT, counter) <==> counter == 0
  {
    forall counter ensures EverElapses(MAX_DELAYCTR_COUNT, counter) <==> counter == 0 {
      if counter == 0 {
        assert Elapsed(MAX_DELAYCTR_COUNT, 0, At(0, MAX_DELAYCTR_COUNT));
      } else {
        forall time: nat ensures !Elapsed(MAX_DELAYCTR_COUNT, counter, At(counter, time)) {
          NeverElapses(counter, time);
        }
      }
    }
  }

  /**
   Polled at every tick, the test succeeds within one period from every start if and only if the delay is in
   bounds.
   */
  lemma PollingExact(delay: count)
    ensures (forall counter :: ElapsesInPeriod(delay, counter)) <==> delay <= TASK_MAX_DELAY
  {
    if delay <= TASK_MAX_DELAY {
      forall counter ensures ElapsesInPeriod(delay, counter) {
        DelayBounds(delay, counter, delay + 1);
      }
    } else {
      OutOfBounds();
      assert !ElapsesInPeriod(delay, 1);
    }
  }

  /** The first tick, from the start of a delay on, at which polling succeeds. */
  function FirstElapsed(delay: count, counter: count): (time: nat) {
    if delay > 0 && Wraps(counter, delay) then delay + 1 else delay
  }

  /** A task that polls at every tick runs after exactly its delay, or one tick later if the counter has wrapped. */
  lemma PolledTask(delay: count, counter: count)
    requires delay <= TASK_MAX_DELAY
    ensures var first := FirstElapsed(delay, counter);
            && Elapsed(delay, counter, At(counter, first))
            && forall time: nat :: time < first ==> !Elapsed(delay, counter, At(counter, time))
  {
    var first := FirstElapsed(delay, counter);
    DelayBounds(delay, counter, first);
    forall time: nat | time < first ensures !Elapsed(delay, counter, At(counter, time)) {
      DelayBounds(delay, counter, time);
    }
  }

  /** When a polling task runs for the k-th time, from its first start at `counter` on. */
  function RunTime(delay: count, counter: count, k: nat): (time: nat) {
    if k == 0 then 0
    else RunTime(delay, counter, k - 1) + FirstElapsed(delay, At(counter, RunTime(delay, counter, k - 1)))
  }

  /** The time of k delays. */
  function Delays(delay: count, k: nat): (time: nat) {
    if k == 0 then 0 else Delays(delay, k - 1) + delay
  }

  lemma WrapsCounted(counter: count, time: nat, delay: count)
    requires 0 < delay <= TASK_MAX_DELAY
    ensures var first := FirstElapsed(delay, At(counter, time));
            first == delay + (counter + time + first) / 0x1_0000 - (counter + time) / 0x1_0000
  {
    var q, r := (counter + time) / 0x1_0000, (counter + time) % 0x1_0000;
    assert counter + time == 0x1_0000 * q + r;
  }

  /** Over any number of runs, a task falls behind by one tick each time the counter wraps, and by no more. */
  lemma {:induction false} TicksLost(delay: count, counter: count, k: nat)
    requires 0 < delay <= TASK_MAX_DELAY
    ensures var time := RunTime(delay, counter, k); time == Delays(delay, k) + (counter + time) / 0x1_0000
  {
    if k > 0 {
      TicksLost(delay, counter, k - 1);
      WrapsCounted(counter, RunTime(delay, counter, k - 1), delay);
    }
  }
}
