/** The blink task of the 05-queues program (TaskB): once per blink cycle it
    polls queue1 for a new interval, clamps it into [MIN_DELAY, MAX_DELAY],
    blinks the LED once with that interval, counts the cycle in a uint32_t and,
    every COUNTER_INTERVAL cycles, offers a "Blink counter : N" text to queue2. */
module QueueBlink {
  import opened CText
  import opened Bounds
  import opened Queues

  const MIN_DELAY: int := 1
  const MAX_DELAY: int := 10000
  const COUNTER_INTERVAL: nat := 100
  const INITIAL_INTERVAL: u32 := 1000
  /** Size of the message buffer `msg`, terminating NUL included. */
  const MSG_SIZE: nat := 81

  const NOTIFICATION_PREFIX: seq<byte> := Bytes("Blink counter : ")

  /** The counter after one increment of a uint32_t. */
  function NextCounter(counter: u32): (r: u32)
    ensures r == counter + 1 || (counter == U32_MAX && r == 0)
  {
    (counter + 1) % U32_MODULUS
  }

  /** The text `sprintf(msg, "Blink counter : %u", counter)` writes. It fits
      the 81-byte message buffer with its NUL, and the counter can be read
      back from it. */
  function Notification(counter: u32): (msg: seq<byte>)
    ensures |msg| < MSG_SIZE
    ensures |msg| > |NOTIFICATION_PREFIX| && msg[..|NOTIFICATION_PREFIX|] == NOTIFICATION_PREFIX
    ensures AllDigits(msg[|NOTIFICATION_PREFIX|..])
    ensures DigitsValue(msg[|NOTIFICATION_PREFIX|..]) == counter
  {
    DecimalLength(counter, 10);
    DecimalRoundTrip(counter);
    var msg := NOTIFICATION_PREFIX + Decimal(counter);
    assert msg[|NOTIFICATION_PREFIX|..] == Decimal(counter);
    msg
  }

  /** What happened to the status text of one cycle. */
  datatype Notice =
    | Silent                      // the counter is not a multiple of COUNTER_INTERVAL
    | Queued(msg: seq<byte>)      // offered to queue2 and accepted
    | Dropped(msg: seq<byte>)     // offered to queue2, which was full: logged as an error

  /** The interval after one poll of queue1 that received `received`. */
  function ApplyCommand(interval: u32, received: Option<u32>): (r: u32)
    ensures received.None? ==> r == interval
    ensures received.Some? ==> MIN_DELAY <= r <= MAX_DELAY
    ensures received.Some? && MIN_DELAY <= received.value <= MAX_DELAY ==> r == received.value
    ensures received.Some? && received.value < MIN_DELAY ==> r == MIN_DELAY
    ensures received.Some? && received.value > MAX_DELAY ==> r == MAX_DELAY
  {
    match received
    case None => interval
    case Some(v) => Clamp(v, MIN_DELAY, MAX_DELAY)
  }

  /** The interval after a run of cycles whose polls of queue1 received `polls`. */
  function IntervalAfter(interval: u32, polls: seq<Option<u32>>): u32
    decreases |polls|
  {
    if polls == [] then interval else IntervalAfter(ApplyCommand(interval, polls[0]), polls[1..])
  }

  /** The most recent value received in a run of polls, if any. */
  function LatestCommand(polls: seq<Option<u32>>): Option<u32>
    decreases |polls|
  {
    if polls == [] then None
    else if polls[|polls| - 1].Some? then polls[|polls| - 1]
    else LatestCommand(polls[..|polls| - 1])
  }

  lemma {:induction false} IntervalAfterSnoc(interval: u32, polls: seq<Option<u32>>, p: Option<u32>)
    ensures IntervalAfter(interval, polls + [p]) == ApplyCommand(IntervalAfter(interval, polls), p)
    decreases |polls|
  {
    if polls != [] {
      assert (polls + [p])[1..] == polls[1..] + [p];
      IntervalAfterSnoc(ApplyCommand(interval, polls[0]), polls[1..], p);
    }
  }

  /** Across any run of cycles the interval is the clamped value of the latest
      command received, or the one it started with when none arrived; so,
      starting from INITIAL_INTERVAL, it never leaves [MIN_DELAY, MAX_DELAY]. */
  lemma {:induction false} IntervalIsLatestCommand(interval: u32, polls: seq<Option<u32>>)
    ensures LatestCommand(polls).None? ==> IntervalAfter(interval, polls) == interval
    ensures LatestCommand(polls).Some? ==>
      IntervalAfter(interval, polls) == Clamp(LatestCommand(polls).value, MIN_DELAY, MAX_DELAY)
    ensures MIN_DELAY <= interval <= MAX_DELAY ==> MIN_DELAY <= IntervalAfter(interval, polls) <= MAX_DELAY
    decreases |polls|
  {
    if polls != [] {
      var init := polls[..|polls| - 1];
      var last := polls[|polls| - 1];
      assert polls == init + [last];
      IntervalAfterSnoc(interval, init, last);
      IntervalIsLatestCommand(interval, init);
    }
  }

  /** The counter after k cycles. */
  function CounterAfter(counter: u32, k: nat): u32
    decreases k
  {
    if k == 0 then counter else CounterAfter(NextCounter(counter), k - 1)
  }

  /** Each cycle adds exactly one to the counter, modulo 2^32. */
  lemma {:induction false} CounterCountsCycles(counter: u32, k: nat)
    ensures CounterAfter(counter, k) == (counter + k) % U32_MODULUS
    decreases k
  {
    if k > 0 {
      CounterCountsCycles(NextCounter(counter), k - 1);
    }
  }

  /** The counter values that the notifications of k cycles carry, in order. */
  function NotifiedCounters(counter: u32, k: nat): seq<u32>
    decreases k
  {
    if k == 0 then []
    else
      var next := NextCounter(counter);
      (if next % COUNTER_INTERVAL == 0 then [next] else []) + NotifiedCounters(next, k - 1)
  }

  /** Without wrap-around, the cycles from counter c to c + k notify once for
      every multiple of COUNTER_INTERVAL in (c, c + k], each carrying that
      multiple. From a fresh counter: exactly one notification in the first
      COUNTER_INTERVAL cycles, carrying COUNTER_INTERVAL. */
  lemma {:induction false} NotificationCadence(counter: u32, k: nat)
    requires counter + k <= U32_MAX
    ensures |NotifiedCounters(counter, k)| == (counter + k) / 100 - counter / 100
    ensures forall i :: 0 <= i < |NotifiedCounters(counter, k)| ==>
      NotifiedCounters(counter, k)[i] == 100 * (counter / 100 + i + 1)
    decreases k
  {
    if k > 0 {
      var next := NextCounter(counter);
      assert next == counter + 1;
      NotificationCadence(next, k - 1);
      var rest := NotifiedCounters(next, k - 1);
      if next % 100 == 0 {
        assert next / 100 == counter / 100 + 1;
        assert NotifiedCounters(counter, k) == [next] + rest;
      } else {
        assert next / 100 == counter / 100;
        assert NotifiedCounters(counter, k) == rest;
      }
    }
  }

  /** The notifications of a run of cycles are those of its first j cycles
      followed by those of the rest. */
  lemma {:induction false} NotifiedCountersSplit(counter: u32, j: nat, k: nat)
    ensures NotifiedCounters(counter, j + k)
            == NotifiedCounters(counter, j) + NotifiedCounters(CounterAfter(counter, j), k)
    decreases j
  {
    if j == 0 {
      assert [] + NotifiedCounters(counter, k) == NotifiedCounters(counter, k);
    } else {
      var next := NextCounter(counter);
      NotifiedCountersSplit(next, j - 1, k);
      assert j + k - 1 == (j - 1) + k;
    }
  }

  /** 2^32 is not a multiple of COUNTER_INTERVAL, so the wrap-around breaks the
      cadence: after the notification carrying 4294967200 the next one comes
      96 cycles later, when the counter wraps to 0, not 100 cycles later. */
  lemma WrapNotifiesEarly()
    ensures NotifiedCounters(4294967200, 95) == []
    ensures NotifiedCounters(4294967200, 96) == [0]
  {
    NotificationCadence(4294967200, 95);
    NotifiedCountersSplit(4294967200, 95, 1);
    CounterCountsCycles(4294967200, 95);
    assert NotifiedCounters(U32_MAX, 1) == [0] + NotifiedCounters(0, 0);
  }

  class BlinkTask {
    /** Half period of the blink, in ticks. */
    var interval: u32
    /** Completed blink cycles, modulo 2^32. */
    var counter: u32

    ghost predicate Valid()
      reads this
    {
      MIN_DELAY <= interval <= MAX_DELAY
    }

    constructor ()
      ensures Valid()
      ensures interval == INITIAL_INTERVAL && counter == 0
    {
      interval := INITIAL_INTERVAL;
      counter := 0;
    }

    /** One pass of the task loop: the poll of queue1, the counter step and
        the status notice. Switching the LED on and off and the two delays of
        `interval` ticks between are not modelled. */
    method Cycle(commands: BoundedQueue<u32>, notices: BoundedQueue<seq<byte>>) returns (notice: Notice)
      requires Valid() && commands.Valid() && notices.Valid()
      modifies this, commands, notices
      ensures Valid() && commands.Valid() && notices.Valid()
      ensures var (received, rest) := Receive(old(commands.items));
              commands.items == rest && interval == ApplyCommand(old(interval), received)
      ensures counter == NextCounter(old(counter))
      ensures counter % COUNTER_INTERVAL != 0 ==> notice == Silent && notices.items == old(notices.items)
      ensures counter % COUNTER_INTERVAL == 0 ==>
        var (queued, ok) := Send(old(notices.items), notices.capacity, Notification(counter));
        notices.items == queued
        && notice == (if ok then Queued(Notification(counter)) else Dropped(Notification(counter)))
    {
      var received := commands.TryReceive();
      if received.Some? {
        var v := received.value;
        if v < MIN_DELAY {
          interval := MIN_DELAY;
        } else if v > MAX_DELAY {
          interval := MAX_DELAY;
        } else {
          interval := v;
        }
      }
      counter := (counter + 1) % U32_MODULUS;
      notice := Silent;
      if counter % COUNTER_INTERVAL == 0 {
        var msg := Notification(counter);
        var ok := notices.TrySend(msg);
        notice := if ok then Queued(msg) else Dropped(msg);
      }
    }
  }
}
