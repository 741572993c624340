/** The two message queues of the 05-queues program, seen only through the
    outcomes its tasks react to: a fixed-capacity FIFO whose non-blocking send
    fails when it is full and whose non-blocking receive fails when it is
    empty. Messages are copied in by value. */
module Queues {
  import opened CText

  /** Capacity of queue1, which carries delay values from the console task. */
  const CONSOLE_TASK_QUEUE_SIZE: nat := 3
  /** Capacity of queue2, which carries status texts from the blink task. */
  const WORK_TASK_QUEUE_SIZE: nat := 3

  /** One send on a queue holding `items`: accepted exactly when there is room,
      and then appended behind everything already queued. */
  function Send<T>(items: seq<T>, capacity: nat, x: T): (r: (seq<T>, bool))
    ensures r.1 <==> |items| < capacity
    ensures r.1 ==> r.0 == items + [x]
    ensures !r.1 ==> r.0 == items
  {
    if |items| < capacity then (items + [x], true) else (items, false)
  }

  /** The outcome of a sequence of sends with no receive in between: the queue
      after them and the result of each send. */
  function SendEach<T>(items: seq<T>, capacity: nat, xs: seq<T>): (r: (seq<T>, seq<bool>))
    ensures |r.1| == |xs|
    decreases |xs|
  {
    if xs == [] then (items, [])
    else
      var (q, ok) := Send(items, capacity, xs[0]);
      var (q', oks) := SendEach(q, capacity, xs[1..]);
      (q', [ok] + oks)
  }

  /** Sending more messages than there is room for keeps exactly the first ones
      that fit, in send order, and makes every later send fail. */
  lemma {:induction false} SendEachKeepsFirst<T>(items: seq<T>, capacity: nat, xs: seq<T>)
    requires |items| <= capacity
    ensures var room := Min(|xs|, capacity - |items|);
            SendEach(items, capacity, xs).0 == items + xs[..room]
            && forall i :: 0 <= i < |xs| ==> SendEach(items, capacity, xs).1[i] == (i < room)
    decreases |xs|
  {
    if xs != [] {
      var (q, ok) := Send(items, capacity, xs[0]);
      SendEachKeepsFirst(q, capacity, xs[1..]);
      var room := Min(|xs|, capacity - |items|);
      if ok {
        assert q + xs[1..][..room - 1] == items + xs[..room];
      } else {
        assert room == 0;
      }
      var oks := SendEach(items, capacity, xs).1;
      forall i | 0 <= i < |xs|
        ensures oks[i] == (i < room)
      {
        if i > 0 {
          assert oks[i] == SendEach(q, capacity, xs[1..]).1[i - 1];
        }
      }
    }
  }

  /** Both queues hold three messages: with no receive in between, four
      sends to an empty queue keep the first three and refuse the fourth. */
  lemma FourthSendRefused<T>(a: T, b: T, c: T, d: T)
    ensures SendEach([], CONSOLE_TASK_QUEUE_SIZE, [a, b, c, d]) == ([a, b, c], [true, true, true, false])
    ensures SendEach([], WORK_TASK_QUEUE_SIZE, [a, b, c, d]) == ([a, b, c], [true, true, true, false])
  {
    var xs := [a, b, c, d];
    SendEachKeepsFirst([], CONSOLE_TASK_QUEUE_SIZE, xs);
    var r := SendEach([], CONSOLE_TASK_QUEUE_SIZE, xs);
    assert r.0 == [] + xs[..3] == [a, b, c];
    assert r.1 == [true, true, true, false];
  }

  /** A non-blocking receive from a queue holding `items`: the oldest message,
      or nothing when the queue is empty. */
  function Receive<T>(items: seq<T>): (r: (Option<T>, seq<T>))
    ensures r.0.Some? <==> items != []
    ensures r.0.Some? ==> [r.0.value] + r.1 == items
    ensures r.0.None? ==> r.1 == items
  {
    if items == [] then (None, items) else (Some(items[0]), items[1..])
  }

  /** A message sent to a queue with room is received after everything that
      was already waiting in it. */
  lemma {:induction false} ReceiveInSendOrder<T>(items: seq<T>, capacity: nat, x: T)
    requires |items| < capacity
    ensures var q := Send(items, capacity, x).0;
            Receive(q).0 == Some(if items == [] then x else items[0])
            && (items != [] ==> Receive(q).1 == Send(Receive(items).1, capacity, x).0)
  {
    if items != [] {
      assert (items + [x])[1..] == items[1..] + [x];
    }
  }

  class BoundedQueue<T> {
    var items: seq<T>
    const capacity: nat

    ghost predicate Valid()
      reads this
    {
      |items| <= capacity
    }

    /** A queue created with room for `capacity` messages. */
    constructor (capacity: nat)
      ensures Valid()
      ensures this.capacity == capacity && items == []
    {
      this.capacity := capacity;
      items := [];
    }

    /** Non-blocking send: fails and drops `x` when the queue is full. */
    method TrySend(x: T) returns (ok: bool)
      requires Valid()
      modifies this
      ensures Valid()
      ensures (items, ok) == Send(old(items), capacity, x)
    {
      ok := |items| < capacity;
      if ok {
        items := items + [x];
      }
    }

    /** Non-blocking receive: fails, changing nothing, when the queue is empty. */
    method TryReceive() returns (r: Option<T>)
      requires Valid()
      modifies this
      ensures Valid()
      ensures (r, items) == Receive(old(items))
    {
      if items == [] {
        r := None;
      } else {
        r := Some(items[0]);
        items := items[1..];
      }
    }
  }
}
