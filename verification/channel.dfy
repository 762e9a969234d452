/** The reactive multi-sender, single-consumer channel of
    src/reactive/channel.rs, as a sequential model of its shared state.
    Blocking sends, the condition variable and the background thread that
    runs the tasks are not modelled; the tasks a channel enqueues are kept in
    a log, and what the receiving callback does with a value is a parameter. */
module CushyChannel {
  import opened Common

  /** `TrySendError<T>`. */
  datatype TrySendError<T> = Full(value: T) | Disconnected(value: T)

  /** `ChannelTask`, as enqueued for the background executor. */
  datatype ChannelTask = Register(id: nat) | Notify(id: nat) | Unregister(id: nat)

  /** How the channel's callback answers one value: handled synchronously,
      with a future to run, or by disconnecting. */
  datatype CallbackAnswer = Handled | Async | Disconnect

  /** What `SendAsync::poll` returns. */
  datatype SendPoll<T> = Ready(unsent: Option<T>) | Pending

  /** The limit of a channel: its capacity when bounded, `usize::MAX` when
      unbounded. */
  function LimitFor(capacity: Option<Usize>): (r: Usize)
    ensures capacity.Some? ==> r == capacity.value
    ensures capacity.None? ==> r == USIZE_MAX
  {
    match capacity
    case Some(c) => c
    case None => USIZE_MAX
  }

  /** `ChannelData<T>` with its `SyncedChannelData<T>`. */
  class ChannelData<T(==)> {
    var queue: seq<T>
    const limit: Usize
    var instances: nat
    /** Wakers of pending `SendAsync` futures. */
    var wakers: seq<nat>
    /** Wakers woken so far, in order. */
    var woken: seq<nat>
    /** Whether the callback is still present. */
    var hasCallback: bool
    /** Values handed to the callback, in order. */
    var received: seq<T>
    /** Number of futures the callback returned. */
    var futures: nat
    /** Background tasks enqueued so far. */
    var tasks: seq<ChannelTask>
    /** The channel's id (`Arc::as_ptr` in the source). */
    const id: nat

    ghost predicate Valid()
      reads this
    {
      |queue| <= limit
    }

    /** `Channel::new` (through `bounded*` or `unbounded*`): one instance,
        an empty queue, and a `Register` task. */
    constructor(capacity: Option<Usize>, channelId: nat)
      ensures Valid()
      ensures limit == LimitFor(capacity) && id == channelId
      ensures queue == [] && instances == 1 && hasCallback && wakers == [] && woken == []
      ensures received == [] && futures == 0 && tasks == [Register(channelId)]
    {
      queue := [];
      limit := LimitFor(capacity);
      instances := 1;
      wakers := [];
      woken := [];
      hasCallback := true;
      received := [];
      futures := 0;
      tasks := [Register(channelId)];
      id := channelId;
    }

    predicate ShouldPoll()
      reads this
    {
      queue != [] && hasCallback
    }

    /** `try_send`: refused with `Disconnected` once the callback is gone,
        with `Full` when the queue has reached the limit; otherwise the value
        joins the back of the queue and a `Notify` task is enqueued when the
        queue was empty. */
    method TrySend(value: T) returns (r: Result<(), TrySendError<T>>)
      requires Valid()
      modifies this
      ensures Valid()
      ensures !old(hasCallback) ==> r == Err(Disconnected(value)) && queue == old(queue) && tasks == old(tasks)
      ensures old(hasCallback) && |old(queue)| >= limit ==> r == Err(Full(value)) && queue == old(queue) && tasks == old(tasks)
      ensures old(hasCallback) && |old(queue)| < limit ==>
        && r == Ok(())
        && queue == old(queue) + [value]
        && tasks == old(tasks) + (if old(queue) == [] then [Notify(id)] else [])
      ensures hasCallback == old(hasCallback) && instances == old(instances) && received == old(received)
      ensures wakers == old(wakers) && woken == old(woken) && futures == old(futures)
    {
      if !hasCallback {
        return Err(Disconnected(value));
      }
      if |queue| >= limit {
        return Err(Full(value));
      }
      var shouldNotify := queue == [];
      queue := queue + [value];
      if shouldNotify {
        tasks := tasks + [Notify(id)];
      }
      return Ok(());
    }

    /** `SendAsync::poll` for a future whose waker is `waker`: sends like
        `try_send`, but when the queue is full it registers the waker (once)
        and stays pending. */
    method PollSend(value: T, waker: nat) returns (r: SendPoll<T>)
      requires Valid()
      modifies this
      ensures Valid()
      ensures !old(hasCallback) ==> r == Ready(Some(value)) && queue == old(queue)
      ensures old(hasCallback) && |old(queue)| >= limit ==>
        && r == Pending && queue == old(queue)
        && wakers == if waker in old(wakers) then old(wakers) else old(wakers) + [waker]
      ensures old(hasCallback) && |old(queue)| < limit ==>
        r == Ready(None) && queue == old(queue) + [value] && wakers == old(wakers)
      ensures hasCallback == old(hasCallback) && instances == old(instances)
    {
      var sent := TrySend(value);
      match sent {
        case Ok(_) => r := Ready(None);
        case Err(Disconnected(v)) => r := Ready(Some(v));
        case Err(Full(v)) =>
          if waker !in wakers {
            wakers := wakers + [waker];
          }
          r := Pending;
      }
    }

    /** `Clone for Channel<T>`. */
    method CloneInstance()
      modifies this
      ensures instances == old(instances) + 1
      ensures queue == old(queue) && tasks == old(tasks) && hasCallback == old(hasCallback)
      ensures wakers == old(wakers) && woken == old(woken)
      ensures received == old(received) && futures == old(futures)
    {
      instances := instances + 1;
    }

    /** `Drop for Channel<T>`: the last instance unregisters the channel. */
    method DropInstance()
      requires instances > 0
      modifies this
      ensures instances == old(instances) - 1
      ensures tasks == old(tasks) + (if instances == 0 then [Unregister(id)] else [])
      ensures queue == old(queue) && hasCallback == old(hasCallback)
    {
      instances := instances - 1;
      if instances == 0 {
        tasks := tasks + [Unregister(id)];
      }
    }

    /** `AnyChannel::poll`: hands the oldest queued value to the callback and
        wakes every waiting sender. On an empty queue it only reports whether
        the channel can still receive. A disconnecting callback is removed
        and the channel reports that it is done. */
    method Poll(answer: T -> CallbackAnswer) returns (keep: bool)
      requires Valid()
      modifies this
      ensures Valid()
      ensures old(queue) == [] ==>
        && keep == (instances > 0 && hasCallback)
        && queue == [] && received == old(received) && hasCallback == old(hasCallback) && woken == old(woken)
      ensures old(queue) != [] ==>
        && queue == old(queue)[1..]
        && wakers == [] && woken == old(woken) + old(wakers)
        && received == old(received) + (if old(hasCallback) then [old(queue)[0]] else [])
        && hasCallback == (old(hasCallback) && answer(old(queue)[0]) != Disconnect)
        && futures == old(futures) + (if old(hasCallback) && answer(old(queue)[0]) == Async then 1 else 0)
        && keep == (!old(hasCallback) || answer(old(queue)[0]) != Disconnect)
      ensures instances == old(instances) && tasks == old(tasks)
    {
      if queue == [] {
        return instances > 0 && hasCallback;
      }
      var value := queue[0];
      queue := queue[1..];
      woken := woken + wakers;
      wakers := [];
      if hasCallback {
        received := received + [value];
        match answer(value) {
          case Handled =>
          case Async =>
            futures := futures + 1;
          case Disconnect =>
            hasCallback := false;
            return false;
        }
      }
      return true;
    }

    /** `AnyChannel::disconnect_callback`. */
    method DisconnectCallback()
      modifies this
      ensures !hasCallback
      ensures queue == old(queue) && instances == old(instances) && tasks == old(tasks)
    {
      hasCallback := false;
    }
  }

  /** Values sent to a channel are handed to its callback in the order they
      were sent; the first send notifies and the second does not. */
  method DeliversInOrder() returns (first: bool, second: bool, got: seq<int>, notified: seq<ChannelTask>)
    ensures first && second
    ensures got == [1, 2]
    ensures notified == [Register(7), Notify(7)]
  {
    var c := new ChannelData<int>(None, 7);
    var r1 := c.TrySend(1);
    var r2 := c.TrySend(2);
    first, second := r1.Ok?, r2.Ok?;
    var k1 := c.Poll(_ => Handled);
    var k2 := c.Poll(_ => Handled);
    got := c.received;
    notified := c.tasks;
  }

  /** A channel of capacity 1 refuses a second value until the first has
      been received; once its callback disconnects, sends are refused as
      disconnected. */
  method BoundedChannelScenario() returns (a: Result<(), TrySendError<int>>, b: Result<(), TrySendError<int>>,
                                           keep: bool, c: Result<(), TrySendError<int>>)
    ensures a == Ok(()) && b == Err(Full(2))
    ensures !keep && c == Err(Disconnected(3))
  {
    var ch := new ChannelData<int>(Some(1), 1);
    a := ch.TrySend(1);
    b := ch.TrySend(2);
    keep := ch.Poll(_ => Disconnect);
    c := ch.TrySend(3);
  }
}
