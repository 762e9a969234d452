/** Callback handles, change-callback execution and the futures slot
    allocator of src/reactive.rs, as a sequential model. The background
    executor thread and its message channel are not modelled; a callback is
    named by its `LotId`, and whether invoking it reports
    `CallbackDisconnected` (or whether polling a future completes it) is a
    parameter. Instants are natural numbers. */
module CushyReactive {
  import opened Common

  // ---------------------------------------------------------------------
  // Callback handles

  /** `CallbackKind`: a channel handle (named by its channel) or the data of
      a value-callback handle: the callback's id (cleared by `persist`), the
      owning dynamic kept alive (cleared by `forget_owners`) and the
      collection it is registered in. */
  datatype CallbackKind =
    | ChannelKind(channel: nat)
    | ValueKind(id: Option<nat>, owner: Option<nat>, collection: nat)

  /** `CallbackHandleInner`. */
  datatype CallbackHandle = NoHandle | Single(kind: CallbackKind) | Multi(kinds: seq<CallbackKind>)

  /** Equality of callback kinds: value handles compare their id and their
      collection, never their owner. */
  predicate KindEq(a: CallbackKind, b: CallbackKind)
  {
    match (a, b)
    case (ChannelKind(x), ChannelKind(y)) => x == y
    case (ValueKind(i, _, c), ValueKind(j, _, d)) => i == j && c == d
    case _ => false
  }

  /** `PartialEq for CallbackHandle`: only handles of the same shape can be
      equal; multi handles compare element by element. */
  predicate HandleEq(a: CallbackHandle, b: CallbackHandle)
  {
    match (a, b)
    case (NoHandle, NoHandle) => true
    case (Single(x), Single(y)) => KindEq(x, y)
    case (Multi(xs), Multi(ys)) => |xs| == |ys| && forall i | 0 <= i < |xs| :: KindEq(xs[i], ys[i])
    case _ => false
  }

  lemma HandleEqIsEquivalence(a: CallbackHandle, b: CallbackHandle, c: CallbackHandle)
    ensures HandleEq(a, a)
    ensures HandleEq(a, b) ==> HandleEq(b, a)
    ensures HandleEq(a, b) && HandleEq(b, c) ==> HandleEq(a, c)
  {
  }

  /** A single handle never equals a multi handle, even one holding the same
      single kind. */
  lemma SingleIsNotMulti(k: CallbackKind)
    ensures !HandleEq(Single(k), Multi([k]))
    ensures !HandleEq(NoHandle, Multi([]))
  {
  }

  /** The kinds a handle holds, in order. */
  function Kinds(h: CallbackHandle): (r: seq<CallbackKind>)
    ensures h.NoHandle? <==> (r == [] && !h.Multi?)
  {
    match h
    case NoHandle => []
    case Single(k) => [k]
    case Multi(ks) => ks
  }

  /** `AddAssign for CallbackHandle` (and `Add`). */
  function Combine(a: CallbackHandle, b: CallbackHandle): (r: CallbackHandle)
    ensures b.NoHandle? ==> r == a
    ensures a.NoHandle? ==> r == b
    ensures multiset(Kinds(r)) == multiset(Kinds(a)) + multiset(Kinds(b))
    ensures !a.NoHandle? && !b.NoHandle? ==> r.Multi? && |r.kinds| == |Kinds(a)| + |Kinds(b)|
    ensures a.Multi? && !b.NoHandle? ==> r.kinds[..|a.kinds|] == a.kinds
  {
    if b.NoHandle? then a
    else if a.NoHandle? then b
    else if a.Single? then
      if b.Single? then
        assert [b.kind, a.kind] == [b.kind] + [a.kind];
        Multi([b.kind, a.kind])
      else
        Multi(b.kinds + [a.kind])
    else
      var ks := a.kinds + Kinds(b);
      assert a.kinds == ks[..|a.kinds|];
      assert multiset(ks) == multiset(a.kinds) + multiset(Kinds(b));
      Multi(ks)
  }

  /** `a += b` for two single handles puts the right-hand one first. */
  lemma CombineSinglesOrder(x: CallbackKind, y: CallbackKind)
    ensures Kinds(Combine(Single(x), Single(y))) == [y, x]
  {
  }

  /** Combining is associative as far as the set of kept handles goes. */
  lemma {:induction false} CombineAssociativeContents(a: CallbackHandle, b: CallbackHandle, c: CallbackHandle)
    ensures multiset(Kinds(Combine(Combine(a, b), c))) == multiset(Kinds(Combine(a, Combine(b, c))))
  {
    calc {
      multiset(Kinds(Combine(Combine(a, b), c)));
      multiset(Kinds(Combine(a, b))) + multiset(Kinds(c));
      multiset(Kinds(a)) + multiset(Kinds(b)) + multiset(Kinds(c));
      multiset(Kinds(a)) + multiset(Kinds(Combine(b, c)));
      multiset(Kinds(Combine(a, Combine(b, c))));
    }
  }

  /** `CallbackKind::forget_owners`. */
  function ForgetOwner(k: CallbackKind): (r: CallbackKind)
    ensures KindEq(r, k)
    ensures r.ValueKind? ==> r.owner == None
    ensures k.ChannelKind? ==> r == k
  {
    match k
    case ChannelKind(_) => k
    case ValueKind(id, _, c) => ValueKind(id, None, c)
  }

  function ForgetOwnersOf(ks: seq<CallbackKind>): (r: seq<CallbackKind>)
    ensures |r| == |ks|
    ensures forall i | 0 <= i < |r| :: r[i] == ForgetOwner(ks[i])
  {
    if ks == [] then [] else [ForgetOwner(ks[0])] + ForgetOwnersOf(ks[1..])
  }

  /** `CallbackHandle::forget_owners` / `weak`: no value handle keeps an
      owner alive, channel handles are untouched, and the handle stays equal
      to what it was. */
  function ForgetOwners(h: CallbackHandle): (r: CallbackHandle)
    ensures HandleEq(r, h)
    ensures |Kinds(r)| == |Kinds(h)|
    ensures forall i | 0 <= i < |Kinds(r)| :: KindEq(Kinds(r)[i], Kinds(h)[i])
    ensures forall k | k in Kinds(r) :: k.ValueKind? ==> k.owner == None
    ensures forall i | 0 <= i < |Kinds(r)| :: Kinds(h)[i].ChannelKind? ==> Kinds(r)[i] == Kinds(h)[i]
  {
    match h
    case NoHandle => NoHandle
    case Single(k) => Single(ForgetOwner(k))
    case Multi(ks) => Multi(ForgetOwnersOf(ks))
  }

  /** The `(collection, id)` pairs removed from callback collections when the
      handle is dropped: every value handle that still holds its id. */
  function DropRemovals(ks: seq<CallbackKind>): (r: seq<(nat, nat)>)
    ensures |r| <= |ks|
    ensures forall k | k in ks && k.ValueKind? && k.id.Some? :: (k.collection, k.id.value) in r
    ensures forall p | p in r :: exists k | k in ks :: k.ValueKind? && k.id == Some(p.1) && k.collection == p.0
  {
    if ks == [] then []
    else
      var rest := DropRemovals(ks[1..]);
      assert forall k | k in ks[1..] :: k in ks;
      if ks[0].ValueKind? && ks[0].id.Some? then [(ks[0].collection, ks[0].id.value)] + rest else rest
  }

  /** `CallbackHandleData::persist`: the id is taken out before the drop. */
  function PersistKind(k: CallbackKind): (r: CallbackKind)
    ensures r.ValueKind? ==> r.id == None
    ensures k.ChannelKind? ==> r == k
  {
    match k
    case ChannelKind(_) => k
    case ValueKind(_, owner, c) => ValueKind(None, owner, c)
  }

  function PersistAll(ks: seq<CallbackKind>): (r: seq<CallbackKind>)
    ensures |r| == |ks|
    ensures forall i | 0 <= i < |r| :: r[i] == PersistKind(ks[i])
  {
    if ks == [] then [] else [PersistKind(ks[0])] + PersistAll(ks[1..])
  }

  /** After `persist`, dropping the handle's data removes no callback. */
  lemma {:induction false} PersistRemovesNothing(ks: seq<CallbackKind>)
    ensures DropRemovals(PersistAll(ks)) == []
  {
    if ks != [] {
      assert PersistAll(ks)[1..] == PersistAll(ks[1..]);
      PersistRemovesNothing(ks[1..]);
    }
  }

  // ---------------------------------------------------------------------
  // Executing change callbacks

  datatype DeadlockError = DeadlockError

  /** `CALLBACK_EXECUTORS`: the lock keys whose callbacks are executing. */
  class Executors {
    var executing: set<nat>

    constructor()
      ensures executing == {}
    {
      executing := {};
    }
  }

  /** The callbacks that survive one invocation round: those whose
      invocation did not report a disconnection, in their original order. */
  function Retained(callbacks: seq<nat>, disconnects: nat -> bool): (r: seq<nat>)
    ensures |r| <= |callbacks|
    ensures forall id :: id in r <==> id in callbacks && !disconnects(id)
  {
    if callbacks == [] then []
    else if disconnects(callbacks[0]) then Retained(callbacks[1..], disconnects)
    else [callbacks[0]] + Retained(callbacks[1..], disconnects)
  }

  lemma {:induction false} RetainedAppend(a: seq<nat>, b: seq<nat>, disconnects: nat -> bool)
    ensures Retained(a + b, disconnects) == Retained(a, disconnects) + Retained(b, disconnects)
  {
    if a == [] {
      assert a + b == b;
    } else {
      assert (a + b)[1..] == a[1..] + b;
      RetainedAppend(a[1..], b, disconnects);
    }
  }

  /** The callbacks without the one with id `id` (`Lots::remove`). */
  function Without(callbacks: seq<nat>, id: nat): (r: seq<nat>)
    ensures forall x :: x in r <==> x in callbacks && x != id
    ensures |r| <= |callbacks|
  {
    if callbacks == [] then []
    else if callbacks[0] == id then Without(callbacks[1..], id)
    else [callbacks[0]] + Without(callbacks[1..], id)
  }

  /** `ChangeCallbacksData`: the registered callbacks, when they were last
      invoked, and the removals deferred while they were executing. */
  class ChangeCallbacksData {
    var callbacks: seq<nat>
    var invokedAt: nat
    var toRemove: seq<nat>
    /** Identifies the dynamic's lock data (`Arc::as_ptr` in the source). */
    const lockKey: nat

    constructor(key: nat, now: nat)
      ensures callbacks == [] && invokedAt == now && toRemove == [] && lockKey == key
    {
      callbacks := [];
      invokedAt := now;
      toRemove := [];
      lockKey := key;
    }

    /** `execute_callbacks`: refuses to run when this lock's callbacks are
        already executing; otherwise invokes every callback once, counts
        them, and drops those that report a disconnection. */
    method ExecuteCallbacks(executors: Executors, now: nat, disconnects: nat -> bool)
      returns (r: Result<nat, DeadlockError>)
      modifies this, executors
      ensures executors.executing == old(executors.executing)
      ensures lockKey in old(executors.executing) ==>
        && r == Err(DeadlockError)
        && callbacks == old(callbacks) && invokedAt == old(invokedAt)
      ensures lockKey !in old(executors.executing) ==>
        && r == Ok(|old(callbacks)|)
        && callbacks == Retained(old(callbacks), disconnects)
        && invokedAt == now
      ensures toRemove == old(toRemove)
    {
      if lockKey in executors.executing {
        return Err(DeadlockError);
      }
      executors.executing := executors.executing + {lockKey};
      var count := 0;
      invokedAt := now;
      var kept: seq<nat> := [];
      while count < |callbacks|
        invariant count <= |callbacks|
        invariant callbacks == old(callbacks) && toRemove == old(toRemove) && invokedAt == now
        invariant executors.executing == old(executors.executing) + {lockKey}
        invariant kept == Retained(callbacks[..count], disconnects)
      {
        RetainedAppend(callbacks[..count], [callbacks[count]], disconnects);
        assert callbacks[..count + 1] == callbacks[..count] + [callbacks[count]];
        if !disconnects(callbacks[count]) {
          kept := kept + [callbacks[count]];
        }
        count := count + 1;
      }
      assert callbacks[..count] == callbacks;
      callbacks := kept;
      executors.executing := executors.executing - {lockKey};
      return Ok(count);
    }

    /** `ChangeCallbacks::execute` for a change made at `changedAt`: skipped
        (returning 0) when the callbacks were already invoked at or after that
        instant or are executing; otherwise runs them and then applies the
        deferred removals. */
    method Execute(executors: Executors, changedAt: nat, now: nat, disconnects: nat -> bool)
      returns (count: nat)
      modifies this, executors
      ensures executors.executing == old(executors.executing)
      ensures old(invokedAt) >= changedAt ==>
        count == 0 && callbacks == old(callbacks) && invokedAt == old(invokedAt) && toRemove == old(toRemove)
      ensures old(invokedAt) < changedAt && lockKey in old(executors.executing) ==>
        count == 0 && callbacks == old(callbacks) && toRemove == old(toRemove)
      ensures old(invokedAt) < changedAt && lockKey !in old(executors.executing) ==>
        && count == |old(callbacks)|
        && invokedAt == now
        && toRemove == []
        && forall id :: id in callbacks <==>
             id in old(callbacks) && !disconnects(id) && id !in old(toRemove)
    {
      if !(invokedAt < changedAt) {
        return 0;
      }
      var r := ExecuteCallbacks(executors, now, disconnects);
      if r.Err? {
        return 0;
      }
      var i := 0;
      ghost var afterRun := callbacks;
      while i < |toRemove|
        invariant i <= |toRemove|
        invariant toRemove == old(toRemove) && invokedAt == now
        invariant executors.executing == old(executors.executing)
        invariant forall id :: id in callbacks <==> id in afterRun && id !in toRemove[..i]
      {
        assert toRemove[..i + 1] == toRemove[..i] + [toRemove[i]];
        callbacks := Without(callbacks, toRemove[i]);
        i := i + 1;
      }
      assert toRemove[..i] == toRemove;
      toRemove := [];
      count := r.value;
    }

    /** `CallbackCollection::remove`: deferred while the executor thread
        runs callbacks, immediate otherwise. */
    method Remove(id: nat, onExecutorThread: bool)
      modifies this
      ensures onExecutorThread ==> toRemove == old(toRemove) + [id] && callbacks == old(callbacks)
      ensures !onExecutorThread ==>
        toRemove == old(toRemove) && forall x :: x in callbacks <==> x in old(callbacks) && x != id
      ensures invokedAt == old(invokedAt)
    {
      if onExecutorThread {
        toRemove := toRemove + [id];
      } else {
        callbacks := Without(callbacks, id);
      }
    }
  }

  // ---------------------------------------------------------------------
  // The futures slot allocator

  predicate StrictlySorted(s: seq<nat>)
  {
    forall i, j | 0 <= i < j < |s| :: s[i] < s[j]
  }

  /** `Set::insert` on kempt's sorted set. */
  function InsertSorted(s: seq<nat>, x: nat): (r: seq<nat>)
    requires StrictlySorted(s)
    ensures StrictlySorted(r)
    ensures forall y :: y in r <==> y in s || y == x
  {
    if s == [] then [x]
    else if x < s[0] then
      assert forall y | y in s :: x < y;
      ConsSorted(x, s);
      [x] + s
    else if x == s[0] then s
    else
      assert StrictlySorted(s[1..]);
      var rest := InsertSorted(s[1..], x);
      assert forall y | y in rest :: s[0] < y;
      ConsSorted(s[0], rest);
      [s[0]] + rest
  }

  /** Prepending an element below every element keeps a sequence sorted. */
  lemma ConsSorted(h: nat, t: seq<nat>)
    requires StrictlySorted(t) && forall y | y in t :: h < y
    ensures StrictlySorted([h] + t)
  {
    forall i, j | 0 <= i < j < |[h] + t|
      ensures ([h] + t)[i] < ([h] + t)[j]
    {
      if i > 0 {
        assert ([h] + t)[i] == t[i - 1];
      }
      assert ([h] + t)[j] == t[j - 1] && t[j - 1] in t;
    }
  }

  /** Every id in `ids` names one of `n` slots. */
  predicate IdsBelow(ids: seq<nat>, n: nat)
  {
    forall i | 0 <= i < |ids| :: ids[i] < n
  }

  /** The position in `available` of the first id whose slot is empty. */
  function FirstFree(registered: seq<bool>, available: seq<nat>): (r: Option<nat>)
    requires IdsBelow(available, |registered|)
    ensures r.Some? ==> r.value < |available| && !registered[available[r.value]]
    ensures r.Some? ==> forall k | 0 <= k < r.value :: registered[available[k]]
    ensures r.None? ==> forall k | 0 <= k < |available| :: registered[available[k]]
  {
    if available == [] then None
    else if !registered[available[0]] then Some(0)
    else
      match FirstFree(registered, available[1..])
      case None => None
      case Some(k) => Some(k + 1)
  }

  /** The slot table, free list and completion count threaded through
      `Futures::poll`. */
  datatype PollState = PollState(registered: seq<bool>, available: seq<nat>, completed: nat)

  /** The ids among `queue` whose future is present in `registered` and
      completes when polled. */
  function Completing(registered: seq<bool>, queue: seq<nat>, ready: nat -> bool): set<nat>
  {
    set id | id in queue && id < |registered| && registered[id] && ready(id)
  }

  /** `Futures::poll` over the entries of `queue`, given whether polling each
      future completes it: a completed future frees its slot into
      `available`, an already empty slot is returned to `available`, and a
      pending future keeps its slot. */
  function PollAll(st: PollState, queue: seq<nat>, ready: nat -> bool): (r: PollState)
    requires StrictlySorted(st.available)
    requires IdsBelow(queue, |st.registered|)
    ensures StrictlySorted(r.available)
    ensures |r.registered| == |st.registered|
    decreases |queue|
  {
    if queue == [] then st
    else PollAll(PollOne(st, queue[0], ready), queue[1..], ready)
  }

  /** What a poll round does: a future that completes loses its slot, every
      freed or already empty slot of a queued id lands on the free list,
      nothing else changes, and the count grows by the number of distinct
      queued futures that complete. */
  lemma {:induction false} PollAllEffects(st: PollState, queue: seq<nat>, ready: nat -> bool)
    requires StrictlySorted(st.available)
    requires IdsBelow(queue, |st.registered|)
    ensures var r := PollAll(st, queue, ready);
      && (forall id | 0 <= id < |r.registered| ::
            r.registered[id] == (st.registered[id] && !(id in queue && ready(id))))
      && (forall id | 0 <= id < |r.registered| ::
            id in r.available <==> id in st.available || (id in queue && !r.registered[id]))
      && (forall id | id in r.available :: id in st.available || id in queue)
      && r.completed == st.completed + |Completing(st.registered, queue, ready)|
  {
    PollAllRegistered(st, queue, ready);
    PollAllAvailable(st, queue, ready);
    PollAllCompleted(st, queue, ready);
  }

  lemma {:induction false} PollAllRegistered(st: PollState, queue: seq<nat>, ready: nat -> bool)
    requires StrictlySorted(st.available)
    requires IdsBelow(queue, |st.registered|)
    ensures var r := PollAll(st, queue, ready);
      forall id | 0 <= id < |r.registered| ::
        r.registered[id] == (st.registered[id] && !(id in queue && ready(id)))
    decreases |queue|
  {
    if queue != [] {
      PollAllRegistered(PollOne(st, queue[0], ready), queue[1..], ready);
      assert queue == [queue[0]] + queue[1..];
    }
  }

  lemma {:induction false} PollAllAvailable(st: PollState, queue: seq<nat>, ready: nat -> bool)
    requires StrictlySorted(st.available)
    requires IdsBelow(queue, |st.registered|)
    ensures var r := PollAll(st, queue, ready);
      && (forall id | 0 <= id < |r.registered| ::
            id in r.available <==> id in st.available || (id in queue && !r.registered[id]))
      && (forall id | id in r.available :: id in st.available || id in queue)
    decreases |queue|
  {
    if queue != [] {
      var next := PollOne(st, queue[0], ready);
      PollAllRegistered(next, queue[1..], ready);
      PollAllAvailable(next, queue[1..], ready);
      assert queue == [queue[0]] + queue[1..];
    }
  }

  lemma {:induction false} PollAllCompleted(st: PollState, queue: seq<nat>, ready: nat -> bool)
    requires StrictlySorted(st.available)
    requires IdsBelow(queue, |st.registered|)
    ensures PollAll(st, queue, ready).completed == st.completed + |Completing(st.registered, queue, ready)|
    decreases |queue|
  {
    if queue == [] {
      assert Completing(st.registered, queue, ready) == {};
    } else {
      CompletingStep(st.registered, queue, ready);
      PollAllCompleted(PollOne(st, queue[0], ready), queue[1..], ready);
    }
  }

  /** Polling the entry `id`. */
  function PollOne(st: PollState, id: nat, ready: nat -> bool): (r: PollState)
    requires StrictlySorted(st.available) && id < |st.registered|
    ensures StrictlySorted(r.available) && |r.registered| == |st.registered|
  {
    if st.registered[id] then
      if ready(id) then PollState(st.registered[id := false], InsertSorted(st.available, id), st.completed + 1)
      else st
    else PollState(st.registered, InsertSorted(st.available, id), st.completed)
  }

  /** How `Completing` splits off the first queue entry. */
  lemma CompletingStep(registered: seq<bool>, queue: seq<nat>, ready: nat -> bool)
    requires queue != []
    requires IdsBelow(queue, |registered|)
    ensures registered[queue[0]] && ready(queue[0]) ==>
      |Completing(registered, queue, ready)| == 1 + |Completing(registered[queue[0] := false], queue[1..], ready)|
    ensures !(registered[queue[0]] && ready(queue[0])) ==>
      Completing(registered, queue, ready) == Completing(registered, queue[1..], ready)
  {
    var id := queue[0];
    assert queue == [id] + queue[1..];
    var whole := Completing(registered, queue, ready);
    if registered[id] && ready(id) {
      var tail := Completing(registered[id := false], queue[1..], ready);
      assert whole == {id} + tail;
      assert id !in tail;
    } else {
      assert whole == Completing(registered, queue[1..], ready);
    }
  }

  /** `Futures`: a slot per registered future (true while it holds one), the
      queue of ids to poll, and the sorted set of free slot ids. */
  class Futures {
    var registered: seq<bool>
    var queue: seq<nat>
    var available: seq<nat>

    /** Ids name existing slots and the free list is a sorted set. */
    ghost predicate WellFormed()
      reads this
    {
      StrictlySorted(available) && IdsBelow(available, |registered|) && IdsBelow(queue, |registered|)
    }

    /** Moreover every id on the free list has an empty slot. */
    ghost predicate Valid()
      reads this
    {
      WellFormed() && forall i | 0 <= i < |available| :: !registered[available[i]]
    }

    constructor()
      ensures Valid() && registered == [] && queue == [] && available == []
    {
      registered := [];
      queue := [];
      available := [];
    }

    /** `Futures::push`: takes the first free slot from `available`
        (discarding ids before it whose slot is occupied), or else appends a
        new slot whose id is the previous number of slots. */
    method Push() returns (id: nat)
      requires WellFormed()
      modifies this
      ensures WellFormed()
      ensures queue == old(queue)
      ensures match FirstFree(old(registered), old(available))
        case Some(k) =>
          && id == old(available)[k]
          && registered == old(registered)[id := true]
          && available == old(available)[k + 1..]
        case None =>
          && id == |old(registered)|
          && registered == old(registered) + [true]
          && available == []
    {
      var reg, free := registered, available;
      var found := false;
      var candidate := 0;
      ghost var popped := 0;
      while free != [] && !found
        invariant 0 <= popped <= |old(available)|
        invariant free == old(available)[popped..]
        invariant !found ==> forall k | 0 <= k < popped :: reg[old(available)[k]]
        invariant found ==> 0 < popped && candidate == old(available)[popped - 1]
        invariant found ==> !reg[candidate] && forall k | 0 <= k < popped - 1 :: reg[old(available)[k]]
        decreases |free|
      {
        candidate := free[0];
        free := free[1..];
        popped := popped + 1;
        found := !reg[candidate];
      }
      if found {
        FirstFreeAt(reg, old(available), popped - 1);
        id := candidate;
        registered := reg[id := true];
      } else {
        FirstFreeNone(reg, old(available));
        id := |reg|;
        registered := reg + [true];
      }
      available := free;
    }

    /** `Futures::spawn`: pushes and queues the new future. */
    method Spawn() returns (id: nat)
      requires Valid()
      modifies this
      ensures Valid()
      ensures queue == old(queue) + [id]
      ensures old(available) == [] ==> id == |old(registered)| && registered == old(registered) + [true]
      ensures old(available) != [] ==>
        && id == old(available)[0]
        && registered == old(registered)[id := true]
        && available == old(available)[1..]
    {
      if available != [] {
        FirstAvailableIsFree(registered, available);
      }
      id := Push();
      queue := queue + [id];
    }

    /** `Futures::wake`. */
    method Wake(id: nat)
      requires Valid() && id < |registered|
      modifies this
      ensures Valid()
      ensures queue == old(queue) + [id]
      ensures registered == old(registered) && available == old(available)
    {
      queue := queue + [id];
    }

    /** `Futures::poll`: polls every entry queued at call time exactly once
        and returns how many futures completed. */
    method Poll(ready: nat -> bool) returns (executed: nat)
      requires Valid()
      modifies this
      ensures Valid()
      ensures queue == []
      ensures PollState(registered, available, executed) ==
        PollAll(PollState(old(registered), old(available), 0), old(queue), ready)
    {
      executed := 0;
      var n := |queue|;
      var i := 0;
      while i < n
        invariant 0 <= i <= n == |old(queue)|
        invariant queue == old(queue)[i..]
        invariant StrictlySorted(available)
        invariant |registered| == |old(registered)|
        invariant IdsBelow(queue, |registered|)
        invariant PollAll(PollState(old(registered), old(available), 0), old(queue), ready) ==
          PollAll(PollState(registered, available, executed), queue, ready)
      {
        var id := queue[0];
        ghost var before := PollState(registered, available, executed);
        queue := queue[1..];
        if registered[id] {
          if ready(id) {
            registered := registered[id := false];
            available := InsertSorted(available, id);
            executed := executed + 1;
          }
        } else {
          available := InsertSorted(available, id);
        }
        assert PollState(registered, available, executed) == PollOne(before, id, ready);
        i := i + 1;
      }
      FreeListStaysFree(old(registered), old(available), old(queue), ready);
    }
  }

  /** Under the free-list invariant, every id in `available` after a poll
      has an empty slot. */
  lemma FreeListStaysFree(registered: seq<bool>, available: seq<nat>, queue: seq<nat>, ready: nat -> bool)
    requires StrictlySorted(available) && IdsBelow(available, |registered|) && IdsBelow(queue, |registered|)
    requires forall i | 0 <= i < |available| :: !registered[available[i]]
    ensures var r := PollAll(PollState(registered, available, 0), queue, ready);
      && IdsBelow(r.available, |r.registered|)
      && forall i | 0 <= i < |r.available| :: !r.registered[r.available[i]]
  {
    var st := PollState(registered, available, 0);
    var r := PollAll(st, queue, ready);
    PollAllEffects(st, queue, ready);
    forall i | 0 <= i < |r.available|
      ensures r.available[i] < |r.registered| && !r.registered[r.available[i]]
    {
      var id := r.available[i];
      assert id in r.available;
      if id in available {
        var j :| 0 <= j < |available| && available[j] == id;
      } else {
        var j :| 0 <= j < |queue| && queue[j] == id;
      }
    }
  }

  /** With the free-list invariant, the first id on the free list always has
      an empty slot: `push`'s search never discards an id. */
  lemma FirstAvailableIsFree(registered: seq<bool>, available: seq<nat>)
    requires available != [] && IdsBelow(available, |registered|)
    requires forall i | 0 <= i < |available| :: !registered[available[i]]
    ensures FirstFree(registered, available) == Some(0)
  {
  }

  /** `FirstFree` finds exactly the first empty slot on the free list. */
  lemma {:induction false} FirstFreeAt(registered: seq<bool>, available: seq<nat>, k: nat)
    requires IdsBelow(available, |registered|)
    requires k < |available| && !registered[available[k]]
    requires forall j | 0 <= j < k :: registered[available[j]]
    ensures FirstFree(registered, available) == Some(k)
  {
    if k > 0 {
      FirstFreeAt(registered, available[1..], k - 1);
    }
  }

  lemma {:induction false} FirstFreeNone(registered: seq<bool>, available: seq<nat>)
    requires IdsBelow(available, |registered|)
    requires forall j | 0 <= j < |available| :: registered[available[j]]
    ensures FirstFree(registered, available) == None
  {
    if available != [] {
      FirstFreeNone(registered, available[1..]);
    }
  }
}
