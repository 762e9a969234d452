/** The rasterizer frontend's timer thread
    (frontends/rasterizer/src/timer.rs): a queue of scheduled timers kept
    sorted by the instant each is next due, the decision of what the thread
    waits for next, and the firing of the timers that are due. Instants
    and durations are natural numbers; the current instant, the channel's
    answer and the set of timers still alive are parameters. */
module RasterTimer {
  import opened Common

  /** A timer's settings (`ThreadTimer`): its period and whether it
      repeats. The callback is not modelled; firing a timer is recorded by
      its id. */
  datatype ThreadTimer = ThreadTimer(period: nat, repeating: bool)

  /** `ScheduledTimer`: the instant the timer is next due and the (weak)
      handle of the timer, here its id. */
  datatype ScheduledTimer = ScheduledTimer(nextTime: nat, timer: nat)

  /** `Command`: the only command schedules a timer. */
  datatype Command = Schedule(scheduled: ScheduledTimer)

  /** `Event`: a timer is due, or a command arrived. */
  datatype Event = TimerElapsed | CommandEvent(command: Command)

  /** What the channel answers the thread while it waits: a command, the
      end of the wait (only when it waits with a timeout), or the
      disconnection of every sender. */
  datatype Incoming = Arrived(command: Command) | TimedOut | Disconnected

  /** The result of `binary_search_by`: `Ok` at a matching element, `Err`
      at the place where the target would be inserted. */
  datatype Search = Found(index: nat) | NotFound(index: nat)

  /** The queue is sorted by the instant each timer is next due. */
  predicate Sorted(s: seq<ScheduledTimer>)
  {
    forall i, j :: 0 <= i < j < |s| ==> s[i].nextTime <= s[j].nextTime
  }

  /** `at` is a place where a timer due at `time` can be inserted into `s`
      keeping it sorted. */
  predicate InsertionPoint(s: seq<ScheduledTimer>, at: nat, time: nat)
  {
    && at <= |s|
    && (forall j :: 0 <= j < at ==> s[j].nextTime <= time)
    && (forall j :: at <= j < |s| ==> time <= s[j].nextTime)
  }

  /** `r` is `s` with `t` inserted at a place that keeps `s` in order. */
  ghost predicate InsertedInOrder(s: seq<ScheduledTimer>, r: seq<ScheduledTimer>, t: ScheduledTimer)
  {
    exists at: nat :: InsertionPoint(s, at, t.nextTime) && r == s[..at] + [t] + s[at..]
  }

  /** Inserting at an insertion point keeps the queue sorted. */
  lemma InsertKeepsSorted(s: seq<ScheduledTimer>, at: nat, t: ScheduledTimer)
    requires Sorted(s) && InsertionPoint(s, at, t.nextTime)
    ensures Sorted(s[..at] + [t] + s[at..])
  {
    var r := s[..at] + [t] + s[at..];
    forall i, j | 0 <= i < j < |r|
      ensures r[i].nextTime <= r[j].nextTime
    {
      if i < at && j > at {
        assert r[i] == s[i] && r[j] == s[j - 1];
      } else if i > at {
        assert r[i] == s[i - 1] && r[j] == s[j - 1];
      } else if j < at {
        assert r[i] == s[i] && r[j] == s[j];
      }
    }
  }

  /** The elements of a queue after an insertion: those before the place,
      the inserted timer, then the rest shifted by one. */
  lemma InsertedElement(s: seq<ScheduledTimer>, at: nat, t: ScheduledTimer, k: nat)
    requires at <= |s| && k <= |s|
    ensures (s[..at] + [t] + s[at..])[k] == if k < at then s[k] else if k == at then t else s[k - 1]
  {
  }

  /** `binary_search_by` comparing due instants with `time`, on a sorted
      queue: a found index holds a timer due at `time`, and either way the
      index is a place where such a timer can be inserted in order. */
  method BinarySearch(s: seq<ScheduledTimer>, time: nat) returns (r: Search)
    requires Sorted(s)
    ensures r.Found? ==> r.index < |s| && s[r.index].nextTime == time
    ensures r.NotFound? ==> forall j :: 0 <= j < |s| ==> s[j].nextTime != time
    ensures InsertionPoint(s, r.index, time)
  {
    var left, right := 0, |s|;
    while left < right
      invariant 0 <= left <= right <= |s|
      invariant forall j :: 0 <= j < left ==> s[j].nextTime < time
      invariant forall j :: right <= j < |s| ==> time < s[j].nextTime
      decreases right - left
    {
      var mid := left + (right - left) / 2;
      if s[mid].nextTime < time {
        left := mid + 1;
      } else if s[mid].nextTime > time {
        right := mid;
      } else {
        return Found(mid);
      }
    }
    return NotFound(left);
  }

  /** The leading timers of a queue that are due at `now`. */
  function DueCount(s: seq<ScheduledTimer>, now: nat): (n: nat)
    ensures n <= |s|
    ensures forall j :: 0 <= j < n ==> s[j].nextTime <= now
    ensures n < |s| ==> s[n].nextTime > now
  {
    if s == [] || s[0].nextTime > now then 0 else 1 + DueCount(s[1..], now)
  }

  /** In a sorted queue the due timers are exactly the leading ones. */
  lemma DueCountSorted(s: seq<ScheduledTimer>, now: nat)
    requires Sorted(s)
    ensures forall j :: 0 <= j < |s| ==> (s[j].nextTime <= now <==> j < DueCount(s, now))
  {
  }

  /** The id of a due timer when it is still alive: its callback fires. */
  function FiredOne(due: ScheduledTimer, alive: map<nat, ThreadTimer>): seq<nat>
  {
    if due.timer in alive then [due.timer] else []
  }

  /** A due timer that is alive and repeating, due again one period after
      `now`. */
  function RescheduledOne(due: ScheduledTimer, alive: map<nat, ThreadTimer>, now: nat): seq<ScheduledTimer>
  {
    var t := due.timer;
    if t in alive && alive[t].repeating then [ScheduledTimer(now + alive[t].period, t)] else []
  }

  /** The ids of the due timers that are still alive, in queue order: the
      callbacks fired. */
  function Fired(due: seq<ScheduledTimer>, alive: map<nat, ThreadTimer>): seq<nat>
  {
    if due == [] then [] else FiredOne(due[0], alive) + Fired(due[1..], alive)
  }

  /** The due timers that are alive and repeating, due again one period
      after `now`. */
  function Rescheduled(due: seq<ScheduledTimer>, alive: map<nat, ThreadTimer>, now: nat): seq<ScheduledTimer>
  {
    if due == [] then [] else RescheduledOne(due[0], alive, now) + Rescheduled(due[1..], alive, now)
  }

  /** Every fired id is a due timer that is alive, and every due timer that
      is alive fires. */
  lemma {:induction false} FiredMembers(due: seq<ScheduledTimer>, alive: map<nat, ThreadTimer>)
    ensures forall t :: t in Fired(due, alive) <==> t in alive && exists j :: 0 <= j < |due| && due[j].timer == t
    ensures |Fired(due, alive)| <= |due|
  {
    if due != [] {
      FiredMembers(due[1..], alive);
      forall t | t in alive && (exists j :: 0 <= j < |due| && due[j].timer == t)
        ensures t in Fired(due, alive)
      {
        var j :| 0 <= j < |due| && due[j].timer == t;
        if j > 0 {
          assert due[1..][j - 1].timer == t;
        }
      }
      forall t | t in Fired(due[1..], alive)
        ensures exists j :: 0 <= j < |due| && due[j].timer == t
      {
        var j :| 0 <= j < |due[1..]| && due[1..][j].timer == t;
        assert due[j + 1].timer == t;
      }
    }
  }

  /** A rescheduled timer is due exactly one period after `now`, and only
      repeating timers that are alive come back. */
  lemma {:induction false} RescheduledMembers(due: seq<ScheduledTimer>, alive: map<nat, ThreadTimer>, now: nat)
    ensures forall k :: 0 <= k < |Rescheduled(due, alive, now)| ==>
      var r := Rescheduled(due, alive, now)[k];
      r.timer in alive && alive[r.timer].repeating && r.nextTime == now + alive[r.timer].period
    ensures |Rescheduled(due, alive, now)| <= |due|
  {
    if due != [] {
      RescheduledMembers(due[1..], alive, now);
    }
  }

  /** Every repeating timer has a positive period. */
  predicate PositivePeriods(alive: map<nat, ThreadTimer>)
  {
    forall t :: t in alive && alive[t].repeating ==> alive[t].period > 0
  }

  /** The timers after the due ones of a sorted queue are sorted and none
      of them is due. */
  lemma RestAfterDue(s: seq<ScheduledTimer>, now: nat)
    requires Sorted(s)
    ensures Sorted(s[DueCount(s, now)..])
    ensures AllLater(s[DueCount(s, now)..], now)
  {
    var n := DueCount(s, now);
    forall j | n <= j < |s|
      ensures s[j].nextTime > now
    {
      assert s[n].nextTime <= s[j].nextTime;
    }
  }

  /** Every timer of a queue is due after `now`. */
  predicate AllLater(s: seq<ScheduledTimer>, now: nat)
  {
    forall j :: 0 <= j < |s| ==> s[j].nextTime > now
  }

  /** A queue holding the same timers as one due after `now` is due after
      `now`. */
  lemma AllLaterByMultiset(s: seq<ScheduledTimer>, r: seq<ScheduledTimer>, now: nat)
    requires multiset(s) == multiset(r) && AllLater(r, now)
    ensures AllLater(s, now)
  {
    forall j | 0 <= j < |s|
      ensures s[j].nextTime > now
    {
      assert s[j] in multiset(r);
      var k :| 0 <= k < |r| && r[k] == s[j];
    }
  }

  /** With positive periods, a queue holding the timers not yet due and
      the rescheduled ones holds no timer due at `now`. */
  lemma RescheduledLater(s: seq<ScheduledTimer>, rest: seq<ScheduledTimer>, due: seq<ScheduledTimer>,
                         alive: map<nat, ThreadTimer>, now: nat)
    requires PositivePeriods(alive) && AllLater(rest, now)
    requires multiset(s) == multiset(rest) + multiset(Rescheduled(due, alive, now))
    ensures AllLater(s, now)
  {
    RescheduledMembers(due, alive, now);
    var back := rest + Rescheduled(due, alive, now);
    forall j | 0 <= j < |back|
      ensures back[j].nextTime > now
    {
      if j >= |rest| {
        assert back[j] == Rescheduled(due, alive, now)[j - |rest|];
      }
    }
    AllLaterByMultiset(s, back, now);
  }

  /** `duration_until_next_timer`: `Ok(None)` for an empty queue, `Err` when
      the first timer is overdue, otherwise the time left until it. */
  function DurationUntilNextTimer(timers: seq<ScheduledTimer>, now: nat): (r: Result<Option<nat>, ()>)
    ensures r == Ok(None) <==> timers == []
    ensures r.Err? <==> timers != [] && timers[0].nextTime < now
    ensures r.Ok? && r.value.Some? ==> timers != [] && timers[0].nextTime == now + r.value.value
  {
    if timers == [] then Ok(None)
    else if timers[0].nextTime >= now then Ok(Some(timers[0].nextTime - now))
    else Err(())
  }

  /** On a sorted queue the waiting time is the time until the earliest
      timer: no timer is due sooner. */
  lemma WaitUntilEarliest(timers: seq<ScheduledTimer>, now: nat)
    requires Sorted(timers)
    ensures var r := DurationUntilNextTimer(timers, now);
      r.Ok? && r.value.Some? ==> forall j :: 0 <= j < |timers| ==> now + r.value.value <= timers[j].nextTime
  {
  }

  /** `next_event`: with a timer pending the thread waits for a command no
      longer than the time left, an overdue timer is handled at once, and
      with no timer it waits for a command without a limit (so it cannot
      time out). `Err` is the channel's disconnection. */
  function NextEvent(timers: seq<ScheduledTimer>, now: nat, incoming: Incoming): (r: Result<Event, ()>)
    requires timers == [] ==> !incoming.TimedOut?
    ensures r == Ok(TimerElapsed) <==> timers != [] && (timers[0].nextTime < now || incoming.TimedOut?)
    ensures r.Err? <==> incoming.Disconnected? && (timers == [] || timers[0].nextTime >= now)
    ensures r.Ok? && r.value.CommandEvent? ==> incoming == Arrived(r.value.command)
  {
    match DurationUntilNextTimer(timers, now)
    case Ok(Some(_)) =>
      (match incoming
       case Arrived(command) => Ok(CommandEvent(command))
       case TimedOut => Ok(TimerElapsed)
       case Disconnected => Err(()))
    case Ok(None) =>
      (match incoming
       case Arrived(command) => Ok(CommandEvent(command))
       case Disconnected => Err(()))
    case Err(_) => Ok(TimerElapsed)
  }

  /** One turn of the elapsed-timer loop as written: the first timer is
      removed, fired when alive, and a repeating one is inserted again one
      period after `now` (at the lowest place that keeps the queue sorted;
      `binary_search_by` may pick another place among equal instants). */
  function AsWrittenStep(timers: seq<ScheduledTimer>, now: nat, alive: map<nat, ThreadTimer>): seq<ScheduledTimer>
    requires timers != []
  {
    var first := timers[0];
    var rest := timers[1..];
    if first.timer in alive && alive[first.timer].repeating then
      var again := ScheduledTimer(now + alive[first.timer].period, first.timer);
      var at := LowerBound(rest, again.nextTime);
      rest[..at] + [again] + rest[at..]
    else rest
  }

  /** The number of leading timers due strictly before `time`. */
  function LowerBound(s: seq<ScheduledTimer>, time: nat): (at: nat)
    ensures at <= |s|
    ensures forall j :: 0 <= j < at ==> s[j].nextTime < time
    ensures at < |s| ==> s[at].nextTime >= time
  {
    if s == [] || s[0].nextTime >= time then 0 else 1 + LowerBound(s[1..], time)
  }

  /** The queue holds a repeating timer with a zero period that is due. */
  predicate HoldsDueZeroPeriod(timers: seq<ScheduledTimer>, now: nat, alive: map<nat, ThreadTimer>)
  {
    exists k :: 0 <= k < |timers| && timers[k].nextTime <= now
      && timers[k].timer in alive && alive[timers[k].timer] == ThreadTimer(0, true)
  }

  /** The queue without its first timer is sorted. */
  lemma SortedTail(s: seq<ScheduledTimer>)
    requires Sorted(s) && s != []
    ensures Sorted(s[1..])
  {
    forall i, j | 0 <= i < j < |s| - 1
      ensures s[1..][i].nextTime <= s[1..][j].nextTime
    {
      assert s[1..][i] == s[i + 1] && s[1..][j] == s[j + 1];
    }
  }

  /** In a sorted queue the lower bound is an insertion point. */
  lemma LowerBoundInserts(s: seq<ScheduledTimer>, time: nat)
    requires Sorted(s)
    ensures InsertionPoint(s, LowerBound(s, time), time)
  {
    var at := LowerBound(s, time);
    forall j | at <= j < |s|
      ensures time <= s[j].nextTime
    {
      assert s[at].nextTime <= s[j].nextTime;
    }
  }

  /** A turn of the loop as written keeps the queue sorted. */
  lemma AsWrittenStepSorted(timers: seq<ScheduledTimer>, now: nat, alive: map<nat, ThreadTimer>)
    requires Sorted(timers) && timers != []
    ensures Sorted(AsWrittenStep(timers, now, alive))
  {
    var first := timers[0];
    var rest := timers[1..];
    SortedTail(timers);
    if first.timer in alive && alive[first.timer].repeating {
      var again := ScheduledTimer(now + alive[first.timer].period, first.timer);
      LowerBoundInserts(rest, again.nextTime);
      InsertKeepsSorted(rest, LowerBound(rest, again.nextTime), again);
    }
  }

  /** A turn of the loop as written keeps a due repeating timer with a zero
      period in the queue: when it is the first it is inserted again, due
      at `now`. */
  lemma AsWrittenStepKeepsZeroPeriod(timers: seq<ScheduledTimer>, now: nat, alive: map<nat, ThreadTimer>, k: nat)
    requires k < |timers| && timers[k].nextTime <= now
    requires timers[k].timer in alive && alive[timers[k].timer] == ThreadTimer(0, true)
    ensures HoldsDueZeroPeriod(AsWrittenStep(timers, now, alive), now, alive)
  {
    var first := timers[0];
    var rest := timers[1..];
    var after := AsWrittenStep(timers, now, alive);
    if first.timer in alive && alive[first.timer].repeating {
      var again := ScheduledTimer(now + alive[first.timer].period, first.timer);
      var at := LowerBound(rest, again.nextTime);
      assert after == rest[..at] + [again] + rest[at..];
      if k == 0 {
        InsertedElement(rest, at, again, at);
        assert after[at] == again;
      } else if k - 1 < at {
        InsertedElement(rest, at, again, k - 1);
        assert after[k - 1] == timers[k];
      } else {
        InsertedElement(rest, at, again, k);
        assert after[k] == timers[k];
      }
    } else {
      assert k != 0;
      assert after[k - 1] == timers[k];
    }
  }

  /** While the queue holds a due repeating timer with a zero period, the
      loop as written finds a due timer at the front, and its turn leaves
      the queue sorted and still holding such a timer: the loop
      `while timers.first() is due` never ends. */
  lemma AsWrittenZeroPeriodSpins(timers: seq<ScheduledTimer>, now: nat, alive: map<nat, ThreadTimer>)
    requires Sorted(timers) && HoldsDueZeroPeriod(timers, now, alive)
    ensures timers != [] && timers[0].nextTime <= now
    ensures var after := AsWrittenStep(timers, now, alive);
      Sorted(after) && HoldsDueZeroPeriod(after, now, alive)
  {
    var k :| 0 <= k < |timers| && timers[k].nextTime <= now
      && timers[k].timer in alive && alive[timers[k].timer] == ThreadTimer(0, true);
    assert timers[0].nextTime <= timers[k].nextTime;
    AsWrittenStepSorted(timers, now, alive);
    AsWrittenStepKeepsZeroPeriod(timers, now, alive, k);
  }

  /** The timer thread's queue (`timers` in `timer_thread`). */
  class TimerThread {
    var timers: seq<ScheduledTimer>

    ghost predicate Valid()
      reads this
    {
      Sorted(timers)
    }

    /** The thread starts with an empty queue. */
    constructor()
      ensures Valid() && timers == []
    {
      timers := [];
    }

    /** `schedule_timer`: the timer is inserted where the binary search puts
        it, so the queue stays sorted and holds one more timer. */
    method ScheduleTimer(t: ScheduledTimer)
      requires Valid()
      modifies this
      ensures Valid()
      ensures InsertedInOrder(old(timers), timers, t)
      ensures multiset(timers) == multiset(old(timers)) + multiset{t}
    {
      var search := BinarySearch(timers, t.nextTime);
      var at := search.index;
      InsertKeepsSorted(timers, at, t);
      assert timers == timers[..at] + timers[at..];
      timers := timers[..at] + [t] + timers[at..];
    }

    /** One due timer of the `TimerElapsed` branch: fired when it is still
        alive, and scheduled again one period after `now` when it repeats. */
    method Fire(due: ScheduledTimer, now: nat, alive: map<nat, ThreadTimer>) returns (fired: seq<nat>)
      requires Valid()
      modifies this
      ensures Valid()
      ensures fired == FiredOne(due, alive)
      ensures multiset(timers) == multiset(old(timers)) + multiset(RescheduledOne(due, alive, now))
    {
      var t := due.timer;
      fired := [];
      if t in alive {
        fired := [t];
        if alive[t].repeating {
          var again := ScheduledTimer(now + alive[t].period, t);
          assert RescheduledOne(due, alive, now) == [again];
          ScheduleTimer(again);
        } else {
          assert RescheduledOne(due, alive, now) == [];
        }
      } else {
        assert RescheduledOne(due, alive, now) == [];
      }
    }

    /** The due timers taken off the queue, one after the other: each fires
        when alive and comes back when it repeats. */
    method FireAll(due: seq<ScheduledTimer>, now: nat, alive: map<nat, ThreadTimer>) returns (fired: seq<nat>)
      requires Valid()
      modifies this
      ensures Valid()
      ensures fired == Fired(due, alive)
      ensures multiset(timers) == multiset(old(timers)) + multiset(Rescheduled(due, alive, now))
    {
      fired := [];
      var pending := due;
      while pending != []
        invariant Valid()
        invariant fired + Fired(pending, alive) == Fired(due, alive)
        invariant multiset(timers) + multiset(Rescheduled(pending, alive, now))
                  == multiset(old(timers)) + multiset(Rescheduled(due, alive, now))
        decreases |pending|
      {
        assert Fired(pending, alive) == FiredOne(pending[0], alive) + Fired(pending[1..], alive);
        assert multiset(Rescheduled(pending, alive, now))
            == multiset(RescheduledOne(pending[0], alive, now)) + multiset(Rescheduled(pending[1..], alive, now));
        var one := Fire(pending[0], now, alive);
        AppendAssoc(fired, one, Fired(pending[1..], alive));
        fired := fired + one;
        pending := pending[1..];
      }
    }

    /** The `TimerElapsed` branch, firing each due timer once: the timers
        due at `now` are taken off the front in order, the ones still alive
        fire, and the repeating ones are scheduled again one period after
        `now`. With no zero-period repeating timer this is the loop as
        written; with one, the loop as written never ends (see
        `AsWrittenZeroPeriodSpins`). */
    method ProcessElapsed(now: nat, alive: map<nat, ThreadTimer>) returns (fired: seq<nat>)
      requires Valid()
      modifies this
      ensures Valid()
      ensures var due := old(timers)[..DueCount(old(timers), now)];
        && fired == Fired(due, alive)
        && multiset(timers) == multiset(old(timers)[DueCount(old(timers), now)..]) + multiset(Rescheduled(due, alive, now))
      ensures PositivePeriods(alive) ==> AllLater(timers, now)
    {
      var count := DueCount(timers, now);
      var due := timers[..count];
      var rest := timers[count..];
      RestAfterDue(timers, now);
      timers := rest;
      fired := FireAll(due, now, alive);
      if PositivePeriods(alive) {
        RescheduledLater(timers, rest, due, alive, now);
      }
    }

    /** One turn of `timer_thread`'s loop for an event: a due timer runs the
        elapsed-timer processing, a command schedules its timer. */
    method HandleEvent(event: Event, now: nat, alive: map<nat, ThreadTimer>) returns (fired: seq<nat>)
      requires Valid()
      modifies this
      ensures Valid()
      ensures event.CommandEvent? ==> fired == [] && multiset(timers) == multiset(old(timers)) + multiset{event.command.scheduled}
      ensures event.TimerElapsed? ==> fired == Fired(old(timers)[..DueCount(old(timers), now)], alive)
    {
      match event
      case TimerElapsed =>
        fired := ProcessElapsed(now, alive);
      case CommandEvent(Schedule(t)) =>
        ScheduleTimer(t);
        fired := [];
    }
  }

  /** Scheduling three timers into an empty queue gives them in the order
      they are due, whatever order they were scheduled in. */
  method ScheduleExample() returns (queue: seq<ScheduledTimer>)
    ensures queue == [ScheduledTimer(1, 2), ScheduledTimer(5, 1), ScheduledTimer(9, 3)]
  {
    var thread := new TimerThread();
    thread.ScheduleTimer(ScheduledTimer(5, 1));
    assert thread.timers == [ScheduledTimer(5, 1)];
    thread.ScheduleTimer(ScheduledTimer(1, 2));
    assert thread.timers == [ScheduledTimer(1, 2), ScheduledTimer(5, 1)];
    thread.ScheduleTimer(ScheduledTimer(9, 3));
    queue := thread.timers;
  }
}
