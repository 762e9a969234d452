/** Animations (src/animation.rs): the shared animation state with its
    spawned and running animations, handles that cancel them, a running
    animation's completion logic, and the chain that runs one animation
    after another. Durations are whole nanoseconds; the interpolation is
    linear and exact, rounded to the nearest integer. */
module CushyAnimation {
  import opened Common

  /** `Duration::MAX`: `u64::MAX` seconds and 999,999,999 nanoseconds. */
  const DURATION_MAX: nat := 18_446_744_073_709_551_615_999_999_999

  /** A `Duration`, in nanoseconds. */
  type Duration = d: nat | d <= DURATION_MAX

  /** `checked_add(..).unwrap_or(Duration::MAX)`: the sum, saturating at
      `Duration::MAX`. */
  function SaturatingAdd(a: Duration, b: Duration): (r: Duration)
    ensures a <= r && b <= r && r <= a + b
    ensures r == a + b || r == DURATION_MAX
  {
    if a + b <= DURATION_MAX then a + b else DURATION_MAX
  }

  /** `ControlFlow<Duration>` as `animate` returns it: keep going, or done
      with the time that was not needed. */
  datatype Flow = Continue | Break(remaining: Duration)

  /** The share `elapsed / duration` of `delta`, rounded to the nearest
      integer with halves rounded up, as `(delta as f32 * percent).round()`
      does for non-negative values. */
  function RoundedShare(delta: nat, elapsed: nat, duration: nat): (r: nat)
    requires 0 < duration && elapsed <= duration
    ensures r <= delta
    ensures elapsed == 0 ==> r == 0
    ensures elapsed == duration ==> r == delta
  {
    var x := 2 * delta * elapsed + duration;
    ShareBound(delta, elapsed, duration);
    if elapsed == duration then
      assert x == (2 * duration) * delta + duration;
      DivExact(2 * duration, delta, duration);
      x / (2 * duration)
    else
      x / (2 * duration)
  }

  /** Multiplication by a natural number is monotonic. */
  lemma {:induction false} MulMono(q: nat, a: nat, b: nat)
    requires a <= b
    ensures q * a <= q * b
  {
    if a < b {
      MulMono(q, a, b - 1);
      assert q * b == q * (b - 1) + q;
    }
  }

  /** `(q * k + m) / q == k` for `0 <= m < q`. */
  lemma DivExact(q: nat, k: nat, m: nat)
    requires 0 <= m < q
    ensures (q * k + m) / q == k
  {
    var x := q * k + m;
    var d := x / q;
    assert x == q * d + x % q;
    if d < k {
      assert q * (d + 1) == q * d + q;
      MulMono(q, d + 1, k);
    } else if d > k {
      assert q * (k + 1) == q * k + q;
      MulMono(q, k + 1, d);
    }
  }

  /** The rounded share never exceeds `delta`. */
  lemma ShareBound(delta: nat, elapsed: nat, duration: nat)
    requires 0 < duration && elapsed <= duration
    ensures (2 * delta * elapsed + duration) / (2 * duration) <= delta
  {
    var q := 2 * duration;
    var x := 2 * delta * elapsed + duration;
    MulMono(2 * delta, elapsed, duration);
    assert 2 * delta * duration == q * delta;
    assert q * (delta + 1) == q * delta + q;
    var k := x / q;
    assert x == q * k + x % q;
    if k > delta {
      MulMono(q, delta + 1, k);
    }
  }

  /** `LinearInterpolate::lerp` for integers, at progress
      `elapsed / duration`: from `start`, the rounded share of the distance
      towards `target`, in its direction. */
  function Lerp(start: int, target: int, elapsed: nat, duration: nat): (r: int)
    requires 0 < duration && elapsed <= duration
    ensures Min(start, target) <= r <= Max(start, target)
    ensures elapsed == 0 ==> r == start
    ensures elapsed == duration ==> r == target
  {
    if target > start then start + RoundedShare(target - start, elapsed, duration)
    else start - RoundedShare(start - target, elapsed, duration)
  }

  /** The `integer_lerps` test: halfway from the minimum to the maximum of
      `u8` is 128, and of `i8` and `i32` is 0. */
  lemma IntegerLerps()
    ensures Lerp(0, 255, 1, 2) == 128
    ensures Lerp(-128, 127, 1, 2) == 0
    ensures Lerp(-0x8000_0000, 0x7FFF_FFFF, 1, 2) == 0
  {
    assert RoundedShare(255, 1, 2) == 128;
    assert RoundedShare(0xFFFF_FFFF, 1, 2) == 0x8000_0000;
  }

  /** The `Dynamic` an animation changes. */
  class Target {
    var value: int

    constructor(value: int)
      ensures this.value == value
    {
      this.value := value;
    }
  }

  /** `Animation`: the value to change, the value to reach and how long to
      take. */
  datatype Animation = Animation(target: Target, end: int, duration: Duration)

  /** `RunningAnimation`: the animation, the value it started from and the
      time it has run. */
  class RunningAnimation {
    const target: Target
    const end: int
    const duration: Duration
    const start: int
    var elapsed: Duration

    /** `into_animate`: starts from the target's current value, with no
        time elapsed. */
    constructor IntoAnimate(a: Animation)
      ensures target == a.target && end == a.end && duration == a.duration
      ensures start == a.target.value && elapsed == 0
    {
      target := a.target;
      end := a.end;
      duration := a.duration;
      start := a.target.value;
      elapsed := 0;
    }

    /** `Animate::animate`: the elapsed time accumulates, saturating. Once it
        reaches the duration, the target gets the end value and the time
        beyond the duration is handed back; before that, the target gets
        the interpolated value and the animation continues. */
    method Animate(step: Duration) returns (r: Flow)
      modifies this, target
      ensures elapsed == SaturatingAdd(old(elapsed), step)
      ensures elapsed >= duration ==> r == Break(elapsed - duration) && target.value == end
      ensures elapsed < duration ==> r == Continue && target.value == Lerp(start, end, elapsed, duration)
    {
      elapsed := SaturatingAdd(elapsed, step);
      if elapsed >= duration {
        target.value := end;
        r := Break(elapsed - duration);
      } else {
        target.value := Lerp(start, end, elapsed, duration);
        r := Continue;
      }
    }
  }

  /** While an animation runs, its target stays between the start and the
      end value, and it completes exactly when the accumulated time reaches
      the duration. */
  method AnimateStaysInRange(a: RunningAnimation, step: Duration) returns (r: Flow)
    modifies a, a.target
    ensures Min(a.start, a.end) <= a.target.value <= Max(a.start, a.end)
    ensures r.Break? <==> SaturatingAdd(old(a.elapsed), step) >= a.duration
  {
    r := a.Animate(step);
  }

  /** `ChainState`: animating the first animation, or the second. */
  datatype ChainPhase = AnimatingFirst | AnimatingSecond

  /** `RunningChain`: the running first animation, the second one waiting
      to start, and, once started, the running second animation. */
  class RunningChain {
    const first: RunningAnimation
    const second: Animation
    var phase: ChainPhase
    var secondRunning: RunningAnimation?

    /** The second animation runs exactly in the second phase, as started
        from `second`, and is a different object from the first. */
    ghost predicate Valid()
      reads this
    {
      && (phase == AnimatingSecond <==> secondRunning != null)
      && secondRunning != first
      && (secondRunning != null ==>
            secondRunning.target == second.target && secondRunning.end == second.end
            && secondRunning.duration == second.duration)
    }

    /** `Chain::into_animate`: the first animation starts; the second
        waits. */
    constructor IntoAnimate(a: Animation, b: Animation)
      ensures Valid() && phase == AnimatingFirst && second == b
      ensures fresh(first) && first.target == a.target && first.end == a.end && first.duration == a.duration
      ensures first.start == a.target.value && first.elapsed == 0
    {
      first := new RunningAnimation.IntoAnimate(a);
      second := b;
      phase := AnimatingFirst;
      secondRunning := null;
    }

    /** `RunningChain::animate`. While the first animation runs, the step
        goes to it. The call in which it completes starts the second one,
        from the target's value at that moment, and runs it for the time
        left over. After that, every step goes to the second animation. */
    method Animate(step: Duration) returns (r: Flow)
      requires Valid()
      modifies this, first, first.target, second.target, secondRunning
      ensures Valid()
      ensures old(phase) == AnimatingFirst ==> first.elapsed == SaturatingAdd(old(first.elapsed), step)
      ensures old(phase) == AnimatingFirst && first.elapsed < first.duration ==>
        && r == Continue && phase == AnimatingFirst
        && first.target.value == Lerp(first.start, first.end, first.elapsed, first.duration)
      ensures old(phase) == AnimatingFirst && first.elapsed >= first.duration ==>
        && phase == AnimatingSecond && fresh(secondRunning)
        && secondRunning.start == (if second.target == first.target then first.end else old(second.target.value))
        && secondRunning.elapsed == first.elapsed - first.duration
        && (secondRunning.elapsed >= second.duration ==>
              r == Break(secondRunning.elapsed - second.duration) && second.target.value == second.end)
        && (secondRunning.elapsed < second.duration ==> r == Continue)
      ensures old(phase) == AnimatingSecond ==>
        && phase == AnimatingSecond && secondRunning == old(secondRunning)
        && first.elapsed == old(first.elapsed)
        && secondRunning.elapsed == SaturatingAdd(old(secondRunning.elapsed), step)
        && (secondRunning.elapsed >= second.duration ==>
              r == Break(secondRunning.elapsed - second.duration) && second.target.value == second.end)
        && (secondRunning.elapsed < second.duration ==> r == Continue)
    {
      if phase == AnimatingFirst {
        r := first.Animate(step);
        if r.Break? {
          var b := new RunningAnimation.IntoAnimate(second);
          secondRunning := b;
          phase := AnimatingSecond;
          r := b.Animate(r.remaining);
        }
      } else {
        r := secondRunning.Animate(step);
      }
    }
  }

  /** A chain of two 10 ms animations of the same value, given 25 ms at
      once, finishes both with 5 ms left over, at the second end value. */
  method ChainInOneStep() returns (r: Flow, value: int)
    ensures r == Break(5_000_000) && value == 2
  {
    var t := new Target(0);
    var chain := new RunningChain.IntoAnimate(Animation(t, 1, 10_000_000), Animation(t, 2, 10_000_000));
    r := chain.Animate(25_000_000);
    value := t.value;
  }

  /** The members of `s` that `keep` accepts, in order. */
  function Filter(s: seq<nat>, keep: nat -> bool): (r: seq<nat>)
    ensures |r| <= |s|
  {
    if s == [] then []
    else Filter(s[..|s| - 1], keep) + (if keep(s[|s| - 1]) then [s[|s| - 1]] else [])
  }

  /** Filtering keeps exactly the accepted members. */
  lemma {:induction false} FilterMembership(s: seq<nat>, keep: nat -> bool)
    ensures forall x :: x in Filter(s, keep) <==> x in s && keep(x)
  {
    if s != [] {
      FilterMembership(s[..|s| - 1], keep);
      assert s == s[..|s| - 1] + [s[|s| - 1]];
    }
  }

  /** Appending a value above every member keeps a sequence strictly
      increasing. */
  lemma IncreasingSnoc(a: seq<nat>, x: nat)
    requires Increasing(a) && forall y :: y in a ==> y < x
    ensures Increasing(a + [x])
  {
    forall i, j | 0 <= i < j < |a| + 1
      ensures (a + [x])[i] < (a + [x])[j]
    {
      if j == |a| {
        assert (a + [x])[i] == a[i] && a[i] in a;
      }
    }
  }

  /** Filtering keeps a strictly increasing sequence strictly
      increasing. */
  lemma {:induction false} FilterIncreasing(s: seq<nat>, keep: nat -> bool)
    requires Increasing(s)
    ensures Increasing(Filter(s, keep))
  {
    if s != [] {
      var init := s[..|s| - 1];
      var last := s[|s| - 1];
      assert Increasing(init);
      FilterIncreasing(init, keep);
      FilterMembership(init, keep);
      if keep(last) {
        forall y | y in Filter(init, keep)
          ensures y < last
        {
          var i :| 0 <= i < |init| && init[i] == y;
        }
        IncreasingSnoc(Filter(init, keep), last);
      }
    }
  }

  /** A strictly increasing sequence, as kempt's sorted `Set` stores its
      members. */
  predicate Increasing(s: seq<nat>)
  {
    forall i, j :: 0 <= i < j < |s| ==> s[i] < s[j]
  }

  /** Accepts every id but one. */
  function Except(id: nat): nat -> bool
  {
    x => x != id
  }

  /** The loop of the animation thread over the running set: the member
      at `index` is animated, and removed when it completes or else
      stepped over. */
  method FilterRunning(running: seq<nat>, continues: nat -> bool) returns (rs: seq<nat>)
    ensures rs == Filter(running, continues)
  {
    rs := running;
    var index := 0;
    ghost var k := 0;
    while index < |rs|
      invariant 0 <= k <= |running| && index == |Filter(running[..k], continues)|
      invariant rs == Filter(running[..k], continues) + running[k..]
    {
      FilterStep(running, continues, k, rs);
      if !continues(rs[index]) {
        rs := rs[..index] + rs[index + 1..];
      } else {
        index := index + 1;
      }
      k := k + 1;
    }
    assert running[..k] == running;
  }

  /** One step of that loop: the member at the cursor is the next one of
      `running`; keeping it moves it into the filtered part, dropping it
      removes it. */
  lemma FilterStep(running: seq<nat>, keep: nat -> bool, k: nat, rs: seq<nat>)
    requires k < |running| && rs == Filter(running[..k], keep) + running[k..]
    ensures var f := Filter(running[..k], keep);
      && |f| < |rs| && rs[|f|] == running[k]
      && (keep(running[k]) ==> rs == Filter(running[..k + 1], keep) + running[k + 1..])
      && (!keep(running[k]) ==> rs[..|f|] + rs[|f| + 1..] == Filter(running[..k + 1], keep) + running[k + 1..])
  {
    var f := Filter(running[..k], keep);
    assert running[..k + 1][..k] == running[..k];
    assert running[k..] == [running[k]] + running[k + 1..];
    AppendAssoc(f, [running[k]], running[k + 1..]);
  }

  /** A handle on a spawned animation; dropping or clearing it stops the
      animation. */
  class AnimationHandle {
    var id: Option<nat>

    /** `AnimationHandle::new`: a handle on no animation. */
    constructor()
      ensures id.None?
    {
      id := None;
    }

    /** A handle on the given animation. */
    constructor Of(id: nat)
      ensures this.id == Some(id)
    {
      this.id := Some(id);
    }

    /** `clear` (and `drop`): takes the id, and removes that animation from
        the state; with no id, nothing changes. */
    method Clear(state: Animating)
      requires state.Valid()
      modifies this, state
      ensures id.None? && state.Valid()
      ensures old(id).None? ==> state.animations == old(state.animations) && state.running == old(state.running)
      ensures old(id).Some? ==>
        && state.animations == old(state.animations) - {old(id).value}
        && state.running == Filter(old(state.running), Except(old(id).value))
      ensures state.nextId == old(state.nextId) && state.wakeups == old(state.wakeups)
    {
      if id.Some? {
        state.RemoveAnimation(id.value);
      }
      id := None;
    }
  }

  /** `Animating`: the spawned animations by id (each a boxed animation,
      named here by an identifier), the ids of those still running, when
      the animation thread last ran, and how many times a spawn woke it. */
  class Animating {
    var animations: map<nat, nat>
    var running: seq<nat>
    var lastUpdated: Option<nat>
    var nextId: nat
    var wakeups: nat

    /** Ids are below the next one to hand out; running ids are sorted and
        name spawned animations. */
    ghost predicate Valid()
      reads this
    {
      && (forall id :: id in animations ==> id < nextId)
      && Increasing(running)
      && (forall i :: 0 <= i < |running| ==> running[i] in animations)
    }

    /** `Animating::new`: nothing spawned. */
    constructor()
      ensures Valid() && animations == map[] && running == [] && lastUpdated.None? && wakeups == 0
    {
      animations := map[];
      running := [];
      lastUpdated := None;
      nextId := 0;
      wakeups := 0;
    }

    /** `spawn`: the animation gets a fresh id, which is stored and starts
        running; the animation thread is woken when nothing was running. */
    method Spawn(animation: nat) returns (handle: AnimationHandle)
      requires Valid()
      modifies this
      ensures Valid() && fresh(handle)
      ensures handle.id == Some(old(nextId)) && old(nextId) !in old(animations)
      ensures animations == old(animations)[old(nextId) := animation]
      ensures running == old(running) + [old(nextId)]
      ensures wakeups == old(wakeups) + (if old(running) == [] then 1 else 0)
      ensures lastUpdated == old(lastUpdated)
    {
      var id := nextId;
      nextId := nextId + 1;
      animations := animations[id := animation];
      if running == [] {
        wakeups := wakeups + 1;
      }
      running := running + [id];
      handle := new AnimationHandle.Of(id);
    }

    /** `remove_animation`: the id leaves both the animations and the
        running set. */
    method RemoveAnimation(id: nat)
      requires Valid()
      modifies this
      ensures Valid()
      ensures animations == old(animations) - {id} && running == Filter(old(running), Except(id))
      ensures id !in animations && id !in running
      ensures nextId == old(nextId) && wakeups == old(wakeups) && lastUpdated == old(lastUpdated)
    {
      FilterMembership(running, Except(id));
      FilterIncreasing(running, Except(id));
      animations := animations - {id};
      running := Filter(running, Except(id));
      forall i | 0 <= i < |running|
        ensures running[i] in animations
      {
        assert running[i] in running;
      }
    }

    /** One pass of the animation thread with animations running: the time
        since the last pass (none on the first), and every running
        animation animated once, in order, those that complete leaving the
        running set. `continues` says which animations keep going. */
    method Tick(now: nat, continues: nat -> bool) returns (elapsed: nat)
      requires Valid() && running != []
      requires lastUpdated.Some? ==> lastUpdated.value <= now
      modifies this
      ensures Valid()
      ensures elapsed == (if old(lastUpdated).Some? then now - old(lastUpdated).value else 0)
      ensures lastUpdated == Some(now)
      ensures running == Filter(old(running), continues)
      ensures animations == old(animations) && nextId == old(nextId) && wakeups == old(wakeups)
    {
      FilterMembership(running, continues);
      FilterIncreasing(running, continues);
      var lastTick := if lastUpdated.Some? then lastUpdated.value else now;
      elapsed := now - lastTick;
      lastUpdated := Some(now);
      running := FilterRunning(running, continues);
      forall i | 0 <= i < |running|
        ensures running[i] in animations
      {
        assert running[i] in running;
      }
    }

    /** With nothing running, the thread forgets when it last ran and
        waits. */
    method Idle()
      requires running == []
      modifies this
      ensures lastUpdated.None?
      ensures animations == old(animations) && running == old(running) && nextId == old(nextId) && wakeups == old(wakeups)
    {
      lastUpdated := None;
    }
  }

  /** Clearing a handle twice removes its animation once: the second clear
      changes nothing. */
  method ClearIsIdempotent(state: Animating, animation: nat) returns (handle: AnimationHandle)
    requires state.Valid()
    modifies state
    ensures handle.id.None?
    ensures state.animations == old(state.animations) && state.running == old(state.running)
  {
    handle := state.Spawn(animation);
    ghost var id := handle.id.value;
    handle.Clear(state);
    handle.Clear(state);
    assert state.running == Filter(old(state.running) + [id], Except(id));
    assert (old(state.running) + [id])[..|old(state.running)|] == old(state.running);
    FilterAllKept(old(state.running), Except(id));
  }

  /** Filtering with a predicate that keeps every member changes
      nothing. */
  lemma {:induction false} FilterAllKept(s: seq<nat>, keep: nat -> bool)
    requires forall i :: 0 <= i < |s| ==> keep(s[i])
    ensures Filter(s, keep) == s
  {
    if s != [] {
      FilterAllKept(s[..|s| - 1], keep);
      assert s[..|s| - 1] + [s[|s| - 1]] == s;
    }
  }
}
