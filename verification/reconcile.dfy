/** The reconciliation loop shared by the `Grid` and `Stack` widgets and the
    Gooey `Flex` rasterizer (src/widgets/grid.rs:98-128,
    src/widgets/stack.rs:58-117, crates/gooey-widgets/src/flex/raster.rs:37-62):
    the live list is brought in line with the target list position by
    position. An entry that already matches is kept, one found further on
    is swapped into place, and anything else is inserted new; whatever is
    left past the end of the target list is removed. Entries are compared
    with `==`; each widget states its own key. */
module CushyReconcile {
  import opened Common

  /** What one turn of the loop does at its position. */
  datatype SyncAction = Keep | SwapWith(other: nat) | Insert

  /** `iter().enumerate().skip(from).find(...)`: the first position at or
      after `from` holding `x`. */
  function FindFrom<T(==)>(s: seq<T>, x: T, from: nat): (r: Option<nat>)
    ensures r.Some? ==> from <= r.value < |s| && s[r.value] == x
    ensures r.None? ==> forall k :: from <= k < |s| ==> s[k] != x
    decreases |s| - from
  {
    if from >= |s| then None
    else if s[from] == x then Some(from)
    else FindFrom(s, x, from + 1)
  }

  /** The action taken at position `i` for the target entry `x`: keep a
      matching entry, swap in a matching entry found after `i`, or insert. */
  function ActionAt<T(==)>(live: seq<T>, x: T, i: nat): (a: SyncAction)
    ensures a.Keep? <==> i < |live| && live[i] == x
    ensures a.SwapWith? ==> i < a.other < |live| && live[a.other] == x
    ensures a.Insert? ==> forall k :: i <= k < |live| ==> live[k] != x
  {
    if i < |live| && live[i] == x then Keep
    else match FindFrom(live, x, i + 1)
      case Some(j) => SwapWith(j)
      case None => Insert
  }

  /** The action applied to a list kept in step with the live list
      (`Vec::swap`, `Vec::insert`); `made` is what an insertion adds.
      Positions before `i` are untouched. */
  function Apply<V>(vs: seq<V>, a: SyncAction, i: nat, made: V): (r: seq<V>)
    requires i <= |vs| && (a.SwapWith? ==> i < a.other < |vs|)
    ensures |r| == if a.Insert? then |vs| + 1 else |vs|
    ensures r[..i] == vs[..i]
    ensures a.Insert? ==> r[i] == made && r[i + 1..] == vs[i..]
    ensures a.SwapWith? ==> r[i] == vs[a.other] && r[a.other] == vs[i]
  {
    match a
    case Keep => vs
    case SwapWith(j) => vs[i := vs[j]][j := vs[i]]
    case Insert => vs[..i] + [made] + vs[i..]
  }

  /** Applying an action loses no entry. */
  lemma ApplyKeeps<V>(vs: seq<V>, a: SyncAction, i: nat, made: V, y: V)
    requires i <= |vs| && (a.SwapWith? ==> i < a.other < |vs|)
    requires y in vs
    ensures y in Apply(vs, a, i, made)
  {
    var r := Apply(vs, a, i, made);
    var p :| 0 <= p < |vs| && vs[p] == y;
    match a
    case Keep =>
    case SwapWith(j) =>
      var p' := if p == i then j else if p == j then i else p;
      assert r[p'] == y;
    case Insert =>
      if p < i {
        assert r[..i][p] == y;
      } else {
        assert r[i + 1..][p - i] == y;
      }
  }

  /** The live list and the entries inserted as new, after the loop has
      handled the first `n` targets: the list is long enough, its first `n`
      positions match, and it grew by what was inserted. */
  function Run<T(==)>(live: seq<T>, target: seq<T>, n: nat): (r: (seq<T>, seq<T>))
    requires n <= |target|
    ensures n <= |r.0| && r.0[..n] == target[..n]
    ensures |r.0| == |live| + |r.1|
    decreases n
  {
    if n == 0 then (live, [])
    else
      var (prev, rest) := Run(live, target, n - 1);
      var x := target[n - 1];
      var a := ActionAt(prev, x, n - 1);
      var r := Apply(prev, a, n - 1, x);
      assert r[..n] == r[..n - 1] + [r[n - 1]];
      assert target[..n] == target[..n - 1] + [target[n - 1]];
      (r, if a.Insert? then rest + [x] else rest)
  }

  /** One turn of `Run`, with its parts named. */
  lemma RunUnfold<T>(live: seq<T>, target: seq<T>, n: nat, prev: seq<T>, rest: seq<T>, x: T, a: SyncAction)
    requires 0 < n <= |target|
    requires (prev, rest) == Run(live, target, n - 1) && x == target[n - 1]
    requires a == ActionAt(prev, x, n - 1)
    ensures Run(live, target, n) == (Apply(prev, a, n - 1, x), if a.Insert? then rest + [x] else rest)
  {
  }

  /** A list kept in step with the live list through the first `n` turns
      (the layout entries beside the children): it takes each turn's swap,
      and `made` of the target entry at each insertion. */
  function RunAlong<T(==), V>(live: seq<T>, target: seq<T>, vs: seq<V>, made: T -> V, n: nat): (r: seq<V>)
    requires n <= |target| && |vs| == |live|
    ensures |r| == |Run(live, target, n).0|
    decreases n
  {
    if n == 0 then vs
    else
      var (prev, rest) := Run(live, target, n - 1);
      var x := target[n - 1];
      var a := ActionAt(prev, x, n - 1);
      RunUnfold(live, target, n, prev, rest, x, a);
      Apply(RunAlong(live, target, vs, made, n - 1), a, n - 1, made(x))
  }

  /** When every entry of the kept list is what `made` gives for its live
      entry, the two lists stay paired that way through the loop. */
  lemma {:induction false} RunAlongMade<T, V>(live: seq<T>, target: seq<T>, vs: seq<V>, made: T -> V, n: nat)
    requires n <= |target| && |vs| == |live|
    requires forall k :: 0 <= k < |live| ==> vs[k] == made(live[k])
    ensures forall k :: 0 <= k < |Run(live, target, n).0| ==> RunAlong(live, target, vs, made, n)[k] == made(Run(live, target, n).0[k])
  {
    if n > 0 {
      RunAlongMade(live, target, vs, made, n - 1);
      var (prev, rest) := Run(live, target, n - 1);
      var x := target[n - 1];
      var a := ActionAt(prev, x, n - 1);
      RunUnfold(live, target, n, prev, rest, x, a);
      var along := RunAlong(live, target, vs, made, n - 1);
      ApplyPaired(prev, along, a, n - 1, x, made);
    }
  }

  /** One action applied to two paired lists keeps them paired. */
  lemma ApplyPaired<T, V>(ts: seq<T>, vs: seq<V>, a: SyncAction, i: nat, x: T, made: T -> V)
    requires |ts| == |vs| && i <= |ts| && (a.SwapWith? ==> i < a.other < |ts|)
    requires forall k :: 0 <= k < |ts| ==> vs[k] == made(ts[k])
    ensures forall k :: 0 <= k < |Apply(ts, a, i, x)| ==> Apply(vs, a, i, made(x))[k] == made(Apply(ts, a, i, x)[k])
  {
    var rt := Apply(ts, a, i, x);
    var rv := Apply(vs, a, i, made(x));
    forall k | 0 <= k < |rt|
      ensures rv[k] == made(rt[k])
    {
      if a.Insert? {
        if k < i {
          assert rt[k] == rt[..i][k] == ts[k] && rv[k] == rv[..i][k] == vs[k];
        } else if k > i {
          assert rt[k] == rt[i + 1..][k - i - 1] == ts[k - 1] && rv[k] == rv[i + 1..][k - i - 1] == vs[k - 1];
        }
      }
    }
  }

  /** The loop itself, on values (`Grid::synchronize_children`,
      `FlexRasterizer::synchronize_children`): each target position keeps a
      matching entry, swaps in one found further on, or inserts the target
      entry, and the kept list `along` takes the same swaps and `made` of
      each inserted entry. */
  method Synchronize<T(==), V>(live: seq<T>, target: seq<T>, vs: seq<V>, made: T -> V)
    returns (synced: seq<T>, along: seq<V>, inserted: seq<T>)
    requires |vs| == |live|
    ensures (synced, inserted) == Run(live, target, |target|)
    ensures along == RunAlong(live, target, vs, made, |target|)
  {
    synced, along, inserted := live, vs, [];
    var index := 0;
    while index < |target|
      invariant index <= |target|
      invariant (synced, inserted) == Run(live, target, index)
      invariant along == RunAlong(live, target, vs, made, index)
    {
      var x := target[index];
      ghost var a := ActionAt(synced, x, index);
      RunUnfold(live, target, index + 1, synced, inserted, x, a);
      if !(index < |synced| && synced[index] == x) {
        match FindFrom(synced, x, index + 1) {
          case Some(j) =>
            synced := synced[index := synced[j]][j := synced[index]];
            along := along[index := along[j]][j := along[index]];
          case None =>
            synced := synced[..index] + [x] + synced[index..];
            along := along[..index] + [made(x)] + along[index..];
            inserted := inserted + [x];
        }
      }
      index := index + 1;
    }
  }

  /** After the loop and the removal of the tail, the live list is exactly
      the target list, and the tail is what is removed. */
  function Reconciled<T(==)>(live: seq<T>, target: seq<T>): (r: (seq<T>, seq<T>))
    ensures r.0 == target
    ensures |live| + |Run(live, target, |target|).1| == |target| + |r.1|
  {
    var s := Run(live, target, |target|).0;
    (s[..|target|], s[|target|..])
  }

  /** Synchronizing a list with itself inserts nothing and removes
      nothing. */
  lemma ReconciledOnItself<T>(t: seq<T>)
    ensures Run(t, t, |t|).1 == [] && Reconciled(t, t) == (t, [])
  {
    RunOnItselfKeeps(t, |t|);
  }

  /** Nothing live is lost: every entry of the original list is still in
      the list after `n` turns. */
  lemma {:induction false} RunKeeps<T>(live: seq<T>, target: seq<T>, n: nat, y: T)
    requires n <= |target| && y in live
    ensures y in Run(live, target, n).0
  {
    if n > 0 {
      RunKeeps(live, target, n - 1, y);
      var (prev, rest) := Run(live, target, n - 1);
      var x := target[n - 1];
      var a := ActionAt(prev, x, n - 1);
      RunUnfold(live, target, n, prev, rest, x, a);
      ApplyKeeps(prev, a, n - 1, x, y);
    }
  }

  /** Every entry of the original list ends up either in the target or in
      the removed tail. */
  lemma ReconciledKeeps<T>(live: seq<T>, target: seq<T>, y: T)
    requires y in live
    ensures y in target || y in Reconciled(live, target).1
  {
    var s := Run(live, target, |target|).0;
    RunKeeps(live, target, |target|, y);
    assert s == s[..|target|] + s[|target|..];
  }

  /** Run against itself, the loop keeps every entry and inserts none. */
  lemma {:induction false} RunOnItselfKeeps<T>(t: seq<T>, n: nat)
    requires n <= |t|
    ensures Run(t, t, n) == (t, [])
  {
    if n > 0 {
      RunOnItselfKeeps(t, n - 1);
      RunUnfold(t, t, n, t, [], t[n - 1], ActionAt(t, t[n - 1], n - 1));
    }
  }

  /** An entry inserted at position `i` is absent from the list at that
      point, when the target has no repeats. */
  lemma InsertedIsAbsent<T>(live: seq<T>, target: seq<T>, i: nat)
    requires i < |target| && Distinct(target)
    requires ActionAt(Run(live, target, i).0, target[i], i).Insert?
    ensures target[i] !in Run(live, target, i).0
  {
    var prev := Run(live, target, i).0;
    forall k | 0 <= k < |prev|
      ensures prev[k] != target[i]
    {
      if k < i {
        assert prev[k] == prev[..i][k] == target[..i][k] == target[k];
      }
    }
  }

  /** With a target without repeats, nothing that was already live is
      inserted again: an entry found later is swapped, never re-created. */
  lemma {:induction false} InsertedWereNotLive<T>(live: seq<T>, target: seq<T>, n: nat, y: T)
    requires n <= |target| && Distinct(target)
    requires y in Run(live, target, n).1
    ensures y !in live
  {
    var (prev, rest) := Run(live, target, n - 1);
    var x := target[n - 1];
    var a := ActionAt(prev, x, n - 1);
    RunUnfold(live, target, n, prev, rest, x, a);
    if y in rest {
      InsertedWereNotLive(live, target, n - 1, y);
    } else {
      assert a.Insert? && y == x;
      InsertedIsAbsent(live, target, n - 1);
      if y in live {
        RunKeeps(live, target, n - 1, y);
      }
    }
  }

  /** With neither list repeating an entry, the live list never repeats
      one either. */
  lemma {:induction false} SyncedDistinct<T>(live: seq<T>, target: seq<T>, n: nat)
    requires n <= |target| && Distinct(target) && Distinct(live)
    ensures Distinct(Run(live, target, n).0)
  {
    if n > 0 {
      SyncedDistinct(live, target, n - 1);
      var (prev, rest) := Run(live, target, n - 1);
      var x := target[n - 1];
      var a := ActionAt(prev, x, n - 1);
      RunUnfold(live, target, n, prev, rest, x, a);
      match a
      case Keep =>
      case SwapWith(j) =>
        SwapKeepsDistinct(prev, n - 1, j);
      case Insert =>
        InsertedIsAbsent(live, target, n - 1);
        InsertKeepsDistinct(prev, n - 1, x);
    }
  }

  /** With neither list repeating an entry, only entries missing from the
      target are removed. */
  lemma RemovedAreStale<T>(live: seq<T>, target: seq<T>)
    requires Distinct(target) && Distinct(live)
    ensures forall x :: x in Reconciled(live, target).1 ==> x !in target
  {
    var s := Run(live, target, |target|).0;
    SyncedDistinct(live, target, |target|);
    forall x | x in s[|target|..]
      ensures x !in target
    {
      var q :| |target| <= q < |s| && s[q] == x;
      forall p | 0 <= p < |target|
        ensures target[p] != x
      {
        assert target[p] == s[..|target|][p] == s[p];
      }
    }
  }
}
