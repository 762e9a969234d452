/** The arena-based reactor of gooey-reactor (crates/gooey-reactor/src/lib.rs):
    a reactor owns an arena of scopes, each scope owns an arena of values and
    knows its parent and children. Values carry a non-zero generation and a
    list of callbacks; a mapping callback stores `map(value)` into the value
    that `map_each` created for it. Values are modelled as integers (the
    source stores them type-erased), and the arena's ids as counters that are
    never reused (`LotId`s carry a generation, so a stale id never matches).
    One reactor is modelled; the global registry of reactors is left out. */
module GooeyReactor {
  import opened Common

  type ScopeId = nat
  type ValueId = nat
  /** `NonZeroUsize` */
  type Generation = g: Usize | g >= 1 witness 1

  datatype ValueRef = ValueRef(scope: ScopeId, value: ValueId)

  /** `ValueMapping` (stores `f(value)` into `result`) or `ValueForEach`
      (runs a closure whose effects are not modelled). */
  datatype Callback = Mapping(f: int -> int, result: ValueRef) | ForEach

  datatype ValueData = ValueData(value: int, generation: Generation, callbacks: seq<Callback>)

  datatype ScopeData = ScopeData(parent: Option<ScopeId>, values: map<ValueId, ValueData>, children: set<ScopeId>)

  /** `ValueData::notify_changed`'s counter step: `checked_add(1)`, or 1 on
      overflow, so a generation is never 0. */
  function NextGeneration(g: Generation): (r: Generation)
    ensures g < USIZE_MAX ==> r == g + 1
    ensures g == USIZE_MAX ==> r == 1
  {
    g % USIZE_MAX + 1
  }

  /** Resolves a dynamic through its scope, as every accessor does. */
  function Lookup(scopes: map<ScopeId, ScopeData>, r: ValueRef): Option<ValueData>
  {
    if r.scope in scopes && r.value in scopes[r.scope].values
    then Some(scopes[r.scope].values[r.value])
    else None
  }

  /** Parent and child links agree. */
  ghost predicate Linked(scopes: map<ScopeId, ScopeData>)
  {
    && (forall s | s in scopes && scopes[s].parent.Some? ::
          scopes[s].parent.value in scopes && s in scopes[scopes[s].parent.value].children)
    && (forall s, c | s in scopes && c in scopes[s].children ::
          c in scopes && scopes[c].parent == Some(s))
  }

  /** Every mapping callback of value `v` targets a value created after it. */
  ghost predicate Forward(v: ValueId, callbacks: seq<Callback>)
  {
    forall i | 0 <= i < |callbacks| :: callbacks[i].Mapping? ==> callbacks[i].result.value > v
  }

  /** Each of the first `n` callbacks that is a mapping whose result existed
      in `a` has left that result holding `f(newValue)` in `b`. */
  ghost predicate MappingsHeld(a: map<ScopeId, ScopeData>, b: map<ScopeId, ScopeData>, callbacks: seq<Callback>, newValue: int, n: nat)
    requires n <= |callbacks|
  {
    forall i | 0 <= i < n && callbacks[i].Mapping? && Lookup(a, callbacks[i].result).Some? ::
      && Lookup(b, callbacks[i].result).Some?
      && Lookup(b, callbacks[i].result).value.value == callbacks[i].f(newValue)
  }

  /** Where a mapping's result comes from: the value whose callback list
      holds the mapping, and its position there. `map_each` always creates
      its result, so each value is fed by at most one mapping. */
  datatype Feed = Feed(source: ValueRef, index: nat)

  /** `fedBy` records the mapping feeding each result: every mapping callback
      in the arena is recorded at its result, and a result is created after
      its source and before the allocation counter. */
  ghost predicate FeedsRecorded(scopes: map<ScopeId, ScopeData>, fedBy: map<ValueRef, Feed>, nextValue: nat)
  {
    && (forall t | t in fedBy :: fedBy[t].source.value < t.value < nextValue)
    && (forall s, v, i | s in scopes && v in scopes[s].values && 0 <= i < |scopes[s].values[v].callbacks|
          && scopes[s].values[v].callbacks[i].Mapping? ::
          && scopes[s].values[v].callbacks[i].result in fedBy
          && fedBy[scopes[s].values[v].callbacks[i].result] == Feed(ValueRef(s, v), i))
  }

  /** Every mapping among `callbacks`, the callbacks of `r`, is recorded as
      feeding its result from `r`. */
  ghost predicate FeedsFrom(fedBy: map<ValueRef, Feed>, r: ValueRef, callbacks: seq<Callback>)
  {
    forall i | 0 <= i < |callbacks| && callbacks[i].Mapping? ::
      callbacks[i].result in fedBy && fedBy[callbacks[i].result] == Feed(r, i)
  }

  /** `q` is `t` or is fed, through a chain of mappings, from `t`: the values
      a `set` of `t` can reach. */
  ghost predicate Downstream(fedBy: map<ValueRef, Feed>, q: ValueRef, t: ValueRef)
    decreases q.value
  {
    q == t || (q in fedBy && fedBy[q].source.value < q.value && Downstream(fedBy, fedBy[q].source, t))
  }

  /** Only values downstream of `t` differ between `a` and `b`. */
  ghost predicate OnlyDownstreamChanged(a: map<ScopeId, ScopeData>, b: map<ScopeId, ScopeData>, fedBy: map<ValueRef, Feed>, t: ValueRef)
  {
    forall q: ValueRef | !Downstream(fedBy, q, t) :: Lookup(a, q) == Lookup(b, q)
  }

  lemma {:induction false} DownstreamIsLater(fedBy: map<ValueRef, Feed>, q: ValueRef, t: ValueRef)
    requires Downstream(fedBy, q, t)
    ensures t.value <= q.value
    decreases q.value
  {
    if q != t {
      DownstreamIsLater(fedBy, fedBy[q].source, t);
    }
  }

  /** What is downstream of a mapping's result is downstream of its source. */
  lemma {:induction false} DownstreamOfFed(fedBy: map<ValueRef, Feed>, q: ValueRef, t: ValueRef, r: ValueRef)
    requires t in fedBy && fedBy[t].source == r && r.value < t.value
    requires Downstream(fedBy, q, t)
    ensures Downstream(fedBy, q, r)
    decreases q.value
  {
    if q != t {
      DownstreamOfFed(fedBy, fedBy[q].source, t, r);
    }
  }

  /** The result of one mapping of `r` is not downstream of another's. */
  lemma SiblingNotDownstream(fedBy: map<ValueRef, Feed>, r: ValueRef, a: ValueRef, i: nat, b: ValueRef, j: nat)
    requires a in fedBy && fedBy[a] == Feed(r, i) && b in fedBy && fedBy[b] == Feed(r, j) && i != j
    requires r.value < b.value
    ensures !Downstream(fedBy, a, b)
  {
    if Downstream(fedBy, a, b) {
      assert a != b;
      DownstreamIsLater(fedBy, r, b);
    }
  }

  /** A change confined downstream of a mapping's result is confined
      strictly downstream of its source. */
  lemma NarrowerChange(a: map<ScopeId, ScopeData>, b: map<ScopeId, ScopeData>, fedBy: map<ValueRef, Feed>, t: ValueRef, r: ValueRef)
    requires t in fedBy && fedBy[t].source == r && r.value < t.value
    requires OnlyDownstreamChanged(a, b, fedBy, t)
    ensures forall q: ValueRef | q == r || !Downstream(fedBy, q, r) :: Lookup(a, q) == Lookup(b, q)
  {
    forall q: ValueRef | q == r || !Downstream(fedBy, q, r) ensures Lookup(a, q) == Lookup(b, q) {
      if Downstream(fedBy, q, t) {
        DownstreamIsLater(fedBy, q, t);
        DownstreamOfFed(fedBy, q, t, r);
      }
    }
  }

  /** One more callback run: earlier mappings' results lie outside what the
      `set` of this mapping's result reaches, so they keep their values. */
  lemma MappingsStep(a: map<ScopeId, ScopeData>, before: map<ScopeId, ScopeData>, after: map<ScopeId, ScopeData>,
                     callbacks: seq<Callback>, newValue: int, i: nat, fedBy: map<ValueRef, Feed>, r: ValueRef)
    requires i < |callbacks| && MappingsHeld(a, before, callbacks, newValue, i)
    requires FeedsFrom(fedBy, r, callbacks) && Forward(r.value, callbacks)
    requires callbacks[i].Mapping? ==>
      && OnlyDownstreamChanged(before, after, fedBy, callbacks[i].result)
      && (Lookup(a, callbacks[i].result).Some? ==>
            Lookup(after, callbacks[i].result).Some? && Lookup(after, callbacks[i].result).value.value == callbacks[i].f(newValue))
    requires !callbacks[i].Mapping? ==> after == before
    ensures MappingsHeld(a, after, callbacks, newValue, i + 1)
  {
    if callbacks[i].Mapping? {
      forall k | 0 <= k < i && callbacks[k].Mapping?
        ensures Lookup(before, callbacks[k].result) == Lookup(after, callbacks[k].result)
      {
        SiblingNotDownstream(fedBy, r, callbacks[k].result, k, callbacks[i].result, i);
      }
    }
  }

  /** Same-shaped arenas record the same feeds. */
  lemma SameShapeKeepsFeeds(a: map<ScopeId, ScopeData>, b: map<ScopeId, ScopeData>, fedBy: map<ValueRef, Feed>, nv: nat)
    requires SameShape(a, b) && FeedsRecorded(a, fedBy, nv)
    ensures FeedsRecorded(b, fedBy, nv)
  {
    forall s, v, i | s in b && v in b[s].values && 0 <= i < |b[s].values[v].callbacks| && b[s].values[v].callbacks[i].Mapping?
      ensures b[s].values[v].callbacks[i].result in fedBy && fedBy[b[s].values[v].callbacks[i].result] == Feed(ValueRef(s, v), i)
    {
      assert v in a[s].values && a[s].values[v].callbacks == b[s].values[v].callbacks;
    }
  }

  /** The two arenas have the same scopes, links, values and callbacks;
      only stored values and generations may differ. */
  ghost predicate SameShape(a: map<ScopeId, ScopeData>, b: map<ScopeId, ScopeData>)
  {
    && a.Keys == b.Keys
    && forall s | s in a ::
         && a[s].parent == b[s].parent && a[s].children == b[s].children
         && a[s].values.Keys == b[s].values.Keys
         && forall v | v in a[s].values :: a[s].values[v].callbacks == b[s].values[v].callbacks
  }

  /** Every value whose id is below `k` is untouched. */
  ghost predicate UnchangedBelow(a: map<ScopeId, ScopeData>, b: map<ScopeId, ScopeData>, k: ValueId)
  {
    forall r: ValueRef | r.value < k :: Lookup(a, r) == Lookup(b, r)
  }

  /** A change confined downstream of `t` touches no value created before
      `t`. */
  lemma DownstreamChangeIsLater(a: map<ScopeId, ScopeData>, b: map<ScopeId, ScopeData>, fedBy: map<ValueRef, Feed>, t: ValueRef)
    requires OnlyDownstreamChanged(a, b, fedBy, t)
    ensures UnchangedBelow(a, b, t.value)
  {
    forall q: ValueRef | q.value < t.value ensures Lookup(a, q) == Lookup(b, q) {
      if Downstream(fedBy, q, t) {
        DownstreamIsLater(fedBy, q, t);
      }
    }
  }

  /** The arena invariant: links agree, a parent is older than its child, ids are
      below the allocation counters, and callbacks point forward. */
  ghost predicate ValidArena(scopes: map<ScopeId, ScopeData>, nextScope: nat, nextValue: nat)
  {
    && Linked(scopes)
    && (forall s | s in scopes :: s < nextScope && (scopes[s].parent.Some? ==> scopes[s].parent.value < s))
    && (forall s, v | s in scopes && v in scopes[s].values :: v < nextValue && Forward(v, scopes[s].values[v].callbacks))
  }

  /** Stores `d` as the data of the existing value `r`. */
  function UpdateValue(scopes: map<ScopeId, ScopeData>, r: ValueRef, d: ValueData): map<ScopeId, ScopeData>
    requires r.scope in scopes
  {
    scopes[r.scope := scopes[r.scope].(values := scopes[r.scope].values[r.value := d])]
  }

  lemma UpdateKeepsShape(scopes: map<ScopeId, ScopeData>, r: ValueRef, d: ValueData)
    requires Lookup(scopes, r).Some? && Lookup(scopes, r).value.callbacks == d.callbacks
    ensures SameShape(scopes, UpdateValue(scopes, r, d))
    ensures Lookup(UpdateValue(scopes, r, d), r) == Some(d)
    ensures forall q: ValueRef | q != r :: Lookup(scopes, q) == Lookup(UpdateValue(scopes, r, d), q)
  {
  }

  lemma SameShapeTransitive(a: map<ScopeId, ScopeData>, b: map<ScopeId, ScopeData>, c: map<ScopeId, ScopeData>)
    requires SameShape(a, b) && SameShape(b, c)
    ensures SameShape(a, c)
  {
  }

  lemma SameShapeKeepsValid(a: map<ScopeId, ScopeData>, b: map<ScopeId, ScopeData>, ns: nat, nv: nat)
    requires SameShape(a, b) && ValidArena(a, ns, nv)
    ensures ValidArena(b, ns, nv)
  {
    forall s, v | s in b && v in b[s].values ensures v < nv && Forward(v, b[s].values[v].callbacks) {
      assert v in a[s].values;
      assert Forward(v, a[s].values[v].callbacks);
    }
  }

  lemma SameShapeLookup(a: map<ScopeId, ScopeData>, b: map<ScopeId, ScopeData>, r: ValueRef)
    requires SameShape(a, b)
    ensures Lookup(a, r).Some? <==> Lookup(b, r).Some?
  {
  }


  /** Two arenas with the same scopes, parents and children are linked alike. */
  lemma SameLinks(a: map<ScopeId, ScopeData>, b: map<ScopeId, ScopeData>)
    requires Linked(a) && a.Keys == b.Keys
    requires forall s | s in a :: a[s].parent == b[s].parent && a[s].children == b[s].children
    ensures Linked(b)
  {
  }

  /** Replacing a value's data by data whose callbacks still point forward
      keeps the arena valid and leaves every other value alone. */
  lemma AppendCallbackKeepsValid(scopes: map<ScopeId, ScopeData>, ns: nat, nv: nat, r: ValueRef, d: ValueData)
    requires ValidArena(scopes, ns, nv) && Lookup(scopes, r).Some? && Forward(r.value, d.callbacks)
    ensures ValidArena(UpdateValue(scopes, r, d), ns, nv)
    ensures Lookup(UpdateValue(scopes, r, d), r) == Some(d)
    ensures forall q: ValueRef | q != r :: Lookup(UpdateValue(scopes, r, d), q) == Lookup(scopes, q)
  {
    var b := UpdateValue(scopes, r, d);
    SameLinks(scopes, b);
    forall s, v | s in b && v in b[s].values ensures v < nv && Forward(v, b[s].values[v].callbacks) {
      if s != r.scope || v != r.value {
        assert b[s].values[v] == scopes[s].values[v];
      }
    }
  }

  /** Adding scope `ns` as a child of `parent` keeps the arena valid once the
      scope counter moves past it. */
  lemma ChildScopeKeepsValid(scopes: map<ScopeId, ScopeData>, ns: nat, nv: nat, parent: ScopeId)
    requires ValidArena(scopes, ns, nv) && parent in scopes
    ensures var p := scopes[parent];
      ValidArena(scopes[parent := p.(children := p.children + {ns})][ns := ScopeData(Some(parent), map[], {})], ns + 1, nv)
  {
    var p := scopes[parent];
    var b := scopes[parent := p.(children := p.children + {ns})][ns := ScopeData(Some(parent), map[], {})];
    assert ns !in scopes;
    forall s | s in b && b[s].parent.Some?
      ensures b[s].parent.value in b && s in b[b[s].parent.value].children
    {
      if s != ns {
        assert b[s].parent == scopes[s].parent;
      }
    }
    forall s, c | s in b && c in b[s].children
      ensures c in b && b[c].parent == Some(s)
    {
      if s != parent {
        assert s != ns && c in scopes[s].children;
      }
    }
  }

  /** The scopes that `drop` of a `ScopeGuard` leaves behind. */
  function DetachedChildren(scopes: map<ScopeId, ScopeData>, removed: ScopeData): map<ScopeId, ScopeData>
  {
    map s | s in scopes :: if s in removed.children then scopes[s].(parent := None) else scopes[s]
  }

  class Reactor {
    var scopes: map<ScopeId, ScopeData>
    var nextScope: nat
    var nextValue: nat
    /** The mapping feeding each result `map_each` created. */
    ghost var fedBy: map<ValueRef, Feed>

    ghost predicate Valid()
      reads this
    {
      ValidArena(scopes, nextScope, nextValue) && FeedsRecorded(scopes, fedBy, nextValue)
    }

    /** `Reactor::default` */
    constructor ()
      ensures Valid() && scopes == map[]
    {
      scopes := map[];
      nextScope := 0;
      nextValue := 0;
      fedBy := map[];
    }

    /** `Reactor::new_scope`: a root scope. */
    method NewRootScope() returns (id: ScopeId)
      requires Valid()
      modifies this
      ensures Valid() && id !in old(scopes)
      ensures scopes == old(scopes)[id := ScopeData(None, map[], {})]
      ensures nextValue == old(nextValue) && fedBy == old(fedBy)
    {
      id := nextScope;
      NewScopeKeepsFeeds(scopes, fedBy, nextValue, id, ScopeData(None, map[], {}));
      scopes := scopes[id := ScopeData(None, map[], {})];
      nextScope := nextScope + 1;
    }

    /** `Scope::new_scope`: the child records its parent and the parent's
        `children` gains the child. Indexing a destroyed parent panics. */
    method NewScope(parent: ScopeId) returns (id: ScopeId)
      requires Valid() && parent in scopes
      modifies this
      ensures Valid() && id !in old(scopes) && id != parent
      ensures scopes == old(scopes)[parent := old(scopes)[parent].(children := old(scopes)[parent].children + {id})]
                                   [id := ScopeData(Some(parent), map[], {})]
      ensures nextValue == old(nextValue) && fedBy == old(fedBy)
    {
      id := nextScope;
      var p := scopes[parent];
      ChildScopeKeepsValid(scopes, nextScope, nextValue, parent);
      NewScopeKeepsFeeds(scopes, fedBy, nextValue, parent, p.(children := p.children + {id}));
      NewScopeKeepsFeeds(scopes[parent := p.(children := p.children + {id})], fedBy, nextValue, id, ScopeData(Some(parent), map[], {}));
      scopes := scopes[parent := p.(children := p.children + {id})][id := ScopeData(Some(parent), map[], {})];
      nextScope := nextScope + 1;
    }

    /** `Scope::new_dynamic`: a new value at generation 1 with no callbacks. */
    method NewDynamic(scope: ScopeId, initial: int) returns (r: ValueRef)
      requires Valid() && scope in scopes
      modifies this
      ensures Valid() && r.scope == scope && Lookup(old(scopes), r) == None
      ensures Lookup(scopes, r) == Some(ValueData(initial, 1, []))
      ensures scopes == old(scopes)[scope := old(scopes)[scope].(values := old(scopes)[scope].values[r.value := ValueData(initial, 1, [])])]
      ensures r.value == old(nextValue) && nextValue == old(nextValue) + 1 && nextScope == old(nextScope)
      ensures fedBy == old(fedBy)
    {
      r := ValueRef(scope, nextValue);
      var sd := scopes[scope];
      NewValueKeepsFeeds(scopes, fedBy, nextValue, r, initial);
      NewValueKeepsValid(scopes, nextScope, nextValue, r, initial);
      scopes := UpdateValue(scopes, r, ValueData(initial, 1, []));
      nextValue := nextValue + 1;
    }

    /** `Dynamic::get` / `map_ref`: `None` once the scope or value is gone. */
    function Get(r: ValueRef): (v: Option<int>)
      reads this
      ensures v.Some? <==> r.scope in scopes && r.value in scopes[r.scope].values
      ensures v.Some? ==> v.value == scopes[r.scope].values[r.value].value
    {
      match Lookup(scopes, r)
      case Some(d) => Some(d.value)
      case None => None
    }

    /** `Dynamic::generation` */
    function GenerationOf(r: ValueRef): (g: Option<Generation>)
      reads this
      ensures g.Some? <==> Lookup(scopes, r).Some?
      ensures g.Some? ==> g.value >= 1
    {
      match Lookup(scopes, r)
      case Some(d) => Some(d.generation)
      case None => None
    }

    /** `Dynamic::set`: replaces the value, advances its generation and runs
        its callbacks in order; a mapping callback sets its result dynamic in
        turn. Returns `None`, changing nothing, when the scope or value no
        longer exists. The change reaches only values fed from `r`, and every
        mapping of `r` leaves its result holding the mapped new value. */
    method Set(r: ValueRef, newValue: int) returns (previous: Option<int>)
      requires Valid()
      modifies this
      decreases if r.value < nextValue then nextValue - r.value else 0, 1
      ensures Valid() && SameShape(old(scopes), scopes)
      ensures nextScope == old(nextScope) && nextValue == old(nextValue) && fedBy == old(fedBy)
      ensures OnlyDownstreamChanged(old(scopes), scopes, fedBy, r)
      ensures Lookup(old(scopes), r).None? ==> previous.None? && scopes == old(scopes)
      ensures Lookup(old(scopes), r).Some? ==>
        var d := Lookup(old(scopes), r).value;
        && previous == Some(d.value)
        && Lookup(scopes, r) == Some(ValueData(newValue, NextGeneration(d.generation), d.callbacks))
        && MappingsHeld(old(scopes), scopes, d.callbacks, newValue, |d.callbacks|)
    {
      var found := Lookup(scopes, r);
      if found.None? {
        return None;
      }
      var d := found.value;
      previous := Some(d.value);
      assert Forward(r.value, d.callbacks);
      assert FeedsFrom(fedBy, r, d.callbacks);
      var updated := ValueData(newValue, NextGeneration(d.generation), d.callbacks);
      UpdateKeepsShape(scopes, r, updated);
      SameShapeKeepsValid(scopes, UpdateValue(scopes, r, updated), nextScope, nextValue);
      SameShapeKeepsFeeds(scopes, UpdateValue(scopes, r, updated), fedBy, nextValue);
      ghost var s0 := scopes;
      scopes := UpdateValue(scopes, r, updated);
      ghost var s1 := scopes;
      NotifyChanged(r, d.callbacks, newValue);
      SameShapeTransitive(s0, s1, scopes);
      forall i | 0 <= i < |d.callbacks| && d.callbacks[i].Mapping? && Lookup(s0, d.callbacks[i].result).Some?
        ensures Lookup(s1, d.callbacks[i].result).Some?
      {
        SameShapeLookup(s0, s1, d.callbacks[i].result);
      }
    }

    /** `ValueData::notify_changed`'s callback loop, for value `r`: each
        mapping sets its result, so every mapping's result ends holding its
        mapped value, and nothing but values fed from `r` changes. */
    method NotifyChanged(r: ValueRef, callbacks: seq<Callback>, newValue: int)
      requires Valid() && r.value < nextValue && Forward(r.value, callbacks) && FeedsFrom(fedBy, r, callbacks)
      modifies this
      decreases nextValue - r.value, 0
      ensures Valid() && SameShape(old(scopes), scopes)
      ensures nextScope == old(nextScope) && nextValue == old(nextValue) && fedBy == old(fedBy)
      ensures forall q: ValueRef | q == r || !Downstream(fedBy, q, r) :: Lookup(old(scopes), q) == Lookup(scopes, q)
      ensures MappingsHeld(old(scopes), scopes, callbacks, newValue, |callbacks|)
    {
      var i := 0;
      while i < |callbacks|
        invariant 0 <= i <= |callbacks|
        invariant Valid() && SameShape(old(scopes), scopes)
        invariant nextScope == old(nextScope) && nextValue == old(nextValue) && fedBy == old(fedBy)
        invariant forall q: ValueRef | q == r || !Downstream(fedBy, q, r) :: Lookup(old(scopes), q) == Lookup(scopes, q)
        invariant MappingsHeld(old(scopes), scopes, callbacks, newValue, i)
      {
        var cb := callbacks[i];
        ghost var before := scopes;
        if cb.Mapping? {
          var _ := Set(cb.result, cb.f(newValue));
          SameShapeTransitive(old(scopes), before, scopes);
          SameShapeLookup(old(scopes), before, cb.result);
          NarrowerChange(before, scopes, fedBy, cb.result, r);
        }
        MappingsStep(old(scopes), before, scopes, callbacks, newValue, i, fedBy, r);
        i := i + 1;
      }
    }

    /** `Dynamic::map_each`: a new dynamic in the same scope starting at
        `f(current)`, fed by a mapping callback; `None` if the source is gone. */
    method MapEach(r: ValueRef, f: int -> int) returns (mapped: Option<ValueRef>)
      requires Valid()
      modifies this
      ensures Valid()
      ensures Lookup(old(scopes), r).None? ==> mapped.None? && scopes == old(scopes)
      ensures Lookup(old(scopes), r).Some? ==>
        var d := Lookup(old(scopes), r).value;
        && mapped.Some? && mapped.value.scope == r.scope && mapped.value.value == old(nextValue)
        && Lookup(old(scopes), mapped.value).None?
        && Get(mapped.value) == Some(f(d.value))
        && Lookup(scopes, r) == Some(d.(callbacks := d.callbacks + [Mapping(f, mapped.value)]))
    {
      var found := Lookup(scopes, r);
      if found.None? {
        return None;
      }
      assert ValueRef(r.scope, nextValue) !in fedBy;
      var m := NewDynamic(r.scope, f(found.value.value));
      AddCallback(r, Mapping(f, m));
      mapped := Some(m);
    }

    /** `Dynamic::for_each`: registers an opaque callback if the value exists. */
    method AddForEach(r: ValueRef)
      requires Valid()
      modifies this
      ensures Valid() && nextValue == old(nextValue)
      ensures Lookup(old(scopes), r).None? ==> scopes == old(scopes)
      ensures Lookup(old(scopes), r).Some? ==>
        var d := Lookup(old(scopes), r).value;
        Lookup(scopes, r) == Some(d.(callbacks := d.callbacks + [ForEach]))
    {
      AddCallback(r, ForEach);
    }

    /** `ValueData::callbacks.push`, shared by `map_each` and `for_each`:
        appends `cb` to the callbacks of `r` if it exists, leaving every other
        value as it was. */
    method AddCallback(r: ValueRef, cb: Callback)
      requires Valid()
      requires cb.Mapping? ==> r.value < cb.result.value < nextValue && cb.result !in fedBy
      modifies this
      ensures Valid() && nextValue == old(nextValue) && nextScope == old(nextScope)
      ensures Lookup(old(scopes), r).None? ==> scopes == old(scopes) && fedBy == old(fedBy)
      ensures Lookup(old(scopes), r).Some? ==>
        var d := Lookup(old(scopes), r).value;
        && Lookup(scopes, r) == Some(d.(callbacks := d.callbacks + [cb]))
        && fedBy == if cb.Mapping? then old(fedBy)[cb.result := Feed(r, |d.callbacks|)] else old(fedBy)
      ensures forall q: ValueRef | q != r :: Lookup(scopes, q) == Lookup(old(scopes), q)
    {
      var found := Lookup(scopes, r);
      if found.Some? {
        var d' := found.value.(callbacks := found.value.callbacks + [cb]);
        AppendCallbackKeepsValid(scopes, nextScope, nextValue, r, d');
        AppendCallbackKeepsFeeds(scopes, fedBy, nextValue, r, found.value, cb);
        scopes := UpdateValue(scopes, r, d');
        if cb.Mapping? {
          fedBy := fedBy[cb.result := Feed(r, |found.value.callbacks|)];
        }
      }
    }

    /** `Drop for ScopeGuard`: removes the scope with its values, detaches its
        children, and removes it from its parent's `children` (asserting it
        was there). Dropping a scope twice is unreachable. */
    method DropScope(id: ScopeId)
      requires Valid() && id in scopes
      modifies this
      ensures Valid() && id !in scopes
      ensures scopes == ScopeDropped(old(scopes), id)
      ensures nextScope == old(nextScope) && nextValue == old(nextValue) && fedBy == old(fedBy)
    {
      var removed := scopes[id];
      ghost var s0 := scopes;
      scopes := scopes - {id};
      var remaining := removed.children;
      ghost var base := scopes;
      while remaining != {}
        invariant remaining <= removed.children
        invariant nextScope == old(nextScope) && nextValue == old(nextValue) && fedBy == old(fedBy)
        invariant scopes.Keys == base.Keys
        invariant forall s | s in scopes ::
          scopes[s] == if s in removed.children - remaining then base[s].(parent := None) else base[s]
        decreases remaining
      {
        var child :| child in remaining;
        ChildrenExist(s0, nextScope, nextValue, id, child);
        scopes := scopes[child := scopes[child].(parent := None)];
        remaining := remaining - {child};
      }
      assert scopes == DetachedChildren(s0, removed) - {id};
      if removed.parent.Some? {
        var p := removed.parent.value;
        ParentExists(s0, nextScope, nextValue, id);
        scopes := scopes[p := scopes[p].(children := scopes[p].children - {id})];
      }
      DropKeepsValid(s0, nextScope, nextValue, id);
      DropKeepsFeeds(s0, fedBy, nextValue, id);
    }
  }

  /** Storing a scope with no values, or with the values it had, keeps the
      recorded feeds. */
  lemma NewScopeKeepsFeeds(scopes: map<ScopeId, ScopeData>, fedBy: map<ValueRef, Feed>, nv: nat, id: ScopeId, sd: ScopeData)
    requires FeedsRecorded(scopes, fedBy, nv)
    requires if id in scopes then sd.values == scopes[id].values else sd.values == map[]
    ensures FeedsRecorded(scopes[id := sd], fedBy, nv)
  {
    var b := scopes[id := sd];
    forall s, v, i | s in b && v in b[s].values && 0 <= i < |b[s].values[v].callbacks| && b[s].values[v].callbacks[i].Mapping?
      ensures b[s].values[v].callbacks[i].result in fedBy && fedBy[b[s].values[v].callbacks[i].result] == Feed(ValueRef(s, v), i)
    {
      assert b[s].values[v] == scopes[s].values[v];
    }
  }

  /** A new value without callbacks, at the allocation counter, keeps the
      arena valid once the counter moves past it. */
  lemma NewValueKeepsValid(scopes: map<ScopeId, ScopeData>, ns: nat, nv: nat, r: ValueRef, initial: int)
    requires ValidArena(scopes, ns, nv) && r.scope in scopes && r.value == nv
    ensures ValidArena(UpdateValue(scopes, r, ValueData(initial, 1, [])), ns, nv + 1)
  {
    var b := UpdateValue(scopes, r, ValueData(initial, 1, []));
    SameLinks(scopes, b);
    forall s, v | s in b && v in b[s].values ensures v < nv + 1 && Forward(v, b[s].values[v].callbacks) {
      if s != r.scope || v != r.value {
        assert b[s].values[v] == scopes[s].values[v];
      }
    }
  }

  /** A new value without callbacks keeps the recorded feeds. */
  lemma NewValueKeepsFeeds(scopes: map<ScopeId, ScopeData>, fedBy: map<ValueRef, Feed>, nv: nat, r: ValueRef, initial: int)
    requires FeedsRecorded(scopes, fedBy, nv) && r.scope in scopes
    ensures FeedsRecorded(UpdateValue(scopes, r, ValueData(initial, 1, [])), fedBy, nv + 1)
  {
    var b := UpdateValue(scopes, r, ValueData(initial, 1, []));
    forall s, v, i | s in b && v in b[s].values && 0 <= i < |b[s].values[v].callbacks| && b[s].values[v].callbacks[i].Mapping?
      ensures b[s].values[v].callbacks[i].result in fedBy && fedBy[b[s].values[v].callbacks[i].result] == Feed(ValueRef(s, v), i)
    {
      assert b[s].values[v] == scopes[s].values[v];
    }
  }

  /** Appending a callback to `r` records a mapping's fresh result as fed by
      `r` at the new position. */
  lemma AppendCallbackKeepsFeeds(scopes: map<ScopeId, ScopeData>, fedBy: map<ValueRef, Feed>, nv: nat, r: ValueRef, d: ValueData, cb: Callback)
    requires FeedsRecorded(scopes, fedBy, nv) && Lookup(scopes, r) == Some(d)
    requires cb.Mapping? ==> r.value < cb.result.value < nv && cb.result !in fedBy
    ensures FeedsRecorded(UpdateValue(scopes, r, d.(callbacks := d.callbacks + [cb])),
      if cb.Mapping? then fedBy[cb.result := Feed(r, |d.callbacks|)] else fedBy, nv)
  {
    var b := UpdateValue(scopes, r, d.(callbacks := d.callbacks + [cb]));
    var fb := if cb.Mapping? then fedBy[cb.result := Feed(r, |d.callbacks|)] else fedBy;
    forall s, v, i | s in b && v in b[s].values && 0 <= i < |b[s].values[v].callbacks| && b[s].values[v].callbacks[i].Mapping?
      ensures b[s].values[v].callbacks[i].result in fb && fb[b[s].values[v].callbacks[i].result] == Feed(ValueRef(s, v), i)
    {
      if ValueRef(s, v) == r && i == |d.callbacks| {
        assert b[s].values[v].callbacks[i] == cb;
      } else {
        assert b[s].values[v].callbacks[i] == scopes[s].values[v].callbacks[i];
      }
    }
  }

  /** Dropping a scope keeps the recorded feeds of the values that remain. */
  lemma DropKeepsFeeds(scopes: map<ScopeId, ScopeData>, fedBy: map<ValueRef, Feed>, nv: nat, id: ScopeId)
    requires FeedsRecorded(scopes, fedBy, nv) && id in scopes
    ensures FeedsRecorded(ScopeDropped(scopes, id), fedBy, nv)
  {
    var b := ScopeDropped(scopes, id);
    DropKeepsEntries(scopes, id);
    forall s, v, i | s in b && v in b[s].values && 0 <= i < |b[s].values[v].callbacks| && b[s].values[v].callbacks[i].Mapping?
      ensures b[s].values[v].callbacks[i].result in fedBy && fedBy[b[s].values[v].callbacks[i].result] == Feed(ValueRef(s, v), i)
    {
      assert b[s].values[v] == scopes[s].values[v];
    }
  }

  /** The arena after dropping scope `id`. */
  function ScopeDropped(scopes: map<ScopeId, ScopeData>, id: ScopeId): map<ScopeId, ScopeData>
    requires id in scopes
  {
    var removed := scopes[id];
    var detached := DetachedChildren(scopes, removed) - {id};
    if removed.parent.Some? && removed.parent.value in detached
    then detached[removed.parent.value := detached[removed.parent.value].(children := detached[removed.parent.value].children - {id})]
    else detached
  }

  lemma ChildrenExist(scopes: map<ScopeId, ScopeData>, ns: nat, nv: nat, id: ScopeId, child: ScopeId)
    requires ValidArena(scopes, ns, nv) && id in scopes && child in scopes[id].children
    ensures child in scopes && child != id
  {
  }

  lemma ParentExists(scopes: map<ScopeId, ScopeData>, ns: nat, nv: nat, id: ScopeId)
    requires ValidArena(scopes, ns, nv) && id in scopes && scopes[id].parent.Some?
    ensures scopes[id].parent.value in scopes && scopes[id].parent.value != id
    ensures id in scopes[scopes[id].parent.value].children
    ensures scopes[id].parent.value !in scopes[id].children
  {
  }

  /** Dropping a scope keeps the arena invariant. */
  lemma DropKeepsValid(scopes: map<ScopeId, ScopeData>, ns: nat, nv: nat, id: ScopeId)
    requires ValidArena(scopes, ns, nv) && id in scopes
    ensures ValidArena(ScopeDropped(scopes, id), ns, nv)
  {
    var b := ScopeDropped(scopes, id);
    if scopes[id].parent.Some? {
      ParentExists(scopes, ns, nv, id);
    }
    DropKeepsParents(scopes, ns, nv, id);
    DropKeepsChildren(scopes, ns, nv, id);
    DropKeepsEntries(scopes, id);
  }

  /** Dropping only detaches links: every surviving scope keeps its values and
      either keeps its parent or loses it. */
  lemma DropKeepsEntries(scopes: map<ScopeId, ScopeData>, id: ScopeId)
    requires id in scopes
    ensures var b := ScopeDropped(scopes, id);
      && b.Keys == scopes.Keys - {id}
      && forall s | s in b :: b[s].values == scopes[s].values && (b[s].parent == None || b[s].parent == scopes[s].parent)
  {
    var removed := scopes[id];
    var detached := DetachedChildren(scopes, removed) - {id};
    assert detached.Keys == scopes.Keys - {id};
    forall s | s in detached
      ensures detached[s].values == scopes[s].values && (detached[s].parent == None || detached[s].parent == scopes[s].parent)
    {
    }
  }

  lemma DropKeepsParents(scopes: map<ScopeId, ScopeData>, ns: nat, nv: nat, id: ScopeId)
    requires ValidArena(scopes, ns, nv) && id in scopes
    ensures var b := ScopeDropped(scopes, id);
      forall s | s in b && b[s].parent.Some? :: b[s].parent.value in b && s in b[b[s].parent.value].children
  {
    var removed := scopes[id];
    var b := ScopeDropped(scopes, id);
    if removed.parent.Some? {
      ParentExists(scopes, ns, nv, id);
    }
    forall s | s in b && b[s].parent.Some?
      ensures b[s].parent.value in b && s in b[b[s].parent.value].children
    {
      var p := b[s].parent.value;
      assert s !in removed.children;
      assert scopes[s].parent == Some(p);
      assert s in scopes[p].children;
    }
  }

  lemma DropKeepsChildren(scopes: map<ScopeId, ScopeData>, ns: nat, nv: nat, id: ScopeId)
    requires ValidArena(scopes, ns, nv) && id in scopes
    ensures var b := ScopeDropped(scopes, id);
      forall s, c | s in b && c in b[s].children :: c in b && b[c].parent == Some(s)
  {
    var removed := scopes[id];
    var b := ScopeDropped(scopes, id);
    if removed.parent.Some? {
      ParentExists(scopes, ns, nv, id);
    }
    forall s, c | s in b && c in b[s].children
      ensures c in b && b[c].parent == Some(s)
    {
      DropChildLink(scopes, ns, nv, id, s, c);
    }
  }

  /** One surviving child link after the drop has its parent link. */
  lemma DropChildLink(scopes: map<ScopeId, ScopeData>, ns: nat, nv: nat, id: ScopeId, s: ScopeId, c: ScopeId)
    requires ValidArena(scopes, ns, nv) && id in scopes
    requires s in ScopeDropped(scopes, id) && c in ScopeDropped(scopes, id)[s].children
    ensures c in ScopeDropped(scopes, id) && ScopeDropped(scopes, id)[c].parent == Some(s)
  {
    DropEntry(scopes, id, s);
    assert c in scopes[s].children && c != id;
    assert scopes[c].parent == Some(s);
    if scopes[id].parent.Some? {
      ParentExists(scopes, ns, nv, id);
    }
    DropEntry(scopes, id, c);
  }

  /** The entry a surviving scope has after `id` is dropped. */
  lemma DropEntry(scopes: map<ScopeId, ScopeData>, id: ScopeId, s: ScopeId)
    requires id in scopes && s in scopes && s != id
    ensures var b := ScopeDropped(scopes, id);
      && s in b
      && b[s].parent == (if s in scopes[id].children then None else scopes[s].parent)
      && b[s].children == (if scopes[id].parent == Some(s) then scopes[s].children - {id} else scopes[s].children)
  {
  }

  /** What `ValueIterator::next` finds. */
  datatype IterStep = Yield(value: int) | Wait | Finished

  /** `ValueIterator`: remembers the generation it last read, starting at 1
      so that the initial value is not yielded. */
  class ValueIterator {
    const reactor: Reactor
    const target: ValueRef
    var readGeneration: Option<Generation>

    /** `Dynamic::iter` */
    constructor (reactor: Reactor, target: ValueRef)
      ensures this.reactor == reactor && this.target == target && readGeneration == Some(1)
    {
      this.reactor := reactor;
      this.target := target;
      readGeneration := Some(1);
    }

    /** One pass of `block_until_next_value`. */
    method Next() returns (step: IterStep)
      modifies this
      ensures Lookup(reactor.scopes, target).None? ==> step == Finished && readGeneration == old(readGeneration)
      ensures Lookup(reactor.scopes, target).Some? ==>
        var d := Lookup(reactor.scopes, target).value;
        if old(readGeneration) != Some(d.generation)
        then step == Yield(d.value) && readGeneration == Some(d.generation)
        else step == Wait && readGeneration == old(readGeneration)
    {
      var found := Lookup(reactor.scopes, target);
      if found.None? {
        step := Finished;
      } else if readGeneration != Some(found.value.generation) {
        readGeneration := Some(found.value.generation);
        step := Yield(found.value.value);
      } else {
        step := Wait;
      }
    }
  }

  /** The mapping of the `map_each_test` scenario. */
  function Double(x: int): int { x * 2 }

  /** The `map_each_test` scenario: the mapped value starts at 2 and follows
      the source to 4. */
  method MapEachScenario() returns (initial: Option<int>, updated: Option<int>)
    ensures initial == Some(2) && updated == Some(4)
  {
    var reactor, first, m := MapEachSetup();
    initial := reactor.Get(m);
    ghost var callbacks := [Mapping(Double, m)];
    var _ := reactor.Set(first, 2);
    assert callbacks[0].Mapping? && callbacks[0].result == m;
    assert Lookup(reactor.scopes, m).value.value == 4;
    updated := reactor.Get(m);
  }

  /** A root scope holding 1 and a dynamic mapped from it by doubling. */
  method MapEachSetup() returns (reactor: Reactor, first: ValueRef, m: ValueRef)
    ensures fresh(reactor) && reactor.Valid()
    ensures Lookup(reactor.scopes, first) == Some(ValueData(1, 1, [Mapping(Double, m)]))
    ensures Lookup(reactor.scopes, m).Some? && Lookup(reactor.scopes, m).value.value == 2
  {
    reactor := new Reactor();
    var scope := reactor.NewRootScope();
    first := reactor.NewDynamic(scope, 1);
    var mapped := reactor.MapEach(first, Double);
    m := mapped.value;
    assert reactor.Get(m) == Some(2);
    assert [] + [Mapping(Double, m)] == [Mapping(Double, m)];
  }

  /** A fresh iterator waits instead of yielding the initial value, yields
      after a `set`, and finishes once the owning scope is dropped. */
  method IteratorScenario() returns (a: IterStep, b: IterStep, c: IterStep, gone: Option<int>)
    ensures a == Wait && b == Yield(5) && c == Finished && gone == None
  {
    var reactor := new Reactor();
    var scope := reactor.NewRootScope();
    var value := reactor.NewDynamic(scope, 1);
    var it := new ValueIterator(reactor, value);
    a := it.Next();
    var _ := reactor.Set(value, 5);
    b := it.Next();
    reactor.DropScope(scope);
    c := it.Next();
    gone := reactor.Get(value);
  }
}
