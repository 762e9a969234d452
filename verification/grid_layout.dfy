/** `GridLayout` (src/widgets/grid.rs:267-389, 557-623): the children of a
    grid or stack along its measured axis, each with an id and a
    `GridDimension`, the layout of each, and the bookkeeping the measuring
    passes read: the ids of the children that fit their content, of the
    fractional ones with their weights and of the measured ones, the total
    weight, and the space the measured children take, in pixels and in
    logical pixels. */
module CushyGridLayout {
  import opened Common
  import opened CushyConstraint
  import opened CushyStyles
  import opened CushyGridUpdate

  /** An entry of the layout's `OrderedLots`: the id it was given and the
      child's dimension. */
  datatype Child = Child(id: nat, dimension: GridDimension)

  /** Converting logical pixels at a scale: the window's scale is not
      part of this model, so the conversion is a parameter. */
  type LpToUpx = (int, real) -> UPx

  /** `Dimension::into_upx`. */
  function IntoUpx(d: Dimension, scale: real, lpToUpx: LpToUpx): UPx
  {
    match d
    case Px(p) => IntoUnsigned(p)
    case Lp(l) => lpToUpx(l, scale)
  }

  /** The key of each entry of `s`, in order. */
  function Keys<T>(s: seq<T>, key: T -> nat): (r: seq<nat>)
    ensures |r| == |s| && forall k :: 0 <= k < |s| ==> r[k] == key(s[k])
  {
    if s == [] then [] else [key(s[0])] + Keys(s[1..], key)
  }

  function ChildId(c: Child): nat { c.id }
  function PairId(p: (nat, U8)): nat { p.0 }
  function PairWeight(p: (nat, U8)): nat { p.1 }
  function Itself(id: nat): nat { id }

  /** The ids of the children, in order. */
  function Ids(cs: seq<Child>): (r: seq<nat>)
    ensures |r| == |cs| && forall i :: 0 <= i < |cs| ==> r[i] == cs[i].id
  {
    Keys(cs, ChildId)
  }

  /** `OrderedLots::index_of_id`: the first position holding `id`. */
  function IndexOf(cs: seq<Child>, id: nat): (i: nat)
    requires id in Ids(cs)
    ensures i < |cs| && cs[i].id == id
    ensures forall j :: 0 <= j < i ==> cs[j].id != id
  {
    if cs[0].id == id then 0
    else
      assert id in Ids(cs[1..]) by {
        var k :| 0 <= k < |cs| && Ids(cs)[k] == id;
        assert Ids(cs[1..])[k - 1] == id;
      }
      1 + IndexOf(cs[1..], id)
  }

  /** The positions of the children with the ids `ids`. */
  function Indices(cs: seq<Child>, ids: seq<nat>): (r: seq<nat>)
    requires forall k :: 0 <= k < |ids| ==> ids[k] in Ids(cs)
    ensures |r| == |ids| && forall k :: 0 <= k < |ids| ==> r[k] < |cs| && cs[r[k]].id == ids[k]
  {
    seq(|ids|, k requires 0 <= k < |ids| => IndexOf(cs, ids[k]))
  }

  /** The entries of `s` whose key is not `id`, in order: `Vec::retain`. */
  function Without<T>(s: seq<T>, key: T -> nat, id: nat): (r: seq<T>)
    ensures |r| <= |s|
  {
    if s == [] then []
    else (if key(s[0]) == id then [] else [s[0]]) + Without(s[1..], key, id)
  }

  /** What is kept is exactly what was there under another key. */
  lemma {:induction false} WithoutMembers<T>(s: seq<T>, key: T -> nat, id: nat, x: T)
    ensures x in Without(s, key, id) <==> x in s && key(x) != id
  {
    if s != [] {
      WithoutMembers(s[1..], key, id, x);
      assert s == [s[0]] + s[1..];
    }
  }

  lemma KeysCons<T>(s: seq<T>, key: T -> nat)
    requires s != []
    ensures Keys(s, key) == [key(s[0])] + Keys(s[1..], key)
  {
  }

  lemma DistinctCons(x: nat, t: seq<nat>)
    ensures Distinct([x] + t) <==> x !in t && Distinct(t)
  {
    var s := [x] + t;
    if x !in t && Distinct(t) {
      forall i, j | 0 <= i < j < |s|
        ensures s[i] != s[j]
      {
        if i > 0 {
          assert s[i] == t[i - 1] && s[j] == t[j - 1];
        } else {
          assert s[j] == t[j - 1];
        }
      }
    }
    if Distinct(s) {
      forall i, j | 0 <= i < j < |t|
        ensures t[i] != t[j]
      {
        assert s[i + 1] != s[j + 1];
      }
      forall j | 0 <= j < |t|
        ensures t[j] != x
      {
        assert s[0] != s[j + 1];
      }
    }
  }

  /** Every key left after removal was there before. */
  lemma {:induction false} WithoutKeys<T>(s: seq<T>, key: T -> nat, id: nat, x: nat)
    requires x in Keys(Without(s, key, id), key)
    ensures x in Keys(s, key) && x != id
  {
    var r := Without(s, key, id);
    var k :| 0 <= k < |r| && Keys(r, key)[k] == x;
    WithoutMembers(s, key, id, r[k]);
    var j :| 0 <= j < |s| && s[j] == r[k];
    assert Keys(s, key)[j] == x;
  }

  /** Removing the entry with a key that occurs once makes the list one
      shorter and keeps the keys distinct; removing an absent key changes
      nothing. */
  lemma WithoutOne<T>(s: seq<T>, key: T -> nat, id: nat)
    requires Distinct(Keys(s, key))
    ensures Distinct(Keys(Without(s, key, id), key))
    ensures id in Keys(s, key) ==> |Without(s, key, id)| == |s| - 1
    ensures id !in Keys(s, key) ==> Without(s, key, id) == s
  {
    WithoutDistinct(s, key, id);
    WithoutAbsent(s, key, id);
    WithoutShorter(s, key, id);
  }

  lemma {:induction false} WithoutAbsent<T>(s: seq<T>, key: T -> nat, id: nat)
    ensures id !in Keys(s, key) ==> Without(s, key, id) == s
  {
    if s != [] && id !in Keys(s, key) {
      KeysCons(s, key);
      WithoutAbsent(s[1..], key, id);
      assert s == [s[0]] + s[1..];
    }
  }

  lemma {:induction false} WithoutShorter<T>(s: seq<T>, key: T -> nat, id: nat)
    requires Distinct(Keys(s, key))
    ensures id in Keys(s, key) ==> |Without(s, key, id)| == |s| - 1
  {
    if s != [] && id in Keys(s, key) {
      KeysCons(s, key);
      DistinctCons(key(s[0]), Keys(s[1..], key));
      if key(s[0]) == id {
        WithoutAbsent(s[1..], key, id);
      } else {
        WithoutShorter(s[1..], key, id);
      }
    }
  }

  lemma {:induction false} WithoutDistinct<T>(s: seq<T>, key: T -> nat, id: nat)
    requires Distinct(Keys(s, key))
    ensures Distinct(Keys(Without(s, key, id), key))
  {
    if s != [] {
      var rest := Without(s[1..], key, id);
      KeysCons(s, key);
      DistinctCons(key(s[0]), Keys(s[1..], key));
      WithoutDistinct(s[1..], key, id);
      if key(s[0]) != id {
        KeysCons([s[0]] + rest, key);
        assert ([s[0]] + rest)[1..] == rest;
        if key(s[0]) in Keys(rest, key) {
          WithoutKeys(s[1..], key, id, key(s[0]));
        }
        DistinctCons(key(s[0]), Keys(rest, key));
      } else {
        assert Without(s, key, id) == rest;
      }
    }
  }

  /** Removing the first entry's key, which occurs once, leaves the rest. */
  lemma WithoutHead<T>(s: seq<T>, key: T -> nat)
    requires s != [] && Distinct(Keys(s, key))
    ensures Without(s, key, key(s[0])) == s[1..]
  {
    KeysCons(s, key);
    DistinctCons(key(s[0]), Keys(s[1..], key));
    WithoutOne(s[1..], key, key(s[0]));
  }

  /** Removing the entry `s[k]`, whose key occurs once, takes its value out
      of the sum of the values. */
  lemma {:induction false} WithoutSum<T>(s: seq<T>, key: T -> nat, value: T -> nat, k: nat)
    requires k < |s| && Distinct(Keys(s, key))
    ensures Sum(Keys(Without(s, key, key(s[k])), value)) + value(s[k]) == Sum(Keys(s, value))
  {
    KeysCons(s, value);
    SumCons(value(s[0]), Keys(s[1..], value));
    if k == 0 {
      WithoutHead(s, key);
    } else {
      var id := key(s[k]);
      var rest := Without(s[1..], key, id);
      KeysCons(s, key);
      DistinctCons(key(s[0]), Keys(s[1..], key));
      assert s[1..][k - 1] == s[k];
      assert key(s[0]) != id by {
        assert Keys(s, key)[0] != Keys(s, key)[k];
      }
      assert Without(s, key, id) == [s[0]] + rest;
      WithoutSum(s[1..], key, value, k - 1);
      KeysCons([s[0]] + rest, value);
      assert ([s[0]] + rest)[1..] == rest;
      SumCons(value(s[0]), Keys(rest, value));
    }
  }

  function WeightOf(d: GridDimension): nat { if d.Fractional? then d.weight else 0 }
  function PxOf(d: GridDimension): int { if d.Measured? && d.size.Px? then IntoUnsigned(d.size.px) else 0 }
  function LpOf(d: GridDimension): int { if d.Measured? && d.size.Lp? then d.size.lp else 0 }

  /** The total of `f` over the children's dimensions. */
  function Total(cs: seq<Child>, f: GridDimension -> int): int
  {
    if cs == [] then 0 else Total(cs[..|cs| - 1], f) + f(cs[|cs| - 1].dimension)
  }

  lemma {:induction false} TotalAppend(a: seq<Child>, b: seq<Child>, f: GridDimension -> int)
    ensures Total(a + b, f) == Total(a, f) + Total(b, f)
    decreases |b|
  {
    if b == [] {
      assert a + b == a;
    } else {
      TotalAppend(a, b[..|b| - 1], f);
      assert (a + b)[..|a + b| - 1] == a + b[..|b| - 1];
      assert (a + b)[|a + b| - 1] == b[|b| - 1];
    }
  }

  /** Splicing a child in adds its value; taking one out subtracts it. */
  lemma TotalSplice(a: seq<Child>, c: Child, b: seq<Child>, f: GridDimension -> int)
    ensures Total(a + [c] + b, f) == Total(a + b, f) + f(c.dimension)
  {
    TotalAppend(a + [c], b, f);
    TotalAppend(a, [c], f);
    TotalAppend(a, b, f);
    assert Total([c], f) == f(c.dimension) by {
      assert [c][..0] == [];
    }
  }

  /** Swapping two children changes no total. */
  lemma TotalSwap(cs: seq<Child>, a: nat, b: nat, f: GridDimension -> int)
    requires a < b < |cs|
    ensures Total(cs[a := cs[b]][b := cs[a]], f) == Total(cs, f)
  {
    var p := cs[..a];
    var m := cs[a + 1..b];
    var q := cs[b + 1..];
    assert cs == p + [cs[a]] + (m + [cs[b]] + q);
    assert cs[a := cs[b]][b := cs[a]] == p + [cs[b]] + (m + [cs[a]] + q);
    TotalSplice(p, cs[a], m + [cs[b]] + q, f);
    TotalSplice(p, cs[b], m + [cs[a]] + q, f);
    TotalSplice(m, cs[b], q, f);
    TotalSplice(m, cs[a], q, f);
    TotalAppend(p, m + [cs[b]] + q, f);
    TotalAppend(p, m + [cs[a]] + q, f);
  }

  /** A child is listed exactly where its dimension says: among the
      children that fit their content, the fractional ones with its
      weight, or the measured ones. */
  predicate Classified(c: Child, fit: seq<nat>, fractional: seq<(nat, U8)>, premeasured: seq<nat>)
  {
    match c.dimension
    case FitContent => c.id in fit && c.id !in Keys(fractional, PairId) && c.id !in premeasured
    case Fractional(w) => (c.id, w) in fractional && c.id !in fit && c.id !in premeasured
    case Measured(_) => c.id in premeasured && c.id !in fit && c.id !in Keys(fractional, PairId)
  }

  /** The layout's children and the bookkeeping kept beside them. */
  datatype Bookkeeping = Bookkeeping(children: seq<Child>, nextId: nat, fit: seq<nat>, fractional: seq<(nat, U8)>,
                                     premeasured: seq<nat>, totalWeights: int, allocatedPx: int, allocatedLp: int)

  /** The bookkeeping agrees with the children: the ids are distinct and
      below the next one, every child is listed once in the list its
      dimension names and nothing else is listed, the total weight is the
      sum of the fractional weights, and the allocated space is the sum of
      the measured children's pixels and logical pixels. */
  predicate Consistent(b: Bookkeeping)
  {
    IdsFresh(b) && ListsDistinct(b) && ListedOnce(b) && ListedLive(b) && TotalsAgree(b)
  }

  predicate IdsFresh(b: Bookkeeping)
  {
    Distinct(Ids(b.children)) && forall i :: 0 <= i < |b.children| ==> b.children[i].id < b.nextId
  }

  predicate ListsDistinct(b: Bookkeeping)
  {
    Distinct(b.fit) && Distinct(Keys(b.fractional, PairId)) && Distinct(b.premeasured)
  }

  predicate ListedOnce(b: Bookkeeping)
  {
    && |b.fit| + |b.fractional| + |b.premeasured| == |b.children|
    && forall i :: 0 <= i < |b.children| ==> Classified(b.children[i], b.fit, b.fractional, b.premeasured)
  }

  predicate ListedLive(b: Bookkeeping)
  {
    && (forall k :: 0 <= k < |b.fit| ==> b.fit[k] in Ids(b.children))
    && (forall k :: 0 <= k < |b.fractional| ==> b.fractional[k].0 in Ids(b.children))
    && (forall k :: 0 <= k < |b.premeasured| ==> b.premeasured[k] in Ids(b.children))
  }

  predicate TotalsAgree(b: Bookkeeping)
  {
    && b.totalWeights == Sum(Keys(b.fractional, PairWeight))
    && b.allocatedPx == Total(b.children, PxOf) && b.allocatedLp == Total(b.children, LpOf)
  }

  /** `GridLayout::insert`'s bookkeeping (grid.rs:360-389): the child is
      spliced in with a fresh id and listed by its dimension; a fractional
      child adds its weight, a measured one its pixels or logical pixels. */
  function Inserted(b: Bookkeeping, index: nat, d: GridDimension): (r: Bookkeeping)
    requires index <= |b.children|
    ensures r.children == b.children[..index] + [Child(b.nextId, d)] + b.children[index..]
  {
    var id := b.nextId;
    var children := b.children[..index] + [Child(id, d)] + b.children[index..];
    match d
    case FitContent => b.(children := children, nextId := id + 1, fit := b.fit + [id])
    case Fractional(w) =>
      b.(children := children, nextId := id + 1, fractional := b.fractional + [(id, w)], totalWeights := b.totalWeights + w)
    case Measured(_) =>
      b.(children := children, nextId := id + 1, premeasured := b.premeasured + [id],
         allocatedPx := b.allocatedPx + PxOf(d), allocatedLp := b.allocatedLp + LpOf(d))
  }

  /** `GridLayout::remove`'s bookkeeping (grid.rs:322-347): the child at
      `index` leaves the children and its list, and its weight or its
      pixels are taken back. */
  function Removed(b: Bookkeeping, index: nat): (r: Bookkeeping)
    requires index < |b.children|
    ensures r.children == b.children[..index] + b.children[index + 1..]
  {
    var c := b.children[index];
    var children := b.children[..index] + b.children[index + 1..];
    match c.dimension
    case FitContent => b.(children := children, fit := Without(b.fit, Itself, c.id))
    case Fractional(w) =>
      b.(children := children, fractional := Without(b.fractional, PairId, c.id), totalWeights := b.totalWeights - w)
    case Measured(_) =>
      b.(children := children, premeasured := Without(b.premeasured, Itself, c.id),
         allocatedPx := b.allocatedPx - PxOf(c.dimension), allocatedLp := b.allocatedLp - LpOf(c.dimension))
  }

  lemma KeysAppend<T>(a: seq<T>, c: seq<T>, key: T -> nat)
    ensures Keys(a + c, key) == Keys(a, key) + Keys(c, key)
  {
  }

  lemma KeyIn<T>(s: seq<T>, key: T -> nat, x: T)
    requires x in s
    ensures key(x) in Keys(s, key)
  {
    var k :| 0 <= k < |s| && s[k] == x;
    assert Keys(s, key)[k] == key(x);
  }

  lemma KeysItself(s: seq<nat>)
    ensures Keys(s, Itself) == s
  {
  }

  /** The ids around a splice are the ids of the parts. */
  lemma IdsSplice(cs: seq<Child>, index: nat, c: Child)
    requires index <= |cs|
    ensures Ids(cs[..index] + [c] + cs[index..]) == Ids(cs)[..index] + [c.id] + Ids(cs)[index..]
  {
    KeysAppend(cs[..index] + [c], cs[index..], ChildId);
    KeysAppend(cs[..index], [c], ChildId);
    KeysAppend(cs[..index], cs[index..], ChildId);
    assert cs[..index] + cs[index..] == cs;
  }

  /** Inserting keeps the bookkeeping consistent. */
  lemma InsertedConsistent(b: Bookkeeping, index: nat, d: GridDimension)
    requires Consistent(b) && index <= |b.children|
    ensures Consistent(Inserted(b, index, d))
  {
    var id := b.nextId;
    assert id !in Ids(b.children);
    IdsSplice(b.children, index, Child(id, d));
    InsertedIds(b, index, d);
    InsertedLists(b, index, d);
    InsertedListed(b, index, d);
    InsertedTotals(b, index, d);
  }

  lemma InsertedIds(b: Bookkeeping, index: nat, d: GridDimension)
    requires IdsFresh(b) && index <= |b.children|
    ensures IdsFresh(Inserted(b, index, d))
  {
    var id := b.nextId;
    IdsSplice(b.children, index, Child(id, d));
    assert id !in Ids(b.children);
    InsertKeepsDistinct(Ids(b.children), index, id);
  }

  lemma InsertedLists(b: Bookkeeping, index: nat, d: GridDimension)
    requires ListsDistinct(b) && ListedLive(b) && IdsFresh(b) && index <= |b.children|
    ensures ListsDistinct(Inserted(b, index, d))
  {
    var id := b.nextId;
    assert id !in Ids(b.children);
    match d
    case FitContent =>
      DistinctSnoc(b.fit, id);
    case Fractional(w) =>
      assert id !in Keys(b.fractional, PairId);
      KeysAppend(b.fractional, [(id, w)], PairId);
      DistinctSnoc(Keys(b.fractional, PairId), id);
    case Measured(_) =>
      DistinctSnoc(b.premeasured, id);
  }

  /** The next id is in none of the lists. */
  lemma NextIdUnlisted(b: Bookkeeping)
    requires ListedLive(b) && IdsFresh(b)
    ensures b.nextId !in b.fit && b.nextId !in Keys(b.fractional, PairId) && b.nextId !in b.premeasured
  {
    var id := b.nextId;
    assert id !in Ids(b.children);
    forall k | 0 <= k < |b.fractional|
      ensures b.fractional[k].0 != id
    {
      assert b.fractional[k].0 in Ids(b.children);
    }
  }

  /** A child already there stays classified when the new one is listed. */
  lemma ClassifiedAfterInsert(b: Bookkeeping, index: nat, d: GridDimension, c: Child)
    requires index <= |b.children| && c.id != b.nextId
    requires Classified(c, b.fit, b.fractional, b.premeasured)
    ensures var r := Inserted(b, index, d); Classified(c, r.fit, r.fractional, r.premeasured)
  {
    var id := b.nextId;
    match d
    case FitContent =>
    case Fractional(w) =>
      KeysAppend(b.fractional, [(id, w)], PairId);
    case Measured(_) =>
  }

  lemma InsertedListed(b: Bookkeeping, index: nat, d: GridDimension)
    requires ListedOnce(b) && ListedLive(b) && IdsFresh(b) && index <= |b.children|
    ensures ListedOnce(Inserted(b, index, d)) && ListedLive(Inserted(b, index, d))
  {
    InsertedOnce(b, index, d);
    InsertedLive(b, index, d);
  }

  lemma InsertedOnce(b: Bookkeeping, index: nat, d: GridDimension)
    requires ListedOnce(b) && ListedLive(b) && IdsFresh(b) && index <= |b.children|
    ensures ListedOnce(Inserted(b, index, d))
  {
    var id := b.nextId;
    var r := Inserted(b, index, d);
    NextIdUnlisted(b);
    assert Classified(Child(id, d), r.fit, r.fractional, r.premeasured) by {
      if d.Fractional? {
        KeysAppend(b.fractional, [(id, d.weight)], PairId);
      }
    }
    forall i | 0 <= i < |r.children|
      ensures Classified(r.children[i], r.fit, r.fractional, r.premeasured)
    {
      if i < index {
        assert r.children[i] == b.children[i];
        ClassifiedAfterInsert(b, index, d, b.children[i]);
      } else if i > index {
        assert r.children[i] == b.children[i - 1];
        ClassifiedAfterInsert(b, index, d, b.children[i - 1]);
      }
    }
  }

  /** Inserting keeps every id live and makes the new one live. */
  lemma InsertedIdsGrow(b: Bookkeeping, index: nat, d: GridDimension)
    requires index <= |b.children|
    ensures b.nextId in Ids(Inserted(b, index, d).children)
    ensures forall x :: x in Ids(b.children) ==> x in Ids(Inserted(b, index, d).children)
  {
    var id := b.nextId;
    var r := Inserted(b, index, d);
    IdsSplice(b.children, index, Child(id, d));
    var ids := Ids(b.children);
    assert b.children[..index] + b.children[index..] == b.children;
    assert Ids(r.children) == ids[..index] + [id] + ids[index..];
    assert ids == ids[..index] + ids[index..];
  }

  lemma InsertedLive(b: Bookkeeping, index: nat, d: GridDimension)
    requires ListedLive(b) && index <= |b.children|
    ensures ListedLive(Inserted(b, index, d))
  {
    InsertedIdsGrow(b, index, d);
  }

  lemma InsertedTotals(b: Bookkeeping, index: nat, d: GridDimension)
    requires TotalsAgree(b) && index <= |b.children|
    ensures TotalsAgree(Inserted(b, index, d))
  {
    var id := b.nextId;
    TotalSplice(b.children[..index], Child(id, d), b.children[index..], PxOf);
    TotalSplice(b.children[..index], Child(id, d), b.children[index..], LpOf);
    assert b.children[..index] + b.children[index..] == b.children;
    if d.Fractional? {
      var e: (nat, U8) := (id, d.weight);
      var r := Inserted(b, index, d);
      assert r.fractional == b.fractional + [e] && r.totalWeights == b.totalWeights + d.weight;
      KeysAppend(b.fractional, [e], PairWeight);
      assert Keys([e], PairWeight) == [d.weight];
      var ws := Keys(b.fractional, PairWeight);
      assert (ws + [d.weight])[..|ws|] == ws;
      assert Sum(ws + [d.weight]) == Sum(ws) + d.weight;
    } else {
      var r := Inserted(b, index, d);
      assert r.totalWeights == Sum(Keys(r.fractional, PairWeight));
      var c := Child(id, d);
      assert r.children == b.children[..index] + [c] + b.children[index..];
      assert Total(r.children, PxOf) == Total(b.children[..index] + b.children[index..], PxOf) + PxOf(c.dimension);
      assert Total(r.children, PxOf) == Total(b.children, PxOf) + PxOf(d);
      assert r.allocatedPx == b.allocatedPx + PxOf(d);
      assert r.allocatedPx == Total(r.children, PxOf);
      assert r.allocatedLp == Total(r.children, LpOf);
    }
  }

  /** The ids left after a removal are the ids around the removed one. */
  lemma IdsRemove(cs: seq<Child>, index: nat)
    requires index < |cs|
    ensures Ids(cs[..index] + cs[index + 1..]) == Ids(cs)[..index] + Ids(cs)[index + 1..]
  {
  }

  /** Removing keeps the bookkeeping consistent. */
  lemma RemovedConsistent(b: Bookkeeping, index: nat)
    requires Consistent(b) && index < |b.children|
    ensures Consistent(Removed(b, index))
  {
    RemovedIds(b, index);
    RemovedLists(b, index);
    RemovedOnce(b, index);
    RemovedLive(b, index);
    RemovedTotals(b, index);
  }

  lemma RemovedIds(b: Bookkeeping, index: nat)
    requires IdsFresh(b) && index < |b.children|
    ensures IdsFresh(Removed(b, index))
  {
    IdsRemove(b.children, index);
    RemoveKeepsDistinct(Ids(b.children), index);
  }

  /** A list after a removal: the id's entries are retained away, or the id
      was not listed there and the list is unchanged. */
  predicate Retains<T(==)>(s: seq<T>, key: T -> nat, id: nat, r: seq<T>)
  {
    r == Without(s, key, id) || (r == s && id !in Keys(s, key))
  }

  lemma RetainedMembers<T>(s: seq<T>, key: T -> nat, id: nat, r: seq<T>, y: T)
    requires Retains(s, key, id, r)
    ensures y in r <==> y in s && key(y) != id
  {
    if r == Without(s, key, id) {
      WithoutMembers(s, key, id, y);
    } else if y in s {
      KeyIn(s, key, y);
    }
  }

  lemma RetainedKeys<T>(s: seq<T>, key: T -> nat, id: nat, r: seq<T>, x: nat)
    requires Retains(s, key, id, r)
    ensures x in Keys(r, key) <==> x in Keys(s, key) && x != id
  {
    if x in Keys(r, key) {
      var k :| 0 <= k < |r| && Keys(r, key)[k] == x;
      RetainedMembers(s, key, id, r, r[k]);
      var j :| 0 <= j < |s| && s[j] == r[k];
      assert Keys(s, key)[j] == x;
    }
    if x in Keys(s, key) && x != id {
      var j :| 0 <= j < |s| && Keys(s, key)[j] == x;
      RetainedMembers(s, key, id, r, s[j]);
      KeyIn(r, key, s[j]);
    }
  }

  lemma RetainedShape<T>(s: seq<T>, key: T -> nat, id: nat, r: seq<T>)
    requires Retains(s, key, id, r) && Distinct(Keys(s, key))
    ensures Distinct(Keys(r, key))
    ensures |r| == if id in Keys(s, key) then |s| - 1 else |s|
  {
    WithoutOne(s, key, id);
  }

  /** The three lists after a removal: the removed child's own list loses
      its id, and the other two never held it. */
  lemma RemovedRetains(b: Bookkeeping, index: nat)
    requires ListedOnce(b) && index < |b.children|
    ensures var id := b.children[index].id; var r := Removed(b, index);
      && Retains(b.fit, Itself, id, r.fit) && Retains(b.fractional, PairId, id, r.fractional)
      && Retains(b.premeasured, Itself, id, r.premeasured)
      && (id in b.fit || id in Keys(b.fractional, PairId) || id in b.premeasured)
  {
    var c := b.children[index];
    assert Classified(c, b.fit, b.fractional, b.premeasured);
    KeysItself(b.fit);
    KeysItself(b.premeasured);
    if c.dimension.Fractional? {
      KeyIn(b.fractional, PairId, (c.id, c.dimension.weight));
    }
  }

  lemma RemovedLists(b: Bookkeeping, index: nat)
    requires ListsDistinct(b) && ListedOnce(b) && index < |b.children|
    ensures ListsDistinct(Removed(b, index))
  {
    var id := b.children[index].id;
    var r := Removed(b, index);
    RemovedRetains(b, index);
    KeysItself(b.fit);
    KeysItself(b.premeasured);
    KeysItself(r.fit);
    KeysItself(r.premeasured);
    RetainedShape(b.fit, Itself, id, r.fit);
    RetainedShape(b.fractional, PairId, id, r.fractional);
    RetainedShape(b.premeasured, Itself, id, r.premeasured);
  }

  /** A remaining child, whose id differs from the removed one, stays
      classified. */
  lemma ClassifiedAfterRemove(b: Bookkeeping, index: nat, c: Child)
    requires ListedOnce(b) && index < |b.children| && c.id != b.children[index].id
    requires Classified(c, b.fit, b.fractional, b.premeasured)
    ensures var r := Removed(b, index); Classified(c, r.fit, r.fractional, r.premeasured)
  {
    var id := b.children[index].id;
    var r := Removed(b, index);
    RemovedRetains(b, index);
    RetainedMembers(b.fit, Itself, id, r.fit, c.id);
    RetainedMembers(b.premeasured, Itself, id, r.premeasured, c.id);
    RetainedKeys(b.fractional, PairId, id, r.fractional, c.id);
    if c.dimension.Fractional? {
      RetainedMembers(b.fractional, PairId, id, r.fractional, (c.id, c.dimension.weight));
    }
  }

  lemma RemovedOnce(b: Bookkeeping, index: nat)
    requires IdsFresh(b) && ListsDistinct(b) && ListedOnce(b) && index < |b.children|
    ensures ListedOnce(Removed(b, index))
  {
    var id := b.children[index].id;
    var r := Removed(b, index);
    RemovedRetains(b, index);
    KeysItself(b.fit);
    KeysItself(b.premeasured);
    RetainedShape(b.fit, Itself, id, r.fit);
    RetainedShape(b.fractional, PairId, id, r.fractional);
    RetainedShape(b.premeasured, Itself, id, r.premeasured);
    assert |r.fit| + |r.fractional| + |r.premeasured| == |r.children| by {
      var c := b.children[index];
      assert Classified(c, b.fit, b.fractional, b.premeasured);
    }
    forall i | 0 <= i < |r.children|
      ensures Classified(r.children[i], r.fit, r.fractional, r.premeasured)
    {
      var j := if i < index then i else i + 1;
      assert r.children[i] == b.children[j];
      assert Ids(b.children)[j] != Ids(b.children)[index];
      ClassifiedAfterRemove(b, index, b.children[j]);
    }
  }

  /** An id other than the removed child's that was live stays live. */
  lemma StillLive(b: Bookkeeping, index: nat, x: nat)
    requires index < |b.children| && x in Ids(b.children) && x != b.children[index].id
    ensures x in Ids(Removed(b, index).children)
  {
    var j :| 0 <= j < |b.children| && Ids(b.children)[j] == x;
    var r := Removed(b, index);
    if j < index {
      assert Ids(r.children)[j] == x;
    } else {
      assert Ids(r.children)[j - 1] == x;
    }
  }

  lemma RemovedLive(b: Bookkeeping, index: nat)
    requires ListedLive(b) && ListedOnce(b) && index < |b.children|
    ensures ListedLive(Removed(b, index))
  {
    var id := b.children[index].id;
    var r := Removed(b, index);
    RemovedRetains(b, index);
    forall k | 0 <= k < |r.fit|
      ensures r.fit[k] in Ids(r.children)
    {
      RetainedMembers(b.fit, Itself, id, r.fit, r.fit[k]);
      var j :| 0 <= j < |b.fit| && b.fit[j] == r.fit[k];
      StillLive(b, index, r.fit[k]);
    }
    forall k | 0 <= k < |r.fractional|
      ensures r.fractional[k].0 in Ids(r.children)
    {
      RetainedMembers(b.fractional, PairId, id, r.fractional, r.fractional[k]);
      var j :| 0 <= j < |b.fractional| && b.fractional[j] == r.fractional[k];
      StillLive(b, index, r.fractional[k].0);
    }
    forall k | 0 <= k < |r.premeasured|
      ensures r.premeasured[k] in Ids(r.children)
    {
      RetainedMembers(b.premeasured, Itself, id, r.premeasured, r.premeasured[k]);
      var j :| 0 <= j < |b.premeasured| && b.premeasured[j] == r.premeasured[k];
      StillLive(b, index, r.premeasured[k]);
    }
  }

  lemma RemovedTotals(b: Bookkeeping, index: nat)
    requires TotalsAgree(b) && ListsDistinct(b) && ListedOnce(b) && index < |b.children|
    ensures TotalsAgree(Removed(b, index))
  {
    RemovedWeights(b, index);
    RemovedAllocated(b, index);
  }

  lemma RemovedWeights(b: Bookkeeping, index: nat)
    requires TotalsAgree(b) && ListsDistinct(b) && ListedOnce(b) && index < |b.children|
    ensures var r := Removed(b, index); r.totalWeights == Sum(Keys(r.fractional, PairWeight))
  {
    var c := b.children[index];
    assert Classified(c, b.fit, b.fractional, b.premeasured);
    if c.dimension.Fractional? {
      var e := (c.id, c.dimension.weight);
      var k :| 0 <= k < |b.fractional| && b.fractional[k] == e;
      WithoutSum(b.fractional, PairId, PairWeight, k);
    }
  }

  lemma RemovedAllocated(b: Bookkeeping, index: nat)
    requires TotalsAgree(b) && index < |b.children|
    ensures var r := Removed(b, index); r.allocatedPx == Total(r.children, PxOf) && r.allocatedLp == Total(r.children, LpOf)
  {
    var c := b.children[index];
    assert b.children == b.children[..index] + [c] + b.children[index + 1..];
    TotalSplice(b.children[..index], c, b.children[index + 1..], PxOf);
    TotalSplice(b.children[..index], c, b.children[index + 1..], LpOf);
  }

  /** `GridLayout::swap`'s bookkeeping (grid.rs:356-358): the two
      children trade places and every list stays as it was. */
  function Swapped(b: Bookkeeping, i: nat, j: nat): (r: Bookkeeping)
    requires i < |b.children| && j < |b.children|
    ensures |r.children| == |b.children| && r.children[i] == b.children[j] && r.children[j] == b.children[i]
    ensures forall k :: 0 <= k < |b.children| && k != i && k != j ==> r.children[k] == b.children[k]
  {
    b.(children := b.children[i := b.children[j]][j := b.children[i]])
  }

  /** Swapping keeps the bookkeeping consistent. */
  lemma SwappedConsistent(b: Bookkeeping, i: nat, j: nat)
    requires Consistent(b) && i < |b.children| && j < |b.children|
    ensures Consistent(Swapped(b, i, j))
  {
    SwappedIds(b, i, j);
    SwappedListed(b, i, j);
    SwappedLive(b, i, j);
    SwappedTotals(b, i, j);
  }

  lemma SwappedIds(b: Bookkeeping, i: nat, j: nat)
    requires IdsFresh(b) && i < |b.children| && j < |b.children|
    ensures IdsFresh(Swapped(b, i, j))
  {
    var ids := Ids(b.children);
    assert Ids(Swapped(b, i, j).children) == ids[i := ids[j]][j := ids[i]];
    if i < j {
      SwapKeepsDistinct(ids, i, j);
    } else if j < i {
      SwapKeepsDistinct(ids, j, i);
      assert ids[i := ids[j]][j := ids[i]] == ids[j := ids[i]][i := ids[j]];
    }
  }

  lemma SwappedListed(b: Bookkeeping, i: nat, j: nat)
    requires ListedOnce(b) && i < |b.children| && j < |b.children|
    ensures ListedOnce(Swapped(b, i, j))
  {
    var r := Swapped(b, i, j);
    forall k | 0 <= k < |r.children|
      ensures Classified(r.children[k], r.fit, r.fractional, r.premeasured)
    {
      var k' := if k == i then j else if k == j then i else k;
      assert r.children[k] == b.children[k'];
    }
  }

  lemma SwappedLive(b: Bookkeeping, i: nat, j: nat)
    requires ListedLive(b) && i < |b.children| && j < |b.children|
    ensures ListedLive(Swapped(b, i, j))
  {
    var r := Swapped(b, i, j);
    forall x | x in Ids(b.children)
      ensures x in Ids(r.children)
    {
      var k :| 0 <= k < |b.children| && Ids(b.children)[k] == x;
      var k' := if k == i then j else if k == j then i else k;
      assert Ids(r.children)[k'] == x;
    }
  }

  lemma SwappedTotals(b: Bookkeeping, i: nat, j: nat)
    requires TotalsAgree(b) && i < |b.children| && j < |b.children|
    ensures TotalsAgree(Swapped(b, i, j))
  {
    var cs: seq<Child> := b.children;
    if i < j {
      TotalSwap(cs, i, j, PxOf);
      TotalSwap(cs, i, j, LpOf);
    } else if j < i {
      assert cs[i := cs[j]][j := cs[i]] == cs[j := cs[i]][i := cs[j]];
      TotalSwap(cs, j, i, PxOf);
      TotalSwap(cs, j, i, LpOf);
    } else {
      assert cs[i := cs[j]][j := cs[i]] == cs;
    }
  }

  /** Removing what was just inserted gives back the bookkeeping, with
      the next id used up. */
  lemma InsertRemoveRoundTrip(b: Bookkeeping, index: nat, d: GridDimension)
    requires IdsFresh(b) && ListedLive(b) && index <= |b.children|
    ensures Removed(Inserted(b, index, d), index) == b.(nextId := b.nextId + 1)
  {
    NextIdUnlisted(b);
    InsertRemoveUnlisted(b, index, d);
  }

  lemma InsertRemoveUnlisted(b: Bookkeeping, index: nat, d: GridDimension)
    requires b.nextId !in b.fit && b.nextId !in Keys(b.fractional, PairId) && b.nextId !in b.premeasured
    requires index <= |b.children|
    ensures Removed(Inserted(b, index, d), index) == b.(nextId := b.nextId + 1)
  {
    var r := Inserted(b, index, d);
    assert r.children[index] == Child(b.nextId, d);
    assert r.children[..index] + r.children[index + 1..] == b.children;
    match d
    case FitContent => InsertRemoveFit(b, index, r);
    case Fractional(w) => InsertRemoveFractional(b, index, w, r);
    case Measured(_) => InsertRemoveMeasured(b, index, d, r);
  }

  lemma InsertRemoveFit(b: Bookkeeping, index: nat, r: Bookkeeping)
    requires b.nextId !in b.fit && index <= |b.children|
    requires r == Inserted(b, index, FitContent)
    requires r.children[index] == Child(b.nextId, FitContent)
    requires r.children[..index] + r.children[index + 1..] == b.children
    ensures Removed(r, index) == b.(nextId := b.nextId + 1)
  {
    var id := b.nextId;
    KeysItself(b.fit);
    WithoutLast(b.fit, Itself, id);
    assert Removed(r, index) == r.(children := b.children, fit := Without(b.fit + [id], Itself, id));
  }

  lemma InsertRemoveFractional(b: Bookkeeping, index: nat, w: U8, r: Bookkeeping)
    requires b.nextId !in Keys(b.fractional, PairId) && index <= |b.children|
    requires r == Inserted(b, index, Fractional(w))
    requires r.children[index] == Child(b.nextId, Fractional(w))
    requires r.children[..index] + r.children[index + 1..] == b.children
    ensures Removed(r, index) == b.(nextId := b.nextId + 1)
  {
    var id := b.nextId;
    WithoutLast(b.fractional, PairId, (id, w));
    assert Removed(r, index) == r.(children := b.children, fractional := Without(b.fractional + [(id, w)], PairId, id),
                                  totalWeights := r.totalWeights - w);
  }

  lemma InsertRemoveMeasured(b: Bookkeeping, index: nat, d: GridDimension, r: Bookkeeping)
    requires d.Measured? && b.nextId !in b.premeasured && index <= |b.children|
    requires r == Inserted(b, index, d)
    requires r.children[index] == Child(b.nextId, d)
    requires r.children[..index] + r.children[index + 1..] == b.children
    ensures Removed(r, index) == b.(nextId := b.nextId + 1)
  {
    var id := b.nextId;
    KeysItself(b.premeasured);
    WithoutLast(b.premeasured, Itself, id);
    assert Removed(r, index) == r.(children := b.children, premeasured := Without(b.premeasured + [id], Itself, id),
                                  allocatedPx := r.allocatedPx - PxOf(d), allocatedLp := r.allocatedLp - LpOf(d));
  }

  /** Retaining away the key of an entry just appended, absent before,
      leaves what was there. */
  lemma {:induction false} WithoutLast<T>(s: seq<T>, key: T -> nat, x: T)
    requires forall k :: 0 <= k < |s| ==> key(s[k]) != key(x)
    ensures Without(s + [x], key, key(x)) == s
  {
    var t := s + [x];
    if s == [] {
      assert t == [x] && t[1..] == [];
    } else {
      assert key(s[0]) != key(x);
      assert t[0] == s[0] && t[1..] == s[1..] + [x];
      WithoutLast(s[1..], key, x);
      assert Without(t, key, key(x)) == [s[0]] + Without(t[1..], key, key(x));
      assert s == [s[0]] + s[1..];
    }
  }



  lemma DistinctSnoc(s: seq<nat>, x: nat)
    requires Distinct(s) && x !in s
    ensures Distinct(s + [x])
  {
    InsertKeepsDistinct(s, |s|, x);
    assert s[..|s|] + [x] + s[|s|..] == s + [x];
  }

  /** The lengths in a list of layouts. */
  function SizesOf(ls: seq<StackLayout>): (r: seq<UPx>)
    ensures |r| == |ls| && forall i :: 0 <= i < |ls| ==> r[i] == ls[i].size
  {
    if ls == [] then [] else [ls[0].size] + SizesOf(ls[1..])
  }

  /** The layouts with their lengths replaced by `sizes`. */
  function WithSizes(ls: seq<StackLayout>, sizes: seq<UPx>): (r: seq<StackLayout>)
    requires |sizes| == |ls|
    ensures |r| == |ls| && forall i :: 0 <= i < |ls| ==> r[i] == StackLayout(ls[i].offset, sizes[i])
  {
    if ls == [] then [] else [StackLayout(ls[0].offset, sizes[0])] + WithSizes(ls[1..], sizes[1..])
  }

  /** The weights of the fractional children, in order. */
  function WeightsOf(fs: seq<(nat, U8)>): (r: seq<U8>)
    ensures |r| == |fs| && forall k :: 0 <= k < |fs| ==> r[k] == fs[k].1
  {
    if fs == [] then [] else [fs[0].1] + WeightsOf(fs[1..])
  }

  /** `Vec::resize(count, UPx::ZERO)`: cut to `count`, or grown with
      zeros. */
  function Resized(s: seq<UPx>, count: nat): (r: seq<UPx>)
    ensures |r| == count && forall k :: 0 <= k < count ==> r[k] == (if k < |s| then s[k] else 0)
  {
    if count <= |s| then s[..count] else s + Zeros(count - |s|)
  }

  /** The length a child starts with once inserted (grid.rs:362-380): a
      measured child's size at the given scale, nothing for the others. */
  function StartingLength(d: GridDimension, scale: real, lpToUpx: LpToUpx): UPx
  {
    if d.Measured? then IntoUpx(d.size, scale, lpToUpx) else 0
  }

  /** `update_measured`'s loop body (grid.rs:561-567): a measured child's
      length is its size at the new scale; any other layout stays. */
  function Remeasure(c: Child, l: StackLayout, scale: real, lpToUpx: LpToUpx): StackLayout
  {
    if c.dimension.Measured? then StackLayout(l.offset, IntoUpx(c.dimension.size, scale, lpToUpx)) else l
  }

  /** Every layout remeasured. */
  function RemeasuredAll(cs: seq<Child>, ls: seq<StackLayout>, scale: real, lpToUpx: LpToUpx): (r: seq<StackLayout>)
    requires |cs| == |ls|
    ensures |r| == |ls| && forall i :: 0 <= i < |ls| ==> r[i] == Remeasure(cs[i], ls[i], scale, lpToUpx)
  {
    if cs == [] then [] else [Remeasure(cs[0], ls[0], scale, lpToUpx)] + RemeasuredAll(cs[1..], ls[1..], scale, lpToUpx)
  }

  /** Every measured child's layout holds its size at `scale`. */
  predicate MeasuredAgree(cs: seq<Child>, ls: seq<StackLayout>, scale: real, lpToUpx: LpToUpx)
    requires |cs| == |ls|
  {
    forall i :: 0 <= i < |cs| && cs[i].dimension.Measured? ==> ls[i].size == IntoUpx(cs[i].dimension.size, scale, lpToUpx)
  }

  /** After remeasuring, every measured child has its size, and nothing
      else changed. */
  lemma RemeasuredAgree(cs: seq<Child>, ls: seq<StackLayout>, scale: real, lpToUpx: LpToUpx)
    requires |cs| == |ls|
    ensures var r := RemeasuredAll(cs, ls, scale, lpToUpx);
      MeasuredAgree(cs, r, scale, lpToUpx)
      && forall i :: 0 <= i < |ls| ==> r[i].offset == ls[i].offset && (!cs[i].dimension.Measured? ==> r[i] == ls[i])
  {
  }

  /** Inserting a child with its starting length keeps every measured
      length in place. */
  lemma InsertKeepsMeasured(cs: seq<Child>, ls: seq<StackLayout>, index: nat, c: Child, scale: real, lpToUpx: LpToUpx)
    requires |cs| == |ls| && index <= |cs| && MeasuredAgree(cs, ls, scale, lpToUpx)
    ensures MeasuredAgree(cs[..index] + [c] + cs[index..],
                          ls[..index] + [StackLayout(0, StartingLength(c.dimension, scale, lpToUpx))] + ls[index..], scale, lpToUpx)
  {
    var cs' := cs[..index] + [c] + cs[index..];
    var ls' := ls[..index] + [StackLayout(0, StartingLength(c.dimension, scale, lpToUpx))] + ls[index..];
    forall i | 0 <= i < |cs'| && cs'[i].dimension.Measured?
      ensures ls'[i].size == IntoUpx(cs'[i].dimension.size, scale, lpToUpx)
    {
      if i < index {
        assert cs'[i] == cs[i] && ls'[i] == ls[i];
      } else if i > index {
        assert cs'[i] == cs[i - 1] && ls'[i] == ls[i - 1];
      }
    }
  }

  /** Swapping the layouts with the children keeps every measured length
      with its child. */
  lemma SwapKeepsMeasured(cs: seq<Child>, ls: seq<StackLayout>, i: nat, j: nat, scale: real, lpToUpx: LpToUpx)
    requires |cs| == |ls| && i < |cs| && j < |cs| && MeasuredAgree(cs, ls, scale, lpToUpx)
    ensures MeasuredAgree(cs[i := cs[j]][j := cs[i]], ls[i := ls[j]][j := ls[i]], scale, lpToUpx)
  {
    var cs' := cs[i := cs[j]][j := cs[i]];
    var ls' := ls[i := ls[j]][j := ls[i]];
    forall k | 0 <= k < |cs'| && cs'[k].dimension.Measured?
      ensures ls'[k].size == IntoUpx(cs'[k].dimension.size, scale, lpToUpx)
    {
      var k' := if k == j then i else if k == i then j else k;
      assert cs'[k] == cs[k'] && ls'[k] == ls[k'];
    }
  }

  /** Swapping the children alone, as `GridLayout::swap` does, leaves the
      lengths where they were: a measured child of 10 pixels swapped with
      a child that fits its content is left with that child's length. */
  lemma SwapAsWrittenMisplacesLength(scale: real, lpToUpx: LpToUpx)
    ensures var cs := [Child(0, Measured(Px(10))), Child(1, FitContent)];
      var ls := [StackLayout(0, 10), StackLayout(10, 0)];
      MeasuredAgree(cs, ls, scale, lpToUpx) && !MeasuredAgree(cs[0 := cs[1]][1 := cs[0]], ls, scale, lpToUpx)
  {
    var cs := [Child(0, Measured(Px(10))), Child(1, FitContent)];
    var ls := [StackLayout(0, 10), StackLayout(10, 0)];
    assert IntoUpx(Px(10), scale, lpToUpx) == 10;
    assert cs[0 := cs[1]][1 := cs[0]][1] == cs[0];
  }

  /** The bookkeeping cut down to `n` children, removing from the end. */
  function Truncated(b: Bookkeeping, n: nat): (r: Bookkeeping)
    ensures r.children == b.children[..Min(n, |b.children|)]
    decreases |b.children|
  {
    if |b.children| <= n then b else Truncated(Removed(b, |b.children| - 1), n)
  }

  /** One step of truncation. */
  lemma TruncatedStep(b: Bookkeeping, n: nat, last: nat, r: Bookkeeping)
    requires |b.children| > n && last == |b.children| - 1 && r == Removed(b, last)
    ensures Truncated(b, n) == Truncated(r, n)
  {
  }

  /** The loop of `GridLayout::truncate` on the bookkeeping and the
      layouts: the last child is removed until at most `n` are left. */
  method RemoveFromEnd(b0: Bookkeeping, l0: seq<StackLayout>, n: nat) returns (b: Bookkeeping, ls: seq<StackLayout>)
    requires Consistent(b0) && |l0| == |b0.children|
    ensures Consistent(b) && b == Truncated(b0, n)
    ensures ls == l0[..Min(n, |l0|)]
  {
    b, ls := b0, l0;
    while |b.children| > n
      invariant Consistent(b) && Truncated(b, n) == Truncated(b0, n)
      invariant |b.children| <= |l0| && ls == l0[..|b.children|]
      decreases |b.children|
    {
      var last := |b.children| - 1;
      RemovedConsistent(b, last);
      TruncatedStep(b, n, last, Removed(b, last));
      b := Removed(b, last);
      ls := l0[..last];
    }
  }

  /** The measured children's pixels add up to no less than nothing. */
  lemma {:induction false} TotalPxNonNegative(cs: seq<Child>)
    ensures Total(cs, PxOf) >= 0
  {
    if cs != [] {
      TotalPxNonNegative(cs[..|cs| - 1]);
    }
  }

  /** What the measuring passes need of the bookkeeping: every listed id
      is a child's, at most every child fits its content, and the measured
      children's pixels add up to no less than nothing. */
  predicate Measurable(b: Bookkeeping)
  {
    ListedLive(b) && |b.fit| <= |b.children| && b.allocatedPx >= 0
  }

  /** A consistent bookkeeping can be measured. */
  lemma ConsistentMeasurable(b: Bookkeeping)
    requires Consistent(b)
    ensures Measurable(b)
  {
    TotalPxNonNegative(b.children);
  }

  /** The measuring passes over this bookkeeping and these layouts: the
      positions of the listed children, their weights, and the space
      allocated to the measured ones (pixels, and logical pixels converted
      at `scale`). A measured child's length goes through the passes
      untouched: only the children that fit their content and the
      fractional ones are given new lengths. */
  function Measurements(o: Orientation, measure: Measure, available: Size<ConstraintLimit>, gutter: UPx,
                        b: Bookkeeping, ls: seq<StackLayout>, elements: nat, scale: real, lpToUpx: LpToUpx): (r: Measurement)
    requires Measurable(b) && |ls| == |b.children|
    ensures |r.sizes| == |ls| && |r.others| == elements && r.total == TotalOther(r.others)
    ensures KeepsMeasured(b, ls, r.sizes)
    ensures elements == 1 && SplitSize(o, available).1.Fill? ==> r.total >= SplitSize(o, available).1.px
  {
    var fit := Indices(b.children, b.fit);
    var premeasured := Indices(b.children, b.premeasured);
    var fractional := Indices(b.children, Keys(b.fractional, PairId));
    var sizes := SizesOf(ls);
    var weights := WeightsOf(b.fractional);
    var taken: nat := b.allocatedPx + lpToUpx(b.allocatedLp, scale);
    UpdateKeepsMeasured(o, measure, available, gutter, b, sizes, elements, fit, premeasured, fractional, weights, taken);
    UpdateLengths(o, measure, available, gutter, sizes, elements, fit, premeasured, fractional, weights, taken)
  }

  /** A child whose id is not listed has no position among the listed. */
  lemma NotIndexed(cs: seq<Child>, ids: seq<nat>, i: nat)
    requires forall k :: 0 <= k < |ids| ==> ids[k] in Ids(cs)
    requires i < |cs| && cs[i].id !in ids
    ensures i !in Indices(cs, ids)
  {
  }

  /** The measuring passes keep the length of every measured child. */
  lemma {:induction false} UpdateKeepsMeasured(o: Orientation, measure: Measure, available: Size<ConstraintLimit>, gutter: UPx,
                            b: Bookkeeping, sizes: seq<UPx>, elements: nat, fit: seq<nat>, premeasured: seq<nat>,
                            fractional: seq<nat>, weights: seq<U8>, taken: nat)
    requires Measurable(b) && |sizes| == |b.children| && |weights| == |fractional|
    requires fit == Indices(b.children, b.fit) && premeasured == Indices(b.children, b.premeasured)
    requires fractional == Indices(b.children, Keys(b.fractional, PairId))
    ensures forall i :: 0 <= i < |sizes| && b.children[i].dimension.Measured? && Classified(b.children[i], b.fit, b.fractional, b.premeasured)
              ==> UpdateLengths(o, measure, available, gutter, sizes, elements, fit, premeasured, fractional, weights, taken).sizes[i] == sizes[i]
  {
    forall i | 0 <= i < |sizes| && b.children[i].dimension.Measured? && Classified(b.children[i], b.fit, b.fractional, b.premeasured)
      ensures UpdateLengths(o, measure, available, gutter, sizes, elements, fit, premeasured, fractional, weights, taken).sizes[i] == sizes[i]
    {
      NotIndexed(b.children, b.fit, i);
      NotIndexed(b.children, Keys(b.fractional, PairId), i);
      UpdateKeepsUnlisted(o, measure, available, gutter, sizes, elements, fit, premeasured, fractional, weights, taken, i);
    }
  }

  /** The loop of `GridLayout::update_measured`: every measured child's
      layout takes its size at `scale`. */
  method Remeasuring(cs: seq<Child>, ls: seq<StackLayout>, scale: real, lpToUpx: LpToUpx) returns (r: seq<StackLayout>)
    requires |cs| == |ls|
    ensures r == RemeasuredAll(cs, ls, scale, lpToUpx)
  {
    r := ls;
    var i := 0;
    while i < |r|
      invariant i <= |r| == |ls|
      invariant forall k :: 0 <= k < i ==> r[k] == Remeasure(cs[k], ls[k], scale, lpToUpx)
      invariant forall k :: i <= k < |r| ==> r[k] == ls[k]
    {
      if cs[i].dimension.Measured? {
        r := r[i := StackLayout(r[i].offset, IntoUpx(cs[i].dimension.size, scale, lpToUpx))];
      }
      i := i + 1;
    }
  }

  /** The loop of `GridLayout::update_offsets`: each layout keeps its
      length and starts where `Offsets` places it, and `end` is where the
      last visible one ends. */
  method Placing(ls: seq<StackLayout>, gutter: UPx) returns (r: seq<StackLayout>, end: nat)
    ensures Positioned(ls, gutter, r, end)
  {
    ghost var sizes := SizesOf(ls);
    ghost var offsets: seq<nat> := [];
    r := ls;
    end := 0;
    var i := 0;
    while i < |r|
      invariant i <= |r| == |ls| == |sizes|
      invariant offsets == Offsets(sizes, gutter, i).0 && end == Offsets(sizes, gutter, i).1
      invariant |offsets| == i
      invariant forall k :: 0 <= k < i ==> r[k] == StackLayout(offsets[k], ls[k].size)
      invariant forall k :: i <= k < |r| ==> r[k] == ls[k]
    {
      var size := ls[i].size;
      assert size == sizes[i];
      OffsetsSnoc(sizes, gutter, i);
      var start: nat := if size > 0 && end > 0 then end + gutter else end;
      var next: nat := if size > 0 then start + size else start;
      assert Offsets(sizes, gutter, i + 1) == (offsets + [start], next);
      r := r[i := StackLayout(start, size)];
      offsets := offsets + [start];
      end := next;
      i := i + 1;
    }
  }

  /** `r` is `ls` placed with `gutter`, ending at `end`. */
  predicate Positioned(ls: seq<StackLayout>, gutter: UPx, r: seq<StackLayout>, end: nat)
  {
    var sizes := SizesOf(ls);
    var offsets := Offsets(sizes, gutter, |ls|).0;
    end == Offsets(sizes, gutter, |ls|).1 && |r| == |ls|
    && forall i :: 0 <= i < |ls| ==> r[i] == StackLayout(offsets[i], ls[i].size)
  }

  /** Placed children do not overlap, keep a gutter between two visible
      ones, and all end by the measured length. */
  lemma {:induction false} PlacedApart(ls: seq<StackLayout>, gutter: UPx, r: seq<StackLayout>, end: nat)
    requires Positioned(ls, gutter, r, end)
    ensures forall i, j :: 0 <= i < j < |r| ==> r[i].offset + r[i].size <= r[j].offset
    ensures forall i, j :: 0 <= i < j < |r| && r[i].size > 0 && r[j].size > 0 ==> r[i].offset + r[i].size + gutter <= r[j].offset
    ensures forall i :: 0 <= i < |r| ==> r[i].offset + r[i].size <= end
  {
    OffsetsOrdered(SizesOf(ls), gutter, |ls|);
  }

  /** The lengths `sizes` keep every listed measured child's length. */
  predicate KeepsMeasured(b: Bookkeeping, ls: seq<StackLayout>, sizes: seq<UPx>)
    requires |ls| == |sizes| == |b.children|
  {
    forall i :: 0 <= i < |ls| && b.children[i].dimension.Measured? && Classified(b.children[i], b.fit, b.fractional, b.premeasured)
      ==> sizes[i] == ls[i].size
  }

  /** Through the placing, every measured child keeps the length it held
      when the new lengths keep it. */
  lemma {:induction false} MeasuredKept(b: Bookkeeping, ls: seq<StackLayout>, sizes: seq<UPx>, gutter: UPx,
                     scale: real, lpToUpx: LpToUpx, r: seq<StackLayout>, end: nat)
    requires ListedOnce(b) && |ls| == |sizes| == |b.children| && KeepsMeasured(b, ls, sizes)
    requires MeasuredAgree(b.children, ls, scale, lpToUpx)
    requires Positioned(WithSizes(ls, sizes), gutter, r, end)
    ensures |r| == |b.children| && MeasuredAgree(b.children, r, scale, lpToUpx)
  {
    var sized := WithSizes(ls, sizes);
    forall i | 0 <= i < |b.children| && b.children[i].dimension.Measured?
      ensures r[i].size == IntoUpx(b.children[i].dimension.size, scale, lpToUpx)
    {
      assert Classified(b.children[i], b.fit, b.fractional, b.premeasured);
      assert r[i].size == sized[i].size == sizes[i] == ls[i].size;
    }
  }

  /** What `GridLayout::update` leaves once the lengths are measured at
      `scale`: the other lengths `os` and the total other length in `size`
      are what the measuring passes give, and the layouts `r` are `ls` with
      the measured lengths, placed with `gutter`, up to the measured length
      in `size`. */
  predicate Settled(o: Orientation, measure: Measure, available: Size<ConstraintLimit>, gutter: UPx,
                    b: Bookkeeping, ls: seq<StackLayout>, elements: nat, scale: real, lpToUpx: LpToUpx,
                    r: seq<StackLayout>, os: seq<UPx>, size: Size<nat>)
  {
    Measurable(b) && |ls| == |b.children|
    && var m := Measurements(o, measure, available, gutter, b, ls, elements, scale, lpToUpx);
    os == m.others && SplitSize(o, size).1 == m.total
    && Positioned(WithSizes(ls, m.sizes), gutter, r, SplitSize(o, size).0)
  }

  /** The measuring passes and the placing of `GridLayout::update` on
      values. */
  method Settling(o: Orientation, measure: Measure, available: Size<ConstraintLimit>, gutter: UPx,
                  b: Bookkeeping, ls: seq<StackLayout>, elements: nat, scale: real, lpToUpx: LpToUpx)
    returns (r: seq<StackLayout>, os: seq<UPx>, size: Size<nat>)
    requires Consistent(b) && |ls| == |b.children|
    ensures Settled(o, measure, available, gutter, b, ls, elements, scale, lpToUpx, r, os, size)
    ensures |r| == |ls| && |os| == elements
  {
    ConsistentMeasurable(b);
    var m := Measurements(o, measure, available, gutter, b, ls, elements, scale, lpToUpx);
    var measured;
    r, measured := Placing(WithSizes(ls, m.sizes), gutter);
    os := m.others;
    size := MakeSize(o, measured, m.total);
    SplitMakeRoundTrip(o, size, measured, m.total);
  }

  /** Settled children do not overlap and all end by the measured length. */
  lemma SettledApart(o: Orientation, measure: Measure, available: Size<ConstraintLimit>, gutter: UPx,
                     b: Bookkeeping, ls: seq<StackLayout>, elements: nat, scale: real, lpToUpx: LpToUpx,
                     r: seq<StackLayout>, os: seq<UPx>, size: Size<nat>)
    requires Settled(o, measure, available, gutter, b, ls, elements, scale, lpToUpx, r, os, size)
    ensures |r| == |ls|
    ensures forall i, j :: 0 <= i < j < |r| ==> r[i].offset + r[i].size <= r[j].offset
    ensures forall i :: 0 <= i < |r| ==> r[i].offset + r[i].size <= SplitSize(o, size).0
  {
    var m := Measurements(o, measure, available, gutter, b, ls, elements, scale, lpToUpx);
    PlacedApart(WithSizes(ls, m.sizes), gutter, r, SplitSize(o, size).0);
  }

  /** Settling keeps every measured child's length. */
  lemma SettledKeepsMeasured(o: Orientation, measure: Measure, available: Size<ConstraintLimit>, gutter: UPx,
                             b: Bookkeeping, ls: seq<StackLayout>, elements: nat, scale: real, lpToUpx: LpToUpx,
                             r: seq<StackLayout>, os: seq<UPx>, size: Size<nat>)
    requires Settled(o, measure, available, gutter, b, ls, elements, scale, lpToUpx, r, os, size)
    requires ListedOnce(b) && MeasuredAgree(b.children, ls, scale, lpToUpx)
    ensures |r| == |b.children| && MeasuredAgree(b.children, r, scale, lpToUpx)
  {
    var m := Measurements(o, measure, available, gutter, b, ls, elements, scale, lpToUpx);
    MeasuredKept(b, ls, m.sizes, gutter, scale, lpToUpx, r, SplitSize(o, size).0);
  }

  /** A single element in a space that must be filled is given at least
      that space as its other length. */
  lemma SettledFills(o: Orientation, measure: Measure, available: Size<ConstraintLimit>, gutter: UPx,
                     b: Bookkeeping, ls: seq<StackLayout>, elements: nat, scale: real, lpToUpx: LpToUpx,
                     r: seq<StackLayout>, os: seq<UPx>, size: Size<nat>)
    requires Settled(o, measure, available, gutter, b, ls, elements, scale, lpToUpx, r, os, size)
    requires elements == 1 && SplitSize(o, available).1.Fill?
    ensures SplitSize(o, size).1 >= SplitSize(o, available).1.px
  {
  }

  /** `GridLayout`: the children along the measured axis with their
      bookkeeping, a layout per child, the other length of each element,
      and the scale the measured lengths were last converted at. */
  class GridLayout {
    const orientation: Orientation
    const lpToUpx: LpToUpx
    var children: seq<Child>
    var nextId: nat
    var fit: seq<nat>
    var fractional: seq<(nat, U8)>
    var premeasured: seq<nat>
    var totalWeights: int
    var allocatedPx: int
    var allocatedLp: int
    var layouts: seq<StackLayout>
    var elementsPerChild: nat
    var others: seq<UPx>
    var measuredScale: real

    /** The bookkeeping fields as one value. */
    function Book(): Bookkeeping
      reads this
    {
      Bookkeeping(children, nextId, fit, fractional, premeasured, totalWeights, allocatedPx, allocatedLp)
    }

    /** The bookkeeping is consistent, there is a layout per child and an
        other length per element. */
    ghost predicate Valid()
      reads this
    {
      Consistent(Book()) && |layouts| == |children| && |others| == elementsPerChild
    }

    /** `GridLayout::new` (grid.rs:296-310). */
    constructor (orientation: Orientation, lpToUpx: LpToUpx)
      ensures Valid() && this.orientation == orientation && this.lpToUpx == lpToUpx
      ensures Book() == Bookkeeping([], 0, [], [], [], 0, 0, 0)
      ensures layouts == [] && elementsPerChild == 1 && others == [0] && measuredScale == 1.0
    {
      this.orientation := orientation;
      this.lpToUpx := lpToUpx;
      children := [];
      nextId := 0;
      fit := [];
      fractional := [];
      premeasured := [];
      totalWeights := 0;
      allocatedPx := 0;
      allocatedLp := 0;
      layouts := [];
      elementsPerChild := 1;
      others := [0];
      measuredScale := 1.0;
    }

    /** `GridLayout::set_element_count` (grid.rs:312-315). */
    method SetElementCount(count: nat)
      requires Valid()
      modifies this
      ensures Valid() && others == Resized(old(others), count) && elementsPerChild == count
      ensures Book() == old(Book()) && layouts == old(layouts) && measuredScale == old(measuredScale)
    {
      others := Resized(others, count);
      elementsPerChild := count;
    }

    /** Replaces the bookkeeping fields by `r`. */
    method SetBook(r: Bookkeeping)
      modifies this
      ensures Book() == r
      ensures layouts == old(layouts) && elementsPerChild == old(elementsPerChild) && others == old(others)
      ensures measuredScale == old(measuredScale)
    {
      children := r.children;
      nextId := r.nextId;
      fit := r.fit;
      fractional := r.fractional;
      premeasured := r.premeasured;
      totalWeights := r.totalWeights;
      allocatedPx := r.allocatedPx;
      allocatedLp := r.allocatedLp;
    }

    /** Replaces the bookkeeping by `r` and the layouts by `ls`. */
    method Commit(r: Bookkeeping, ls: seq<StackLayout>)
      requires Consistent(r) && |ls| == |r.children| && |others| == elementsPerChild
      modifies this
      ensures Valid() && Book() == r && layouts == ls
      ensures elementsPerChild == old(elementsPerChild) && others == old(others) && measuredScale == old(measuredScale)
    {
      SetBook(r);
      layouts := ls;
    }

    /** `GridLayout::remove` (grid.rs:322-347): the child at `index` and
        its layout leave, and the bookkeeping is updated as `Removed`
        says; the child's dimension is returned. */
    method Remove(index: nat) returns (d: GridDimension)
      requires Valid() && index < |children|
      modifies this
      ensures Valid() && Book() == Removed(old(Book()), index) && d == old(children[index].dimension)
      ensures layouts == old(layouts[..index] + layouts[index + 1..])
      ensures elementsPerChild == old(elementsPerChild) && others == old(others) && measuredScale == old(measuredScale)
    {
      var b := Book();
      var r := Removed(b, index);
      d := children[index].dimension;
      RemovedConsistent(b, index);
      Commit(r, layouts[..index] + layouts[index + 1..]);
    }

    /** `GridLayout::truncate` (grid.rs:350-354): children are removed
        from the end, as `remove` does, until at most `newLength` are
        left. */
    method Truncate(newLength: nat)
      requires Valid()
      modifies this
      ensures Valid() && Book() == Truncated(old(Book()), newLength)
      ensures layouts == old(layouts)[..Min(newLength, |old(layouts)|)]
      ensures elementsPerChild == old(elementsPerChild) && others == old(others) && measuredScale == old(measuredScale)
    {
      var b, ls := RemoveFromEnd(Book(), layouts, newLength);
      Commit(b, ls);
    }

    /** `GridLayout::swap` as written (grid.rs:356-358): the children trade
        places, their layouts do not. */
    method SwapAsWritten(a: nat, b: nat)
      requires Valid() && a < |children| && b < |children|
      modifies this
      ensures Valid() && Book() == Swapped(old(Book()), a, b) && layouts == old(layouts)
      ensures elementsPerChild == old(elementsPerChild) && others == old(others) && measuredScale == old(measuredScale)
    {
      var book := Book();
      var r := Swapped(book, a, b);
      SwappedConsistent(book, a, b);
      Commit(r, layouts);
    }

    /** The swap with the layouts trading places too, so every measured
        child keeps its length. */
    method Swap(a: nat, b: nat, ghost scale: real)
      requires Valid() && a < |children| && b < |children|
      modifies this
      ensures Valid() && Book() == Swapped(old(Book()), a, b)
      ensures layouts == old(layouts[a := layouts[b]][b := layouts[a]])
      ensures elementsPerChild == old(elementsPerChild) && others == old(others) && measuredScale == old(measuredScale)
      ensures old(MeasuredAgree(children, layouts, scale, lpToUpx)) ==> MeasuredAgree(children, layouts, scale, lpToUpx)
    {
      var book := Book();
      var r := Swapped(book, a, b);
      var ls := layouts[a := layouts[b]][b := layouts[a]];
      if MeasuredAgree(children, layouts, scale, lpToUpx) {
        SwapKeepsMeasured(children, layouts, a, b, scale, lpToUpx);
      }
      SwappedConsistent(book, a, b);
      Commit(r, ls);
    }

    /** `GridLayout::insert` (grid.rs:360-389): the bookkeeping is updated
        as `Inserted` says, and the child's layout starts at its measured
        size at `scale`, or empty. */
    method Insert(index: nat, d: GridDimension, scale: real)
      requires Valid() && index <= |children|
      modifies this
      ensures Valid() && Book() == Inserted(old(Book()), index, d)
      ensures layouts == old(layouts[..index]) + [StackLayout(0, StartingLength(d, scale, lpToUpx))] + old(layouts[index..])
      ensures elementsPerChild == old(elementsPerChild) && others == old(others) && measuredScale == old(measuredScale)
      ensures old(MeasuredAgree(children, layouts, scale, lpToUpx)) ==> MeasuredAgree(children, layouts, scale, lpToUpx)
    {
      var b := Book();
      var r := Inserted(b, index, d);
      var ls := layouts[..index] + [StackLayout(0, StartingLength(d, scale, lpToUpx))] + layouts[index..];
      if MeasuredAgree(children, layouts, scale, lpToUpx) {
        InsertKeepsMeasured(children, layouts, index, Child(nextId, d), scale, lpToUpx);
      }
      InsertedConsistent(b, index, d);
      Commit(r, ls);
    }

    /** Replaces the layouts by `ls`, one per child. */
    method SetLayouts(ls: seq<StackLayout>)
      requires Valid() && |ls| == |layouts|
      modifies this
      ensures Valid() && Book() == old(Book()) && layouts == ls
      ensures elementsPerChild == old(elementsPerChild) && others == old(others) && measuredScale == old(measuredScale)
    {
      layouts := ls;
    }

    /** Replaces the layouts by `ls` and the other lengths by `os`. */
    method SetPlaced(ls: seq<StackLayout>, os: seq<UPx>)
      requires Valid() && |ls| == |layouts| && |os| == elementsPerChild
      modifies this
      ensures Valid() && Book() == old(Book()) && layouts == ls && others == os
      ensures elementsPerChild == old(elementsPerChild) && measuredScale == old(measuredScale)
    {
      layouts := ls;
      others := os;
    }

    /** `GridLayout::update_measured` (grid.rs:557-569): when the scale
        changed, every measured child's length is converted again at the
        new scale, and the other layouts are kept. */
    method UpdateMeasured(scale: real)
      requires Valid()
      modifies this
      ensures Valid() && Book() == old(Book()) && measuredScale == scale
      ensures elementsPerChild == old(elementsPerChild) && others == old(others)
      ensures layouts == if old(measuredScale) == scale then old(layouts) else RemeasuredAll(children, old(layouts), scale, lpToUpx)
      ensures old(measuredScale) != scale ==> MeasuredAgree(children, layouts, scale, lpToUpx)
    {
      if measuredScale != scale {
        var ls := Remeasuring(children, layouts, scale, lpToUpx);
        RemeasuredAgree(children, layouts, scale, lpToUpx);
        SetLayouts(ls);
        measuredScale := scale;
      }
    }

    /** `GridLayout::update_offsets` (grid.rs:577-623): the children are
        placed as `Placing` places them, and do not overlap; the measured
        length is where the last visible one ends. */
    method UpdateOffsets(gutter: UPx) returns (measured: nat)
      requires Valid()
      modifies this
      ensures Valid() && Book() == old(Book())
      ensures elementsPerChild == old(elementsPerChild) && others == old(others) && measuredScale == old(measuredScale)
      ensures Positioned(old(layouts), gutter, layouts, measured)
      ensures forall i, j :: 0 <= i < j < |layouts| ==> layouts[i].offset + layouts[i].size <= layouts[j].offset
      ensures forall i :: 0 <= i < |layouts| ==> layouts[i].offset + layouts[i].size <= measured
    {
      var ls;
      ls, measured := Placing(layouts, gutter);
      PlacedApart(layouts, gutter, ls, measured);
      SetLayouts(ls);
    }

    /** The measuring passes and the placing of `GridLayout::update`
        (grid.rs:399-555), from the layouts as they stand: the new state
        is `Settled`. */
    method Settle(available: Size<ConstraintLimit>, gutter: UPx, scale: real, measure: Measure) returns (size: Size<nat>)
      requires Valid()
      modifies this
      ensures Valid() && Book() == old(Book()) && elementsPerChild == old(elementsPerChild) && measuredScale == old(measuredScale)
      ensures Settled(orientation, measure, available, gutter, Book(), old(layouts), elementsPerChild, scale, lpToUpx, layouts, others, size)
    {
      var ls, os;
      ls, os, size := Settling(orientation, measure, available, gutter, Book(), layouts, elementsPerChild, scale, lpToUpx);
      SetPlaced(ls, os);
    }

    /** `GridLayout::update` (grid.rs:392-555): the measured lengths are
        brought up to `scale` first, then the new state is `Settled` from
        those layouts; every measured child then has its length at
        `scale`. */
    method Update(available: Size<ConstraintLimit>, gutter: UPx, scale: real, measure: Measure) returns (size: Size<nat>)
      requires Valid()
      modifies this
      ensures Valid() && Book() == old(Book()) && elementsPerChild == old(elementsPerChild) && measuredScale == scale
      ensures Settled(orientation, measure, available, gutter, Book(),
                      if old(measuredScale) == scale then old(layouts) else RemeasuredAll(children, old(layouts), scale, lpToUpx),
                      elementsPerChild, scale, lpToUpx, layouts, others, size)
      ensures old(measuredScale) != scale || old(MeasuredAgree(children, layouts, scale, lpToUpx)) ==> MeasuredAgree(children, layouts, scale, lpToUpx)
    {
      UpdateMeasured(scale);
      ghost var ls := layouts;
      size := Settle(available, gutter, scale, measure);
      if MeasuredAgree(children, ls, scale, lpToUpx) {
        SettledKeepsMeasured(orientation, measure, available, gutter, Book(), ls, elementsPerChild, scale, lpToUpx, layouts, others, size);
      }
    }
  }
}
