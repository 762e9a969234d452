/** Class lists of the gooey-core style system
    (crates/gooey-core/src/style/classes.rs): an ordered list of distinct
    class names, each stored in a slot with an id, and an index from name
    to slot id; with the by-value iterator over a list that is still
    shared. */
module GooeyClasses {
  import opened Common

  /** `Classes` (with its `ClassesData`): the slots of the ordered list, as
      the names in order and the slot id of each, the index from name to
      slot id, and the next slot id to hand out. Class names are compared
      for equality only. */
  class Classes<Name(==)> {
    var names: seq<Name>
    var ids: seq<nat>
    var byName: map<Name, nat>
    var nextId: nat

    /** Names are distinct, the index holds exactly the stored names, each
        with the id of its slot, and slot ids are below the next one. */
    ghost predicate Valid()
      reads this
    {
      && |ids| == |names|
      && Distinct(names)
      && (forall i :: 0 <= i < |names| ==> names[i] in byName && byName[names[i]] == ids[i])
      && (forall i :: 0 <= i < |ids| ==> ids[i] < nextId)
      && |byName| == |names|
    }

    /** The index holds no name that is not stored (it has as many entries
        as there are distinct stored names). */
    lemma IndexCovered()
      requires Valid()
      ensures forall n :: n in byName ==> n in names
    {
      forall n | n in byName
        ensures n in names
      {
        if n !in names {
          DistinctWithin(names, byName.Keys - {n});
        }
      }
    }

    /** `Classes::new` and `with_capacity`: no classes. */
    constructor()
      ensures Valid() && names == []
    {
      names := [];
      ids := [];
      byName := map[];
      nextId := 0;
    }

    /** `len`: the size of the name index, which is the number of names. */
    function Len(): (r: nat)
      requires Valid()
      reads this
      ensures r == |names|
    {
      |byName|
    }

    /** `is_empty`: whether the name index is empty, which is whether no
        name is stored. */
    function IsEmpty(): (r: bool)
      requires Valid()
      reads this
      ensures r <==> names == []
    {
      |byName| == 0
    }

    /** `contains`: whether the name is indexed, which is whether it is
        stored. */
    function Contains(name: Name): (r: bool)
      requires Valid()
      reads this
      ensures r <==> name in names
    {
      IndexCovered();
      name in byName
    }

    /** `get`: the name at the index, if there is one. */
    function Get(index: nat): (r: Option<Name>)
      requires Valid()
      reads this
      ensures r.Some? <==> index < |names|
      ensures r.Some? ==> r.value == names[index]
    {
      if index < |names| then Some(names[index]) else None
    }

    /** `push`: a name already present is refused and nothing changes;
        otherwise it goes at the end in a fresh slot. */
    method Push(name: Name) returns (added: bool)
      requires Valid()
      modifies this
      ensures Valid()
      ensures added <==> name !in old(names)
      ensures added ==> names == old(names) + [name]
      ensures !added ==> names == old(names)
    {
      added := Insert(|names|, name);
      if added {
        assert old(names)[..|old(names)|] == old(names);
      }
    }

    /** `insert`: like `push`, but the name goes at the index, which must
        not be past the end. */
    method Insert(index: nat, name: Name) returns (added: bool)
      requires Valid() && index <= |names|
      modifies this
      ensures Valid()
      ensures added <==> name !in old(names)
      ensures added ==> names == old(names)[..index] + [name] + old(names)[index..]
      ensures !added ==> names == old(names)
    {
      IndexCovered();
      if name in byName {
        added := false;
      } else {
        added := true;
        assert name !in names;
        InsertKeepsDistinct(names, index, name);
        InsertKeepsIndex(names, ids, byName, index, name, nextId);
        names := names[..index] + [name] + names[index..];
        ids := ids[..index] + [nextId] + ids[index..];
        byName := byName[name := nextId];
        nextId := nextId + 1;
      }
    }

    /** `remove`: a stored name leaves both the index and the list, and is
        returned; another name changes nothing. */
    method Remove(name: Name) returns (removed: Option<Name>, ghost at: nat)
      requires Valid()
      modifies this
      ensures Valid()
      ensures removed.Some? <==> name in old(names)
      ensures removed.Some? ==> removed.value == name
      ensures removed.Some? ==> at < |old(names)| && old(names)[at] == name && names == old(names)[..at] + old(names)[at + 1..]
      ensures removed.None? ==> names == old(names)
    {
      IndexCovered();
      if name in byName {
        var i :| 0 <= i < |names| && names[i] == name;
        RemoveKeepsIndex(names, ids, byName, i);
        at := i;
        names := names[..i] + names[i + 1..];
        ids := ids[..i] + ids[i + 1..];
        byName := byName - {name};
        removed := Some(name);
      } else {
        removed := None;
        at := 0;
      }
    }
  }

  /** Inserting a new name, in a slot with a fresh id, keeps the index
      consistent once the name is indexed. */
  lemma InsertKeepsIndex<Name>(names: seq<Name>, ids: seq<nat>, byName: map<Name, nat>, index: nat, name: Name, id: nat)
    requires index <= |names| == |ids| && name !in byName
    requires forall i :: 0 <= i < |names| ==> names[i] in byName && byName[names[i]] == ids[i]
    requires forall i :: 0 <= i < |ids| ==> ids[i] < id
    ensures var names' := names[..index] + [name] + names[index..];
      var ids' := ids[..index] + [id] + ids[index..];
      && (forall i :: 0 <= i < |names'| ==> names'[i] in byName[name := id] && byName[name := id][names'[i]] == ids'[i])
      && (forall i :: 0 <= i < |ids'| ==> ids'[i] < id + 1)
  {
    var names' := names[..index] + [name] + names[index..];
    var ids' := ids[..index] + [id] + ids[index..];
    forall i | 0 <= i < |names'|
      ensures names'[i] in byName[name := id] && byName[name := id][names'[i]] == ids'[i]
    {
      if i < index {
        assert names'[i] == names[i] && ids'[i] == ids[i];
      } else if i > index {
        assert names'[i] == names[i - 1] && ids'[i] == ids[i - 1];
      }
    }
  }

  /** Distinct names that all belong to a set are no more than its
      elements. */
  lemma {:induction false} DistinctWithin<Name>(names: seq<Name>, s: set<Name>)
    requires Distinct(names)
    requires forall i :: 0 <= i < |names| ==> names[i] in s
    ensures |names| <= |s|
  {
    if names != [] {
      var last := names[|names| - 1];
      var init := names[..|names| - 1];
      forall i | 0 <= i < |init|
        ensures init[i] in s - {last}
      {
        assert init[i] == names[i] && names[i] != names[|names| - 1];
      }
      DistinctWithin(init, s - {last});
    }
  }

  /** Removing the slot of an indexed name, and the name from the index,
      keeps the index consistent. */
  lemma RemoveKeepsIndex<Name>(names: seq<Name>, ids: seq<nat>, byName: map<Name, nat>, i: nat)
    requires i < |names| == |ids|
    requires Distinct(names)
    requires forall k :: 0 <= k < |names| ==> names[k] in byName && byName[names[k]] == ids[k]
    requires |byName| == |names|
    ensures var names' := names[..i] + names[i + 1..];
      var ids' := ids[..i] + ids[i + 1..];
      var byName' := byName - {names[i]};
      && Distinct(names')
      && (forall k :: 0 <= k < |names'| ==> names'[k] in byName' && byName'[names'[k]] == ids'[k])
      && |byName'| == |names'|
  {
    var names' := names[..i] + names[i + 1..];
    var ids' := ids[..i] + ids[i + 1..];
    var byName' := byName - {names[i]};
    forall k | 0 <= k < |names'|
      ensures names'[k] != names[i] && names'[k] in byName' && byName'[names'[k]] == ids'[k]
    {
      if k < i {
        assert names'[k] == names[k] && ids'[k] == ids[k];
      } else {
        assert names'[k] == names[k + 1] && ids'[k] == ids[k + 1];
      }
    }
    assert byName'.Keys == byName.Keys - {names[i]};
  }

  /** `contains_all`: the names the two lists share number as many as the
      other list's names. */
  function ContainsAll<Name(==)>(c: Classes<Name>, other: Classes<Name>): bool
    requires c.Valid() && other.Valid()
    reads c, other
  {
    |c.byName.Keys * other.byName.Keys| == other.Len()
  }

  /** `contains_all` holds exactly when every name of the other list is
      stored. */
  lemma ContainsAllIsSubset<Name>(c: Classes<Name>, other: Classes<Name>)
    requires c.Valid() && other.Valid()
    ensures ContainsAll(c, other) <==> forall n :: n in other.names ==> n in c.names
  {
    var a := c.byName.Keys;
    var b := other.byName.Keys;
    c.IndexCovered();
    other.IndexCovered();
    assert |b| == other.Len();
    if b <= a {
      assert a * b == b;
    } else {
      var x :| x in b && x !in a;
      assert a * b <= b - {x};
      SubsetCardinality(a * b, b - {x});
    }
  }

  /** A subset is no larger. */
  lemma {:induction false} SubsetCardinality<Name>(s: set<Name>, t: set<Name>)
    requires s <= t
    ensures |s| <= |t|
    decreases |t|
  {
    if s != {} {
      var x :| x in s;
      SubsetCardinality(s - {x}, t - {x});
    }
  }

  /** The `classes` test: a repeated push is refused, `insert(0, ..)` goes
      first, and removing a class closes the gap. */
  method ClassesTest<Name(==)>(a: Name, b: Name, c: Name) returns (first: seq<Name>, second: seq<Name>, third: seq<Name>,
                                                              pushedAgain: bool, removed: bool)
    requires a != b && a != c && b != c
    ensures first == [a, b] && !pushedAgain
    ensures second == [c, a, b]
    ensures removed && third == [c, b]
  {
    var classes := new Classes<Name>();
    var added := classes.Push(a);
    pushedAgain := classes.Push(a);
    added := classes.Push(b);
    first := classes.names;
    added := classes.Insert(0, c);
    second := classes.names;
    var r, at := classes.Remove(a);
    removed := r.Some?;
    third := classes.names;
  }

  /** The names of a sequence in order of first occurrence, later repeats
      dropped. */
  function Dedup<Name(==)>(names: seq<Name>): (r: seq<Name>)
  {
    if names == [] then []
    else
      var init := Dedup(names[..|names| - 1]);
      if names[|names| - 1] in init then init else init + [names[|names| - 1]]
  }

  /** Deduplication keeps exactly the names of the sequence, once each. */
  lemma {:induction false} DedupKeepsNamesOnce<Name>(names: seq<Name>)
    ensures Distinct(Dedup(names))
    ensures forall n :: n in Dedup(names) <==> n in names
  {
    if names != [] {
      var init := names[..|names| - 1];
      DedupKeepsNamesOnce(init);
      assert names == init + [names[|names| - 1]];
    }
  }

  /** `FromIterator`: each name pushed in turn, so the list holds the names
      once each, in order of first occurrence. */
  method FromNames<Name(==)>(names: seq<Name>) returns (classes: Classes<Name>)
    ensures fresh(classes) && classes.Valid()
    ensures classes.names == Dedup(names)
  {
    classes := new Classes();
    var i := 0;
    while i < |names|
      invariant 0 <= i <= |names| && classes.Valid()
      invariant classes.names == Dedup(names[..i])
      modifies classes
    {
      assert names[..i + 1][..i] == names[..i];
      var added := classes.Push(names[i]);
      i := i + 1;
    }
    assert names[..i] == names;
  }

  /** The by-value iterator over a list whose storage is still shared
      (`IntoIterData::Wrapped`), as written: `next` computes `index + 1`
      (stopping at `usize::MAX`) and yields the name at `index` only when
      `index + 1` is below the length. */
  class WrappedIntoIter<Name> {
    const data: seq<Name>
    const length: nat
    var index: nat

    /** `into_iter` on a shared list: from the first name. */
    constructor(names: seq<Name>)
      ensures data == names && length == |names| && index == 0
    {
      data := names;
      length := |names|;
      index := 0;
    }

    /** `IntoIter::next` as written. */
    method Next() returns (name: Option<Name>)
      requires index <= length == |data|
      modifies this
      ensures index <= length
      ensures old(index) + 1 < length && old(index) + 1 <= USIZE_MAX ==> name == Some(data[old(index)]) && index == old(index) + 1
      ensures !(old(index) + 1 < length && old(index) + 1 <= USIZE_MAX) ==> name.None? && index == old(index)
    {
      if index + 1 > USIZE_MAX {
        return None;
      }
      var next := index + 1;
      if next < length {
        name := Some(data[index]);
        index := next;
      } else {
        name := None;
      }
    }

    /** `next` with the bound checked on `index` itself. */
    method NextCorrected() returns (name: Option<Name>)
      requires index <= length == |data|
      modifies this
      ensures index <= length
      ensures old(index) < length ==> name == Some(data[old(index)]) && index == old(index) + 1
      ensures old(index) >= length ==> name.None? && index == old(index)
    {
      if index < length {
        name := Some(data[index]);
        index := index + 1;
      } else {
        name := None;
      }
    }
  }

  /** Draining the shared iterator as written yields every name but the
      last. */
  method CollectWrapped<Name>(names: seq<Name>) returns (out: seq<Name>)
    requires |names| <= USIZE_MAX
    ensures |names| > 0 ==> out == names[..|names| - 1]
    ensures |names| == 0 ==> out == []
  {
    var it := new WrappedIntoIter(names);
    out := [];
    var name := it.Next();
    while name.Some?
      invariant it.data == names && it.length == |names| && it.index <= it.length
      invariant name.Some? ==> 1 <= it.index < it.length && out == names[..it.index - 1] && name.value == names[it.index - 1]
      invariant name.None? ==> (|names| > 0 ==> out == names[..|names| - 1]) && (|names| == 0 ==> out == [])
      decreases it.length - it.index, name.Some?
    {
      assert names[..it.index] == names[..it.index - 1] + [names[it.index - 1]];
      out := out + [name.value];
      name := it.Next();
    }
  }

  /** Draining it with the corrected `next` yields every name. */
  method CollectCorrected<Name>(names: seq<Name>) returns (out: seq<Name>)
    ensures out == names
  {
    var it := new WrappedIntoIter(names);
    out := [];
    var name := it.NextCorrected();
    while name.Some?
      invariant it.data == names && it.length == |names| && it.index <= it.length
      invariant name.Some? ==> it.index >= 1 && out == names[..it.index - 1] && name.value == names[it.index - 1]
      invariant name.None? ==> out == names
      decreases it.length - it.index, name.Some?
    {
      assert names[..it.index] == names[..it.index - 1] + [names[it.index - 1]];
      out := out + [name.value];
      name := it.NextCorrected();
    }
  }

  /** A shared list of two classes iterates as only its first class. */
  method SharedIterationLosesLast() returns (out: seq<string>)
    ensures out == ["a"]
  {
    out := CollectWrapped(["a", "b"]);
  }
}
