/** The pattern library of the gooey-core style system
    (crates/gooey-core/src/style.rs): patterns indexed by the keys of their
    selectors, the `Matches` iterator that yields the patterns matching an
    id, a widget name or a class list, and the RGBA reading of a `Color`.
    Pattern ids are the positions of the patterns, as the library never
    removes one. */
module GooeyStyleLibrary {
  import opened Common

  /** A style name (`stylecs::Name`), compared for equality only. */
  type Name = string

  /** `Selector`: an optional id, an optional widget name and classes (a
      `Classes` list, whose names are distinct). */
  datatype Selector = Selector(id: Option<Name>, widget: Option<Name>, classes: seq<Name>)

  /** `SelectorKey`. */
  datatype SelectorKey = IdKey(name: Name) | WidgetKey(name: Name) | ClassKey(name: Name)

  /** The class keys of a class list, in order. */
  function ClassKeys(classes: seq<Name>): seq<SelectorKey>
  {
    if classes == [] then [] else [ClassKey(classes[0])] + ClassKeys(classes[1..])
  }

  /** A class list has a class key for each of its classes and no other
      key; distinct classes give distinct keys. */
  lemma {:induction false} ClassKeysMembers(classes: seq<Name>)
    ensures forall k :: k in ClassKeys(classes) <==> k.ClassKey? && k.name in classes
    ensures Distinct(classes) ==> Distinct(ClassKeys(classes))
  {
    if classes != [] {
      ClassKeysMembers(classes[1..]);
      assert forall n :: n in classes <==> n == classes[0] || n in classes[1..];
      assert Distinct(classes) ==> classes[0] !in classes[1..];
    }
  }

  /** The keys `push` indexes a pattern under: its id, its widget, then each
      class. */
  function KeysOf(s: Selector): seq<SelectorKey>
  {
    (if s.id.Some? then [IdKey(s.id.value)] else [])
    + (if s.widget.Some? then [WidgetKey(s.widget.value)] else [])
    + ClassKeys(s.classes)
  }

  /** The keys of a selector with distinct classes are distinct. */
  lemma KeysOfDistinct(s: Selector)
    requires Distinct(s.classes)
    ensures Distinct(KeysOf(s))
  {
    var ids := if s.id.Some? then [IdKey(s.id.value)] else [];
    var widgets := if s.widget.Some? then [WidgetKey(s.widget.value)] else [];
    assert KeysOf(s) == ids + widgets + ClassKeys(s.classes);
    ClassKeysMembers(s.classes);
  }

  /** A selector has a key: its id, its widget or one of its classes. */
  predicate HasKey(s: Selector, key: SelectorKey)
  {
    match key
    case IdKey(n) => s.id == Some(n)
    case WidgetKey(n) => s.widget == Some(n)
    case ClassKey(n) => n in s.classes
  }

  /** The keys `push` indexes a pattern under are exactly the keys it
      has. */
  lemma KeysOfMembers(s: Selector)
    ensures forall key :: key in KeysOf(s) <==> HasKey(s, key)
  {
    var ids := if s.id.Some? then [IdKey(s.id.value)] else [];
    var widgets := if s.widget.Some? then [WidgetKey(s.widget.value)] else [];
    assert KeysOf(s) == ids + widgets + ClassKeys(s.classes);
    ClassKeysMembers(s.classes);
  }

  /** The index list under a key, empty when the key is absent. */
  function Lookup(index: map<SelectorKey, seq<nat>>, key: SelectorKey): seq<nat>
  {
    if key in index then index[key] else []
  }

  /** The positions, in order, of the patterns indexed under a key. */
  function Positions(patterns: seq<Selector>, key: SelectorKey): seq<nat>
  {
    if patterns == [] then []
    else Positions(patterns[..|patterns| - 1], key) + (if HasKey(patterns[|patterns| - 1], key) then [|patterns| - 1] else [])
  }

  /** A position is listed under a key exactly when the pattern there has
      that key. */
  lemma {:induction false} PositionsMembers(patterns: seq<Selector>, key: SelectorKey)
    ensures forall i: nat :: i in Positions(patterns, key) <==> (i < |patterns| && HasKey(patterns[i], key))
  {
    if patterns != [] {
      var init := patterns[..|patterns| - 1];
      var last := if HasKey(patterns[|init|], key) then [|init|] else [];
      assert Positions(patterns, key) == Positions(init, key) + last;
      forall i: nat
        ensures i in Positions(patterns, key) <==> (i < |patterns| && HasKey(patterns[i], key))
      {
        PositionsMembers(init, key);
        if i < |init| {
          assert patterns[i] == init[i];
        }
      }
    }
  }

  /** No position is listed twice under a key. */
  lemma {:induction false} PositionsDistinct(patterns: seq<Selector>, key: SelectorKey)
    ensures Distinct(Positions(patterns, key))
  {
    if patterns != [] {
      var init := patterns[..|patterns| - 1];
      PositionsDistinct(init, key);
      PositionsMembers(init, key);
      var prev := Positions(init, key);
      assert |init| !in prev;
    }
  }


  /** `Library`: the patterns and the pattern ids under each selector key. */
  class Library {
    var patterns: seq<Selector>
    var index: map<SelectorKey, seq<nat>>

    /** Every key lists, in order, the patterns indexed under it, and every
        pattern's classes are distinct. */
    ghost predicate Valid()
      reads this
    {
      && (forall key :: Lookup(index, key) == Positions(patterns, key))
      && (forall i :: 0 <= i < |patterns| ==> Distinct(patterns[i].classes))
    }

    /** `Library::new`: no patterns. */
    constructor()
      ensures Valid() && patterns == [] && index == map[]
    {
      patterns := [];
      index := map[];
    }

    /** `push`: the pattern gets the next id, which is appended under each
        key of its selector; no other key changes. */
    method Push(selector: Selector) returns (id: nat)
      requires Valid() && Distinct(selector.classes)
      modifies this
      ensures Valid()
      ensures id == |old(patterns)| && patterns == old(patterns) + [selector]
      ensures forall key :: Lookup(index, key) == Lookup(old(index), key) + (if HasKey(selector, key) then [id] else [])
    {
      var keys := KeysOf(selector);
      KeysOfDistinct(selector);
      KeysOfMembers(selector);
      id := |patterns|;
      var before := patterns;
      patterns := patterns + [selector];
      index := IndexUnder(index, keys, id);
      assert patterns[..|patterns| - 1] == before;
      forall key
        ensures Lookup(index, key) == Positions(patterns, key)
      {
        assert Lookup(old(index), key) == Positions(before, key);
      }
    }
  }

  /** The loop of `push` over the selector's keys: the id is appended to
      each key's list, creating the list when missing. */
  method IndexUnder(index: map<SelectorKey, seq<nat>>, keys: seq<SelectorKey>, id: nat) returns (r: map<SelectorKey, seq<nat>>)
    requires Distinct(keys)
    ensures forall key :: Lookup(r, key) == Lookup(index, key) + (if key in keys then [id] else [])
  {
    r := index;
    var i := 0;
    while i < |keys|
      invariant 0 <= i <= |keys|
      invariant forall key :: Lookup(r, key) == Lookup(index, key) + (if key in keys[..i] then [id] else [])
    {
      var key := keys[i];
      assert key !in keys[..i];
      r := r[key := Lookup(r, key) + [id]];
      assert keys[..i + 1] == keys[..i] + [key];
      i := i + 1;
    }
    assert keys[..i] == keys;
  }

  /** The classes of a pattern are all among the query's classes (the
      query's `contains_all`); without query classes anything passes. */
  predicate ClassesPass(query: Option<seq<Name>>, s: Selector)
  {
    query.None? || forall n :: n in s.classes ==> n in query.value
  }

  /** A pattern found under the id passes when its widget equals the
      query's widget, absent or not, and its classes pass. */
  predicate IdPasses(s: Selector, widget: Option<Name>, classes: Option<seq<Name>>)
  {
    s.widget == widget && ClassesPass(classes, s)
  }

  /** A pattern found under the widget passes when it has no id and its
      classes pass. */
  predicate WidgetPasses(s: Selector, classes: Option<seq<Name>>)
  {
    s.id.None? && ClassesPass(classes, s)
  }

  /** A pattern found under a class passes when it has no id and no widget
      and its classes pass. */
  predicate ClassPasses(s: Selector, classes: Option<seq<Name>>)
  {
    s.id.None? && s.widget.None? && ClassesPass(classes, s)
  }

  /** The ids of a list, in order, whose patterns pass the id test. */
  function FilterId(patterns: seq<Selector>, ids: seq<nat>, widget: Option<Name>, classes: Option<seq<Name>>): seq<nat>
  {
    if ids == [] then []
    else if ids[0] < |patterns| && IdPasses(patterns[ids[0]], widget, classes) then [ids[0]] + FilterId(patterns, ids[1..], widget, classes)
    else FilterId(patterns, ids[1..], widget, classes)
  }

  /** The ids of a list, in order, whose patterns pass the widget test. */
  function FilterWidget(patterns: seq<Selector>, ids: seq<nat>, classes: Option<seq<Name>>): seq<nat>
  {
    if ids == [] then []
    else if ids[0] < |patterns| && WidgetPasses(patterns[ids[0]], classes) then [ids[0]] + FilterWidget(patterns, ids[1..], classes)
    else FilterWidget(patterns, ids[1..], classes)
  }

  /** What a class scan yields: the passing ids of the current class's list
      not yet yielded, then those of the remaining classes. */
  function ScanIds(patterns: seq<Selector>, index: map<SelectorKey, seq<nat>>, ids: seq<nat>, rest: seq<Name>,
                   classes: Option<seq<Name>>, matched: set<nat>): seq<nat>
    decreases |rest|, 1, |ids|
  {
    if ids == [] then ScanClasses(patterns, index, rest, classes, matched)
    else if ids[0] < |patterns| && ClassPasses(patterns[ids[0]], classes) && ids[0] !in matched then
      [ids[0]] + ScanIds(patterns, index, ids[1..], rest, classes, matched + {ids[0]})
    else ScanIds(patterns, index, ids[1..], rest, classes, matched)
  }

  /** What a class scan yields from the remaining classes on. */
  function ScanClasses(patterns: seq<Selector>, index: map<SelectorKey, seq<nat>>, rest: seq<Name>,
                       classes: Option<seq<Name>>, matched: set<nat>): seq<nat>
    decreases |rest|, 0, 0
  {
    if rest == [] then [] else ScanIds(patterns, index, Lookup(index, ClassKey(rest[0])), rest[1..], classes, matched)
  }

  /** The patterns a query yields: by id when one is given, otherwise by
      widget, otherwise by classes, otherwise none. */
  function Matching(patterns: seq<Selector>, index: map<SelectorKey, seq<nat>>, id: Option<Name>, widget: Option<Name>,
                    classes: Option<seq<Name>>): seq<nat>
  {
    if id.Some? then FilterId(patterns, Lookup(index, IdKey(id.value)), widget, classes)
    else if widget.Some? then FilterWidget(patterns, Lookup(index, WidgetKey(widget.value)), classes)
    else if classes.Some? then ScanClasses(patterns, index, classes.value, classes, {})
    else []
  }

  /** `MatchState`: slice iterators are the ids not yet visited; class
      iterators the classes not yet visited. */
  datatype MatchState =
    | Start
    | IdState(ids: seq<nat>)
    | WidgetState(ids: seq<nat>)
    | ClassesState(rest: seq<Name>)
    | ClassState(ids: seq<nat>, rest: seq<Name>)
    | NoMatches

  /** Every id listed in the index names a pattern. */
  predicate IndexBounded(index: map<SelectorKey, seq<nat>>, count: nat)
  {
    forall key :: key in index ==> forall j :: 0 <= j < |index[key]| ==> index[key][j] < count
  }

  /** A rank lexicographically below another. */
  predicate RankBelow(a: (nat, nat, nat), b: (nat, nat, nat))
  {
    a.0 < b.0 || (a.0 == b.0 && (a.1 < b.1 || (a.1 == b.1 && a.2 < b.2)))
  }

  /** `Matches`: the query, the library's patterns and index, the state,
      and the ids already yielded by the class scan. */
  class Matches {
    const patterns: seq<Selector>
    const index: map<SelectorKey, seq<nat>>
    const id: Option<Name>
    const widget: Option<Name>
    const classes: Option<seq<Name>>
    var state: MatchState
    var matched: set<nat>

    /** The ids of the state name patterns. */
    ghost predicate Valid()
      reads this
    {
      && IndexBounded(index, |patterns|)
      && (state.Start? ==> matched == {})
      && match state
         case IdState(ids) => forall j :: 0 <= j < |ids| ==> ids[j] < |patterns|
         case WidgetState(ids) => forall j :: 0 <= j < |ids| ==> ids[j] < |patterns|
         case ClassState(ids, _) => forall j :: 0 <= j < |ids| ==> ids[j] < |patterns|
         case _ => true
    }

    /** What the iterator still yields. */
    ghost function Remaining(): seq<nat>
      reads this
    {
      match state
      case Start => Matching(patterns, index, id, widget, classes)
      case IdState(ids) => FilterId(patterns, ids, widget, classes)
      case WidgetState(ids) => FilterWidget(patterns, ids, classes)
      case ClassesState(rest) => ScanClasses(patterns, index, rest, classes, matched)
      case ClassState(ids, rest) => ScanIds(patterns, index, ids, rest, classes, matched)
      case NoMatches => []
    }

    /** `Library::patterns_matching`: the iterator at its start. */
    constructor(library: Library, id: Option<Name>, widget: Option<Name>, classes: Option<seq<Name>>)
      requires library.Valid()
      ensures Valid() && state == Start && matched == {}
      ensures patterns == library.patterns && index == library.index
      ensures this.id == id && this.widget == widget && this.classes == classes
    {
      patterns := library.patterns;
      index := library.index;
      this.id := id;
      this.widget := widget;
      this.classes := classes;
      state := Start;
      matched := {};
      new;
      forall key | key in library.index
        ensures forall j :: 0 <= j < |library.index[key]| ==> library.index[key][j] < |library.patterns|
      {
        assert Lookup(library.index, key) == Positions(library.patterns, key);
        PositionsMembers(library.patterns, key);
        forall j | 0 <= j < |library.index[key]|
          ensures library.index[key][j] < |library.patterns|
        {
          assert library.index[key][j] in Positions(library.patterns, key);
        }
      }
    }

    /** The progress measure of `next`'s loop, ordered lexicographically. */
    ghost function Rank(): (nat, nat, nat)
      reads this
    {
      match state
      case Start => (if classes.Some? then |classes.value| + 1 else 1, 2, 0)
      case IdState(ids) => (0, 1, |ids|)
      case WidgetState(ids) => (0, 1, |ids|)
      case ClassesState(rest) => (|rest|, 0, 0)
      case ClassState(ids, rest) => (|rest|, 1, |ids|)
      case NoMatches => (0, 0, 0)
    }

    /** One pass of `next`'s loop: either the iteration ends with an id
        or with nothing, or the state moves on without yielding and with a
        lower rank. */
    method Step() returns (done: bool, r: Option<nat>)
      requires Valid()
      modifies this
      ensures Valid()
      ensures done && r.Some? ==> old(Remaining()) == [r.value] + Remaining()
      ensures done && r.None? ==> old(Remaining()) == [] && Remaining() == []
      ensures !done ==> Remaining() == old(Remaining()) && RankBelow(Rank(), old(Rank()))
    {
      done, r := false, None;
      match state {
        case Start =>
          if id.Some? {
            if IdKey(id.value) in index {
              state := IdState(index[IdKey(id.value)]);
            } else {
              state := NoMatches;
            }
          } else if widget.Some? {
            if WidgetKey(widget.value) in index {
              state := WidgetState(index[WidgetKey(widget.value)]);
            } else {
              state := NoMatches;
            }
          } else if classes.Some? {
            state := ClassesState(classes.value);
          } else {
            state := NoMatches;
          }
        case IdState(ids) =>
          if ids == [] {
            return true, None;
          }
          state := IdState(ids[1..]);
          if IdPasses(patterns[ids[0]], widget, classes) {
            return true, Some(ids[0]);
          }
        case WidgetState(ids) =>
          if ids == [] {
            return true, None;
          }
          state := WidgetState(ids[1..]);
          if WidgetPasses(patterns[ids[0]], classes) {
            return true, Some(ids[0]);
          }
        case ClassState(ids, rest) =>
          if ids == [] {
            state := ClassesState(rest);
          } else {
            state := ClassState(ids[1..], rest);
            if ClassPasses(patterns[ids[0]], classes) && ids[0] !in matched {
              matched := matched + {ids[0]};
              return true, Some(ids[0]);
            }
          }
        case ClassesState(rest) =>
          if rest == [] {
            return true, None;
          }
          var key := ClassKey(rest[0]);
          if key in index {
            state := ClassState(index[key], rest[1..]);
          } else {
            assert ScanClasses(patterns, index, rest, classes, matched) == ScanIds(patterns, index, [], rest[1..], classes, matched);
            state := ClassesState(rest[1..]);
          }
        case NoMatches =>
          return true, None;
      }
    }

    /** `Matches::next`: the next matching pattern id, if any; what remains
        to be yielded loses exactly that id. */
    method Next() returns (r: Option<nat>)
      requires Valid()
      modifies this
      ensures Valid()
      ensures r.Some? ==> old(Remaining()) == [r.value] + Remaining()
      ensures r.None? ==> old(Remaining()) == [] && Remaining() == []
    {
      while true
        invariant Valid()
        invariant Remaining() == old(Remaining())
        decreases Rank().0, Rank().1, Rank().2
      {
        var done;
        done, r := Step();
        if done {
          return;
        }
      }
    }

    /** Collecting the iterator: every id it still yields, in order. */
    method Collect() returns (out: seq<nat>)
      requires Valid()
      modifies this
      ensures out == old(Remaining())
    {
      out := [];
      var next := Next();
      while next.Some?
        invariant Valid()
        invariant next.Some? ==> old(Remaining()) == out + [next.value] + Remaining()
        invariant next.None? ==> old(Remaining()) == out
        decreases |Remaining()|, next.Some?
      {
        var before := out + [next.value];
        out := before;
        next := Next();
        assert next.Some? ==> old(Remaining()) == before + ([next.value] + Remaining());
      }
    }
  }

  /** `patterns_matching(..).collect()`: the ids the query matches. */
  method PatternsMatching(library: Library, id: Option<Name>, widget: Option<Name>, classes: Option<seq<Name>>)
    returns (out: seq<nat>)
    requires library.Valid()
    ensures out == Matching(library.patterns, library.index, id, widget, classes)
  {
    var matches := new Matches(library, id, widget, classes);
    out := matches.Collect();
  }

  /** The id filter keeps exactly the listed ids whose patterns pass. */
  lemma {:induction false} FilterIdMembers(patterns: seq<Selector>, ids: seq<nat>, widget: Option<Name>, classes: Option<seq<Name>>)
    ensures forall i: nat :: i in FilterId(patterns, ids, widget, classes) <==>
      (i in ids && i < |patterns| && IdPasses(patterns[i], widget, classes))
  {
    if ids != [] {
      FilterIdMembers(patterns, ids[1..], widget, classes);
      assert ids == [ids[0]] + ids[1..];
    }
  }

  /** The widget filter keeps exactly the listed ids whose patterns pass. */
  lemma {:induction false} FilterWidgetMembers(patterns: seq<Selector>, ids: seq<nat>, classes: Option<seq<Name>>)
    ensures forall i: nat :: i in FilterWidget(patterns, ids, classes) <==>
      (i in ids && i < |patterns| && WidgetPasses(patterns[i], classes))
  {
    if ids != [] {
      FilterWidgetMembers(patterns, ids[1..], classes);
      assert ids == [ids[0]] + ids[1..];
    }
  }

  /** Some remaining class lists the id in the index. */
  predicate ListedUnder(index: map<SelectorKey, seq<nat>>, rest: seq<Name>, i: nat)
  {
    exists k :: 0 <= k < |rest| && i in Lookup(index, ClassKey(rest[k]))
  }

  /** A class scan yields each passing id left in the current list or found
      under a remaining class once, never one already yielded. */
  lemma {:induction false} ScanIdsMembers(patterns: seq<Selector>, index: map<SelectorKey, seq<nat>>, ids: seq<nat>,
                                          rest: seq<Name>, classes: Option<seq<Name>>, matched: set<nat>)
    ensures Distinct(ScanIds(patterns, index, ids, rest, classes, matched))
    ensures forall i: nat :: i in ScanIds(patterns, index, ids, rest, classes, matched) <==>
      (i !in matched && i < |patterns| && ClassPasses(patterns[i], classes) && (i in ids || ListedUnder(index, rest, i)))
    decreases |rest|, 1, |ids|
  {
    if ids == [] {
      ScanClassesMembers(patterns, index, rest, classes, matched);
    } else {
      var first := ids[0];
      var passes := first < |patterns| && ClassPasses(patterns[first], classes) && first !in matched;
      var matched' := if passes then matched + {first} else matched;
      ScanIdsMembers(patterns, index, ids[1..], rest, classes, matched');
      assert ids == [first] + ids[1..];
    }
  }

  /** A class scan from the remaining classes on yields each passing id
      found under them once, never one already yielded. */
  lemma {:induction false} ScanClassesMembers(patterns: seq<Selector>, index: map<SelectorKey, seq<nat>>, rest: seq<Name>,
                                              classes: Option<seq<Name>>, matched: set<nat>)
    ensures Distinct(ScanClasses(patterns, index, rest, classes, matched))
    ensures forall i: nat :: i in ScanClasses(patterns, index, rest, classes, matched) <==>
      (i !in matched && i < |patterns| && ClassPasses(patterns[i], classes) && ListedUnder(index, rest, i))
    decreases |rest|, 0, 0
  {
    if rest != [] {
      ScanIdsMembers(patterns, index, Lookup(index, ClassKey(rest[0])), rest[1..], classes, matched);
      forall i: nat
        ensures ListedUnder(index, rest, i) <==> i in Lookup(index, ClassKey(rest[0])) || ListedUnder(index, rest[1..], i)
      {
        if ListedUnder(index, rest, i) {
          var k :| 0 <= k < |rest| && i in Lookup(index, ClassKey(rest[k]));
          if k > 0 {
            assert rest[1..][k - 1] == rest[k];
          }
        }
        if ListedUnder(index, rest[1..], i) {
          var k :| 0 <= k < |rest[1..]| && i in Lookup(index, ClassKey(rest[1..][k]));
          assert rest[k + 1] == rest[1..][k];
        }
      }
    }
  }

  /** A valid library lists a pattern under a key exactly when the pattern
      has that key. */
  lemma IndexMembers(library: Library, key: SelectorKey)
    requires library.Valid()
    ensures forall i: nat :: i in Lookup(library.index, key) <==> (i < |library.patterns| && HasKey(library.patterns[i], key))
  {
    assert Lookup(library.index, key) == Positions(library.patterns, key);
    PositionsMembers(library.patterns, key);
  }

  /** A query without id, widget or classes yields nothing. */
  lemma NoCriteriaNoMatches(patterns: seq<Selector>, index: map<SelectorKey, seq<nat>>)
    ensures Matching(patterns, index, None, None, None) == []
  {
  }

  /** An id query yields exactly the patterns with that id whose widget
      equals the query's widget (both absent, or the same name) and whose
      classes the query's classes contain. */
  lemma IdQueryMatches(library: Library, id: Name, widget: Option<Name>, classes: Option<seq<Name>>)
    requires library.Valid()
    ensures forall i: nat :: i in Matching(library.patterns, library.index, Some(id), widget, classes) <==>
      (i < |library.patterns| && library.patterns[i].id == Some(id) && library.patterns[i].widget == widget
       && ClassesPass(classes, library.patterns[i]))
  {
    IndexMembers(library, IdKey(id));
    FilterIdMembers(library.patterns, Lookup(library.index, IdKey(id)), widget, classes);
  }

  /** A widget query without an id yields exactly the patterns for that
      widget that have no id and whose classes the query's classes
      contain. */
  lemma WidgetQueryMatches(library: Library, widget: Name, classes: Option<seq<Name>>)
    requires library.Valid()
    ensures forall i: nat :: i in Matching(library.patterns, library.index, None, Some(widget), classes) <==>
      (i < |library.patterns| && library.patterns[i].widget == Some(widget) && library.patterns[i].id.None?
       && ClassesPass(classes, library.patterns[i]))
  {
    IndexMembers(library, WidgetKey(widget));
    FilterWidgetMembers(library.patterns, Lookup(library.index, WidgetKey(widget)), classes);
  }

  /** A classes-only query yields, once each, exactly the patterns with no
      id and no widget whose classes are among the query's and that share
      at least one class with it. */
  lemma ClassesQueryMatches(library: Library, classes: seq<Name>)
    requires library.Valid()
    ensures Distinct(Matching(library.patterns, library.index, None, None, Some(classes)))
    ensures forall i: nat :: i in Matching(library.patterns, library.index, None, None, Some(classes)) <==>
      (i < |library.patterns| && ClassPasses(library.patterns[i], Some(classes))
       && exists k :: 0 <= k < |classes| && classes[k] in library.patterns[i].classes)
  {
    ScanClassesMembers(library.patterns, library.index, classes, Some(classes), {});
    forall i: nat | i < |library.patterns|
      ensures ListedUnder(library.index, classes, i) <==> exists k :: 0 <= k < |classes| && classes[k] in library.patterns[i].classes
    {
      forall k | 0 <= k < |classes|
        ensures i in Lookup(library.index, ClassKey(classes[k])) <==> classes[k] in library.patterns[i].classes
      {
        IndexMembers(library, ClassKey(classes[k]));
      }
    }
  }

  /** `Color`: RGBA bytes, or hue (in radians), saturation, value and
      alpha. */
  datatype Color = Rgba(r: U8, g: U8, b: U8, a: U8) | Hsl(hue: real, saturation: real, value: real, alpha: real)

  /** `f32::round`: to the nearest integer, halves away from zero. */
  function Round(x: real): (n: int)
    ensures x - 0.5 <= n as real <= x + 0.5
  {
    if x >= 0.0 then (x + 0.5).Floor else -((-x + 0.5).Floor)
  }

  /** A float cast `as u8`: clamped to 0 and 255. */
  function SaturatingU8(n: int): (r: U8)
    ensures 0 <= n <= U8_MAX ==> r == n
    ensures n < 0 ==> r == 0
    ensures n > U8_MAX ==> r == U8_MAX
  {
    if n < 0 then 0 else if n > U8_MAX then U8_MAX else n
  }

  /** A colour channel between 0 and 1 as a byte. */
  function Channel(x: real): U8
  {
    SaturatingU8(Round(x * 255.0))
  }

  /** `Color::into_rgba`: the bytes of an RGBA colour as they are; an HSL
      colour is converted to sRGB (by the given conversion) and each
      channel scaled to 0..255, rounded and clamped. */
  function IntoRgba(c: Color, hslToRgb: (real, real, real) -> (real, real, real)): (r: (U8, U8, U8, U8))
    ensures c.Rgba? ==> r == (c.r, c.g, c.b, c.a)
    ensures c.Hsl? ==> r.3 == Channel(c.alpha)
  {
    match c
    case Rgba(r, g, b, a) => (r, g, b, a)
    case Hsl(hue, saturation, value, alpha) =>
      var rgb := hslToRgb(hue, saturation, value);
      (Channel(rgb.0), Channel(rgb.1), Channel(rgb.2), Channel(alpha))
  }

  /** Full channels are 255, empty ones 0, and a half rounds up to 128;
      a channel between 0 and 1 needs no clamping. */
  lemma ChannelScale()
    ensures Channel(1.0) == 255 && Channel(0.0) == 0 && Channel(0.5) == 128
    ensures forall x: real :: 0.0 <= x <= 1.0 ==> Channel(x) == Round(x * 255.0)
  {
    assert Round(127.5) == 128;
  }

  /** The patterns of the `pattern_matching` test: by id, by widget, by
      classes a and b, and by all three. */
  function TestPatterns(): seq<Selector>
  {
    [ Selector(Some("my_id"), None, []),
      Selector(None, Some("my_widget"), []),
      Selector(None, None, ["a", "b"]),
      Selector(Some("my_id"), Some("my_widget"), ["a", "b"]) ]
  }

  /** The library of the `pattern_matching` test, pattern by pattern. */
  method TestLibrary() returns (library: Library)
    ensures library.Valid() && library.patterns == TestPatterns()
  {
    library := new Library();
    var first := library.Push(Selector(Some("my_id"), None, []));
    var second := library.Push(Selector(None, Some("my_widget"), []));
    var third := library.Push(Selector(None, None, ["a", "b"]));
    var fourth := library.Push(Selector(Some("my_id"), Some("my_widget"), ["a", "b"]));
  }

  /** Appending a pattern appends its position under each of its keys. */
  lemma PositionsSnoc(patterns: seq<Selector>, s: Selector, key: SelectorKey)
    ensures Positions(patterns + [s], key) == Positions(patterns, key) + (if HasKey(s, key) then [|patterns|] else [])
  {
    assert (patterns + [s])[..|patterns|] == patterns;
  }

  /** Which of the test patterns each key lists. */
  lemma TestPositions(key: SelectorKey)
    ensures Positions(TestPatterns(), key) ==
      (if HasKey(TestPatterns()[0], key) then [0] else []) + (if HasKey(TestPatterns()[1], key) then [1] else [])
      + (if HasKey(TestPatterns()[2], key) then [2] else []) + (if HasKey(TestPatterns()[3], key) then [3] else [])
  {
    var p := TestPatterns();
    PositionsSnoc([], p[0], key);
    PositionsSnoc([p[0]], p[1], key);
    PositionsSnoc([p[0], p[1]], p[2], key);
    PositionsSnoc([p[0], p[1], p[2]], p[3], key);
    assert [p[0]] == [] + [p[0]];
    assert [p[0], p[1]] == [p[0]] + [p[1]];
    assert [p[0], p[1], p[2]] == [p[0], p[1]] + [p[2]];
    assert p == [p[0], p[1], p[2]] + [p[3]];
  }

  /** The index lists of the test patterns under the keys the test
      queries. */
  lemma TestLookups(index: map<SelectorKey, seq<nat>>)
    requires forall key :: Lookup(index, key) == Positions(TestPatterns(), key)
    ensures Lookup(index, IdKey("my_id")) == [0, 3]
    ensures Lookup(index, WidgetKey("my_widget")) == [1, 3]
    ensures Lookup(index, ClassKey("a")) == [2, 3] && Lookup(index, ClassKey("b")) == [2, 3]
    ensures Lookup(index, ClassKey("c")) == []
  {
    TestPositions(IdKey("my_id"));
    TestPositions(WidgetKey("my_widget"));
    TestPositions(ClassKey("a"));
    TestPositions(ClassKey("b"));
    TestPositions(ClassKey("c"));
  }

  /** The id and widget queries of the `pattern_matching` test each match
      only their single-criterion pattern. */
  lemma TestIdAndWidgetMatches(index: map<SelectorKey, seq<nat>>)
    requires Lookup(index, IdKey("my_id")) == [0, 3] && Lookup(index, WidgetKey("my_widget")) == [1, 3]
    ensures Matching(TestPatterns(), index, Some("my_id"), None, None) == [0]
    ensures Matching(TestPatterns(), index, None, Some("my_widget"), None) == [1]
  {
    var p := TestPatterns();
    assert FilterId(p, [0, 3], None, None) == [0];
    assert FilterWidget(p, [1, 3], None) == [1];
  }

  /** The classes queries of the `pattern_matching` test: a and b match the
      classes pattern once, so do a, b and c, and a alone matches
      nothing. */
  lemma TestClassesMatches(index: map<SelectorKey, seq<nat>>)
    requires Lookup(index, ClassKey("a")) == [2, 3] && Lookup(index, ClassKey("b")) == [2, 3]
    requires Lookup(index, ClassKey("c")) == []
    ensures Matching(TestPatterns(), index, None, None, Some(["a", "b"])) == [2]
    ensures Matching(TestPatterns(), index, None, None, Some(["a", "b", "c"])) == [2]
    ensures Matching(TestPatterns(), index, None, None, Some(["a"])) == []
  {
    var p := TestPatterns();
    var ab := Some(["a", "b"]);
    assert ClassPasses(p[2], ab) && !ClassPasses(p[3], ab);
    assert ScanIds(p, index, [2, 3], [], ab, {2}) == [];
    assert ScanIds(p, index, [2, 3], ["b"], ab, {}) == [2];
    var abc := Some(["a", "b", "c"]);
    assert ClassPasses(p[2], abc) && !ClassPasses(p[3], abc);
    assert ScanIds(p, index, [2, 3], ["c"], abc, {2}) == [];
    assert ScanIds(p, index, [2, 3], ["b", "c"], abc, {}) == [2];
    var a := Some(["a"]);
    assert "b" !in ["a"];
    assert !ClassPasses(p[2], a) && !ClassPasses(p[3], a);
    assert ScanIds(p, index, [2, 3], [], a, {}) == [];
  }

  /** The `pattern_matching` test: the library built by pushing the four
      patterns answers the id, the widget and the classes a and b with one
      match each, a, b and c with the classes pattern, and a alone with
      none. */
  method PatternMatchingTest() returns (byId: seq<nat>, byWidget: seq<nat>, byClasses: seq<nat>, bySuperset: seq<nat>,
                                        byA: seq<nat>)
    ensures byId == [0] && byWidget == [1] && byClasses == [2] && bySuperset == [2] && byA == []
  {
    var library := TestLibrary();
    TestLookups(library.index);
    TestIdAndWidgetMatches(library.index);
    TestClassesMatches(library.index);
    byId := PatternsMatching(library, Some("my_id"), None, None);
    byWidget := PatternsMatching(library, None, Some("my_widget"), None);
    byClasses := PatternsMatching(library, None, None, Some(["a", "b"]));
    bySuperset := PatternsMatching(library, None, None, Some(["a", "b", "c"]));
    byA := PatternsMatching(library, None, None, Some(["a"]));
  }
}
