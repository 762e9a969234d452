/** The style sheet of the gooey core (core/src/styles/style_sheet.rs):
    rules indexed by widget type, the merge of two sheets, rule matching on
    classes and element state, class sets, and the effective style of a
    widget. Widget types are numbered; a style is its optional class set
    and its other components by kind. */
module GooeyStyleSheet {
  import opened Common

  /** A style component other than `Classes`: its value and whether it is
      inherited. */
  datatype Component = Component(value: int, inherited: bool)

  /** A style: its `Classes` component, if any, and its other components by
      kind. */
  datatype Style = Style(classes: Option<set<string>>, components: map<nat, Component>)

  /** The element state a rule can test. */
  datatype State = State(hovered: bool, focused: bool, active: bool)

  /** A character allowed in a class name. */
  predicate ClassChar(c: char)
  {
    'a' <= c <= 'z' || 'A' <= c <= 'Z' || '0' <= c <= '9' || c == '_' || c == '-'
  }

  /** A class name made only of allowed characters. */
  predicate ValidClassName(name: string)
  {
    forall i :: 0 <= i < |name| ==> ClassChar(name[i])
  }

  /** `Classes::new`: every character of every name is checked; the first
      illegal one panics (`None` here), otherwise the set is kept. */
  method NewClasses(names: set<string>) returns (r: Option<set<string>>)
    ensures r.Some? <==> forall n :: n in names ==> ValidClassName(n)
    ensures r.Some? ==> r.value == names
  {
    var unchecked := names;
    while unchecked != {}
      invariant unchecked <= names
      invariant forall n :: n in names - unchecked ==> ValidClassName(n)
      decreases unchecked
    {
      var name :| name in unchecked;
      var i := 0;
      while i < |name|
        invariant 0 <= i <= |name|
        invariant forall j :: 0 <= j < i ==> ClassChar(name[j])
      {
        if !ClassChar(name[i]) {
          return None;
        }
        i := i + 1;
      }
      unchecked := unchecked - {name};
    }
    return Some(names);
  }

  /** `Classes::merge`: the union of both sets. */
  function MergeClasses(a: set<string>, b: set<string>): (r: set<string>)
    ensures a <= r && b <= r
    ensures forall n :: n in r ==> n in a || n in b
  {
    a + b
  }

  /** The `classes_merge_test`: merging a set with a reordering of itself
      gives it back, and {a, c, d, e} with {b, d, f} gives a to f. */
  method ClassesMergeTest() returns (same: set<string>, union: set<string>)
    ensures same == {"a", "b", "c"}
    ensures union == {"a", "b", "c", "d", "e", "f"}
  {
    same := MergeClasses({"a", "b", "c"}, {"c", "b", "a"});
    union := MergeClasses({"a", "c", "d", "e"}, {"b", "d", "f"});
  }

  /** `Style::merge_with`: the other style's components (only the
      inherited ones when inheriting; `Classes` never is), with this
      style's own components preferred and class sets merged. */
  function MergeStyles(s: Style, other: Style, isInheritance: bool): (r: Style)
    ensures forall k :: k in s.components ==> k in r.components && r.components[k] == s.components[k]
    ensures forall k :: k in r.components ==> k in s.components || (k in other.components && (!isInheritance || other.components[k].inherited))
    ensures forall k :: k in other.components && k !in s.components && (!isInheritance || other.components[k].inherited) ==>
      k in r.components && r.components[k] == other.components[k]
    ensures s.classes.Some? ==> r.classes.Some? && s.classes.value <= r.classes.value
    ensures isInheritance ==> r.classes == s.classes
    ensures !isInheritance && other.classes.Some? ==> r.classes.Some? && other.classes.value <= r.classes.value
  {
    var taken := if isInheritance then None else other.classes;
    var classes :=
      match (s.classes, taken)
      case (Some(a), Some(b)) => Some(MergeClasses(a, b))
      case (Some(a), None) => Some(a)
      case (None, _) => taken;
    var components := map k | k in s.components.Keys + other.components.Keys
                                && (k in s.components || !isInheritance || other.components[k].inherited)
                            :: if k in s.components then s.components[k] else other.components[k];
    Style(classes, components)
  }

  /** The `style_merge_test`: classes "a" merged with "b" give both, and
      give only "a" when inheriting. */
  method StyleMergeTest() returns (merged: Style, inherited: Style)
    ensures merged.classes == Some({"a", "b"})
    ensures inherited.classes == Some({"a"})
  {
    var original := Style(Some({"a"}), map[]);
    var bStyle := Style(Some({"b"}), map[]);
    merged := MergeStyles(original, bStyle, false);
    assert merged.classes == Some(MergeClasses({"a"}, {"b"}));
    assert MergeClasses({"a"}, {"b"}) == {"a", "b"};
    inherited := MergeStyles(original, bStyle, true);
  }

  /** `Rule`: the widget type it is for (`None` for any), the classes it
      requires, the state conditions, and the style it applies. */
  datatype Rule = Rule(widgetTypeId: Option<nat>, classes: Option<set<string>>, hovered: Option<bool>,
                       focused: Option<bool>, active: Option<bool>, style: Style)

  /** `check_one_state`: `None` without a condition, otherwise whether the
      state matches it. */
  function CheckOneState(condition: Option<bool>, state: bool): (r: Option<bool>)
    ensures r.None? <==> condition.None?
    ensures r.Some? ==> (r.value <==> condition.value == state)
  {
    match condition
    case None => None
    case Some(c) => Some(c == state)
  }

  /** `Rule::classes_apply`. */
  function ClassesApply(rule: Rule, classes: Option<set<string>>): (r: bool)
  {
    match rule.classes
    case None => true
    case Some(required) => classes.Some? && required <= classes.value
  }

  /** `Rule::applies`: the classes apply and the first state condition
      given, in the order hovered, focused, active, holds; with no
      condition the state does not matter. */
  function Applies(rule: Rule, state: State, classes: Option<set<string>>): (r: bool)
  {
    ClassesApply(rule, classes)
      && match CheckOneState(rule.hovered, state.hovered)
         case Some(b) => b
         case None =>
           match CheckOneState(rule.focused, state.focused)
           case Some(b) => b
           case None =>
             match CheckOneState(rule.active, state.active)
             case Some(b) => b
             case None => true
  }

  /** A rule without classes always passes the class test; a rule with
      classes needs a class set holding all of them. */
  lemma ClassesApplyIsSubset(rule: Rule, classes: Option<set<string>>)
    ensures ClassesApply(rule, classes) <==>
      rule.classes.None? || (classes.Some? && forall n :: n in rule.classes.value ==> n in classes.value)
  {
  }

  /** Only the first state condition given decides: once `hovered` is
      given, `focused` and `active` are never looked at, and once
      `focused` is given (without `hovered`), `active` is not. */
  lemma FirstConditionDecides(rule: Rule, state: State, classes: Option<set<string>>, f: Option<bool>, a: Option<bool>)
    ensures rule.hovered.Some? ==>
      (Applies(rule, state, classes) <==> ClassesApply(rule, classes) && rule.hovered.value == state.hovered)
      && Applies(rule.(focused := f, active := a), state, classes) == Applies(rule, state, classes)
    ensures rule.hovered.None? && rule.focused.Some? ==>
      (Applies(rule, state, classes) <==> ClassesApply(rule, classes) && rule.focused.value == state.focused)
      && Applies(rule.(active := a), state, classes) == Applies(rule, state, classes)
    ensures rule.hovered.None? && rule.focused.None? ==>
      (Applies(rule, state, classes) <==>
        ClassesApply(rule, classes) && (rule.active.None? || rule.active.value == state.active))
  {
  }

  /** A rule with both a hovered and a focused condition applies to a
      hovered element that is not focused. */
  lemma HoveredRuleIgnoresFocus(style: Style)
    ensures Applies(Rule(None, None, Some(true), Some(true), None, style), State(true, false, false), None)
  {
  }

  /** The positions, in order, of the rules for a widget type. */
  function IndicesOf(rules: seq<Rule>, key: Option<nat>): seq<nat>
  {
    if rules == [] then []
    else IndicesOf(rules[..|rules| - 1], key) + (if rules[|rules| - 1].widgetTypeId == key then [|rules| - 1] else [])
  }

  /** The index list under a key, empty when the key is absent. */
  function Lookup(byWidget: map<Option<nat>, seq<nat>>, key: Option<nat>): seq<nat>
  {
    if key in byWidget then byWidget[key] else []
  }

  /** The positions of a list shifted by an offset. */
  function Shift(indices: seq<nat>, offset: nat): (r: seq<nat>)
    ensures |r| == |indices| && forall i :: 0 <= i < |indices| ==> r[i] == indices[i] + offset
  {
    if indices == [] then [] else Shift(indices[..|indices| - 1], offset) + [indices[|indices| - 1] + offset]
  }

  /** A position is listed for a widget type exactly when the rule there
      is for it, and the list is strictly increasing. */
  lemma {:induction false} IndicesOfMembers(rules: seq<Rule>, key: Option<nat>)
    ensures forall i: nat :: i in IndicesOf(rules, key) <==> i < |rules| && rules[i].widgetTypeId == key
    ensures Increasing(IndicesOf(rules, key))
  {
    if rules != [] {
      var init := rules[..|rules| - 1];
      IndicesOfMembers(init, key);
      var prev := IndicesOf(init, key);
      forall j | 0 <= j < |prev|
        ensures prev[j] < |init|
      {
        assert prev[j] in prev;
      }
      forall i | 0 <= i < |init|
        ensures rules[i] == init[i]
      {
      }
    }
  }

  /** Strictly increasing positions. */
  predicate Increasing(s: seq<nat>)
  {
    forall i, j :: 0 <= i < j < |s| ==> s[i] < s[j]
  }

  /** The positions of appended rules follow those of the first rules,
      shifted by their number. */
  lemma {:induction false} IndicesOfAppend(a: seq<Rule>, b: seq<Rule>, key: Option<nat>)
    ensures IndicesOf(a + b, key) == IndicesOf(a, key) + Shift(IndicesOf(b, key), |a|)
    decreases |b|
  {
    if b == [] {
      assert a + b == a;
    } else {
      var init := b[..|b| - 1];
      var last := b[|b| - 1];
      var ab := a + b;
      assert ab[..|ab| - 1] == a + init;
      assert ab[|ab| - 1] == last;
      var tail := if last.widgetTypeId == key then [|b| - 1] else [];
      var shiftedTail := if last.widgetTypeId == key then [|ab| - 1] else [];
      assert IndicesOf(ab, key) == IndicesOf(a + init, key) + shiftedTail;
      IndicesOfAppend(a, init, key);
      assert IndicesOf(b, key) == IndicesOf(init, key) + tail;
      ShiftAppend(IndicesOf(init, key), tail, |a|);
      assert Shift(tail, |a|) == shiftedTail;
      AppendAssoc(IndicesOf(a, key), Shift(IndicesOf(init, key), |a|), shiftedTail);
    }
  }

  /** Shifting distributes over concatenation. */
  lemma ShiftAppend(x: seq<nat>, y: seq<nat>, offset: nat)
    ensures Shift(x + y, offset) == Shift(x, offset) + Shift(y, offset)
  {
    var l := Shift(x + y, offset);
    var r := Shift(x, offset) + Shift(y, offset);
    assert |l| == |r|;
    forall i | 0 <= i < |l|
      ensures l[i] == r[i]
    {
      if i < |x| {
        assert (x + y)[i] == x[i];
      } else {
        assert (x + y)[i] == y[i - |x|];
      }
    }
  }

  /** `StyleSheet`: the rules, later ones with higher priority, and the
      rule positions by widget type. */
  class StyleSheet {
    var rules: seq<Rule>
    var rulesByWidget: map<Option<nat>, seq<nat>>

    /** The index lists the positions of each widget type's rules, in
        order. */
    ghost predicate Valid()
      reads this
    {
      forall key :: Lookup(rulesByWidget, key) == IndicesOf(rules, key)
    }

    /** `StyleSheet::default`: no rules. */
    constructor()
      ensures Valid() && rules == [] && rulesByWidget == map[]
    {
      rules := [];
      rulesByWidget := map[];
    }

    /** `push`: the rule goes last and its position is appended to its
        widget type's list; no other list changes. */
    method Push(rule: Rule)
      requires Valid()
      modifies this
      ensures Valid()
      ensures rules == old(rules) + [rule]
      ensures Lookup(rulesByWidget, rule.widgetTypeId) == Lookup(old(rulesByWidget), rule.widgetTypeId) + [|old(rules)|]
      ensures forall key :: key != rule.widgetTypeId ==> Lookup(rulesByWidget, key) == Lookup(old(rulesByWidget), key)
    {
      var index := |rules|;
      var listed := Lookup(rulesByWidget, rule.widgetTypeId);
      rulesByWidget := rulesByWidget[rule.widgetTypeId := listed + [index]];
      var before := rules;
      rules := rules + [rule];
      assert rules[..|rules| - 1] == before;
      forall key
        ensures Lookup(rulesByWidget, key) == IndicesOf(rules, key)
      {
        assert Lookup(old(rulesByWidget), key) == IndicesOf(before, key);
      }
    }

    /** `merge_with`: a new sheet holding the other sheet's rules first and
        this sheet's after them, so this sheet's rules take priority; each
        widget type lists the other sheet's positions, then this sheet's
        shifted past the other's rules. */
    method MergeWith(other: StyleSheet) returns (combined: StyleSheet)
      requires Valid() && other.Valid()
      ensures fresh(combined) && combined.Valid()
      ensures combined.rules == other.rules + rules
      ensures forall key ::
        Lookup(combined.rulesByWidget, key) == Lookup(other.rulesByWidget, key) + Shift(Lookup(rulesByWidget, key), |other.rules|)
    {
      var byWidget := ShiftedUnion(other.rulesByWidget, rulesByWidget, |other.rules|);
      combined := new StyleSheet();
      combined.rules := other.rules + rules;
      combined.rulesByWidget := byWidget;
      forall key
        ensures Lookup(combined.rulesByWidget, key) == IndicesOf(combined.rules, key)
      {
        IndicesOfAppend(other.rules, rules, key);
        assert Lookup(other.rulesByWidget, key) == IndicesOf(other.rules, key);
        assert Lookup(rulesByWidget, key) == IndicesOf(rules, key);
      }
    }

    /** `effective_style_for`: the rules for the widget type and for any
        widget, de-duplicated and visited from the highest position down;
        each that applies, judged on the classes of the style so far, is
        merged under the style. */
    method EffectiveStyleFor(widgetType: nat, style: Style, state: State) returns (r: Style)
      requires Valid()
      ensures r == ApplyRules(rules, Reversed(SortedDistinct(Lookup(rulesByWidget, Some(widgetType)) + Lookup(rulesByWidget, None))), style, state)
    {
      var candidates := SortedDistinct(Lookup(rulesByWidget, Some(widgetType)) + Lookup(rulesByWidget, None));
      CandidatesAreRules(this, widgetType);
      forall j | 0 <= j < |candidates|
        ensures candidates[j] < |rules|
      {
        assert candidates[j] in candidates;
      }
      r := ApplyFromLast(rules, candidates, style, state);
    }
  }

  /** The loop of `effective_style_for`: the candidates visited from the
      last down, each applying rule merged under the style so far. */
  method ApplyFromLast(rules: seq<Rule>, candidates: seq<nat>, style: Style, state: State) returns (r: Style)
    requires forall j :: 0 <= j < |candidates| ==> candidates[j] < |rules|
    ensures r == ApplyRules(rules, Reversed(candidates), style, state)
  {
    r := style;
    var i := |candidates|;
    assert candidates[..i] == candidates;
    while i > 0
      invariant 0 <= i <= |candidates|
      invariant ApplyRules(rules, Reversed(candidates[..i]), r, state) == ApplyRules(rules, Reversed(candidates), style, state)
    {
      var rule := rules[candidates[i - 1]];
      assert candidates[..i - 1] + [candidates[i - 1]] == candidates[..i];
      ReversedSnoc(candidates[..i - 1], candidates[i - 1]);
      assert ([candidates[i - 1]] + Reversed(candidates[..i - 1]))[1..] == Reversed(candidates[..i - 1]);
      if Applies(rule, state, r.classes) {
        r := MergeStyles(r, rule.style, false);
      }
      i := i - 1;
    }
  }

  /** The loop of `merge_with` over this sheet's index: each list is
      shifted by the offset and appended to the base's list for the same
      widget type. */
  method ShiftedUnion(base: map<Option<nat>, seq<nat>>, added: map<Option<nat>, seq<nat>>, offset: nat)
    returns (byWidget: map<Option<nat>, seq<nat>>)
    ensures forall key :: Lookup(byWidget, key) == Lookup(base, key) + Shift(Lookup(added, key), offset)
  {
    byWidget := base;
    var pending := added.Keys;
    while pending != {}
      invariant pending <= added.Keys
      invariant forall key ::
        Lookup(byWidget, key) == Lookup(base, key) + (if key in added && key !in pending then Shift(added[key], offset) else [])
      decreases pending
    {
      var key :| key in pending;
      byWidget := byWidget[key := Lookup(byWidget, key) + Shift(added[key], offset)];
      pending := pending - {key};
    }
    forall key
      ensures Lookup(byWidget, key) == Lookup(base, key) + Shift(Lookup(added, key), offset)
    {
      if key !in added {
        assert Shift([], offset) == [];
      }
    }
  }

  /** A sequence reversed. */
  function Reversed(s: seq<nat>): (r: seq<nat>)
    ensures |r| == |s| && forall i :: 0 <= i < |s| ==> r[i] == s[|s| - 1 - i]
  {
    if s == [] then [] else [s[|s| - 1]] + Reversed(s[..|s| - 1])
  }

  /** Reversing after appending puts the new element first. */
  lemma ReversedSnoc(s: seq<nat>, x: nat)
    ensures Reversed(s + [x]) == [x] + Reversed(s)
  {
    assert (s + [x])[..|s|] == s;
  }

  /** The rules at the given positions applied in turn: each that applies
      to the style so far is merged under it. */
  function ApplyRules(rules: seq<Rule>, order: seq<nat>, style: Style, state: State): Style
  {
    if order == [] then style
    else if order[0] < |rules| && Applies(rules[order[0]], state, style.classes) then
      ApplyRules(rules, order[1..], MergeStyles(style, rules[order[0]].style, false), state)
    else ApplyRules(rules, order[1..], style, state)
  }

  /** Applying rules keeps every component the style already had, never
      drops a class, and adds only components of the visited rules. */
  lemma {:induction false} ApplyRulesPrefersStyle(rules: seq<Rule>, order: seq<nat>, style: Style, state: State)
    ensures var r := ApplyRules(rules, order, style, state);
      && (forall k :: k in style.components ==> k in r.components && r.components[k] == style.components[k])
      && (style.classes.Some? ==> r.classes.Some? && style.classes.value <= r.classes.value)
      && (forall k :: k in r.components ==>
            (k in style.components || exists j :: 0 <= j < |order| && order[j] < |rules| && k in rules[order[j]].style.components))
  {
    if order != [] {
      var next := if order[0] < |rules| && Applies(rules[order[0]], state, style.classes)
        then MergeStyles(style, rules[order[0]].style, false) else style;
      ApplyRulesPrefersStyle(rules, order[1..], next, state);
      var r := ApplyRules(rules, order, style, state);
      forall k | k in r.components && k !in style.components
        ensures exists j :: 0 <= j < |order| && order[j] < |rules| && k in rules[order[j]].style.components
      {
        if k in next.components {
          assert order[0] < |rules| && k in rules[order[0]].style.components;
        } else {
          var j :| 0 <= j < |order[1..]| && order[1..][j] < |rules| && k in rules[order[1..][j]].style.components;
          assert order[j + 1] == order[1..][j];
        }
      }
    }
  }

  /** The first visited rule that applies provides every component it has
      that the style lacks: a higher position wins. */
  lemma FirstApplyingRuleWins(rules: seq<Rule>, order: seq<nat>, style: Style, state: State, k: nat)
    requires order != [] && order[0] < |rules| && Applies(rules[order[0]], state, style.classes)
    requires k !in style.components && k in rules[order[0]].style.components
    ensures var r := ApplyRules(rules, order, style, state);
      k in r.components && r.components[k] == rules[order[0]].style.components[k]
  {
    ApplyRulesPrefersStyle(rules, order[1..], MergeStyles(style, rules[order[0]].style, false), state);
  }

  /** `x` placed into a strictly increasing sequence, unless present. */
  function InsertSorted(s: seq<nat>, x: nat): seq<nat>
  {
    if s == [] then [x]
    else if x < s[0] then [x] + s
    else if x == s[0] then s
    else [s[0]] + InsertSorted(s[1..], x)
  }

  /** Placing a value keeps a sequence strictly increasing and adds just
      that value. */
  lemma {:induction false} InsertSortedSpec(s: seq<nat>, x: nat)
    requires Increasing(s)
    ensures Increasing(InsertSorted(s, x))
    ensures forall y :: y in InsertSorted(s, x) <==> y in s || y == x
    ensures |InsertSorted(s, x)| > 0 && InsertSorted(s, x)[0] == (if s == [] || x < s[0] then x else s[0])
  {
    if s != [] && x > s[0] {
      InsertSortedSpec(s[1..], x);
      var t := InsertSorted(s[1..], x);
      forall i, j | 0 <= i < j < |[s[0]] + t|
        ensures ([s[0]] + t)[i] < ([s[0]] + t)[j]
      {
        if i == 0 {
          assert ([s[0]] + t)[j] in t;
          assert s[0] < x && forall y :: y in s[1..] ==> s[0] < y by {
            forall y | y in s[1..]
              ensures s[0] < y
            {
              var k :| 0 <= k < |s[1..]| && s[1..][k] == y;
              assert s[k + 1] == y;
            }
          }
        } else {
          assert ([s[0]] + t)[i] == t[i - 1] && ([s[0]] + t)[j] == t[j - 1];
        }
      }
      assert s == [s[0]] + s[1..];
    }
  }

  /** `sort_unstable` then `dedup`: the values in increasing order, once
      each. */
  function SortedDistinct(s: seq<nat>): seq<nat>
  {
    if s == [] then [] else InsertSorted(SortedDistinct(s[..|s| - 1]), s[|s| - 1])
  }

  /** Sorting and de-duplicating gives a strictly increasing sequence of
      exactly the input's values. */
  lemma {:induction false} SortedDistinctSpec(s: seq<nat>)
    ensures Increasing(SortedDistinct(s))
    ensures forall y :: y in SortedDistinct(s) <==> y in s
  {
    if s != [] {
      var init := s[..|s| - 1];
      SortedDistinctSpec(init);
      InsertSortedSpec(SortedDistinct(init), s[|s| - 1]);
      assert s == init + [s[|s| - 1]];
    }
  }

  /** The candidates of `effective_style_for` are, in increasing order and
      once each, the positions of the rules for the widget type or for any
      widget. */
  lemma CandidatesAreRules(sheet: StyleSheet, widgetType: nat)
    requires sheet.Valid()
    ensures var c := SortedDistinct(Lookup(sheet.rulesByWidget, Some(widgetType)) + Lookup(sheet.rulesByWidget, None));
      && Increasing(c)
      && forall i: nat :: i in c <==> i < |sheet.rules| && (sheet.rules[i].widgetTypeId == Some(widgetType) || sheet.rules[i].widgetTypeId == None)
  {
    var a := Lookup(sheet.rulesByWidget, Some(widgetType));
    var b := Lookup(sheet.rulesByWidget, None);
    assert a == IndicesOf(sheet.rules, Some(widgetType));
    assert b == IndicesOf(sheet.rules, None);
    IndicesOfMembers(sheet.rules, Some(widgetType));
    IndicesOfMembers(sheet.rules, None);
    SortedDistinctSpec(a + b);
  }
}
