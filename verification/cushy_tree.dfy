/** The mounted widget tree of `src/tree.rs`: nodes keyed by widget id, each
    with its ordered children, its parent, its last layout and its attached
    styles, plus the active, focused and hovered widgets and the order in
    which widgets were laid out. Widget instances, the lock and the `Arc`
    around the data are not modelled; a widget is its id. */
module CushyTree {
  import opened Common

  type WidgetId = nat

  datatype Point = Point(x: int, y: int)

  datatype Rect = Rect(origin: Point, size: Point)

  /** A style component: the type it converts to, and its value. */
  datatype Component = Component(kind: nat, value: int)

  datatype Node = Node(
    children: seq<WidgetId>,
    parent: Option<WidgetId>,
    layout: Option<Rect>,
    styles: Option<map<string, Component>>)

  // ----- the shape of the tree ---------------------------------------------

  /** The parent of a node exists and ranks below it; `level` is a ghost
      ranking that rules out cycles of parents. */
  ghost predicate RankedAt(nodes: map<WidgetId, Node>, level: map<WidgetId, nat>, n: WidgetId)
    requires n in nodes
  {
    && n in level
    && match nodes[n].parent
       case None => true
       case Some(p) => p in nodes && p in level && level[p] < level[n]
  }

  ghost predicate Ranked(nodes: map<WidgetId, Node>, level: map<WidgetId, nat>)
  {
    forall n {:trigger RankedAt(nodes, level, n)} | n in nodes :: RankedAt(nodes, level, n)
  }

  /** A node's parent lists it, each of its children names it as their
      parent, and it lists each child once. */
  ghost predicate LinkedAt(nodes: map<WidgetId, Node>, n: WidgetId)
    requires n in nodes
  {
    && (nodes[n].parent.Some? ==> nodes[n].parent.value in nodes && n in nodes[nodes[n].parent.value].children)
    && (forall c | c in nodes[n].children :: c in nodes && nodes[c].parent == Some(n))
    && Distinct(nodes[n].children)
  }

  ghost predicate Linked(nodes: map<WidgetId, Node>)
  {
    forall n {:trigger LinkedAt(nodes, n)} | n in nodes :: LinkedAt(nodes, n)
  }

  /** `a` is `d` or one of its ancestors. */
  ghost predicate IsAncestorOrSelf(nodes: map<WidgetId, Node>, level: map<WidgetId, nat>, a: WidgetId, d: WidgetId)
    requires Ranked(nodes, level)
    decreases if d in nodes && d in level then level[d] else 0
  {
    a == d || (d in nodes && nodes[d].parent.Some? &&
      (assert RankedAt(nodes, level, d); IsAncestorOrSelf(nodes, level, a, nodes[d].parent.value)))
  }

  /** The path from the root down to `w`, root first: what
      `widget_hierarchy` returns. A missing widget has no path. */
  ghost function Hierarchy(nodes: map<WidgetId, Node>, level: map<WidgetId, nat>, w: WidgetId): (h: seq<WidgetId>)
    requires Ranked(nodes, level)
    ensures w in nodes ==> h != [] && h[|h| - 1] == w
    ensures w !in nodes ==> h == []
    decreases if w in nodes && w in level then level[w] else 0
  {
    if w !in nodes then []
    else
      assert RankedAt(nodes, level, w);
      match nodes[w].parent
      case None => [w]
      case Some(p) => Hierarchy(nodes, level, p) + [w]
  }

  /** The path starts at a root, and each node on it is the parent of the
      next one. */
  lemma {:induction false} HierarchyIsPath(nodes: map<WidgetId, Node>, level: map<WidgetId, nat>, w: WidgetId)
    requires Ranked(nodes, level) && w in nodes
    ensures var h := Hierarchy(nodes, level, w);
      && h[0] in nodes && nodes[h[0]].parent.None?
      && forall i | 0 < i < |h| :: h[i] in nodes && nodes[h[i]].parent == Some(h[i - 1])
    decreases if w in level then level[w] else 0
  {
    assert RankedAt(nodes, level, w);
    if nodes[w].parent.Some? {
      var p := nodes[w].parent.value;
      HierarchyIsPath(nodes, level, p);
      var hp := Hierarchy(nodes, level, p);
      var h := hp + [w];
      assert Hierarchy(nodes, level, w) == h;
      forall i | 0 < i < |h|
        ensures h[i] in nodes && nodes[h[i]].parent == Some(h[i - 1])
      {
        if i < |hp| {
          assert h[i] == hp[i] && h[i - 1] == hp[i - 1];
        }
      }
    }
  }

  /** The widgets on the path to `d` are exactly its ancestors and itself. */
  lemma {:induction false} HierarchyMembers(nodes: map<WidgetId, Node>, level: map<WidgetId, nat>, a: WidgetId, d: WidgetId)
    requires Ranked(nodes, level) && d in nodes
    ensures a in Hierarchy(nodes, level, d) <==> IsAncestorOrSelf(nodes, level, a, d)
    decreases if d in level then level[d] else 0
  {
    assert RankedAt(nodes, level, d);
    if nodes[d].parent.Some? {
      HierarchyMembers(nodes, level, a, nodes[d].parent.value);
    }
  }

  /** The path to a widget on the path to `w` is the start of the path to
      `w`. */
  lemma {:induction false} HierarchyPrefix(nodes: map<WidgetId, Node>, level: map<WidgetId, nat>, w: WidgetId, i: nat)
    requires Ranked(nodes, level) && i < |Hierarchy(nodes, level, w)|
    ensures Hierarchy(nodes, level, w)[..i + 1] == Hierarchy(nodes, level, Hierarchy(nodes, level, w)[i])
    decreases if w in nodes && w in level then level[w] else 0
  {
    var h := Hierarchy(nodes, level, w);
    assert RankedAt(nodes, level, w);
    if i == |h| - 1 {
      assert h[..i + 1] == h;
    } else {
      var p := nodes[w].parent.value;
      var hp := Hierarchy(nodes, level, p);
      assert h == hp + [w];
      assert h[..i + 1] == hp[..i + 1] && h[i] == hp[i];
      HierarchyPrefix(nodes, level, p, i);
    }
  }

  /** A widget lies at the same position on every path through it. */
  lemma HierarchyPosition(nodes: map<WidgetId, Node>, level: map<WidgetId, nat>, v: WidgetId, w: WidgetId, i: nat, j: nat)
    requires Ranked(nodes, level)
    requires i < |Hierarchy(nodes, level, v)| && j < |Hierarchy(nodes, level, w)|
    requires Hierarchy(nodes, level, v)[i] == Hierarchy(nodes, level, w)[j]
    ensures i == j && Hierarchy(nodes, level, v)[..i + 1] == Hierarchy(nodes, level, w)[..j + 1]
  {
    HierarchyPrefix(nodes, level, v, i);
    HierarchyPrefix(nodes, level, w, j);
  }

  // ----- hovering ----------------------------------------------------------

  /** Length of the common prefix of two sequences. */
  function CommonPrefix(a: seq<WidgetId>, b: seq<WidgetId>): (k: nat)
    ensures k <= |a| && k <= |b| && a[..k] == b[..k]
    ensures k < |a| && k < |b| ==> a[k] != b[k]
  {
    if a == [] || b == [] || a[0] != b[0] then 0
    else
      var k := CommonPrefix(a[1..], b[1..]) + 1;
      assert a[..k] == [a[0]] + a[1..][..k - 1];
      assert b[..k] == [b[0]] + b[1..][..k - 1];
      k
  }

  /** Leaving one widget for another, the widgets no longer hovered are the
      old path minus what it shares with the new one, and none of them lies
      on the new path. */
  lemma UnhoveredLeavesPath(nodes: map<WidgetId, Node>, level: map<WidgetId, nat>, before: WidgetId, after: WidgetId)
    requires Ranked(nodes, level)
    ensures var o := Hierarchy(nodes, level, before);
      var n := Hierarchy(nodes, level, after);
      forall x | x in o[CommonPrefix(o, n)..] :: x !in n
  {
    var o := Hierarchy(nodes, level, before);
    var n := Hierarchy(nodes, level, after);
    var k := CommonPrefix(o, n);
    forall i, j | k <= i < |o| && 0 <= j < |n|
      ensures o[i] != n[j]
    {
      if o[i] == n[j] {
        HierarchyPosition(nodes, level, before, after, i, j);
        PrefixAgree(o, n, i + 1, k);
      }
    }
    forall x | x in o[k..]
      ensures x !in n
    {
      var i :| k <= i < |o| && o[i] == x;
    }
  }

  lemma PrefixAgree(a: seq<WidgetId>, b: seq<WidgetId>, m: nat, k: nat)
    requires m <= |a| && m <= |b| && a[..m] == b[..m] && k < m
    ensures a[k] == b[k]
  {
    assert a[..m][k] == b[..m][k];
  }

  // ----- styles ------------------------------------------------------------

  /** The value `query_style` finds from `p` upwards: the component of the
      nearest node whose styles hold `name`, when it converts to `kind`;
      the default when none holds it or the nearest one does not convert. */
  ghost function StyleFrom(nodes: map<WidgetId, Node>, level: map<WidgetId, nat>, p: WidgetId, name: string, kind: nat, default: int): int
    requires Ranked(nodes, level) && p in nodes
    decreases if p in level then level[p] else 0
  {
    assert RankedAt(nodes, level, p);
    var node := nodes[p];
    if node.styles.Some? && name in node.styles.value then
      var c := node.styles.value[name];
      if c.kind == kind then c.value else default
    else if node.parent.Some? then StyleFrom(nodes, level, node.parent.value, name, kind, default)
    else default
  }

  /** Whether the styles of `n` hold `name`. */
  ghost predicate Holds(nodes: map<WidgetId, Node>, n: WidgetId, name: string)
  {
    n in nodes && nodes[n].styles.Some? && name in nodes[n].styles.value
  }

  /** The last widget of a path whose styles hold `name`. */
  ghost function NearestHolder(nodes: map<WidgetId, Node>, path: seq<WidgetId>, name: string): (r: Option<WidgetId>)
    ensures r.Some? ==> r.value in path && Holds(nodes, r.value, name)
    ensures r.None? ==> forall x | x in path :: !Holds(nodes, x, name)
  {
    if path == [] then None
    else if Holds(nodes, path[|path| - 1], name) then Some(path[|path| - 1])
    else NearestHolder(nodes, path[..|path| - 1], name)
  }

  /** `query_style` reads the nearest widget on the path from the root to
      `p` whose styles hold the component: its value when it converts, the
      default otherwise or when no widget holds it. */
  lemma {:induction false} StyleFromNearest(nodes: map<WidgetId, Node>, level: map<WidgetId, nat>, p: WidgetId, name: string, kind: nat, default: int)
    requires Ranked(nodes, level) && p in nodes
    ensures var h := NearestHolder(nodes, Hierarchy(nodes, level, p), name);
      StyleFrom(nodes, level, p, name, kind, default)
        == if h.Some? && nodes[h.value].styles.value[name].kind == kind then nodes[h.value].styles.value[name].value else default
    decreases if p in level then level[p] else 0
  {
    assert RankedAt(nodes, level, p);
    var path := Hierarchy(nodes, level, p);
    if !Holds(nodes, p, name) && nodes[p].parent.Some? {
      var q := nodes[p].parent.value;
      StyleFromNearest(nodes, level, q, name, kind, default);
      assert path == Hierarchy(nodes, level, q) + [p];
      assert path[..|path| - 1] == Hierarchy(nodes, level, q);
    }
  }

  /** When the common prefix ends: both agree up to `k`, and one of them
      ends or they differ at `k`. */
  lemma {:induction false} CommonPrefixAt(a: seq<WidgetId>, b: seq<WidgetId>, k: nat)
    requires k <= |a| && k <= |b| && a[..k] == b[..k]
    requires k == |a| || k == |b| || a[k] != b[k]
    ensures CommonPrefix(a, b) == k
  {
    if k > 0 {
      assert a[0] == a[..k][0] && b[0] == b[..k][0];
      assert a[1..][..k - 1] == a[..k][1..] && b[1..][..k - 1] == b[..k][1..];
      CommonPrefixAt(a[1..], b[1..], k - 1);
    }
  }

  // ----- pushing and removing ----------------------------------------------

  /** The nodes after `push_boxed`: a node without children, layout or
      styles, appended to its parent's children. */
  function Pushed(nodes: map<WidgetId, Node>, widget: WidgetId, parent: Option<WidgetId>): map<WidgetId, Node>
  {
    var added := nodes[widget := Node([], parent, None, None)];
    if parent.Some? && parent.value in added then
      added[parent.value := added[parent.value].(children := added[parent.value].children + [widget])]
    else added
  }

  /** The subtree of `a`: `a` and every node below it. */
  ghost function Subtree(nodes: map<WidgetId, Node>, level: map<WidgetId, nat>, a: WidgetId): (r: set<WidgetId>)
    requires Ranked(nodes, level)
    ensures forall d :: d in r <==> d in nodes && IsAncestorOrSelf(nodes, level, a, d)
  {
    set d | d in nodes && IsAncestorOrSelf(nodes, level, a, d)
  }

  /** `s` without its element at `i`: what `Vec::remove` leaves. */
  function RemoveAt(s: seq<WidgetId>, i: nat): (r: seq<WidgetId>)
    requires i < |s|
    ensures |r| == |s| - 1
  {
    s[..i] + s[i + 1..]
  }

  /** The first position of `x` in `s`. */
  function IndexOf(s: seq<WidgetId>, x: WidgetId): (i: nat)
    requires x in s
    ensures i < |s| && s[i] == x
    ensures forall j | 0 <= j < i :: s[j] != x
  {
    if s[0] == x then 0 else IndexOf(s[1..], x) + 1
  }

  /** Removing one element of a list without repeats leaves exactly the
      other elements, still without repeats. */
  lemma RemoveAtMembers(s: seq<WidgetId>, i: nat)
    requires i < |s| && Distinct(s)
    ensures forall x :: x in RemoveAt(s, i) <==> x in s && x != s[i]
    ensures Distinct(RemoveAt(s, i))
  {
    var r := RemoveAt(s, i);
    forall x | x in s && x != s[i]
      ensures x in r
    {
      var j :| 0 <= j < |s| && s[j] == x;
      if j < i {
        assert r[j] == x;
      } else {
        assert r[j - 1] == x;
      }
    }
    forall j, k | 0 <= j < k < |r|
      ensures r[j] != r[k]
    {
      var j' := if j < i then j else j + 1;
      var k' := if k < i then k else k + 1;
      assert r[j] == s[j'] && r[k] == s[k'];
    }
  }

  /** The nodes after `remove_child(child, parent)`: `child` leaves its
      parent's children, and it and every node below it leave the tree. */
  ghost function Removed(nodes: map<WidgetId, Node>, level: map<WidgetId, nat>, child: WidgetId, parent: WidgetId): map<WidgetId, Node>
    requires Ranked(nodes, level) && parent in nodes && child in nodes[parent].children
  {
    var list := nodes[parent].children;
    (nodes - Subtree(nodes, level, child))[parent := nodes[parent].(children := RemoveAt(list, IndexOf(list, child)))]
  }

  lemma {:induction false} AncestorIsShallower(nodes: map<WidgetId, Node>, level: map<WidgetId, nat>, a: WidgetId, d: WidgetId)
    requires Ranked(nodes, level) && a in nodes && d in nodes && IsAncestorOrSelf(nodes, level, a, d)
    requires a in level && d in level
    ensures level[a] <= level[d]
    decreases if d in level then level[d] else 0
  {
    assert RankedAt(nodes, level, d);
    if a != d {
      AncestorIsShallower(nodes, level, a, nodes[d].parent.value);
    }
  }

  /** Pushing keeps every node ranked below its parent and every link. */
  lemma PushedValid(nodes: map<WidgetId, Node>, level: map<WidgetId, nat>, widget: WidgetId, parent: Option<WidgetId>)
    requires Ranked(nodes, level) && Linked(nodes)
    requires widget !in nodes && (parent.Some? ==> parent.value in nodes && parent.value in level)
    ensures var lv := if parent.Some? then level[parent.value] + 1 else 0;
      Ranked(Pushed(nodes, widget, parent), level[widget := lv]) && Linked(Pushed(nodes, widget, parent))
  {
    var lv := if parent.Some? then level[parent.value] + 1 else 0;
    var n1 := Pushed(nodes, widget, parent);
    var l1 := level[widget := lv];
    forall n | n in n1
      ensures RankedAt(n1, l1, n) && LinkedAt(n1, n)
    {
      if n != widget {
        assert RankedAt(nodes, level, n) && LinkedAt(nodes, n);
        if parent.Some? && n == parent.value {
          var list := nodes[n].children;
          assert widget !in list;
          forall i, j | 0 <= i < j < |list + [widget]|
            ensures (list + [widget])[i] != (list + [widget])[j]
          {
          }
        }
      }
    }
  }

  /** Removing the subtree of `child` and unlisting it from its parent
      keeps every node ranked and every link. */
  lemma RemovedValid(nodes: map<WidgetId, Node>, level: map<WidgetId, nat>, child: WidgetId, parent: WidgetId)
    requires Ranked(nodes, level) && Linked(nodes)
    requires parent in nodes && child in nodes[parent].children
    ensures parent !in Subtree(nodes, level, child) && child in Subtree(nodes, level, child)
    ensures Ranked(Removed(nodes, level, child, parent), level) && Linked(Removed(nodes, level, child, parent))
  {
    var sub := Subtree(nodes, level, child);
    var list := nodes[parent].children;
    var i := IndexOf(list, child);
    var n1 := Removed(nodes, level, child, parent);
    assert LinkedAt(nodes, parent);
    assert RankedAt(nodes, level, child);
    if parent in sub {
      AncestorIsShallower(nodes, level, child, parent);
    }
    RemoveAtMembers(list, i);
    forall n | n in n1
      ensures RankedAt(n1, level, n) && LinkedAt(n1, n)
    {
      assert RankedAt(nodes, level, n) && LinkedAt(nodes, n);
      assert n !in sub;
      forall c | c in n1[n].children
        ensures c in n1 && n1[c].parent == Some(n)
      {
        assert c in nodes[n].children;
        assert c in nodes && nodes[c].parent == Some(n);
      }
      if nodes[n].parent.Some? {
        var p := nodes[n].parent.value;
        assert p !in sub;
        assert n in nodes[p].children;
        if p == parent {
          assert n != child;
        }
      }
    }
  }

  /** Nothing lies below a node without children. */
  lemma {:induction false} LeafSubtree(nodes: map<WidgetId, Node>, level: map<WidgetId, nat>, a: WidgetId, d: WidgetId)
    requires Ranked(nodes, level) && Linked(nodes) && a in nodes && nodes[a].children == [] && d in nodes
    ensures IsAncestorOrSelf(nodes, level, a, d) ==> d == a
    decreases if d in level then level[d] else 0
  {
    assert RankedAt(nodes, level, d) && LinkedAt(nodes, d);
    if d != a && nodes[d].parent.Some? {
      LeafSubtree(nodes, level, a, nodes[d].parent.value);
    }
  }

  /** Removing a child right after pushing it gives the nodes back. */
  lemma PushThenRemove(nodes: map<WidgetId, Node>, level: map<WidgetId, nat>, widget: WidgetId, parent: WidgetId)
    requires Ranked(nodes, level) && Linked(nodes)
    requires widget !in nodes && parent in nodes && parent in level
    ensures var lv := level[widget := level[parent] + 1];
      && Ranked(Pushed(nodes, widget, Some(parent)), lv)
      && widget in Pushed(nodes, widget, Some(parent))[parent].children
      && Removed(Pushed(nodes, widget, Some(parent)), lv, widget, parent) == nodes
  {
    assert RankedAt(nodes, level, parent) && LinkedAt(nodes, parent);
    var lv := level[widget := level[parent] + 1];
    var n1 := Pushed(nodes, widget, Some(parent));
    PushedValid(nodes, level, widget, Some(parent));
    var sub := Subtree(n1, lv, widget);
    forall d | d in n1
      ensures IsAncestorOrSelf(n1, lv, widget, d) ==> d == widget
    {
      LeafSubtree(n1, lv, widget, d);
    }
    assert sub == {widget};
    var list := nodes[parent].children;
    assert widget !in list;
    assert IndexOf(list + [widget], widget) == |list| by {
      assert (list + [widget])[|list|] == widget;
    }
    assert RemoveAt(list + [widget], |list|) == list;
  }

  // ----- layouts -----------------------------------------------------------

  /** `d` lies below `w`, and it and every node between it and `w` have a
      layout: the nodes `set_layout` on `w` offsets. */
  ghost predicate Reached(nodes: map<WidgetId, Node>, level: map<WidgetId, nat>, w: WidgetId, d: WidgetId)
    requires Ranked(nodes, level)
    decreases if d in nodes && d in level then level[d] else 0
  {
    && d in nodes && d != w && nodes[d].layout.Some? && nodes[d].parent.Some?
    && (assert RankedAt(nodes, level, d);
        nodes[d].parent.value == w || Reached(nodes, level, w, nodes[d].parent.value))
  }

  ghost function ReachedSet(nodes: map<WidgetId, Node>, level: map<WidgetId, nat>, w: WidgetId): (r: set<WidgetId>)
    requires Ranked(nodes, level)
    ensures forall d :: d in r <==> Reached(nodes, level, w, d)
  {
    set d | d in nodes && Reached(nodes, level, w, d)
  }

  /** A node's layout moved by `o`. */
  function Shift(node: Node, o: Point): Node
  {
    match node.layout
    case None => node
    case Some(l) => node.(layout := Some(Rect(Point(l.origin.x + o.x, l.origin.y + o.y), l.size)))
  }

  function ShiftAll(nodes: map<WidgetId, Node>, shifted: set<WidgetId>, o: Point): map<WidgetId, Node>
  {
    map d | d in nodes :: if d in shifted then Shift(nodes[d], o) else nodes[d]
  }

  /** The nodes after `set_layout(w, rect)`: `w` gets `rect`, and every node
      it reaches is moved by the origin of `rect`. */
  ghost function LaidOut(nodes: map<WidgetId, Node>, level: map<WidgetId, nat>, w: WidgetId, rect: Rect): map<WidgetId, Node>
    requires Ranked(nodes, level) && w in nodes
  {
    ShiftAll(nodes[w := nodes[w].(layout := Some(rect))], ReachedSet(nodes, level, w), rect.origin)
  }

  /** What `set_layout` does to each node: `w` gets `rect`; a reached node,
      whose layout was relative to its parent's, is moved by the origin of
      `rect`; every other node, and every parent and child link, stays. */
  lemma LaidOutEffect(nodes: map<WidgetId, Node>, level: map<WidgetId, nat>, w: WidgetId, rect: Rect, d: WidgetId)
    requires Ranked(nodes, level) && w in nodes && d in nodes
    ensures var r := LaidOut(nodes, level, w, rect);
      && d in r && r[d].parent == nodes[d].parent && r[d].children == nodes[d].children
      && (d == w ==> r[d].layout == Some(rect))
      && (Reached(nodes, level, w, d) ==>
          var l := nodes[d].layout.value;
          r[d].layout == Some(Rect(Point(l.origin.x + rect.origin.x, l.origin.y + rect.origin.y), l.size)))
      && (d != w && !Reached(nodes, level, w, d) ==> r[d] == nodes[d])
  {
  }

  lemma {:induction false} ReachedDeeper(nodes: map<WidgetId, Node>, level: map<WidgetId, nat>, w: WidgetId, d: WidgetId)
    requires Ranked(nodes, level) && w in level && Reached(nodes, level, w, d)
    ensures d in level && level[d] > level[w]
    decreases if d in level then level[d] else 0
  {
    assert RankedAt(nodes, level, d);
    var p := nodes[d].parent.value;
    if p != w {
      ReachedDeeper(nodes, level, w, p);
    }
  }

  /** The invariant of the walk of `set_layout`: the shifted nodes are
      reached, and each waiting node is unshifted, lies below `w`, and has
      `w` or a shifted node as its parent; every child of `w` or of a
      shifted node has been shifted, waits, or has no layout. */
  ghost predicate LayoutWalk(nodes: map<WidgetId, Node>, level: map<WidgetId, nat>, w: WidgetId, shifted: set<WidgetId>, stack: seq<WidgetId>)
    requires Ranked(nodes, level)
  {
    && (forall y | y in shifted :: Reached(nodes, level, w, y))
    && (forall y | y in shifted :: y in nodes && nodes[y].parent.Some? && (nodes[y].parent.value == w || nodes[y].parent.value in shifted))
    && (forall x | x in stack :: x in nodes && x != w && x !in shifted && nodes[x].parent.Some? &&
         (nodes[x].parent.value == w || nodes[x].parent.value in shifted))
    && Distinct(stack)
    && (forall c | c in nodes && nodes[c].parent.Some? && (nodes[c].parent.value == w || nodes[c].parent.value in shifted) ::
         c in shifted || c in stack || nodes[c].layout.None?)
  }

  lemma LayoutWalkStart(nodes: map<WidgetId, Node>, level: map<WidgetId, nat>, w: WidgetId)
    requires Ranked(nodes, level) && Linked(nodes) && w in nodes
    ensures LayoutWalk(nodes, level, w, {}, nodes[w].children)
  {
    assert LinkedAt(nodes, w);
    forall c | c in nodes && nodes[c].parent == Some(w)
      ensures c in nodes[w].children
    {
      assert LinkedAt(nodes, c);
    }
    forall x | x in nodes[w].children
      ensures x != w
    {
      assert RankedAt(nodes, level, x);
    }
  }

  /** Popping a node with a layout: it is shifted and its children wait. */
  lemma LayoutWalkStep(nodes: map<WidgetId, Node>, level: map<WidgetId, nat>, w: WidgetId, shifted: set<WidgetId>, rest: seq<WidgetId>, x: WidgetId)
    requires Ranked(nodes, level) && Linked(nodes) && w in nodes
    requires LayoutWalk(nodes, level, w, shifted, rest + [x])
    requires nodes[x].layout.Some?
    ensures x in nodes && x != w && x !in shifted && Reached(nodes, level, w, x)
    ensures LayoutWalk(nodes, level, w, shifted + {x}, rest + nodes[x].children)
  {
    assert x in rest + [x];
    assert RankedAt(nodes, level, w) && RankedAt(nodes, level, x) && LinkedAt(nodes, x);
    ReachedDeeper(nodes, level, w, x);
    var s1 := shifted + {x};
    var st := rest + nodes[x].children;
    assert forall y | y in rest :: y in rest + [x];
    forall c | c in nodes[x].children
      ensures c in nodes && c != w && c !in s1 && c !in rest && nodes[c].parent == Some(x)
    {
      assert c in nodes && nodes[c].parent == Some(x);
      assert RankedAt(nodes, level, c);
    }
    forall i, j | 0 <= i < j < |st|
      ensures st[i] != st[j]
    {
      if j < |rest| {
        assert st[i] == (rest + [x])[i] && st[j] == (rest + [x])[j];
      } else if i >= |rest| {
        assert st[i] == nodes[x].children[i - |rest|] && st[j] == nodes[x].children[j - |rest|];
      } else {
        assert st[j] in nodes[x].children;
      }
    }
    forall y | y in st
      ensures y in nodes && y != w && y !in s1 && nodes[y].parent.Some? && (nodes[y].parent.value == w || nodes[y].parent.value in s1)
    {
      if y in rest {
        var k :| 0 <= k < |rest| && rest[k] == y;
        assert (rest + [x])[k] == y && (rest + [x])[|rest|] == x;
      }
    }
    forall c | c in nodes && nodes[c].parent.Some? && (nodes[c].parent.value == w || nodes[c].parent.value in s1)
      ensures c in s1 || c in st || nodes[c].layout.None?
    {
      if nodes[c].parent.value == x {
        assert LinkedAt(nodes, c);
      } else {
        assert c in shifted || c in rest + [x] || nodes[c].layout.None?;
      }
    }
  }

  /** Popping a node without a layout: it is dropped. */
  lemma LayoutWalkSkip(nodes: map<WidgetId, Node>, level: map<WidgetId, nat>, w: WidgetId, shifted: set<WidgetId>, rest: seq<WidgetId>, x: WidgetId)
    requires Ranked(nodes, level)
    requires LayoutWalk(nodes, level, w, shifted, rest + [x])
    requires x in nodes ==> nodes[x].layout.None?
    ensures LayoutWalk(nodes, level, w, shifted, rest)
  {
    assert x in rest + [x];
    forall i, j | 0 <= i < j < |rest|
      ensures rest[i] != rest[j]
    {
      assert rest[i] == (rest + [x])[i] && rest[j] == (rest + [x])[j];
    }
    forall y | y in rest
      ensures y in rest + [x]
    {
    }
    forall c | c in nodes && nodes[c].parent.Some? && (nodes[c].parent.value == w || nodes[c].parent.value in shifted)
      ensures c in shifted || c in rest || nodes[c].layout.None?
    {
      assert c in shifted || c in rest + [x] || nodes[c].layout.None?;
    }
  }

  /** When nothing waits, exactly the reached nodes were shifted. */
  lemma LayoutWalkDone(nodes: map<WidgetId, Node>, level: map<WidgetId, nat>, w: WidgetId, shifted: set<WidgetId>)
    requires Ranked(nodes, level) && LayoutWalk(nodes, level, w, shifted, [])
    ensures shifted == ReachedSet(nodes, level, w)
  {
    forall d | Reached(nodes, level, w, d)
      ensures d in shifted
    {
      ReachedShifted(nodes, level, w, shifted, d);
    }
  }

  lemma {:induction false} ReachedShifted(nodes: map<WidgetId, Node>, level: map<WidgetId, nat>, w: WidgetId, shifted: set<WidgetId>, d: WidgetId)
    requires Ranked(nodes, level) && LayoutWalk(nodes, level, w, shifted, []) && Reached(nodes, level, w, d)
    ensures d in shifted
    decreases if d in level then level[d] else 0
  {
    assert RankedAt(nodes, level, d);
    var p := nodes[d].parent.value;
    if p != w {
      ReachedShifted(nodes, level, w, shifted, p);
    }
  }

  lemma ShiftAllStep(nodes: map<WidgetId, Node>, shifted: set<WidgetId>, o: Point, x: WidgetId)
    requires x in nodes && x !in shifted
    ensures ShiftAll(nodes, shifted + {x}, o) == ShiftAll(nodes, shifted, o)[x := Shift(nodes[x], o)]
  {
  }

  lemma ShiftAllOther(nodes: map<WidgetId, Node>, shifted: set<WidgetId>, o: Point, x: WidgetId)
    requires x in nodes && x !in shifted
    ensures x in ShiftAll(nodes, shifted, o) && ShiftAll(nodes, shifted, o)[x] == nodes[x]
  {
  }

  lemma ShiftAllNone(nodes: map<WidgetId, Node>, o: Point)
    ensures ShiftAll(nodes, {}, o) == nodes
  {
  }

  /** Moving layouts changes no parent and no child, so the tree keeps its
      shape. */
  lemma ShiftAllValid(nodes: map<WidgetId, Node>, level: map<WidgetId, nat>, shifted: set<WidgetId>, o: Point)
    requires Ranked(nodes, level) && Linked(nodes)
    ensures Ranked(ShiftAll(nodes, shifted, o), level) && Linked(ShiftAll(nodes, shifted, o))
  {
    var r := ShiftAll(nodes, shifted, o);
    forall n | n in r
      ensures RankedAt(r, level, n) && LinkedAt(r, n)
    {
      assert RankedAt(nodes, level, n) && LinkedAt(nodes, n);
    }
  }

  // ----- the walk of `remove_child` ----------------------------------------

  /** The invariant of the walk of `remove_child`: `child` and every
      other removed node lie in the subtree of `child`, and each removed node
      but `child` has a removed parent; each detached node waiting on the
      stack is still present, lies in the subtree and has a removed parent;
      every node whose parent was removed is removed or waits. */
  ghost predicate RemoveWalk(nodes: map<WidgetId, Node>, level: map<WidgetId, nat>, child: WidgetId, removed: set<WidgetId>, stack: seq<WidgetId>)
    requires Ranked(nodes, level)
  {
    && child in removed
    && (forall y | y in removed :: y in nodes && IsAncestorOrSelf(nodes, level, child, y) &&
         (y == child || (nodes[y].parent.Some? && nodes[y].parent.value in removed)))
    && (forall x | x in stack :: x in nodes && x !in removed && IsAncestorOrSelf(nodes, level, child, x) &&
         nodes[x].parent.Some? && nodes[x].parent.value in removed)
    && Distinct(stack)
    && (forall c | c in nodes && nodes[c].parent.Some? && nodes[c].parent.value in removed :: c in removed || c in stack)
  }

  lemma RemoveWalkStart(nodes: map<WidgetId, Node>, level: map<WidgetId, nat>, child: WidgetId, parent: WidgetId)
    requires Ranked(nodes, level) && Linked(nodes)
    requires parent in nodes && child in nodes[parent].children
    ensures child in nodes
    ensures RemoveWalk(nodes, level, child, {child}, nodes[child].children)
  {
    assert LinkedAt(nodes, parent);
    assert LinkedAt(nodes, child);
    forall c | c in nodes && nodes[c].parent == Some(child)
      ensures c in nodes[child].children
    {
      assert LinkedAt(nodes, c);
    }
    forall x | x in nodes[child].children
      ensures x != child && IsAncestorOrSelf(nodes, level, child, x)
    {
      assert RankedAt(nodes, level, x);
    }
  }

  /** Popping a detached node: it is removed and its children wait. */
  lemma RemoveWalkStep(nodes: map<WidgetId, Node>, level: map<WidgetId, nat>, child: WidgetId, parent: WidgetId,
                       removed: set<WidgetId>, rest: seq<WidgetId>, x: WidgetId)
    requires Ranked(nodes, level) && Linked(nodes)
    requires parent in nodes && child in nodes[parent].children && !IsAncestorOrSelf(nodes, level, child, parent)
    requires RemoveWalk(nodes, level, child, removed, rest + [x])
    ensures x in nodes && x !in removed && x != parent && IsAncestorOrSelf(nodes, level, child, x)
    ensures RemoveWalk(nodes, level, child, removed + {x}, rest + nodes[x].children)
  {
    assert x in rest + [x];
    assert LinkedAt(nodes, parent) && LinkedAt(nodes, x);
    assert nodes[child].parent == Some(parent);
    var r1 := removed + {x};
    var st := rest + nodes[x].children;
    assert forall y | y in rest :: y in rest + [x];
    forall c | c in nodes[x].children
      ensures c in nodes && c !in r1 && c !in rest && nodes[c].parent == Some(x) && IsAncestorOrSelf(nodes, level, child, c)
    {
      assert RankedAt(nodes, level, c);
    }
    forall i, j | 0 <= i < j < |st|
      ensures st[i] != st[j]
    {
      if j < |rest| {
        assert st[i] == (rest + [x])[i] && st[j] == (rest + [x])[j];
      } else if i >= |rest| {
        assert st[i] == nodes[x].children[i - |rest|] && st[j] == nodes[x].children[j - |rest|];
      } else {
        assert st[j] in nodes[x].children;
      }
    }
    forall y | y in st
      ensures y in nodes && y !in r1 && IsAncestorOrSelf(nodes, level, child, y) && nodes[y].parent.Some? && nodes[y].parent.value in r1
    {
      if y in rest {
        var k :| 0 <= k < |rest| && rest[k] == y;
        assert (rest + [x])[k] == y && (rest + [x])[|rest|] == x;
      }
    }
    forall c | c in nodes && nodes[c].parent.Some? && nodes[c].parent.value in r1
      ensures c in r1 || c in st
    {
      if nodes[c].parent.value == x {
        assert LinkedAt(nodes, c);
      } else {
        assert c in removed || c in rest + [x];
      }
    }
  }

  /** When nothing waits, exactly the subtree of `child` was removed. */
  lemma RemoveWalkDone(nodes: map<WidgetId, Node>, level: map<WidgetId, nat>, child: WidgetId, removed: set<WidgetId>)
    requires Ranked(nodes, level) && RemoveWalk(nodes, level, child, removed, [])
    ensures removed == Subtree(nodes, level, child)
  {
    forall d | d in nodes && IsAncestorOrSelf(nodes, level, child, d)
      ensures d in removed
    {
      SubtreeRemoved(nodes, level, child, removed, d);
    }
  }

  lemma {:induction false} SubtreeRemoved(nodes: map<WidgetId, Node>, level: map<WidgetId, nat>, child: WidgetId, removed: set<WidgetId>, d: WidgetId)
    requires Ranked(nodes, level) && RemoveWalk(nodes, level, child, removed, [])
    requires d in nodes && IsAncestorOrSelf(nodes, level, child, d)
    ensures d in removed
    decreases if d in level then level[d] else 0
  {
    assert RankedAt(nodes, level, d);
    if d != child {
      SubtreeRemoved(nodes, level, child, removed, nodes[d].parent.value);
    }
  }

  /** Giving `w` a layout changes no parent and no child. */
  lemma RelayoutValid(nodes: map<WidgetId, Node>, level: map<WidgetId, nat>, w: WidgetId, layout: Option<Rect>)
    requires Ranked(nodes, level) && Linked(nodes) && w in nodes
    ensures Ranked(nodes[w := nodes[w].(layout := layout)], level) && Linked(nodes[w := nodes[w].(layout := layout)])
  {
    var r := nodes[w := nodes[w].(layout := layout)];
    forall n | n in r
      ensures RankedAt(r, level, n) && LinkedAt(r, n)
    {
      assert RankedAt(nodes, level, n) && LinkedAt(nodes, n);
    }
  }

  /** Removing one more node, other than `parent`, from the detached map. */
  lemma DetachOneMore(nodes: map<WidgetId, Node>, removed: set<WidgetId>, parent: WidgetId, pNode: Node, x: WidgetId)
    requires x != parent
    ensures (nodes - removed)[parent := pNode] - {x} == (nodes - (removed + {x}))[parent := pNode]
  {
  }

  /** A non-empty stack is its rest with its top pushed on it. */
  lemma PopLast(s: seq<WidgetId>)
    requires s != []
    ensures s == s[..|s| - 1] + [s[|s| - 1]]
    ensures s[|s| - 1] in s
  {
  }

  function Reversed(s: seq<WidgetId>): (r: seq<WidgetId>)
    ensures |r| == |s|
  {
    if s == [] then [] else [s[|s| - 1]] + Reversed(s[..|s| - 1])
  }

  /** One step up the path: the path to `w` is the path to its parent,
      if any, followed by `w`. */
  lemma HierarchyUp(nodes: map<WidgetId, Node>, level: map<WidgetId, nat>, w: WidgetId, below: seq<WidgetId>)
    requires Ranked(nodes, level) && w in nodes
    ensures var parent := nodes[w].parent;
      Hierarchy(nodes, level, w) + Reversed(below)
        == (if parent.Some? then Hierarchy(nodes, level, parent.value) else []) + Reversed(below + [w])
  {
    assert RankedAt(nodes, level, w);
    assert (below + [w])[..|below|] == below;
    assert Reversed(below + [w]) == [w] + Reversed(below);
  }

  /** The three widgets the tree tracks. */
  datatype Tracked = Active | Focus | Hover

  // ----- the tree ----------------------------------------------------------

  /** `TreeData`, the state behind `Tree`. `level` is a ghost ranking of the
      nodes that shows the parents never form a cycle. */
  class TreeData {
    var nodes: map<WidgetId, Node>
    var active: Option<WidgetId>
    var focus: Option<WidgetId>
    var hover: Option<WidgetId>
    var renderOrder: seq<WidgetId>
    ghost var level: map<WidgetId, nat>

    ghost predicate Valid()
      reads this
    {
      Ranked(nodes, level) && Linked(nodes)
    }

    /** `TreeData::default`. */
    constructor()
      ensures Valid()
      ensures nodes == map[] && active.None? && focus.None? && hover.None? && renderOrder == []
    {
      nodes := map[];
      active := None;
      focus := None;
      hover := None;
      renderOrder := [];
      level := map[];
    }

    /** `Tree::push_boxed`: a new node without children, layout or styles,
        appended to the children of its parent. */
    method PushBoxed(widget: WidgetId, parent: Option<WidgetId>)
      requires Valid() && widget !in nodes && (parent.Some? ==> parent.value in nodes)
      modifies this`nodes, this`level
      ensures Valid()
      ensures nodes == Pushed(old(nodes), widget, parent)
      ensures level == old(level)[widget := if parent.Some? && parent.value in old(level) then old(level)[parent.value] + 1 else 0]
    {
      if parent.Some? {
        assert RankedAt(nodes, level, parent.value);
      }
      ghost var lv := if parent.Some? then level[parent.value] + 1 else 0;
      PushedValid(nodes, level, widget, parent);
      nodes := nodes[widget := Node([], parent, None, None)];
      if parent.Some? {
        var p := nodes[parent.value];
        nodes := nodes[parent.value := p.(children := p.children + [widget])];
      }
      level := level[widget := lv];
    }

    /** `TreeData::remove_child`: `child` leaves the children of `parent`,
        and it and every node below it leave the tree. The source expects
        both nodes to exist and `child` to be listed under `parent`. */
    method RemoveChild(child: WidgetId, parent: WidgetId)
      requires Valid() && parent in nodes && child in nodes[parent].children
      modifies this`nodes
      ensures Valid()
      ensures nodes == Removed(old(nodes), level, child, parent)
    {
      ghost var n0 := nodes;
      RemovedValid(n0, level, child, parent);
      RemoveWalkStart(n0, level, child, parent);
      var removedNode := nodes[child];
      nodes := nodes - {child};
      var p := nodes[parent];
      var index := IndexOf(p.children, child);
      nodes := nodes[parent := p.(children := RemoveAt(p.children, index))];
      RemoveDetached(removedNode.children, n0, level, child, parent, nodes[parent]);
    }

    /** The loop of `remove_child`: each detached node is removed from the
        tree, and its children are detached in turn. */
    method RemoveDetached(detached: seq<WidgetId>, ghost n0: map<WidgetId, Node>, ghost lv: map<WidgetId, nat>,
                          ghost child: WidgetId, ghost parent: WidgetId, ghost pNode: Node)
      requires Ranked(n0, lv) && Linked(n0)
      requires parent in n0 && child in n0[parent].children && !IsAncestorOrSelf(n0, lv, child, parent)
      requires RemoveWalk(n0, lv, child, {child}, detached)
      requires nodes == (n0 - {child})[parent := pNode]
      modifies this`nodes
      ensures nodes == (n0 - Subtree(n0, lv, child))[parent := pNode]
    {
      ghost var sub := Subtree(n0, lv, child);
      var detachedNodes := detached;
      ghost var removed := {child};
      while detachedNodes != []
        invariant RemoveWalk(n0, lv, child, removed, detachedNodes)
        invariant removed <= sub
        invariant nodes == (n0 - removed)[parent := pNode]
        decreases |sub - removed|
      {
        detachedNodes, removed := RemoveLastDetached(detachedNodes, n0, lv, child, parent, pNode, removed);
      }
      RemoveWalkDone(n0, lv, child, removed);
    }

    /** One turn of the loop of `remove_child`: the last detached node is
        removed from the tree and its children are detached. */
    method RemoveLastDetached(detached: seq<WidgetId>, ghost n0: map<WidgetId, Node>, ghost lv: map<WidgetId, nat>,
                              ghost child: WidgetId, ghost parent: WidgetId, ghost pNode: Node, ghost removed: set<WidgetId>)
        returns (rest: seq<WidgetId>, ghost removedAfter: set<WidgetId>)
      requires Ranked(n0, lv) && Linked(n0)
      requires parent in n0 && child in n0[parent].children && !IsAncestorOrSelf(n0, lv, child, parent)
      requires detached != [] && RemoveWalk(n0, lv, child, removed, detached)
      requires removed <= Subtree(n0, lv, child)
      requires nodes == (n0 - removed)[parent := pNode]
      modifies this`nodes
      ensures RemoveWalk(n0, lv, child, removedAfter, rest) && removedAfter <= Subtree(n0, lv, child)
      ensures nodes == (n0 - removedAfter)[parent := pNode]
      ensures |Subtree(n0, lv, child) - removedAfter| < |Subtree(n0, lv, child) - removed|
    {
      PopLast(detached);
      var node := detached[|detached| - 1];
      rest := detached[..|detached| - 1];
      RemoveWalkStep(n0, lv, child, parent, removed, rest, node);
      DetachOneMore(n0, removed, parent, pNode, node);
      var n := nodes[node];
      nodes := nodes - {node};
      rest := rest + n.children;
      ghost var sub := Subtree(n0, lv, child);
      assert sub - (removed + {node}) == (sub - removed) - {node};
      removedAfter := removed + {node};
    }

    /** `Tree::set_layout`: `widget` is appended to the render order and
        gets `rect`, and every node below it that has a layout, through
        nodes that all have one, is moved by the origin of `rect`. */
    method SetLayout(widget: WidgetId, rect: Rect)
      requires Valid() && widget in nodes
      modifies this`nodes, this`renderOrder
      ensures Valid()
      ensures renderOrder == old(renderOrder) + [widget]
      ensures nodes == LaidOut(old(nodes), level, widget, rect)
    {
      ghost var n0 := nodes;
      renderOrder := renderOrder + [widget];
      var node := nodes[widget];
      nodes := nodes[widget := node.(layout := Some(rect))];
      RelayoutValid(n0, level, widget, Some(rect));
      LayoutWalkStart(n0, level, widget);
      OffsetChildren(node.children, rect.origin, n0, level, widget, node.(layout := Some(rect)));
      ShiftAllValid(n0[widget := node.(layout := Some(rect))], level, ReachedSet(n0, level, widget), rect.origin);
    }

    /** The loop of `set_layout`: each waiting node that has a layout is
        moved by `origin`, and its children wait in turn. */
    method OffsetChildren(childrenToOffset: seq<WidgetId>, origin: Point, ghost n0: map<WidgetId, Node>, ghost lv: map<WidgetId, nat>,
                          ghost widget: WidgetId, ghost laidOut: Node)
      requires Ranked(n0, lv) && Linked(n0) && widget in n0
      requires LayoutWalk(n0, lv, widget, {}, childrenToOffset)
      requires nodes == n0[widget := laidOut]
      modifies this`nodes
      ensures nodes == ShiftAll(n0[widget := laidOut], ReachedSet(n0, lv, widget), origin)
    {
      ghost var reach := ReachedSet(n0, lv, widget);
      ShiftAllNone(n0[widget := laidOut], origin);
      var stack := childrenToOffset;
      ghost var shifted: set<WidgetId> := {};
      while stack != []
        invariant LayoutWalk(n0, lv, widget, shifted, stack)
        invariant shifted <= reach
        invariant nodes == ShiftAll(n0[widget := laidOut], shifted, origin)
        decreases |reach - shifted|, |stack|
      {
        stack, shifted := OffsetLast(stack, origin, n0, lv, widget, laidOut, shifted);
      }
      LayoutWalkDone(n0, lv, widget, shifted);
    }

    /** One turn of the loop of `set_layout`: the last waiting node, when it
        has a layout, is moved by `origin` and its children wait. */
    method OffsetLast(stack: seq<WidgetId>, origin: Point, ghost n0: map<WidgetId, Node>, ghost lv: map<WidgetId, nat>,
                      ghost widget: WidgetId, ghost laidOut: Node, ghost shifted: set<WidgetId>)
        returns (rest: seq<WidgetId>, ghost shiftedAfter: set<WidgetId>)
      requires Ranked(n0, lv) && Linked(n0) && widget in n0
      requires stack != [] && LayoutWalk(n0, lv, widget, shifted, stack)
      requires shifted <= ReachedSet(n0, lv, widget)
      requires nodes == ShiftAll(n0[widget := laidOut], shifted, origin)
      modifies this`nodes
      ensures LayoutWalk(n0, lv, widget, shiftedAfter, rest) && shiftedAfter <= ReachedSet(n0, lv, widget)
      ensures nodes == ShiftAll(n0[widget := laidOut], shiftedAfter, origin)
      ensures |ReachedSet(n0, lv, widget) - shiftedAfter| < |ReachedSet(n0, lv, widget) - shifted|
        || (shiftedAfter == shifted && |rest| < |stack|)
    {
      ghost var n1 := n0[widget := laidOut];
      PopLast(stack);
      var child := stack[|stack| - 1];
      rest := stack[..|stack| - 1];
      assert child in n0 && child != widget && child !in shifted;
      ShiftAllOther(n1, shifted, origin, child);
      shiftedAfter := shifted;
      if child in nodes && nodes[child].layout.Some? {
        LayoutWalkStep(n0, lv, widget, shifted, rest, child);
        var current := nodes[child];
        assert current == n0[child];
        ShiftAllStep(n1, shifted, origin, child);
        nodes := nodes[child := Shift(current, origin)];
        rest := rest + current.children;
        ghost var reach := ReachedSet(n0, lv, widget);
        assert reach - (shifted + {child}) == (reach - shifted) - {child};
        shiftedAfter := shifted + {child};
      } else {
        LayoutWalkSkip(n0, lv, widget, shifted, rest, child);
      }
    }

    /** `TreeData::widget_hierarchy`: the path from the root down to
        `widget`, collected upwards and then reversed. */
    method WidgetHierarchy(widget: WidgetId) returns (h: seq<WidgetId>)
      requires Valid()
      ensures h == Hierarchy(nodes, level, widget)
    {
      var hierarchy: seq<WidgetId> := [];
      var current: Option<WidgetId> := Some(widget);
      while current.Some? && current.value in nodes
        invariant Hierarchy(nodes, level, widget) == (if current.Some? then Hierarchy(nodes, level, current.value) else []) + Reversed(hierarchy)
        decreases if current.Some? && current.value in level then level[current.value] + 1 else 0
      {
        var w := current.value;
        HierarchyUp(nodes, level, w, hierarchy);
        assert RankedAt(nodes, level, w);
        hierarchy := hierarchy + [w];
        current := nodes[w].parent;
      }
      assert Hierarchy(nodes, level, widget) == [] + Reversed(hierarchy);
      h := Reversed(hierarchy);
    }

    /** The widget tracked as `which`. */
    function Current(which: Tracked): Option<WidgetId>
      reads this
    {
      match which
      case Active => active
      case Focus => focus
      case Hover => hover
    }

    /** `TreeData::update_tracked_widget`, behind `Tree::activate`,
        `Tree::focus` and `Tree::hover`: the new widget is always stored;
        the answer is `Err(())` when it was already the tracked one, and
        otherwise the widget tracked before, which the source looks up in
        the tree. */
    method UpdateTrackedWidget(which: Tracked, newWidget: Option<WidgetId>) returns (r: Result<Option<WidgetId>, ()>)
      requires var previous := Current(which);
        previous.Some? && newWidget != previous ==> previous.value in nodes
      modifies this`active, this`focus, this`hover
      ensures Current(which) == newWidget
      ensures which != Active ==> active == old(active)
      ensures which != Focus ==> focus == old(focus)
      ensures which != Tracked.Hover ==> hover == old(hover)
      ensures old(Current(which)).Some? && newWidget == old(Current(which)) ==> r == Err(())
      ensures old(Current(which)).None? ==> r == Ok(None)
      ensures old(Current(which)).Some? && newWidget != old(Current(which)) ==> r == Ok(old(Current(which)))
    {
      var previous := Current(which);
      match which {
        case Active => active := newWidget;
        case Focus => focus := newWidget;
        case Hover => hover := newWidget;
      }
      if previous.Some? && newWidget.Some? && previous.value == newWidget.value {
        r := Err(());
      } else if previous.Some? {
        r := Ok(previous);
      } else {
        r := Ok(None);
      }
    }

    /** `Tree::hover`: the hovered widget becomes `newHover`; `hovered` is
        its path from the root, and `unhovered` the path of the widget
        hovered before without the part it shares with the new path, or
        nothing when the hovered widget did not change. */
    method Hover(newHover: Option<WidgetId>) returns (unhovered: seq<WidgetId>, hovered: seq<WidgetId>)
      requires Valid()
      requires hover.Some? && newHover != hover ==> hover.value in nodes
      modifies this`active, this`focus, this`hover
      ensures hover == newHover && active == old(active) && focus == old(focus)
      ensures hovered == if newHover.Some? then Hierarchy(nodes, level, newHover.value) else []
      ensures unhovered == if old(hover).Some? && newHover != old(hover)
        then var o := Hierarchy(nodes, level, old(hover).value); o[CommonPrefix(o, hovered)..]
        else []
      ensures forall x | x in unhovered :: x !in hovered
    {
      hovered := [];
      if newHover.Some? {
        hovered := WidgetHierarchy(newHover.value);
      }
      var previous := UpdateTrackedWidget(Tracked.Hover, newHover);
      if previous.Ok? && previous.value.Some? {
        var oldHovered := WidgetHierarchy(previous.value.value);
        ghost var o := oldHovered;
        var newIndex := 0;
        while oldHovered != [] && newIndex < |hovered| && oldHovered[0] == hovered[newIndex]
          invariant newIndex <= |o| && newIndex <= |hovered|
          invariant oldHovered == o[newIndex..]
          invariant o[..newIndex] == hovered[..newIndex]
          decreases |oldHovered|
        {
          assert o[..newIndex + 1] == o[..newIndex] + [oldHovered[0]];
          assert hovered[..newIndex + 1] == hovered[..newIndex] + [hovered[newIndex]];
          oldHovered := oldHovered[1..];
          newIndex := newIndex + 1;
        }
        CommonPrefixAt(o, hovered, newIndex);
        if newHover.Some? {
          UnhoveredLeavesPath(nodes, level, previous.value.value, newHover.value);
        }
        unhovered := oldHovered;
      } else {
        unhovered := [];
      }
    }

    /** `Tree::is_hovered`: whether `id` is the hovered widget or one of its
        ancestors. The source looks up every widget it climbs through. */
    method IsHovered(id: WidgetId) returns (r: bool)
      requires Valid()
      requires hover.Some? && hover.value != id ==> hover.value in nodes
      ensures r <==> hover.Some? && IsAncestorOrSelf(nodes, level, id, hover.value)
    {
      var search := hover;
      while search.Some?
        invariant search.Some? && search.value != id ==> search.value in nodes
        invariant (hover.Some? && IsAncestorOrSelf(nodes, level, id, hover.value)) <==>
          (search.Some? && IsAncestorOrSelf(nodes, level, id, search.value))
        decreases if search.Some? && search.value in level then level[search.value] + 1 else 0
      {
        var hovered := search.value;
        if hovered == id {
          return true;
        }
        assert RankedAt(nodes, level, hovered);
        search := nodes[hovered].parent;
      }
      return false;
    }

    /** `TreeData::query_style`: the component named `name`, read from
        `perspective` upwards; `kind` stands for the component type it must
        convert to, and `default` for its default value. */
    method QueryStyle(perspective: WidgetId, name: string, kind: nat, default: int) returns (r: int)
      requires Valid() && perspective in nodes
      ensures r == StyleFrom(nodes, level, perspective, name, kind, default)
    {
      var p := perspective;
      while true
        invariant p in nodes
        invariant StyleFrom(nodes, level, p, name, kind, default) == StyleFrom(nodes, level, perspective, name, kind, default)
        decreases if p in level then level[p] else 0
      {
        var node := nodes[p];
        if node.styles.Some? && name in node.styles.value {
          var component := node.styles.value[name];
          if component.kind != kind {
            break;
          }
          return component.value;
        }
        if node.parent.None? {
          break;
        }
        assert RankedAt(nodes, level, p);
        p := node.parent.value;
      }
      r := default;
    }
  }

  /** Removing a child right after pushing it leaves the tree as it was. */
  method PushThenRemoveChild(tree: TreeData, widget: WidgetId, parent: WidgetId)
    requires tree.Valid() && widget !in tree.nodes && parent in tree.nodes
    modifies tree
    ensures tree.Valid() && tree.nodes == old(tree.nodes)
  {
    ghost var before := tree.nodes;
    assert RankedAt(before, tree.level, parent);
    PushThenRemove(before, tree.level, widget, parent);
    tree.PushBoxed(widget, Some(parent));
    tree.RemoveChild(widget, parent);
  }
}
