/** The absolute-positioning layout widget of the older Gooey widgets
    (widgets/src/layout.rs): the map of children by widget id and by layout
    key, the commands the widget sends when children come and go, and the
    per-child `WidgetLayout` with its dimensions. Widget registrations are
    named by their ids; lengths in points are reals. */
module GooeyLayout {
  import opened Common

  /** `Dimension`: unset, an exact length, or a share of the content
      length. */
  datatype Dimension = Auto | Exact(length: real) | Percent(percent: real)

  /** `Dimension::length`: nothing for `Auto`, the length for `Exact`, and
      the share of the content length for `Percent`. */
  function Length(d: Dimension, contentLength: real): (r: Option<real>)
    ensures r.None? <==> d.Auto?
    ensures d.Exact? ==> r == Some(d.length)
    ensures d.Percent? ==> r == Some(contentLength * d.percent)
  {
    if d.Exact? then Some(d.length)
    else if d.Percent? then Some(contentLength * d.percent)
    else None
  }

  /** A percentage of a non-negative content length between 0 and 1 lies
      between 0 and the content length; 1 (100%) is all of it. */
  lemma PercentWithinContent(percent: real, contentLength: real)
    requires 0.0 <= percent <= 1.0 && 0.0 <= contentLength
    ensures var r := Length(Percent(percent), contentLength);
      r.Some? && 0.0 <= r.value <= contentLength
    ensures Length(Percent(1.0), contentLength) == Some(contentLength)
  {
    ScaledWithin(percent, contentLength);
    assert Length(Percent(percent), contentLength).value == contentLength * percent;
    assert contentLength * 1.0 == contentLength;
    assert Length(Percent(1.0), contentLength).value == contentLength * 1.0;
  }

  /** Scaling a non-negative length by a factor between 0 and 1 keeps it
      between 0 and the length. */
  lemma ScaledWithin(factor: real, x: real)
    requires 0.0 <= factor <= 1.0 && 0.0 <= x
    ensures 0.0 <= x * factor <= x
  {
    assert x * (1.0 - factor) >= 0.0;
  }

  /** `WidgetLayout`: six dimensions, all `Auto` by default. */
  datatype WidgetLayout = WidgetLayout(left: Dimension, top: Dimension, right: Dimension, bottom: Dimension,
                                       width: Dimension, height: Dimension)

  /** `WidgetLayout::default`. */
  function DefaultLayout(): (l: WidgetLayout)
    ensures l.left.Auto? && l.top.Auto? && l.right.Auto? && l.bottom.Auto? && l.width.Auto? && l.height.Auto?
  {
    WidgetLayout(Auto, Auto, Auto, Auto, Auto, Auto)
  }

  /** `with_left`: only `left` changes. */
  function WithLeft(l: WidgetLayout, d: Dimension): (r: WidgetLayout)
    ensures r.left == d && r.(left := l.left) == l
  {
    l.(left := d)
  }

  /** `with_right`: only `right` changes. */
  function WithRight(l: WidgetLayout, d: Dimension): (r: WidgetLayout)
    ensures r.right == d && r.(right := l.right) == l
  {
    l.(right := d)
  }

  /** `with_top`: only `top` changes. */
  function WithTop(l: WidgetLayout, d: Dimension): (r: WidgetLayout)
    ensures r.top == d && r.(top := l.top) == l
  {
    l.(top := d)
  }

  /** `with_bottom`: only `bottom` changes. */
  function WithBottom(l: WidgetLayout, d: Dimension): (r: WidgetLayout)
    ensures r.bottom == d && r.(bottom := l.bottom) == l
  {
    l.(bottom := d)
  }

  /** `with_width`: only `width` changes. */
  function WithWidth(l: WidgetLayout, d: Dimension): (r: WidgetLayout)
    ensures r.width == d && r.(width := l.width) == l
  {
    l.(width := d)
  }

  /** `with_height`: only `height` changes. */
  function WithHeight(l: WidgetLayout, d: Dimension): (r: WidgetLayout)
    ensures r.height == d && r.(height := l.height) == l
  {
    l.(height := d)
  }

  /** Setters of different fields commute, and a second setter of the same
      field overrides the first. */
  lemma SettersCommuteAndOverride(l: WidgetLayout, a: Dimension, b: Dimension)
    ensures WithLeft(WithWidth(l, a), b) == WithWidth(WithLeft(l, b), a)
    ensures WithTop(WithHeight(l, a), b) == WithHeight(WithTop(l, b), a)
    ensures WithRight(WithRight(l, a), b) == WithRight(l, b)
    ensures WithBottom(WithBottom(l, a), b) == WithBottom(l, b)
  {
  }

  /** A content size in points. */
  datatype Size = Size(width: real, height: real)

  /** `Surround` in points: an optional length per side. */
  datatype Surround = Surround(left: Option<real>, top: Option<real>, right: Option<real>, bottom: Option<real>)

  /** `surround_in_points`: the left and right sides measured against the
      content width, the top and bottom against the content height. */
  function SurroundInPoints(l: WidgetLayout, content: Size): (r: Surround)
    ensures r.left == Length(l.left, content.width) && r.right == Length(l.right, content.width)
    ensures r.top == Length(l.top, content.height) && r.bottom == Length(l.bottom, content.height)
  {
    Surround(Length(l.left, content.width), Length(l.top, content.height),
             Length(l.right, content.width), Length(l.bottom, content.height))
  }

  /** `width_in_points` and `height_in_points` (`size_in_points`): the
      measured width and height, 0 for `Auto`. */
  function SizeInPoints(l: WidgetLayout, content: Size): (r: Size)
    ensures l.width.Auto? ==> r.width == 0.0
    ensures l.height.Auto? ==> r.height == 0.0
    ensures !l.width.Auto? ==> Some(r.width) == Length(l.width, content.width)
    ensures !l.height.Auto? ==> Some(r.height) == Length(l.height, content.height)
  {
    var w := Length(l.width, content.width);
    var h := Length(l.height, content.height);
    Size(if w.Some? then w.value else 0.0, if h.Some? then h.value else 0.0)
  }

  /** The default layout has no sides and a zero size, whatever the
      content. */
  lemma DefaultLayoutIsEmpty(content: Size)
    ensures SurroundInPoints(DefaultLayout(), content) == Surround(None, None, None, None)
    ensures SizeInPoints(DefaultLayout(), content) == Size(0.0, 0.0)
  {
  }

  /** `LayoutChild`: the child's widget id and its layout. */
  datatype LayoutChild = LayoutChild(id: U32, layout: WidgetLayout)

  /** `ChildrenMap`: children by widget id, and widget ids by layout key. */
  class ChildrenMap<K(==)> {
    var children: map<U32, LayoutChild>
    var keysToId: map<K, U32>

    /** Every child is stored under its own id. */
    ghost predicate Valid()
      reads this
    {
      forall id :: id in children ==> children[id].id == id
    }

    /** `ChildrenMap::default`: empty. */
    constructor()
      ensures Valid() && children == map[] && keysToId == map[]
    {
      children := map[];
      keysToId := map[];
    }

    /** `ChildrenMap::insert`: with a key, the key names the child's id;
        in either case the child is stored under its id. */
    method Insert(key: Option<K>, child: LayoutChild)
      requires Valid()
      modifies this
      ensures Valid()
      ensures children == old(children)[child.id := child]
      ensures key.Some? ==> keysToId == old(keysToId)[key.value := child.id]
      ensures key.None? ==> keysToId == old(keysToId)
    {
      if key.Some? {
        keysToId := keysToId[key.value := child.id];
      }
      children := children[child.id := child];
    }

    /** `ChildrenMap::remove`: the key is forgotten, and the child its id
        names, if still stored, is removed and returned. An unknown key
        changes nothing. */
    method Remove(key: K) returns (removed: Option<LayoutChild>)
      requires Valid()
      modifies this
      ensures Valid()
      ensures key !in old(keysToId) ==> removed.None? && children == old(children) && keysToId == old(keysToId)
      ensures key in old(keysToId) ==>
        var id := old(keysToId)[key];
        && keysToId == old(keysToId) - {key}
        && children == old(children) - {id}
        && (removed.Some? <==> id in old(children))
        && (removed.Some? ==> removed.value == old(children)[id])
    {
      if key in keysToId {
        var id := keysToId[key];
        keysToId := keysToId - {key};
        if id in children {
          removed := Some(children[id]);
          children := children - {id};
        } else {
          removed := None;
        }
      } else {
        removed := None;
      }
    }

    /** `layout_children`: the stored children, in no particular order. */
    function LayoutChildren(): (r: set<LayoutChild>)
      reads this
      ensures forall c :: c in r <==> exists id :: id in children && children[id] == c
    {
      set id | id in children :: children[id]
    }

    /** `child_by_widget_id`: the child stored under the id. */
    function ChildByWidgetId(id: U32): (r: Option<LayoutChild>)
      reads this
      ensures r.Some? <==> id in children
      ensures r.Some? ==> r.value == children[id] && r.value in LayoutChildren()
    {
      if id in children then Some(children[id]) else None
    }
  }

  /** A keyed child is removed by its key: inserting and then removing
      returns the child and leaves neither the key nor the id behind. */
  method InsertThenRemove<K(==)>(m: ChildrenMap<K>, key: K, child: LayoutChild) returns (removed: Option<LayoutChild>)
    requires m.Valid()
    modifies m
    ensures removed == Some(child)
    ensures m.keysToId == old(m.keysToId) - {key} && m.children == old(m.children) - {child.id}
  {
    m.Insert(Some(key), child);
    removed := m.Remove(key);
  }

  /** Inserting a second child under a key that is in use moves the key to
      the new child; the first child stays in the map and can no longer be
      removed by key. */
  method ReinsertKeepsEarlierChild<K(==)>(m: ChildrenMap<K>, key: K, first: LayoutChild, second: LayoutChild)
    returns (removed: Option<LayoutChild>)
    requires m.Valid() && first.id != second.id
    modifies m
    ensures removed == Some(second)
    ensures first.id in m.children && m.children[first.id] == first && key !in m.keysToId
  {
    m.Insert(Some(key), first);
    m.Insert(Some(key), second);
    removed := m.Remove(key);
  }

  /** `LayoutCommand`: the notices the layout sends when children come and
      go. */
  datatype LayoutCommand = ChildRemoved(id: U32) | ChildAdded(id: U32)

  /** `Layout`: the children map and the commands sent so far. */
  class Layout<K(==)> {
    const childrenMap: ChildrenMap<K>
    var commands: seq<LayoutCommand>

    /** `Builder::finish`: a layout over the children the builder
        collected, with nothing sent yet. */
    constructor Finish(built: ChildrenMap<K>)
      requires built.Valid()
      ensures childrenMap.Valid() && childrenMap == built && commands == []
    {
      childrenMap := built;
      commands := [];
    }

    /** `Layout::insert_registration`: announces the child, then stores it
        under its id and the key, if any. */
    method InsertRegistration(key: Option<K>, child: LayoutChild)
      requires childrenMap.Valid()
      modifies this, childrenMap
      ensures childrenMap.Valid()
      ensures commands == old(commands) + [ChildAdded(child.id)]
      ensures childrenMap.children == old(childrenMap.children)[child.id := child]
      ensures key.Some? ==> childrenMap.keysToId == old(childrenMap.keysToId)[key.value := child.id]
      ensures key.None? ==> childrenMap.keysToId == old(childrenMap.keysToId)
    {
      commands := commands + [ChildAdded(child.id)];
      childrenMap.Insert(key, child);
    }

    /** `Layout::remove_child`: true, with a removal notice, exactly when
        the key named a stored child; the key is forgotten either way. */
    method RemoveChild(key: K) returns (removed: bool)
      requires childrenMap.Valid()
      modifies this, childrenMap
      ensures childrenMap.Valid()
      ensures removed <==> key in old(childrenMap.keysToId) && old(childrenMap.keysToId)[key] in old(childrenMap.children)
      ensures removed ==> commands == old(commands) + [ChildRemoved(old(childrenMap.keysToId)[key])]
      ensures !removed ==> commands == old(commands)
      ensures childrenMap.keysToId == old(childrenMap.keysToId) - {key}
    {
      var child := childrenMap.Remove(key);
      if child.Some? {
        commands := commands + [ChildRemoved(child.value.id)];
        removed := true;
      } else {
        removed := false;
      }
    }
  }
}
