/** The widget tree of `crates/gooey-core/src/tree.rs`: an arena of nodes,
    each with its parent and its ordered children, grown by `new_child` and
    shrunk by dropping a `TreeScope`, leaves first. A scope is the id of its
    node; the arena's ids come from a counter and are never reused. */
module GooeyTree {
  import opened Common

  type WidgetId = nat

  datatype WidgetNode = WidgetNode(
    widget: string,
    name: Option<string>,
    id: Option<string>,
    parent: Option<WidgetId>,
    children: seq<WidgetId>)

  /** `children.retain(|child| id != *child)`: the children other than `id`,
      in order. */
  function Without(children: seq<WidgetId>, id: WidgetId): (r: seq<WidgetId>)
    ensures forall c :: c in r <==> c in children && c != id
    ensures |r| <= |children|
    ensures id !in children ==> r == children
  {
    if children == [] then []
    else if children[|children| - 1] == id then Without(children[..|children| - 1], id)
    else Without(children[..|children| - 1], id) + [children[|children| - 1]]
  }

  /** A node's parent exists and lists the node among its children. */
  ghost predicate ParentLinked(nodes: map<WidgetId, WidgetNode>, n: WidgetId)
    requires n in nodes
  {
    nodes[n].parent.Some? ==> nodes[n].parent.value in nodes && n in nodes[nodes[n].parent.value].children
  }

  /** Each of a node's children exists and names the node as its parent. */
  ghost predicate ChildrenLinked(nodes: map<WidgetId, WidgetNode>, n: WidgetId)
    requires n in nodes
  {
    forall c :: c in nodes[n].children ==> c in nodes && nodes[c].parent == Some(n)
  }

  ghost predicate Linked(nodes: map<WidgetId, WidgetNode>)
  {
    forall n | n in nodes :: ParentLinked(nodes, n) && ChildrenLinked(nodes, n)
  }

  /** The nodes after the leaf `id` is dropped: gone from the arena and from
      its parent's children. */
  function Dropped(nodes: map<WidgetId, WidgetNode>, id: WidgetId): map<WidgetId, WidgetNode>
    requires id in nodes
  {
    var parent := nodes[id].parent;
    if parent.Some? && parent.value in nodes && parent.value != id then
      var p := nodes[parent.value];
      (nodes - {id})[parent.value := p.(children := Without(p.children, id))]
    else nodes - {id}
  }

  /** The nodes after `new_child` under `parent` adds `node` as `child`. */
  function WithChild(nodes: map<WidgetId, WidgetNode>, parent: WidgetId, child: WidgetId, node: WidgetNode): map<WidgetId, WidgetNode>
    requires parent in nodes
  {
    nodes[parent := nodes[parent].(children := nodes[parent].children + [child])][child := node]
  }

  /** Dropping a fresh child's scope undoes `new_child`. */
  lemma DropUndoesNewChild(nodes: map<WidgetId, WidgetNode>, parent: WidgetId, child: WidgetId, node: WidgetNode)
    requires parent in nodes && child !in nodes && child !in nodes[parent].children
    requires node.parent == Some(parent)
    ensures Dropped(WithChild(nodes, parent, child, node), child) == nodes
  {
    var p := nodes[parent];
    assert Without(p.children + [child], child) == p.children by {
      assert (p.children + [child])[..|p.children|] == p.children;
    }
  }

  /** Dropping a leaf keeps every link of the tree. */
  lemma DroppedKeepsLinked(nodes: map<WidgetId, WidgetNode>, id: WidgetId)
    requires id in nodes && Linked(nodes) && nodes[id].children == []
    ensures Linked(Dropped(nodes, id))
    ensures id !in Dropped(nodes, id)
    ensures Dropped(nodes, id).Keys == nodes.Keys - {id}
  {
    var b := Dropped(nodes, id);
    forall n | n in b
      ensures ParentLinked(b, n) && ChildrenLinked(b, n)
    {
      assert ParentLinked(nodes, n) && ChildrenLinked(nodes, n);
      forall c | c in b[n].children
        ensures c in b && b[c].parent == Some(n)
      {
        assert c in nodes[n].children;
        assert c != id;
      }
      if nodes[n].parent.Some? {
        var p := nodes[n].parent.value;
        assert n in nodes[p].children;
      }
    }
  }

  /** `WidgetTree` and its `TreeScope`s. */
  class WidgetTree {
    var nodes: map<WidgetId, WidgetNode>
    var root: WidgetId
    var nextId: nat

    ghost predicate Valid()
      reads this
    {
      && Linked(nodes)
      && (forall n | n in nodes :: n < nextId)
      && root < nextId
    }

    /** `WidgetTree::new`: a tree holding only its root, which has no
        parent; the root's scope is `root`. */
    constructor(widget: string)
      ensures Valid()
      ensures nodes == map[root := WidgetNode(widget, None, None, None, [])]
    {
      nodes := map[0 := WidgetNode(widget, None, None, None, [])];
      root := 0;
      nextId := 1;
    }

    /** `TreeScope::new_child`: a fresh node under `parent`, appended to the
        parent's children. */
    method NewChild(parent: WidgetId, widget: string, name: Option<string>, id: Option<string>) returns (child: WidgetId)
      requires Valid() && parent in nodes
      modifies this
      ensures Valid() && root == old(root)
      ensures child !in old(nodes) && child != parent
      ensures nodes == WithChild(old(nodes), parent, child, WidgetNode(widget, name, id, Some(parent), []))
    {
      child := nextId;
      nextId := nextId + 1;
      var p := nodes[parent];
      assert child !in p.children by {
        assert ChildrenLinked(nodes, parent);
      }
      nodes := nodes[parent := p.(children := p.children + [child])][child := WidgetNode(widget, name, id, Some(parent), [])];
      assert Linked(nodes) by {
        forall n | n in nodes
          ensures ParentLinked(nodes, n) && ChildrenLinked(nodes, n)
        {
          if n != child {
            assert ParentLinked(old(nodes), n) && ChildrenLinked(old(nodes), n);
          }
        }
      }
    }

    /** Dropping the scope of `id`: the node leaves the arena and its
        parent's children. The source asserts that its children were
        dropped before it. */
    method Drop(id: WidgetId)
      requires Valid() && id in nodes && nodes[id].children == []
      modifies this
      ensures Valid() && root == old(root) && nextId == old(nextId)
      ensures nodes == Dropped(old(nodes), id)
    {
      DroppedKeepsLinked(nodes, id);
      var removed := nodes[id];
      nodes := nodes - {id};
      if removed.parent.Some? {
        var parentId := removed.parent.value;
        assert ParentLinked(old(nodes), id);
        var p := nodes[parentId];
        nodes := nodes[parentId := p.(children := Without(p.children, id))];
      }
    }
  }

  /** Dropping a child scope right after creating it gives the tree back. */
  method NewChildThenDrop(tree: WidgetTree, parent: WidgetId, widget: string)
    requires tree.Valid() && parent in tree.nodes
    modifies tree
    ensures tree.Valid() && tree.nodes == old(tree.nodes)
  {
    var child := tree.NewChild(parent, widget, None, None);
    ghost var before := old(tree.nodes);
    assert child !in before[parent].children by {
      assert ChildrenLinked(before, parent);
    }
    DropUndoesNewChild(before, parent, child, WidgetNode(widget, None, None, Some(parent), []));
    tree.Drop(child);
  }
}
