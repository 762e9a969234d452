/** The keyed tree of `src/widgets/tree.rs`. Its `IndexMap` is an order of
    keys, `order`, with the node of each key in `nodes`; a node records its
    parent, its depth and `shown`, the children whose widgets its
    `children` list held when it was last regenerated. Widgets themselves,
    the expand flags and the `Dynamic` wrapper are not modelled. */
module CushyTreeWidget {
  import opened Common

  type Key = nat

  datatype TreeNode = TreeNode(parent: Option<Key>, depth: nat, shown: seq<Key>)

  // ----- sequences of keys -------------------------------------------------

  predicate Distinct(s: seq<Key>)
  {
    forall i, j | 0 <= i < j < |s| :: s[i] != s[j]
  }

  /** The keys of `order` not in `removed`, in order: what repeated
      `shift_remove` leaves. */
  function Remaining(order: seq<Key>, removed: set<Key>): (r: seq<Key>)
    ensures |r| <= |order|
    ensures forall k | k in r :: k in order
  {
    if order == [] then []
    else (if order[0] in removed then [] else [order[0]]) + Remaining(order[1..], removed)
  }

  lemma {:induction false} RemainingMember(order: seq<Key>, removed: set<Key>, k: Key)
    ensures k in Remaining(order, removed) <==> k in order && k !in removed
  {
    if order != [] {
      RemainingMember(order[1..], removed, k);
      assert order == [order[0]] + order[1..];
    }
  }

  lemma {:induction false} RemainingDistinct(order: seq<Key>, removed: set<Key>)
    requires Distinct(order)
    ensures Distinct(Remaining(order, removed))
  {
    if order != [] {
      RemainingDistinct(order[1..], removed);
      RemainingMember(order[1..], removed, order[0]);
      assert order[0] !in order[1..];
    }
  }

  lemma {:induction false} RemainingNothing(order: seq<Key>)
    ensures Remaining(order, {}) == order
  {
    if order != [] {
      RemainingNothing(order[1..]);
      assert order == [order[0]] + order[1..];
    }
  }

  lemma {:induction false} RemainingShrinks(order: seq<Key>, removed: set<Key>, c: Key)
    requires c in order && c in removed
    ensures |Remaining(order, removed)| < |order|
  {
    if order[0] != c {
      assert c in order[1..];
      RemainingShrinks(order[1..], removed, c);
    }
  }

  lemma {:induction false} RemainingTwice(order: seq<Key>, removed: set<Key>, c: Key)
    ensures Remaining(Remaining(order, removed), {c}) == Remaining(order, removed + {c})
  {
    if order != [] {
      RemainingTwice(order[1..], removed, c);
      var rest := Remaining(order[1..], removed);
      if order[0] !in removed {
        var s := [order[0]] + rest;
        assert Remaining(order, removed) == s;
        assert s[1..] == rest && s[0] == order[0];
        assert Remaining(s, {c}) == (if order[0] == c then [] else [order[0]]) + Remaining(rest, {c});
      } else {
        assert Remaining(order, removed) == rest;
      }
    }
  }

  /** The keys of `order` whose parent is `p`, in order: `children_keys`. */
  function ChildrenOf(order: seq<Key>, nodes: map<Key, TreeNode>, p: Key): (r: seq<Key>)
    ensures |r| <= |order|
  {
    if order == [] then []
    else (if order[0] in nodes && nodes[order[0]].parent == Some(p) then [order[0]] else []) + ChildrenOf(order[1..], nodes, p)
  }

  lemma {:induction false} ChildrenOfMember(order: seq<Key>, nodes: map<Key, TreeNode>, p: Key, k: Key)
    ensures k in ChildrenOf(order, nodes, p) <==> k in order && k in nodes && nodes[k].parent == Some(p)
  {
    if order != [] {
      ChildrenOfMember(order[1..], nodes, p, k);
      assert order == [order[0]] + order[1..];
    }
  }

  lemma {:induction false} ChildrenOfAppend(a: seq<Key>, b: seq<Key>, nodes: map<Key, TreeNode>, p: Key)
    ensures ChildrenOf(a + b, nodes, p) == ChildrenOf(a, nodes, p) + ChildrenOf(b, nodes, p)
  {
    if a != [] {
      var s := a + b;
      assert s[0] == a[0] && s[1..] == a[1..] + b;
      ChildrenOfAppend(a[1..], b, nodes, p);
      var head := if a[0] in nodes && nodes[a[0]].parent == Some(p) then [a[0]] else [];
      assert ChildrenOf(s, nodes, p) == head + ChildrenOf(s[1..], nodes, p);
      assert ChildrenOf(a, nodes, p) == head + ChildrenOf(a[1..], nodes, p);
    } else {
      assert a + b == b;
    }
  }

  /** A child of `p` at the end of a sequence ends its children. */
  lemma ChildrenOfLast(s: seq<Key>, nodes: map<Key, TreeNode>, p: Key)
    requires s != [] && s[|s| - 1] in nodes && nodes[s[|s| - 1]].parent == Some(p)
    ensures ChildrenOf(s, nodes, p) == ChildrenOf(s[..|s| - 1], nodes, p) + [s[|s| - 1]]
  {
    var last := s[|s| - 1];
    assert s == s[..|s| - 1] + [last];
    ChildrenOfAppend(s[..|s| - 1], [last], nodes, p);
    assert ChildrenOf([last], nodes, p) == [last] by {
      assert [last][1..] == [];
    }
  }

  /** Only the parents of the listed keys matter. */
  lemma {:induction false} ChildrenOfSameParents(order: seq<Key>, a: map<Key, TreeNode>, b: map<Key, TreeNode>, p: Key)
    requires forall k | k in order :: (k in a <==> k in b) && (k in a ==> a[k].parent == b[k].parent)
    ensures ChildrenOf(order, a, p) == ChildrenOf(order, b, p)
  {
    if order != [] {
      ChildrenOfSameParents(order[1..], a, b, p);
    }
  }

  /** Removing keys that are not children of `p` leaves the children of `p`. */
  lemma {:induction false} ChildrenOfRemaining(order: seq<Key>, nodes: map<Key, TreeNode>, removed: set<Key>, p: Key)
    requires forall k | k in order && k in removed && k in nodes :: nodes[k].parent != Some(p)
    ensures ChildrenOf(Remaining(order, removed), nodes, p) == ChildrenOf(order, nodes, p)
  {
    if order != [] {
      ChildrenOfRemaining(order[1..], nodes, removed, p);
      var rest := Remaining(order[1..], removed);
      if order[0] !in removed {
        var s := [order[0]] + rest;
        assert Remaining(order, removed) == s;
        assert s[1..] == rest && s[0] == order[0];
        assert ChildrenOf(s, nodes, p) == (if order[0] in nodes && nodes[order[0]].parent == Some(p) then [order[0]] else []) + ChildrenOf(rest, nodes, p);
      } else {
        assert Remaining(order, removed) == rest;
      }
    }
  }

  // ----- the shape of the tree ---------------------------------------------

  /** A root has depth 0; any other node's parent exists and the node is
      one level below it. */
  ghost predicate Placed(nodes: map<Key, TreeNode>, k: Key)
    requires k in nodes
  {
    match nodes[k].parent
    case None => nodes[k].depth == 0
    case Some(q) => q in nodes && nodes[k].depth == nodes[q].depth + 1
  }

  ghost predicate AllPlaced(nodes: map<Key, TreeNode>)
  {
    forall k {:trigger Placed(nodes, k)} | k in nodes :: Placed(nodes, k)
  }

  /** `d` is `a` or lies below it. */
  ghost predicate IsDescendant(nodes: map<Key, TreeNode>, d: Key, a: Key)
    requires AllPlaced(nodes) && d in nodes
    decreases nodes[d].depth
  {
    assert Placed(nodes, d);
    d == a || (nodes[d].parent.Some? && IsDescendant(nodes, nodes[d].parent.value, a))
  }

  lemma {:induction false} DescendantIsDeeper(nodes: map<Key, TreeNode>, d: Key, a: Key)
    requires AllPlaced(nodes) && d in nodes && a in nodes && IsDescendant(nodes, d, a)
    ensures nodes[d].depth >= nodes[a].depth
    decreases nodes[d].depth
  {
    assert Placed(nodes, d);
    if d != a {
      DescendantIsDeeper(nodes, nodes[d].parent.value, a);
    }
  }

  /** The subtree of `a`: `a` and every node below it. */
  ghost function Subtree(nodes: map<Key, TreeNode>, a: Key): (r: set<Key>)
    requires AllPlaced(nodes)
    ensures forall k :: k in r <==> k in nodes && IsDescendant(nodes, k, a)
  {
    set k | k in nodes && IsDescendant(nodes, k, a)
  }

  lemma {:induction false} SubtreeIsDeeper(nodes: map<Key, TreeNode>, a: Key, q: Key)
    requires AllPlaced(nodes) && a in nodes && q in nodes && nodes[q].depth < nodes[a].depth
    ensures q !in Subtree(nodes, a)
  {
    if IsDescendant(nodes, q, a) {
      DescendantIsDeeper(nodes, q, a);
    }
  }

  // ----- the whole map -----------------------------------------------------

  ghost predicate KeysListed(order: seq<Key>, nodes: map<Key, TreeNode>)
  {
    forall k :: k in order <==> k in nodes
  }

  /** Every node's `shown` list is its children in map order. */
  ghost predicate ShownCurrent(order: seq<Key>, nodes: map<Key, TreeNode>)
  {
    forall k {:trigger nodes[k].shown} | k in nodes :: nodes[k].shown == ChildrenOf(order, nodes, k)
  }

  /** The invariant of `Tree`: `order` lists each key of `nodes` once, keys
      come from the counter, depths follow parents, and each node shows its
      current children. */
  ghost predicate WellFormed(order: seq<Key>, nodes: map<Key, TreeNode>, nextKey: nat)
  {
    && Distinct(order)
    && KeysListed(order, nodes)
    && (forall k | k in nodes :: k < nextKey)
    && AllPlaced(nodes)
    && ShownCurrent(order, nodes)
  }

  /** A fresh node: no children shown yet. */
  function AddNode(nodes: map<Key, TreeNode>, k: Key, parent: Option<Key>, depth: nat): map<Key, TreeNode>
  {
    nodes[k := TreeNode(parent, depth, [])]
  }

  /** The nodes after `update_children_widgetlist(parent)`. */
  function Refreshed(order: seq<Key>, nodes: map<Key, TreeNode>, parent: Option<Key>): map<Key, TreeNode>
  {
    if parent.Some? && parent.value in nodes then nodes[parent.value := nodes[parent.value].(shown := ChildrenOf(order, nodes, parent.value))]
    else nodes
  }

  lemma {:induction false} NoChildren(order: seq<Key>, nodes: map<Key, TreeNode>, p: Key)
    requires forall k | k in order && k in nodes :: nodes[k].parent != Some(p)
    ensures ChildrenOf(order, nodes, p) == []
  {
    if order != [] {
      NoChildren(order[1..], nodes, p);
    }
  }

  /** The children of `q` once a node under `parent` is inserted as `k`
      between `a` and `b`. */
  lemma InsertedChildren(a: seq<Key>, b: seq<Key>, nodes: map<Key, TreeNode>, k: Key, parent: Option<Key>, depth: nat, q: Key)
    requires forall x | x in a + b :: x in nodes
    requires k !in nodes
    ensures ChildrenOf(a + [k] + b, AddNode(nodes, k, parent, depth), q)
      == ChildrenOf(a, nodes, q) + (if parent == Some(q) then [k] else []) + ChildrenOf(b, nodes, q)
  {
    var n1 := AddNode(nodes, k, parent, depth);
    assert forall x | x in a :: x in a + b;
    assert forall x | x in b :: x in a + b;
    ChildrenOfAppend(a + [k], b, n1, q);
    ChildrenOfAppend(a, [k], n1, q);
    ChildrenOfSameParents(a, n1, nodes, q);
    ChildrenOfSameParents(b, n1, nodes, q);
    assert ChildrenOf([k], n1, q) == (if parent == Some(q) then [k] else []) by {
      assert [k][1..] == [];
    }
  }

  lemma InsertDistinct(a: seq<Key>, b: seq<Key>, k: Key)
    requires Distinct(a + b) && k !in a + b
    ensures Distinct(a + [k] + b)
  {
    var o := a + [k] + b;
    forall i, j | 0 <= i < j < |o|
      ensures o[i] != o[j]
    {
      if i < |a| && j > |a| {
        assert o[i] == (a + b)[i] && o[j] == (a + b)[j - 1];
      } else if i > |a| {
        assert o[i] == (a + b)[i - 1] && o[j] == (a + b)[j - 1];
      } else if j < |a| {
        assert o[i] == (a + b)[i] && o[j] == (a + b)[j];
      } else if i == |a| {
        assert o[j] == (a + b)[j - 1];
      } else {
        assert o[i] == (a + b)[i];
      }
    }
  }

  lemma InsertPlaced(nodes: map<Key, TreeNode>, k: Key, parent: Option<Key>, depth: nat)
    requires AllPlaced(nodes) && k !in nodes
    requires parent.Some? ==> parent.value in nodes && depth == nodes[parent.value].depth + 1
    requires parent.None? ==> depth == 0
    ensures AllPlaced(AddNode(nodes, k, parent, depth))
  {
    var n1 := AddNode(nodes, k, parent, depth);
    forall q | q in n1
      ensures Placed(n1, q)
    {
      if q != k {
        assert Placed(nodes, q);
      }
    }
  }

  /** Regenerating a list changes no parent and no depth. */
  lemma RefreshedPlaced(order: seq<Key>, nodes: map<Key, TreeNode>, parent: Option<Key>)
    requires AllPlaced(nodes)
    ensures AllPlaced(Refreshed(order, nodes, parent))
    ensures Refreshed(order, nodes, parent).Keys == nodes.Keys
  {
    var n2 := Refreshed(order, nodes, parent);
    forall q | q in n2
      ensures Placed(n2, q)
    {
      assert Placed(nodes, q);
    }
  }

  /** Regenerating the list of `parent` makes every list current once the
      others are. */
  lemma RefreshedShown(order: seq<Key>, nodes: map<Key, TreeNode>, parent: Option<Key>)
    requires forall q | q in nodes && Some(q) != parent :: nodes[q].shown == ChildrenOf(order, nodes, q)
    ensures ShownCurrent(order, Refreshed(order, nodes, parent))
  {
    var n2 := Refreshed(order, nodes, parent);
    forall q | q in n2
      ensures n2[q].shown == ChildrenOf(order, n2, q)
    {
      ChildrenOfSameParents(order, n2, nodes, q);
    }
  }

  /** After an insertion every list but the parent's is still current. */
  lemma InsertShownOthers(a: seq<Key>, b: seq<Key>, nodes: map<Key, TreeNode>, k: Key, parent: Option<Key>, depth: nat)
    requires forall x | x in a + b :: x in nodes
    requires k !in nodes && AllPlaced(nodes)
    requires ShownCurrent(a + b, nodes)
    ensures forall q | q in AddNode(nodes, k, parent, depth) && Some(q) != parent ::
      AddNode(nodes, k, parent, depth)[q].shown == ChildrenOf(a + [k] + b, AddNode(nodes, k, parent, depth), q)
  {
    var n1 := AddNode(nodes, k, parent, depth);
    InsertedChildren(a, b, nodes, k, parent, depth, k);
    forall q | q in n1 && Some(q) != parent
      ensures n1[q].shown == ChildrenOf(a + [k] + b, n1, q)
    {
      InsertedChildren(a, b, nodes, k, parent, depth, q);
      ChildrenOfAppend(a, b, nodes, q);
      if q == k {
        assert forall x | x in a :: x in a + b;
        assert forall x | x in b :: x in a + b;
        forall x | x in a + b
          ensures nodes[x].parent != Some(k)
        {
          assert Placed(nodes, x);
        }
        NoChildren(a, nodes, k);
        NoChildren(b, nodes, k);
      }
    }
  }

  /** Inserting a fresh key between `a` and `b` under `parent`, one level
      below it (or as a root), then regenerating the parent's list, keeps
      the invariant. */
  lemma InsertKeepsWellFormed(a: seq<Key>, b: seq<Key>, nodes: map<Key, TreeNode>, nextKey: nat, parent: Option<Key>, depth: nat)
    requires WellFormed(a + b, nodes, nextKey)
    requires parent.Some? ==> parent.value in nodes && depth == nodes[parent.value].depth + 1
    requires parent.None? ==> depth == 0
    ensures WellFormed(a + [nextKey] + b, Refreshed(a + [nextKey] + b, AddNode(nodes, nextKey, parent, depth), parent), nextKey + 1)
  {
    var k := nextKey;
    var o1 := a + [k] + b;
    var n1 := AddNode(nodes, k, parent, depth);
    assert k !in nodes;
    InsertShownOthers(a, b, nodes, k, parent, depth);
    InsertDistinct(a, b, k);
    InsertPlaced(nodes, k, parent, depth);
    RefreshedPlaced(o1, n1, parent);
    RefreshedShown(o1, n1, parent);
    assert KeysListed(o1, n1) by {
      assert forall x | x in o1 :: x in a + b || x == k;
      assert forall x | x in a + b :: x in o1;
    }
  }

  /** Removing the subtree of `key` keeps the invariant once the list of its
      parent is regenerated. */
  lemma RemovedSubtreeKeeps(order: seq<Key>, nodes: map<Key, TreeNode>, nextKey: nat, key: Key)
    requires WellFormed(order, nodes, nextKey) && key in nodes
    ensures nodes[key].parent.Some? ==> nodes[key].parent.value in nodes - Subtree(nodes, key)
    ensures WellFormed(Remaining(order, Subtree(nodes, key)),
      Refreshed(Remaining(order, Subtree(nodes, key)), nodes - Subtree(nodes, key), nodes[key].parent), nextKey)
  {
    var sub := Subtree(nodes, key);
    var o1 := Remaining(order, sub);
    var n1 := nodes - sub;
    var parent := nodes[key].parent;
    RemainingDistinct(order, sub);
    forall k
      ensures k in o1 <==> k in n1
    {
      RemainingMember(order, sub, k);
    }
    forall q | q in n1
      ensures Placed(n1, q)
    {
      assert Placed(nodes, q);
      assert !IsDescendant(nodes, q, key);
    }
    if parent.Some? {
      assert Placed(nodes, key);
      SubtreeIsDeeper(nodes, key, parent.value);
    }
    forall q | q in n1 && Some(q) != parent
      ensures n1[q].shown == ChildrenOf(o1, n1, q)
    {
      forall x | x in order && x in sub
        ensures nodes[x].parent != Some(q)
      {
        assert Placed(nodes, x);
        assert !IsDescendant(nodes, q, key);
      }
      ChildrenOfRemaining(order, nodes, sub, q);
      ChildrenOfSameParents(o1, n1, nodes, q);
    }
    RefreshedPlaced(o1, n1, parent);
    RefreshedShown(o1, n1, parent);
  }

  /** Once nothing is left to visit, every node below a removed one has
      been removed, so the whole subtree has. */
  lemma {:induction false} SubtreeRemoved(nodes: map<Key, TreeNode>, key: Key, removed: set<Key>, d: Key)
    requires AllPlaced(nodes) && d in nodes && IsDescendant(nodes, d, key)
    requires key in removed
    requires forall ch | ch in nodes && nodes[ch].parent.Some? && nodes[ch].parent.value in removed :: ch in removed
    ensures d in removed
    decreases nodes[d].depth
  {
    assert Placed(nodes, d);
    if d != key {
      SubtreeRemoved(nodes, key, removed, nodes[d].parent.value);
    }
  }

  /** One visit of the walk: removing a node of the subtree and pushing
      its children keeps the walk's invariant. */
  lemma RemoveStep(o0: seq<Key>, n0: map<Key, TreeNode>, key: Key, removed: set<Key>, current: Key)
    requires KeysListed(o0, n0) && AllPlaced(n0)
    requires current in n0 && current !in removed && IsDescendant(n0, current, key)
    ensures forall x | x in ChildrenOf(Remaining(o0, removed + {current}), n0 - (removed + {current}), current) ::
      x in n0 && IsDescendant(n0, x, key)
    ensures forall ch | ch in n0 && n0[ch].parent == Some(current) ::
      ch in removed + {current} || ch in ChildrenOf(Remaining(o0, removed + {current}), n0 - (removed + {current}), current)
  {
    var r1 := removed + {current};
    var o1 := Remaining(o0, r1);
    var n1 := n0 - r1;
    forall x | x in ChildrenOf(o1, n1, current)
      ensures x in n0 && IsDescendant(n0, x, key)
    {
      ChildrenOfMember(o1, n1, current, x);
      assert Placed(n0, x);
    }
    forall ch | ch in n0 && n0[ch].parent == Some(current) && ch !in r1
      ensures ch in ChildrenOf(o1, n1, current)
    {
      RemainingMember(o0, r1, ch);
      ChildrenOfMember(o1, n1, current, ch);
    }
  }

  /** The walk's invariant: what was removed, and what waits on the stack,
      lies in the subtree, `key` is removed or waiting, and every child of a
      removed node is removed or waiting. */
  ghost predicate WalkInvariant(n0: map<Key, TreeNode>, key: Key, removed: set<Key>, stack: seq<Key>)
    requires AllPlaced(n0)
  {
    && removed <= Subtree(n0, key)
    && (forall x | x in stack :: x in Subtree(n0, key))
    && (key in removed || key in stack)
    && (forall ch | ch in n0 && n0[ch].parent.Some? && n0[ch].parent.value in removed :: ch in removed || ch in stack)
  }

  /** Visiting a node still in the map: it is removed and its remaining
      children are pushed. */
  lemma WalkStep(o0: seq<Key>, n0: map<Key, TreeNode>, key: Key, removed: set<Key>, rest: seq<Key>, current: Key)
    requires KeysListed(o0, n0) && AllPlaced(n0)
    requires current in n0 && current !in removed
    requires WalkInvariant(n0, key, removed, rest + [current])
    ensures WalkInvariant(n0, key, removed + {current},
      rest + ChildrenOf(Remaining(o0, removed + {current}), n0 - (removed + {current}), current))
  {
    var sub := Subtree(n0, key);
    assert current in rest + [current];
    RemoveStep(o0, n0, key, removed, current);
    var pushed := ChildrenOf(Remaining(o0, removed + {current}), n0 - (removed + {current}), current);
    forall ch | ch in n0 && n0[ch].parent.Some? && n0[ch].parent.value in removed + {current}
      ensures ch in removed + {current} || ch in rest + pushed
    {
      if n0[ch].parent.value == current {
        assert ch in removed + {current} || ch in pushed;
      } else {
        assert ch in removed || ch in rest + [current];
      }
    }
    assert key in removed + {current} || key in rest + pushed by {
      assert key in removed || key in rest + [current];
    }
  }

  /** Popping a node that is already gone. */
  lemma WalkSkip(n0: map<Key, TreeNode>, key: Key, removed: set<Key>, rest: seq<Key>, current: Key)
    requires AllPlaced(n0)
    requires current !in n0 - removed
    requires WalkInvariant(n0, key, removed, rest + [current])
    ensures WalkInvariant(n0, key, removed, rest)
  {
    assert current in rest + [current];
    forall ch | ch in n0 && n0[ch].parent.Some? && n0[ch].parent.value in removed
      ensures ch in removed || ch in rest
    {
      assert ch in removed || ch in rest + [current];
    }
  }

  lemma SubtractTwice(nodes: map<Key, TreeNode>, removed: set<Key>, c: Key)
    ensures (nodes - removed) - {c} == nodes - (removed + {c})
  {
  }

  /** The position of `k` in `order`: what `get_full` finds. */
  function IndexOf(order: seq<Key>, k: Key): (i: nat)
    requires k in order
    ensures i < |order| && order[i] == k
    ensures forall j | 0 <= j < i :: order[j] != k
  {
    if order[0] == k then 0 else IndexOf(order[1..], k) + 1
  }

  /** Among the children of the sibling's parent, the key inserted after
      the sibling comes right after it. */
  lemma InsertedAfterSibling(order: seq<Key>, nodes: map<Key, TreeNode>, sibling: Key, k: Key, depth: nat)
    requires forall x | x in order :: x in nodes
    requires sibling in order && k !in nodes && nodes[sibling].parent.Some?
    ensures var i := IndexOf(order, sibling);
      var p := nodes[sibling].parent.value;
      var before := ChildrenOf(order, nodes, p);
      var after := ChildrenOf(order[..i + 1] + [k] + order[i + 1..], AddNode(nodes, k, Some(p), depth), p);
      exists j :: 0 <= j < |before| && before[j] == sibling && after == before[..j + 1] + [k] + before[j + 1..]
  {
    var i := IndexOf(order, sibling);
    var p := nodes[sibling].parent.value;
    var a := order[..i + 1];
    var b := order[i + 1..];
    assert order == a + b;
    InsertedChildren(a, b, nodes, k, Some(p), depth, p);
    ChildrenOfAppend(a, b, nodes, p);
    ChildrenOfLast(a, nodes, p);
    var head := ChildrenOf(a, nodes, p);
    var before := ChildrenOf(order, nodes, p);
    var j := |head| - 1;
    assert before == head + ChildrenOf(b, nodes, p);
    assert before[..j + 1] == head && before[j + 1..] == ChildrenOf(b, nodes, p);
    assert before[j] == sibling;
  }

  /** `Tree`: the ordered map of nodes and the counter of keys. */
  class Tree {
    var order: seq<Key>
    var nodes: map<Key, TreeNode>
    var nextKey: nat

    ghost predicate Valid()
      reads this
    {
      WellFormed(order, nodes, nextKey)
    }

    /** `Tree::default`: no nodes, and the first key is 0. */
    constructor()
      ensures Valid() && order == [] && nodes == map[] && nextKey == 0
    {
      order := [];
      nodes := map[];
      nextKey := 0;
    }

    /** `children_keys`: the keys whose parent is `p`, in map order. A
        node's own list of children always shows exactly these. */
    function ChildrenKeys(p: Key): (r: seq<Key>)
      reads this
      ensures Valid() && p in nodes ==> r == nodes[p].shown
      ensures forall k :: k in r <==> k in order && k in nodes && nodes[k].parent == Some(p)
    {
      assert forall k :: k in ChildrenOf(order, nodes, p) <==> k in order && k in nodes && nodes[k].parent == Some(p) by {
        forall k {
          ChildrenOfMember(order, nodes, p, k);
        }
      }
      ChildrenOf(order, nodes, p)
    }

    /** `generate_next_key`: the counter's value, and the counter moves on. */
    method GenerateNextKey() returns (key: Key)
      modifies this`nextKey
      ensures key == old(nextKey) && nextKey == old(nextKey) + 1
    {
      key := nextKey;
      nextKey := nextKey + 1;
    }

    /** `update_children_widgetlist`: regenerate the list of `parent`. */
    method UpdateChildrenWidgetList(parent: Option<Key>)
      requires parent.Some? ==> parent.value in nodes
      modifies this`nodes
      ensures nodes == Refreshed(order, old(nodes), parent)
    {
      if parent.Some? {
        var p := parent.value;
        nodes := nodes[p := nodes[p].(shown := ChildrenOf(order, nodes, p))];
      }
    }

    /** `insert_child_with_key`: a root at depth 0, or a child one level
        below an existing parent, added at the end of the map under a fresh
        key, and the parent's list regenerated; with a missing parent
        nothing is inserted and no key is used. */
    method InsertChild(parent: Option<Key>) returns (key: Option<Key>)
      requires Valid()
      modifies this
      ensures Valid()
      ensures parent.Some? && parent.value !in old(nodes) ==>
        key.None? && order == old(order) && nodes == old(nodes) && nextKey == old(nextKey)
      ensures parent.None? || parent.value in old(nodes) ==>
        var depth := if parent.Some? then old(nodes)[parent.value].depth + 1 else 0;
        && key == Some(old(nextKey)) && nextKey == old(nextKey) + 1
        && order == old(order) + [key.value]
        && nodes == Refreshed(order, AddNode(old(nodes), key.value, parent, depth), parent)
    {
      var depth: nat := 0;
      if parent.Some? {
        if parent.value !in nodes {
          return None;
        }
        depth := nodes[parent.value].depth + 1;
      }
      assert order + [] == order;
      InsertKeepsWellFormed(order, [], nodes, nextKey, parent, depth);
      var k := GenerateNextKey();
      order := order + [k] + [];
      nodes := AddNode(nodes, k, parent, depth);
      UpdateChildrenWidgetList(parent);
      key := Some(k);
    }

    /** `insert_after_with_key`: a fresh key right after `sibling` in the
        map, with the sibling's parent and depth, and the parent's list
        regenerated; nothing is inserted after a root. The source unwraps
        the sibling's node, so it must exist. */
    method InsertAfter(sibling: Key) returns (key: Option<Key>)
      requires Valid() && sibling in nodes
      modifies this
      ensures Valid()
      ensures old(nodes)[sibling].parent.None? ==>
        key.None? && order == old(order) && nodes == old(nodes) && nextKey == old(nextKey)
      ensures old(nodes)[sibling].parent.Some? ==>
        var i := IndexOf(old(order), sibling);
        && key == Some(old(nextKey)) && nextKey == old(nextKey) + 1
        && order == old(order)[..i + 1] + [key.value] + old(order)[i + 1..]
        && nodes == Refreshed(order, AddNode(old(nodes), key.value, old(nodes)[sibling].parent, old(nodes)[sibling].depth), old(nodes)[sibling].parent)
    {
      var parent := nodes[sibling].parent;
      if parent.None? {
        return None;
      }
      var i := IndexOf(order, sibling);
      var depth := nodes[sibling].depth;
      assert Placed(nodes, sibling);
      var a := order[..i + 1];
      var b := order[i + 1..];
      assert order == a + b;
      InsertKeepsWellFormed(a, b, nodes, nextKey, parent, depth);
      var k := GenerateNextKey();
      order := a + [k] + b;
      nodes := AddNode(nodes, k, parent, depth);
      UpdateChildrenWidgetList(parent);
      key := Some(k);
    }

    /** `clear`: no nodes, and keys start again from 0. */
    method Clear()
      modifies this
      ensures Valid() && order == [] && nodes == map[] && nextKey == 0
    {
      order := [];
      nodes := map[];
      nextKey := 0;
    }

    /** The walk of `remove_node`: a stack starting at `key`; each visited
        node leaves the map and its children are pushed. It removes exactly
        the subtree of `key`, keeping the order of the rest. */
    method RemoveSubtree(key: Key)
      requires KeysListed(order, nodes) && AllPlaced(nodes) && key in nodes
      modifies this`order, this`nodes
      ensures order == Remaining(old(order), Subtree(old(nodes), key))
      ensures nodes == old(nodes) - Subtree(old(nodes), key)
    {
      ghost var n0 := nodes;
      ghost var o0 := order;
      ghost var sub := Subtree(n0, key);
      RemainingNothing(order);
      var toRemove := [key];
      ghost var removed: set<Key> := {};
      while toRemove != []
        invariant order == Remaining(o0, removed) && nodes == n0 - removed
        invariant WalkInvariant(n0, key, removed, toRemove)
        decreases |order|, |toRemove|
      {
        ghost var stack := toRemove;
        var current := toRemove[|toRemove| - 1];
        toRemove := toRemove[..|toRemove| - 1];
        assert toRemove + [current] == stack;
        if current in nodes {
          RemainingMember(o0, removed, current);
          WalkStep(o0, n0, key, removed, toRemove, current);
          RemainingTwice(o0, removed, current);
          RemainingShrinks(order, {current}, current);
          SubtractTwice(n0, removed, current);
          nodes := nodes - {current};
          order := Remaining(order, {current});
          removed := removed + {current};
          toRemove := toRemove + ChildrenOf(order, nodes, current);
        } else {
          WalkSkip(n0, key, removed, toRemove, current);
        }
      }
      forall d | d in sub
        ensures d in removed
      {
        SubtreeRemoved(n0, key, removed, d);
      }
      assert removed == sub;
    }

    /** `remove_node`: the node and every node below it go, and nothing
        else, keeping the order of the rest; the parent's list is
        regenerated. A missing key changes nothing. */
    method RemoveNode(key: Key)
      requires Valid()
      modifies this
      ensures Valid() && nextKey == old(nextKey)
      ensures key !in old(nodes) ==> order == old(order) && nodes == old(nodes)
      ensures key in old(nodes) ==>
        var sub := Subtree(old(nodes), key);
        && order == Remaining(old(order), sub)
        && nodes == Refreshed(order, old(nodes) - sub, old(nodes)[key].parent)
    {
      if key !in nodes {
        return;
      }
      RemovedSubtreeKeeps(order, nodes, nextKey, key);
      var parentKey := nodes[key].parent;
      RemoveSubtree(key);
      UpdateChildrenWidgetList(parentKey);
    }
  }
}
