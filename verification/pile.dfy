/** The data behind a pile of widgets (src/widgets/pile.rs): slots for the
    piled widgets, the queue of visible ids whose front is shown, and
    whether showing moves the focus. Slot ids are allocated from a counter
    and never reused. */
module CushyPile {
  import opened Common

  /** A widget placed in the pile; only its identity matters here. */
  datatype WidgetInstance = WidgetInstance(id: nat)

  /** The queue without the first occurrence of `x`; without `x` in it,
      the queue itself. */
  function RemoveFirst(s: seq<nat>, x: nat): (r: seq<nat>)
    ensures x !in s ==> r == s
    ensures x in s ==> |r| == |s| - 1
  {
    if s == [] then []
    else if s[0] == x then s[1..]
    else [s[0]] + RemoveFirst(s[1..], x)
  }

  /** Removing the first occurrence takes exactly one `x` away, if there is
      one, and keeps every other id. */
  lemma {:induction false} RemoveFirstMultiset(s: seq<nat>, x: nat)
    ensures multiset(RemoveFirst(s, x)) == multiset(s) - multiset{x}
  {
    if s != [] {
      assert s == [s[0]] + s[1..];
      if s[0] != x {
        RemoveFirstMultiset(s[1..], x);
      }
    }
  }

  /** Removing the first occurrence of `x`, found at `i`, cuts out that
      place. */
  lemma {:induction false} RemoveFirstAt(s: seq<nat>, i: nat, x: nat)
    requires i < |s| && s[i] == x && x !in s[..i]
    ensures RemoveFirst(s, x) == s[..i] + s[i + 1..]
    decreases i
  {
    if i > 0 {
      assert s[0] != x by { assert s[0] == s[..i][0]; }
      assert x !in s[1..][..i - 1] by { assert s[1..][..i - 1] == s[1..i]; }
      RemoveFirstAt(s[1..], i - 1, x);
      assert s[..i] == [s[0]] + s[1..][..i - 1];
      assert s[i + 1..] == s[1..][i..];
    }
  }

  /** A queue without repeats keeps none when an id not in it is put in
      front. */
  lemma DistinctCons(a: nat, t: seq<nat>)
    requires Distinct(t) && a !in t
    ensures Distinct([a] + t)
  {
    var r := [a] + t;
    forall i, j | 0 <= i < j < |r|
      ensures r[i] != r[j]
    {
      assert r[j] == t[j - 1];
      if i > 0 {
        assert r[i] == t[i - 1];
      }
    }
  }

  /** The tail of a queue without repeats has none and lacks the head. */
  lemma DistinctTail(s: seq<nat>)
    requires Distinct(s) && s != []
    ensures Distinct(s[1..]) && s[0] !in s[1..]
  {
    forall i, j | 0 <= i < j < |s| - 1
      ensures s[1..][i] != s[1..][j]
    {
      assert s[1..][i] == s[i + 1] && s[1..][j] == s[j + 1];
    }
    forall k | 0 <= k < |s| - 1
      ensures s[1..][k] != s[0]
    {
      assert s[1..][k] == s[k + 1];
    }
  }

  /** In a queue without repeats, removing the first occurrence of `x`
      removes `x` altogether and keeps the other ids, without repeats. */
  lemma {:induction false} DistinctRemoveFirst(s: seq<nat>, x: nat)
    requires Distinct(s)
    ensures Distinct(RemoveFirst(s, x))
    ensures forall y :: y in RemoveFirst(s, x) <==> y in s && y != x
  {
    if s != [] {
      DistinctTail(s);
      assert s == [s[0]] + s[1..];
      if s[0] != x {
        DistinctRemoveFirst(s[1..], x);
        DistinctCons(s[0], RemoveFirst(s[1..], x));
      }
    }
  }

  /** Slot ids and queued ids were handed out by the counter, and no id is
      queued twice. */
  predicate PileInvariant(widgets: map<nat, Option<WidgetInstance>>, nextId: nat, visible: seq<nat>)
  {
    && Distinct(visible)
    && (forall id :: id in widgets ==> id < nextId)
    && (forall id :: id in visible ==> id < nextId)
  }

  /** Every queued id has a slot. */
  predicate AllShowable(visible: seq<nat>, widgets: map<nat, Option<WidgetInstance>>)
  {
    forall id :: id in visible ==> id in widgets
  }

  /** Removing an id from the queue and its slot keeps the invariant, the
      id is queued no more, and queued ids keep their slots. */
  lemma RemoveKeepsInvariant(widgets: map<nat, Option<WidgetInstance>>, nextId: nat, visible: seq<nat>, id: nat)
    requires PileInvariant(widgets, nextId, visible)
    ensures PileInvariant(widgets - {id}, nextId, RemoveFirst(visible, id)) && id !in RemoveFirst(visible, id)
    ensures AllShowable(visible, widgets) ==> AllShowable(RemoveFirst(visible, id), widgets - {id})
  {
    DistinctRemoveFirst(visible, id);
  }

  /** The visible queue once `id` is shown: moved (or put) to the front. */
  function ShowQueue(visible: seq<nat>, id: nat): seq<nat>
  {
    [id] + RemoveFirst(visible, id)
  }

  /** Showing an id in a queue without repeats puts it at the front exactly
      once, and every other id keeps its presence or its absence. */
  lemma ShowQueueFront(visible: seq<nat>, id: nat)
    requires Distinct(visible)
    ensures Distinct(ShowQueue(visible, id))
    ensures ShowQueue(visible, id)[0] == id && id !in ShowQueue(visible, id)[1..]
    ensures forall other :: other != id ==> (other in ShowQueue(visible, id) <==> other in visible)
  {
    DistinctRemoveFirst(visible, id);
    DistinctCons(id, RemoveFirst(visible, id));
    assert ShowQueue(visible, id)[1..] == RemoveFirst(visible, id);
  }

  /** Showing an id with a number from the counter keeps the invariant, and
      with a slot for the id, queued ids keep their slots. */
  lemma ShowKeepsInvariant(widgets: map<nat, Option<WidgetInstance>>, nextId: nat, visible: seq<nat>, id: nat)
    requires PileInvariant(widgets, nextId, visible) && id < nextId
    ensures PileInvariant(widgets, nextId, ShowQueue(visible, id))
    ensures AllShowable(visible, widgets) && id in widgets ==> AllShowable(ShowQueue(visible, id), widgets)
  {
    ShowQueueFront(visible, id);
  }

  /** The data of a pile (`PileData`). */
  class PileData {
    /** The slots, `None` while a pending widget is not yet finished. */
    var widgets: map<nat, Option<WidgetInstance>>
    /** The next slot id to hand out. */
    var nextId: nat
    /** The visible queue; its front is the widget shown. */
    var visible: seq<nat>
    var focusOnShow: bool

    /** Ids were handed out by the counter, and no id is queued twice. */
    ghost predicate Valid()
      reads this
    {
      PileInvariant(widgets, nextId, visible)
    }

    /** Every queued id has a slot, so the widget shown exists. */
    ghost predicate Showable()
      reads this
    {
      AllShowable(visible, widgets)
    }

    /** An empty pile. */
    constructor()
      ensures Valid() && Showable()
      ensures widgets == map[] && nextId == 0 && visible == [] && !focusOnShow
    {
      widgets, nextId, visible, focusOnShow := map[], 0, [], false;
    }

    /** The id of the widget shown: the front of the visible queue. */
    function Front(): (r: Option<nat>)
      reads this
      ensures r.None? <==> visible == []
      ensures r.Some? ==> r.value == visible[0]
    {
      if visible == [] then None else Some(visible[0])
    }

    /** `hide_id`: the first occurrence of the id is found by a scan and
        removed from the visible queue; an absent id changes nothing. */
    method HideId(toRemove: nat)
      modifies this`visible
      ensures visible == RemoveFirst(old(visible), toRemove)
    {
      var index := 0;
      while index < |visible| && visible[index] != toRemove
        invariant 0 <= index <= |visible|
        invariant toRemove !in visible[..index]
      {
        assert visible[..index + 1] == visible[..index] + [visible[index]];
        index := index + 1;
      }
      if index < |visible| {
        RemoveFirstAt(visible, index, toRemove);
        visible := visible[..index] + visible[index + 1..];
      } else {
        assert visible[..index] == visible;
      }
    }

    /** `Pile::new_pending`: a fresh slot holding `None` is reserved; the
        visible queue is unchanged. */
    method NewPending() returns (id: nat)
      requires Valid()
      modifies this`widgets, this`nextId
      ensures Valid() && (old(Showable()) ==> Showable())
      ensures id !in old(widgets) && id !in visible && widgets == old(widgets)[id := None]
    {
      id := nextId;
      widgets := widgets[id := None];
      nextId := nextId + 1;
    }

    /** `PendingPiledWidget::finish`, corrected: the widget is stored in its
        reserved slot and the id joins the back of the visible queue unless
        it was already shown before the widget was finished. */
    method Finish(id: nat, widget: WidgetInstance)
      requires Valid() && id in widgets
      modifies this`widgets, this`visible
      ensures Valid() && (old(Showable()) ==> Showable())
      ensures widgets == old(widgets)[id := Some(widget)]
      ensures visible == if id in old(visible) then old(visible) else old(visible) + [id]
    {
      widgets := widgets[id := Some(widget)];
      if id !in visible {
        visible := visible + [id];
      }
    }

    /** `PiledWidget::show_inner`: the id is moved to the front of the
        visible queue, and the focus flag is set as asked. */
    method ShowInner(id: nat, focus: bool)
      requires Valid() && id < nextId
      modifies this`visible, this`focusOnShow
      ensures Valid() && (old(Showable()) && id in widgets ==> Showable())
      ensures visible == ShowQueue(old(visible), id)
      ensures focusOnShow == focus
    {
      ShowKeepsInvariant(widgets, nextId, visible, id);
      HideId(id);
      visible := [id] + visible;
      focusOnShow := focus;
    }

    /** `PiledWidget::remove`: the focus flag is cleared when the widget is
        the one shown, and the id leaves the visible queue and its slot. */
    method Remove(id: nat)
      requires Valid()
      modifies this`visible, this`widgets, this`focusOnShow
      ensures Valid() && (old(Showable()) ==> Showable())
      ensures visible == RemoveFirst(old(visible), id) && id !in visible
      ensures widgets == old(widgets) - {id}
      ensures focusOnShow == if old(visible) != [] && old(visible)[0] == id then false else old(focusOnShow)
    {
      if visible != [] && visible[0] == id {
        focusOnShow := false;
      }
      RemoveKeepsInvariant(widgets, nextId, visible, id);
      HideId(id);
      widgets := widgets - {id};
    }

    /** Dropping the last handle (`PiledWidgetData::drop`): the id leaves
        the visible queue and its slot; the focus flag is kept. */
    method DropHandle(id: nat)
      requires Valid()
      modifies this`visible, this`widgets
      ensures Valid() && (old(Showable()) ==> Showable())
      ensures visible == RemoveFirst(old(visible), id) && id !in visible
      ensures widgets == old(widgets) - {id}
    {
      RemoveKeepsInvariant(widgets, nextId, visible, id);
      HideId(id);
      widgets := widgets - {id};
    }
  }

  /** `Pile::push`: a new slot is reserved and finished at once, so the
      widget is stored and its id joins the back of the visible queue; the
      first widget pushed to an empty pile is the one shown. */
  method Push(pile: PileData, widget: WidgetInstance) returns (id: nat)
    requires pile.Valid()
    modifies pile
    ensures pile.Valid() && (old(pile.Showable()) ==> pile.Showable())
    ensures id !in old(pile.widgets) && pile.widgets == old(pile.widgets)[id := Some(widget)]
    ensures pile.visible == old(pile.visible) + [id]
    ensures old(pile.visible) == [] ==> pile.Front() == Some(id)
  {
    id := pile.NewPending();
    pile.Finish(id, widget);
  }

  /** The visible queue after `finish` as written: the id always joins the
      back. */
  function FinishAsWritten(visible: seq<nat>, id: nat): seq<nat>
  {
    visible + [id]
  }

  /** Showing a pending widget before finishing it, as `new_pending`
      allows, then finishing and removing it, leaves its id at the front of
      the visible queue while its slot is gone, so the next layout finds no
      widget to show. */
  lemma ShowFinishRemoveAsWritten()
    ensures var shown := [0] + RemoveFirst([], 0);
      var finished := FinishAsWritten(shown, 0);
      var removed := RemoveFirst(finished, 0);
      var slots := map[0 := Some(WidgetInstance(7))] - {0};
      finished == [0, 0] && removed == [0] && 0 !in slots
  {
    assert RemoveFirst([0, 0], 0) == [0];
  }
}
