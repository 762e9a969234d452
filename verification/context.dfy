/** The deferred widget state of `src/context.rs`: the active and focused
    widgets an event asks for, applied after the event in a loop bounded by
    `MAX_PENDING_CHANGE_CYCLES`; the unmount worklist that makes removing a
    child re-entrant; and the invalidation flags a window shares with the
    values it watches. The handlers of the widgets, which the source calls
    back into, are parameters. */
module CushyContext {
  import opened Common

  type WidgetId = nat

  /** `EventContext::MAX_PENDING_CHANGE_CYCLES`. */
  const MAX_PENDING_CHANGE_CYCLES: nat := 100

  /** The widget a pending id names, when it is still mounted: what
      `pending_state.active.and_then(|w| tree.widget(w))` keeps. */
  function Resolved(pending: Option<WidgetId>, mounted: set<WidgetId>): (r: Option<WidgetId>)
    ensures r.Some? <==> pending.Some? && pending.value in mounted
    ensures r.Some? ==> r == pending
  {
    if pending.Some? && pending.value in mounted then pending else None
  }

  /** What a widget's handler leaves in a pending slot: `None` when it does
      not touch it, `Some(p)` when it stores `p`. */
  function AfterHandler(pending: Option<WidgetId>, handler: Option<Option<WidgetId>>): (r: Option<WidgetId>)
    ensures handler.None? ==> r == pending
    ensures handler.Some? ==> r == handler.value
  {
    if handler.Some? then handler.value else pending
  }

  /** `PendingWidgetState`, with the part of the tree the pending state is
      applied to: the mounted widgets and the widget the tree holds active. */
  class PendingWidgetState {
    var focusIsAdvancing: bool
    var focus: Option<WidgetId>
    var active: Option<WidgetId>
    var unmounting: bool
    var unmountQueue: seq<WidgetId>
    var mounted: set<WidgetId>
    var treeActive: Option<WidgetId>
    var treeFocus: Option<WidgetId>

    /** Outside an unmount, nothing waits to be unmounted. */
    ghost predicate Valid()
      reads this
    {
      !unmounting ==> unmountQueue == []
    }

    /** The state `WidgetContext::new` starts from: the tree's active and
        focused widgets, when they are still mounted. */
    constructor(mounted: set<WidgetId>, treeActive: Option<WidgetId>, treeFocus: Option<WidgetId>)
      ensures Valid()
      ensures active == Resolved(treeActive, mounted) && focus == Resolved(treeFocus, mounted)
      ensures !focusIsAdvancing && !unmounting && unmountQueue == []
      ensures this.mounted == mounted && this.treeActive == treeActive && this.treeFocus == treeFocus
    {
      focus := Resolved(treeFocus, mounted);
      active := Resolved(treeActive, mounted);
      focusIsAdvancing := false;
      unmountQueue := [];
      unmounting := false;
      this.mounted := mounted;
      this.treeActive := treeActive;
      this.treeFocus := treeFocus;
    }

    /** `WidgetContext::active`. */
    predicate IsActive(current: WidgetId)
      reads this
    {
      active == Some(current)
    }

    /** `WidgetContext::activate`: the widget becomes the pending active
        one; the answer says whether that changed anything. */
    method Activate(current: WidgetId) returns (changed: bool)
      modifies this`active
      ensures active == Some(current)
      ensures changed <==> old(active) != Some(current)
    {
      if active == Some(current) {
        changed := false;
      } else {
        active := Some(current);
        changed := true;
      }
    }

    /** `WidgetContext::deactivate`: the pending active widget is cleared
        exactly when it is this widget. */
    method Deactivate(current: WidgetId) returns (changed: bool)
      modifies this`active
      ensures changed <==> old(active) == Some(current)
      ensures active == if changed then None else old(active)
    {
      if IsActive(current) {
        active := None;
        changed := true;
      } else {
        changed := false;
      }
    }

    /** `WidgetContext::focus`: the widget becomes the pending focus, and
        the focus is marked as advancing. */
    method Focus(current: WidgetId)
      modifies this`focus, this`focusIsAdvancing
      ensures focus == Some(current) && focusIsAdvancing
    {
      focusIsAdvancing := true;
      focus := Some(current);
    }

    /** `WidgetContext::blur`: the focus is cleared exactly when this widget
        holds it and its window is focused (`focused(true)`). */
    method Blur(current: WidgetId, windowFocused: bool) returns (changed: bool)
      modifies this`focus
      ensures changed <==> old(focus) == Some(current) && windowFocused
      ensures focus == if changed then None else old(focus)
    {
      if focus == Some(current) && windowFocused {
        focus := None;
        changed := true;
      } else {
        changed := false;
      }
    }

    /** `EventContext::apply_pending_activation`: while the tree's active
        widget differs from the pending one, the tree is told to activate
        the pending widget, and the handlers of the widget deactivated
        (`onDeactivate(k)` in the `k`-th change, only when a widget was
        active) and of the widget activated (`onActivate(k)`, only when one
        is) may store another pending widget. The loop stops when the two
        agree or after `MAX_PENDING_CHANGE_CYCLES` changes, which the source
        reports as an error. */
    method ApplyPendingActivation(onDeactivate: nat -> Option<Option<WidgetId>>, onActivate: nat -> Option<Option<WidgetId>>)
        returns (activationChanges: nat)
      modifies this`active, this`treeActive
      ensures activationChanges <= MAX_PENDING_CHANGE_CYCLES
      ensures activationChanges < MAX_PENDING_CHANGE_CYCLES ==> treeActive == Resolved(active, mounted)
      ensures old(treeActive) == Resolved(old(active), mounted) ==>
        activationChanges == 0 && treeActive == old(treeActive) && active == old(active)
      ensures (forall k :: onDeactivate(k).None? && onActivate(k).None?) ==>
        activationChanges <= 1 && active == old(active) && treeActive == Resolved(old(active), mounted)
    {
      activationChanges := 0;
      while activationChanges < MAX_PENDING_CHANGE_CYCLES
        invariant activationChanges <= MAX_PENDING_CHANGE_CYCLES
        invariant activationChanges == 0 ==> treeActive == old(treeActive) && active == old(active)
        invariant old(treeActive) == Resolved(old(active), mounted) ==> activationChanges == 0
        invariant (forall k :: onDeactivate(k).None? && onActivate(k).None?) ==>
          active == old(active) && (activationChanges == 0 || (activationChanges == 1 && treeActive == Resolved(active, mounted)))
        decreases MAX_PENDING_CHANGE_CYCLES - activationChanges
      {
        var resolved := Resolved(active, mounted);
        if treeActive == resolved {
          break;
        }
        activationChanges := activationChanges + 1;
        var previous := treeActive;
        treeActive := resolved;
        var isNew: bool;
        if previous.Some? && resolved.Some? && previous.value == resolved.value {
          isNew := false;
        } else {
          if previous.Some? {
            active := AfterHandler(active, onDeactivate(activationChanges - 1));
          }
          isNew := true;
        }
        if isNew {
          if Resolved(active, mounted).Some? {
            active := AfterHandler(active, onActivate(activationChanges - 1));
          }
        } else {
          break;
        }
      }
    }

    /** `EventContext::apply_pending_focus`: while the tree's focused widget
        differs from the pending one, the pending widget is replaced by the
        widget that takes the focus for it (`chooseFocus`, standing for the
        `accept_focus` / `explicit_focus_target` / `next_focus_after` search
        in the direction `focusIsAdvancing` says) and the tree is told to
        focus it. A previously focused widget that does not allow the blur
        (`allowBlur(k)` in the `k`-th change) takes the focus back and ends
        the loop; otherwise its blur handler (`onBlur(k)`) and the newly
        focused widget's focus handler (`onFocus(k)`) may store another
        pending widget. */
    method ApplyPendingFocus(chooseFocus: (WidgetId, bool) -> Option<WidgetId>, allowBlur: nat -> bool,
                             onBlur: nat -> Option<Option<WidgetId>>, onFocus: nat -> Option<Option<WidgetId>>)
        returns (focusChanges: nat)
      requires treeFocus.Some? ==> treeFocus.value in mounted
      requires forall w, advancing :: chooseFocus(w, advancing).Some? ==> chooseFocus(w, advancing).value in mounted
      modifies this`focus, this`treeFocus
      ensures focusChanges <= MAX_PENDING_CHANGE_CYCLES
      ensures focusChanges < MAX_PENDING_CHANGE_CYCLES ==> treeFocus == Resolved(focus, mounted)
      ensures old(treeFocus) == Resolved(old(focus), mounted) ==>
        focusChanges == 0 && treeFocus == old(treeFocus) && focus == old(focus)
      ensures old(treeFocus).Some? && (forall k :: !allowBlur(k)) ==> treeFocus == old(treeFocus) && focusChanges <= 1
    {
      focusChanges := 0;
      while focusChanges < MAX_PENDING_CHANGE_CYCLES
        invariant focusChanges <= MAX_PENDING_CHANGE_CYCLES
        invariant mounted == old(mounted)
        invariant treeFocus.Some? ==> treeFocus.value in mounted
        invariant focusChanges == 0 ==> treeFocus == old(treeFocus) && focus == old(focus)
        invariant old(treeFocus) == Resolved(old(focus), mounted) ==> focusChanges == 0
        invariant old(treeFocus).Some? && (forall k :: !allowBlur(k)) ==> focusChanges == 0
        decreases MAX_PENDING_CHANGE_CYCLES - focusChanges
      {
        var resolved := Resolved(focus, mounted);
        if treeFocus == resolved {
          break;
        }
        focusChanges := focusChanges + 1;
        assert forall w, a :: chooseFocus(w, a).Some? ==> chooseFocus(w, a).value in old(mounted);
        focus := if resolved.Some? then chooseFocus(resolved.value, focusIsAdvancing) else None;
        var previous := treeFocus;
        var isNew: bool;
        if previous == focus {
          isNew := false;
        } else {
          treeFocus := focus;
          if previous.Some? {
            if allowBlur(focusChanges - 1) {
              focus := AfterHandler(focus, onBlur(focusChanges - 1));
            } else {
              treeFocus := previous;
              focus := previous;
              break;
            }
          }
          isNew := true;
        }
        if isNew {
          if Resolved(focus, mounted).Some? {
            focus := AfterHandler(focus, onFocus(focusChanges - 1));
          }
        } else {
          break;
        }
      }
    }

    /** `AsEventContext::remove_child`. Inside an unmount the child is only
        queued. Otherwise this call drains the queue: each queued widget
        that is still mounted gets its `unmounted` handler, which removes the
        children `unmountedRemoves` names (re-entrantly, so they are only
        queued), and then leaves the tree, which queues the ids `detach`
        names. */
    method RemoveChild(child: WidgetId, unmountedRemoves: WidgetId -> seq<WidgetId>, detach: WidgetId -> seq<WidgetId>)
      requires Valid()
      modifies this`unmounting, this`unmountQueue, this`mounted
      ensures Valid()
      ensures old(unmounting) ==> unmounting && unmountQueue == old(unmountQueue) + [child] && mounted == old(mounted)
      ensures !old(unmounting) ==> !unmounting && unmountQueue == [] && child !in mounted && mounted <= old(mounted)
      decreases if unmounting then 0 else 1, 0
    {
      if unmounting {
        unmountQueue := unmountQueue + [child];
      } else {
        unmounting := true;
        unmountQueue := unmountQueue + [child];
        ghost var popped: set<WidgetId> := {};
        while unmountQueue != []
          invariant unmounting && mounted <= old(mounted)
          invariant popped !! mounted
          invariant child in popped || child in unmountQueue
          decreases |mounted|, |unmountQueue|
        {
          var toUnmount := unmountQueue[|unmountQueue| - 1];
          unmountQueue := unmountQueue[..|unmountQueue| - 1];
          if toUnmount in mounted {
            UnmountedHandler(unmountedRemoves(toUnmount), unmountedRemoves, detach);
            mounted := mounted - {toUnmount};
            unmountQueue := unmountQueue + detach(toUnmount);
          }
          popped := popped + {toUnmount};
        }
        unmounting := false;
      }
    }

    /** The `unmounted` handler of a widget being unmounted: it removes the
        given children, which inside an unmount only queues them. */
    method UnmountedHandler(removes: seq<WidgetId>, unmountedRemoves: WidgetId -> seq<WidgetId>, detach: WidgetId -> seq<WidgetId>)
      requires unmounting
      modifies this`unmounting, this`unmountQueue, this`mounted
      ensures unmounting && unmountQueue == old(unmountQueue) + removes && mounted == old(mounted)
      decreases 0, 1
    {
      var i := 0;
      while i < |removes|
        invariant 0 <= i <= |removes|
        invariant unmounting && unmountQueue == old(unmountQueue) + removes[..i] && mounted == old(mounted)
      {
        RemoveChild(removes[i], unmountedRemoves, detach);
        assert removes[..i + 1] == removes[..i] + [removes[i]];
        i := i + 1;
      }
      assert removes[..i] == removes;
    }
  }

  /** Activating twice reports a change only the first time, and
      deactivating afterwards clears the pending active widget. */
  method ActivateTwiceThenDeactivate(state: PendingWidgetState, current: WidgetId)
      returns (first: bool, second: bool, cleared: bool)
    modifies state
    ensures first <==> old(state.active) != Some(current)
    ensures !second && cleared && state.active.None?
  {
    first := state.Activate(current);
    second := state.Activate(current);
    cleared := state.Deactivate(current);
  }

  /** Focusing and then blurring in a focused window clears the focus;
      blurring again changes nothing. */
  method FocusThenBlur(state: PendingWidgetState, current: WidgetId) returns (first: bool, second: bool)
    modifies state
    ensures first && !second && state.focus.None? && state.focusIsAdvancing
  {
    state.Focus(current);
    first := state.Blur(current, true);
    second := state.Blur(current, true);
  }

  /** `InvalidationStatus`: the flags that keep a window from being sent a
      second refresh or sync before it has received the first, and the set
      of widgets invalidated since the last layout. */
  class InvalidationStatus {
    var refreshSent: bool
    var syncSent: bool
    var invalidated: set<WidgetId>

    constructor()
      ensures !refreshSent && !syncSent && invalidated == {}
    {
      refreshSent := false;
      syncSent := false;
      invalidated := {};
    }

    /** `should_send_refresh`: true exactly when no refresh was pending,
        and a refresh is pending afterwards. */
    method ShouldSendRefresh() returns (r: bool)
      modifies this`refreshSent
      ensures r <==> !old(refreshSent)
      ensures refreshSent
    {
      r := !refreshSent;
      refreshSent := true;
    }

    /** `should_send_sync`, the same for syncs. */
    method ShouldSendSync() returns (r: bool)
      modifies this`syncSent
      ensures r <==> !old(syncSent)
      ensures syncSent
    {
      r := !syncSent;
      syncSent := true;
    }

    /** `refresh_received`. */
    method RefreshReceived()
      modifies this`refreshSent
      ensures !refreshSent
    {
      refreshSent := false;
    }

    /** `sync_received`. */
    method SyncReceived()
      modifies this`syncSent
      ensures !syncSent
    {
      syncSent := false;
    }

    /** `invalidate`: the widget joins the set; the answer says whether it
        was not there yet. */
    method Invalidate(widget: WidgetId) returns (r: bool)
      modifies this`invalidated
      ensures invalidated == old(invalidated) + {widget}
      ensures r <==> widget !in old(invalidated)
    {
      r := widget !in invalidated;
      invalidated := invalidated + {widget};
    }
  }

  /** A refresh is sent once, not again until it is received, and again
      after that. */
  method RefreshOncePerReceipt() returns (first: bool, second: bool, third: bool)
    ensures first && !second && third
  {
    var status := new InvalidationStatus();
    first := status.ShouldSendRefresh();
    second := status.ShouldSendRefresh();
    status.RefreshReceived();
    third := status.ShouldSendRefresh();
  }

  /** Invalidating a widget twice reports it as new only the first time. */
  method InvalidateTwice(status: InvalidationStatus, widget: WidgetId) returns (first: bool, second: bool)
    modifies status
    ensures first <==> widget !in old(status.invalidated)
    ensures !second && widget in status.invalidated
  {
    first := status.Invalidate(widget);
    second := status.Invalidate(widget);
  }
}
