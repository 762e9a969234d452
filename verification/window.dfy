/** The window bookkeeping of `src/window.rs` that is not drawing: the theme
    mode, the redraw target of a virtual window, the map of pressed mouse
    buttons, the sticky close request and the commands queued for a window
    that is not open yet. */
module CushyWindow {
  import opened Common

  // ----- ThemeMode ---------------------------------------------------------

  datatype ThemeMode = Light | Dark

  /** `ThemeMode::inverse`, which is also `!`, and what `toggle` stores. */
  function Inverse(m: ThemeMode): (r: ThemeMode)
    ensures r != m
  {
    match m
    case Light => Dark
    case Dark => Light
  }

  /** Inverting twice gives the mode back, and every mode is the inverse of
      the other one. */
  lemma InverseInvolution(m: ThemeMode)
    ensures Inverse(Inverse(m)) == m
    ensures Inverse(m) == (if m == Light then Dark else Light)
  {
  }

  /** The windowing system's theme, converted to and from `ThemeMode`. */
  datatype Theme = ThemeLight | ThemeDark

  function FromTheme(t: Theme): ThemeMode
  {
    if t == ThemeLight then Light else Dark
  }

  function ToTheme(m: ThemeMode): Theme
  {
    if m == Light then ThemeLight else ThemeDark
  }

  /** The two conversions are inverse to each other. */
  lemma ThemeRoundTrip(m: ThemeMode, t: Theme)
    ensures FromTheme(ToTheme(m)) == m
    ensures ToTheme(FromTheme(t)) == t
  {
  }

  /** `PercentBetween for ThemeMode`, as a percentage 0 or 100: a mode is
      at the start of a range when the range is empty or the mode is its
      start, and at the end otherwise. */
  function PercentBetween(m: ThemeMode, min: ThemeMode, max: ThemeMode): (r: nat)
    ensures r == 0 || r == 100
    ensures min != max && m == max ==> r == 100
    ensures m == min ==> r == 0
    ensures r == 0 ==> min == max || m == min
  {
    if min == max || m == min then 0 else 100
  }

  // ----- redraw target -----------------------------------------------------

  /** `RedrawTarget`; instants are integers. */
  datatype RedrawTarget = Never | Now | At(instant: int)

  /** Whether `a` asks for a redraw no later than `b`: `Now` first, then
      the instants in order, then `Never`. */
  predicate NoLaterThan(a: RedrawTarget, b: RedrawTarget)
  {
    match a
    case Now => true
    case Never => b.Never?
    case At(i) => b.Never? || (b.At? && i <= b.instant)
  }

  /** The target after `redraw_at(moment)`. */
  function RedrawAt(target: RedrawTarget, moment: int): RedrawTarget
  {
    match target
    case At(instant) => if moment < instant then At(moment) else target
    case Never => At(moment)
    case Now => Now
  }

  /** `redraw_at` keeps the earlier of the current target and the moment:
      the result is no later than either, and it is one of them. */
  lemma RedrawAtKeepsEarliest(target: RedrawTarget, moment: int)
    ensures var r := RedrawAt(target, moment);
      && NoLaterThan(r, target) && NoLaterThan(r, At(moment))
      && (r == target || r == At(moment))
  {
  }

  /** Scheduling two moments gives the same target in either order. */
  lemma RedrawAtCommutes(target: RedrawTarget, a: int, b: int)
    ensures RedrawAt(RedrawAt(target, a), b) == RedrawAt(RedrawAt(target, b), a)
  {
  }

  /** The part of a virtual window's shared state that commands change. */
  class VirtualWindowState {
    var redrawTarget: RedrawTarget
    var closeRequested: bool
    var title: string

    constructor()
      ensures redrawTarget == Never && !closeRequested && title == []
    {
      redrawTarget := Never;
      closeRequested := false;
      title := [];
    }

    /** `set_needs_redraw`. */
    method SetNeedsRedraw()
      modifies this`redrawTarget
      ensures redrawTarget == Now
    {
      redrawTarget := Now;
    }

    /** `VirtualState::redraw_at`. */
    method ScheduleRedraw(moment: int)
      modifies this`redrawTarget
      ensures redrawTarget == RedrawAt(old(redrawTarget), moment)
      ensures NoLaterThan(redrawTarget, old(redrawTarget)) && NoLaterThan(redrawTarget, At(moment))
    {
      RedrawAtKeepsEarliest(redrawTarget, moment);
      if match redrawTarget
         case At(instant) => moment < instant
         case Never => true
         case Now => false
      {
        redrawTarget := At(moment);
      }
    }

    /** A command sent through the handle of a virtual window. */
    method Send(command: WindowCommand)
      modifies this
      ensures command.Redraw? ==> redrawTarget == Now && closeRequested == old(closeRequested) && title == old(title)
      ensures command.RequestClose? ==> closeRequested && redrawTarget == old(redrawTarget) && title == old(title)
      ensures command.SetTitle? ==> title == command.title && redrawTarget == old(redrawTarget) && closeRequested == old(closeRequested)
    {
      match command
      case Redraw => redrawTarget := Now;
      case RequestClose => closeRequested := true;
      case SetTitle(t) => title := t;
    }
  }

  // ----- the close request -------------------------------------------------

  datatype WindowCommand = Redraw | RequestClose | SetTitle(title: string)

  /** `CushyWindow::request_close`: once the window should close, it stays
      so whatever the behaviour answers, and otherwise it closes exactly when
      the behaviour agrees. */
  function RequestCloseFlag(shouldClose: bool, behaviorAgrees: bool): (r: bool)
    ensures shouldClose ==> r
    ensures !shouldClose ==> (r <==> behaviorAgrees)
  {
    shouldClose || behaviorAgrees
  }

  // ----- commands to a pending window --------------------------------------

  /** `PendingWindowHandle`: until the window opens, commands are queued;
      once it has opened they go straight to the window. `delivered` is
      what the window has received, in order, and `sent` everything sent
      through the handle. */
  class PendingWindow {
    var isOpen: bool
    var queued: seq<WindowCommand>
    var delivered: seq<WindowCommand>
    ghost var sent: seq<WindowCommand>

    ghost predicate Valid()
      reads this
    {
      && delivered + queued == sent
      && (isOpen ==> queued == [])
      && (!isOpen ==> delivered == [])
    }

    constructor()
      ensures Valid() && !isOpen && sent == []
    {
      isOpen := false;
      queued := [];
      delivered := [];
      sent := [];
    }

    /** `InnerWindowHandle::send` on a pending handle. */
    method Send(command: WindowCommand)
      requires Valid()
      modifies this
      ensures Valid() && isOpen == old(isOpen)
      ensures sent == old(sent) + [command]
      ensures !isOpen ==> queued == old(queued) + [command] && delivered == old(delivered)
      ensures isOpen ==> delivered == old(delivered) + [command]
    {
      if isOpen {
        delivered := delivered + [command];
      } else {
        queued := queued + [command];
      }
      sent := sent + [command];
    }

    /** `PendingWindow::isOpen`: the handle is set once, and every queued
        command is delivered in the order it was sent. */
    method Open()
      requires Valid() && !isOpen
      modifies this
      ensures Valid() && isOpen && sent == old(sent)
      ensures delivered == old(queued) && queued == []
    {
      isOpen := true;
      var i := 0;
      while i < |queued|
        invariant 0 <= i <= |queued|
        invariant delivered == queued[..i]
        invariant queued == old(queued) && sent == old(sent) && isOpen
      {
        delivered := delivered + [queued[i]];
        i := i + 1;
      }
      assert queued[..i] == queued;
      queued := [];
    }
  }

  /** Commands sent before and after the window opens reach it in the order
      they were sent. */
  method SendAroundOpen() returns (received: seq<WindowCommand>)
    ensures received == [SetTitle("a"), Redraw, RequestClose]
  {
    var w := new PendingWindow();
    w.Send(SetTitle("a"));
    w.Send(Redraw);
    w.Open();
    w.Send(RequestClose);
    received := w.delivered;
  }

  // ----- pressed mouse buttons ---------------------------------------------

  /** `CushyWindow::mouse_buttons`: for each device, the widget that
      handled the press of each button still held. */
  class MouseButtonMap {
    var buttons: map<nat, map<nat, nat>>

    /** No device is kept with an empty map. */
    ghost predicate Valid()
      reads this
    {
      forall d :: d in buttons ==> buttons[d] != map[]
    }

    constructor()
      ensures Valid() && buttons == map[]
    {
      buttons := map[];
    }

    /** A press: the handler, when one took the press, is recorded for the
        button. */
    method Press(device: nat, button: nat, handler: Option<nat>)
      requires Valid()
      modifies this
      ensures Valid()
      ensures handler.None? ==> buttons == old(buttons)
      ensures handler.Some? ==>
        buttons == old(buttons)[device := (if device in old(buttons) then old(buttons)[device] else map[])[button := handler.value]]
    {
      if handler.Some? {
        var forDevice := if device in buttons then buttons[device] else map[];
        assert button in forDevice[button := handler.value];
        buttons := buttons[device := forDevice[button := handler.value]];
      }
    }

    /** A release: the handler of the press is removed and returned, and the
        device goes once it holds no button. */
    method Release(device: nat, button: nat) returns (handler: Option<nat>)
      requires Valid()
      modifies this
      ensures Valid()
      ensures handler.Some? <==> device in old(buttons) && button in old(buttons)[device]
      ensures handler.Some? ==> handler.value == old(buttons)[device][button]
      ensures handler.None? ==> buttons == old(buttons)
      ensures handler.Some? ==>
        var rest := old(buttons)[device] - {button};
        buttons == if rest == map[] then old(buttons) - {device} else old(buttons)[device := rest]
    {
      if device !in buttons || button !in buttons[device] {
        return None;
      }
      handler := Some(buttons[device][button]);
      var rest := buttons[device] - {button};
      if rest == map[] {
        buttons := buttons - {device};
      } else {
        buttons := buttons[device := rest];
      }
    }
  }

  /** Pressing a button and releasing it hands the release to the widget
      that took the press and leaves the map as it was. */
  method PressThenRelease(device: nat, button: nat, widget: nat) returns (released: Option<nat>, emptied: bool)
    ensures released == Some(widget) && emptied
  {
    var m := new MouseButtonMap();
    m.Press(device, button, Some(widget));
    released := m.Release(device, button);
    emptied := m.buttons == map[];
  }
}
