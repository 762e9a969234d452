/** Message boxes (src/dialog.rs): the buttons, the builder that assembles a
    message box, and the buttons a `Modal` layer shows for it. A callback is
    named by an identifier; invoking a button means running the callback it
    names, if any. */
module CushyDialog {
  import opened Common

  /** A callback, by identity. */
  type CallbackId = nat

  /** `MessageButtonsKind`. */
  datatype MessageButtonsKind = YesNo | OkCancel

  /** `MessageButton`: an optional callback and a caption, empty for the
      default caption. */
  datatype MessageButton = MessageButton(callback: Option<CallbackId>, caption: string)

  /** `MessageButton::default`: no callback and the default caption. */
  function DefaultButton(): (b: MessageButton)
    ensures b.callback.None? && b.caption == ""
  {
    MessageButton(None, "")
  }

  /** `MessageButton::custom`: the caption and the callback. */
  function CustomButton(caption: string, onClick: CallbackId): (b: MessageButton)
    ensures b.callback == Some(onClick) && b.caption == caption
  {
    MessageButton(Some(onClick), caption)
  }

  /** `From<String>` and `From<&str>`: a button that only dismisses the box,
      with the string as its caption. */
  function ButtonFromString(caption: string): (b: MessageButton)
    ensures b.callback.None? && b.caption == caption
  {
    MessageButton(None, caption)
  }

  /** `From<F: FnMut()>`: a button with the default caption that runs the
      closure. */
  function ButtonFromCallback(onClick: CallbackId): (b: MessageButton)
    ensures b.callback == Some(onClick) && b.caption == ""
  {
    MessageButton(Some(onClick), "")
  }

  /** `MessageButtons`. */
  datatype MessageButtons = MessageButtons(
    kind: MessageButtonsKind,
    affirmative: MessageButton,
    negative: Option<MessageButton>,
    cancel: Option<MessageButton>)

  /** `MessageLevel`; `Info` is the default. */
  datatype MessageLevel = Error | Warning | Info

  /** `MessageBox`. */
  datatype MessageBox = MessageBox(level: MessageLevel, title: string, description: string, buttons: MessageButtons)

  /** The type-state of `MessageBoxBuilder`: `Undecided`, `OkCancel` or
      `YesNoCancel`. */
  datatype BuilderState = Undecided | OkCancelState | YesNoCancelState

  /** `MessageBoxBuilder<Kind>`. */
  datatype MessageBoxBuilder = MessageBoxBuilder(message: MessageBox, state: BuilderState)

  /** `MessageBox::build`: an undecided builder for an informational
      OK/Cancel box with the title, no description and only a default
      affirmative button. */
  function Build(title: string): (b: MessageBoxBuilder)
    ensures b.state == Undecided
    ensures b.message.level == Info && b.message.title == title && b.message.description == ""
    ensures b.message.buttons == MessageButtons(OkCancel, DefaultButton(), None, None)
  {
    MessageBoxBuilder(MessageBox(Info, title, "", MessageButtons(OkCancel, DefaultButton(), None, None)), Undecided)
  }

  /** `MessageBoxBuilder::finish`: the message box. */
  function Finish(b: MessageBoxBuilder): (m: MessageBox)
    ensures m == b.message
  {
    b.message
  }

  /** `MessageBox::message`: a box with only the default OK button. */
  function Message(title: string): (m: MessageBox)
    ensures m == MessageBox(Info, title, "", MessageButtons(OkCancel, DefaultButton(), None, None))
  {
    Finish(Build(title))
  }

  /** `with_explanation` on a builder: the description is replaced and
      nothing else changes. */
  function WithExplanation(b: MessageBoxBuilder, explanation: string): (r: MessageBoxBuilder)
    ensures r.message.description == explanation
    ensures r.message.(description := b.message.description) == b.message && r.state == b.state
  {
    b.(message := b.message.(description := explanation))
  }

  /** `warning` on a builder: only the level changes. */
  function AsWarning(b: MessageBoxBuilder): (r: MessageBoxBuilder)
    ensures r.message.level == Warning
    ensures r.message.(level := b.message.level) == b.message && r.state == b.state
  {
    b.(message := b.message.(level := Warning))
  }

  /** `error` on a builder: only the level changes. */
  function AsError(b: MessageBoxBuilder): (r: MessageBoxBuilder)
    ensures r.message.level == Error
    ensures r.message.(level := b.message.level) == b.message && r.state == b.state
  {
    b.(message := b.message.(level := Error))
  }

  /** `with_cancel` on a builder: the cancel button is set and nothing else
      changes. */
  function WithCancel(b: MessageBoxBuilder, cancel: MessageButton): (r: MessageBoxBuilder)
    ensures r.message.buttons.cancel == Some(cancel)
    ensures r.message.buttons.(cancel := b.message.buttons.cancel) == b.message.buttons
    ensures r.message.(buttons := b.message.buttons) == b.message && r.state == b.state
  {
    b.(message := b.message.(buttons := b.message.buttons.(cancel := Some(cancel))))
  }

  /** `with_yes`, on an undecided builder only: the box becomes a yes/no box
      with the given yes button. */
  function WithYes(b: MessageBoxBuilder, yes: MessageButton): (r: MessageBoxBuilder)
    requires b.state == Undecided
    ensures r.state == YesNoCancelState
    ensures r.message.buttons.kind == YesNo && r.message.buttons.affirmative == yes
    ensures r.message.buttons.negative == b.message.buttons.negative && r.message.buttons.cancel == b.message.buttons.cancel
    ensures r.message.(buttons := b.message.buttons) == b.message
  {
    MessageBoxBuilder(b.message.(buttons := b.message.buttons.(kind := YesNo, affirmative := yes)), YesNoCancelState)
  }

  /** `with_ok`, on an undecided builder only: the OK button is set and the
      kind stays as it was. */
  function WithOk(b: MessageBoxBuilder, ok: MessageButton): (r: MessageBoxBuilder)
    requires b.state == Undecided
    ensures r.state == OkCancelState
    ensures r.message.buttons == b.message.buttons.(affirmative := ok)
    ensures r.message.(buttons := b.message.buttons) == b.message
  {
    MessageBoxBuilder(b.message.(buttons := b.message.buttons.(affirmative := ok)), OkCancelState)
  }

  /** `with_no`, on a yes/no builder only: the no button is set. */
  function WithNo(b: MessageBoxBuilder, no: MessageButton): (r: MessageBoxBuilder)
    requires b.state == YesNoCancelState
    ensures r.state == YesNoCancelState
    ensures r.message.buttons == b.message.buttons.(negative := Some(no))
    ensures r.message.(buttons := b.message.buttons) == b.message
  {
    b.(message := b.message.(buttons := b.message.buttons.(negative := Some(no))))
  }

  /** A box built with `with_ok` stays an OK/Cancel box and one built with
      `with_yes` is a yes/no box, whatever else is set. */
  lemma BuilderKinds(title: string, explanation: string, ok: MessageButton, yes: MessageButton, no: MessageButton,
                     cancel: MessageButton)
    ensures Finish(WithCancel(WithOk(Build(title), ok), cancel)).buttons == MessageButtons(OkCancel, ok, None, Some(cancel))
    ensures Finish(WithCancel(WithNo(WithYes(WithExplanation(Build(title), explanation), yes), no), cancel))
      == MessageBox(Info, title, explanation, MessageButtons(YesNo, yes, Some(no), Some(cancel)))
  {
  }

  /** `MessageBox::with_explanation`, `warning`, `error` and `with_cancel`
      change a finished box as the builder's methods of the same names change
      the box being built. */
  function BoxWithExplanation(m: MessageBox, explanation: string): (r: MessageBox)
    ensures forall st :: r == Finish(WithExplanation(MessageBoxBuilder(m, st), explanation))
  {
    m.(description := explanation)
  }

  function BoxAsWarning(m: MessageBox): (r: MessageBox)
    ensures forall st :: r == Finish(AsWarning(MessageBoxBuilder(m, st)))
  {
    m.(level := Warning)
  }

  function BoxAsError(m: MessageBox): (r: MessageBox)
    ensures forall st :: r == Finish(AsError(MessageBoxBuilder(m, st)))
  {
    m.(level := Error)
  }

  function BoxWithCancel(m: MessageBox, cancel: MessageButton): (r: MessageBox)
    ensures forall st :: r == Finish(WithCancel(MessageBoxBuilder(m, st), cancel))
  {
    m.(buttons := m.buttons.(cancel := Some(cancel)))
  }

  /** `coalesce_empty`: the second string exactly when the first is empty. */
  function CoalesceEmpty(s1: string, s2: string): (r: string)
    ensures s1 == "" ==> r == s2
    ensures s1 != "" ==> r == s1
  {
    if |s1| == 0 then s2 else s1
  }

  /** A nonempty default makes the result nonempty, and coalescing is
      idempotent. */
  lemma CoalesceEmptyProperties(s1: string, s2: string)
    ensures s2 != "" ==> CoalesceEmpty(s1, s2) != ""
    ensures CoalesceEmpty(CoalesceEmpty(s1, s2), s2) == CoalesceEmpty(s1, s2)
  {
  }

  /** A button as a `Modal` layer shows it: its caption and the callback it
      runs. */
  datatype ShownButton = ShownButton(caption: string, callback: Option<CallbackId>)

  /** The buttons of the dialog a `Modal` layer builds for a message box: the
      default button, an optional second button and an optional cancel
      button. */
  datatype ModalButtons = ModalButtons(default: ShownButton, extra: Option<ShownButton>, cancel: Option<ShownButton>)

  /** `Modal::open_message_box`: the affirmative button captioned "OK" or
      "Yes" by default; a "No" button only on yes/no boxes that have one; a
      "Cancel" button when the box has one. Custom captions win over the
      defaults. */
  function ModalButtonsFor(m: MessageBox): (r: ModalButtons)
    ensures var b := m.buttons;
      && r.default == ShownButton(CoalesceEmpty(b.affirmative.caption, if b.kind == YesNo then "Yes" else "OK"), b.affirmative.callback)
      && (r.extra.Some? <==> b.kind == YesNo && b.negative.Some?)
      && (r.extra.Some? ==> r.extra.value == ShownButton(CoalesceEmpty(b.negative.value.caption, "No"), b.negative.value.callback))
      && (r.cancel.Some? <==> b.cancel.Some?)
      && (r.cancel.Some? ==> r.cancel.value == ShownButton(CoalesceEmpty(b.cancel.value.caption, "Cancel"), b.cancel.value.callback))
  {
    var b := m.buttons;
    var defaultNegative: Option<string> := if b.kind == YesNo then Some("No") else None;
    var defaultAffirmative := if b.kind == YesNo then "Yes" else "OK";
    var extra := if b.negative.Some? && defaultNegative.Some?
      then Some(ShownButton(CoalesceEmpty(b.negative.value.caption, defaultNegative.value), b.negative.value.callback))
      else None;
    var cancel := if b.cancel.Some?
      then Some(ShownButton(CoalesceEmpty(b.cancel.value.caption, "Cancel"), b.cancel.value.callback))
      else None;
    ModalButtons(ShownButton(CoalesceEmpty(b.affirmative.caption, defaultAffirmative), b.affirmative.callback), extra, cancel)
  }

  /** Every button a `Modal` shows has a caption, and a plain message shows
      a single "OK" button that does nothing but dismiss. */
  lemma ModalCaptionsNeverEmpty(m: MessageBox, title: string)
    ensures var r := ModalButtonsFor(m);
      && r.default.caption != ""
      && (r.extra.Some? ==> r.extra.value.caption != "")
      && (r.cancel.Some? ==> r.cancel.value.caption != "")
    ensures ModalButtonsFor(Message(title)) == ModalButtons(ShownButton("OK", None), None, None)
  {
  }
}
