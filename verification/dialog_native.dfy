/** Message boxes shown by the operating system (src/dialog/native.rs): the
    native button set chosen for a message box, and the button whose
    callback runs for the native dialog's answer. The native dialog library
    is not part of this model; its button sets, levels and answers are the
    datatypes below. A panic of the source is an `Err` naming its message. */
module CushyNativeDialog {
  import opened Common
  import opened CushyDialog

  /** `rfd::MessageButtons`. */
  datatype RfdButtons =
    | RfdOk
    | RfdOkCancel
    | RfdYesNo
    | RfdYesNoCancel
    | RfdOkCustom(ok: string)
    | RfdOkCancelCustom(ok: string, cancel: string)
    | RfdYesNoCancelCustom(yes: string, no: string, cancel: string)

  /** `rfd::MessageDialogResult`. */
  datatype RfdResult = ResultOk | ResultYes | ResultNo | ResultCancel | ResultCustom(caption: string)

  /** `rfd::MessageLevel`. */
  datatype RfdLevel = RfdError | RfdWarning | RfdInfo

  /** The panics of the dispatch: a missing no button, a missing cancel
      button, and an answer that matches no button. */
  datatype Panic = NoButton | MissingCancelButton | NoMatchingButton

  /** Which of the message box's buttons is chosen. */
  datatype Choice = Affirmative | Negative | Cancel

  /** `From<MessageLevel> for rfd::MessageLevel`: level for level. */
  function RfdLevelOf(l: MessageLevel): (r: RfdLevel)
    ensures (r == RfdError <==> l == Error) && (r == RfdWarning <==> l == Warning) && (r == RfdInfo <==> l == Info)
  {
    match l
    case Error => RfdError
    case Warning => RfdWarning
    case Info => RfdInfo
  }

  /** Whether the box has a cancel button with a caption of its own. */
  predicate CancelIsCustom(b: MessageButtons)
  {
    b.cancel.Some? && b.cancel.value.caption != ""
  }

  /** `as_rfd_buttons` with the default caption of the cancel button as a
      parameter: the source passes "Yes", the corrected table "Cancel". A
      yes/no box without a no button panics. */
  function RfdButtonsWith(b: MessageButtons, cancelDefault: string): (r: Result<RfdButtons, Panic>)
  {
    match b.kind
    case YesNo =>
      if b.negative.None? then Err(NoButton)
      else if CancelIsCustom(b) || b.affirmative.caption != "" || b.negative.value.caption != "" then
        if b.cancel.Some? then
          Ok(RfdYesNoCancelCustom(CoalesceEmpty(b.affirmative.caption, "Yes"), CoalesceEmpty(b.negative.value.caption, "No"),
                               CoalesceEmpty(b.cancel.value.caption, cancelDefault)))
        else
          Ok(RfdOkCancelCustom(CoalesceEmpty(b.affirmative.caption, "Yes"), CoalesceEmpty(b.negative.value.caption, "No")))
      else if b.cancel.Some? then Ok(RfdYesNoCancel)
      else Ok(RfdYesNo)
    case OkCancel =>
      if b.cancel.Some? then
        if b.affirmative.caption != "" || b.cancel.value.caption != "" then
          Ok(RfdOkCancelCustom(CoalesceEmpty(b.affirmative.caption, "OK"), CoalesceEmpty(b.cancel.value.caption, "Cancel")))
        else Ok(RfdOkCancel)
      else if b.affirmative.caption != "" then Ok(RfdOkCustom(b.affirmative.caption))
      else Ok(RfdOk)
  }

  /** `as_rfd_buttons` as written, whose yes/no/cancel table captions an
      uncaptioned cancel button "Yes". */
  function AsRfdButtonsAsWritten(b: MessageButtons): Result<RfdButtons, Panic>
  {
    RfdButtonsWith(b, "Yes")
  }

  /** `as_rfd_buttons` with the cancel button captioned "Cancel" by default,
      as the `Modal` presentation and the OK/Cancel table do. */
  function AsRfdButtons(b: MessageButtons): (r: Result<RfdButtons, Panic>)
    ensures r.Err? <==> b.kind == YesNo && b.negative.None?
  {
    RfdButtonsWith(b, "Cancel")
  }

  /** The decision table: OK boxes are `Ok`, `OkCustom`, `OkCancel` or
      `OkCancelCustom` as they have a cancel button and custom captions;
      yes/no boxes are `YesNo` or `YesNoCancel` without custom captions and
      a custom table otherwise. Custom tables fill in the default captions. */
  lemma DecisionTable(b: MessageButtons)
    ensures b.kind == OkCancel && b.cancel.None? ==>
      AsRfdButtons(b) == (if b.affirmative.caption == "" then Ok(RfdOk) else Ok(RfdOkCustom(b.affirmative.caption)))
    ensures b.kind == OkCancel && b.cancel.Some? ==>
      AsRfdButtons(b) == (if b.affirmative.caption == "" && b.cancel.value.caption == "" then Ok(RfdOkCancel)
                          else Ok(RfdOkCancelCustom(CoalesceEmpty(b.affirmative.caption, "OK"), CoalesceEmpty(b.cancel.value.caption, "Cancel"))))
    ensures b.kind == YesNo && b.negative.Some? && b.affirmative.caption == "" && b.negative.value.caption == "" && !CancelIsCustom(b) ==>
      AsRfdButtons(b) == (if b.cancel.Some? then Ok(RfdYesNoCancel) else Ok(RfdYesNo))
    ensures b.kind == YesNo && b.negative.Some? && (b.affirmative.caption != "" || b.negative.value.caption != "" || CancelIsCustom(b)) ==>
      AsRfdButtons(b) == (if b.cancel.Some?
                          then Ok(RfdYesNoCancelCustom(CoalesceEmpty(b.affirmative.caption, "Yes"), CoalesceEmpty(b.negative.value.caption, "No"),
                                                    CoalesceEmpty(b.cancel.value.caption, "Cancel")))
                          else Ok(RfdOkCancelCustom(CoalesceEmpty(b.affirmative.caption, "Yes"), CoalesceEmpty(b.negative.value.caption, "No"))))
  {
  }

  /** `handle_message_result` with its test for the no button as a
      parameter: the source accepts a caption equal to the no button's own
      caption or to the default "No"; the corrected test compares with the
      caption the no button is shown with. */
  function HandleWith(result: RfdResult, b: MessageButtons, coalesceNo: bool): (r: Result<Choice, Panic>)
  {
    match result
    case ResultOk => Ok(Affirmative)
    case ResultYes => Ok(Affirmative)
    case ResultNo => if b.negative.Some? then Ok(Negative) else Err(NoButton)
    case ResultCancel =>
      if b.kind == YesNo && b.cancel.None? then
        if b.negative.Some? then Ok(Negative) else Err(NoButton)
      else if b.cancel.Some? then Ok(Cancel)
      else Err(MissingCancelButton)
    case ResultCustom(caption) =>
      var defaultAffirmative := if b.kind == YesNo then "Yes" else "OK";
      var defaultNegative: Option<string> := if b.kind == YesNo then Some("No") else None;
      if CoalesceEmpty(b.affirmative.caption, defaultAffirmative) == caption then Ok(Affirmative)
      else if b.negative.Some? &&
              (if coalesceNo
               then defaultNegative.Some? && CoalesceEmpty(b.negative.value.caption, defaultNegative.value) == caption
               else b.negative.value.caption == caption || (defaultNegative.Some? && defaultNegative.value == caption))
      then Ok(Negative)
      else if b.cancel.Some? && CoalesceEmpty(b.cancel.value.caption, "Cancel") == caption then Ok(Cancel)
      else Err(NoMatchingButton)
  }

  /** `handle_message_result` as written. */
  function HandleAsWritten(result: RfdResult, b: MessageButtons): Result<Choice, Panic>
  {
    HandleWith(result, b, false)
  }

  /** The corrected `handle_message_result`. */
  function Handle(result: RfdResult, b: MessageButtons): Result<Choice, Panic>
  {
    HandleWith(result, b, true)
  }

  /** The standard answers: OK and Yes choose the affirmative button, No the
      no button, and Cancel the cancel button, or on a yes/no box without one
      the no button. */
  lemma StandardAnswers(b: MessageButtons)
    ensures Handle(ResultOk, b) == Ok(Affirmative) && Handle(ResultYes, b) == Ok(Affirmative)
    ensures b.negative.Some? ==> Handle(ResultNo, b) == Ok(Negative)
    ensures b.kind == YesNo && b.cancel.None? && b.negative.Some? ==> Handle(ResultCancel, b) == Ok(Negative)
    ensures b.cancel.Some? ==> Handle(ResultCancel, b) == Ok(Cancel)
  {
  }

  /** The captions a native button set shows, in order. */
  function Captions(r: RfdButtons): seq<string>
  {
    match r
    case RfdOkCustom(ok) => [ok]
    case RfdOkCancelCustom(ok, cancel) => [ok, cancel]
    case RfdYesNoCancelCustom(yes, no, cancel) => [yes, no, cancel]
    case _ => []
  }

  /** The buttons a native button set's captions stand for, in the same
      order: on a yes/no box the second caption of `OkCancelCustom` is the no
      button. */
  function Meanings(b: MessageButtons, r: RfdButtons): seq<Choice>
  {
    match r
    case RfdOkCustom(_) => [Affirmative]
    case RfdOkCancelCustom(_, _) => if b.kind == YesNo then [Affirmative, Negative] else [Affirmative, Cancel]
    case RfdYesNoCancelCustom(_, _, _) => [Affirmative, Negative, Cancel]
    case _ => []
  }

  /** With the corrected table and dispatch, answering with any caption the
      native dialog shows chooses the button shown with that caption, as
      long as the shown captions differ. */
  lemma CustomCaptionsDispatch(b: MessageButtons, i: nat)
    requires AsRfdButtons(b).Ok?
    requires Distinct(Captions(AsRfdButtons(b).value))
    requires i < |Captions(AsRfdButtons(b).value)|
    ensures |Meanings(b, AsRfdButtons(b).value)| == |Captions(AsRfdButtons(b).value)|
    ensures Handle(ResultCustom(Captions(AsRfdButtons(b).value)[i]), b) == Ok(Meanings(b, AsRfdButtons(b).value)[i])
  {
    var r := AsRfdButtons(b).value;
    var c := Captions(r);
    if |c| >= 2 {
      assert c[0] != c[1];
    }
    if |c| == 3 {
      assert c[0] != c[2] && c[1] != c[2];
    }
  }

  /** As written, a yes/no/cancel box with a custom yes caption and an
      uncaptioned cancel button shows the cancel button as "Yes", and
      choosing it matches no button. */
  lemma CancelCaptionAsWrittenPanics()
    ensures var b := MessageButtons(YesNo, ButtonFromString("Save"), Some(DefaultButton()), Some(DefaultButton()));
      && AsRfdButtonsAsWritten(b) == Ok(RfdYesNoCancelCustom("Save", "No", "Yes"))
      && HandleAsWritten(ResultCustom("Yes"), b) == Err(NoMatchingButton)
  {
    var b := MessageButtons(YesNo, ButtonFromString("Save"), Some(DefaultButton()), Some(DefaultButton()));
    assert CoalesceEmpty(b.affirmative.caption, "Yes") == "Save";
  }

  /** As written, a cancel button captioned "No" beside a no button with a
      caption of its own runs the no button's callback. */
  lemma NoCaptionAsWrittenChoosesNegative()
    ensures var b := MessageButtons(YesNo, DefaultButton(), Some(ButtonFromString("Discard")), Some(ButtonFromString("No")));
      && AsRfdButtonsAsWritten(b) == Ok(RfdYesNoCancelCustom("Yes", "Discard", "No"))
      && HandleAsWritten(ResultCustom("No"), b) == Ok(Negative)
      && Handle(ResultCustom("No"), b) == Ok(Cancel)
  {
    var b := MessageButtons(YesNo, DefaultButton(), Some(ButtonFromString("Discard")), Some(ButtonFromString("No")));
    assert CoalesceEmpty(b.negative.value.caption, "No") == "Discard";
    assert "Yes" != "No" && "Discard" != "No";
  }

  /** Both versions agree on every box whose buttons all use their default
      captions, and on every standard answer. */
  lemma CorrectionsKeepDefaults(b: MessageButtons, result: RfdResult)
    requires b.affirmative.caption == ""
    requires b.negative.Some? ==> b.negative.value.caption == ""
    requires b.cancel.Some? ==> b.cancel.value.caption == ""
    ensures AsRfdButtons(b) == AsRfdButtonsAsWritten(b)
    ensures !result.ResultCustom? ==> Handle(result, b) == HandleAsWritten(result, b)
  {
  }
}
