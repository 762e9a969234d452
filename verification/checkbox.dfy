/** The tri-state value of the `Checkbox` widget (src/widgets/checkbox.rs)
    and its conversions to and from `bool` and `Option<bool>`. */
module CushyCheckbox {
  import opened Common

  /** `CheckboxState`. */
  datatype CheckboxState = Indeterminant | Unchecked | Checked

  /** `CheckboxToBoolError`: an indeterminant state has no `bool`. */
  datatype CheckboxToBoolError = CheckboxToBoolError

  /** `From<bool> for CheckboxState`. */
  function FromBool(b: bool): (s: CheckboxState)
    ensures s != Indeterminant
    ensures s == Checked <==> b
  {
    if b then Checked else Unchecked
  }

  /** `TryFrom<CheckboxState> for bool`: fails exactly on an indeterminant
      state. */
  function TryIntoBool(s: CheckboxState): (r: Result<bool, CheckboxToBoolError>)
    ensures r.Err? <==> s == Indeterminant
    ensures r.Ok? ==> (r.value <==> s == Checked)
  {
    match s
    case Checked => Ok(true)
    case Unchecked => Ok(false)
    case Indeterminant => Err(CheckboxToBoolError)
  }

  /** `From<CheckboxState> for Option<bool>`. */
  function IntoOption(s: CheckboxState): (r: Option<bool>)
    ensures r.None? <==> s == Indeterminant
    ensures r.Some? ==> (r.value <==> s == Checked)
  {
    match s
    case Indeterminant => None
    case Unchecked => Some(false)
    case Checked => Some(true)
  }

  /** `From<Option<bool>> for CheckboxState`. */
  function FromOption(o: Option<bool>): (s: CheckboxState)
    ensures s == Indeterminant <==> o.None?
    ensures s == Checked <==> o == Some(true)
  {
    match o
    case Some(true) => Checked
    case Some(false) => Unchecked
    case None => Indeterminant
  }

  /** `bool -> CheckboxState -> bool` gives the `bool` back, and a state
      that converts to a `bool` converts back to itself. */
  lemma BoolRoundTrip(b: bool, s: CheckboxState)
    ensures TryIntoBool(FromBool(b)) == Ok(b)
    ensures TryIntoBool(s).Ok? ==> FromBool(TryIntoBool(s).value) == s
  {
  }

  /** `Option<bool>` and `CheckboxState` are in one-to-one correspondence. */
  lemma OptionBijection(o: Option<bool>, s: CheckboxState)
    ensures IntoOption(FromOption(o)) == o
    ensures FromOption(IntoOption(s)) == s
  {
  }

  /** `Not for CheckboxState`: checked becomes unchecked, and either other
      state becomes checked. */
  function Negate(s: CheckboxState): (r: CheckboxState)
    ensures r != Indeterminant
    ensures r == Unchecked <==> s == Checked
  {
    match s
    case Indeterminant | Unchecked => Checked
    case Checked => Unchecked
  }

  /** Negation agrees with `bool`'s `!` on determinate states, is undone by a
      second negation there, and takes an indeterminant box to checked. */
  lemma NegateIsBoolNot(b: bool)
    ensures Negate(FromBool(b)) == FromBool(!b)
    ensures Negate(Negate(FromBool(b))) == FromBool(b)
    ensures Negate(Indeterminant) == Checked
  {
  }

  /** The checkbox's `state`: a click replaces it by its negation (the
      `on_click` handler of `make_widget`). */
  class Checkbox {
    var state: CheckboxState

    /** `Checkbox::new`, with the given state. */
    constructor (state: CheckboxState)
      ensures this.state == state
    {
      this.state := state;
    }

    /** A click on the box or its label. */
    method Click()
      modifies this
      ensures state == Negate(old(state))
      ensures state != Indeterminant
    {
      state := Negate(state);
    }
  }
}
