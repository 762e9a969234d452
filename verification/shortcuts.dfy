/** The keyboard shortcut widget (src/widgets/shortcuts.rs): a map from a
    key and modifier state to a callback, filled so that a character
    shortcut answers to both cases, and the dispatch of a keyboard event to
    the physical and logical matches. Callbacks are named by identifiers;
    case mapping covers the ASCII letters. */
module CushyShortcuts {
  import opened Common

  /** A callback, by identity. */
  type CallbackId = nat

  /** The modifier state, as its bit mask. */
  type Modifiers = nat

  /** A logical key: a character string or a named key. */
  datatype Key = Character(text: string) | Named(name: nat)

  /** `ShortcutKey`: a logical key or a physical key code. */
  datatype ShortcutKey = Logical(key: Key) | Physical(code: nat)

  /** `Shortcut`. */
  datatype Shortcut = Shortcut(key: ShortcutKey, modifiers: Modifiers)

  /** `ShortcutConfig`: whether repeats invoke the callback, and the
      callback. */
  datatype ShortcutConfig = ShortcutConfig(repeat: bool, callback: CallbackId)

  /** The lowercase of a character (ASCII letters only). */
  function LowerChar(c: char): char
  {
    if 'A' <= c <= 'Z' then (c as int + 32) as char else c
  }

  /** The uppercase of a character (ASCII letters only). */
  function UpperChar(c: char): char
  {
    if 'a' <= c <= 'z' then (c as int - 32) as char else c
  }

  /** `to_lowercase` on a string. */
  function Lower(s: string): (r: string)
    ensures |r| == |s| && forall i :: 0 <= i < |s| ==> r[i] == LowerChar(s[i])
  {
    if s == [] then [] else [LowerChar(s[0])] + Lower(s[1..])
  }

  /** `to_uppercase` on a string. */
  function Upper(s: string): (r: string)
    ensures |r| == |s| && forall i :: 0 <= i < |s| ==> r[i] == UpperChar(s[i])
  {
    if s == [] then [] else [UpperChar(s[0])] + Upper(s[1..])
  }

  /** Case mapping is idempotent, and each case absorbs the other. */
  lemma CaseMappingLaws(s: string)
    ensures Lower(Lower(s)) == Lower(s) && Upper(Upper(s)) == Upper(s)
    ensures Lower(Upper(s)) == Lower(s) && Upper(Lower(s)) == Upper(s)
  {
  }

  /** `Shortcut::into_variations`: the shortcut itself, and for a character
      key the same shortcut with the other case: the uppercase when the
      character is already lowercase, otherwise the lowercase. */
  function IntoVariations(s: Shortcut): (r: (Shortcut, Option<Shortcut>))
    ensures r.0 == s
    ensures r.1.Some? <==> s.key.Logical? && s.key.key.Character?
    ensures r.1.Some? ==> r.1.value.modifiers == s.modifiers && r.1.value.key.Logical? && r.1.value.key.key.Character?
    ensures r.1.Some? ==> var c := s.key.key.text;
      r.1.value.key.key.text == (if c == Lower(c) then Upper(c) else Lower(c))
  {
    match s.key
    case Logical(Character(c)) =>
      var lowercase := Lower(c);
      var uppercase := Upper(c);
      if c == lowercase then (s, Some(Shortcut(Logical(Character(uppercase)), s.modifiers)))
      else (s, Some(Shortcut(Logical(Character(lowercase)), s.modifiers)))
    case _ => (s, None)
  }

  /** A key event as the widget sees it. */
  datatype KeyEvent = KeyEvent(physicalKey: nat, logicalKey: Key, modifiers: Modifiers, pressed: bool, repeat: bool)

  /** What `keyboard_input` does: whether the event is handled, and the
      callbacks it invokes, in order. */
  datatype Dispatch = Dispatch(handled: bool, invoked: seq<CallbackId>)

  /** The callback of a matching config, when the event may invoke it: the
      key is pressed and the event is not a repeat or the config allows
      repeats. */
  function Fire(input: KeyEvent, config: ShortcutConfig): seq<CallbackId>
  {
    if input.pressed && (!input.repeat || config.repeat) then [config.callback] else []
  }

  /** The shortcut a physical key press looks up. */
  function PhysicalShortcut(input: KeyEvent): Shortcut
  {
    Shortcut(Physical(input.physicalKey), input.modifiers)
  }

  /** The shortcut a logical key press looks up. */
  function LogicalShortcut(input: KeyEvent): Shortcut
  {
    Shortcut(Logical(input.logicalKey), input.modifiers)
  }

  /** `Shortcuts`: the shortcut map of the widget. */
  class Shortcuts {
    var shortcuts: map<Shortcut, ShortcutConfig>

    /** `Shortcuts::new`: no shortcuts. */
    constructor()
      ensures shortcuts == map[]
    {
      shortcuts := map[];
    }

    /** `insert_shortcut`: both variations of the shortcut are stored with
        the same config (the shortcut itself last), and nothing else
        changes. */
    method InsertShortcut(key: ShortcutKey, modifiers: Modifiers, repeat: bool, callback: CallbackId)
      modifies this
      ensures var v := IntoVariations(Shortcut(key, modifiers)); var config := ShortcutConfig(repeat, callback);
        shortcuts == (if v.1.Some? then old(shortcuts)[v.1.value := config] else old(shortcuts))[v.0 := config]
    {
      var v := IntoVariations(Shortcut(key, modifiers));
      var config := ShortcutConfig(repeat, callback);
      if v.1.Some? {
        shortcuts := shortcuts[v.1.value := config];
      }
      shortcuts := shortcuts[v.0 := config];
    }

    /** `with_shortcut`: a shortcut that ignores repeats. */
    method WithShortcut(key: ShortcutKey, modifiers: Modifiers, callback: CallbackId)
      modifies this
      ensures Shortcut(key, modifiers) in shortcuts && shortcuts[Shortcut(key, modifiers)] == ShortcutConfig(false, callback)
      ensures forall s :: s in old(shortcuts) ==> s in shortcuts
    {
      InsertShortcut(key, modifiers, false, callback);
    }

    /** `with_repeating_shortcut`: a shortcut that fires on repeats too. */
    method WithRepeatingShortcut(key: ShortcutKey, modifiers: Modifiers, callback: CallbackId)
      modifies this
      ensures Shortcut(key, modifiers) in shortcuts && shortcuts[Shortcut(key, modifiers)] == ShortcutConfig(true, callback)
      ensures forall s :: s in old(shortcuts) ==> s in shortcuts
    {
      InsertShortcut(key, modifiers, true, callback);
    }

    /** `keyboard_input`: see `KeyboardDispatch`. */
    function KeyboardInput(input: KeyEvent): (r: Dispatch)
      reads this
    {
      KeyboardDispatch(shortcuts, input)
    }
  }

  /** The dispatch of `keyboard_input` on a shortcut map: when the physical
      and the logical key both match with different callbacks, both may
      fire, the physical one first; when only one matches, or both with the
      same callback, that one (the physical one first) may fire; without a
      match the event is ignored. */
  function KeyboardDispatch(shortcuts: map<Shortcut, ShortcutConfig>, input: KeyEvent): (r: Dispatch)
    ensures r.handled <==> PhysicalShortcut(input) in shortcuts || LogicalShortcut(input) in shortcuts
    ensures |r.invoked| <= 2
    ensures !input.pressed ==> r.invoked == []
    ensures forall i :: 0 <= i < |r.invoked| ==>
      exists s :: s in shortcuts && (s == PhysicalShortcut(input) || s == LogicalShortcut(input))
        && shortcuts[s].callback == r.invoked[i] && (!input.repeat || shortcuts[s].repeat)
  {
    var physical := PhysicalShortcut(input);
    var logical := LogicalShortcut(input);
    if physical in shortcuts && logical in shortcuts && shortcuts[physical].callback != shortcuts[logical].callback then
      Dispatch(true, Fire(input, shortcuts[physical]) + Fire(input, shortcuts[logical]))
    else if physical in shortcuts then
      Dispatch(true, Fire(input, shortcuts[physical]))
    else if logical in shortcuts then
      Dispatch(true, Fire(input, shortcuts[logical]))
    else
      Dispatch(false, [])
  }

  /** A character shortcut given in one case (all lowercase or all
      uppercase) answers to the key in both cases, with the same config. */
  lemma CharacterShortcutMatchesBothCases(before: map<Shortcut, ShortcutConfig>, c: string, modifiers: Modifiers,
                                          config: ShortcutConfig)
    requires c == Lower(c) || c == Upper(c)
    ensures var v := IntoVariations(Shortcut(Logical(Character(c)), modifiers));
      var after := (if v.1.Some? then before[v.1.value := config] else before)[v.0 := config];
      && Shortcut(Logical(Character(Lower(c))), modifiers) in after
      && after[Shortcut(Logical(Character(Lower(c))), modifiers)] == config
      && Shortcut(Logical(Character(Upper(c))), modifiers) in after
      && after[Shortcut(Logical(Character(Upper(c))), modifiers)] == config
  {
    CaseMappingLaws(c);
  }

  /** A pressed, non-repeated key whose only match is a character shortcut
      invokes exactly that shortcut's callback, whichever case the key
      arrives in. */
  lemma PressInvokesRegisteredCallback(before: map<Shortcut, ShortcutConfig>, c: string, modifiers: Modifiers,
                                       config: ShortcutConfig, physicalKey: nat, typed: string)
    requires c == Lower(c) || c == Upper(c)
    requires typed == Lower(c) || typed == Upper(c)
    requires Shortcut(Physical(physicalKey), modifiers) !in before
    ensures var v := IntoVariations(Shortcut(Logical(Character(c)), modifiers));
      var after := (if v.1.Some? then before[v.1.value := config] else before)[v.0 := config];
      KeyboardDispatch(after, KeyEvent(physicalKey, Character(typed), modifiers, true, false)) == Dispatch(true, [config.callback])
  {
    CharacterShortcutMatchesBothCases(before, c, modifiers, config);
  }

  /** A key release, or a repeat of a shortcut that does not repeat, is
      still handled when a shortcut matches, but invokes nothing. */
  lemma ReleaseAndRepeatAreSwallowed(shortcuts: map<Shortcut, ShortcutConfig>, input: KeyEvent)
    requires PhysicalShortcut(input) in shortcuts || LogicalShortcut(input) in shortcuts
    requires !input.pressed || (input.repeat
      && (PhysicalShortcut(input) in shortcuts ==> !shortcuts[PhysicalShortcut(input)].repeat)
      && (LogicalShortcut(input) in shortcuts ==> !shortcuts[LogicalShortcut(input)].repeat))
    ensures KeyboardDispatch(shortcuts, input) == Dispatch(true, [])
  {
  }

  /** When the physical and logical keys match different callbacks, a fresh
      press invokes both, the physical one first. */
  lemma DistinctMatchesBothFire(shortcuts: map<Shortcut, ShortcutConfig>, input: KeyEvent)
    requires PhysicalShortcut(input) in shortcuts && LogicalShortcut(input) in shortcuts
    requires shortcuts[PhysicalShortcut(input)].callback != shortcuts[LogicalShortcut(input)].callback
    requires input.pressed && !input.repeat
    ensures KeyboardDispatch(shortcuts, input)
      == Dispatch(true, [shortcuts[PhysicalShortcut(input)].callback, shortcuts[LogicalShortcut(input)].callback])
  {
  }
}
