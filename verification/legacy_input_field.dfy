/** The older, untyped InputField. It keeps the same internal value, password
    toggle, clear button and style buckets as the typed component; it has no
    `required`, `id` or `name` props, and its helper row always has the id
    `input-help`.

    Its state machine is shown to be the typed one, run on the typed props
    the legacy props stand for. */
module LegacyInputField {
  import opened Wrappers
  import IF = InputField

  datatype Props = Props(
    value: string,
    hasOnChange: bool,
    labelText: string,
    helperText: string,
    errorMessage: string,
    disabled: bool,
    invalid: bool,
    variant: string,
    size: string,
    showClearButton: bool,
    inputType: string)

  /** The typed props the legacy props stand for: not required, no `id`, no
      `name`. */
  function Embed(p: Props): IF.Props
  {
    IF.Props(p.value, p.hasOnChange, p.labelText, p.helperText, p.errorMessage, p.disabled, p.invalid,
             p.variant, p.size, p.inputType, p.showClearButton, false, "", "")
  }

  datatype Field = Field(props: Props, state: IF.InputState)

  datatype Event = PropsChanged(next: Props) | Typed(text: string) | ClearClick | ToggleClick

  datatype Transition = Transition(field: Field, changes: seq<string>)

  function Mount(p: Props): Field
  {
    Field(p, IF.InputState(p.value, false))
  }

  /** The legacy handlers: the `[value]` effect, `handleChange`,
      `handleClear` behind the clear button's render condition, and the
      toggle behind the password check. */
  function Step(f: Field, e: Event): Transition
  {
    var p, s := f.props, f.state;
    match e
    case PropsChanged(next) =>
      Transition(Field(next, if next.value != p.value then s.(internalValue := next.value) else s), [])
    case Typed(text) =>
      Transition(Field(p, s.(internalValue := text)), if p.hasOnChange then [text] else [])
    case ClearClick =>
      if p.showClearButton && s.internalValue != "" && !p.disabled then
        Transition(Field(p, s.(internalValue := "")), if p.hasOnChange then [""] else [])
      else Transition(f, [])
    case ToggleClick =>
      if p.inputType == "password" then Transition(Field(p, s.(showPassword := !s.showPassword)), [])
      else Transition(f, [])
  }

  function EmbedField(f: Field): IF.Field
  {
    IF.Field(Embed(f.props), f.state)
  }

  function EmbedEvent(e: Event): IF.Event
  {
    match e
    case PropsChanged(next) => IF.PropsChanged(Embed(next))
    case Typed(text) => IF.Typed(text)
    case ClearClick => IF.ClearClick
    case ToggleClick => IF.ToggleClick
  }

  /** Mounting and every event do in the legacy field what they do in the
      typed field with the props it stands for. */
  lemma RefinesTyped(f: Field, e: Event)
    ensures EmbedField(Mount(f.props)) == IF.Mount(Embed(f.props))
    ensures var t, u := Step(f, e), IF.Step(EmbedField(f), EmbedEvent(e));
      EmbedField(t.field) == u.field && t.changes == u.changes
  {
  }

  /** `inputType`: a password field shows its text while revealed. */
  function EffectiveType(p: Props, s: IF.InputState): string
  {
    IF.EffectiveType(Embed(p), s)
  }

  /** The internal value starts as the `value` prop and is overwritten by a
      new one; typing sets it and calls `onChange` once with the text. */
  lemma MirrorAndTyping(f: Field, text: string, next: Props)
    ensures Mount(f.props).state.internalValue == f.props.value && !Mount(f.props).state.showPassword
    ensures var typed := Step(f, Typed(text));
      typed.field.state.internalValue == text
      && typed.changes == (if f.props.hasOnChange then [text] else [])
      && var after := Step(typed.field, PropsChanged(next)).field.state.internalValue;
         (next.value != f.props.value ==> after == next.value)
         && (next.value == f.props.value ==> after == text)
  {
  }

  /** The clear button appears exactly for an enabled field with
      `showClearButton` and a non-empty value; clicking it empties the field,
      reports `""` once and hides the button again. */
  lemma ClearEmpties(f: Field)
    ensures var t := Step(f, ClearClick);
      (t.field.state.internalValue == "" <==> f.state.internalValue == "" || (f.props.showClearButton && !f.props.disabled))
      && t.changes == (if f.props.hasOnChange && f.props.showClearButton && f.state.internalValue != "" && !f.props.disabled
                       then [""] else [])
      && Step(t.field, ClearClick) == Transition(t.field, [])
  {
  }

  /** The toggle flips only `showPassword`, and only on a password field;
      the field then shows its text exactly while revealed. */
  lemma ToggleOnlyReveals(f: Field)
    ensures var t := Step(f, ToggleClick);
      t.changes == [] && t.field.props == f.props
      && t.field.state.internalValue == f.state.internalValue
      && (t.field.state.showPassword != f.state.showPassword <==> f.props.inputType == "password")
    ensures EffectiveType(f.props, f.state) == "text" <==>
              f.props.inputType == "text" || (f.props.inputType == "password" && f.state.showPassword)
  {
  }

  /** `getVariantClasses` and `getSizeClasses`, shared with the typed field. */
  function StyleOf(p: Props): IF.Style
  {
    IF.StyleOf(Embed(p))
  }

  /** Disabled beats error, error beats normal, and the size is independent
      of both. */
  lemma StylePrecedence(p: Props)
    ensures p.disabled ==> StyleOf(p).palette == IF.DisabledPalette
    ensures !p.disabled && (p.invalid || p.errorMessage != "") ==>
              StyleOf(p).palette == IF.ErrorPalette(IF.VariantOf(p.variant))
    ensures !p.disabled && !p.invalid && p.errorMessage == "" ==>
              StyleOf(p).palette == IF.NormalPalette(IF.VariantOf(p.variant))
    ensures StyleOf(p).size == (if p.size == "sm" then IF.Small else if p.size == "lg" then IF.Large else IF.Medium)
  {
  }

  /** The row under the input. */
  function HelperSlot(p: Props): Option<IF.HelperRow>
  {
    IF.HelperSlot(Embed(p))
  }

  /** `aria-describedby`: always the fixed id `input-help`. */
  function DescribedBy(p: Props): Option<string>
  {
    if p.helperText != "" || p.errorMessage != "" then Some("input-help") else None
  }

  /** The legacy helper wiring is the typed one for an input whose id is
      `input`: the helper row shows the error message in preference and is
      what the input is described by. */
  lemma HelperWiring(p: Props)
    ensures DescribedBy(p) == IF.DescribedBy(Embed(p), "input")
    ensures DescribedBy(p).Some? <==> HelperSlot(p).Some?
    ensures p.errorMessage != "" ==> HelperSlot(p) == Some(IF.HelperRow(p.errorMessage, true))
    ensures p.errorMessage == "" && p.helperText != "" ==> HelperSlot(p) == Some(IF.HelperRow(p.helperText, false))
  {
    assert "input" + "-help" == "input-help";
  }

  /** A legacy label never carries the required marker: the legacy props
      have no `required`, so they stand for a typed field that is not
      required, and the typed rule then shows no marker. */
  lemma NoRequiredMarker(p: Props)
    ensures !IF.RequiredMarker(Embed(p))
    ensures p.labelText != "" ==> IF.LabelOf(Embed(p), "input").value.parts == [IF.LabelText(p.labelText)]
  {
  }
}
