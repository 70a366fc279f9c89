/** The typed InputField component: a text input that mirrors its `value`
    prop in an internal value, can reveal a password, can be cleared, and
    picks its look from a few style buckets.

    An optional string prop that is absent is modelled as the empty string:
    the component only ever tests such props for truthiness, and `undefined`
    and `""` are both false. Whether `onChange` was supplied is a flag; each
    call of it is recorded by the value it carries. */
module InputField {
  import opened Wrappers

  /** The props the logic reads; `label` is called `labelText` here. */
  datatype Props = Props(
    value: string,
    hasOnChange: bool,
    labelText: string,
    helperText: string,
    errorMessage: string,
    disabled: bool,
    invalid: bool,
    variant: string,
    size: string,
    inputType: string,
    showClearButton: bool,
    required: bool,
    id: string,
    name: string)

  /** The props a bare `<InputField />` receives. */
  const DefaultProps := Props("", false, "", "", "", false, false, "outlined", "md", "text", false, false, "", "")

  /** `internalValue` and `showPassword`. */
  datatype InputState = InputState(internalValue: string, showPassword: bool)

  /** The values passed to `onChange`, one per call, in call order. */
  datatype Outcome = Outcome(state: InputState, changes: seq<string>)

  function Init(p: Props): InputState
  {
    InputState(p.value, false)
  }

  /** The effect on `[value]`: it runs when a render brings a `value` that
      differs from the previous one, and then overwrites the internal value. */
  function Resync(prev: Props, next: Props, s: InputState): InputState
  {
    if next.value != prev.value then s.(internalValue := next.value) else s
  }

  /** `onChange` called with `v`, if the caller supplied it. */
  function Notify(p: Props, v: string): seq<string>
  {
    if p.hasOnChange then [v] else []
  }

  /** `handleChange`: the typed text becomes the internal value at once and
      is reported to `onChange`. */
  function HandleChange(p: Props, s: InputState, text: string): Outcome
  {
    Outcome(s.(internalValue := text), Notify(p, text))
  }

  /** `handleClear`: empties the internal value and reports an empty value. */
  function HandleClear(p: Props, s: InputState): Outcome
  {
    Outcome(s.(internalValue := ""), Notify(p, ""))
  }

  function TogglePassword(s: InputState): InputState
  {
    s.(showPassword := !s.showPassword)
  }

  /** `inputType`: a password field shows its text while revealed. */
  function EffectiveType(p: Props, s: InputState): string
  {
    if p.inputType == "password" && s.showPassword then "text" else p.inputType
  }

  predicate ToggleShown(p: Props)
  {
    p.inputType == "password"
  }

  predicate ClearShown(p: Props, s: InputState)
  {
    p.showClearButton && s.internalValue != "" && !p.disabled
  }

  // ---------------------------------------------------------------------
  // Style buckets

  datatype VariantStyle = Filled | Outlined | Ghost

  /** `filled` and `ghost` have their own look; any other variant looks
      outlined. */
  datatype Palette = DisabledPalette | ErrorPalette(variant: VariantStyle) | NormalPalette(variant: VariantStyle)

  datatype SizeStyle = Small | Medium | Large

  datatype Style = Style(palette: Palette, size: SizeStyle)

  function VariantOf(variant: string): VariantStyle
  {
    if variant == "filled" then Filled else if variant == "ghost" then Ghost else Outlined
  }

  predicate HasError(p: Props)
  {
    p.invalid || p.errorMessage != ""
  }

  /** `getVariantClasses`. */
  function PaletteOf(p: Props): Palette
  {
    if p.disabled then DisabledPalette
    else if HasError(p) then ErrorPalette(VariantOf(p.variant))
    else NormalPalette(VariantOf(p.variant))
  }

  /** `getSizeClasses`. */
  function SizeOf(p: Props): SizeStyle
  {
    if p.size == "sm" then Small else if p.size == "lg" then Large else Medium
  }

  function StyleOf(p: Props): Style
  {
    Style(PaletteOf(p), SizeOf(p))
  }

  /** Disabled beats error, error beats normal, and the variant picks the
      look within the error and normal palettes. */
  lemma PalettePrecedence(p: Props)
    ensures p.disabled ==> StyleOf(p).palette == DisabledPalette
    ensures !p.disabled && (p.invalid || p.errorMessage != "") ==>
              StyleOf(p).palette == ErrorPalette(VariantOf(p.variant))
    ensures !p.disabled && !p.invalid && p.errorMessage == "" ==>
              StyleOf(p).palette == NormalPalette(VariantOf(p.variant))
    ensures VariantOf(p.variant) == Outlined <==> p.variant != "filled" && p.variant != "ghost"
  {
  }

  /** The size axis and the palette axis are independent: changing the size
      never changes the palette, and changing anything but the size never
      changes the size. */
  lemma StyleAxesIndependent(p: Props, size: string, q: Props)
    requires q.size == p.size
    ensures StyleOf(p.(size := size)).palette == StyleOf(p).palette
    ensures StyleOf(q).size == StyleOf(p).size
    ensures StyleOf(p).size == Small <==> p.size == "sm"
    ensures StyleOf(p).size == Large <==> p.size == "lg"
  {
  }

  /** The looks the component's tests check: filled and ghost variants, the
      small and large sizes. */
  lemma StyleExamples()
    ensures StyleOf(DefaultProps) == Style(NormalPalette(Outlined), Medium)
    ensures StyleOf(DefaultProps.(variant := "filled")).palette == NormalPalette(Filled)
    ensures StyleOf(DefaultProps.(variant := "ghost")).palette == NormalPalette(Ghost)
    ensures StyleOf(DefaultProps.(size := "sm")).size == Small
    ensures StyleOf(DefaultProps.(size := "lg")).size == Large
  {
  }

  // ---------------------------------------------------------------------
  // Label, helper row and accessibility wiring

  /** The row under the input: its text and whether it is the error tone. */
  datatype HelperRow = HelperRow(text: string, isError: bool)

  function HelperSlot(p: Props): Option<HelperRow>
  {
    if p.helperText == "" && p.errorMessage == "" then None
    else Some(HelperRow(if p.errorMessage != "" then p.errorMessage else p.helperText, p.errorMessage != ""))
  }

  /** `inputId`: the `id` prop, else the `name` prop, else a generated id
      (the generator is a parameter here). */
  function InputId(p: Props, generated: string): string
  {
    if p.id != "" then p.id else if p.name != "" then p.name else generated
  }

  /** `aria-describedby`: the helper row's id, when there is a helper row. */
  function DescribedBy(p: Props, inputId: string): Option<string>
  {
    if p.helperText != "" || p.errorMessage != "" then Some(inputId + "-help") else None
  }

  /** The `*` after the label. */
  predicate RequiredMarker(p: Props)
  {
    p.labelText != "" && p.required
  }

  /** What a label element holds: the label text, then possibly the marker. */
  datatype LabelPart = LabelText(text: string) | Marker

  /** The rendered label: the input it is for, whether it has the error
      tone, and its children. */
  datatype Label = Label(htmlFor: string, errorTone: bool, parts: seq<LabelPart>)

  /** The label element, rendered only when there is a label text. */
  function LabelOf(p: Props, inputId: string): Option<Label>
  {
    if p.labelText == "" then None
    else Some(Label(inputId, HasError(p), [LabelText(p.labelText)] + (if p.required then [Marker] else [])))
  }

  /** The helper row appears exactly when there is a helper text or an error
      message, shows the error message in preference, and is what the input
      is described by. */
  lemma HelperSlotRule(p: Props, inputId: string)
    ensures HelperSlot(p).Some? <==> p.helperText != "" || p.errorMessage != ""
    ensures p.errorMessage != "" ==> HelperSlot(p) == Some(HelperRow(p.errorMessage, true))
    ensures p.errorMessage == "" && p.helperText != "" ==> HelperSlot(p) == Some(HelperRow(p.helperText, false))
    ensures DescribedBy(p, inputId).Some? <==> HelperSlot(p).Some?
  {
  }

  /** The generated id is only used when neither `id` nor `name` is given. */
  lemma InputIdFallback(p: Props, generated: string)
    ensures p.id != "" ==> InputId(p, generated) == p.id
    ensures p.id == "" && p.name != "" ==> InputId(p, generated) == p.name
    ensures p.id == "" && p.name == "" ==> InputId(p, generated) == generated
  {
  }

  /** The required marker needs both a label and `required`, and it is
      exactly a `*` child of the rendered label, after the label text. */
  lemma RequiredMarkerRule(p: Props, inputId: string)
    ensures RequiredMarker(p) <==> p.labelText != "" && p.required
    ensures RequiredMarker(p) <==> LabelOf(p, inputId).Some? && Marker in LabelOf(p, inputId).value.parts
    ensures RequiredMarker(p) ==> LabelOf(p, inputId).value.parts == [LabelText(p.labelText), Marker]
    ensures RequiredMarker(p) ==> RequiredMarker(p.(disabled := !p.disabled))
  {
    if LabelOf(p, inputId).Some? && !p.required {
      assert LabelOf(p, inputId).value.parts == [LabelText(p.labelText)];
    }
  }

  /** A label shows exactly when there is a label text; it starts with that
      text, points at the input's id and takes the error tone exactly when
      the field has an error. */
  lemma LabelRule(p: Props, generated: string)
    ensures var id := InputId(p, generated);
      (LabelOf(p, id).Some? <==> p.labelText != "")
      && (LabelOf(p, id).Some? ==>
            LabelOf(p, id).value.parts[0] == LabelText(p.labelText)
            && LabelOf(p, id).value.htmlFor == id
            && (LabelOf(p, id).value.errorTone <==> p.invalid || p.errorMessage != ""))
  {
  }

  // ---------------------------------------------------------------------
  // The component as a state machine

  datatype Field = Field(props: Props, state: InputState)

  function Mount(p: Props): Field
  {
    Field(p, Init(p))
  }

  /** A re-render with new props, a keystroke, or a click on one of the two
      buttons. */
  datatype Event = PropsChanged(next: Props) | Typed(text: string) | ClearClick | ToggleClick

  datatype Transition = Transition(field: Field, changes: seq<string>)

  /** What an event does. The clear and toggle buttons can only be clicked
      while they are rendered. */
  function Step(f: Field, e: Event): Transition
  {
    match e
    case PropsChanged(next) => Transition(Field(next, Resync(f.props, next, f.state)), [])
    case Typed(text) =>
      var o := HandleChange(f.props, f.state, text);
      Transition(Field(f.props, o.state), o.changes)
    case ClearClick =>
      if ClearShown(f.props, f.state) then
        var o := HandleClear(f.props, f.state);
        Transition(Field(f.props, o.state), o.changes)
      else Transition(f, [])
    case ToggleClick =>
      if ToggleShown(f.props) then Transition(Field(f.props, TogglePassword(f.state)), [])
      else Transition(f, [])
  }

  /** A mounted field shows its `value` prop, masked if it is a password. */
  lemma MountMirrorsValue(p: Props)
    ensures Mount(p).state.internalValue == p.value
    ensures EffectiveType(p, Mount(p).state) == p.inputType
  {
  }

  /** A new `value` prop overrides whatever was typed; a re-render with the
      same `value` keeps what was typed. */
  lemma PropValueWins(f: Field, text: string, next: Props)
    ensures var typed := Step(f, Typed(text)).field;
      var after := Step(typed, PropsChanged(next)).field;
      (next.value != f.props.value ==> after.state.internalValue == next.value)
      && (next.value == f.props.value ==> after.state.internalValue == text)
      && after.props == next
  {
  }

  /** Typing sets the internal value to the typed text and calls `onChange`
      exactly once with it (never when it is absent). */
  lemma TypingReportsOnce(f: Field, text: string)
    ensures var t := Step(f, Typed(text));
      t.field.state.internalValue == text
      && t.field.state.showPassword == f.state.showPassword
      && |t.changes| == (if f.props.hasOnChange then 1 else 0)
      && forall k :: 0 <= k < |t.changes| ==> t.changes[k] == text
  {
  }

  /** Clearing empties the field and reports one empty value; it hides the
      clear button, so a second click cannot happen and clearing is
      idempotent. */
  lemma ClearEmpties(f: Field)
    requires ClearShown(f.props, f.state)
    ensures var t := Step(f, ClearClick);
      t.field.state.internalValue == ""
      && t.changes == (if f.props.hasOnChange then [""] else [])
      && !ClearShown(t.field.props, t.field.state)
      && Step(t.field, ClearClick) == Transition(t.field, [])
      && HandleClear(f.props, t.field.state).state == t.field.state
  {
  }

  /** The clear button appears exactly for an enabled field with
      `showClearButton` once something is typed into it. */
  lemma ClearButtonAfterTyping(f: Field, text: string)
    ensures ClearShown(f.props, Step(f, Typed(text)).field.state) <==>
              f.props.showClearButton && text != "" && !f.props.disabled
  {
  }

  /** The visibility toggle exists only for password fields; it never
      changes the value or calls `onChange`, and two clicks undo each other. */
  lemma ToggleOnlyReveals(f: Field)
    ensures var t := Step(f, ToggleClick);
      t.changes == []
      && t.field.state.internalValue == f.state.internalValue
      && (t.field.state != f.state <==> ToggleShown(f.props))
      && Step(t.field, ToggleClick).field == f
  {
  }

  /** A password field is masked until the toggle is clicked, and shows its
      text exactly while revealed; other fields keep their type. */
  lemma PasswordMasking(p: Props)
    requires p.inputType == "password"
    ensures var f0 := Mount(p);
      var f1 := Step(f0, ToggleClick).field;
      var f2 := Step(f1, ToggleClick).field;
      EffectiveType(p, f0.state) == "password"
      && EffectiveType(p, f1.state) == "text"
      && EffectiveType(p, f2.state) == "password"
  {
  }

  lemma EffectiveTypeRule(p: Props, s: InputState)
    ensures EffectiveType(p, s) == "text" <==> p.inputType == "text" || (p.inputType == "password" && s.showPassword)
    ensures EffectiveType(p, s) != p.inputType ==> p.inputType == "password" && s.showPassword
  {
  }
}
