/** The age-in-days calculator form: its state record, the keystroke filter `handleChange`,
    the validator and transition `handleSubmit`, and the projection of the state onto the
    three visible outputs. Each handler is one atomic, pure transition on the record. */
module Calculator {
  import opened JsString
  import opened JsNumber

  /** A value that may be `null`. */
  datatype Option<T> = None | Some(value: T)

  /** The `ageInYears` slot of the form record: `null` until the age field is first edited,
      and from then on the raw text of the field, stored as typed. */
  datatype AgeSlot = Unset | Typed(text: string)

  /** The controlled values of the two input fields. */
  datatype FormInput = FormInput(name: string, ageInYears: AgeSlot)

  /** The component's whole state: the form record, the result sentence and both error flags. */
  datatype State = State(form: FormInput, result: string, nameError: bool, ageError: bool)

  /** The `name` attribute of the input that fired a change. */
  datatype Field = NameField | AgeField

  /** The host runtime's `Number(text)` and `Intl.NumberFormat().format(n)`, whose behaviour
      (decimal parsing, locale grouping) the calculator takes as given. */
  datatype Host = Host(toNumber: string -> Number, format: Number -> string)

  /** The state at mount: empty name, unset age, no result, no errors. */
  function Initial(): State {
    State(FormInput("", Unset), "", false, false)
  }

  /** `{ ...prev, [field]: value }`: one slot of the form record replaced. */
  function Store(f: FormInput, field: Field, value: string): FormInput {
    match field
    case NameField => f.(name := value)
    case AgeField => f.(ageInYears := Typed(value))
  }

  /** `handleChange`: a new name value is kept only when it passes the name pattern, and a
      rejected keystroke leaves the whole state as it was; a new age value is always kept.
      Only the edited slot changes, and the result and error flags are never touched. */
  function Change(s: State, field: Field, value: string): (r: State)
    ensures r.result == s.result && r.nameError == s.nameError && r.ageError == s.ageError
    ensures field == NameField && AllNameChars(value) ==>
              r.form.name == value && r.form.ageInYears == s.form.ageInYears
    ensures field == NameField && !AllNameChars(value) ==> r == s
    ensures field == AgeField ==> r.form.ageInYears == Typed(value) && r.form.name == s.form.name
  {
    var isName := if field == NameField then TestNamePattern(value) else true;
    if isName then s.(form := Store(s.form, field, value)) else s
  }

  /** Age text counts as unset when the field is absent or holds only whitespace. */
  predicate AgeUnset(text: Option<string>) {
    text.None? || AllWs(text.value)
  }

  /** `formAgeInYears`: `null` for absent or blank text, otherwise `Number(text)`, which may be
      NaN; presence depends on the text only, never on the number it denotes. */
  function ParseAge(host: Host, text: Option<string>): (n: Option<Number>)
    ensures n.None? <==> AgeUnset(text)
    ensures n.Some? ==> n.value == host.toNumber(text.value)
  {
    if text.None? || (TrimEmptyIff(text.value); Trim(text.value) == "") then None
    else Some(host.toNumber(text.value))
  }

  /** The result sentence for a name and a formatted day count. */
  function Sentence(name: string, days: string): string {
    name + " is approximately " + days + " days old!"
  }

  /** A submission is accepted when the name has a non-whitespace character and the age text
      is present. */
  predicate Valid(formName: string, formAge: Option<string>) {
    !AllWs(formName) && !AgeUnset(formAge)
  }

  /** The sentence a valid submission shows: the untrimmed name and the formatted product of
      the parsed age and 365. */
  function Message(host: Host, formName: string, formAge: Option<string>): string
    requires formAge.Some?
  {
    Sentence(formName, host.format(Times(host.toNumber(formAge.value), DaysPerYear)))
  }

  /** `handleSubmit` for the submitted name text and age text. Both error flags are
      recomputed from the submitted text alone. An accepted submission leaves the form
      record alone and shows the sentence; a rejected one clears the result and stores the
      trimmed name. The age slot is never changed. */
  function Submit(host: Host, s: State, formName: string, formAge: Option<string>): (r: State)
    ensures r.nameError <==> AllWs(formName)
    ensures r.ageError <==> AgeUnset(formAge)
    ensures r.form.ageInYears == s.form.ageInYears
    ensures Valid(formName, formAge) ==>
              r.form == s.form && r.result == Message(host, formName, formAge)
    ensures !Valid(formName, formAge) ==> r.result == "" && r.form.name == Trim(formName)
    ensures AllWs(formName) ==> r.form.name == ""
    ensures r.result != "" <==> Valid(formName, formAge)
  {
    TrimEmptyIff(formName);
    var ageInYears := ParseAge(host, formAge);
    var ageInDays := if ageInYears.None? then None else Some(Times(ageInYears.value, DaysPerYear));
    var formatted := if ageInDays.None? then None else Some(host.format(ageInDays.value));
    if Trim(formName) == "" || ageInYears.None? then
      var form :=
        if Trim(formName) == "" then s.form.(name := "")
        else s.form.(name := Trim(formName));
      State(form, "", Trim(formName) == "", ageInYears.None?)
    else
      State(s.form, Sentence(formName, formatted.value), false, false)
  }

  const NameMissing: string := "Please enter a name"
  const AgeMissing: string := "Please enter an age"
  /** The neutral glyph shown under a field without an error. */
  const NoError: string := "-"

  /** What the user sees: both field values, the text under each field, and the result. */
  datatype View = View(nameValue: string, nameHint: string, ageValue: string, ageHint: string,
                       message: string)

  /** The age input's displayed value: empty while the slot is unset, the stored text otherwise. */
  function AgeText(a: AgeSlot): string {
    match a
    case Unset => ""
    case Typed(t) => t
  }

  /** The rendered form. The error text under a field appears exactly when that field's flag
      is set, and otherwise the neutral glyph does. */
  function Render(s: State): (v: View)
    ensures v.nameHint == NameMissing <==> s.nameError
    ensures v.nameHint == NoError <==> !s.nameError
    ensures v.ageHint == AgeMissing <==> s.ageError
    ensures v.ageHint == NoError <==> !s.ageError
    ensures v.nameValue == s.form.name && v.message == s.result
    ensures v.ageValue == AgeText(s.form.ageInYears)
  {
    View(s.form.name, if s.nameError then NameMissing else NoError,
         AgeText(s.form.ageInYears), if s.ageError then AgeMissing else NoError,
         s.result)
  }

  /** What the user sees tells them everything the state says about the submission: two states
      that render alike have the same error flags, the same stored name, the same displayed age
      and the same result, because each error text differs from the neutral glyph. */
  lemma ViewDeterminesState(s: State, t: State)
    ensures Render(s) == Render(t) ==>
              s.nameError == t.nameError && s.ageError == t.ageError && s.form.name == t.form.name
              && AgeText(s.form.ageInYears) == AgeText(t.form.ageInYears) && s.result == t.result
  {
  }

  /** At mount the form shows two empty fields, the neutral glyph under each, and no result. */
  lemma InitialView()
    ensures Render(Initial()) == View("", NoError, "", NoError, "")
    ensures AllNameChars(Initial().form.name)
  {
  }

  /** A name edit is applied exactly when the new text passes the name pattern (or already is
      the stored name); an age edit is always applied. */
  lemma ChangeAppliedIff(s: State, field: Field, value: string)
    ensures (Change(s, field, value) == s.(form := Store(s.form, field, value)))
            <==> (field == AgeField || AllNameChars(value) || value == s.form.name)
  {
  }

  /** The error flags and the result after a submit depend on the submitted text only, not on
      what the state held before: each flag is recomputed independently on every submit. */
  lemma SubmitForgetsPrior(host: Host, s1: State, s2: State, formName: string, formAge: Option<string>)
    ensures var r1, r2 := Submit(host, s1, formName, formAge), Submit(host, s2, formName, formAge);
            r1.nameError == r2.nameError && r1.ageError == r2.ageError && r1.result == r2.result
  {
  }

  /** Whether a submission is accepted never depends on the number the age text denotes:
      two runtimes that parse and format differently set the same flags and store the same
      form record, and a NaN age is accepted like any other present age. */
  lemma SubmitIgnoresNumber(h1: Host, h2: Host, s: State, formName: string, formAge: Option<string>)
    ensures var r1, r2 := Submit(h1, s, formName, formAge), Submit(h2, s, formName, formAge);
            r1.nameError == r2.nameError && r1.ageError == r2.ageError && r1.form == r2.form
            && (r1.result == "" <==> r2.result == "")
  {
  }

  /** Submitting the same text twice leaves the state the first submit produced. */
  lemma SubmitIdempotent(host: Host, s: State, formName: string, formAge: Option<string>)
    ensures var r := Submit(host, s, formName, formAge);
            Submit(host, r, formName, formAge) == r
  {
  }

  /** After a submit, the text under the name field asks for a name exactly when the submitted
      name was blank, the text under the age field asks for an age exactly when the submitted
      age was blank, and a sentence is shown exactly when neither was. */
  lemma SubmitThenRender(host: Host, s: State, formName: string, formAge: Option<string>)
    ensures var v := Render(Submit(host, s, formName, formAge));
            (v.nameHint == NameMissing <==> AllWs(formName))
            && (v.ageHint == AgeMissing <==> AgeUnset(formAge))
            && (v.message != "" <==> Valid(formName, formAge))
  {
  }

  /** A submitted name that passes the name pattern is stored, trimmed or untouched, as a
      value that still passes it. */
  lemma SubmitKeepsNamePattern(host: Host, s: State, formName: string, formAge: Option<string>)
    requires AllNameChars(s.form.name) && AllNameChars(formName)
    ensures AllNameChars(Submit(host, s, formName, formAge).form.name)
  {
    TrimKeepsNameChars(formName);
  }

  /** A submission with a name and an age that the runtime reads as the finite number `years`
      shows the untrimmed name and the formatted value of `years * 365`; for instance "Alice"
      aged "10" reads "Alice is approximately 3,650 days old!" where 3650 is formatted "3,650". */
  lemma AcceptedSentence(host: Host, s: State, formName: string, ageText: string, years: real)
    requires !AllWs(formName) && !AllWs(ageText)
    requires host.toNumber(ageText) == Finite(years)
    ensures Submit(host, s, formName, Some(ageText)).result
            == formName + " is approximately " + host.format(Finite(years * 365.0)) + " days old!"
  {
    SentenceOfFinite(host, formName, ageText, years);
  }

  /** The sentence for an age read as the finite number `years` carries `years * 365`. */
  lemma SentenceOfFinite(host: Host, formName: string, ageText: string, years: real)
    requires host.toNumber(ageText) == Finite(years)
    ensures Message(host, formName, Some(ageText))
            == formName + " is approximately " + host.format(Finite(years * 365.0)) + " days old!"
  {
    assert Times(Finite(years), DaysPerYear) == Finite(years * 365.0);
  }

  /** A padded name submitted without an age is stored trimmed, with the name error clear and
      the age error set. */
  lemma PaddedNameExample(host: Host, s: State)
    ensures var r := Submit(host, s, "  Bob  ", None);
            r.form.name == "Bob" && !r.nameError && r.ageError && r.result == ""
  {
    var padded := "  Bob  ";
    assert padded[2..5] == "Bob" && padded[..2] == "  " && padded[5..] == "  ";
    TrimUnique(padded, "Bob", 2);
    assert !IsWs(padded[2]);
  }
}
