# Age-in-days calculator, modelled in Dafny

The repository is a single form component, `Calculator`, that asks for a name and an age in
years and shows "<name> is approximately <days> days old!". Its logic is two event handlers
over one state record `{name, ageInYears, result, nameError, ageError}`:

- `handleChange` is a keystroke filter. A new name is kept only if every character is an
  ASCII letter or whitespace (`/^[A-Za-z\s]*$/`). Otherwise the keystroke is dropped. A new
  age text is always kept.
- `handleSubmit` validates the submitted name and age text. It sets both error flags. On a
  rejected submission it stores the trimmed name and clears the result. On an accepted one it
  builds the result sentence from the untrimmed name and the formatted `age * 365`.

The model has four modules:

- `JsString` (`js_string.dfy`): the ECMAScript whitespace set shared by `\s` and `trim`, the
  name pattern, and `String.prototype.trim` with its characterisation (a bare infix with only
  whitespace around it, unique, idempotent).
- `JsNumber` (`js_number.dfy`): Number values (NaN, finite, infinite) and the product with 365.
- `Calculator` (`calculator.dfy`): the state record, `Change` (handleChange), `Submit`
  (handleSubmit), `Render` (the visible outputs) and the lemmas about them.
- `Session` (`session.dfy`): the component as a user drives it. Submit reads the text the
  controlled inputs show. A session is a run of edits and clicks from the state at mount, and
  an invariant holds over every reachable state. Typing a string character by character is
  also modelled here.

`Number(text)` and `Intl.NumberFormat().format(n)` are fields of a `Host` record. They are
function values the model takes as given, so no contract depends on how a particular runtime
parses or groups digits.

The type annotation on `ageInYears` says `number | null`, but `handleChange` stores the raw
text of the input there. The model follows the code: the slot is `Unset` until the age field
is first edited and holds the typed text afterwards.

## Model

| member | source | states |
|---|---|---|
| `Calculator.InitialView` | src/Components/Calculator/Calculator.tsx:16-19 | At mount both fields render empty, both hints show the neutral glyph, no result is shown, and the stored name passes the name pattern. |
| `JsString.TestNamePattern` | src/Components/Calculator/Calculator.tsx:30 | The anchored pattern `^[A-Za-z\s]*$` succeeds exactly when every character is an ASCII letter or an ECMAScript whitespace character. |
| `Calculator.Change` | src/Components/Calculator/Calculator.tsx:26-37 | A name edit that passes the pattern replaces the name and keeps the age. A name edit that fails leaves the whole state unchanged. An age edit stores the text and keeps the name. Result and both flags are never changed. |
| `Calculator.ChangeAppliedIff` | src/Components/Calculator/Calculator.tsx:28-36 | A change equals the spread update of its field if and only if it edits the age, or the new name passes the pattern, or the new name equals the stored one. |
| `JsString.Trim` | src/Components/Calculator/Calculator.tsx:49-62 | `trim` returns a piece of its input that has no whitespace at either end and only whitespace before and after it. |
| `JsString.TrimUnique` | src/Components/Calculator/Calculator.tsx:62 | Any bare piece with only whitespace around it is the trimmed string, so `trim` is fully determined by that characterisation. |
| `JsString.TrimEmptyIff` | src/Components/Calculator/Calculator.tsx:54-55 | Text trims to "" if and only if every character is whitespace. |
| `JsString.TrimIdempotent` | src/Components/Calculator/Calculator.tsx:60-64 | Trimming an already trimmed name changes nothing. |
| `JsString.TrimKeepsNameChars` | src/Components/Calculator/Calculator.tsx:60-64 | A name that passes the pattern still passes it after trimming. |
| `JsNumber.TimesInjective` | src/Components/Calculator/Calculator.tsx:50 | Multiplying by a positive factor such as 365 is one-to-one on Number values, NaN and infinities included, so the day count determines the age it came from. |
| `JsNumber.TimesKeepsSign` | src/Components/Calculator/Calculator.tsx:50 | A finite day count is positive, negative or zero exactly when the age is. |
| `Calculator.ParseAge` | src/Components/Calculator/Calculator.tsx:49 | The age is absent exactly when the text is null or all whitespace. Otherwise it is `Number(text)`, NaN included. |
| `Calculator.Submit` | src/Components/Calculator/Calculator.tsx:44-77 | nameError holds iff the name is blank; ageError holds iff the age text is absent or blank; the age slot never changes; an accepted submit keeps the form and shows the sentence; a rejected one clears the result and stores `trim(name)` ("" for a blank name); a result is shown iff the submit is accepted. |
| `Calculator.AcceptedSentence` | src/Components/Calculator/Calculator.tsx:49-75 | For a non-blank name and an age read as the finite number y, the result is the untrimmed name + " is approximately " + format(y × 365) + " days old!". |
| `Calculator.SubmitForgetsPrior` | src/Components/Calculator/Calculator.tsx:54-76 | The flags and the result after a submit are the same whatever the state was before: each is recomputed from the submitted text alone. |
| `Calculator.SubmitIgnoresNumber` | src/Components/Calculator/Calculator.tsx:49-54 | Two runtimes that parse and format differently give the same flags and the same stored form, and both show or both hide a result: acceptance depends on presence of age text only, never on its value. |
| `Calculator.SubmitIdempotent` | src/Components/Calculator/Calculator.tsx:54-76 | Submitting the same text again leaves the state the first submit produced. |
| `Calculator.SubmitKeepsNamePattern` | src/Components/Calculator/Calculator.tsx:60-64 | If the stored name and the submitted name pass the pattern, the name stored after the submit passes it too. |
| `Calculator.PaddedNameExample` | src/Components/Calculator/Calculator.tsx:60-71 | "  Bob  " submitted with no age is stored as "Bob", with nameError clear, ageError set and no result. |
| `Calculator.ViewDeterminesState` | src/Components/Calculator/Calculator.tsx:93-116 | Two states that render alike have the same error flags, stored name, displayed age text and result: "Please enter a name" and "Please enter an age" differ from "-", so the hints reveal the flags. |
| `Calculator.SubmitThenRender` | src/Components/Calculator/Calculator.tsx:95-110 | After a submit, the name hint asks for a name iff the submitted name was blank. The age hint asks for an age iff the age text was blank. A sentence is shown iff neither was blank. |
| `Session.SubmitCurrent` | src/Components/Calculator/Calculator.tsx:46-49 | Submitting what the inputs show sets nameError iff the stored name is blank and ageError iff the displayed age text is blank. A result appears iff both flags are clear, and the age slot is kept. |
| `Session.SubmitCurrentTwice` | src/Components/Calculator/Calculator.tsx:54-76 | Clicking Submit a second time without editing, which submits the name the first click stored, leaves the state the first click produced. |
| `Session.StepKeepsInv` | src/Components/Calculator/Calculator.tsx:26-77 | Every keystroke and every submit keeps the invariant: the stored name passes the pattern, and a result is shown only while both flags are clear. |
| `Session.RunKeepsInv` | src/Components/Calculator/Calculator.tsx:26-77 | Any sequence of events from a state satisfying the invariant ends in a state satisfying it. |
| `Session.ReachableInv` | src/Components/Calculator/Calculator.tsx:16-77 | Every state reachable from the state at mount satisfies the invariant. |
| `Session.TypeNameStoresAdmitted` | src/Components/Calculator/Calculator.tsx:26-37 | Typing a string into the name field one character at a time stores the old name followed by exactly the letters and whitespace of the string, in order. Age, result and flags are unchanged. |
| `Session.TypeAllowedName` | src/Components/Calculator/Calculator.tsx:26-37 | Typing a string of only letters and whitespace into the empty name field stores exactly that string. |

## Left out

- JSX markup, CSS module class names, labels and placeholders: presentation only, apart from the two hint strings and the displayed values, which `Render` models.
- React `useState` and update batching: each handler is one atomic pure transition on the whole record.
- DOM events and `FormData` extraction: `Change` and `Submit` take the field, the value text and the submitted text as plain inputs, and `Session.SubmitCurrent` stands for reading the controlled inputs.
- The `value === null ? "" : value` branch of handleChange: an input element's value is always a string, so the value is modelled as a string.
- Change events from inputs other than the two fields: the form has only `name` and `ageInYears`.
- The browser's sanitisation of `type="number"` input values: the age text is taken as given.
- `Number(text)` parsing and locale grouping by `Intl.NumberFormat`: both are host functions, so only their results appear in contracts.
- JsNumber.Times: finite products are exact reals; IEEE-754 rounding and overflow of a large product to Infinity are not modelled.
- JsString.IsWs: strings are sequences of Unicode scalar values rather than UTF-16 code units. No surrogate is whitespace or a letter, so the pattern and `trim` give the same answers either way.
- A present age that reads as NaN is accepted, as the code does, and the sentence then contains the runtime's formatting of NaN.
- src/App.tsx: a static header that mounts the component, with no logic.
