/** The calculator as the user drives it: the submitted text is whatever the two controlled
    inputs currently show, and a session is a sequence of keystrokes and submit clicks
    starting from the state at mount. */
module Session {
  import opened JsString
  import opened Calculator

  /** A change event that leaves `value` in the input named by `field`, or a click on Submit. */
  datatype Event = Edit(field: Field, value: string) | Press

  /** Submit with the text the form currently holds: the name input shows the stored name and
      the age input shows the stored age text (empty while unset). */
  function SubmitCurrent(host: Host, s: State): (r: State)
    ensures r.nameError <==> AllWs(s.form.name)
    ensures r.ageError <==> AllWs(AgeText(s.form.ageInYears))
    ensures r.result != "" <==> !r.nameError && !r.ageError
    ensures r.form.ageInYears == s.form.ageInYears
  {
    Submit(host, s, s.form.name, Some(AgeText(s.form.ageInYears)))
  }

  /** Clicking Submit twice without editing gives the state the first click gave: the second
      click reads the name the first one stored, trimmed or emptied, and reaches the same
      verdict on it. */
  lemma SubmitCurrentTwice(host: Host, s: State)
    ensures SubmitCurrent(host, SubmitCurrent(host, s)) == SubmitCurrent(host, s)
  {
  }

  function Step(host: Host, s: State, e: Event): State {
    match e
    case Edit(field, value) => Change(s, field, value)
    case Press => SubmitCurrent(host, s)
  }

  function Run(host: Host, s: State, events: seq<Event>): State
    decreases |events|
  {
    if events == [] then s else Run(host, Step(host, s, events[0]), events[1..])
  }

  /** What every reachable state satisfies: the stored name passes the name pattern, and a
      result sentence is shown only while both error flags are clear. */
  predicate Inv(s: State) {
    AllNameChars(s.form.name) && (s.result != "" ==> !s.nameError && !s.ageError)
  }

  lemma StepKeepsInv(host: Host, s: State, e: Event)
    requires Inv(s)
    ensures Inv(Step(host, s, e))
  {
  }

  lemma {:induction false} RunKeepsInv(host: Host, s: State, events: seq<Event>)
    requires Inv(s)
    ensures Inv(Run(host, s, events))
    decreases |events|
  {
    if events != [] {
      StepKeepsInv(host, s, events[0]);
      RunKeepsInv(host, Step(host, s, events[0]), events[1..]);
    }
  }

  /** Every state a session starting at mount reaches satisfies the invariant. */
  lemma ReachableInv(host: Host, events: seq<Event>)
    ensures Inv(Run(host, Initial(), events))
  {
    RunKeepsInv(host, Initial(), events);
  }

  /** The characters of `cs` that the name pattern admits, in order. */
  function Admitted(cs: string): (r: string)
    ensures AllNameChars(r) && |r| <= |cs|
    ensures AllNameChars(cs) ==> r == cs
  {
    if cs == [] then []
    else (if IsNameChar(cs[0]) then [cs[0]] else []) + Admitted(cs[1..])
  }

  /** Typing `cs` into the name field one character at a time: each keystroke proposes the
      field's current text with one character appended. */
  function TypeName(s: State, cs: string): State
    decreases |cs|
  {
    if cs == [] then s
    else TypeName(Change(s, NameField, s.form.name + [cs[0]]), cs[1..])
  }

  /** Appending one character to text that passes the name pattern gives text that passes it
      exactly when the character is in the class. */
  lemma AppendNameChar(t: string, c: char)
    requires AllNameChars(t)
    ensures AllNameChars(t + [c]) <==> IsNameChar(c)
  {
    assert (t + [c])[|t|] == c;
  }

  /** Typing a string into a name field that passes the pattern stores exactly the admitted
      characters after the current name: a disallowed keystroke is dropped and every other
      keystroke lands. Nothing but the name changes. */
  lemma {:induction false} TypeNameStoresAdmitted(s: State, cs: string)
    requires AllNameChars(s.form.name)
    ensures TypeName(s, cs).form.name == s.form.name + Admitted(cs)
    ensures TypeName(s, cs).form.ageInYears == s.form.ageInYears
    ensures TypeName(s, cs).result == s.result
    ensures TypeName(s, cs).nameError == s.nameError && TypeName(s, cs).ageError == s.ageError
    decreases |cs|
  {
    if cs != [] {
      var c := cs[0];
      AppendNameChar(s.form.name, c);
      var kept := if IsNameChar(c) then [c] else [];
      var s' := Change(s, NameField, s.form.name + [c]);
      assert s'.form.name == s.form.name + kept;
      assert TypeName(s, cs) == TypeName(s', cs[1..]);
      TypeNameStoresAdmitted(s', cs[1..]);
      assert Admitted(cs) == kept + Admitted(cs[1..]);
      assert s.form.name + Admitted(cs) == s.form.name + kept + Admitted(cs[1..]);
    }
  }

  /** Typing text made only of letters and whitespace into the empty name field leaves
      exactly that text in the field. */
  lemma TypeAllowedName(cs: string)
    requires AllNameChars(cs)
    ensures TypeName(Initial(), cs).form.name == cs
  {
    TypeNameStoresAdmitted(Initial(), cs);
  }
}
