/** The string primitives of the ECMAScript runtime that the age calculator relies on:
    the `\s` character class, the name pattern `/^[A-Za-z\s]*$/` tested on every keystroke,
    and `String.prototype.trim`. Characters are Unicode scalar values. */
module JsString {

  /** ECMAScript WhiteSpace and LineTerminator code points. The `\s` class of a regular
      expression and `String.prototype.trim` both use exactly this set, so one predicate
      serves both. */
  predicate IsWs(c: char) {
    c == '\t' || c == '\n' || c == '\U{000B}' || c == '\U{000C}' || c == '\r' || c == ' '
    || c == '\U{00A0}' || c == '\U{1680}' || ('\U{2000}' <= c <= '\U{200A}')
    || c == '\U{2028}' || c == '\U{2029}' || c == '\U{202F}' || c == '\U{205F}'
    || c == '\U{3000}' || c == '\U{FEFF}'
  }

  /** The class `A-Z` and `a-z`: unaccented ASCII letters only. */
  predicate IsAsciiLetter(c: char) {
    'A' <= c <= 'Z' || 'a' <= c <= 'z'
  }

  /** A member of the class `[A-Za-z\s]`. */
  predicate IsNameChar(c: char) {
    IsAsciiLetter(c) || IsWs(c)
  }

  predicate AllWs(s: string) {
    forall i :: 0 <= i < |s| ==> IsWs(s[i])
  }

  predicate AllNameChars(s: string) {
    forall i :: 0 <= i < |s| ==> IsNameChar(s[i])
  }

  /** `/^[A-Za-z\s]*$/.test(s)`: the anchored star of the class, matched one character at a
      time from the left; the match succeeds exactly when every character is in the class. */
  function TestNamePattern(s: string): (b: bool)
    ensures b <==> AllNameChars(s)
  {
    if s == [] then true
    else
      var rest := TestNamePattern(s[1..]);
      assert AllNameChars(s) <==> IsNameChar(s[0]) && AllNameChars(s[1..]) by {
        if IsNameChar(s[0]) && AllNameChars(s[1..]) {
          forall i | 0 <= i < |s| ensures IsNameChar(s[i]) {
            if i > 0 { assert s[i] == s[1..][i - 1]; }
          }
        }
      }
      IsNameChar(s[0]) && rest
  }

  /** Neither end of `r` is whitespace: nothing is left for `trim` to remove. */
  predicate Bare(r: string) {
    r == [] || (!IsWs(r[0]) && !IsWs(r[|r| - 1]))
  }

  /** `r` sits in `s` at offset `i`, and everything before and after it is whitespace. */
  predicate TrimmedAt(s: string, r: string, i: nat) {
    i + |r| <= |s| && s[i..i + |r|] == r && AllWs(s[..i]) && AllWs(s[i + |r|..])
  }

  /** Leading whitespace removed. */
  function TrimStart(s: string): (r: string)
    ensures |r| <= |s| && r == s[|s| - |r|..]
    ensures AllWs(s[..|s| - |r|])
    ensures r == [] || !IsWs(r[0])
  {
    if s != [] && IsWs(s[0]) then
      var r := TrimStart(s[1..]);
      assert s[..|s| - |r|] == [s[0]] + s[1..][..|s| - 1 - |r|];
      r
    else s
  }

  /** Trailing whitespace removed. */
  function TrimEnd(s: string): (r: string)
    ensures |r| <= |s| && r == s[..|r|]
    ensures AllWs(s[|r|..])
    ensures r == [] || !IsWs(r[|r| - 1])
  {
    if s != [] && IsWs(s[|s| - 1]) then
      var r := TrimEnd(s[..|s| - 1]);
      assert s[|r|..] == s[..|s| - 1][|r|..] + [s[|s| - 1]];
      r
    else s
  }

  /** `String.prototype.trim`: the result is a piece of `s` with only whitespace around it,
      and has no whitespace at either end. */
  function Trim(s: string): (r: string)
    ensures Bare(r)
    ensures exists i: nat :: TrimmedAt(s, r, i)
  {
    var t := TrimStart(s);
    var r := TrimEnd(t);
    var i := |s| - |t|;
    assert s[i..i + |r|] == r by {
      assert s[i..i + |r|] == t[..|r|];
    }
    assert s[i + |r|..] == t[|r|..];
    assert TrimmedAt(s, r, i);
    r
  }

  /** A bare piece with only whitespace around it is empty exactly when `s` is all whitespace. */
  lemma PlacedEmptyIff(s: string, r: string, i: nat)
    requires Bare(r) && TrimmedAt(s, r, i)
    ensures r == [] <==> AllWs(s)
  {
    if r == [] {
      forall k | 0 <= k < |s| ensures IsWs(s[k]) {
        if k < i { assert s[k] == s[..i][k]; } else { assert s[k] == s[i..][k - i]; }
      }
    } else {
      assert s[i] == r[0];
    }
  }

  /** A non-empty bare piece with only whitespace around it starts at the first and ends at
      the last non-whitespace character of `s`. */
  lemma Placement(s: string, r: string, i: nat)
    requires Bare(r) && TrimmedAt(s, r, i) && r != []
    ensures !IsWs(s[i]) && !IsWs(s[i + |r| - 1])
    ensures forall k :: 0 <= k < i ==> IsWs(s[k])
    ensures forall k :: i + |r| <= k < |s| ==> IsWs(s[k])
  {
    assert s[i] == r[0] && s[i + |r| - 1] == r[|r| - 1];
    forall k | 0 <= k < i ensures IsWs(s[k]) {
      assert s[k] == s[..i][k];
    }
    forall k | i + |r| <= k < |s| ensures IsWs(s[k]) {
      assert s[k] == s[i + |r|..][k - i - |r|];
    }
  }

  /** A piece of `s` that is bare and has only whitespace around it is unique: it is `Trim(s)`. */
  lemma TrimUnique(s: string, r: string, i: nat)
    requires Bare(r) && TrimmedAt(s, r, i)
    ensures Trim(s) == r
  {
    var t := Trim(s);
    var j: nat :| TrimmedAt(s, t, j);
    PlacedEmptyIff(s, r, i);
    PlacedEmptyIff(s, t, j);
    if r != [] {
      Placement(s, r, i);
      Placement(s, t, j);
      assert i == j;
      assert i + |r| == j + |t|;
    }
  }

  /** Trimming whitespace-only text, and only such text, gives the empty string. */
  lemma TrimEmptyIff(s: string)
    ensures Trim(s) == [] <==> AllWs(s)
  {
    var t := Trim(s);
    var j: nat :| TrimmedAt(s, t, j);
    PlacedEmptyIff(s, t, j);
  }

  /** Trimming twice is trimming once. */
  lemma TrimIdempotent(s: string)
    ensures Trim(Trim(s)) == Trim(s)
  {
    var r := Trim(s);
    assert r[0..0 + |r|] == r && r[..0] == [] && r[0 + |r|..] == [];
    assert TrimmedAt(r, r, 0);
    TrimUnique(r, r, 0);
  }

  /** Trimming never adds a character: text that passes the name pattern still passes it
      after `trim`. */
  lemma TrimKeepsNameChars(s: string)
    requires AllNameChars(s)
    ensures AllNameChars(Trim(s))
  {
    var r := Trim(s);
    var i: nat :| TrimmedAt(s, r, i);
    forall k | 0 <= k < |r| ensures IsNameChar(r[k]) {
      assert r[k] == s[i..i + |r|][k] == s[i + k];
    }
  }
}
