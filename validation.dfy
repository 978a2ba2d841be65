/**
 * Word admission: lower-casing and the `isProperWord` validator
 * (WordStore.class.js, lines 210-225).
 *
 * Lower-casing is modelled for ASCII only: 'A'..'Z' map to 'a'..'z' and every
 * other character is left alone.
 */
module Validation {

  /** A JavaScript value handed to the validator: a string, or anything else. */
  datatype JsValue = JsString(s: string) | NonString

  predicate IsUpper(c: char) { 'A' <= c <= 'Z' }

  predicate IsLowerLetter(c: char) { 'a' <= c <= 'z' }

  /** A string with no upper-case ASCII letter: the form in which words are stored. */
  predicate IsLower(s: string) {
    forall i :: 0 <= i < |s| ==> !IsUpper(s[i])
  }

  /** A word the store is meant to hold: non-empty, only 'a'..'z'. */
  predicate IsWord(s: string) {
    |s| >= 1 && forall i :: 0 <= i < |s| ==> IsLowerLetter(s[i])
  }

  function LowerChar(c: char): (r: char)
    ensures !IsUpper(r)
    ensures !IsUpper(c) ==> r == c
    ensures IsUpper(c) ==> IsLowerLetter(r) && r as int - c as int == 32
  {
    if IsUpper(c) then (c as int + 32) as char else c
  }

  /** `String.prototype.toLowerCase`, restricted to ASCII. */
  function ToLower(s: string): (r: string)
    ensures |r| == |s| && IsLower(r)
    ensures forall i :: 0 <= i < |s| && !IsUpper(s[i]) ==> r[i] == s[i]
  {
    if s == [] then [] else [LowerChar(s[0])] + ToLower(s[1..])
  }

  lemma {:induction false} ToLowerAt(s: string, i: nat)
    requires i < |s|
    ensures |ToLower(s)| == |s| && ToLower(s)[i] == LowerChar(s[i])
  {
    if i > 0 {
      ToLowerAt(s[1..], i - 1);
    }
  }

  /** Lower-casing changes nothing exactly when there is nothing upper-case. */
  lemma {:induction false} ToLowerFixed(s: string)
    ensures ToLower(s) == s <==> IsLower(s)
  {
    if s != [] {
      ToLowerFixed(s[1..]);
      if IsLower(s) {
        assert IsLower(s[1..]) by {
          forall i | 0 <= i < |s[1..]| ensures !IsUpper(s[1..][i]) { assert s[1..][i] == s[i + 1]; }
        }
      }
    }
  }

  /** Lower-casing twice is lower-casing once. */
  lemma ToLowerIdempotent(s: string)
    ensures ToLower(ToLower(s)) == ToLower(s)
  {
    ToLowerFixed(ToLower(s));
  }

  /** Is the character an ASCII letter of either case? */
  predicate IsAsciiLetter(c: char) { IsUpper(c) || IsLowerLetter(c) }

  /**
   * `isProperWord`: a string, non-empty, whose lower-cased form has no
   * character outside 'a'..'z'. Equivalently: a non-empty string of ASCII
   * letters of either case, whose lower-cased form is then a storable word.
   */
  function IsProperWord(v: JsValue): (r: bool)
    ensures r <==> v.JsString? && |v.s| >= 1 && forall i :: 0 <= i < |v.s| ==> IsAsciiLetter(v.s[i])
    ensures r ==> IsWord(ToLower(v.s))
  {
    match v
    case NonString => false
    case JsString(s) =>
      if |s| < 1 then false
      else
        var lower := ToLower(s);
        LowerLetters(s);
        if exists i :: 0 <= i < |lower| && !IsLowerLetter(lower[i]) then false
        else true
  }

  /** After lower-casing, a character is in 'a'..'z' exactly when it was an ASCII letter. */
  lemma LowerLetters(s: string)
    ensures forall i :: 0 <= i < |s| ==> (IsLowerLetter(ToLower(s)[i]) <==> IsAsciiLetter(s[i]))
  {
    forall i | 0 <= i < |s| ensures IsLowerLetter(ToLower(s)[i]) <==> IsAsciiLetter(s[i]) {
      ToLowerAt(s, i);
    }
  }

  /** The validator on a few inputs: digits, blanks and the empty string are refused. */
  lemma ProperWordExamples()
    ensures IsProperWord(JsString("Read")) && IsProperWord(JsString("dear"))
    ensures !IsProperWord(JsString("")) && !IsProperWord(JsString("de ar"))
    ensures !IsProperWord(JsString("r2d2")) && !IsProperWord(NonString)
  {
    assert !IsAsciiLetter("de ar"[2]);
    assert !IsAsciiLetter("r2d2"[1]);
  }
}
