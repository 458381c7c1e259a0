/** The two field validators of the registration form. Each maps the raw field
    value to `None` (valid) or to the one German message shown under the field. */
module Validation {
  import opened Wrappers
  import opened Text

  const NameMissing := "Bitte geben Sie Ihren Namen ein."
  const NameTooShort := "Der Name muss mindestens 2 Zeichen haben."
  const EmailMissing := "Bitte geben Sie Ihre E-Mail-Adresse ein."
  const EmailInvalid := "Bitte geben Sie eine gültige E-Mail-Adresse ein."

  /** `validateName`: the trimmed name must have at least two code units. */
  function ValidateName(v: JsString): (r: Option<string>)
    ensures r == Some(NameMissing) <==> Trim(v) == []
    ensures r == Some(NameTooShort) <==> |Trim(v)| == 1
    ensures r == None <==> |Trim(v)| >= 2
  {
    var t := Trim(v);
    if t == [] then Some(NameMissing)
    else if |t| < 2 then Some(NameTooShort)
    else None
  }

  /** In terms of the raw value: the name passes exactly when it holds two
      code units that are not white space. */
  lemma NameValidIff(v: JsString)
    ensures ValidateName(v) == None <==>
      exists i, j :: 0 <= i < j < |v| && !IsWhitespace(v[i]) && !IsWhitespace(v[j])
    ensures ValidateName(v) == Some(NameMissing) <==> AllWhitespace(v)
  {
    TrimAtLeastTwo(v);
  }

  const At: CodeUnit := 0x40   // '@'
  const Dot: CodeUnit := 0x2E  // '.'

  /** The regular-expression class `[^\s@]`. */
  predicate IsPlain(c: CodeUnit) {
    !IsWhitespace(c) && c != At
  }

  /** The language of `/^[^\s@]+@[^\s@]+\.[^\s@]+$/`: an `@` at position `a` and a
      `.` at position `d`, each of the three parts they delimit non-empty, and every
      code unit other than that `@` neither white space nor `@`. */
  ghost predicate MatchesEmailPattern(v: JsString) {
    exists a, d ::
      && 0 < a && a + 1 < d && d + 1 < |v|
      && v[a] == At && v[d] == Dot
      && forall i :: 0 <= i < |v| && i != a ==> IsPlain(v[i])
  }

  /** The position of the first `c` in `s`, or `|s|` when there is none. */
  function IndexOf(s: JsString, c: CodeUnit): (k: nat)
    ensures k <= |s|
    ensures k < |s| ==> s[k] == c
    ensures forall i :: 0 <= i < k ==> s[i] != c
  {
    if s == [] || s[0] == c then 0 else 1 + IndexOf(s[1..], c)
  }

  predicate AllPlain(s: JsString) {
    forall i :: 0 <= i < |s| ==> IsPlain(s[i])
  }

  /** `s` has a `.` that is neither its first nor its last code unit. */
  predicate HasInnerDot(s: JsString) {
    exists j :: 0 < j < |s| - 1 && s[j] == Dot
  }

  /** A matcher for the address pattern: split at the first `@`. */
  predicate EmailShaped(v: JsString) {
    var a := IndexOf(v, At);
    0 < a < |v| && AllPlain(v[..a]) && AllPlain(v[a + 1..]) && HasInnerDot(v[a + 1..])
  }

  /** The matcher accepts exactly the language of the pattern. */
  lemma EmailShapedIff(v: JsString)
    ensures EmailShaped(v) <==> MatchesEmailPattern(v)
  {
    var a := IndexOf(v, At);
    if EmailShaped(v) {
      var j :| 0 < j < |v[a + 1..]| - 1 && v[a + 1..][j] == Dot;
      var d := a + 1 + j;
      assert v[d] == Dot;
      forall i | 0 <= i < |v| && i != a
        ensures IsPlain(v[i])
      {
        if i < a { assert v[i] == v[..a][i]; }
        else { assert v[i] == v[a + 1..][i - a - 1]; }
      }
    }
    if MatchesEmailPattern(v) {
      var a', d :| && 0 < a' && a' + 1 < d && d + 1 < |v|
                   && v[a'] == At && v[d] == Dot
                   && forall i :: 0 <= i < |v| && i != a' ==> IsPlain(v[i]);
      assert a <= a';
      assert a == a';
      assert v[a + 1..][d - a - 1] == Dot;
    }
  }

  /** `validateEmail`: a non-empty trimmed value must match the address pattern. */
  function ValidateEmail(v: JsString): (r: Option<string>)
    ensures r == Some(EmailMissing) <==> Trim(v) == []
    ensures r == Some(EmailInvalid) <==> Trim(v) != [] && !MatchesEmailPattern(Trim(v))
    ensures r == None <==> MatchesEmailPattern(Trim(v))
  {
    var t := Trim(v);
    EmailShapedIff(t);
    if t == [] then Some(EmailMissing)
    else if !EmailShaped(t) then Some(EmailInvalid)
    else None
  }

  /** Both validators look only at the trimmed value. */
  lemma ValidatorsIgnoreSurroundingWhitespace(v: JsString)
    ensures ValidateName(Trim(v)) == ValidateName(v)
    ensures ValidateEmail(Trim(v)) == ValidateEmail(v)
  {
    TrimIdempotent(v);
  }

  /** A valid address has exactly one `@`, no white space, and its `@` is
      neither first nor last. */
  lemma ValidEmailShape(v: JsString)
    requires ValidateEmail(v) == None
    ensures var t := Trim(v);
      && (forall i :: 0 <= i < |t| ==> !IsWhitespace(t[i]))
      && 0 < IndexOf(t, At) < |t| - 1
      && (forall i :: 0 <= i < |t| && i != IndexOf(t, At) ==> t[i] != At)
  {
    var t := Trim(v);
    EmailShapedIff(t);
    var a := IndexOf(t, At);
    forall i | 0 <= i < |t| && i != a
      ensures IsPlain(t[i])
    {
      if i < a { assert t[i] == t[..a][i]; }
      else { assert t[i] == t[a + 1..][i - a - 1]; }
    }
  }
}
