/** The decision part of `handleSubmit`: validate both fields, then either stop
    and focus a field or build the registration payload. */
module Submission {
  import opened Wrappers
  import opened Text
  import opened Validation

  /** The raw values of the form's four inputs (the hidden event id, name,
      e-mail and phone). */
  datatype Form = Form(eventId: JsString, name: JsString, email: JsString, phone: JsString)

  /** The JSON body posted to the backend. */
  datatype Payload = Payload(anlassId: JsString, name: JsString, email: JsString, telefon: JsString)

  datatype Field = NameInput | EmailInput

  /** Either the submission stops, with the field that receives focus and the
      message each validator put under its field, or the payload is sent. */
  datatype Outcome =
    | Blocked(focus: Field, nameError: Option<string>, emailError: Option<string>)
    | Send(payload: Payload)

  /** Both validators always run (each shows its own message); the payload is
      built only when both pass. */
  function HandleSubmit(f: Form): (r: Outcome)
    ensures r.Send? <==> ValidateName(f.name) == None && ValidateEmail(f.email) == None
    ensures r.Blocked? ==> r.nameError == ValidateName(f.name) && r.emailError == ValidateEmail(f.email)
    ensures r.Blocked? ==> (r.focus == NameInput <==> ValidateName(f.name) != None)
    ensures r.Send? ==> r.payload == Payload(f.eventId, Trim(f.name), Trim(f.email), Trim(f.phone))
  {
    var nameError := ValidateName(f.name);
    var emailError := ValidateEmail(f.email);
    var nameValid := nameError == None;
    var emailValid := emailError == None;
    if !nameValid || !emailValid then
      Blocked(if nameValid then EmailInput else NameInput, nameError, emailError)
    else
      Send(Payload(f.eventId, Trim(f.name), Trim(f.email), Trim(f.phone)))
  }

  /** The form whose inputs hold exactly the values of a payload. */
  function FormOf(p: Payload): (f: Form) {
    Form(p.anlassId, p.name, p.email, p.telefon)
  }

  /** A sent payload is a fixed point: its values are trimmed, pass both
      validators again, and submitting them as a form sends the same payload. */
  lemma SentPayloadIsStable(f: Form)
    requires HandleSubmit(f).Send?
    ensures var p := HandleSubmit(f).payload;
      && IsTrimmed(p.name) && IsTrimmed(p.email) && IsTrimmed(p.telefon)
      && ValidateName(p.name) == None && ValidateEmail(p.email) == None
      && HandleSubmit(FormOf(p)) == Send(p)
  {
    TrimIdempotent(f.name);
    TrimIdempotent(f.email);
    TrimIdempotent(f.phone);
    ValidatorsIgnoreSurroundingWhitespace(f.name);
    ValidatorsIgnoreSurroundingWhitespace(f.email);
  }

  /** White space around the three text inputs changes nothing. */
  lemma SurroundingWhitespaceIrrelevant(f: Form)
    ensures HandleSubmit(Form(f.eventId, Trim(f.name), Trim(f.email), Trim(f.phone))) == HandleSubmit(f)
  {
    TrimIdempotent(f.name);
    TrimIdempotent(f.email);
    TrimIdempotent(f.phone);
    ValidatorsIgnoreSurroundingWhitespace(f.name);
    ValidatorsIgnoreSurroundingWhitespace(f.email);
  }

  /** The gate in terms of the raw inputs. */
  lemma SendIff(f: Form)
    ensures HandleSubmit(f).Send? <==>
      && (exists i, j :: 0 <= i < j < |f.name| && !IsWhitespace(f.name[i]) && !IsWhitespace(f.name[j]))
      && MatchesEmailPattern(Trim(f.email))
  {
    NameValidIff(f.name);
  }
}
