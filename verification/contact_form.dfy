/**
 * Validation of the `.contact-form`: per-field required checks on blur and on
 * submit, the e-mail format check on submit, and the error element each field
 * shows under it.
 */
module ContactForm {
  import opened Wrappers
  import opened JsText
  import opened EmailPattern
  import opened Search

  const RequiredMessage: string := "Este campo es obligatorio"
  const EmailMessage: string := "Por favor, ingres\U{00E1} un email v\U{00E1}lido"
  const EmailId: string := "email"

  /**
   * One form control. `errors` lists the messages of the `.field-error`
   * elements under the control's parent, in order; `ariaInvalid` and
   * `describedBy` are its ARIA attributes; `borderMarked` is the error border colour.
   */
  datatype Field = Field(
    id: string, value: string, required: bool,
    errors: seq<string>, ariaInvalid: bool, describedBy: Option<string>, borderMarked: bool)

  /** The control shows no error at all. */
  predicate Clean(f: Field) {
    f.errors == [] && !f.ariaInvalid && f.describedBy.None? && !f.borderMarked
  }

  /** The control shows exactly one error, `msg`, and points its ARIA description at it. */
  predicate ShowsOnly(f: Field, msg: string) {
    f.errors == [msg] && f.ariaInvalid && f.describedBy == Some("error-" + f.id) && f.borderMarked
  }

  /** The id, value and required flag are the same in both. */
  predicate SameControl(f: Field, g: Field) {
    f.id == g.id && f.value == g.value && f.required == g.required
  }

  /**
   * `clearFieldError`: remove the first error element under the parent (if
   * any) and reset the border and ARIA attributes. A control with at most one
   * error ends up clean, and one that was clean is left as it was.
   */
  function Cleared(f: Field): (r: Field)
    ensures SameControl(f, r)
    ensures |f.errors| <= 1 ==> Clean(r)
    ensures Clean(f) ==> r == f
  {
    f.(errors := if f.errors == [] then [] else f.errors[1..],
       ariaInvalid := false, describedBy := None, borderMarked := false)
  }

  /**
   * `showFieldError`: clear first, then append one error element with `msg`.
   * A control that held at most one error afterwards shows `msg` and nothing else.
   */
  function WithError(f: Field, msg: string): (r: Field)
    ensures SameControl(f, r)
    ensures |f.errors| <= 1 ==> ShowsOnly(r, msg)
    ensures |r.errors| <= 1 <==> |f.errors| <= 1
  {
    var c := Cleared(f);
    c.(errors := c.errors + [msg], borderMarked := true,
       ariaInvalid := true, describedBy := Some("error-" + f.id))
  }

  /** `validateField`'s verdict: fails when required and blank once trimmed. */
  predicate Passes(f: Field) {
    !(f.required && Trim(f.value) == [])
  }

  /** A control fails its check exactly when it is required and all white space. */
  lemma PassesIff(f: Field)
    ensures Passes(f) <==> !f.required || !AllSpace(f.value)
  {
  }

  /** The control as `validateField` leaves it. */
  function Validated(f: Field): (r: Field)
    ensures SameControl(f, r)
    ensures |f.errors| <= 1 ==> (Passes(f) ==> Clean(r)) && (!Passes(f) ==> ShowsOnly(r, RequiredMessage))
  {
    if Passes(f) then Cleared(f) else WithError(f, RequiredMessage)
  }

  /** Every control holds at most one error element. */
  predicate AtMostOneError(fs: seq<Field>) {
    forall i :: 0 <= i < |fs| ==> |fs[i].errors| <= 1
  }

  predicate HasEmailId(f: Field) {
    f.id == EmailId
  }

  /** `form.querySelector('#email')` restricted to the form's controls: the first with id `email`. */
  function EmailIndex(fs: seq<Field>): Option<nat> {
    FirstWhere(fs, HasEmailId)
  }

  /** The submit-time format check fails: the e-mail control exists, is non-empty (untrimmed) and does not match. */
  predicate EmailFormatFails(fs: seq<Field>) {
    match EmailIndex(fs)
    case None => false
    case Some(e) => fs[e].value != [] && !MatchesEmail(fs[e].value)
  }

  /** The first pass of `validateContactForm`: `validateField` on every required control. */
  function ValidateRequired(fs: seq<Field>): (r: seq<Field>)
    ensures |r| == |fs|
    ensures forall i :: 0 <= i < |fs| ==> SameControl(fs[i], r[i])
    ensures forall i :: 0 <= i < |fs| && !fs[i].required ==> r[i] == fs[i]
    ensures forall i :: 0 <= i < |fs| && fs[i].required ==> r[i] == Validated(fs[i])
    ensures forall i :: 0 <= i < |fs| && fs[i].required && |fs[i].errors| <= 1 ==>
      (Passes(fs[i]) ==> Clean(r[i])) && (!Passes(fs[i]) ==> ShowsOnly(r[i], RequiredMessage))
  {
    seq(|fs|, i requires 0 <= i < |fs| => if fs[i].required then Validated(fs[i]) else fs[i])
  }

  /** The submit-time format check as it leaves the controls: the format message on a failing e-mail control. */
  function EmailChecked(fs: seq<Field>): (r: seq<Field>)
    ensures |r| == |fs| && forall i :: 0 <= i < |fs| ==> SameControl(fs[i], r[i])
    ensures !EmailFormatFails(fs) ==> r == fs
    ensures forall i :: 0 <= i < |fs| && EmailIndex(fs) != Some(i) ==> r[i] == fs[i]
    ensures EmailFormatFails(fs) && AtMostOneError(fs) ==> ShowsOnly(r[EmailIndex(fs).value], EmailMessage)
  {
    match EmailIndex(fs)
    case Some(e) => if EmailFormatFails(fs) then fs[e := WithError(fs[e], EmailMessage)] else fs
    case None => fs
  }

  /** The required pass changes no id and no value, so the format check sees the same control. */
  lemma EmailCheckAfterRequiredPass(fs: seq<Field>)
    ensures EmailIndex(ValidateRequired(fs)) == EmailIndex(fs)
    ensures EmailFormatFails(ValidateRequired(fs)) == EmailFormatFails(fs)
  {
  }

  /** The controls as `validateContactForm` leaves them. */
  function Checked(fs: seq<Field>): seq<Field> {
    EmailChecked(ValidateRequired(fs))
  }

  /** The verdict of `validateContactForm`. */
  predicate FormValid(fs: seq<Field>) {
    (forall i :: 0 <= i < |fs| ==> Passes(fs[i])) && !EmailFormatFails(fs)
  }

  /**
   * The form is valid exactly when no required control is blank and the e-mail
   * control, when it has a value, is accepted by the regular expression.
   */
  lemma FormValidIff(fs: seq<Field>)
    ensures FormValid(fs) <==>
      (forall i :: 0 <= i < |fs| && fs[i].required ==> !AllSpace(fs[i].value))
      && (EmailIndex(fs).Some? && fs[EmailIndex(fs).value].value != [] ==> RegexAccepts(fs[EmailIndex(fs).value].value))
  {
    forall i | 0 <= i < |fs| {
      PassesIff(fs[i]);
    }
    if EmailIndex(fs).Some? {
      MatchesEmailIff(fs[EmailIndex(fs).value].value);
    }
  }

  /**
   * The feedback after submit, for a form whose controls hold at most one error
   * each: every required control is checked (no early exit) and shows the
   * required message exactly when blank; a badly formatted e-mail shows the
   * format message alone, replacing a required message; other controls are
   * cleaned if required and untouched if not; no control gains a second error.
   */
  lemma CheckedFeedback(fs: seq<Field>)
    requires AtMostOneError(fs)
    ensures |Checked(fs)| == |fs| && AtMostOneError(Checked(fs))
    ensures forall i :: 0 <= i < |fs| ==> SameControl(fs[i], Checked(fs)[i])
    ensures forall i :: 0 <= i < |fs| && EmailFormatFails(fs) && EmailIndex(fs) == Some(i) ==>
      ShowsOnly(Checked(fs)[i], EmailMessage)
    ensures forall i :: 0 <= i < |fs| && !(EmailFormatFails(fs) && EmailIndex(fs) == Some(i)) ==>
      Checked(fs)[i] == (if !fs[i].required then fs[i] else Validated(fs[i]))
    ensures forall i :: 0 <= i < |fs| && fs[i].required && !(EmailFormatFails(fs) && EmailIndex(fs) == Some(i)) ==>
      (Passes(fs[i]) ==> Clean(Checked(fs)[i])) && (!Passes(fs[i]) ==> ShowsOnly(Checked(fs)[i], RequiredMessage))
  {
    var vs := ValidateRequired(fs);
    EmailCheckAfterRequiredPass(fs);
    assert AtMostOneError(vs);
  }

  /**
   * A required e-mail control holding only a no-break space fails the required
   * check first (`trim` removes it); the format check then sees the raw value,
   * rejects it (`\s` matches it) and replaces that message with its own.
   */
  lemma BlankEmailShowsFormatMessage(fs: seq<Field>, e: nat)
    requires AtMostOneError(fs) && e < |fs|
    requires EmailIndex(fs) == Some(e) && fs[e].required && fs[e].value == "\U{00A0}"
    ensures !Passes(fs[e]) && !FormValid(fs)
    ensures ShowsOnly(Checked(fs)[e], EmailMessage)
  {
    assert Trim("\U{00A0}") == [] by { TrimEmptyIff("\U{00A0}"); }
    assert !MatchesEmail("\U{00A0}");
    CheckedFeedback(fs);
  }

  /** The form controls, updated in place by the validation handlers. */
  class Form {
    const fields: array<Field>

    constructor (controls: seq<Field>)
      ensures fresh(fields) && fields[..] == controls
    {
      fields := new Field[|controls|](i requires 0 <= i < |controls| => controls[i]);
    }

    /** `clearFieldError`, also run on every `input` event of a control. */
    method ClearFieldError(i: nat)
      requires i < fields.Length
      modifies fields
      ensures fields[..] == old(fields[..])[i := Cleared(old(fields[i]))]
    {
      var f := fields[i];
      if f.errors != [] {
        f := f.(errors := f.errors[1..]);
      }
      f := f.(borderMarked := false, ariaInvalid := false, describedBy := None);
      fields[i] := f;
    }

    /** `showFieldError`: clear, then append one error element. */
    method ShowFieldError(i: nat, msg: string)
      requires i < fields.Length
      modifies fields
      ensures fields[..] == old(fields[..])[i := WithError(old(fields[i]), msg)]
    {
      ClearFieldError(i);
      var f := fields[i];
      f := f.(errors := f.errors + [msg]);
      f := f.(borderMarked := true, ariaInvalid := true, describedBy := Some("error-" + f.id));
      fields[i] := f;
    }

    /** `validateField`, also run on every `blur` event of a control. */
    method ValidateField(i: nat) returns (ok: bool)
      requires i < fields.Length
      modifies fields
      ensures ok == Passes(old(fields[i]))
      ensures fields[i] == Validated(old(fields[i]))
      ensures forall k :: 0 <= k < fields.Length && k != i ==> fields[k] == old(fields[k])
    {
      var value := Trim(fields[i].value);
      if fields[i].required && value == [] {
        ShowFieldError(i, RequiredMessage);
        return false;
      }
      ClearFieldError(i);
      return true;
    }

    /** The e-mail block of `validateContactForm`: a non-empty value the pattern rejects gets the format message. */
    method CheckEmailFormat() returns (ok: bool)
      modifies fields
      ensures ok == !EmailFormatFails(old(fields[..]))
      ensures fields[..] == EmailChecked(old(fields[..]))
    {
      ok := true;
      var email := EmailIndex(fields[..]);
      if email.Some? && fields[email.value].value != [] {
        if !MatchesEmail(fields[email.value].value) {
          ShowFieldError(email.value, EmailMessage);
          ok := false;
        }
      }
    }

    /**
     * `validateContactForm`: `validateField` on every required control, without
     * stopping at the first failure, then the format check on the e-mail control.
     */
    method ValidateContactForm() returns (isValid: bool)
      modifies fields
      ensures isValid == FormValid(old(fields[..]))
      ensures fields[..] == Checked(old(fields[..]))
    {
      ghost var before := fields[..];
      isValid := true;
      var i := 0;
      while i < fields.Length
        invariant 0 <= i <= fields.Length
        invariant isValid == forall k :: 0 <= k < i ==> Passes(before[k])
        invariant forall k :: 0 <= k < i ==>
          fields[k] == if before[k].required then Validated(before[k]) else before[k]
        invariant forall k :: i <= k < fields.Length ==> fields[k] == before[k]
      {
        if fields[i].required {
          var ok := ValidateField(i);
          if !ok {
            isValid := false;
          }
        }
        i := i + 1;
      }
      assert fields[..] == ValidateRequired(before);
      EmailCheckAfterRequiredPass(before);
      var emailOk := CheckEmailFormat();
      if !emailOk {
        isValid := false;
      }
    }
  }
}
