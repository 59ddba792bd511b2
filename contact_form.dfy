/**
 The contact form: per-input error state (the input's `error` class and the
 `.error-message` elements beside it), field validation, and the submit gate.
 */
module ContactForm {
  import opened Text
  import opened Validators

  /** validateField's `if (error)`: a verdict rejects the field when its message is
      truthy, so a failure with the empty message counts as a pass. */
  predicate Rejects(c: Check) {
    c.Fail? && c.message != ""
  }

  /** The error messages a verdict puts on the page. */
  function Report(c: Check): (messages: seq<string>)
    ensures |messages| <= 1
    ensures messages == [] <==> !Rejects(c)
    ensures Rejects(c) ==> messages == [c.message]
  {
    if Rejects(c) then [c.message] else []
  }

  /** The three validators of the form never fail with the empty message, so for them
      rejecting is failing. */
  lemma FormValidatorsRejectOnFailure(s: string)
    ensures Rejects(ValidateName(s)) <==> ValidateName(s).Fail?
    ensures Rejects(ValidateEmail(s)) <==> ValidateEmail(s).Fail?
    ensures Rejects(ValidateMessage(s)) <==> ValidateMessage(s).Fail?
  {
  }

  /** A submit is accepted exactly when all three validators pass. */
  predicate Accepts(name: string, email: string, message: string) {
    ValidateName(name).Pass? && ValidateEmail(email).Pass? && ValidateMessage(message).Pass?
  }

  /** What acceptance means for the three values: a name with two non-white-space
      characters, an address the regular expression matches (so of the shape one `@`,
      no white space, a dot after the `@`), and a message whose outermost
      non-white-space characters are at least ten characters apart. */
  lemma AcceptsIff(name: string, email: string, message: string)
    ensures Accepts(name, email, message) <==>
      HasSpan(name, 2) && MatchesEmailRegex(email) && HasSpan(message, 10)
    ensures Accepts(name, email, message) ==> EmailShaped(email)
  {
    NameVerdicts(name);
    EmailVerdicts(email);
    MessageVerdicts(message);
    EmailRegexIffShaped(email);
  }

  /** One form input and the error state around it. */
  class FormField {
    var value: string
    /** The input's `error` class. */
    var error: bool
    /** The `.error-message` elements in the input's parent, in document order. */
    var messages: seq<string>

    /** showError clears before it appends, so no more than one message is ever shown. */
    ghost predicate Valid()
      reads this
    {
      |messages| <= 1
    }

    constructor (value: string)
      ensures Valid()
      ensures this.value == value && !error && messages == []
    {
      this.value := value;
      error := false;
      messages := [];
    }

    /** clearError (also the input listener): remove the first error message, if any,
        and the error class. */
    method ClearError()
      requires Valid()
      modifies this
      ensures Valid()
      ensures value == old(value) && !error && messages == []
    {
      if messages != [] {
        messages := messages[1..];
      }
      error := false;
    }

    /** showError: clear, then append one message. Clearing also drops the error class. */
    method ShowError(message: string)
      requires Valid()
      modifies this
      ensures Valid()
      ensures value == old(value) && !error && messages == [message]
    {
      ClearError();
      messages := messages + [message];
    }
  }

  /** validateField as written: the error class is added and then removed again by the
      clearError inside showError, so a failed field ends up without it. An absent input
      fails without any change. */
  method ValidateFieldAsWritten(input: FormField?, validate: string -> Check) returns (ok: bool)
    requires input != null ==> input.Valid()
    modifies input
    ensures input == null ==> !ok
    ensures input != null ==>
      input.Valid() && input.value == old(input.value) &&
      ok == !Rejects(validate(input.value)) &&
      !input.error && input.messages == Report(validate(input.value))
  {
    if input == null {
      return false;
    }
    var err := validate(input.value);
    if err.Fail? && err.message != "" {
      input.error := true;
      input.ShowError(err.message);
      return false;
    } else {
      input.error := false;
      if input.messages != [] {
        input.messages := input.messages[1..];
      }
      return true;
    }
  }

  /** validateField with the class added after the message is shown: a field is
      marked as an error exactly when it fails, and shows exactly the latest message. */
  method ValidateField(input: FormField?, validate: string -> Check) returns (ok: bool)
    requires input != null ==> input.Valid()
    modifies input
    ensures input == null ==> !ok
    ensures input != null ==>
      input.Valid() && input.value == old(input.value) &&
      ok == !Rejects(validate(input.value)) &&
      input.error == !ok && input.messages == Report(validate(input.value))
  {
    if input == null {
      return false;
    }
    var err := validate(input.value);
    if err.Fail? && err.message != "" {
      input.ShowError(err.message);
      input.error := true;
      return false;
    } else {
      input.error := false;
      if input.messages != [] {
        input.messages := input.messages[1..];
      }
      return true;
    }
  }

  /** Leaving a blank name field as written: the message appears but the error class
      does not stay. */
  method BlankNameAsWritten() returns (marked: bool, shown: seq<string>)
    ensures !marked && shown == [NAME_REQUIRED]
  {
    var field := new FormField("");
    TrimEmptyIff("");
    var ok := ValidateFieldAsWritten(field, ValidateName);
    marked, shown := field.error, field.messages;
  }

  /** The same field under the corrected validateField keeps both. */
  method BlankNameCorrected() returns (marked: bool, shown: seq<string>)
    ensures marked && shown == [NAME_REQUIRED]
  {
    var field := new FormField("");
    TrimEmptyIff("");
    var ok := ValidateField(field, ValidateName);
    marked, shown := field.error, field.messages;
  }

  /** The contact form with its three inputs, any of which may be absent, and the
      number of success notices inserted (their removal after five seconds is not
      modelled). */
  class Form {
    const name: FormField?
    const email: FormField?
    const message: FormField?
    var notices: nat

    ghost predicate Valid()
      reads this, name, email, message
    {
      (name != null ==> name.Valid()) &&
      (email != null ==> email.Valid()) &&
      (message != null ==> message.Valid()) &&
      (name != null && email != null ==> name != email) &&
      (name != null && message != null ==> name != message) &&
      (email != null && message != null ==> email != message)
    }

    constructor (name: FormField?, email: FormField?, message: FormField?)
      requires name != null ==> name.Valid()
      requires email != null ==> email.Valid()
      requires message != null ==> message.Valid()
      requires name != null && email != null ==> name != email
      requires name != null && message != null ==> name != message
      requires email != null && message != null ==> email != message
      ensures Valid()
      ensures this.name == name && this.email == email && this.message == message
      ensures notices == 0
    {
      this.name := name;
      this.email := email;
      this.message := message;
      notices := 0;
    }

    /** form.reset(): every input back to its (empty) default value; error classes and
        messages are left as they are. */
    method Reset()
      requires Valid() && name != null && email != null && message != null
      modifies name, email, message
      ensures Valid()
      ensures name.value == "" && email.value == "" && message.value == ""
      ensures name.error == old(name.error) && name.messages == old(name.messages)
      ensures email.error == old(email.error) && email.messages == old(email.messages)
      ensures message.error == old(message.error) && message.messages == old(message.messages)
    {
      name.value := "";
      email.value := "";
      message.value := "";
    }

    /** The submit handler as written: all three fields are validated (each showing
        its own verdict, and, since validateField loses the class, none marked as an
        error); only when every input exists and passes is a success notice inserted and
        the form reset to empty values. */
    method Submit() returns (accepted: bool)
      requires Valid()
      modifies this, name, email, message
      ensures Valid()
      ensures accepted <==>
        (name != null && email != null && message != null &&
         Accepts(old(name.value), old(email.value), old(message.value)))
      ensures name != null ==>
        Settled(name, ValidateName(old(name.value)), old(name.value), accepted, false)
      ensures email != null ==>
        Settled(email, ValidateEmail(old(email.value)), old(email.value), accepted, false)
      ensures message != null ==>
        Settled(message, ValidateMessage(old(message.value)), old(message.value), accepted, false)
      ensures notices == old(notices) + (if accepted then 1 else 0)
    {
      var nameOk := ValidateFieldAsWritten(name, ValidateName);
      if name != null { FormValidatorsRejectOnFailure(name.value); }
      assert nameOk <==> name != null && ValidateName(old(name.value)).Pass?;
      var emailOk := ValidateFieldAsWritten(email, ValidateEmail);
      if email != null { FormValidatorsRejectOnFailure(email.value); }
      assert emailOk <==> email != null && ValidateEmail(old(email.value)).Pass?;
      var messageOk := ValidateFieldAsWritten(message, ValidateMessage);
      if message != null { FormValidatorsRejectOnFailure(message.value); }
      assert messageOk <==> message != null && ValidateMessage(old(message.value)).Pass?;
      accepted := nameOk && emailOk && messageOk;
      if accepted {
        notices := notices + 1;
        Reset();
      }
    }

    /** The same handler over the corrected validateField: every failed field also
        keeps the error class. */
    method SubmitCorrected() returns (accepted: bool)
      requires Valid()
      modifies this, name, email, message
      ensures Valid()
      ensures accepted <==>
        (name != null && email != null && message != null &&
         Accepts(old(name.value), old(email.value), old(message.value)))
      ensures name != null ==>
        Settled(name, ValidateName(old(name.value)), old(name.value), accepted, true)
      ensures email != null ==>
        Settled(email, ValidateEmail(old(email.value)), old(email.value), accepted, true)
      ensures message != null ==>
        Settled(message, ValidateMessage(old(message.value)), old(message.value), accepted, true)
      ensures notices == old(notices) + (if accepted then 1 else 0)
    {
      var nameOk := ValidateField(name, ValidateName);
      if name != null { FormValidatorsRejectOnFailure(name.value); }
      assert nameOk <==> name != null && ValidateName(old(name.value)).Pass?;
      var emailOk := ValidateField(email, ValidateEmail);
      if email != null { FormValidatorsRejectOnFailure(email.value); }
      assert emailOk <==> email != null && ValidateEmail(old(email.value)).Pass?;
      var messageOk := ValidateField(message, ValidateMessage);
      if message != null { FormValidatorsRejectOnFailure(message.value); }
      assert messageOk <==> message != null && ValidateMessage(old(message.value)).Pass?;
      accepted := nameOk && emailOk && messageOk;
      if accepted {
        notices := notices + 1;
        Reset();
      }
    }
  }

  /** After a submit, a field shows the verdict on its earlier value (that one message,
      and, with the corrected validateField only, the error class exactly on failure),
      and it is emptied only by an accepted submit. */
  ghost predicate Settled(f: FormField, verdict: Check, before: string, accepted: bool, corrected: bool)
    reads f
  {
    f.Valid() && f.error == (corrected && Rejects(verdict)) && f.messages == Report(verdict) &&
    f.value == (if accepted then "" else before)
  }
}
