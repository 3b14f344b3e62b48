/** The checks the contact form's submit handler runs before it sends anything. A field that
    the form does not contain is `None` (`FormData.get` returns `null`). */
module Contact {
  import opened Chars
  import opened Validators

  datatype Submission = Submission(name: string, email: string, message: string)

  /** The handler's outcome: the error notification it shows, or the fields it goes on to send. */
  datatype Outcome = Reject(notice: string) | Send(submission: Submission)

  const MissingField := "Please fill in all fields"
  const ShortName := "Name must be at least 2 characters long"
  const BadEmail := "Please enter a valid email address"
  const ShortMessage := "Message must be at least 10 characters long"

  /** JavaScript truthiness of a form value: present and non-empty. */
  predicate Filled(v: Option<string>) { v.Some? && v.value != [] }

  /** The submit handler's checks, in order; the first that fails decides the notice. */
  function ValidateContact(name: Option<string>, email: Option<string>, message: Option<string>): (r: Outcome)
    ensures r == Reject(MissingField) <==> !(Filled(name) && Filled(email) && Filled(message))
    ensures r == Reject(ShortName) <==>
              Filled(name) && Filled(email) && Filled(message) && |name.value| < 2
    ensures r == Reject(BadEmail) <==>
              Filled(name) && Filled(email) && Filled(message) && |name.value| >= 2
              && !IsValidEmailStrict(email.value)
    ensures r == Reject(ShortMessage) <==>
              Filled(name) && Filled(email) && Filled(message) && |name.value| >= 2
              && IsValidEmailStrict(email.value) && |message.value| < 10
    ensures r.Send? <==>
              Filled(name) && Filled(email) && Filled(message) && |name.value| >= 2
              && IsValidEmailStrict(email.value) && |message.value| >= 10
    ensures r.Send? ==> r.submission == Submission(name.value, email.value, message.value)
  {
    if !Filled(name) || !Filled(email) || !Filled(message) then Reject(MissingField)
    else if |name.value| < 2 then Reject(ShortName)
    else if !IsValidEmailStrict(email.value) then Reject(BadEmail)
    else if |message.value| < 10 then Reject(ShortMessage)
    else Send(Submission(name.value, email.value, message.value))
  }

  /** Every rejection carries one of the four notices, and a sent form has a name of two
      characters or more, an address of the strict shape and a message of ten or more. */
  lemma OutcomesAreKnown(name: Option<string>, email: Option<string>, message: Option<string>)
    ensures var r := ValidateContact(name, email, message);
      r.Reject? ==> r.notice in {MissingField, ShortName, BadEmail, ShortMessage}
    ensures var r := ValidateContact(name, email, message);
      r.Send? ==> |r.submission.name| >= 2 && StrictEmailShape(r.submission.email)
                  && |r.submission.message| >= 10
  {
    var r := ValidateContact(name, email, message);
    if r.Send? {
      StrictEmailCorrect(r.submission.email);
    }
  }
}
