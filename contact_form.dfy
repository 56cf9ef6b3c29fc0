/** The decision logic of the contact form: which message handleFormSubmission
    shows for the submitted name, e-mail and message, and how showFormMessage
    treats each kind of message. The message element's state itself lives in
    Portfolio.Page. */
module ContactForm {
  import opened Email

  /** The status classes the form puts on its message element. */
  datatype MessageKind = Info | Success | Error

  function ClassName(k: MessageKind): string {
    match k
    case Info => "info"
    case Success => "success"
    case Error => "error"
  }

  /** showFormMessage schedules the 5-second auto-hide for every class but "info". */
  predicate AutoHides(k: MessageKind) {
    ClassName(k) != "info"
  }

  datatype Message = Message(text: string, kind: MessageKind)

  const FillInFields := "Please fill in all required fields."
  const InvalidAddress := "Please enter a valid email address."
  const Sending := "Sending message..."
  const Thanks := "Thank you for your message! I'll get back to you soon."

  /** Where handleFormSubmission stops. */
  datatype Verdict = MissingField | InvalidEmail | Accepted

  /** The checks of handleFormSubmission, in their order; the first that fails
      decides. A field FormData does not hold reads as null, which the
      source's `!name` rejects exactly as it rejects "". */
  function Validate(name: string, email: string, message: string): Verdict {
    if name == "" || email == "" || message == "" then MissingField
    else if !IsValidEmail(email) then InvalidEmail
    else Accepted
  }

  /** The messages a submission shows, in order: one error, or the info
      message followed, once the simulated send completes, by the success one. */
  function Shown(v: Verdict): (ms: seq<Message>)
    ensures |ms| > 0
    ensures ms[|ms| - 1].kind == Success <==> v == Accepted
    ensures forall k :: 0 <= k < |ms| - 1 ==> ms[k].kind == Info && !AutoHides(ms[k].kind)
    ensures v != Accepted ==> |ms| == 1 && ms[0].kind == Error && AutoHides(ms[0].kind)
    ensures v == Accepted ==> |ms| == 2 && ms[0] == Message(Sending, Info) && ms[1] == Message(Thanks, Success)
  {
    match v
    case MissingField => [Message(FillInFields, Error)]
    case InvalidEmail => [Message(InvalidAddress, Error)]
    case Accepted => [Message(Sending, Info), Message(Thanks, Success)]
  }

  /** A submission with an empty field gets the fill-in error, whatever the
      e-mail field holds; only a complete form reaches the e-mail check. */
  lemma EmptyFieldWins(name: string, email: string, email': string, message: string)
    requires name == "" || message == ""
    ensures Validate(name, email, message) == Validate(name, email', message) == MissingField
    ensures Shown(Validate(name, email, message)) == [Message(FillInFields, Error)]
  {
  }

  /** The three outcomes, each with the condition that produces it; there is
      no fourth. */
  lemma ValidationOutcomes(name: string, email: string, message: string)
    ensures Validate(name, email, message) == MissingField <==> name == "" || email == "" || message == ""
    ensures Validate(name, email, message) == InvalidEmail <==>
      name != "" && email != "" && message != "" && !IsValidEmail(email)
    ensures Validate(name, email, message) == Accepted <==>
      name != "" && email != "" && message != "" && IsValidEmail(email)
  {
  }

  /** What an accepted submission's address looks like: no whitespace,
      exactly one `@`, and a `.` after it with characters on both sides. */
  lemma AcceptedAddressShape(name: string, email: string, message: string)
    requires Validate(name, email, message) == Accepted
    ensures NoSpace(email) && multiset(email)['@'] == 1 && AtThenDot(email)
  {
    ValidEmailIff(email);
  }

  /** Three sample submissions: a malformed address, a valid one, and an empty name. */
  lemma SubmissionExamples()
    ensures Validate("Bob", "bob@@nodot", "hi") == InvalidEmail
    ensures Shown(Validate("Bob", "bob@@nodot", "hi")) == [Message(InvalidAddress, Error)]
    ensures Validate("Bob", "bob@example.com", "hi") == Accepted
    ensures Shown(Validate("Bob", "bob@example.com", "hi")) ==
      [Message(Sending, Info), Message(Thanks, Success)]
    ensures Validate("", "bob@example.com", "hi") == MissingField
  {
    EmailRejected();
    EmailAccepted();
  }
}
