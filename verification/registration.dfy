/**
 * The two registration forms, the page and the modal: the checks run before
 * the account is requested, in their order, and what a submit leads to.
 * The server's answer is an input.
 */
module Registration {
  import opened Wrappers
  import opened JsText

  /** The messages the forms show, one per reason. */
  datatype FormError = Required | Mismatch | TooShort | Rejected(message: string)

  const MinPasswordLength: nat := 6

  function Message(e: FormError): string {
    match e
    case Required => "Username and password are required"
    case Mismatch => "Passwords do not match"
    case TooShort => "Password must be at least 6 characters long"
    case Rejected(m) => m
  }

  datatype Fields = Fields(username: string, password: string, confirmPassword: string)

  /** The checks of `handleSubmit`, in order: a missing name or password, a mismatch, then a password of fewer than six UTF-16 code units. */
  function Check(f: Fields): (r: Option<FormError>)
    ensures r.None? <==> f.username != [] && f.password != [] && f.password == f.confirmPassword && Length(f.password) >= MinPasswordLength
    ensures r == Some(Required) <==> f.username == [] || f.password == []
    ensures r == Some(Mismatch) <==> f.username != [] && f.password != [] && f.password != f.confirmPassword
    ensures r == Some(TooShort) <==> f.username != [] && f.password != [] && f.password == f.confirmPassword && Length(f.password) < MinPasswordLength
  {
    if f.username == [] || f.password == [] then Some(Required)
    else if f.password != f.confirmPassword then Some(Mismatch)
    else if Length(f.password) < MinPasswordLength then Some(TooShort)
    else None
  }

  /** What the server answers to the registration request. */
  datatype Answer = Success | Failure(error: string)

  /** Where a submit of the page leaves the user: the error shown, or the home page. */
  datatype PageOutcome = PageError(error: FormError) | GoHome

  /**
   * The page's `handleSubmit`: a failed check is shown and the account is not
   * requested; otherwise the account is requested (`requested`) and the
   * answer decides: home on success, the server's error otherwise.
   */
  function PageSubmit(f: Fields, answer: Answer): (r: (bool, PageOutcome))
    ensures r.0 <==> Check(f).None?
    ensures Check(f).Some? ==> r.1 == PageError(Check(f).value)
    ensures Check(f).None? && answer.Success? ==> r.1 == GoHome
    ensures Check(f).None? && answer.Failure? ==> r.1 == PageError(Rejected(answer.error))
  {
    match Check(f)
    case Some(e) => (false, PageError(e))
    case None => (true, if answer.Success? then GoHome else PageError(Rejected(answer.error)))
  }

  /** The modal after a submit: its fields, the error shown, and whether it is still open. */
  datatype Modal = Modal(fields: Fields, error: Option<FormError>, open: bool)

  /**
   * The modal's `handleSubmit`: the same checks; on success the fields are
   * cleared and the modal closes, otherwise it stays open with the error and
   * the fields as typed.
   */
  function ModalSubmit(f: Fields, answer: Answer): (r: (bool, Modal))
    ensures r.0 <==> Check(f).None?
    ensures Check(f).Some? ==> r.1 == Modal(f, Check(f), true)
    ensures Check(f).None? && answer.Success? ==> r.1 == Modal(Fields([], [], []), None, false)
    ensures Check(f).None? && answer.Failure? ==> r.1 == Modal(f, Some(Rejected(answer.error)), true)
  {
    match Check(f)
    case Some(e) => (false, Modal(f, Some(e), true))
    case None =>
      if answer.Success? then (true, Modal(Fields([], [], []), None, false))
      else (true, Modal(f, Some(Rejected(answer.error)), true))
  }

  /** The page and the modal request an account for the same input and show the same error for it. */
  lemma FormsAgree(f: Fields, answer: Answer)
    ensures PageSubmit(f, answer).0 == ModalSubmit(f, answer).0
    ensures PageSubmit(f, answer).1.PageError? <==> ModalSubmit(f, answer).1.error.Some?
    ensures PageSubmit(f, answer).1.PageError? ==> PageSubmit(f, answer).1.error == ModalSubmit(f, answer).1.error.value
  {
  }

  /** An account is only ever requested with a password of at least six UTF-16 code units that was typed twice alike. */
  lemma RequestedPasswordsAreConfirmed(f: Fields, answer: Answer)
    requires PageSubmit(f, answer).0 || ModalSubmit(f, answer).0
    ensures Length(f.password) >= MinPasswordLength && f.password == f.confirmPassword && f.username != []
  {
  }

  /** Three astral characters make six code units, so such a password is long enough. */
  lemma ThreeAstralCharactersSuffice(name: string, a: char, b: char, c: char)
    requires name != [] && !InBmp(a) && !InBmp(b) && !InBmp(c)
    ensures Check(Fields(name, [a, b, c], [a, b, c])).None?
  {
    LengthAppend([a, b], [c]);
    LengthAppend([a], [b]);
    assert [a, b] + [c] == [a, b, c] && [a] + [b] == [a, b];
    OneAstralCharacter(a);
    OneAstralCharacter(b);
    OneAstralCharacter(c);
  }
}
