/**
 * The `error_handler` decorator: it runs the wrapped call and turns four
 * exception kinds into fixed reply texts. A call is given by its outcome,
 * a value or a raised exception.
 */
module Decorators {
  import opened Errors
  import opened Fields
  import opened Records
  import opened Dates
  import opened Directory

  /** What the wrapper does with a call: its value, a reply text in place of an exception, or the exception unhandled. */
  datatype Handled<+T> = Returned(value: T) | Replied(text: string) | Raised(error: Exception)

  const NoNameOrPhone := "You didn't provide contact name or phone number"
  const DigitsOnly := "Phone number must include digits only"
  const NotInContacts := "User is not in contact list"
  const NotEnoughParameters := "You didn't provide enough parameters"

  /** The `except` clauses: the reply for each caught kind; nothing for the rest. */
  function Reply(e: Exception): (m: Option<string>)
    ensures m.None? <==> e.OtherError?
  {
    match e
    case IndexError => Some(NoNameOrPhone)
    case ValueError => Some(DigitsOnly)
    case KeyError => Some(NotInContacts)
    case TypeError => Some(NotEnoughParameters)
    case OtherError(_) => None
  }

  /** `wrapper(*args)`: the call's value passes through, caught kinds are replied to, others propagate. */
  function ErrorHandler<T>(outcome: Result<T>): (h: Handled<T>)
    ensures h.Returned? <==> outcome.Ok?
    ensures outcome.Ok? ==> h.value == outcome.value
    ensures h.Raised? <==> outcome.Err? && outcome.error.OtherError?
    ensures h.Raised? ==> h.error == outcome.error
    ensures h.Replied? <==> outcome.Err? && Reply(outcome.error).Some?
    ensures h.Replied? ==> h.text == Reply(outcome.error).value
  {
    match outcome
    case Ok(v) => Returned(v)
    case Err(e) =>
      match Reply(e)
      case Some(m) => Replied(m)
      case None => Raised(e)
  }

  /** Each caught kind has its own reply, so the reply tells which kind was raised. */
  lemma RepliesDistinct(e1: Exception, e2: Exception)
    requires Reply(e1).Some? && Reply(e2).Some?
    ensures Reply(e1) == Reply(e2) <==> e1 == e2
  {
  }

  /** A birthday the setter refuses is answered with the phone-digits reply. */
  lemma HandledBirthdayFormat(input: string)
    ensures ParseDate(input).Err? ==> ErrorHandler(NewBirthday(input)) == Replied(DigitsOnly)
    ensures ParseDate(input).Ok? ==> ErrorHandler(NewBirthday(input)) == Returned(Birthday(ParseDate(input).value))
  {
  }

  /** An email the setter refuses is answered with the phone-digits reply. */
  lemma HandledEmailFormat(input: string)
    ensures !EmailAccepts(input) <==> ErrorHandler(NewEmail(input)) == Replied(DigitsOnly)
    ensures EmailAccepts(input) <==> ErrorHandler(NewEmail(input)) == Returned(Email(input))
  {
  }

  /** `show_one_record` on a name that is not in the book is answered with the not-in-contacts reply. */
  lemma HandledShowOne(b: Book, name: string)
    ensures ErrorHandler(ShowOne(b, name)) == Replied(NotInContacts) <==> Lookup(b, name).None?
  {
  }

  /**
   * Before year 9999, `days_to_birthday` is answered with the phone-digits reply exactly
   * for a Feb 29 birthday whose next occurrence falls in a common year.
   */
  lemma HandledLeapBirthday(bd: CalendarDate, today: CalendarDate)
    requires today.year < MaxYear
    ensures ErrorHandler(BirthdayDelta(bd, today)) == Replied(DigitsOnly) <==>
      bd.month == 2 && bd.day == 29 && !(IsLeapYear(today.year) && EarlierInYear(today, bd))
  {
    BirthdayDeltaFailure(bd, today);
  }
}
