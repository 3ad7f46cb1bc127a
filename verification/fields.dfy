/**
 * The validated fields of a contact: a phone number and a birthday.
 * Each is built only through its validating constructor, which either
 * yields the field holding the raw text unchanged or fails.
 */
module Fields {
  import opened Wrappers
  import opened Calendar
  import opened DateFormat

  /** The `ValueError` a field constructor raises. */
  datatype FieldError = InvalidPhone | InvalidBirthday

  /**
   * A phone number. Its text is checked when the phone is created, but a
   * record may later overwrite it with unchecked text, so the type itself
   * carries no invariant.
   */
  datatype Phone = Phone(value: string)

  /** Python's `str.isdigit`, restricted to ASCII: non-empty and digits only. */
  function IsDigitString(s: string): (b: bool)
    ensures b <==> |s| > 0 && forall k :: 0 <= k < |s| ==> IsDigit(s[k])
  {
    |s| > 0 && IsDigit(s[0]) && (|s| == 1 || IsDigitString(s[1..]))
  }

  /** The text a new phone accepts. */
  predicate ValidPhoneText(s: string) {
    IsDigitString(s) && |s| == 10
  }

  /** Creating a phone: succeeds exactly on ten digits and then keeps the text as given. */
  function NewPhone(s: string): (r: Result<Phone, FieldError>)
    ensures r.Success? <==> |s| == 10 && forall k :: 0 <= k < |s| ==> IsDigit(s[k])
    ensures r.Success? ==> r.value == Phone(s)
    ensures r.Failure? ==> r.error == InvalidPhone
  {
    if IsDigitString(s) && |s| == 10 then Success(Phone(s)) else Failure(InvalidPhone)
  }

  /** The text of a birthday; only texts that parse as a date become a `Birthday`. */
  datatype BirthdayText = BirthdayText(value: string)

  type Birthday = b: BirthdayText | Parse(b.value).Some? witness BirthdayText("1.1.2000")

  /** The date a birthday's text denotes, read back with the same pattern. */
  function BirthDate(b: Birthday): (d: Date)
    ensures ValidDate(d)
  {
    Parse(b.value).value
  }

  /** Creating a birthday: succeeds exactly when the text parses and then keeps the text as given. */
  function NewBirthday(s: string): (r: Result<Birthday, FieldError>)
    ensures r.Success? <==> Parse(s).Some?
    ensures r.Success? ==> r.value.value == s
    ensures r.Failure? ==> r.error == InvalidBirthday
  {
    if Parse(s).Some? then Success(BirthdayText(s)) else Failure(InvalidBirthday)
  }

  /**
   * A birthday is created exactly from a text that is a day field, a dot,
   * a month field, a dot and a four-digit year denoting an existing date,
   * and it then denotes that date.
   */
  lemma NewBirthdayAccepts(s: string)
    ensures NewBirthday(s).Success? <==> exists d :: Matches(s, d)
    ensures NewBirthday(s).Success? ==> Matches(s, BirthDate(NewBirthday(s).value))
  {
    if NewBirthday(s).Success? {
      ParseSound(s, Parse(s).value);
    }
    if d :| Matches(s, d) {
      ParseComplete(s, d);
    }
  }

  /** The leap-year rule decides 29 February; the text is stored as given. */
  lemma NewBirthdayLeapDay()
    ensures NewBirthday("29.02.2023") == Failure(InvalidBirthday)
    ensures NewBirthday("29.02.2024") == Success(BirthdayText("29.02.2024"))
  {
    NonLeapDayRejected();
    LeapDayAccepted();
  }
}
