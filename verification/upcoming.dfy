/**
 * `get_birthdays_per_week`: the records whose birthday, read as a full
 * date with its birth year, falls in the window that starts on the Sunday
 * after the current week at the current time of day and ends six days
 * later at the same time of day.
 */
module Upcoming {
  import opened Wrappers
  import opened Calendar
  import opened DateFormat
  import opened Fields
  import opened Contacts
  import opened Book

  /** Microseconds in a day, the resolution of Python's `datetime`. */
  const MicrosPerDay := 86_400_000_000

  /** A `datetime`: the ordinal of its date and the microseconds elapsed since midnight. */
  datatype Instant = Instant(ordinal: int, micros: int)

  /** The instants Python's `datetime` can represent, which `datetime.today()` always returns. */
  predicate ValidInstant(t: Instant) {
    1 <= t.ordinal <= MaxOrdinal && 0 <= t.micros < MicrosPerDay
  }

  /** Comparison of `datetime` values: by date, then by time of day. */
  predicate NotAfter(a: Instant, b: Instant) {
    a.ordinal < b.ordinal || (a.ordinal == b.ordinal && a.micros <= b.micros)
  }

  /** The `OverflowError` of `datetime` arithmetic past 9999-12-31. */
  datatype QueryError = OutOfRange

  /** `t + timedelta(days=n)`: same time of day, `n` days later, or an overflow. */
  function AddDays(t: Instant, n: int): (r: Result<Instant, QueryError>)
    ensures r.Success? <==> 1 <= t.ordinal + n <= MaxOrdinal
    ensures r.Success? ==> r.value.ordinal - t.ordinal == n && r.value.micros == t.micros
  {
    if 1 <= t.ordinal + n <= MaxOrdinal then Success(Instant(t.ordinal + n, t.micros))
    else Failure(OutOfRange)
  }

  /** A birthday as `strptime` returns it: its date at midnight. */
  function BirthInstant(b: Birthday): (t: Instant)
    ensures ValidInstant(t) && t.micros == 0
  {
    var d := BirthDate(b);
    OrdinalBounds(d);
    Instant(Ordinal(d), 0)
  }

  datatype Window = Window(start: Instant, end: Instant)

  /**
   * The window after `today`: it starts `(6 - weekday) + 7` days later,
   * which is the Sunday that ends next week, and ends six days after that,
   * both at today's time of day.
   */
  function NextWeek(today: Instant): (r: Result<Window, QueryError>)
    requires ValidInstant(today)
    ensures r.Success? ==> Weekday(r.value.start.ordinal) == 6
    ensures r.Success? ==> 7 <= r.value.start.ordinal - today.ordinal <= 13
    ensures r.Success? ==> r.value.end.ordinal == r.value.start.ordinal + 6
    ensures r.Success? ==> r.value.start.micros == today.micros == r.value.end.micros
    ensures r.Failure? <==> today.ordinal + 7 + (6 - Weekday(today.ordinal)) + 6 > MaxOrdinal
  {
    match AddDays(today, (6 - Weekday(today.ordinal)) + 7)
    case Failure(e) => Failure(e)
    case Success(start) =>
      match AddDays(start, 6)
      case Failure(e) => Failure(e)
      case Success(end) => Success(Window(start, end))
  }

  /** The record has a birthday and it lies within the window, bounds included. */
  predicate Listed(rec: Record, w: Window) {
    rec.birthday.Some? && NotAfter(w.start, BirthInstant(rec.birthday.value))
    && NotAfter(BirthInstant(rec.birthday.value), w.end)
  }

  /** What the query reports for a record: its key and its birthday text. */
  function Entry(rec: Record): (e: (string, string))
    requires rec.birthday.Some?
    ensures e.0 == rec.name && e.1 == rec.birthday.value.value
    ensures Parse(e.1) == Some(BirthDate(rec.birthday.value))
  {
    (rec.name, rec.birthday.value.value)
  }

  /** The entries of the listed records, in the order of `rs`. */
  function Collect(rs: seq<Record>, w: Window): (r: seq<(string, string)>)
    ensures |r| <= |rs|
    ensures forall e :: e in r <==> exists i :: 0 <= i < |rs| && Listed(rs[i], w) && e == Entry(rs[i])
  {
    if |rs| == 0 then []
    else
      var tail := Collect(rs[1..], w);
      assert forall i :: 1 <= i < |rs| ==> rs[i] == rs[1..][i - 1];
      if Listed(rs[0], w) then [Entry(rs[0])] + tail else tail
  }

  /**
   * `get_birthdays_per_week` with the clock reading `today` passed in:
   * the key and birthday text of every record whose birthday lies in the
   * window, in book order, or the overflow computing the window raises.
   */
  function BirthdaysPerWeek(b: AddressBook, today: Instant): (r: Result<seq<(string, string)>, QueryError>)
    requires ValidInstant(today)
    ensures r.Failure? <==> NextWeek(today).Failure?
    ensures r.Success? ==> forall e :: e in r.value <==>
              exists rec :: rec in b.records && Listed(rec, NextWeek(today).value) && e == Entry(rec)
  {
    match NextWeek(today)
    case Failure(e) => Failure(e)
    case Success(w) => Success(Collect(b.records, w))
  }

  // ---------------------------------------------------------------------------
  // Properties of the query
  // ---------------------------------------------------------------------------

  /** The result follows book order: the entries of a concatenation are the concatenated entries. */
  lemma {:induction false} CollectConcat(xs: seq<Record>, ys: seq<Record>, w: Window)
    ensures Collect(xs + ys, w) == Collect(xs, w) + Collect(ys, w)
  {
    if |xs| > 0 {
      assert (xs + ys)[1..] == xs[1..] + ys;
      CollectConcat(xs[1..], ys, w);
    } else {
      assert xs + ys == ys;
    }
  }

  /**
   * Because the window bounds carry today's time of day while a birthday
   * is at midnight, the birthday on the window's first day is listed only
   * when the query runs exactly at midnight; the last day is always in.
   */
  lemma ListedDays(rec: Record, today: Instant)
    requires ValidInstant(today) && NextWeek(today).Success?
    requires rec.birthday.Some?
    ensures var w := NextWeek(today).value;
            var day := Ordinal(BirthDate(rec.birthday.value));
            var first := if today.micros == 0 then w.start.ordinal else w.start.ordinal + 1;
            Listed(rec, w) <==> first <= day <= w.start.ordinal + 6
  {
  }

  /**
   * The birthday is compared with its birth year: only a date 7 to 19 days
   * after today can be listed, so a birthday in the past never is.
   */
  lemma OnlyFutureDatesListed(rec: Record, today: Instant)
    requires ValidInstant(today) && NextWeek(today).Success?
    requires Listed(rec, NextWeek(today).value)
    ensures today.ordinal + 7 <= Ordinal(BirthDate(rec.birthday.value)) <= today.ordinal + 19
  {
  }

  /** The result is empty exactly when no record's birthday lies in the window. */
  lemma EmptyExactlyWhenNoneListed(b: AddressBook, today: Instant)
    requires ValidInstant(today) && NextWeek(today).Success?
    ensures BirthdaysPerWeek(b, today).value == [] <==>
            forall rec :: rec in b.records ==> !Listed(rec, NextWeek(today).value)
  {
    var r := BirthdaysPerWeek(b, today).value;
    forall rec | rec in b.records && Listed(rec, NextWeek(today).value)
      ensures Entry(rec) in r
    {
    }
    if r != [] {
      assert r[0] in r;
    }
  }
}
