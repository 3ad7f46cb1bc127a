# Contact book model

A Dafny model of the in-memory contact book of `m12-task-01.py`: the
validated `Phone` and `Birthday` fields, the phone-list and birthday
operations of a `Record`, the name-keyed `AddressBook` store, and its
`get_birthdays_per_week` query. The model uses immutable values and
pure functions. An operation that mutates an object in Python returns
the object's new state here, and an operation that may raise
`ValueError` returns that state together with the error.

Modules, leaves first:

- `Wrappers` (`wrappers.dfy`): `Option` and `Result`.
- `Calendar` (`calendar.dfy`): the proleptic Gregorian calendar as Python's
  `datetime` numbers it. A date has an ordinal (0001-01-01 is 1). The weekday
  is `(ordinal + 6) % 7`, so Monday is 0. Lemmas show that comparing ordinals
  is the same as comparing dates, and that consecutive days have consecutive
  ordinals.
- `DateFormat` (`dateformat.dfy`): `strptime(s, "%d.%m.%Y")` as `Parse`.
  `ParseMatches` characterises it against the pattern, and `RenderParses`
  gives the round trip from zero-padded text.
- `Fields` (`fields.dfy`): `Phone`, and `Birthday`. A `Birthday` is a subset
  type, so it can only hold text that parses.
- `Contacts` (`contacts.dfy`): `Record` with `add_phone`, `remove_phone`,
  `edit_phone` and `add_birthday`.
- `Book` (`book.dfy`): the address book. It is a sequence of records with
  unique names, kept in dict order. Overwriting a key keeps its position;
  deleting a key removes it.
- `Upcoming` (`upcoming.dfy`): `get_birthdays_per_week`. The clock reading
  is a parameter `today`, given as an ordinal plus microseconds since
  midnight.

Behaviours of `m12-task-01.py` worth knowing:

- The window starts `(6 - weekday) + 7` days after today. That day is always
  a **Sunday** (`NextWeek` proves `Weekday(start) == 6`), and the window runs
  Sunday to Saturday.
- Both window bounds carry today's time of day. A birthday is compared at
  midnight, so a birthday on the window's first day is listed only when the
  query runs exactly at 00:00 (`ListedDays`).
- The birthday is compared as a full date, including its birth year. It is
  not moved to the current year, so only dates 7 to 19 days in the future
  can be listed (`OnlyFutureDatesListed`).
- `edit_phone` stores the new text without validating it
  (`EditPhoneSkipsValidation`).
- `strptime` accepts day and month fields of one digit
  (`ShortFieldsAccepted`) and a day field written as a blank followed by a
  digit (`BlankDayAccepted`), besides the zero-padded `DD.MM.YYYY` form. The
  year must be four digits and at least 1 (`YearZeroRejected`).
- The query returns `(name, birthday text)` pairs, not formatted strings.

## Model

| member | source | states |
|---|---|---|
| Fields.IsDigitString | m12-task-01.py:19 | `isdigit` holds exactly for non-empty text made only of digits |
| Fields.NewPhone | m12-task-01.py:17-21 | a phone is created exactly from text of ten digits; it then holds that text unchanged, and otherwise the error is the invalid-phone error |
| DateFormat.Parse | m12-task-01.py:27 | `strptime` with `%d.%m.%Y`; any date it yields exists in Python's calendar (year 1 to 9999, month 1 to 12, day within the month) |
| DateFormat.ParseSound | m12-task-01.py:27 | a successful parse means the text is day field, dot, month field, dot, four-digit year, and denotes an existing date |
| DateFormat.ParseComplete | m12-task-01.py:27 | any text of that shape denoting an existing date parses to that date |
| DateFormat.ParseMatches | m12-task-01.py:27 | parsing yields a date exactly when the text matches the pattern and the date exists |
| DateFormat.RenderParses | m12-task-01.py:27 | every existing date, written zero-padded as DD.MM.YYYY, parses back to itself |
| DateFormat.NonLeapDayRejected | m12-task-01.py:27 | 29.02.2023 is rejected because 2023 is not a leap year |
| DateFormat.LeapDayAccepted | m12-task-01.py:27 | 29.02.2024 is accepted as 29 February 2024 |
| DateFormat.ShortFieldsAccepted | m12-task-01.py:27 | day and month fields of one digit are accepted |
| DateFormat.BlankDayAccepted | m12-task-01.py:27 | a day field written as a blank followed by one digit is accepted |
| DateFormat.YearZeroRejected | m12-task-01.py:27 | a four-digit year 0000 is rejected |
| Fields.NewBirthday | m12-task-01.py:24-30 | a birthday is created exactly from text that parses; it then holds the raw text unchanged, and otherwise the error is the invalid-birthday error |
| Fields.NewBirthdayAccepts | m12-task-01.py:25-30 | a birthday is created exactly when the text matches the day.month.year pattern for some existing date, and it then denotes that date |
| Fields.NewBirthdayLeapDay | m12-task-01.py:25-30 | creating a birthday from 29.02.2023 fails and from 29.02.2024 succeeds, keeping the text |
| Contacts.NewRecord | m12-task-01.py:34-37 | a new record has the given name, no phones and no birthday, so its phones are trivially valid |
| Contacts.AddPhone | m12-task-01.py:39-40 | a valid phone is appended at the end and nothing else changes; an invalid one raises and leaves the record as it was |
| Contacts.AddPhoneKeepsValid | m12-task-01.py:39-40 | adding keeps every phone of the record valid |
| Contacts.FirstOrAbsent | m12-task-01.py:43-44 | either no phone has the text or there is a first position holding it |
| Contacts.RemoveFirst | m12-task-01.py:42-46 | the list loses exactly its first phone with that text and the rest keep their order; without a match it is unchanged |
| Contacts.RemovePhone | m12-task-01.py:42-46 | removal drops only the first match from the record's list, keeps name and birthday, and is a no-op without a match |
| Contacts.RemovePhoneKeepsValid | m12-task-01.py:42-46 | removing keeps every remaining phone valid |
| Contacts.AddThenRemovePhone | m12-task-01.py:39-46 | removing a phone just added, whose text was not on the list before, restores the record |
| Contacts.EditFirst | m12-task-01.py:48-52 | only the first phone with the old text changes, to the new text; the length and every other position stay the same, and without a match the list is unchanged |
| Contacts.EditPhone | m12-task-01.py:48-52 | editing changes only the first matching phone of the record, keeps name, birthday and length, and is a no-op when the old text is absent |
| Contacts.EditPhoneKeepsValid | m12-task-01.py:48-52 | editing with a valid new text keeps every phone valid |
| Contacts.EditPhoneSkipsValidation | m12-task-01.py:51 | editing a present phone to invalid text leaves an invalid phone in the record |
| Contacts.EditPhoneUndo | m12-task-01.py:48-52 | editing old to new and back restores the record when no phone had the new text |
| Contacts.AddBirthday | m12-task-01.py:54-55 | a valid text replaces any previous birthday and nothing else changes; an invalid one raises and keeps the previous birthday or none |
| Contacts.LastBirthdayWins | m12-task-01.py:54-55 | after two birthday updates the second valid one is the only one kept |
| Book.Find | m12-task-01.py:66-67 | lookup is absent exactly when the name is not a key, and otherwise returns a stored record of that name |
| Book.FindAt | m12-task-01.py:66-67 | in a book with unique keys, lookup of a stored record's name returns that record |
| Book.AddRecord | m12-task-01.py:63-64 | after insertion the name finds the new record; every other name finds what it found before; key order is kept, with a new name appended |
| Book.AddRecordLastWins | m12-task-01.py:63-64 | inserting two records of the same name equals inserting the second alone: no merge |
| Book.RemoveAtKeepsName | m12-task-01.py:69-71 | removing one entry leaves the lookup of any other given name unchanged |
| Book.RemoveAtKeepsOthers | m12-task-01.py:69-71 | removing one entry leaves its name absent and every other name's lookup unchanged |
| Book.Delete | m12-task-01.py:69-71 | after deletion the name finds nothing; other names are unaffected; the remaining entries keep their order; deleting an absent name is a no-op |
| Book.AddThenDelete | m12-task-01.py:63-71 | deleting a name just added to a book that lacked it restores the book |
| Calendar.YearStep | m12-task-01.py:75-76 | the ordinal count advances by the year's length, 366 in leap years and 365 otherwise |
| Calendar.OrdinalOrder | m12-task-01.py:82 | for existing dates, one date is earlier than another exactly when its ordinal is smaller, and two dates are equal exactly when their ordinals are |
| Calendar.OrdinalSuccessor | m12-task-01.py:75-76 | the calendar's next day has the next ordinal |
| Calendar.OrdinalBounds | m12-task-01.py:81 | every existing date has an ordinal from 1 to that of 9999-12-31 |
| Calendar.CalendarEnds | m12-task-01.py:75-76 | 0001-01-01 has ordinal 1 and is a Monday, and 9999-12-31 has ordinal 3652059, the last one `datetime` arithmetic accepts |
| Calendar.Weekday | m12-task-01.py:75 | `weekday()` of a date's ordinal lies in 0 (Monday) to 6 (Sunday) |
| Upcoming.BirthInstant | m12-task-01.py:81 | the datetime `strptime` returns for a stored birthday is a representable instant at midnight |
| Upcoming.AddDays | m12-task-01.py:75-76 | adding days keeps the time of day and moves the date by exactly that many days, and overflows past 9999-12-31 |
| Upcoming.NextWeek | m12-task-01.py:74-76 | the window starts on a Sunday 7 to 13 days after today and ends 6 days later, both at today's time of day; it fails only when that end is past 9999-12-31 |
| Upcoming.Collect | m12-task-01.py:78-85 | an entry is reported exactly when a record has a birthday whose midnight lies within the window bounds, and there are no more entries than records |
| Upcoming.Entry | m12-task-01.py:83 | a reported entry pairs the dict key with the stored raw birthday text, which parses back to the birthday's date |
| Upcoming.BirthdaysPerWeek | m12-task-01.py:73-85 | the query fails only when the window overflows; otherwise it reports exactly the name and birthday text of each record whose full birth date lies in the window |
| Upcoming.CollectConcat | m12-task-01.py:79-83 | the result follows book order: a concatenation of books reports the concatenation of their results |
| Upcoming.ListedDays | m12-task-01.py:74-82 | a birthday is listed exactly when its day is in the window's last six days, or also on its first day when the query runs at midnight |
| Upcoming.OnlyFutureDatesListed | m12-task-01.py:81-82 | a listed birth date, year included, lies 7 to 19 days after today, so a past date is never listed |
| Upcoming.EmptyExactlyWhenNoneListed | m12-task-01.py:78-85 | the result is empty exactly when no record's birthday lies in the window |

## Left out

- The `main` command loop, `input`, `print` and `show_all` (m12-task-01.py:143-149, 188-222) are console I/O.
- The `input_error` decorator and the command handlers (m12-task-01.py:94-185) only format messages around the modelled calls. `change_contact` and `show_phone` read `phones[0]` without checking that the list is non-empty. This model does not include that code.
- `parse_input` (m12-task-01.py:88-91) depends on Unicode `split` and `lower`. It is outside the data model.
- The `__str__` renderings (m12-task-01.py:9-10, 57-59) are display only. The query returns `(name, birthday text)` pairs instead of `"name: birthday"` strings.
- `datetime.today()` (m12-task-01.py:74) reads the clock. It becomes the `today` parameter, which must be a representable `datetime`.
- `str.isdigit` and the `\d` of `strptime` also accept non-ASCII Unicode digits. The model accepts only `'0'..'9'`.
- Python objects are shared by reference, so a record returned by `find` and then changed is changed inside the book. Here values are immutable, and a changed record must be stored again with `AddRecord`.
- The `name` of a `Record` is free text, as `Name` is in the source. The dict key is the record's name, which is why the book is keyed on it. Other `UserDict` operations (`book[k] = r`, `del book[k]`) are not used by the core and are not modelled.
- `Upcoming.BirthdaysPerWeek`: in Python the query would raise `ValueError` if a stored birthday text did not parse. That cannot happen, because `Birthday` is a subset type that only admits parsing text.
