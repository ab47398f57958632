# Contact book core, modelled in Dafny

This project models the in-memory core of a console contact manager: the
validated field values (`Name`, `Phone`, `Birthday`), a contact `Record`
with its ordered, possibly repeating list of phones and an optional
birthday, and the `AddressBook`, an insertion-ordered dictionary from a
contact's name to its record, with its upcoming-birthdays query. It proves
what these operations promise.

Modules, one per component:

- `Results` — `Option`, `Result` and `Outcome` values, and the Python exceptions
  the core raises (`ValueError`, `KeyError`, `OverflowError`) with their messages.
- `Calendar` — proleptic Gregorian dates as `datetime.date` holds them
  (years 1 to 9999). It has Python's tuple comparison of dates, the day
  number (the ordinal, with 0001-01-01 as day 1), and `date + timedelta(days=n)`,
  which overflows after 9999-12-31. The lemma `DayNumberOrder` proves that
  comparing dates agrees with comparing day numbers.
- `Fields` — `Name` and `Phone` validation, and the `%d.%m.%Y` birthday
  parser with its round trips.
- `Records` — the phone-list operations as functions on sequences, with the
  `Record` class whose methods update `phones` and `birthday` in place and are
  proved equal to those functions.
- `Birthdays` — the upcoming-birthdays loop as a function of the visited
  records (in book order) and of `today`. It is proved against a separate
  description by day numbers: which records qualify, in which order, and
  when the whole query fails.
- `Book` — the `AddressBook` class. It holds a key sequence (the dictionary's
  order) beside a map (its contents). The module also holds the `add`
  command's record creation (`AddContact`).

The current date is a parameter (`today`) of the birthday query rather than
a call to the clock.

Where the code and the written design disagree, the model follows the code, except for the phone rule (see "## Findings" and "## Left out"):

- `find_phone` raises `ValueError` (not a separate not-found error).
- `find` raises `KeyError`.
- Birthday parsing accepts one-digit days and months (`5.3.1990`), because
  `strptime`'s `%d` and `%m` do.
- The birthday query can also fail with `OverflowError` in the last week of
  year 9999, where `today + timedelta(days=7)` is out of range.

## Model

| member | source | states |
|---|---|---|
| `Calendar.DaysInMonth` | main.py:41 | month lengths are 28 to 31 days, and 29 exactly for February of a leap year |
| `Calendar.IsValid` | main.py:41 | the dates `date` accepts (year 1 to 9999, month 1 to 12, day within the month); characterised by `DayNumberOrder`, `MaxOrdinalBound` and `AddDays`, and every parsed birthday satisfies it (`ParseBirthday`) |
| `Calendar.DayNumberOrder` | main.py:102 | Python's comparison of dates (`<`, `==`, `<=`) agrees with comparing their day numbers |
| `Calendar.DateLess` | main.py:102 | Python's `<` on dates, field by field; `DayNumberOrder` proves it is `<` on day numbers |
| `Calendar.DateLessEq` | main.py:102 | Python's `<=` on dates, field by field; `DayNumberOrder` proves it is `<=` on day numbers |
| `Calendar.MaxOrdinalBound` | main.py:102 | 9999-12-31 is day 3652059, and every valid date's number is at most that, equal only for that date |
| `Calendar.NextDay` | main.py:102 | the following day is a valid date whose number is one more, and it exists for every date but 9999-12-31 |
| `Calendar.AddDays` | main.py:102 | `d + timedelta(days=n)` is a valid date exactly n day numbers later, and overflows exactly when that would pass day 3652059 |
| `Fields.NewName` | main.py:13-18 | a Name is built exactly from a non-empty string, and the empty string raises `ValueError("Name cannot be empty")` |
| `Fields.NewPhone` | main.py:20-28 | a Phone is built exactly from a string of ten ASCII digits and keeps it, and anything else raises `ValueError("Invalid phone number")` |
| `Fields.TrailingNewlineAccepted` | main.py:27-28 | the check as written accepts `"012345678\n"`, which is not ten digits |
| `Fields.IsPhoneNumber` | main.py:20-28 | the intended phone rule, ten ASCII digits; `NewPhone` accepts exactly these strings |
| `Fields.MatchesDigitsToEnd` | main.py:28 | `re.match(r"^\d+$", s)`: a run of at least one digit from the start, then `$` at the end or before a final newline; `DigitsToEndForms` gives its closed form |
| `Fields.DigitsToEndForms` | main.py:28 | the regex accepts exactly the non-empty digit strings and the non-empty digit strings followed by one newline |
| `Fields.ValidateNumberAsWritten` | main.py:27-28 | `validate_number` as written (length 10 and the regex); `TrailingNewlineAccepted` and `ValidateNumberAsWrittenDiffers` show how it departs from `IsPhoneNumber` |
| `Fields.ValidateNumberAsWrittenDiffers` | main.py:27-28 | derived from the regex: the check as written accepts exactly the ten-digit strings plus nine digits followed by a newline |
| `Fields.SplitDate` | main.py:41 | a string that lines up with `%d.%m.%Y` is its day field (1-2 chars), a dot, its month field (1-2 chars), a dot and its year field (4 chars) |
| `Fields.ParseBirthday` | main.py:38-43 | a parsed birthday is always a valid calendar date, and every failure is `ValueError("Invalid date format. Use DD.MM.YYYY")` |
| `Fields.ParseRendered` | main.py:41 | every valid date, written with or without zero-padding of day and month and a four-digit year, parses back to itself |
| `Fields.ParsedIsRendered` | main.py:41 | every accepted string is one of those written forms of the date it yields |
| `Fields.FormatRoundTrip` | main.py:41 | an accepted ten-character string is exactly the DD.MM.YYYY formatting of its date |
| `Records.FirstIndex` | main.py:57-58 | the scan finds a position holding the phone with no equal phone before it |
| `Records.RemoveFirst` | main.py:57-60 | the list after `remove` of the first equal phone; characterised by `RemoveFirstAt`, `RemoveFirstAbsent` and `RemoveFirstCount` |
| `Records.RemoveFirstAt` | main.py:57-60 | removing the first equal phone cuts the list at exactly that position and keeps the rest in order |
| `Records.RemoveFirstAbsent` | main.py:57-60 | with no equal phone, the list is unchanged |
| `Records.RemoveFirstCount` | main.py:57-60 | removal takes away exactly one copy of the phone if there is one, and nothing else |
| `Records.AddPhoneTo` | main.py:51-53 | a valid number is appended as exactly one new last phone (duplicates allowed), earlier entries untouched; an invalid one raises and changes nothing |
| `Records.RemovePhoneFrom` | main.py:55-60 | an invalid number raises before the list is touched; a valid one removes only the first equal phone, keeping the order of the rest, or silently nothing |
| `Records.EditPhoneIn` | main.py:62-64 | edit is remove-then-add: an invalid old number changes nothing; with both valid the new phone ends up last; with a valid old and an invalid new number the call raises after the old phone is gone |
| `Records.EditLosesOldOnInvalidNew` | main.py:62-64 | the non-atomic edit: the call fails and the list is one shorter, one copy of the old phone gone |
| `Records.EditThenFind` | main.py:62-71 | editing a once-stored phone into a different valid number: the new number is then found and the old one is not |
| `Records.Record.constructor` | main.py:46-49 | a new record has its name, no phones and no birthday |
| `Records.NewRecord` | main.py:46-49 | `Record(name)` succeeds exactly for a non-empty name, giving a fresh record with no phones and no birthday |
| `Records.Record.AddPhone` | main.py:51-53 | the in-place append agrees with `AddPhoneTo` and keeps the record's phones valid |
| `Records.Record.RemovePhone` | main.py:55-60 | the scanning loop with its early exit agrees with `RemovePhoneFrom` |
| `Records.Record.EditPhone` | main.py:62-64 | calling remove then add in place agrees with `EditPhoneIn` |
| `Records.Record.FindPhone` | main.py:66-71 | succeeds exactly when some stored phone's string equals the argument (not re-validated), returning a stored phone with that string; otherwise `ValueError("Phone number not found")` |
| `Records.Record.AddBirthday` | main.py:73-74 | a parsable date sets or overwrites the birthday; an unparsable one raises and leaves the old birthday |
| `Birthdays.ReplaceYear` | main.py:101 | `replace(year=y)` keeps month and day; for a valid birthday and year it fails exactly on 29 February in a non-leap year |
| `Birthdays.Visit` | main.py:100-106 | one turn of the loop in Python's evaluation order; characterised by `VisitSpec` against the day-number reference |
| `Birthdays.UpcomingOf` | main.py:98-107 | the whole loop over the records in order, the first exception ending it; characterised by `UpcomingFailsIff`, `UpcomingSelects` and `UpcomingInWindow` |
| `Birthdays.VisitSpec` | main.py:100-106 | one turn of the loop raises exactly when the record aborts the query, and otherwise contributes the record exactly when its candidate date is 0 to 7 days after today |
| `Birthdays.PrefixFailure` | main.py:99-106 | an exception raised for one record is the outcome of the whole query |
| `Birthdays.UpcomingFailsIff` | main.py:96-107 | the query fails exactly when some record has a 29 February birthday in a non-leap year, or a candidate on or after today in the last week of year 9999 |
| `Birthdays.UpcomingSelects` | main.py:96-107 | a successful answer holds exactly the qualifying records, each once, named and dated in today's year, in book order |
| `Birthdays.UpcomingInWindow` | main.py:101-102 | no roll-over: every reported date is in today's year and within the inclusive window [today, today + 7 days] |
| `Birthdays.LeapDayBirthdayAborts` | main.py:101 | one 29 February birthday makes the whole query fail in a non-leap year, whatever else the book holds |
| `Birthdays.DecemberBirthdayIncluded` | main.py:96-107 | on 20 December a 25 December birthday is reported as 25 December of today's year |
| `Birthdays.NewYearBirthdayNotRolledOver` | main.py:101-102 | on 28 December a 1 January birthday is not reported, although next year's 1 January is four days away |
| `Book.InsertKeyOrder` | main.py:80-81 | inserting keeps the keys distinct, adds only the new name, keeps the old order as a prefix, and leaves the order alone when the name exists |
| `Book.InsertKey` | main.py:81 | the dictionary's key order after an assignment; characterised by `InsertKeyOrder` |
| `Book.RemoveKey` | main.py:91 | the dictionary's key order after `del`; characterised by `RemoveKeyAt` and `RemoveKeyMembers` |
| `Book.RemoveKeyAt` | main.py:89-91 | deleting a stored name cuts the order at exactly its position |
| `Book.RemoveKeyMembers` | main.py:89-91 | deleting a name removes exactly that name from the order |
| `Book.Lookup` | main.py:83-87 | `find` returns the record stored under the name, and raises `KeyError("Record not found")` exactly when the name is absent |
| `Book.FindAfterAdd` | main.py:80-87 | after `add_record`, `find` by that name gives the record just added, and other names are unaffected (last write wins) |
| `Book.FindAfterDelete` | main.py:83-91 | after a deletion, `find` by that name raises `KeyError`, and other names are unaffected |
| `Book.EntriesOf` | main.py:99 | `self.data.values()` in key order, one entry per key; `EntryAt` gives the entry at each position |
| `Book.EntryAt` | main.py:99 | the query visits, at position i, the name and birthday of the record under the i-th key |
| `Book.AddressBook.constructor` | main.py:79 | a new book is empty |
| `Book.AddressBook.AddRecord` | main.py:80-81 | stores the record under its name, overwriting, and a new name goes last in the order; the book's invariant is kept |
| `Book.AddressBook.Find` | main.py:83-87 | agrees with `Lookup` on the book's contents |
| `Book.AddressBook.DeleteRecord` | main.py:89-94 | a stored name is removed with message "Contact {name} deleted"; an absent one leaves the book unchanged with "Contact {name} not found", never raising |
| `Book.AddressBook.UpcomingBirthdays` | main.py:96-107 | the loop over the records in book order computes exactly `UpcomingOf` of those records |
| `Book.AddContact` | main.py:125-131 | a new record with one phone is stored under a non-empty name with a valid phone, replacing any contact of that name; an empty name raises `ValueError("Name cannot be empty")` before the phone is looked at, even when the phone is also bad; otherwise a bad phone raises `ValueError("Invalid phone number")`; either failure leaves the book unchanged |

## Findings

| source | as written | input that shows it | evidently intended | confidence | as-written member | corrected member |
|---|---|---|---|---|---|---|
| main.py:27-28 | `len(number) == 10 and re.match(r"^\d+$", number)`, where `$` also matches before a final newline | `"012345678\n"` is accepted as a phone number | exactly ten digits | high (not executed) | `Fields.ValidateNumberAsWritten`, shown by `Fields.TrailingNewlineAccepted` | `Fields.NewPhone` |

The rest of the model uses the corrected check (`Fields.IsPhoneNumber`).

## Left out

- The console loop: `main()`, `input()`, `print`, splitting and dispatching commands (main.py:155-229). This is I/O around the core.
- The `input_error` decorator and the handlers `change_phone`, `show_phones` and `show_all_contacts` (main.py:110-153). They turn exceptions into text and format output. `add_contact` is modelled as `Book.AddContact`, which returns the error instead of its text.
- `datetime.today()` (main.py:97) reads the clock. The query takes `today` as a parameter.
- `__str__`, `__repr__` and `strftime` output (main.py:10-11, 35-36, 76-77, 105). A reported birthday is a `Date` value, not its `DD.MM.YYYY` text.
- `Field` (main.py:6-8) is the shared `value` holder. Each field is its own datatype with a `value`.
- `Phone.__eq__` against a non-Phone object returns False (main.py:33). The model is typed, so that comparison cannot arise. Phone equality is the datatype's equality on `value`.
- Unicode digits: Python's `\d` and `strptime` also accept non-ASCII decimal digits. The model accepts ASCII digits only.
- `strptime` leniencies other than one-digit day and month are not modelled. This includes a space-padded day such as `" 5.03.1990"`.
- The exact texts of the `ValueError` from `date.replace` and the `OverflowError` from `date + timedelta` are taken to be CPython's "day is out of range for month" and "date value out of range".
- Object identity: `find_phone` returns the stored Phone object. Phones are values here, so the model returns an equal value.
- Records are shared references, as in Python. The book's invariant `Book.AddressBook.Valid` covers only keys and names. A record's own invariant (valid phones and birthday) is kept by each of its methods but is not part of the book's invariant, because callers mutate records they got from `find`.
- `Records.Record.AddPhone`, `RemovePhone`, `EditPhone` and `AddBirthday` state record validity as kept (`old(Valid()) ==> Valid()`), not required, because Python places no precondition on them.
- The rest of `UserDict` (`__setitem__`, `get`, `values`, ...) is not modelled. Only the named operations are. The shell's direct `book.data.get` is part of the console loop.
