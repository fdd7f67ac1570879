# Address book assistant — a Dafny model

This project models the core of a console contact-management assistant
(`hw01.py`): the validated field types `Name`, `Phone` and `Birthday`, the
`Record` that owns a name, an ordered list of phones and an optional
birthday, the `AddressBook` store keyed by name text in insertion order with
its upcoming-birthdays query, and the command handlers `add_contact`,
`show_phone`, `add_birthday`, `show_birthday`, `show_all` and `parse_input`.

Layout, one module per component:

- `wrappers.dfy` (`Wrappers`): `Option`, and `Result` whose error is the
  message of the exception Python raises.
- `calendar.dfy` (`Calendar`): the parts of `datetime.date` the program
  uses. That covers validity, `toordinal` (Python's own closed formula for
  the days before a year, and its month table), `weekday`, comparison,
  `+ timedelta`, `replace(year=…)` and the `str`/`strftime` renderings.
- `fields.dfy` (`Fields`): `Name`, `Phone` and `Birthday` constructors as
  functions returning `Result`. `strptime('%d.%m.%Y')` is modelled by the
  regular expression Python compiles for it, matched against the whole text.
- `strings.dfy` (`Strings`): `str.join`, `str.split()` and `str.lower()`.
- `record.dfy` (`Records`): `class Record`. Its phone list is a `seq`
  field that `AddPhone`, `RemovePhone` and `EditPhone` reassign; the last
  two scan it with loops, as the source does.
- `upcoming.dfy` (`Upcoming`): the selection rule of
  `get_upcoming_birthdays` as functions over the store's entries and a
  reference date, with its properties.
- `address_book.dfy` (`Book`): `class AddressBook`. A `keys` sequence
  gives the dict's insertion order and a `map` holds the records.
  `GetUpcomingBirthdays` runs the source's loop (`CollectGreetings`), proved equal to the
  `Upcoming` specification.
- `handlers.dfy` (`Handlers`): the command handlers, with their usage
  messages and replies.

Behaviour of the code that the model keeps as written:

- Congratulation date. The code adds `(7 - weekday) % 7` days
  (hw01.py:129). That moves every day except Monday to the following
  Monday: a Thursday moves 4 days, a Saturday 2, and no weekday birthday
  is kept where it falls. `CongratulationFacts` and `UpcomingExample`
  state this.
- Birthday text. The error message asks for `DD.MM.YYYY`, but
  `strptime('%d.%m.%Y')` also accepts a one-digit day or month and a day
  padded with a space (`5.3.2020`, ` 5.03.2020`), and rejects year `0000`.
  The model accepts exactly what the pattern accepts.
- `str(record)` renders the birthday with `str(date)`, that is
  `YYYY-MM-DD`, or `None` when it is unset. It does not use `DD.MM.YYYY`.
- `edit_phone` with an invalid new number does not stop at the first match.
  It reports the error and goes on scanning; every later match fails the
  same way, so the call returns False and changes nothing.
- `add-birthday` replies "Birthday … added to contact …" even when the
  date was refused. The model keeps that reply.

## Model

Functions that only compute, such as `Upcoming.Collect` (the whole of
`get_upcoming_birthdays`) and `Strings.Join` (`str.join`), carry no
ensures of their own; their properties are the lemmas `CollectFails`, `CollectAppend`, `CollectSelects`,
`JoinLayout` and `LaidOutUnique`.

| member | source | states |
|---|---|---|
| `Fields.MakeName` | hw01.py:32-38 | succeeds exactly on non-empty text, keeps it verbatim, otherwise fails with "Name cannot be empty" |
| `Fields.MakePhone` | hw01.py:40-45 | succeeds exactly when the text has length 10 and every character is a digit, stores it verbatim, otherwise fails with the phone message |
| `Fields.ParseBirthday` | hw01.py:47-53 | an accepted text yields a real date (year 1..9999); every failure carries "Invalid date format. Use DD.MM.YYYY" |
| `Fields.ParseBirthdayIff` | hw01.py:49-53 | Birthday(s) succeeds iff s splits at two dots into `%d`, `%m` and `%Y` tokens whose numbers form a real date, and then stores that date |
| `Fields.ShapedParse` | hw01.py:51 | once the text has the day.month.year shape, the outcome depends only on whether the three numbers form a real date |
| `Fields.PaddedParse` | hw01.py:51 | a zero-padded day.month.year text reads back as its own numbers and is accepted iff they form a real date |
| `Fields.BirthdayTextRoundTrip` | hw01.py:51-62 | the `%d.%m.%Y` text of any valid date parses back to the same birthday |
| `Fields.LeapDayAccepted` | hw01.py:49-53 | "29.02.2024" is accepted as 29 February 2024 |
| `Fields.LeapDayRejected` | hw01.py:49-53 | "29.02.2023" is rejected |
| `Fields.AprilThirtyFirstRejected` | hw01.py:49-53 | "31.04.2020" is rejected |
| `Calendar.Ordinal` | hw01.py:127 | `toordinal()`: every date's day number is at least 1; `BeforeIffOrdinalLess` and `DaysBeforeYearStep` relate it to date order and year lengths |
| `Calendar.Weekday` | hw01.py:129 | `weekday()` is 0..6; `WeekdayAfter` relates it to moving days on |
| `Calendar.YearMonthDayText` | hw01.py:130 | `strftime("%Y.%m.%d")` is ten characters: the four-digit year, a dot, the two-digit month, a dot and the two-digit day |
| `Calendar.DaysInMonth` | hw01.py:51 | month lengths are 28..31, and 29 exactly for February of a leap year |
| `Calendar.DaysBeforeYearStep` | hw01.py:127 | consecutive years' day numbers differ by the length of the earlier year (365 or 366) |
| `Calendar.EarlierYear` | hw01.py:125 | a date in an earlier year has a smaller day number |
| `Calendar.EarlierMonth` | hw01.py:125 | within one year, a date in an earlier month has a smaller day number |
| `Calendar.BeforeIffOrdinalLess` | hw01.py:125-127 | the date `<` (`Calendar.Before`, field by field) agrees with comparing day numbers, and equal day numbers mean equal dates |
| `Calendar.IsoText` | hw01.py:100 | `str(date)`: ten characters, the four-digit year, two-digit month and two-digit day separated by hyphens |
| `Calendar.DayMonthYearText` | hw01.py:62 | `strftime('%d.%m.%Y')`: ten characters, the two-digit day, two-digit month and four-digit year separated by dots |
| `Calendar.NextDay` | hw01.py:129 | the next day is a well-formed date whose day number is one more |
| `Calendar.AddDays` | hw01.py:129 | adding n days gives a well-formed date whose day number is n more |
| `Calendar.Shift` | hw01.py:129 | `date + timedelta(n)` is a valid date n days on, or fails with "date value out of range" past 31.12.9999 |
| `Calendar.ReplaceYear` | hw01.py:124-126 | `replace(year=y)` succeeds iff y is in 1..9999 and the day exists in that month of y, and then keeps month and day |
| `Upcoming.NextOccurrence` | hw01.py:124-126 | a successful result is a valid date with the birthday's month and day that is not before the reference date |
| `Upcoming.Congratulation` | hw01.py:129 | a successful result is a valid date 0 to 6 days after the occurrence |
| `Upcoming.EntryGreetings` | hw01.py:121-130 | one record contributes at most one greeting, carrying the record's name and a ten-character date text |
| `Upcoming.CollectFails` | hw01.py:117-131 | when `get_upcoming_birthdays` (`Upcoming.Collect`) raises, the error is the one some record's step raised |
| `Upcoming.GreetingDateNamesOneDate` | hw01.py:130 | two valid dates render to the same `%Y.%m.%d` text iff they are the same date, so a greeting's text names its date |
| `Upcoming.NextOccurrenceFacts` | hw01.py:123-127 | the next occurrence keeps month and day; it is in the reference year unless that date has passed, then the next year; it is 0..365 days ahead; it fails exactly for 29 February in a year without one, or when it would land in year 10000 |
| `Upcoming.WeekdayAfter` | hw01.py:129 | moving n days on moves the weekday n places modulo 7 |
| `Upcoming.CongratulationFacts` | hw01.py:129 | the shift is 0..6 days and 0 exactly for a Monday; the result is always a Monday, equal to the occurrence iff that is a Monday; it fails only in the last days of 9999 |
| `Upcoming.EntryGreetingsIff` | hw01.py:120-130 | a record without a birthday contributes nothing; one with a birthday raises iff its next occurrence cannot be formed, or the occurrence is at most 7 days ahead and its congratulation date cannot be formed; otherwise it contributes one greeting (its name and the rendered congratulation date, a Monday 0..6 days after the occurrence) exactly when the occurrence is at most 7 days ahead |
| `Upcoming.CombineAppend` | hw01.py:118-131 | accumulating step results: a failure in the first part is the result; otherwise a failure in the second part is; otherwise the lists are concatenated in order |
| `Upcoming.CombineSelects` | hw01.py:118-131 | a successful accumulation contains every piece of every step, and nothing that no step produced |
| `Upcoming.MondayAfterShift` | hw01.py:129 | a date (7 - weekday) % 7 days after a given day is a Monday, and the shift is zero exactly when that day is a Monday |
| `Upcoming.CollectAppend` | hw01.py:117-131 | the result for a store is the result for its first part followed by the rest, so output order is store order; the first failure in store order is the one reported |
| `Upcoming.CollectExtend` | hw01.py:120-130 | one more record extends a successful result by that record's greetings, or fails with its error |
| `Upcoming.CollectPrefixFails` | hw01.py:117-131 | a failure on a prefix of the store is the failure of the whole call (no partial list) |
| `Upcoming.CollectSelects` | hw01.py:117-131 | every greeting in a result comes from some record, and every record's greeting is in the result |
| `Upcoming.UpcomingExample` | hw01.py:117-131 | on Monday 10.06.2024, birthdays on 13 June (Thursday, 3 days ahead) and 15 June (Saturday) both get the congratulation text "2024.06.17" |
| `Strings.SplitJoin` | hw01.py:135 | splitting words joined by single spaces gives back the same words |
| `Strings.JoinFixedWidth` | hw01.py:100 | joining ten-character parts with a two-character separator gives length 12n-2, puts part k at offset 12k and the separator right after every part but the last |
| `Strings.JoinPart` | hw01.py:100 | in `sep.join(parts)` part i stands at the summed width of the earlier parts and their separators, and every part but the last is followed by the separator |
| `Strings.JoinLength` | hw01.py:190 | `sep.join(parts)` ends right after its last part |
| `Strings.JoinLayout` | hw01.py:190 | `sep.join(parts)` is laid out part by part: every part at its offset, each but the last followed by the separator, nothing after the last |
| `Strings.LaidOutUnique` | hw01.py:190 | only `sep.join(parts)` has that layout, so a text laid out that way is the join |
| `Strings.Lower` | hw01.py:136 | `lower()` keeps the length, leaves no ASCII capital, and keeps every character that is not one |
| `Strings.Split` | hw01.py:135 | every piece `split()` returns is non-empty and free of whitespace |
| `Records.RemoveFirst` | hw01.py:73 | `list.remove`: the list is unchanged, or one element shorter with exactly one copy of that phone gone |
| `Records.ReplaceFirst` | hw01.py:81 | the list keeps its length, and every position that changed now holds the new phone |
| `Records.IndexOf` | hw01.py:71-72 | the index is that of the first phone with the given text, or the list length when none matches |
| `Records.RemoveFirstFacts` | hw01.py:70-75 | removing the first match takes out exactly one copy of that phone and keeps the others in order; with no match the list is unchanged |
| `Records.ReplaceFirstFacts` | hw01.py:77-85 | editing the first match keeps the length and every other position; with no match the list is unchanged |
| `Records.PhonesText` | hw01.py:100 | the "; "-joined phone text has length 12n-2, shows phone k at offset 12k and puts "; " after every phone but the last |
| `Records.NewRecord` | hw01.py:55-59 | Record(name) fails with the Name error for empty text, otherwise gives a fresh record with that name, no phones and no birthday |
| `Records.Record.constructor` | hw01.py:56-59 | a new record has the given name, an empty phone list and no birthday |
| `Records.Record.AddPhone` | hw01.py:64-68 | appends a valid number at the end; an invalid one leaves the list unchanged |
| `Records.Record.RemovePhone` | hw01.py:70-75 | returns True iff some phone equals the text, and removes only the first such phone; otherwise the list is unchanged |
| `Records.Record.EditPhone` | hw01.py:77-85 | returns True iff a phone matches and the new number is valid, and then replaces the first match in place; otherwise the list is unchanged |
| `Records.Record.FindPhone` | hw01.py:87-91 | returns the first phone equal to the text, or nothing iff there is none |
| `Records.Record.AddBirthday` | hw01.py:93-97 | an accepted date replaces the birthday; a refused one leaves the old birthday |
| `Records.Record.ShowBd` | hw01.py:61-62 | "Date of birthday " followed by a date text whose day is written in digits and that parses back to the stored birthday |
| `Records.BirthdayText` | hw01.py:100 | `str(self.birthday)`: "None" exactly when no birthday is set, otherwise an ISO date of ten characters |
| `Records.BirthdayTextNamesOneBirthday` | hw01.py:100 | two birthdays print the same only when they are the same |
| `Records.Record.Text` | hw01.py:99-100 | `str(record)`: "Contact name: " and the name, ", phones: ", the phones joined by "; " (as `PhonesText`), then ", birthday: " and the birthday's `str`, with nothing else in between |
| `Records.TextFixedByLayout` | hw01.py:99-100 | any text with the layout `Record.Text` promises is `str(record)` itself |
| `Records.RecordTextShowsPhones` | hw01.py:99-100 | `str(record)` shows every phone at its own offset after the name |
| `Book.Without` | hw01.py:113-115 | the remaining keys are exactly the old keys other than the deleted name |
| `Book.WithoutAt` | hw01.py:113-115 | deleting a key keeps the keys before it and moves the keys after it up by one |
| `Book.WithoutAbsent` | hw01.py:113-115 | deleting an absent key leaves the order unchanged |
| `Book.AddressBook.constructor` | hw01.py:103-105 | a new store is empty |
| `Book.AddressBook.AddRecord` | hw01.py:107-108 | stores the record under its name, overwriting; a new name goes last, an existing one keeps its place; find then returns the record |
| `Book.AddressBook.Find` | hw01.py:110-111 | finds a record iff the name is a key, and the record found carries that name |
| `Book.AddressBook.Delete` | hw01.py:113-115 | removes only the given key and leaves every other entry and its place; an absent name is a no-op |
| `Book.AddressBook.Entries` | hw01.py:120 | one entry per key, in key order |
| `Book.AddressBook.GetUpcomingBirthdays` | hw01.py:117-131 | the loop's result equals the `Upcoming.Collect` specification for the store's entries in order |
| `Book.CollectGreetings` | hw01.py:118-131 | the loop over the records in key order, appending each record's greetings and stopping at the first exception, returns exactly the `Upcoming.Collect` specification |
| `Book.GreetingFor` | hw01.py:121-130 | the loop body for one record equals that record's contribution in the specification |
| `Book.BirthdayThisYear` | hw01.py:124-126 | the two `replace` steps compute exactly `Upcoming.NextOccurrence` |
| `Handlers.ParseInput` | hw01.py:133-137 | fails iff the line is all whitespace; otherwise the command is a non-empty lower-case word and the arguments are words |
| `Handlers.ParseInputRoundTrip` | hw01.py:133-137 | a command typed as words separated by spaces parses to the lower-cased command and the same arguments |
| `Handlers.AddContact` | hw01.py:147-158 | a wrong argument count gives the usage message; an existing name gives "already exists" and changes nothing; otherwise a new record goes last, holding the phone if valid and no phone otherwise |
| `Handlers.ShowPhone` | hw01.py:172-183 | usage message, "Contact not found.", "No phone numbers …", or the phones joined by "; ": length 12n-2, each phone at its own offset and followed by "; " unless it is the last |
| `Handlers.AddBirthday` | hw01.py:192-203 | for an existing contact the birthday changes only if the date is accepted, yet the reply always claims success; no other record and no phone list changes |
| `Handlers.ShowBirthday` | hw01.py:205-216 | usage message, "Contact not found.", "Birthday not found …", or a text whose date has its day in digits and parses back to the stored birthday |
| `Handlers.ShowAll` | hw01.py:185-190 | replies "No contacts saved yet." iff the store is empty; otherwise the text is laid out as the `str` of every record in store order joined by newlines (which by `Strings.LaidOutUnique` fixes it), starting with the first record's text |

## Left out

- `save_data`/`load_data` and pickle persistence (hw01.py:6-15). They are
  file I/O with no logic to verify. The same goes for the save on exit,
  which passes `book.data.values()` (hw01.py:236), and for an
  `AddressBook` built from loaded data.
- The `main` read–print loop, its `hello`/`close`/`exit` replies and every
  `print` (hw01.py:227-256). The messages `add_phone`, `edit_phone` and
  `add_birthday` print on a refused value become a `false` result with
  the state unchanged.
- `change_contact` (hw01.py:161-171). It calls `edit_phone` with one
  argument, so once the usage and not-found checks pass, the reply is
  always the text of a `TypeError`. There is no store behaviour to model.
- The `birthdays` handler (hw01.py:218-226). Given arguments it returns
  its usage message, and given an empty list it returns "No upcoming
  birthdays found.". Given a non-empty list it reads `.name` on the
  dictionaries `get_upcoming_birthdays` returns and fails with an uncaught
  `AttributeError` (hw01.py:226). `get_upcoming_birthdays` itself is
  modelled.
- `datetime.today()` (hw01.py:119) is a parameter `today`.
- `Calendar.DayMonthYearText` and `Calendar.YearMonthDayText` pad the year
  to four digits. Whether `strftime('%Y')` pads years below 1000 depends
  on the platform.
- Non-ASCII text is not modelled. This covers the Unicode digits accepted
  by `str.isdigit` and by `\d` in `strptime`, the Unicode separators of
  `str.split`, and the Unicode case mapping of `str.lower`; the model
  handles ASCII only.
- The general `input_error` decorator (hw01.py:139-146). Only the
  exception a handler here can actually raise is modelled: the empty
  name in `add_contact`.
- `Field`'s validating `value` property setter (hw01.py:16-30). Fields are
  immutable values built once, and a record's name is a constant, because
  the program never reassigns them.
