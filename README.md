# Contact book assistant — a Dafny model

`task.py` is a command-line contact book. A `Record` holds a name, a list of
ten-digit phone numbers and an optional birthday in `DD.MM.YYYY` form. An
`AddressBook` maps names to records. It also lists the birthdays of the coming
week, with a weekend birthday moved to the Monday. Command handlers wrapped
in the `input_error` decorator turn exceptions into replies.

This project models that core and proves what it promises:

- `Fields` models phone validation (`Phone._validate`), birthday parsing
  (`datetime.strptime(value, "%d.%m.%Y")` on ASCII text) and rendering
  (`strftime`).
- `Calendar` models the proleptic Gregorian calendar of Python's `date`:
  ordinals, weekdays and `date.replace(year=...)`.
- `Records` models `Record` as a class whose methods update its phone list
  and birthday in place. Each method that changes the record is proved
  against a pure function on the `Contact` value.
- `Book` models `AddressBook` as a class over a map of shared `Record`
  objects. It keeps the dictionary's insertion order, because the birthday
  scan visits records in that order and the stable sort keeps that order
  for ties. The pure `Directory` value is the book's specification.
- `Upcoming` models `get_upcoming_birthdays` as a scan, a weekend shift and
  a stable sort, with soundness, completeness, ordering and failure lemmas.
- `Errors` and `Handlers` model the Python exceptions, `input_error`, and
  each command handler. Each handler is a method on the objects and a pure
  function on the book's value, proved equal.

`today` is a parameter wherever the source calls `date.today()`.

Behaviour of `task.py` worth noting, which the model keeps:

- Too few arguments raise Python's unpacking `ValueError`, not an
  `IndexError`. So the reply is "not enough values to unpack (expected at
  least N, got M)". The handlers never reply "Not enough arguments."
  (`Handlers.ShortArgumentsReply`).
- A birthday on 29 February with a common current year makes
  `date.replace` raise. That exception aborts the whole scan; it is not
  skipped (`Upcoming.LeapDayAbortsScan`). `birthdays` then replies with the
  exception's text.
- `strptime` accepts one-digit day and month fields ("1.2.2024") and a day
  written as a space and a digit (`Fields.FieldFormsParse`).
- Empty and non-alphabetic names are accepted as they are.
- A record is stored before its phone or date is validated. A rejected
  phone or date therefore still leaves a new, empty record behind
  (`Handlers.AddContactInvalidPhoneKeepsRecord`,
  `Handlers.AddBirthdayCreatesRecord`).

## Model

| member | source | states |
|---|---|---|
| Fields.ValidatePhone | task.py:23-26 | succeeds exactly when the value is ten ASCII digits, and keeps it unchanged; otherwise raises ValueError "Phone must contain exactly 10 digits" |
| Fields.IndexOfDot | task.py:31 | finds the first '.' of the text, or reports that there is none; this is how the `%d.%m.%Y` pattern splits its fields |
| Fields.ParseDate | task.py:31 | `strptime` with `%d.%m.%Y`: the day field runs to the first dot, the month field to the second, the year field to the end, and the three numbers must form a real date; any accepted text is 8 to 10 characters long |
| Fields.ParseBirthday | task.py:29-34 | succeeds exactly when `strptime` accepts the text, with the parsed date; every failure becomes ValueError "Invalid date format. Use DD.MM.YYYY" |
| Fields.FieldFormsParse | task.py:31 | every day form `%d` matches (two digits up to 31, one digit, a space and a digit) combined with every month form `%m` matches (two digits up to 12, one digit) and four year digits parses exactly when the numbers name a real date, and gives that date |
| Fields.ParseCanonical | task.py:29-34 | on text of the form DD.MM.YYYY, parsing succeeds exactly when the three numbers form a real date (so day 32, 31 February and 29 February of a common year are rejected), and yields that date |
| Fields.RenderDate | task.py:36-37 | rendering always gives two digits, a dot, two digits, a dot and four digits |
| Fields.ParseRender | task.py:29-37 | parsing the rendered birthday gives back the same date |
| Fields.RenderParse | task.py:29-37 | rendering a parsed DD.MM.YYYY text gives back the same text |
| Fields.RenderInjective | task.py:107-109 | two dates with the same rendering are equal, so grouping and sorting by the rendered string is grouping and sorting by date |
| Calendar.DaysInMonth | task.py:93 | a month has 28 to 31 days |
| Calendar.OrdinalOrder | task.py:95 | lexicographic comparison of (year, month, day) agrees with comparison of day counts |
| Calendar.OrdinalMonotone | task.py:98 | dates are totally ordered, and earlier dates have smaller day counts |
| Calendar.OrdinalInjective | task.py:98 | distinct dates have distinct day counts |
| Calendar.OrdinalRange | task.py:85 | every date from 1.1.1 to 31.12.9999 has a day count from 1 to 3652059 |
| Calendar.MaxDateIsFriday | task.py:100-103 | 31 December 9999 is a Friday |
| Calendar.NextDayOrdinal | task.py:101-103 | adding one day adds one to the day count and advances the weekday by one, modulo 7 |
| Calendar.ReplaceYear | task.py:93-96 | `date.replace(year=...)` succeeds exactly when the year is in 1..9999 and the date is not 29 February in a common year; the result keeps month and day; a failure is a ValueError |
| Records.Without | task.py:48-49 | the filtered list keeps every phone that differs from the given one, with its count, and drops every copy of the given one |
| Records.WithoutConcat | task.py:48-49 | filtering distributes over concatenation, so the phones that stay keep their relative order |
| Records.AddPhoneTo | task.py:45-46 | appending succeeds exactly for a ten-digit phone; the phone is then in the list and name and birthday are untouched |
| Records.RemovePhoneFrom | task.py:48-49 | afterwards the phone is absent, the list is no longer, and name and birthday are untouched |
| Records.EditPhoneIn | task.py:51-57 | an edit succeeds only for a valid new phone and an old phone that is present; the list keeps its length, holds the new phone, and name and birthday are untouched |
| Records.SetBirthday | task.py:65-66 | succeeds exactly when the text parses; the birthday is then set and the phones and name are untouched |
| Records.FirstIndex | task.py:53-56 | finds the first position holding the phone, and none exactly when the phone is absent |
| Records.AddPhoneAppends | task.py:45-46 | adding succeeds exactly for a ten-digit phone and appends it at the end, leaving earlier phones as they were |
| Records.AddPhoneKeepsDuplicates | task.py:45-46 | adding the same phone twice keeps both copies |
| Records.RemovePhoneKeepsOthers | task.py:48-49 | removal drops every copy of the phone, keeps the others with their counts, changes nothing when the phone is absent, and leaves name and birthday alone |
| Records.EditPhoneReplacesFirst | task.py:51-56 | a successful edit overwrites exactly the first phone equal to the old one and nothing else |
| Records.EditPhoneFailures | task.py:51-57 | the new phone is validated first; then an absent old phone raises "Old phone not found"; with both checks passed the edit succeeds |
| Records.SetBirthdayOverwrites | task.py:65-66 | setting a birthday succeeds exactly when the text parses; it replaces any earlier birthday and leaves the phones alone |
| Records.Record.constructor | task.py:40-43 | a new record holds the name, no phones and no birthday |
| Records.Record.AddPhone | task.py:45-46 | the record's new value is the pure append, or unchanged with the validation error |
| Records.Record.RemovePhone | task.py:48-49 | the record's new value is the pure filtering |
| Records.Record.EditPhone | task.py:51-57 | the loop finds the first matching phone and overwrites it; the new value is the pure edit, or unchanged with its error |
| Records.Record.FindPhone | task.py:59-63 | returns the phone exactly when the record holds it |
| Records.Record.AddBirthday | task.py:65-66 | the record's new value is the pure birthday update, or unchanged with the parse error |
| Book.Erase | task.py:80-81 | popping a key takes it out of the iteration order and keeps the order free of duplicates |
| Book.EraseConcat | task.py:80-81 | erasing distributes over concatenation, so the remaining names keep their relative order |
| Book.EraseSplit | task.py:80-81 | in an order without duplicates, erasing a present name cuts out exactly its slot |
| Book.Put | task.py:74-75 | `data[name] = record`: the record is stored under its name, and the order grows by one exactly when the name is new |
| Book.Lookup | task.py:77-78 | `data.get(name)`: the stored record exactly when the name is a key, otherwise None |
| Book.Remove | task.py:80-81 | `data.pop(name, None)`: afterwards the name is neither a key nor in the iteration order |
| Book.PutStores | task.py:74-75 | storing a record keeps the book well formed and makes `find` return it; other names are unaffected; a new name goes to the end of the iteration order and an existing one keeps its slot |
| Book.RemoveErases | task.py:80-81 | after `delete` the name is absent, other names are unaffected, deleting an absent name changes nothing, and deleting a present one cuts its slot out of the iteration order, leaving the others in order |
| Book.Listing | task.py:88 | `data.values()`: one record per name of the iteration order, in that order |
| Book.ListingCovers | task.py:88 | `data.values()` lists a record for exactly the names in the book |
| Book.ListingDistinct | task.py:88 | `data.values()` lists each name once |
| Book.ProjectBirthday | task.py:89-108 | one iteration of the scan on a stored record is the pure step on its value |
| Book.AddressBook.AddRecord | task.py:74-75 | the book's new value is the pure insertion of the record's value |
| Book.AddressBook.Find | task.py:77-78 | returns the stored record exactly when the name is present, and null otherwise |
| Book.AddressBook.Delete | task.py:80-81 | the book's new value is the pure removal |
| Book.AddressBook.CollectEntries | task.py:86-108 | the loop over records in iteration order yields the pure scan, and the first exception ends it |
| Book.AddressBook.ScanRecord | task.py:89-108 | one pass of the loop extends the scanned prefix by the record's entry, or returns the exception that ends the whole scan |
| Book.AddressBook.GetUpcomingBirthdays | task.py:83-110 | the method's result is the pure specification of the scan followed by the stable sort |
| Upcoming.EndOrdinal | task.py:85 | `today + timedelta(days)` raises OverflowError unless the delta is within timedelta's range and the result is in 1..9999; otherwise it is today's day count plus `days` |
| Upcoming.NextOccurrence | task.py:92-96 | the target year is today's, or the next one when the day has already passed; the projection succeeds exactly when that year is at most 9999 and the birthday is not 29 February with a common current year or a common target year; the result keeps month and day, lies in the target year and is not before today |
| Upcoming.LeapDayRaises | task.py:93 | a 29 February birthday in a common current year raises "day is out of range for month" |
| Upcoming.WeekendHasRoom | task.py:100-103 | moving a Saturday or a Sunday forward never passes 31 December 9999 |
| Upcoming.Congratulation | task.py:99-103 | the congratulation day is never on a weekend; a Saturday moves by two days, a Sunday by one, any other day stays |
| Upcoming.DayAfterWeekendDay | task.py:100-103 | the day after a Saturday or Sunday is one ordinal later and one weekday further |
| Upcoming.Consider | task.py:89-108 | one record's step: an entry only for a record with a birthday, carrying its name and a weekday date; a failure only from a birthday's ValueError |
| Upcoming.Collect | task.py:88-108 | the loop over records: at most one entry per record, and any failure is a ValueError |
| Upcoming.UpcomingBirthdays | task.py:83-110 | the whole scan: at most one entry per record; it fails only with a ValueError from a birthday or an OverflowError from the window end |
| Upcoming.ConsiderMeaning | task.py:89-108 | a record yields an entry exactly when it has a birthday whose next occurrence is within the window, and it fails exactly when computing that occurrence raises |
| Upcoming.CollectFailure | task.py:88-108 | the scan fails exactly when some record's step fails, and it reports the first such failure |
| Upcoming.CollectOnePerName | task.py:88-108 | distinct names in the book give at most one entry per name |
| Upcoming.SortIsSorted | task.py:109 | the sort's result is ordered by congratulation date |
| Upcoming.SortPermutes | task.py:109 | the sort's result is a permutation of the entries |
| Upcoming.InsertPermutes | task.py:109 | placing one entry into the sorted prefix adds exactly that entry to the multiset of entries |
| Upcoming.SortIsStable | task.py:109 | the entries of any one date keep their order through the sort |
| Upcoming.UpcomingSound | task.py:83-110 | every listed entry belongs to a record whose birthday falls in the window, carries the shifted congratulation date, and is not on a weekend |
| Upcoming.UpcomingComplete | task.py:83-110 | every record whose birthday falls in the window is listed with its congratulation date |
| Upcoming.UpcomingOrdered | task.py:83-110 | the listing is sorted by date, has one entry per name, and keeps the iteration order among entries of the same date |
| Upcoming.UpcomingFailure | task.py:83-110 | the scan fails exactly when the window end overflows or some record's birthday cannot be moved into the current or next year |
| Upcoming.LeapDayAbortsScan | task.py:93 | a single 29 February birthday in a common current year makes the whole scan raise a ValueError |
| Errors.InputError | task.py:136-148 | a result passes through; a KeyError or AttributeError becomes "Contact not found.", a ValueError its own text, an IndexError "Not enough arguments."; an OverflowError is not caught and escapes |
| Errors.UnpackError | task.py:152 | too few arguments raise a ValueError |
| Handlers.AddContactCreatesOrAppends | task.py:151-161 | `add` on a new name stores a record with just that phone at the end of the order and replies "Contact added."; on a known name it appends the phone and replies "Contact updated."; other records are untouched |
| Handlers.AddContactTwice | task.py:151-161 | adding two phones under one new name gives one record holding both |
| Handlers.AddContactInvalidPhoneKeepsRecord | task.py:153-159 | an invalid phone for a new name replies with the phone error but leaves a new empty record behind |
| Handlers.AddContactInvalidPhoneKeepsBook | task.py:153-160 | for a known name, a rejected phone leaves the book as it was and the reply is the phone-format error |
| Handlers.AddContactEmptyPhone | task.py:151-161 | an empty phone is skipped: a new name gets a record with no phones and no birthday, appended at the end of the book, and the reply "Contact added."; a known name leaves the book unchanged and gets "Contact updated." |
| Handlers.ChangeContactEditsOneRecord | task.py:164-170 | `change` on an unknown name replies "Contact not found." and changes nothing; on a known one it is the record's edit and nothing else; a failed edit changes nothing |
| Handlers.AddBirthdayCreatesRecord | task.py:189-196 | `add-birthday` always leaves a record under the name, a new name at the end of the order and a known one in its slot; a parsed date replaces only the birthday, keeping the phones, with "Birthday added."; a rejected one leaves the record as it was with the format error; other records are untouched |
| Handlers.ShortArgumentsReply | task.py:150-200 | with too few arguments every handler replies with the unpacking error's text, never "Not enough arguments.", and leaves the book unchanged |
| Handlers.AddContactKeepsWellFormed | task.py:151-161 | `add` keeps the book well formed: each name stored once, under its own record |
| Handlers.ChangeContactKeepsWellFormed | task.py:164-170 | `change` keeps the book well formed |
| Handlers.AddBirthdayKeepsWellFormed | task.py:189-196 | `add-birthday` keeps the book well formed |
| Handlers.RunsGroupByDate | task.py:213-217 | on the date-sorted listing, the groups have strictly ascending dates, one group per date, and each names exactly the entries of its date in listing order |
| Handlers.OnlyLastGroupMatches | task.py:214 | on sorted input, `setdefault` finds an existing slot only in the last group opened |
| Handlers.GroupByDate | task.py:213-214 | the dictionary-filling loop produces those groups |
| Handlers.FormatLines | task.py:215-218 | the line-building loop produces one "DD.MM.YYYY: names" line per group |
| Handlers.BirthdaysReply | task.py:209-220 | `birthdays` has four outcomes: the scan's ValueError text; an escaping OverflowError; "No birthdays in the next 7 days."; or the grouped lines in ascending date order, naming every listed entry under its date |
| Handlers.AddContactSpec | task.py:151-161 | `add` as a value: the reply is always a message, and the names afterwards are the old ones plus the given one |
| Handlers.ChangeContactSpec | task.py:164-170 | `change` as a value: the reply is always a message, and the names and their order are unchanged |
| Handlers.ShowPhonesSpec | task.py:173-180 | `phone` as a value: the reply is always a message, and an unknown name gets "Contact not found." |
| Handlers.AddBirthdaySpec | task.py:189-196 | `add-birthday` as a value: the reply is always a message, and the names afterwards are the old ones plus the given one |
| Handlers.ShowBirthdaySpec | task.py:199-206 | `show-birthday` as a value: the reply is always a message, and an unknown name gets "Contact not found." |
| Handlers.Describe | task.py:68-71 | `Record.__str__`: the description starts with "Contact name: " |
| Handlers.ShowAllSpec | task.py:183-186 | `all` as a value: the reply is always a message |
| Handlers.BirthdaysSpec | task.py:209-220 | `birthdays` as a value: the only exception that escapes is an OverflowError from the window end |
| Handlers.FindOrCreate | task.py:153-158 | the stored record for the name, created and stored first when there is none; the book's new value is the old one with that record ensured |
| Handlers.AddContact | task.py:151-161 | the method on the shared record objects leaves the book and replies exactly as the pure `add` does |
| Handlers.AddPhoneInPlace | task.py:159-160 | adding a phone to a stored record changes the book by that record's new value only, which is the pure `add_phone` result on success and the old value on failure |
| Handlers.ChangeContact | task.py:164-170 | the method leaves the book and replies exactly as the pure `change` does |
| Handlers.EditPhoneInPlace | task.py:169 | editing a stored record's phone changes the book by that record's new value only, which is the pure `edit_phone` result on success and the old value on failure |
| Handlers.ShowPhones | task.py:173-180 | replies "Contact not found.", "No phones.", or the phones joined by "; " |
| Handlers.ShowAll | task.py:183-186 | replies "Address book is empty." or one description per record in iteration order |
| Handlers.AddBirthday | task.py:189-196 | the method leaves the book and replies exactly as the pure `add-birthday` does |
| Handlers.SetBirthdayInPlace | task.py:195 | setting a stored record's birthday changes the book by that record's new value only, which is the pure `add_birthday` result on success and the old value on failure |
| Handlers.ShowBirthday | task.py:199-206 | replies "Contact not found.", "No birthday set.", or the rendered birthday |
| Handlers.Birthdays | task.py:209-220 | the method's reply is the pure `birthdays` reply on the book's value |
| Handlers.Announce | task.py:211-220 | a sorted, non-empty scan is answered with one line per date in date order; an empty one with the fixed message |

## Left out

- `save_data` and `load_data`: pickle file I/O, outside the logic modelled here.
- `main` and `parse_input`: console input and output. The model starts from the argument list a handler receives.
- `date.today()`: the clock is a parameter, `today`.
- `Field`, `Name` and `Record.__str__` are modelled only as the text they produce. `Handlers.Describe` models `__str__`.
- `Fields.ValidatePhone`: treats only ASCII '0'-'9' as digits. Python's `str.isdigit` also accepts other Unicode digits, such as superscripts. The `isinstance` check is left out, because the argument is always a string.
- `Fields.ParseBirthday`: models `strptime` on ASCII text only. Python's `%Y` and the second digit of a two-digit `%d` starting with 1 or 2 also match other Unicode decimal digits; `%m` takes ASCII digits only.
- `Fields.RenderDate`: always pads the year to four digits. `strftime("%Y")` for years below 1000 depends on the platform's C library.
- `Upcoming.UpcomingBirthdays`: does not model the sort key's round trip through the rendered string. `Fields.ParseRender` and `Fields.RenderInjective` show that this round trip changes nothing when years render as four digits.
- `Handlers.BirthdaysSpec`: the `sorted(...)` over the dictionary's keys is not a separate step. `Handlers.RunsGroupByDate` proves the keys are already ascending, so that sort is the identity.
- Python's exception messages for `date.replace` and timedelta overflow are copied as CPython 3 words them; other versions may word them differently.
- The exact text of the unpacking `ValueError` and of `OverflowError` messages may differ between Python versions.
