# AddressBookBot contact book, modelled in Dafny

This project models the contact book of AddressBookBot 3.0 and the error
decorator that turns its exceptions into reply texts.

- **Field values** (`fields.dfy`):
  - A `Name` or `Phone` stores its text unchanged.
  - A `Birthday` parses `DD-MM-YYYY` the way `strptime("%d-%m-%Y")` does and prints with `strftime`.
  - An `Email` is accepted when the text contains a match of `\b[A-Za-z][\w+.]+@\w+[.][a-z]{2,3}`.
  - A setter validates first and assigns only on success. A refused value raises `ValueError` and the old value stays.
- **Record** (`records.dfy`): a class whose phone list, birthday and email change in place. It covers:
  - `add_phone`, `change` (which looks only at the first phone), `remove_phone`;
  - `add_birthday`, `add_email`, `show_contact_info`;
  - `days_to_birthday`, with the current date passed in.
- **AddressBook** (`directory.dfy`): a class holding the dictionary as a key list in insertion order plus a map from name to `Record`.
  - Each method is proved against a pure function on the book's contents in key order (`Abstract()`).
  - The pure layer (`Book = seq<Contact>`) carries the dictionary lemmas: store keeps position, pop removes, lookup.
  - Searching, listing and the one-shot `iterator` are proved against specification functions.
- **Dates** (`dates.dfy`): proleptic Gregorian dates with the day ordinal Python's `date.toordinal` computes. Birthday arithmetic is done on these ordinals.
- **Decorator** (`decorators.dfy`):
  - A call is given by its outcome, a value or an exception.
  - `ErrorHandler` passes values through, replies to `IndexError`, `ValueError`, `KeyError` and `TypeError` with fixed texts, and lets any other exception propagate.
- `errors.dfy` holds the exception kinds and the `Option`/`Result` wrappers. `text.dfy` holds ASCII character classes, lower-casing, substring search, `join` and concatenation.

`Record.change` loops over the phones in the source, but that loop returns
on its first iteration on both branches. The model therefore has no loop:
it inspects `phones[0]` only. `ChangeIgnoresLaterPhones` records the
consequence.

## Model

| member | source | states |
|---|---|---|
| Fields.Assign | class_part.py:59-64 | a refused value leaves the field as it was and reports the exception; an accepted one replaces it and reports nothing |
| Fields.ParseDate | class_part.py:59-64 | every refusal of the birthday text is a `ValueError` |
| Fields.ParseDateMeaning | class_part.py:62 | the text parses to `d` exactly when it spells `d` as day token, `-`, month token, `-`, four-digit year (tokens as `strptime` reads them) and `d` is a real calendar date |
| Fields.FormatThenParse | class_part.py:49-64 | printing a birthday and parsing the text gives back the same date |
| Fields.ParseThenFormat | class_part.py:49-64 | an accepted, zero-padded `DD-MM-YYYY` text is printed back unchanged |
| Fields.FormatDate | class_part.py:49-50 | printing gives ten characters: two digits, `-`, two digits, `-`, four digits; `FormatThenParse` and `ParseThenFormat` tie it to the parser |
| Fields.NewBirthday | class_part.py:59-64 | a Birthday is created exactly when the text parses, holding the parsed date; otherwise `ValueError` |
| Fields.SetBirthday | class_part.py:59-64 | assigning succeeds exactly when the text parses; on failure the old date is kept and `ValueError` raised |
| Fields.MatchAt | class_part.py:82 | a match at `i` starts with a letter and needs at least seven characters; `MatchAtMeaning` states it is exactly a pattern match at `i` |
| Fields.EmailAccepts | class_part.py:82 | an accepted text has at least seven characters; `EmailAcceptsMeaning` states acceptance is exactly a match at some position |
| Fields.MatchAtMeaning | class_part.py:82 | the scanning matcher accepts at position `i` exactly when the pattern has a match starting at `i` (letter at a word start, one or more of `\w+.`, `@`, one or more `\w`, `.`, two lower-case letters) |
| Fields.EmailAcceptsMeaning | class_part.py:82 | an email is accepted exactly when some position starts a match: a search, not a full match |
| Fields.NewEmail | class_part.py:80-84 | an Email is created exactly when the text is accepted, holding the text unchanged; otherwise `ValueError` |
| Fields.SetEmail | class_part.py:80-84 | assigning succeeds exactly when the text is accepted; on failure the old email is kept and `ValueError` raised |
| Fields.EmailAcceptedPlain | class_part.py:82 | a plain address is accepted |
| Fields.EmailAcceptedInside | class_part.py:82 | a match may start after other words and may be followed by more letters |
| Fields.EmailRejected | class_part.py:82 | a single character before `@` is refused |
| Records.Record.constructor | class_part.py:90-97 | the phone list starts empty, or holds just the phone given |
| Records.Record.AddPhone | class_part.py:105-107 | the phone is appended at the end, nothing else changes, and the success text is returned |
| Records.Record.Change | class_part.py:109-115 | empty list: `None` and no change; first phone matches: list becomes the rest followed by the new phone, success text; otherwise no change and "not found" |
| Records.ChangedPhones | class_part.py:109-115 | the list after `change` keeps its length and holds only old phones and the new one; `ChangeKeepsTheRest` and `ChangeIgnoresLaterPhones` give the two cases |
| Records.ChangeReply | class_part.py:109-115 | no reply (`None`) exactly for an empty phone list |
| Records.ChangeIgnoresLaterPhones | class_part.py:109-115 | when the first phone differs, a later phone with the old value is left alone and "not found" is reported |
| Records.ChangeKeepsTheRest | class_part.py:109-115 | a successful change keeps the length, swaps the first phone for the new one in the multiset and puts the new phone last |
| Records.Record.AddBirthday | class_part.py:117-118 | the birthday is overwritten and nothing else changes |
| Records.Record.AddEmail | class_part.py:120-121 | the email is overwritten and nothing else changes |
| Records.Record.DaysToBirthday | class_part.py:123-139 | no birthday: the "unknown" text; otherwise the text reports the `BirthdayDelta` count (so 1..366 by the lemmas below) exactly when that count exists, and the failure is `ValueError` |
| Records.BirthdayDeltaIsNextOccurrence | class_part.py:128-137 | the count is the distance from today to the first occurrence strictly after today |
| Records.BirthdayDelta | class_part.py:128-137 | the day count is at least 1 and every failure is `ValueError`; the lemmas below give its exact value, range and failure cases |
| Records.BirthdayDeltaRange | class_part.py:131-137 | the count is between 1 and 366, never 0 |
| Records.BirthdayDeltaToday | class_part.py:132-137 | a birthday on today's date is a full year away: 365 or 366 days |
| Records.BirthdayDeltaFailure | class_part.py:130-135 | before year 9999 the computation fails exactly for a Feb 29 birthday unless this year is leap and Feb 29 is still ahead; the failure is `ValueError` |
| Records.BirthdayDeltaLastYear | class_part.py:135 | in year 9999 a birthday already reached this year raises `ValueError` |
| Records.BirthdayDeltaNewYearsEve | class_part.py:130-137 | 1 January seen from 31 December is 1 day away |
| Records.BirthdayDeltaNewYearsDay | class_part.py:130-137 | 1 January seen from 1 January is 365 days away in 2023 and 366 in 2024 |
| Records.BirthdayDeltaLeapDay | class_part.py:130 | a Feb 29 birthday in a common year raises `ValueError` |
| Records.Record.ShowContactInfo | class_part.py:141-148 | the packaged name, birthday and email are the record's |
| Records.FirstWithValue | class_part.py:152-153 | the first position whose phone has the value, or none when no phone has it |
| Records.Record.RemovePhone | class_part.py:150-156 | the first phone with the value is removed and the rest keep their order; removal text when found, "not found" text otherwise |
| Records.WithoutFirstEffect | class_part.py:150-156 | no match: list unchanged; match: exactly one phone equal to the value is removed, at the first matching position, leaving every other phone in order |
| Records.WithoutFirst | class_part.py:150-156 | the list after `remove_phone` is one shorter exactly when some phone has the value, and holds only phones of the old list; `WithoutFirstEffect` pins down which phone goes |
| Dates.ReplaceYear | class_part.py:130 | `replace(year=y)` succeeds exactly when the same month and day exist in year `y`, else `ValueError` |
| Dates.Ordinal | class_part.py:131 | a date's ordinal lies after all days of the earlier years; with `OrdinalOrder`, `OrdinalAcrossYears` and `OrdinalNextYear` it gives date subtraction |
| Dates.YearLength | class_part.py:131 | the ordinal of 1 January of the next year is this year's plus the year's length |
| Dates.OrdinalOrder | class_part.py:131 | within one year the ordinal orders dates by month then day, and equal ordinals mean the same date |
| Dates.OrdinalAcrossYears | class_part.py:136 | any date of a later year has a larger ordinal |
| Dates.OrdinalNextYear | class_part.py:135-136 | moving a date one year ahead adds that year's length, counted with the February of the year crossed |
| Directory.AddEffect | class_part.py:182-183 | after storing, the name maps to the record, every other name keeps its entry, an existing entry is replaced in its place and a new one goes last |
| Directory.Lookup | class_part.py:197 | a found entry is in the book under that key; nothing is found exactly when no entry has the key |
| Directory.Add | class_part.py:183 | the stored contact is in the book, which grows by one exactly when the key was absent; `AddEffect` gives the full dictionary semantics |
| Directory.RemoveEffect | class_part.py:185-186 | after popping, the name is absent, other names keep their entries and the order of the rest; an absent name changes nothing |
| Directory.Remove | class_part.py:186 | only entries of the book remain, one fewer exactly when the key was present; `RemoveEffect` gives the full semantics |
| Directory.RemoveAfterAdd | class_part.py:182-186 | storing a new name and popping it gives back the book |
| Directory.ShowOne | class_part.py:188-189 | the record's text for a present name, `KeyError` exactly for an absent one |
| Directory.ShowOneAfterAddAndRemove | class_part.py:182-189 | a record just stored can be shown; a name just popped raises `KeyError` |
| Directory.ShowAll | class_part.py:191-194 | the newline-joined listing of one line per record in insertion order; empty exactly when the book is |
| Directory.ChangeInEffect | class_part.py:196-199 | only the named record's phones change, by `change`; an absent name changes nothing |
| Directory.ChangeIn | class_part.py:196-199 | the keys stay the same, position by position; `ChangeInEffect` says which entry changes and how |
| Directory.PhoneHitsMeaning | class_part.py:177-179 | a non-matching name gives one line per matching phone, each the record's line, and none exactly when no phone matches |
| Directory.SearchLinesMeaning | class_part.py:171-180 | every result line is the line of a matching record, and every matching record's line is in the result |
| Directory.SearchLinesEmpty | class_part.py:171-180 | no line is produced exactly when no record matches |
| Directory.SearchLines | class_part.py:171-180 | every collected line is the line of a matching record |
| Directory.SearchResult | class_part.py:171-180 | the returned string is empty exactly when no line was collected |
| Directory.SearchNothing | class_part.py:171-180 | the result is the empty string exactly when no record matches |
| Directory.SearchExamples | class_part.py:174-178 | the name comparison ignores case on both sides; the phone comparison lower-cases only the query |
| Directory.SearchRecord | class_part.py:173-179 | one record's contribution: its line once if the name matches, else once per matching phone |
| Directory.ShownCount | class_part.py:206-210 | the clamp the loop applies: `n` for `0 < n <= count`, `count` for larger `n`, 0 for `n <= 0` |
| Directory.IteratorBlock | class_part.py:201-212 | the block is the lines of the first `ShownCount(n, count)` records; a count at or past the end lists every record, a count of zero or less gives the empty string |
| Directory.AddressBook.constructor | class_part.py:159-160 | a new book is empty |
| Directory.AddressBook.AddRecord | class_part.py:182-183 | the map stores the record object itself under its name (so later in-place edits of it show in the book); the contents in order become those of the pure store; keys stay distinct and equal to the map's |
| Directory.AddressBook.RemoveRecord | class_part.py:185-186 | the map loses the name and keeps every other record object; the contents in order become those of the pure pop, with the same invariant kept |
| Directory.AddressBook.ShowOneRecord | class_part.py:188-189 | a lookup on the object agrees with `ShowOne` on its contents |
| Directory.AddressBook.ShowAllRecords | class_part.py:191-194 | the listing of the object's contents, empty exactly when it has no keys |
| Directory.AddressBook.ChangeRecord | class_part.py:196-199 | keys and map stay as they were; only the named record may change, as `ChangeIn` says |
| Directory.AddressBook.SearchInFile | class_part.py:171-180 | the accumulated string equals the search result over the records in insertion order |
| Directory.AddressBook.Iterator | class_part.py:201-212 | exactly one string is yielded: the lines of the first `min(n, count)` records in insertion order |
| Decorators.Reply | decorators.py:5-12 | the four caught kinds have a reply, any other kind has none |
| Decorators.ErrorHandler | decorators.py:1-13 | a value passes through unchanged; a caught kind becomes its reply; any other exception propagates unchanged |
| Decorators.RepliesDistinct | decorators.py:5-12 | different caught kinds get different replies |
| Decorators.HandledBirthdayFormat | decorators.py:7-8 | a refused birthday text is answered with the phone-digits reply; an accepted one returns the Birthday |
| Decorators.HandledEmailFormat | decorators.py:7-8 | a refused email is answered with the phone-digits reply; an accepted one returns the Email |
| Decorators.HandledShowOne | decorators.py:9-10 | showing a record is answered with "User is not in contact list" exactly when the name is absent |
| Decorators.HandledLeapBirthday | decorators.py:7-8 | before year 9999, the day count is answered with the phone-digits reply exactly when the `replace` of a Feb 29 birthday fails |

## Left out

- `open_file` and `write_file` (class_part.py:162-169) are not modelled. They are file I/O through `pickle`.
- The global `ADDRESSBOOK` instance (class_part.py:215) is not modelled. The model creates an explicit book object instead.
- `datetime.now()` is not modelled. `days_to_birthday` takes the current date as a parameter.
- Unicode `\w` and `\b`, Unicode `str.lower()` and Unicode digits accepted by `strptime` are not modelled. All character classes are ASCII.
- `strftime("%Y")` leaves years below 1000 unpadded on some C libraries. The model always pads to four digits.
- `strptime` details outside `%d-%m-%Y` are not modelled: surrounding whitespace rules and the locale.
- Field objects are modelled as values. Two records sharing one `Phone` or `Birthday` object, and an in-place setter seen through both, are not captured.
- The Records.Record field `name` is a constant. The source never reassigns it after construction.
- `Record.__str__` / `__repr__` (class_part.py:99-103) carry no logic and are not modelled. The output texts of the other operations are modelled as plain concatenation.
- Records.Record.ShowContactInfo: the contract does not state the packaged `phone` text, which is the phone values joined by `, `.
- Exception class hierarchy details are not modelled: subclasses of the caught kinds, exceptions raised inside the handler, and the `*args` forwarding. The decorator sees only the exception kind.
- Calls with arguments of the wrong Python type are not modelled (for example a non-integer `n` for `iterator`). Neither is the `TypeError` such a call would raise inside the core.
- Directory.AddressBook.Iterator: the generator is modelled as the sequence of values it yields. Its laziness is not modelled.
