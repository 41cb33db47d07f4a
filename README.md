# Contact book bot, modelled in Dafny

This project models the core of a command-line contact book. It has two
parts.

The contact classes (`classes.py`):

- `Phone`, which accepts ten numeric characters.
- `Birthday`, which parses `DD.MM.YYYY`.
- `Record`, which holds a name, an ordered phone list and an optional
  birthday. Its methods update these in place.
- `AddressBook`, a name-to-record dictionary with the upcoming-birthday
  query.

The command handlers of the bot (`bot-cli.py`):

- `input_error`, which turns exceptions into replies.
- `parse_input`.
- The handlers `add_contact`, `change_contact`, `phone_user`,
  `add_birthday` and `show_birthday`.

The modules follow the program's structure:

- `Common`: errors, results and outcomes. A Python exception is a
  `Failure`/`Raised` value naming `ValueError`, `IndexError` or `KeyError`.
- `Dates`: `datetime.date` as a (year, month, day) value. It has day numbers
  as `toordinal`, weekdays as `weekday`, and the `DD.MM.YYYY` text form.
- `Fields`: phone validation, and the updates a record makes to its phone
  list and birthday, written as pure functions of the old value. The
  `Record` methods are proved to behave as these functions say.
- `Upcoming`: `get_upcoming_birthdays` as a function of the contacts in
  book order and of the day the query runs. `Upcoming.Collect` is the loop
  that builds the list.
- `Contacts`: the classes `Record` and `AddressBook`. Their fields are
  updated in place. Dictionary insertion order is kept in a separate `order`
  sequence beside the `data` map.
- `Bot`: the reply strings, whitespace splitting, `parse_input`, and the
  handlers acting on an `AddressBook`.

The classes and handlers keep the program's behaviour as written, quirks
included:

- `edit_phone` raises at the first stored phone that differs from the old
  number.
- The duplicate-birthday check never fires.
- `delete` raises `ValueError`.
- `add_contact` keeps a newly created record even when its phone is
  rejected.
- A 29 February birthday queried in a common year makes the whole query
  raise `ValueError`.

Some documented descriptions of this program give these cases different
behaviour: a duplicate-birthday error on resubmission, and a fallback date
for 29 February. The model follows the code. The corrected definitions under
"Findings" stand beside the as-written ones.

## Model

| member | source | states |
|---|---|---|
| Fields.NewPhone | classes.py:19-23 | `Phone(v)` succeeds iff `v` has ten characters, all digits, and then keeps `v`; otherwise `ValueError` |
| Dates.ParseFormat | classes.py:113-114 | a date printed as `DD.MM.YYYY` is ten characters and parses back to the same date |
| Dates.FormatParse | classes.py:29 | a string that parses is exactly the printed form of the date it parses to |
| Dates.ParseLength | classes.py:29 | only ten-character strings parse, and they parse to real calendar dates |
| Dates.OrdinalIncreasing | classes.py:99 | Python's `<` on dates agrees with the order of their day numbers |
| Dates.AddDays | classes.py:108 | adding `n` days gives a valid date exactly `n` day numbers later, when it stays within `date.max` |
| Dates.MondayAfter | classes.py:107-108 | a date `7 - weekday` days after another is a Monday |
| Fields.AddPhoneSpec | classes.py:43-47 | `add_phone` succeeds iff the number is valid and not stored, then appends exactly it; otherwise `ValueError`; the list stays valid and duplicate-free |
| Fields.EditPhoneSpec | classes.py:49-55 | `edit_phone` completes iff the new number is valid and every stored phone is the old number; each entry is either kept or an old number turned into the new one; an invalid new number changes nothing |
| Fields.EditPhoneKeepsPhones | classes.py:49-55 | whatever happens, only valid numbers remain stored |
| Fields.EditPhoneOnDistinct | classes.py:49-55 | on a duplicate-free list, `edit_phone` completes only when there is no phone or the old number is the only phone |
| Fields.EditPhoneStopsAtFirstMismatch | classes.py:51-55 | editing the second of two phones raises and changes nothing |
| Fields.EditPhoneCanDuplicate | classes.py:51-55 | turning the first of two phones into the second rewrites it, then raises, leaving a duplicate |
| Fields.EditPhoneCorrectedSpec | classes.py:49-55 | the intended edit succeeds iff the old number is stored and the new one is valid and not already stored; the list stays valid and duplicate-free, holds the new number and not the old one, and keeps every other number |
| Fields.RemovePhoneSpec | classes.py:57-58 | `remove_phone` drops every copy of the number, keeps the count of every other number, and keeps the list valid and duplicate-free |
| Fields.RemovePhoneKeepsOrder | classes.py:58 | removing a number from a list is removing it from each half in turn, so the kept phones stay in their order |
| Fields.JoinLayout | classes.py:40-41 | the joined phones sit at offsets 0, 12, 24, ..., separated by `"; "` |
| Fields.AddBirthdaySpec | classes.py:66-70 | `add_birthday` succeeds iff the text parses (else `ValueError`), and stores the valid date the text spells |
| Fields.BirthdayResubmissionAccepted | classes.py:68-69 | resubmitting the stored birthday is accepted |
| Fields.AddBirthdayCorrectedSpec | classes.py:66-70 | the intended check rejects exactly the resubmission of the stored date and otherwise agrees with the program |
| Contacts.Record.constructor | classes.py:35-38 | a new record has its name, no phones and no birthday |
| Contacts.Record.AddPhone | classes.py:43-47 | the outcome and new phone list are those of `Fields.AddPhone`; the record stays valid and a duplicate-free list stays so |
| Contacts.Record.EditPhone | classes.py:49-55 | the loop leaves the outcome and phone list of `Fields.EditPhone`, including the rewrites made before a mismatch |
| Contacts.Record.RemovePhone | classes.py:57-58 | the new list is the old one without the number; validity and distinctness are kept |
| Contacts.Record.FindPhone | classes.py:60-64 | returns the number iff some stored phone equals it, else `None`; changes nothing |
| Contacts.Record.AddBirthday | classes.py:66-70 | the outcome is that of `Fields.AddBirthday`; the birthday becomes the parsed date, or is unchanged when parsing fails |
| Contacts.AddressBook.constructor | classes.py:75-76 | a new book is empty |
| Contacts.AddressBook.AddRecord | classes.py:78-79 | the record is stored under its name, overwriting in place; a new name goes last in the order; other entries are unchanged |
| Contacts.AddressBook.Find | classes.py:81-82 | returns the record stored under the name, or `None` iff there is none |
| Contacts.AddressBook.Delete | classes.py:84-88 | a stored name is removed from the map and the order, with every other entry kept; an absent name raises `ValueError` and changes nothing |
| Contacts.AddressBook.People | classes.py:94 | the contacts in insertion order, each with its name and birthday |
| Contacts.AddressBook.GetUpcomingBirthdays | classes.py:90-117 | the result is the rendered `Upcoming.UpcomingBirthdays` of the contacts in insertion order |
| Upcoming.NextOccurrence | classes.py:96-102 | the birthday's month and day in today's year, or the next year when that is before today; never before today; `ValueError` exactly when the `replace` that is reached cannot build its date, which can only happen for 29 February or in year 9999, and always happens for 29 February in a common year |
| Upcoming.NextOccurrenceNotBefore | classes.py:97-102 | the occurrence's day number is at least today's |
| Upcoming.WeekendBeforeLast | classes.py:107-108 | moving a weekend date to Monday never passes `date.max` |
| Upcoming.CongratulationSpec | classes.py:105-108 | the congratulation day is Monday to Friday and 0 to 2 days after the occurrence; it is the occurrence on a weekday and a Monday on a weekend |
| Upcoming.GreetingForOwn | classes.py:95-116 | one contact's turn of the loop yields at most one entry, its own |
| Upcoming.GreetingForDue | classes.py:95-116 | an entry a turn yields has an occurrence 0 to 7 days away and that occurrence's congratulation day |
| Upcoming.DueOnWeekday | classes.py:104-108 | a reported congratulation day is Monday to Friday, 0 to 9 days after today |
| Upcoming.GatherFailure | classes.py:94-102 | when the loop raises, it raises the exception of one contact's turn |
| Upcoming.GatherFailsAt | classes.py:94-102 | a turn that raises makes the whole loop raise |
| Upcoming.GatherReports | classes.py:94-116 | an entry a turn yields is in the list, unless the loop raised |
| Upcoming.OriginIncreasing | classes.py:94-116 | with at most one entry per turn, later entries come from later turns |
| Upcoming.UpcomingBirthdays | classes.py:90-117 | the list has no more entries than there are contacts, all with valid dates |
| Upcoming.UpcomingDue | classes.py:94-116 | every reported entry is due: its occurrence is 0 to 7 days away and it carries that occurrence's congratulation day |
| Upcoming.UpcomingListed | classes.py:94-112 | every reported entry is the name and birthday of a listed contact |
| Upcoming.UpcomingComplete | classes.py:94-116 | every contact whose occurrence is 0 to 7 days away is reported, with its congratulation day, unless the query raised |
| Upcoming.UpcomingFails | classes.py:94-102 | the query raises exactly when some contact's birthday cannot be moved into its occurrence year, and then with `ValueError` |
| Upcoming.UpcomingInOrder | classes.py:94-116 | entries are reported in the order of their contacts |
| Upcoming.Collect | classes.py:92-117 | the loop returns the rendered query result, or the first turn's exception |
| Upcoming.RenderRoundTrip | classes.py:110-116 | the printed birthday and congratulation day parse back to the entry's dates |
| Upcoming.WeekOfTenthJune2024 | classes.py:94-116 | on Monday 10 June 2024, 12 June is congratulated that day, Saturday 15 June on Monday 17 June, and 1 January not at all |
| Bot.Message | bot-cli.py:19-30 | the reply is "Invalid command format." exactly for `ValueError` and `IndexError`, and "That user is not found" exactly for `KeyError` |
| Bot.WordsSpec | bot-cli.py:36 | splitting keeps every non-separator character, in order, and yields only non-empty words without separators |
| Bot.SplitUnwords | bot-cli.py:36 | splitting words joined by single spaces gives the words back |
| Bot.SplitBlank | bot-cli.py:36 | a line splits into no words exactly when it is blank |
| Bot.ParseInputSpec | bot-cli.py:33-38 | a blank line gives "Invalid command format."; otherwise the command is the lower-cased form of a word `w` and has no upper-case letters, the arguments are words, and `w` followed by the arguments, unchanged, is exactly the line's non-separator characters |
| Bot.ParseUnwords | bot-cli.py:35-38 | words typed with single spaces between them come back as the lower-cased first word and the remaining words exactly as typed |
| Bot.FindOrCreate | bot-cli.py:45-50 | the record under the name, or a new empty record stored last; nothing else in the book changes |
| Bot.OfferPhone | bot-cli.py:51-52 | an empty phone is skipped; otherwise the stored record's phones change as `add_phone` says and no other contact changes |
| Bot.AddContact | bot-cli.py:41-53 | fewer than two arguments give "Invalid command format." with nothing changed; otherwise the contact is found or created, the phone is offered, a created record stays even if the phone is rejected, and the reply is "Contact added.", "Contact updated." or "Invalid command format." |
| Bot.ChangeContact | bot-cli.py:65-73 | too few arguments or an absent name change nothing and give the matching reply; otherwise the record's phones become those of `edit_phone`, rewrites before a mismatch included, and the reply is the record's text or "Invalid command format." |
| Bot.PhoneUser | bot-cli.py:76-84 | no argument gives "Invalid command format."; "That user is not found" exactly for an absent name; otherwise the record's text |
| Bot.AddBirthday | bot-cli.py:87-95 | too few arguments and an absent name change nothing and give their replies; otherwise the birthday is stored and "Birthday added." returned, or nothing changes and "Invalid command format." is returned |
| Bot.ShowBirthday | bot-cli.py:98-107 | gives the reply for a missing argument, an absent name or an unset birthday; the reply parses as a date exactly when a birthday is stored, and then as that birthday |

## Left out

- `main` and its dispatch on the command word, `input` and `print` (bot-cli.py:119-158): interactive input and output.
- `save_data` and `load_data` (bot-cli.py:6-15): pickle persistence to a file.
- `show_all` and `birthdays` (bot-cli.py:57-62, 112-116): they print values the model already computes.
- `datetime.today()` (classes.py:91): the day the query runs is the parameter `today`.
- Dates.Parse: accepts only the zero-padded `DD.MM.YYYY` form with ASCII digits. `strptime` also accepts a one-digit day or month and a space-padded day.
- Dates.Format: always pads the year to four digits. How `strftime("%Y")` pads years below 1000 depends on the platform.
- Fields.NewPhone: `str.isnumeric` is modelled for the ASCII digits only.
- Bot.ParseInputSpec: `str.lower` is modelled for the ASCII letters only.
- Bot.ChangeContact: returns the record's printed text, not the `Record` object; `main` prints that text.
- Bot.PhoneUser: returns the record's printed text, not the `Record` object; `main` prints that text.
- The `Name`, `Phone` and `Birthday` field objects are their values. No phone object is shared between records, so the in-place `phone.value` rewrite becomes an update of one element of the phone list.
- The messages carried by exceptions are not modelled, only their kinds.
- `AddressBook` as a `UserDict`: only `data` and the insertion order of its keys are modelled.

## Findings

| source | as written | input that shows it | evidently intended | confidence | as-written member | corrected member |
|---|---|---|---|---|---|---|
| classes.py:51-55 | the loop raises at the first stored phone that is not the old number | phones 1111111111 and 2222222222; changing 2222222222 into 3333333333 raises and changes nothing | rewrite the old number wherever it is stored; raise only when it is not stored | not executed | Fields.EditPhoneStopsAtFirstMismatch | Fields.EditPhoneCorrectedSpec |
| classes.py:51-55 | the rewrites made before the raise are kept | phones 1111111111 and 2222222222; changing 1111111111 into 2222222222 leaves 2222222222 twice | reject a new number that is already stored, keeping the list duplicate-free | not executed | Fields.EditPhoneCanDuplicate | Fields.EditPhoneCorrectedSpec |
| classes.py:68 | the parsed `date` is compared with the stored `Birthday` object or `None`, so the check is never true | adding "01.01.2000" twice to the same record succeeds both times | reject resubmission of the stored date | not executed | Fields.BirthdayResubmissionAccepted | Fields.AddBirthdayCorrectedSpec |
