# Contacts and notes: a verified model of the data layer

This project is a Dafny model of `models.py` from a command-line personal
assistant. That file holds the in-memory data model:

- validated string fields (`Field`, `Name`, `Address`, `Phone`, `Email`, `Birthday`);
- a contact `Record` with phone and email lists, an optional address and birthday, and birthday arithmetic;
- an `AddressBook` keyed by lower-cased name, with search, sorted listing and upcoming-birthday grouping;
- a `Note` with a tag set;
- a `NoteBook` keyed by stripped, lower-cased title, with text and tag search and two sort orders.

Modules, one file each:

| file | module | what it models |
|---|---|---|
| `wrappers.dfy` | `Wrappers` | `Option`, `Result`, `Outcome`, and the `Error` kinds standing for Python's `ValueError` and `KeyError` |
| `text.dfy` | `Text` | `str.strip()` (Python's full whitespace set), ASCII `str.lower()`, substring test, `str.join`, code-point order |
| `seqs.dfy` | `Seqs` | list and set operations: append-if-absent, first-match search, removal and replacement, subsequences, the union of images (`set.update`), `dict.values()` of an ordered dict |
| `sorting.dfy` | `Sorting` | `sorted(xs, key=...)` as a stable insertion sort on lexicographically ordered integer keys |
| `calendar.dfy` | `Calendar` | `datetime.date`: construction with range checks, comparison, `toordinal`, `weekday`, and the next-birthday / days-to-birthday rules |
| `fields.dfy` | `Fields` | the setters' validation: ten-digit phone, the email pattern, `strptime`/`strftime` with `%d.%m.%Y`; the `Field` class |
| `contacts.dfy` | `Contacts` | the `Record` class, its value snapshot `Contact`, rendering (`__str__`) and the per-record search test |
| `upcoming.dfy` | `Upcoming` | the result of `upcoming_birthdays` as a function of the contacts in dictionary order |
| `addressbook.dfy` | `AddressBooks` | the `AddressBook` class, with `upcoming_birthdays` written as its two loops |
| `notes.dfy` | `Notes` | the `Note` and `NoteBook` classes |

Design choices:

- **Ordered dictionaries.** Each ordered dictionary (`UserDict.data`) is a key sequence in insertion order plus a map. `search`, `search_text`, `search_tag` and `upcoming_birthdays` iterate in that order.
- **Exceptions.** An operation that raises returns `Err(e)` or `Fail(e)`:
  - `ValueError` becomes `InvalidPhone`, `InvalidEmail`, `InvalidBirthday` or `DateOutOfRange`;
  - `KeyError` becomes `AlreadyExists` or `NotFound`.

  A failed setter leaves the stored value unchanged, as Python's setter raises before it writes `_value`.
- **The clock.** `today` is always a parameter. A note's `created` timestamp is an integer.

Behaviour of the code worth noting:

- **No 29 February substitution.** Seen from a common year, a 29 February birthday makes `date(year, 2, 29)` raise `ValueError` (models.py:171, 175, 185, 189). Both birthday queries and `upcoming_birthdays` therefore fail with `DateOutOfRange`; they do not move the birthday to 1 March. `Calendar.LeapDayExample` shows this for a birthday of 29.02.2000 seen from 12 November 2025, and `Calendar.NextBirthdayDefined` states exactly when a next birthday exists.
- **Search order.** `search` returns matches in dictionary (insertion) order, not sorted by name.
- **Empty address.** An address that is set is always rendered by `__str__`, even when its text is empty, since an `Address` object is always true.

## Model

| member | source | states |
|---|---|---|
| Text.Trim | models.py:62 | `strip()` leaves no whitespace at either end |
| Text.TrimSpec | models.py:42 | the stripped string is a slice of the input with only whitespace around it |
| Text.TrimIdempotent | models.py:62 | stripping twice is stripping once |
| Text.Lower | models.py:210 | lower-casing keeps the length and maps each character by ASCII `lower` |
| Text.LowerIdempotent | models.py:239 | lower-casing an already lower-cased field changes nothing |
| Text.TrimLowerCommute | models.py:229 | `q.lower().strip()` equals `q.strip().lower()`, so search and lookup normalise alike |
| Text.Key | models.py:217 | the key `strip().lower()` equals `lower().strip()` |
| Text.KeyIdempotent | models.py:305 | a normalised key normalises to itself |
| Text.ContainsAt | models.py:239 | `q in h` holds exactly when q occurs at some index of h |
| Text.JoinStartsWithFirst | models.py:202 | the joined parts of `__str__` start with the first part |
| Text.JoinContainsPart | models.py:202 | every part occurs in the joined string |
| Text.OrdInjective | models.py:338 | strings with equal code points are equal, so title order is strict |
| Seqs.AppendNew | models.py:122-123 | add-if-absent: the value is present afterwards, the list is unchanged when it was present and grows by it at the end otherwise, and a duplicate-free list stays duplicate-free |
| Seqs.FirstIndex | models.py:127-128 | the index found holds the value, and no earlier index does |
| Seqs.FindFirst | models.py:127-131 | the enumerate loop stops at the first equal element, or at the end |
| Seqs.FirstIndexFound | models.py:125-131 | the scan stops inside the list exactly when the value occurs in it |
| Seqs.RemoveFirst | models.py:126-130 | `remove_phone`/`remove_email` on the list: delete the first element equal to the value; its contract is stated by `Seqs.RemoveFirstCount`, `Seqs.RemoveFirstIsSubseq` and `Seqs.RemoveFirstMembers` |
| Seqs.RemoveFirstCount | models.py:129 | `pop` at the first match removes one copy of the value, and nothing when it is absent |
| Seqs.RemoveFirstIsSubseq | models.py:129 | removal keeps the order of the rest |
| Seqs.RemoveFirstKeepsNoDup | models.py:225 | removing a key from a duplicate-free key list keeps it duplicate-free and drops the key |
| Seqs.RemoveFirstMembers | models.py:225 | after `pop(key)` exactly the other keys remain |
| Seqs.ReplaceFirst | models.py:135-138 | the list update of `edit_phone`: replace the first element equal to the old value; its contract is stated by `Seqs.ReplaceFirstSpec` |
| Seqs.ReplaceFirstSpec | models.py:135-138 | editing changes only the first matching position, to the new value |
| Seqs.UnionOfSnoc | models.py:289 | `set.update` with one more generated element adds that element's contribution |
| Seqs.UnionOfSource | models.py:289 | every element added comes from some element of the generator |
| Seqs.UnionOfPart | models.py:289 | every generated element's contribution is added |
| Seqs.InOrder | models.py:231 | `data.values()` lists the value of each key in key order |
| Sorting.SortBy | models.py:245 | `sorted` returns a permutation of its input |
| Sorting.SortBySorted | models.py:245 | `sorted` output is ordered by the key |
| Sorting.SortByStable | models.py:337 | elements with equal keys keep their relative order |
| Sorting.SortByStrict | models.py:245 | when no two inputs share a key, no two outputs do |
| Sorting.InsertSorted | models.py:245 | inserting into a sorted list keeps it sorted |
| Calendar.MakeDate | models.py:171 | `date(y, m, d)` succeeds exactly for an existing date, and otherwise raises `ValueError` |
| Calendar.Weekday | models.py:263 | the weekday is an index 0 (Monday) to 6 |
| Calendar.WeekdayAnchor | models.py:263 | 1 January of year 1 is a Monday (index 0), as for Python's `date` |
| Calendar.OrdinalStrictMono | models.py:174 | a strictly later date has a larger ordinal |
| Calendar.DateLeIffOrdinalLe | models.py:174 | comparing dates and comparing their ordinals agree |
| Calendar.OrdinalInjective | models.py:177 | two dates with the same ordinal are equal |
| Calendar.NextBirthday | models.py:179-190 | `get_next_birthday` on a birth date: this year's anniversary if not yet past, else next year's, or `date()`'s `ValueError`; its contract is stated by `Calendar.NextBirthdayIsNext` and `Calendar.NextBirthdayDefined` |
| Calendar.NextBirthdayIsNext | models.py:179-190 | the next birthday is an existing date in today's or the next year, has the birth month and day, is not before today, and is the earliest such date |
| Calendar.NextBirthdayDefined | models.py:185-189 | a next birthday exists exactly when: for 29 February, today is in a leap year on or before 29 February; otherwise, today is before year 9999 or on or before this year's anniversary |
| Calendar.DaysToBirthday | models.py:165-177 | `days_to_birthday` on a birth date: days from today to the next anniversary; its contract is stated by `Calendar.DaysToBirthdayIsDistance` |
| Calendar.DaysToBirthdayIsDistance | models.py:165-177 | `days_to_birthday` fails exactly when `get_next_birthday` does, and otherwise is the non-negative day distance to it |
| Calendar.NovemberExamples | models.py:165-190 | a 15 November birthday is 5 days away on 10 November, and falls in the next year when seen from 20 November |
| Calendar.LeapDayExample | models.py:171-175 | a 29.02.2000 birthday seen from 12 November 2025 raises, with no shift to 1 March |
| Fields.EmailSplitUnique | config.py:12 | a match of the email pattern can split only at the last `@` and the last `.` |
| Fields.IsEmailMatchesPattern | config.py:12 | the executable email check accepts exactly the strings the pattern matches in full |
| Fields.ParseBirthday | models.py:94 | `datetime.strptime(value, "%d.%m.%Y")`; its contract is stated by `Fields.ParseBirthdayMeaning` and `Fields.ParseFormat` |
| Fields.ParseBirthdayMeaning | models.py:94 | `strptime` accepts exactly the strings that spell an existing date as day.month.year and returns that date; it fails otherwise with `ValueError` |
| Fields.ParseIsSpelling | models.py:94 | a successful parse comes from a spelling of the parsed date |
| Fields.Pad2 | models.py:97 | zero-padded two digits denoting the number |
| Fields.Pad4 | models.py:97 | zero-padded four digits denoting the number |
| Fields.FormatBirthday | models.py:97 | `strftime("%d.%m.%Y")` is ten characters long |
| Fields.ParseFormat | models.py:97-101 | formatting then parsing gives the date back, and the formatted text has no surrounding whitespace |
| Fields.PhoneValue | models.py:60-65 | the `Phone` setter; its contract is stated by `Fields.PhoneValueSpec` |
| Fields.PhoneValueSpec | models.py:60-65 | a phone assignment succeeds exactly when the stripped input is ten digits and stores it; otherwise it raises; ten digits are stored unchanged |
| Fields.EmailValue | models.py:73-78 | the `Email` setter; its contract is stated by `Fields.EmailValueSpec` |
| Fields.EmailValueSpec | models.py:73-78 | an email assignment succeeds exactly when the stripped input matches the pattern and stores it; otherwise it raises; a match is stored unchanged |
| Fields.BirthdayValue | models.py:90-97 | the `Birthday` setter; its contract is stated by `Fields.BirthdayValueSpec` |
| Fields.BirthdayValueSpec | models.py:90-97 | a birthday assignment stores the zero-padded form of the date the stripped input spells, and raises exactly when parsing fails |
| Fields.Validate | models.py:39-97 | the `value` setter of each field kind (`Name` and `Address` strip only); its contract is stated by `Fields.ValidateIdempotent` and the three setter lemmas above |
| Fields.ValidateIdempotent | models.py:39-97 | assigning a stored value again stores the same value |
| Fields.CanonicalBirthdayParses | models.py:99-101 | a stored birthday parses back to the date it displays |
| Fields.BirthdayExamplePadded | models.py:92-97 | `" 1.3.1990 "` is stored as the zero-padded 1 March 1990 |
| Fields.FormatExample | models.py:97 | 1 March 1990 is displayed as `01.03.1990` |
| Fields.StripPaddedExample | models.py:92 | surrounding spaces are stripped |
| Fields.ParseShortExample | models.py:94 | unpadded day and month parse |
| Fields.BirthdayExampleLeap | models.py:94-97 | 29.02.2000 is accepted and stored as is |
| Fields.BirthdayExampleNotLeap | models.py:94-96 | 29.02.2001 raises |
| Fields.ParseNotLeapExample | models.py:94 | `29.02.2001` does not parse, as 2001 is a common year |
| Fields.BirthdayExampleIso | models.py:94-96 | an ISO date string raises |
| Fields.Field.Empty | models.py:30-37 | a field without a value reads as `""` |
| Fields.Field.Set | models.py:39-43 | an accepted assignment stores the validated value, keeping the field's invariant; a rejected one raises and keeps the old value |
| Fields.Field.Create | models.py:29-31 | constructing a field yields a new field with the validated value, or the setter's error |
| Fields.Field.AsDate | models.py:99-101 | a valid birthday field always converts to the date it displays |
| Contacts.NextBirthdayOf | models.py:179-190 | `None` exactly without a birthday; a date returned exists |
| Contacts.BirthdayOfSpec | models.py:165-190 | with a birthday: the stored text is the display form of the birth date; the next birthday is the earliest existing date on or after today with its month and day, in today's or the next year; failure is `date()`'s `ValueError` |
| Contacts.DaysToBirthdayOf | models.py:165-177 | `Record.days_to_birthday`; its contract is stated by `Contacts.DaysToBirthdayOfIsDistance` and `Contacts.BirthdayOfSpec` |
| Contacts.DaysToBirthdayOfIsDistance | models.py:165-177 | the two birthday queries fail together and are `None` together; the day count is the non-negative distance to the next birthday |
| Contacts.Render | models.py:192-202 | `Record.__str__`; its contract is stated by `Contacts.RenderShowsFields` |
| Contacts.RenderShowsFields | models.py:192-202 | the text starts with `Name: `, and shows the joined phones, the joined emails, the address and the birthday whenever each is present |
| Contacts.RenderNameOnly | models.py:192-202 | a record with only a name renders as its name line |
| Contacts.RenderPhonesExample | models.py:195 | phones are joined with a comma and a space, after the name part and the part separator |
| Contacts.RenderPartsExample | models.py:193-202 | present parts are joined with the part separator in the order name, emails, address |
| Contacts.LowerAll | models.py:235-236 | each field is lower-cased, in place in the list |
| Contacts.AnyHitConcat | models.py:232-239 | a hit in concatenated field lists is a hit in either list |
| Contacts.AnyHitMembers | models.py:239 | `any(...)` holds exactly when some field is non-empty and contains the query |
| Contacts.HitsLower | models.py:239 | lower-casing a field before the test changes nothing |
| Contacts.AnyHitLowerAll | models.py:233-239 | lower-casing all fields before the test changes nothing |
| Contacts.MatchesFields | models.py:231-239 | a record matches exactly when the query occurs, ignoring case, in its name, a phone, an email, its address or its birthday, and an empty field never matches |
| Contacts.Record.constructor | models.py:112-117 | a new record has its name and nothing else |
| Contacts.Record.AddPhone | models.py:120-123 | the phone is appended unless present; other fields unchanged |
| Contacts.Record.RemovePhone | models.py:125-131 | the first equal phone is removed; the result says whether there was one; other fields unchanged |
| Contacts.Record.EditPhone | models.py:133-139 | `KeyError` and no change without a match; `ValueError` and no change for an invalid number; otherwise the first match takes the new value |
| Contacts.Record.AddEmail | models.py:142-145 | the email is appended unless present; other fields unchanged |
| Contacts.Record.RemoveEmail | models.py:147-153 | the first equal email is removed; the result says whether there was one; other fields unchanged |
| Contacts.Record.SetAddress | models.py:156-158 | the address is replaced; other fields unchanged |
| Contacts.Record.SetBirthday | models.py:161-163 | the birthday is replaced; other fields unchanged |
| Contacts.Record.NextBirthday | models.py:179-190 | `None` exactly without a birthday; otherwise an existing date not before today, or `DateOutOfRange` |
| Contacts.Record.DaysToBirthday | models.py:165-177 | `None` exactly without a birthday; otherwise the non-negative day distance to the next birthday; fails exactly when the next birthday does |
| Contacts.Record.ToString | models.py:192-202 | the text starts with `Name: ` and the name |
| Upcoming.HitOfSpec | models.py:257-264 | a contact is listed at distance d exactly when its next birthday exists d days away with d at most `days`, with its name, stored birthday and that date's weekday; it fails exactly when its next birthday fails |
| Upcoming.HitInRange | models.py:259-260 | every listed distance lies in 0..`days` |
| Upcoming.CollectError | models.py:257-262 | the loop fails exactly when some pass fails, with the first failure's error |
| Upcoming.CollectErrorSticks | models.py:257-262 | a failure stops the loop |
| Upcoming.CollectStep | models.py:257-264 | one more pass fails, skips, or records its hit |
| Upcoming.CollectSound | models.py:257-264 | every recorded hit is some pass's hit |
| Upcoming.CollectComplete | models.py:257-264 | every pass's hit is recorded |
| Upcoming.ScanError | models.py:257-264 | the loop over contacts fails exactly when some contact fails, with the first failing contact's error |
| Upcoming.ScanHits | models.py:257-264 | the hits are exactly the contacts' hits |
| Upcoming.RecordStep | models.py:264 | `setdefault(d, []).append(e)` adds d to the keys if new and e at the end of d's bucket |
| Upcoming.BucketOutside | models.py:264 | a distance never seen has no entries |
| Upcoming.OffsetsSpec | models.py:264 | the bucket keys are the distances that occur, each once |
| Upcoming.BucketSpec | models.py:264 | a bucket holds exactly the entries at its distance, with multiplicity |
| Upcoming.SortedBucketSpec | models.py:267-268 | a sorted bucket is sorted by lower-cased name, is a permutation of the bucket, and keeps contact order among equal names |
| Upcoming.ArrangedGroup | models.py:270 | every group is the sorted bucket of a distance that occurs |
| Upcoming.ArrangedHasGroup | models.py:270 | every distance that occurs has its group |
| Upcoming.ArrangedListed | models.py:264-270 | an entry is listed under d exactly when (d, entry) was recorded |
| Upcoming.UpcomingOf | models.py:247-270 | the result of `upcoming_birthdays`; its contract is stated by `Upcoming.UpcomingAscending`, `Upcoming.UpcomingGroups`, `Upcoming.UpcomingListed`, `Upcoming.UpcomingOnce` and `Upcoming.UpcomingError` |
| Upcoming.UpcomingAscending | models.py:270 | the groups come in strictly ascending order of distance |
| Upcoming.UpcomingGroups | models.py:259-270 | each group's distance lies in 0..`days`; its entries are non-empty, sorted by lower-cased name, a permutation of the hits at that distance, and in contact order among equal names |
| Upcoming.UpcomingListed | models.py:247-270 | an entry is listed under d exactly when some contact's hit is (d, entry) |
| Upcoming.ScanInRange | models.py:259-260 | every recorded distance lies in 0..`days` |
| Upcoming.UpcomingError | models.py:258-262 | the call fails exactly when some contact's next birthday fails, with the error of one such contact |
| Upcoming.CollectDistinct | models.py:257-264 | when hits of different passes carry different labels, the hits collected carry pairwise different labels |
| Upcoming.HitName | models.py:264 | a contact's entry carries the contact's name |
| Upcoming.ScanNamesDistinct | models.py:257-264 | one pass per contact: when the contacts' names differ, the recorded entries' names differ |
| Upcoming.ListedHit | models.py:264-270 | every listed entry is a recorded hit at its group's distance |
| Upcoming.UpcomingOnce | models.py:257-270 | when the contacts' names differ, each name is listed at one position of one group only |
| AddressBooks.ContactsOf | models.py:231 | one snapshot per record, in order |
| AddressBooks.Matching | models.py:230-241 | the matching records, in order: every result matches, and every matching record is in the result |
| AddressBooks.AddressBook.constructor | models.py:205 | an empty book |
| AddressBooks.AddressBook.Records | models.py:231 | `data.values()` in insertion order |
| AddressBooks.AddressBook.AddRecord | models.py:208-213 | `KeyError` and no change for a taken lower-cased name; otherwise the record is stored under it, last in order, and `get_record` of its name finds it |
| AddressBooks.AddressBook.GetRecord | models.py:215-220 | `get_record`; its contract is stated by `AddressBooks.AddressBook.GetRecordSpec` |
| AddressBooks.AddressBook.GetRecordSpec | models.py:215-220 | lookup ignores case and surrounding whitespace, and succeeds exactly when a record has that key |
| AddressBooks.AddressBook.RemoveRecord | models.py:222-225 | the key is removed, the result says whether it was there, the other keys keep their order, and a later lookup fails |
| AddressBooks.AddressBook.Search | models.py:227-241 | the records, in book order, of which some non-empty field contains the stripped, lower-cased query ignoring case; no others |
| AddressBooks.AddressBook.All | models.py:243-245 | a permutation of the records sorted by lower-cased name, with no two names equal |
| AddressBooks.AddressBook.UpcomingBirthdays | models.py:247-270 | the method computes `Upcoming.UpcomingOf` of the records in book order, and lists each record at most once |
| AddressBooks.AddressBook.NamesDiffer | models.py:208-213 | different records of a book have different names, since their lower-cased names are the distinct keys |
| AddressBooks.CollectBuckets | models.py:254-264 | the first loop yields the distances in first-seen order and each distance's entries in contact order, or the first error |
| AddressBooks.Visit | models.py:258-264 | one pass records the record's hit, skips it, or fails with its error, keeping the buckets in step with the hits |
| AddressBooks.RecordHit | models.py:258-264 | the pass's tests on `days_to_birthday` and `get_next_birthday` compute the contact's hit |
| AddressBooks.PushKeeps | models.py:264 | `setdefault(...).append(...)` keeps the key order and buckets equal to those of the hits seen |
| AddressBooks.SortBuckets | models.py:267-270 | the second loop and `sorted` produce the sorted buckets in key order |
| AddressBooks.UpcomingOfRecords | models.py:247-270 | the loops compute `Upcoming.UpcomingOf` of the records' snapshots |
| Notes.NormalTags | models.py:287-289 | the tags `add_tags` adds; its contract is stated by `Notes.NormalTagsMembers` and `Notes.NormalTagsAreNormal` |
| Notes.NormalTagsMembers | models.py:289 | a tag is added exactly when some non-blank given tag normalises to it |
| Notes.NormalTagsAreNormal | models.py:289 | every added tag is non-empty and already normalised |
| Notes.NormalTagsSnoc | models.py:289 | one more tag adds its normal form when it is not blank |
| Notes.RemoveAfterAdd | models.py:287-296 | removing a tag just added, in any spelling with the same key, restores the other tags |
| Notes.Note.constructor | models.py:278-285 | a note holds the given title, text, tags and timestamp |
| Notes.Note.AddTags | models.py:287-289 | the tags gain the stripped, lower-cased form of each non-blank tag |
| Notes.Note.RemoveTag | models.py:291-297 | the normalised tag is removed, and the result says whether it was there |
| Notes.TextMatching | models.py:325-327 | the notes whose text or title contains the query, in order, and no others |
| Notes.TagMatching | models.py:332 | the notes carrying the tag, in order, and no others |
| Notes.NoteBook.constructor | models.py:300 | an empty notebook |
| Notes.NoteBook.Notes | models.py:326 | `data.values()` in insertion order |
| Notes.NoteBook.Add | models.py:303-308 | `KeyError` and no change for a taken key; otherwise the note is stored under its stripped, lower-cased title, last in order, and `get_note` finds it |
| Notes.NoteBook.GetNote | models.py:310-315 | `get_note`; its contract is stated by `Notes.NoteBook.GetNoteSpec` |
| Notes.NoteBook.GetNoteSpec | models.py:310-315 | lookup ignores case and surrounding whitespace, and succeeds exactly when a note has that key |
| Notes.NoteBook.Remove | models.py:317-320 | the key is removed, the result says whether it was there, the other keys keep their order, and a later lookup fails |
| Notes.NoteBook.SearchText | models.py:322-327 | the notes, in order, whose text or title contains the stripped, lower-cased query ignoring case; no others |
| Notes.NoteBook.SearchTag | models.py:329-332 | the notes, in order, that carry the stripped, lower-cased tag; no others |
| Notes.NoteBook.TitlesDiffer | models.py:305 | no two notes have the same lower-cased title |
| Notes.NoteBook.All | models.py:334-338 | a permutation of the notes: by `created`, sorted and stable; otherwise sorted by lower-cased title with no ties |

## Left out

- `storage.py` (pickle persistence and file I/O) is not part of this model.
- `config.py` is not modelled as a file; its constants are inlined: ten phone digits, the email pattern, `%d.%m.%Y`.
- The clock: `date.today()` and `datetime.now` are replaced by a `today` parameter and an integer `created`.
- `UPCOMING_DAYS_DEFAULT` in `config.py` is not used by `models.py` (which takes `days` without a default) and is not modelled.
- The default `sort_by="title"` of `NoteBook.all` is not modelled; the caller passes it.
- `Note`'s default empty `tags` set is not modelled; the constructor always takes one. Aliasing is not modelled either: the model's tags are a value, whereas a set passed to `Note` stays shared with the caller, so `add_tags` and `remove_tag` change the caller's set too.
- Weekday names are those of the C/English locale; other locales are not modelled.
- Unicode: `lower()` is ASCII-only, and `\d` and `strptime` accept ASCII digits only.
- `strptime` quirks beyond one- or two-digit day and month and four-digit year are not modelled. Examples are space-padded `%d` and whitespace inside the format.
- The platform-dependent `%Y` output for years below 1000 is not modelled; the year is always padded to four digits.
- `Record` stores field values, not `Field` objects. Aliasing is not modelled, for example editing a `Phone` object that two records share.
- Direct `UserDict` item access, and mutating a record's name or a note's title after insertion, are not modelled. Names and titles are immutable.
- `Field`'s `str(new_value)` coercion of non-string input is not modelled; inputs are strings.
- Contacts.Record.NextBirthday: its contract does not restate the month and day of the result, nor that it is the earliest such date on or after `today`; `Contacts.BirthdayOfSpec` proves both for the record's value.
- Contacts.Record.ToString: its contract states only the leading name part; `Contacts.RenderShowsFields` proves which fields it shows.
- Fields.FormatBirthday: its contract states only the length; `Fields.ParseFormat` proves what the text means.
