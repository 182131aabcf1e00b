# Contact directory backend, modelled in Dafny

A model of the contact-management service in `src/app.py`: a Flask
application over two SQLite tables, `contact` and `phone` (one contact owns
many phones, deleted with it by cascade). The model covers

- the five CRUD handlers (`get_contacts`, `get_contact`, `add_contact`,
  `update_contact`, `delete_contact`) as methods of a class
  `Directory.ContactStore` whose fields are the two tables: a map from
  contact id to row, and the phone rows in insertion order;
- the groups view (`get_groups`): the distinct non-empty `group` values;
- the upcoming-birthdays view (`get_upcoming_birthdays`), a pure function
  of the stored contacts and the value of `datetime.now()`. It rests on a
  small Gregorian calendar (leap years, month lengths, `toordinal`) and a
  model of `strptime(s, '%Y-%m-%d')`.

The handlers that can fail (`get_contact`, `add_contact`,
`update_contact`, `delete_contact`) return a `Reply` in place of their JSON
body and status: `Created(id)` (201), `Ok(value)` (200), `BadRequest`
(400), `ServerError` (500). The three listing handlers (`get_contacts`,
`get_groups`, `get_upcoming_birthdays`) fail only when the store does,
which is not modelled, so they return their payload as a plain sequence.

Files and modules:

| file | module | contents |
|---|---|---|
| wrappers.dfy | `Wrappers` | `Option`, standing for Python's `None` |
| calendar.dfy | `Calendar` | dates, leap years, `toordinal`, the `%Y-%m-%d` parser |
| records.dfy | `Records` | request body, table rows, contact object, `Reply` |
| phone_table.dfy | `PhoneTable` | the `phone` table: numbers of a contact, cascade delete, appending rows |
| groups.dfy | `Groups` | distinct groups |
| birthdays.dfy | `Birthdays` | next occurrence, day difference, window, stable sort on `birth_date[5:]` |
| directory.dfy | `Directory` | class `ContactStore`, one method per handler |

Behaviour of the code that the model follows, where a reader of the
service's documentation might expect otherwise:

- **Unknown ids give 500, not 404.** `get_or_404` raises NotFound, a
  subclass of `Exception`. The handlers call it inside `try` blocks whose
  `except Exception` turns it into the 500 reply. `update_contact` looks the
  id up before it reads and checks the body, so an unknown id with an
  invalid body is still a 500.
- **Create is not atomic.** `add_contact` commits the contact row before it
  adds the phones. The parameter `phoneCommitFails` of `AddContact` models
  the second commit failing: the reply is 500 and the contact stays stored
  with no phones.
- **The default group** is the literal `默认分组` ("default group"). Both
  handlers pass `data.get('group', '默认分组')`, which is `None` for an
  explicit `null`. On create the ORM leaves a `None` column that has a
  default out of the INSERT, so the contact still gets the default group
  (`Records.InsertedRow`). On update the attribute is assigned, so an
  explicit `null` is stored as null (`Records.RowFromBody`).
- **The birthday window depends on the time of day.** `datetime.now()`
  carries a time of day, while the constructed birthdays are at midnight.
  A birthday falling today is therefore "before now" at any moment after
  midnight, and it rolls over to next year. `timedelta.days` floors, so a
  birthday k >= 1 calendar days ahead has `days_diff = k - 1`. The window
  is 0 to 30 calendar days ahead at exactly midnight, and 1 to 31 days ahead
  at any other time (`Birthdays.UpcomingWindow`,
  `Birthdays.BirthdayTodayOnlyAtMidnight`).
- **The birthday sort compares text.** It sorts on the string
  `birth_date[5:]`, not on the next occurrence, so `01-05` precedes `12-20`
  even in December (`Birthdays.SortByTextExample`). Python's sort is
  stable, and `Birthdays.StableSortIsUnique` shows that every stable sort
  gives the model's result.

## Model

| member | source | states |
|---|---|---|
| `Calendar.DaysInMonth` | src/app.py:186 | a month has 28 to 31 days, and 29 exactly for February of a leap year |
| `Calendar.MakeDate` | src/app.py:186-190 | `datetime(y, m, d)` succeeds exactly for an existing date with year 1 to 9999, and builds that date |
| `Calendar.DaysBeforeYearStep` | src/app.py:195 | consecutive years' first ordinals differ by the length of the earlier year (365 or 366) |
| `Calendar.OrdinalWithinYear` | src/app.py:195 | a date's ordinal lies within its own year's range of ordinals |
| `Calendar.OrdinalMonotone` | src/app.py:189-195 | `toordinal` is strictly increasing in calendar order, and equal ordinals mean equal dates |
| `Calendar.ParseIsoDate` | src/app.py:184 | whatever `strptime(s, '%Y-%m-%d')` accepts is an existing date |
| `Calendar.ParseFormatRoundTrip` | src/app.py:184 | parsing the zero-padded `YYYY-MM-DD` form of any valid date gives that date back |
| `Calendar.ParsedShape` | src/app.py:184 | an accepted string has 8 to 10 characters and a `-` at index 4, so `birth_date[5:]` is its month and day |
| `Calendar.ParseExamples` | src/app.py:184 | `2023-02-29`, month 13, day 32, year 0000 and `invalid` are refused; `2024-02-29`, `2023-1-5` and a space-padded day are accepted |
| `Records.RowFromBody` | src/app.py:127-131 | an update assigns `name` as given, `email`, `address` and `birth_date` as `data.get` reads them, and `group` defaulted only when missing, an explicit `null` being assigned as null |
| `Records.InsertedRow` | src/app.py:91-97 | a created row has the same columns as an update would assign, except that an explicit `null` group takes the column default declared at line 26, so a created contact always has a group |
| `PhoneTable.NumbersOfAppend` | src/app.py:103-107 | a contact's numbers in a table extended by rows are its old numbers followed by those of the new rows |
| `PhoneTable.NumbersOfRowsFor` | src/app.py:103-105 | the rows added for a contact carry exactly its given numbers and no number of any other contact |
| `PhoneTable.NumbersOfWithoutOwner` | src/app.py:27 | the cascade delete leaves the deleted contact no numbers and every other contact its numbers |
| `PhoneTable.NumbersOfAbsent` | src/app.py:32 | a contact that owns no row has no numbers |
| `PhoneTable.WithoutOwnerOwnedBy` | src/app.py:27 | after the cascade no phone refers to the deleted contact, and every remaining phone still refers to a stored one |
| `PhoneTable.RowsForOwnedBy` | src/app.py:137-139 | the phone rows added for a contact all refer to it, one row per number |
| `PhoneTable.ReplaceNumbers` | src/app.py:133-139 | after deleting a contact's phones and adding the new list, its numbers are exactly the new list and every other contact's are unchanged |
| `PhoneTable.ReplacePhones` | src/app.py:133-139 | replacing a contact's phones keeps every phone owned by a stored contact, gives that contact exactly the new list, and leaves every other contact's numbers as they were |
| `Groups.DistinctGroupsCorrect` | src/app.py:166-167 | the groups listed have no duplicates, and a string is listed exactly when it is non-empty and some contact's group |
| `Birthdays.NextBirthdayIsEarliest` | src/app.py:186-192 | the chosen occurrence has the birthday's month and day, is not before now, and no such occurrence in an earlier year is |
| `Birthdays.NextBirthdayGap` | src/app.py:186-195 | the chosen occurrence is at least one calendar day ahead unless now is exactly midnight, and `days_diff` is the calendar gap, minus one unless at midnight |
| `Birthdays.FloorDays` | src/app.py:195 | `.days` of a whole number of days minus a time of day is that number, minus one when the time of day is positive |
| `Birthdays.DaysDiffNonNegative` | src/app.py:196 | the `0 <= days_diff` half of the window test never fails |
| `Birthdays.UpcomingWindow` | src/app.py:181-196 | a contact is listed exactly when its next occurrence exists and is at most 30 calendar days ahead at midnight, at most 31 at any other time |
| `Birthdays.BirthdayTodayOnlyAtMidnight` | src/app.py:178-196 | a birthday falling today is listed with `days_diff` 0 at exactly midnight; at any later moment it rolls to next year and is not listed |
| `Birthdays.LeapDaySkipped` | src/app.py:186-205 | a 29 February birthday is skipped, not an error, whenever the current year is not a leap year |
| `Birthdays.SortByKeyCorrect` | src/app.py:208 | the sort orders by `birth_date[5:]`, keeps exactly the same entries, and keeps the store order of equal keys |
| `Birthdays.StableSortIsUnique` | src/app.py:208 | only one sequence is sorted by key with every key's entries in a given order, so any stable sort gives the model's result |
| `Birthdays.StrLeTotal` | src/app.py:208 | any two sort keys are comparable |
| `Birthdays.StrLeTransitive` | src/app.py:208 | the string order on sort keys is transitive |
| `Birthdays.StrLeAntisymmetric` | src/app.py:208 | two keys each at most the other are equal |
| `Birthdays.UpcomingBirthdaysCorrect` | src/app.py:179-208 | the reply is sorted by key, holds exactly the entries of the contacts in the window, and keeps the store order of equal keys |
| `Birthdays.WindowExamples` | src/app.py:181-205 | on 2024-06-01 a 2024-06-15 birthday is listed, a 2024-05-01 one is not, and `invalid` is skipped |
| `Birthdays.SortByTextExample` | src/app.py:208 | on 2024-12-15 at noon a 01-05 birthday 20 days on is listed before a 12-20 birthday 4 days on |
| `Directory.ContactStore.constructor` | src/app.py:34-36 | a new store has empty tables and satisfies the foreign-key invariant |
| `Directory.ContactStore.NextRowId` | src/app.py:99-100 | the id given to a new contact is not in use |
| `Directory.ContactStore.GetContacts` | src/app.py:39-56 | every stored contact is returned exactly once, with its current fields and phones |
| `Directory.ContactStore.GetContact` | src/app.py:61-78 | a stored id gives its contact; an unknown id gives 500 |
| `Directory.ContactStore.AddContact` | src/app.py:80-113 | an unreadable body gives 500 and a missing or empty name or phone list gives 400, both changing nothing; otherwise a new contact with an unused id stores the body's fields (a `null` group taking the default) and phones and nothing else changes; if the phone commit fails the contact stays without phones |
| `Directory.ContactStore.UpdateContact` | src/app.py:115-147 | an unknown id or unreadable body gives 500 and a missing name or phone list gives 400, changing nothing; otherwise every scalar field is overwritten, the phones become exactly the new list, and every other contact is unchanged |
| `Directory.ContactStore.AppendPhones` | src/app.py:137-139 | the loop adds one row per number, in order, all owned by the given contact, and changes no contact row |
| `Directory.ContactStore.DeleteContact` | src/app.py:149-160 | an unknown id gives 500 and changes nothing; otherwise the contact and all its phones are removed and every other contact is unchanged |
| `Directory.ContactStore.GetGroups` | src/app.py:162-171 | the groups listed have no duplicates and are exactly the non-empty groups of stored contacts |
| `Directory.ContactStore.GetUpcomingBirthdays` | src/app.py:173-213 | the reply is sorted by `birth_date[5:]`, holds exactly the entries of the stored contacts in the window, and is the stable sort of a listing of every stored contact once, so no contact appears twice and equal keys keep the listing's order |

## Left out

- HTTP routing, JSON parsing and serialization, CORS, the app configuration
  and `app.run`: framework I/O. A body that `request.get_json()` cannot
  turn into a JSON object is the `None` body, which reaches the handler's
  `except` and gives 500.
- `health_check`: a constant reply with no logic.
- SQLAlchemy sessions, commits, rollback, `create_all` and migrations: the
  tables are fields of `ContactStore`. Store failures are not modelled,
  except the failure of the second commit in `add_contact`, which shows
  that create is not atomic. The 500 replies of `get_contacts`,
  `get_groups` and `get_upcoming_birthdays` arise only from store failures,
  so these methods always succeed.
- SQLite's id policy: `NextRowId` takes one past the largest id in use,
  and callers rely only on the id being unused.
- Phone ids: no handler reads them.
- Read order of phones: `Contact.phones` has no `order_by`, so SQL does
  not fix the order in which a contact's phones are read back. The model
  reads them in insertion order, which is SQLite's rowid scan order. So
  `View`, and through it `GetContact`, `GetContacts`, `AddContact` and
  `UpdateContact`, promise an order the program does not guarantee.
- Directory.ContactStore.GetContacts: returns the contacts in an order the model leaves open; the store's natural order is not promised.
- Request bodies whose scalar members are JSON values other than strings or
  `null`, or whose `phones` is not a list of strings (a string, for
  instance, would be iterated character by character): only strings,
  `null`, missing members, and lists of strings are modelled.
- Column length limits such as `String(100)`: SQLite does not enforce them.
- `strptime` reads `\d` as any Unicode decimal digit; the model accepts
  ASCII digits only.
- Reading the clock: "now" is a parameter, a date and microseconds since
  its midnight.
- Logging with `print` and the human-readable error messages: replies are
  the cases of `Reply`.
- Concurrent requests: each method runs alone.
