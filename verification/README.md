# Friday clinic bookings — a Dafny model

This project models the slot-allocation and booking-validity core of a small booking system for a dental
hygiene clinic that opens on Fridays. Patients book one of three chairs (`rojo`, `azul`, `amarillo`) in a
40-minute slot between 15:15 and 20:30. The system exists in two variants:

- a browser-only page (`app.js`) that keeps the bookings in a map from a `YYYY-MM-DD` date to that day's
  bookings;
- a PHP endpoint (`api/bookings.php`, with the validators of `api/utils.php` and the constants of
  `api/config.php`) over a `bookings` table, and the page that talks to it (`app-api.js`).

The model is functional. Bookings and rows are immutable datatypes, the browser store is a
`map<string, seq<Booking>>`, the server table is a `seq<Row>` plus the next auto-increment id, and every
handler is a total function from the state and the request to a response and the new state. Today's date,
the session, the dialogs' answers and the form fields are parameters.

Modules, one per file:

- `Wrappers` (`wrappers.dfy`): `Option`.
- `Text` (`text.dfy`): decimal digits, `padStart`, the PHP and JavaScript `trim`, ASCII lower-casing,
  `split`/`explode` on one character.
- `Seqs` (`seqs.dfy`): `filter`, subsequences, counting distinct codes.
- `Ordering` (`ordering.dfy`): code-point string order, the `(date, slot, chair)` sort key, insertion sort.
- `Calendar` (`calendar.dfy`): civil dates, day counts and weekdays, the canonical `YYYY-MM-DD` form, the
  page's `dateToStr`/`strToDate`, `changeMonth`, the Monday-first month grid and the selectable-day rule.
- `Slots` (`slots.dfy`): `minutes`, `timeToStr`, `generateTimeSlots`.
- `Validation` (`validation.dfy`): the validators of `api/utils.php` and the page's `validateEmail`.
- `Server` (`server.dfy`): the handlers of `api/bookings.php` and the dispatch on the HTTP verb.
- `LocalStore` (`localstore.dfy`): the browser store of `app.js` and its handlers.
- `ApiClient` (`apiclient.dfy`): the client logic of `app-api.js`: the day filter, the sort, the slot grid,
  the summary and the booking request.

Where parts of the program disagree with each other, the model keeps each part as written:

- The server's slot check assumes 8 slots of 40 minutes (its own comment at `api/utils.php:79`, and the
  bound `0 <= index < 8`), but with the shipped start, end and duration the clients' slot loop produces
  7 slots (15:15 to 19:15, 21 places). `Slots.ShippedSlots` proves the count.
- The server's `validateSlotIndex` accepts the 8 indices 0..7, so it admits index 7, which no client slot
  has. `Validation.SlotIndexBoundMismatch` states this. The grid fill in `app-api.js` silently drops such
  a booking (`ApiClient.OutOfRangeDropped`). The summary still counts it: a consistent table can drive
  "available" down to `3·|slots| − 24`, which is −3 with the shipped grid (`ApiClient.SummaryFloor`,
  `ApiClient.SummaryFloorReached`).
- The server never checks that `time_slot` agrees with `slot_index` (`Server.PostIgnoresTimeSlot`). Only
  the client derives it from the slot (`ApiClient.PayloadTimeMatchesSlot`).

## Model

| member | source | states |
|---|---|---|
| Text.PaddedNatToStr | app.js:32-34 | padding the decimal form of n < 10^k with zeros to width k gives exactly the k-digit zero-padded numeral of n |
| Text.TrimStartShape | api/utils.php:56 | trimming the start removes exactly the leading whitespace run: the result is a suffix of the input, everything removed is whitespace, and what remains does not start with whitespace |
| Text.TrimEndShape | api/utils.php:56 | trimming the end removes exactly the trailing whitespace run: the result is a prefix of the input, everything removed is whitespace, and what remains does not end with whitespace |
| Text.TrimEmptyIffAllSpace | api/utils.php:170 | a string trims to empty exactly when every character is whitespace |
| Text.JoinSplit | app.js:62 | splitting on a character and joining with it again gives back the original string |
| Text.SplitOnce | api/utils.php:38-39 | a string with exactly one `@` splits into exactly the part before it and the part after it |
| Slots.TimeToStrShape | app.js:32-34 | for hours and minutes in 0..99, `timeToStr` is a five-character `HH:MM`: two zero-padded digits, a colon, two zero-padded digits |
| Slots.TimeRoundTrip | app.js:32-34 | reading back the `HH:MM` label of a time in 0..99 gives the same hour and minute |
| Slots.SlotsFromShape | app.js:74-82 | slot i starts `start + i·duration` minutes after midnight, with minute part in 0..59; every slot ends by the end time and one more would not |
| Slots.GenerateTimeSlots | app.js:69-85 | the loop computes the slot list; consecutive starts differ by the duration, every slot fits before the end, one more slot would not |
| Slots.ShippedSlots | app.js:7-9 | with start 15:15, end 20:30 and 40-minute slots there are exactly 7 slots, the first at 15:15 and the last at 19:15 |
| Slots.ShippedLabels | app.js:75-76 | the shipped slots are labelled `15:15` through `19:15` |
| Calendar.FridayAgreement | api/utils.php:70-73 | the page's Sunday-first weekday is 5 exactly when the ISO weekday is 5, so both Friday tests agree |
| Calendar.WeekdayOfNextDay | app.js:48-50 | the weekday advances by one, modulo 7, from each valid date to the next |
| Calendar.PastIffEarlier | api/bookings.php:101-104 | a date is past exactly when it is strictly before today in (year, month, day) order; today itself is not past |
| Calendar.IsoRoundTrip | api/utils.php:62-65 | every valid date with a year in 0..9999 passes the canonical `Y-m-d` check and reads back as itself |
| Calendar.IsoCanonical | api/utils.php:62-65 | a string passes the date check only if it is the zero-padded form of a real calendar date |
| Calendar.ParseIsoDateIff | api/utils.php:62-65 | the date check accepts a string exactly when some real date prints as it |
| Calendar.IsoExamples | api/utils.php:62-65 | `2025-01-10` is accepted; `2025-02-30` and `2025-2-5` are rejected |
| Calendar.JsDateIsIso | app.js:36-41 | for four-digit years `dateToStr` prints the canonical `YYYY-MM-DD` form the server checks |
| Calendar.JsDateRoundTrip | app.js:36-46 | `strToDate(dateToStr(d))` is d for valid dates with four-digit years, and the string has 10 characters |
| Calendar.ChangeMonthStep | app-api.js:330-340 | a step of ±1 keeps the month in 0..11 and moves `12·year + month` by exactly the step |
| Calendar.ChangeMonthUndo | app.js:261-271 | going one month forward and then one back returns to the starting month and year |
| Calendar.StartOffset | app-api.js:292-293 | the Monday-first offset of the first day of a month is in 0..6 and is its ISO weekday minus one |
| Calendar.MonthCellsMeaning | app-api.js:308-311 | a day of the month is selectable exactly when its ISO weekday is Friday and it is not before today |
| Calendar.MonthCellsWeekly | app.js:238-241 | a selectable day seven days later in the same month is selectable too |
| Validation.ValidateEmailIff | api/utils.php:31-47 | the server accepts an email exactly when the format check passes, it has exactly one `@`, and the lower-cased text after the `@` is an allowed domain |
| Validation.ValidateEmailNeedsAt | api/utils.php:38-41 | an email without `@` is rejected |
| Validation.ValidateEmailDomainCase | api/utils.php:43-46 | the verdict does not depend on the case of the domain |
| Validation.ClientValidateEmailIff | app.js:58-64 | the page accepts an email exactly when it has a single `@`, a non-empty local part without whitespace, and a lower-cased domain in the allow-list |
| Validation.ClientEmailAccepts | app.js:58-64 | a non-empty local part without whitespace or `@` followed by `@alu.medac.es` or `@medac.es` is accepted |
| Validation.ClientEmailRejectsDomain | app.js:58-64 | any other domain is rejected |
| Validation.ClientEmailRejectsNoAt | app.js:58-64 | a string without `@` is rejected |
| Validation.ClientEmailPassesServer | app-api.js:464-467 | an email the page accepts is accepted by the server whenever the server's format check passes |
| Validation.EscapeShape | api/utils.php:56 | HTML escaping never shortens its input and leaves no raw `<`, `>`, `"` or `'` in the result |
| Validation.UnescapeEscape | api/utils.php:56 | HTML escaping loses nothing: unescaping the escaped string gives the original |
| Validation.EscapeNotIdempotent | api/utils.php:56 | escaping twice re-escapes the `&`, so sanitising is not idempotent |
| Validation.SanitizeMeaning | api/utils.php:52-57 | the sanitised text unescapes to the trimmed, tag-stripped input and contains no raw `<`, `>`, `"` or `'` |
| Validation.SanitizeRewritesAccepted | api/bookings.php:90 | an address the page accepts with a `'` in its local part is not the string the server goes on to validate after sanitising |
| Validation.SanitizeInput | api/utils.php:52-57 | an array is sanitised element by element and keeps its shape; no leaf contains a raw `<`, `>`, `"` or `'` |
| Validation.MissingParams | api/utils.php:167-178 | the reported names are exactly the required names that are absent or blank after trimming, in the given order |
| Validation.RequireParamsPasses | api/utils.php:167-178 | no error is raised exactly when every required name is present with a non-whitespace character |
| Validation.SlotIndexBoundMismatch | api/utils.php:78-80 | the server accepts exactly the indices 0..7, one more than the 7 shipped slots; index 7 passes but names no slot |
| Validation.ValidateChair | api/utils.php:85-87 | a chair is valid exactly when it is `rojo`, `azul` or `amarillo` |
| Validation.RequireAuth | api/utils.php:106-117 | the request fails with 401 exactly when the session lacks the user id or the user name |
| Server.QueryParam | api/bookings.php:44-46 | a query filter is in force exactly when the parameter is present and PHP-truthy (not `""`, not `"0"`) |
| Server.GetMeaning | api/bookings.php:43-75 | an invalid date filter gives 400; otherwise 200 with exactly the rows matching every given filter, with their multiplicities, ordered by date, slot and chair, each sent as the columns the query selects (no `created_by`) |
| Server.PostCheckOrder | api/bookings.php:93-116 | the first failing check, in the order date format, Friday, past date, slot, chair, email, decides the rejection; today itself is allowed |
| Server.AdmitOutcome | api/bookings.php:118-145 | a valid request gets 409 exactly when the place is taken; otherwise 201 and exactly one new row with the next id, the request's fields and the session's user id; nothing else changes |
| Server.PostOutcome | api/bookings.php:80-146 | a POST answers 400, 409 or 201; every answer but 400 comes from a complete body; only 201 changes the table |
| Server.PostParamsPresentIff | api/bookings.php:82 | a POST passes the parameter check exactly when all six fields are present and non-blank |
| Server.PostIgnoresTimeSlot | api/bookings.php:87 | changing only `time_slot` changes neither the response nor any stored field other than the time |
| Server.UpdateContact | api/bookings.php:175-183 | the update keeps every row's id, date, slot, time, chair and creator, and changes name and email of the rows with that id only |
| Server.AmendOutcome | api/bookings.php:157-185 | the email check comes before the id lookup (400, then 404, then 200); only a 200 changes the table, and only name and email of that row |
| Server.PutOutcome | api/bookings.php:151-186 | PUT checks the session first (401), then the body and parameters, then email and id; only a 200 changes the table |
| Server.PurgeOutcome | api/bookings.php:200-222 | a delete keeps exactly the rows that do not match, in order; it answers 404 and keeps the table when nothing matched, otherwise 200 with the number removed |
| Server.DeleteOutcome | api/bookings.php:192-227 | `id` takes precedence over `email`; the id path needs a session (401); the email path validates the email (400); with neither parameter the answer is 400 |
| Server.DispatchVerbs | api/config.php:59-63 | an OPTIONS preflight gets an empty 200 before the endpoint's switch; a verb other than OPTIONS, GET, POST, PUT or DELETE gets 405; a preflight, a 405 and any GET leave the table unchanged |
| Server.DeleteStatuses | api/bookings.php:192-227 | a DELETE answers only 200, 400, 401 or 404 |
| Server.AdmitKeepsConsistent | api/bookings.php:118-145 | a table of valid rows with distinct ids and distinct (date, slot, chair) stays so after an insertion |
| Server.PostKeepsConsistent | api/bookings.php:80-146 | a sequentially executed POST keeps the table consistent |
| Server.AmendKeepsConsistent | api/bookings.php:157-185 | the name and email update keeps the table consistent |
| Server.PutKeepsConsistent | api/bookings.php:151-186 | a PUT keeps the table consistent |
| Server.PurgeKeepsConsistent | api/bookings.php:200-222 | deleting rows keeps the table consistent |
| Server.DeleteKeepsConsistent | api/bookings.php:192-227 | a DELETE keeps the table consistent |
| Server.DispatchKeepsConsistent | api/bookings.php:14-33 | every request, whatever its verb, keeps the table consistent |
| Server.PostThenGetById | api/bookings.php:131-145 | after a 201, asking for the new id returns the inserted row alone, as the columns GET selects |
| LocalStore.AddBooking | app.js:110-116 | the booking is appended to its day, the day is created if needed, and no other day changes |
| LocalStore.AddKeepsValid | app.js:110-116 | adding a booking to a free place keeps places unique and no day empty |
| LocalStore.RemoveBookingMeaning | app.js:118-127 | every booking of that day in that slot and chair goes, the others stay in order, an emptied day is deleted, and other days are untouched |
| LocalStore.RemoveKeepsValid | app.js:118-127 | removing keeps places unique and no day empty |
| LocalStore.UpdateKeepsValid | app.js:129-132 | replacing a booking by one at its own place or at a free place keeps the store valid |
| LocalStore.AllBookingsMeaning | app.js:134-146 | the listing contains every stored booking tagged with its date, with multiplicities, sorted by date and then slot |
| LocalStore.FormCheck | app.js:384-397 | the form is refused for an empty name, then an empty email, then an email the page rejects, and passes exactly when none applies |
| LocalStore.PlaceOutcome | app.js:399-419 | a taken place is refused and the store kept; otherwise exactly one booking with the slot's label is appended to the day |
| LocalStore.ConfirmOutcome | app.js:378-425 | the refusals come in the order empty name, empty email, invalid email, taken place; a booking is made exactly when none applies, and only then does the store change |
| LocalStore.ConfirmKeepsValid | app.js:378-425 | confirming keeps places unique and no day empty |
| LocalStore.PurgeEmailMeaning | app.js:445-457 | exactly the bookings whose email equals the input disappear, the rest keep their order, and emptied days are deleted |
| LocalStore.PurgeEmailNoMatch | app.js:445-457 | when no booking has that email the store is unchanged |
| LocalStore.DeleteByEmailOutcome | app.js:430-471 | empty email, then invalid email, then not found are reported in that order and leave the store unchanged; otherwise exactly that email's bookings go |
| LocalStore.DeleteByEmailKeepsValid | app.js:430-471 | deleting by email keeps the store valid |
| LocalStore.FirstHolding | app.js:556 | the lookup finds the first booking of the day in that slot and chair, or reports that none is there |
| LocalStore.EditOutcome | app.js:555-560 | an edit changes only name and email of the first booking at that place; every other booking, field and day is unchanged |
| LocalStore.EditKeepsValid | app.js:555-560 | an edit keeps the store valid |
| LocalStore.SaveEditOutcome | app.js:539-566 | no edit in progress, then a blank field, then an invalid email are refused with the store unchanged; otherwise the edit is applied |
| LocalStore.SaveEditKeepsValid | app.js:539-566 | saving an edit keeps the store valid |
| LocalStore.ResetDateOutcome | app.js:625-647 | a reset is reported exactly when a date was entered, it looks up truthy in the page's plain object (a stored day or a name inherited from `Object.prototype`) and the admin confirms; "no bookings" exactly for any other non-empty answer; a reset deletes that day alone |
| LocalStore.ResetInheritedName | app.js:625-647 | answering `constructor` and confirming reports a reset although the store is unchanged |
| LocalStore.ResetDateKeepsValid | app.js:625-647 | resetting a day keeps the store valid |
| LocalStore.ResetAll | app.js:613-623 | a confirmed reset empties the store and a cancelled one keeps it |
| ApiClient.DayRowsMeaning | app-api.js:193-195 | the day's bookings are exactly the loaded rows with that date, with multiplicities, in their original order |
| ApiClient.AllRowsMeaning | app-api.js:197-202 | the listing is a permutation of the loaded rows sorted by date and then slot |
| ApiClient.LoadedDayIsWholeDay | app-api.js:111-125 | after loading one date from the server, the day filter keeps every row, and those are exactly the listings of the table's rows of that date |
| ApiClient.FillMeaning | app-api.js:370-374 | a cell is filled exactly when some booking names that slot and chair, and it shows the last such booking; other cells keep their contents |
| ApiClient.FillShowsOnlyItsPlace | app-api.js:370-374 | every filled cell shows a loaded booking for that very slot and chair |
| ApiClient.OutOfRangeDropped | app-api.js:370-374 | a booking whose slot index is outside the grid appears in no cell |
| ApiClient.SummaryMeaning | app-api.js:418-430 | total is three places per slot, available plus taken is total, and taken plus the other days' rows is all loaded rows |
| ApiClient.DayRowsBound | app-api.js:418-430 | with distinct places, valid chairs and slots inside an n-slot grid, a day has at most 3n bookings |
| ApiClient.SummaryNotNegative | app-api.js:418-430 | when every booking of the day sits on the grid with distinct places, "available" is never negative |
| ApiClient.SummaryFloor | app-api.js:418-430 | for any consistent server table, "available" computed over its listed rows is at least `3·|slots| − 24` |
| ApiClient.SummaryFloorReached | app-api.js:418-430 | a consistent table with 24 bookings on one Friday reaches that floor |
| ApiClient.ClientConfirmOutcome | app-api.js:448-477 | the request is refused for an empty name, then an empty email, then a rejected email; otherwise it is sent with the day, slot, the slot's label, chair and the trimmed name and email |
| ApiClient.ClientRefusesAsLocal | app-api.js:454-467 | the server-backed page refuses exactly the forms the browser-only page refuses, with the same message |
| ApiClient.PayloadTimeMatchesSlot | app-api.js:469-477 | a sent request's `time_slot` reads back as the start of the slot its `slot_index` names |
| ApiClient.ClientPayloadPassesServer | app-api.js:469-477 | a request built for a Friday the page offers, with a valid chair, passes the server's validation checks (date, Friday, past, slot, chair, email) applied to the payload as sent, given the server's email format check passes and the server's date is not later than the browser's; availability is not covered |
| ApiClient.ClockSkewRejects | api/bookings.php:102 | a browser still on a Friday the server's time zone has already left offers a day the server rejects as past |

## Left out

- Rendering, modals, `alert`/`confirm`/`prompt`, Bootstrap and `fetch`: these are I/O. Dialog answers and
  form fields are parameters, and the message shown is a `Notice`.
- `apiCall`, `createBooking`, `updateBooking`, `deleteBooking`, `login`, `logout` and `checkAuth` in
  `app-api.js`: network calls. Loading is modelled by its result (`ApiClient.LoadedDayIsWholeDay`).
- The per-id delete loops of `resetAllBookings` and `resetDateBookings` in `app-api.js`: sequences of
  network calls.
- The page's `editBooking` and `deleteBookingAdmin` in `app-api.js`: network calls.
- Saving to and loading from `localStorage` (`app.js:90-104`): persistence only.
- Sessions, password hashing, CSRF tokens and the audit log: the session is a plain input.
- The SQL plumbing and MySQL's case-insensitive collation: the table matches emails by exact equality.
- The check-then-insert race between concurrent POSTs: handlers run one at a time.
- `filter_var(FILTER_VALIDATE_EMAIL)`, `strip_tags`, PHP's `(int)` string cast and the database's
  conversion of an `id` parameter: library behaviour, passed in as functions.
- The 500 answer for a database exception: the model has no failing database.
- JSON values other than strings in a request body: a body is a map from names to strings.
- JavaScript `Date` normalisation of out-of-range triples (such as February 30): `strToDate` of such a
  triple is `None` here.
- Lower-casing beyond ASCII: the allowed domains are ASCII.
- `localeCompare`: dates are compared by code point, which agrees with it on `YYYY-MM-DD` strings.
- `formatDateLong` and the Excel export: locale formatting and file output.
- The admin statistics panel and `selectDate`: display only.
- The `created_at` column that GET selects: the database fills it in from its clock. A listed row carries
  the other columns GET selects (`Server.Listed`).
- ApiClient.AllRowsMeaning: `getAllBookings` sorts the page's one array in place, and later day lookups read that
  same array. The model sorts a copy. The two agree here because GET already sends rows ordered by date,
  slot and chair, so the sort leaves the order unchanged.
- ApiClient.ClientPayloadPassesServer: it is stated for the payload as sent, and the 409 availability check
  is not covered. The server sanitises the fields first. `htmlspecialchars` rewrites `'`, `&`, `"`, `<` and
  `>`, so an address such as `o'brien@medac.es`, which the page accepts, reaches the email check as
  `o&#039;brien@medac.es` (`Validation.SanitizeRewritesAccepted`), and `FILTER_VALIDATE_EMAIL` refuses
  the `;`. The model does not relate `strip_tags` to the fields the client sends either.
- Validation.ValidateEmailIff: the format check of `filter_var` is a parameter, so the property is stated
  relative to it.
