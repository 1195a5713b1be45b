# Ticket de turno: appointment engine and form validators

This project models two parts of the *ticket de turno* system in Dafny. The
system books in-person appointments ("turnos") at regional offices.

- **The ticket controller.** This is the appointment engine in `controllers/ticket_controller.py`:
  - it rounds the clock up to the 30-minute grid;
  - it maps weekdays to the Spanish schedule keys;
  - the slot finder scans 30 days of schedule rows;
  - the issuer (`crear_turno`) upserts the requester by CURP, raises the
    municipality's folio counter and adds a pending ticket;
  - status changes and edits;
  - the admin search;
  - the per-municipality tally of the dashboard.
- **The form validators.** These are the checks in `static/js/validador.js`:
  - the CURP pattern with its state codes and embedded birth date (`curpDateCheck`, `curpCheck`);
  - the email rules (`validateEmailAdvanced`);
  - the name rules (`nameCheck`);
  - the landline and mobile rules (`phoneCheck`, `celularCheck`).

Modules, one per file:

- `wrappers.dfy` (`Wrappers`): `Option` and `Result`.
- `ledger.dfy` (`Ledger`): the rows of the tables and their constraints. Shapes come from `ticket-de-turno-master/models/db_models.py`.
- `slots.dfy` (`Slots`):
  - rounding and the weekday map;
  - a reference definition of `_encontrar_proximo_horario`;
  - a declarative statement of the slot it must return, and the lemmas that connect the two.
- `ticket_controller.dfy` (`TicketController`):
  - `Issue`, the function that specifies `crear_turno`;
  - the class `Store`, whose fields are the tables and whose methods are the controller operations that change them.
- `admin_queries.dfy` (`AdminQueries`): `buscar_turnos_admin` and the aggregation loop of `get_stats_dashboard`.
- `js_text.dfy` (`JsText`): the JavaScript string primitives the validators use:
  - `\s`, `trim`, `split`, `replace(/\s+/g, "")`, `replace(/\D/g, "")`, `toUpperCase` (ASCII letters, and the characters outside ASCII whose upper case is ASCII);
  - `length` in UTF-16 code units.
- `curp.dfy` (`Curp`), `email.dfy` (`Email`), `fields.dfy` (`Fields`): the validators.

Modelling conventions:

- A requester's id and a ticket's id is its position in `Store.requesters` and `Store.tickets`.
- Dates are day numbers (Python's `toordinal`, day 1 is a Monday).
- Times are whole minutes of the day.
- The clock reading `datetime.now()` is a parameter `now: Instant` (a day number and a second of that day).
- `int(...)` of a form field is an `Option<int>`: `None` when the field is missing or not an integer.

The code does the following, which may surprise a reader, and the model follows the code:

- Both the daily count and the slot-occupancy test count tickets of every status. A cancelled ticket therefore still blocks its slot and uses capacity.
- `codigo_qr` is unique in the schema and is set to the CURP. A second ticket for the same CURP therefore fails at commit (`IntegrityError`), even though the requester row would be reused.
- A missing `nivel` or `asunto` only fails at commit, since the columns are `NOT NULL`.
- `eliminar_turno_admin` asks `cambiar_estado_turno` for `'cancelado'`, which its whitelist refuses. The admin delete therefore never succeeds.
- `cambiar_estado_turno` ignores the current status, so a cancelled ticket can be set back to pending.
- With a daily cap of 1, a second request on the same day does not get the next half hour (09:30 after 09:00). The first ticket fills the cap, so the day counts as full and the finder moves on to the next open day (`Slots.FullDayNeverChosen`).
- `actualizar_turno` may move a ticket to another office without looking for a free slot there. `TicketController.EditCanDoubleBook` shows that this can put two tickets on one slot.

## Model

| member | source | states |
|---|---|---|
| Slots.RoundUpTime | controllers/ticket_controller.py:32-37 | the rounded reading is a minute of the day on the 30-minute grid, not earlier than the clock's whole minute and less than 30 minutes after it |
| Slots.RoundUpCrossesDayOnlyPast2330 | controllers/ticket_controller.py:32-37 | rounding stays on the same day exactly when the minute is at most 23:30; otherwise it lands on 00:00 of the next day |
| Slots.RoundUpKeepsAligned | controllers/ticket_controller.py:32-37 | a minute already on the grid is returned unchanged, seconds dropped |
| Slots.RoundUpIdempotent | controllers/ticket_controller.py:32-37 | rounding a rounded reading gives it back |
| Slots.Weekday | controllers/ticket_controller.py:39-41 | `weekday()` of a day number lies in 0..6 |
| Slots.DiaIndex | controllers/ticket_controller.py:13-21 | every schedule key has a position in 0..6 that the weekday map sends back to it (the map is onto) |
| Slots.DiaSemanaEsBijective | controllers/ticket_controller.py:13-21 | the weekday map is total on 0..6 and injective: the key's position gives the weekday back |
| Slots.WeekCovered | controllers/ticket_controller.py:39-52 | any seven consecutive days meet every schedule key |
| Slots.CountOnDate | controllers/ticket_controller.py:65-71 | the daily count of tickets of any status is zero exactly when no ticket of the office is on that date, and never more than the number of tickets |
| Slots.ScanSlotsFirstFree | controllers/ticket_controller.py:101-117 | the inner walk returns the first unoccupied step of the window, every earlier step being occupied, or none when every step is occupied |
| Slots.ScanDayMeaning | controllers/ticket_controller.py:55-117 | one day of the loop gives a start exactly when the day is not blocked (closed, at capacity, no room, all steps taken), and that start is the day's first free step |
| Slots.ScanDaysMeaning | controllers/ticket_controller.py:48-119 | the day loop from its i-th iteration returns a slot on the first scanned day that is not blocked, or none when all are blocked |
| Slots.NextSlotMeaning | controllers/ticket_controller.py:43-119 | the finder meets the declarative statement `IsNextSlot`: a slot on a scanned day after only blocked days, the first free step of that day, or none when all 30 days are blocked |
| Slots.IsNextSlotUnique | controllers/ticket_controller.py:43-119 | at most one answer meets the declarative statement |
| Slots.NextSlotCharacterized | controllers/ticket_controller.py:43-119 | the finder returns `r` if and only if `r` meets the declarative statement |
| Slots.NextSlotIsFree | controllers/ticket_controller.py:101-117 | the returned slot holds no ticket of any status |
| Slots.ChosenDayNotBlocked | controllers/ticket_controller.py:62-117 | a day on which a slot is chosen is open, below its cap and has a free step |
| Slots.NextSlotWithinHours | controllers/ticket_controller.py:51-117 | a returned slot lies in [rounded date, rounded date + 29] on that day's schedule row below its cap, between opening time and close − 30, not before the rounded clock on today, a whole number of slots after the first start, and free |
| Slots.NoRowInHorizonNoSlot | controllers/ticket_controller.py:51-119 | when no scanned day has a schedule row for the office, the finder returns none |
| Slots.HorizonMeetsEveryWeekday | controllers/ticket_controller.py:51-63 | no row on any of the 30 scanned days is the same as no row on any weekday |
| Slots.FullDayNeverChosen | controllers/ticket_controller.py:65-74 | a day whose ticket count has reached `max_turnos_dia` is never the returned date |
| Ledger.FreeSlotKeepsSlotsDistinct | controllers/ticket_controller.py:101-117 | adding a ticket on an unoccupied slot keeps every (office, date, time) held by at most one ticket |
| TicketController.FindRequester | controllers/ticket_controller.py:166-170 | the CURP lookup returns the first requester with that CURP, or none when there is none |
| TicketController.NextFolioKeepsFoliosOk | controllers/ticket_controller.py:199-213 | issuing the counter's next value keeps folios unique per municipality and not above the counter |
| TicketController.FindPendingFrom | controllers/ticket_controller.py:516-524 | the cancel query returns a pending ticket with that number whose requester has that CURP (the lowest-id one, a choice the query leaves to the database), or none exactly when there is none |
| TicketController.AdminStatus | controllers/ticket_controller.py:459-460 | a status is accepted if and only if it is 'pendiente' or 'resuelto'; the accepted status is never `cancelado` |
| TicketController.AdminStatusRefusesCancel | controllers/ticket_controller.py:457-475 | the admin soft delete's status 'cancelado' is refused |
| TicketController.UpsertAppendKeepsStoreOk | controllers/ticket_controller.py:166-228 | upserting the requester by CURP and appending a ticket with a fresh QR code and known references keeps CURPs unique, QR codes unique and references valid |
| TicketController.IssueEffect | controllers/ticket_controller.py:166-228 | on success: old tickets kept, one pending ticket added on the finder's slot with `codigo_qr` = CURP, numbered one past its municipality's counter (a missing one counts as 0), which now holds that number; other counters unchanged; the requester row holds exactly the submitted CURP and data; it is reused exactly when that CURP existed; no other requester changes |
| TicketController.IssueFailures | controllers/ticket_controller.py:145-237 | a bad office id, then no slot, then an unknown office, then a row the database refuses, each give their own error; otherwise the issue succeeds |
| TicketController.IssueKeepsStoreOk | controllers/ticket_controller.py:139-237 | a successful issue keeps the table constraints |
| TicketController.IssueKeepsSlotsDistinct | controllers/ticket_controller.py:158-228 | a successful issue never puts a second ticket on an (office, date, time) |
| TicketController.IssueKeepsFoliosOk | controllers/ticket_controller.py:199-221 | a successful issue keeps folios unique per municipality and not above the counter |
| TicketController.Store.constructor | ticket-de-turno-master/models/db_models.py:65-163 | empty requester, ticket and counter tables over the given catalogs satisfy the table constraints |
| TicketController.Store.FirstFreeStart | controllers/ticket_controller.py:101-117 | the walk loop returns what the reference inner walk returns |
| TicketController.Store.FreeStartOn | controllers/ticket_controller.py:53-117 | one iteration of the day loop returns what the reference day step returns |
| TicketController.Store.FindNextSlot | controllers/ticket_controller.py:43-119 | the finder's loop returns the reference finder's slot, hence (by `Slots.NextSlotCharacterized`) the one slot the declarative statement allows |
| TicketController.Store.CreateTicket | controllers/ticket_controller.py:139-237 | all or nothing: on failure the tables are unchanged and the error is the one `Issue` gives; on success the tables are those of `Issue` and the new ticket's id is returned; the table constraints are kept |
| TicketController.Store.ChangeStatus | controllers/ticket_controller.py:457-471 | succeeds exactly for 'pendiente' or 'resuelto' on an existing ticket, sets that status whatever the current one, and changes nothing else |
| TicketController.Store.AdminDelete | controllers/ticket_controller.py:473-475 | always returns false and changes nothing |
| TicketController.Store.PublicCancel | controllers/ticket_controller.py:509-531 | succeeds exactly when a pending ticket with that number has a requester with that CURP; then one such ticket (the lowest-id one, a choice the query leaves to the database) becomes cancelled and nothing else changes; otherwise nothing changes |
| TicketController.Store.UpdateTicket | controllers/ticket_controller.py:386-425 | succeeds exactly when both rows exist, every key is known and the CURP is not another requester's; it overwrites the requester's fields and the ticket's level, office and subject; number, date, time, status, QR code and requester of every ticket never change; on failure nothing changes |
| TicketController.EditCanDoubleBook | controllers/ticket_controller.py:413-418 | moving a ticket to another office can put two tickets on one slot |
| AdminQueries.MatchingFrom | controllers/ticket_controller.py:436-449 | exactly the ids of the tickets the WHERE clause admits, in increasing order |
| AdminQueries.InsertSorted | controllers/ticket_controller.py:451 | inserting into a date-descending sequence keeps it sorted and adds exactly that id (as a multiset) |
| AdminQueries.SortDescSorted | controllers/ticket_controller.py:451 | the ORDER BY sort is date-descending and a permutation of its input |
| AdminQueries.SortedMatches | controllers/ticket_controller.py:436-451 | the sorted matches are sorted, without repeats, and hold exactly the admitted tickets |
| AdminQueries.SearchTicketsSpec | controllers/ticket_controller.py:429-452 | the result has at most 50 ids, only admitted tickets, each once, latest appointment first; an admitted ticket is left out only when 50 tickets at least as late are listed |
| AdminQueries.SearchTicketsComplete | controllers/ticket_controller.py:451 | fewer than 50 results means every admitted ticket is listed |
| AdminQueries.Put | controllers/ticket_controller.py:498-499 | an assignment to one of the three statuses sets that counter and keeps the other two; any other status changes nothing |
| AdminQueries.AggregateByMunicipality | controllers/ticket_controller.py:493-499 | the loop builds the reference dict `Aggregate(rows)` |
| AdminQueries.AggregateMeaning | controllers/ticket_controller.py:493-499 | the dict has a key for exactly the municipalities in the rows, and each counter is the total of the last row for that municipality and status, 0 when there is none |
| AdminQueries.LastTotalAbsent | controllers/ticket_controller.py:496-497 | a municipality without a row for a status has 0 there |
| AdminQueries.LastTotalOfUniqueRow | controllers/ticket_controller.py:485-499 | with one row per (municipality, status) pair, as GROUP BY yields, the last row for a pair is that pair's row |
| AdminQueries.GroupedRowsLandInTheirCounter | controllers/ticket_controller.py:485-499 | with grouped rows, every row's total ends up in its municipality's counter for its status |
| JsText.Utf16Length | static/js/validador.js:32 | `length` counts between |s| and 2·|s| code units, and equals |s| exactly when every character is in the Basic Multilingual Plane |
| JsText.TrimMeaning | static/js/validador.js:46 | `trim` removes exactly the white space at both ends: the result is a slice whose ends are not white space, with only white space around it |
| JsText.TrimIdempotent | static/js/validador.js:46 | trimming twice is trimming once |
| JsText.RemoveSpaces | static/js/validador.js:59 | `replace(/\s+/g, "")` never lengthens the string, leaves no white space, and the characters left are exactly the characters of the input that are not white space |
| JsText.RemoveSpacesConcat | static/js/validador.js:59 | removal works character by character: a white-space character goes, any other stays, and a concatenation is cleaned piece by piece, so every kept character keeps its order and multiplicity |
| JsText.Digits | static/js/validador.js:82 | `replace(/\D/g, "")` never lengthens the string, leaves only digits, and the characters left are exactly the digits of the input |
| JsText.DigitsConcat | static/js/validador.js:82 | filtering works character by character: a digit stays, any other character goes, and a concatenation is filtered piece by piece, so every digit keeps its order and multiplicity |
| JsText.ToUpperCase | static/js/validador.js:69 | upper-casing never shortens the string, yields only characters that upper-case to themselves, and returns a string of such characters unchanged |
| JsText.UpperUnits | static/js/validador.js:69 | one character upper-cases to one to three characters: ASCII letters to capitals, ı to I, ſ to S, ß to SS and the ligatures U+FB00 to U+FB06 to FF, FI, FL, FFI, FFL, ST and ST |
| JsText.UpperCaseIdempotent | static/js/validador.js:69 | upper-casing an upper-cased string changes nothing |
| JsText.Count | static/js/validador.js:28 | the number of matches of a character is zero exactly when it does not occur |
| JsText.SplitCount | static/js/validador.js:29 | `split` gives one more piece than there are separators |
| JsText.SplitPiecesFree | static/js/validador.js:29 | no piece of a split holds the separator |
| JsText.SplitJoin | static/js/validador.js:29 | joining the pieces of a split with the separator gives the string back |
| JsText.SplitFirstPiece | static/js/validador.js:29 | the first piece is everything before the first separator |
| JsText.SplitLastPiece | static/js/validador.js:38 | `pop()` of a split gives everything after the last separator |
| Curp.Century | static/js/validador.js:15 | a two-digit year up to 29 is in the 2000s, otherwise in the 1900s |
| Curp.AddDays | static/js/validador.js:16 | day arithmetic on a real date gives a real date |
| Curp.DateRoundTripIff | static/js/validador.js:16-17 | `new Date(year, mm - 1, dd)` reads back as (year, mm, dd) exactly when that is a real Gregorian date |
| Curp.LeapDayExamples | static/js/validador.js:16-17 | 29 February is a date in 2000 and 2024 but not in 1900 or 2023; 30 February, month 13 and 31 April are not dates |
| Curp.BirthDateTest | static/js/validador.js:12-19 | for a CURP of the full pattern the date test is the Gregorian one |
| Curp.CurpDateCheckMeaning | static/js/validador.js:7-23 | accepts exactly the CURPs that, upper-cased and without white space, have the full pattern (with one of the 33 state codes) and a real birth date; a pattern failure is reported as such; the sex test never fails |
| Curp.FullShapeIsBasic | static/js/validador.js:68-74 | every state code is two letters, so the full pattern implies the basic one |
| Curp.NormalizeIdempotent | static/js/validador.js:69-74 | normalizing a normalized string changes nothing |
| Curp.CurpCheckMeaning | static/js/validador.js:68-79 | `curpCheck` accepts exactly the values that, upper-cased and without white space, have the full pattern and a real birth date |
| Curp.CurpCheckIgnoresCaseAndSpaces | static/js/validador.js:69 | case and white space do not change `curpCheck`'s answer |
| Curp.UpperCaseConcat | static/js/validador.js:69 | upper-casing a concatenation upper-cases each part |
| Curp.DotlessIAccepted | static/js/validador.js:68-79 | a CURP starting with dotless ı gets the same `curpCheck` answer as the one starting with I |
| Curp.LongSAccepted | static/js/validador.js:68-79 | a CURP starting with long ſ gets the same `curpCheck` answer as the one starting with S |
| Curp.SharpSAccepted | static/js/validador.js:68-79 | a value starting with ß gets the same `curpCheck` answer as the one starting with SS |
| Curp.FiLigatureAccepted | static/js/validador.js:68-79 | a value starting with the ligature ﬁ gets the same `curpCheck` answer as the one starting with FI |
| Email.CountOneAt | static/js/validador.js:28 | exactly one @ is the same as the @ at a position being the only one |
| Email.SplitAtOnlyAt | static/js/validador.js:29 | with one @, `split("@")` gives the text before and after it |
| Email.DomainLabels | static/js/validador.js:37-38 | the domain splits into fewer than two labels exactly when it has no dot; otherwise the last label is the text after the last dot |
| Email.LocalVerdictMeaning | static/js/validador.js:32-35 | the local-part tests pass exactly when it has 1 to 64 code units, no dot at either end, no two dots in a row and a letter |
| Email.DomainVerdictMeaning | static/js/validador.js:36-39 | the domain tests pass exactly when it has no two dots in a row, a dot, and 2 to 24 ASCII letters after the last dot |
| Email.CheckPartsMeaning | static/js/validador.js:30-40 | after the split at the only @, the remaining tests pass exactly when no character is white space and both parts pass their rules |
| Email.ValidateEmailMeaning | static/js/validador.js:26-42 | `validateEmailAdvanced` accepts exactly the addresses that have one @, a valid local part, a domain with a dot past its first character followed by a 2 to 24 letter top-level label and no two dots in a row, and no white space anywhere |
| Fields.NameCheckMeaning | static/js/validador.js:45-66 | `nameCheck` accepts exactly values whose trimmed form has at least 2 characters, only letters (accented, ñ, ü), white space, `'` or `-`, at least one letter, no two spaces in a row, and is not one character repeated 4 or more times once white space is removed |
| Fields.NameRulesMeaning | static/js/validador.js:47-65 | the tests on the trimmed value, in their order, accept exactly what the statement above describes |
| Fields.NameCharsAreBmp | static/js/validador.js:62 | a string of name characters has as many code units as characters |
| Fields.NameCheckTrimmed | static/js/validador.js:46 | trimming first does not change `nameCheck`'s answer |
| Fields.PhoneCheckDigitsOnly | static/js/validador.js:81-101 | only the digits of a value decide `phoneCheck` and `celularCheck` |
| Fields.CelularIsPhone | static/js/validador.js:81-101 | every value `celularCheck` accepts `phoneCheck` accepts too, and "3312345" shows the converse fails |

## Left out

- Transactions and row locks (`db.session.begin()`, `with_for_update()`) are not modelled as concurrency. Each operation is one sequential step, and a failure leaves every table unchanged.
- Clock and time zone: `datetime.now()` is the parameter `now`, and the JavaScript `Date` is read in the proleptic Gregorian calendar with no time zone.
- Midnight wrap of `datetime.time()`:
  - schedule rows are required to close at 00:30 or later (`HoursOk`, part of `Store.Valid`), so `close − 30` never wraps;
  - a step past 23:59 would wrap in the source; the model steps on whole minutes and stops at the last start.
- The read-only projections are not part of this model: `get_datos_comprobante`, `buscar_turno`, `buscar_turno_para_editar`, `buscar_turno_admin_para_editar` and `_get_catalogos_edicion`. They only copy joined rows into dicts.
- The catalog CRUD (`controllers/catalogo_controller.py`), the Flask routes, authentication and the admin script are not part of this model. They are web and database glue.
- Initial table contents: `Store.constructor` starts with no requesters, tickets or counters.
- The totals query of `get_stats_dashboard` is not modelled; it is a single GROUP BY. The grouped rows the loop reads are its input.
- `AdminQueries.SearchTicketsSpec`:
  - the order of tickets with equal appointment time is fixed by the insertion sort, whereas the database leaves it unspecified;
  - `%` and `_` in the query are taken as plain characters, not LIKE wildcards;
  - ILIKE case folding is ASCII only.
- `JsText.ToUpperCase`: characters outside ASCII other than ı, ſ, ß and the ligatures U+FB00 to U+FB06 are left as they are, whereas JavaScript upper-cases many of them (ñ to Ñ). Their upper case still holds a character outside ASCII, so the CURP patterns, which admit ASCII only, refuse them either way and `Curp.CurpDateCheckMeaning` and `Curp.CurpCheckMeaning` are exact.
- `TicketController.FindRequester`, `TicketController.CancelMatch`, `TicketController.EditAccepted`, `Ledger.QrTaken`, `Ledger.CurpsUnique` and `Ledger.QrUnique`: the CURP lookups and the UNIQUE constraints on `curp` and `codigo_qr` run in the database, which compares under the column's collation; MySQL's default collations ignore case (and trailing spaces). The model compares the strings exactly. So for a stored "AAAA010203HDFRRN09", a form with "aaaa010203hdfrrn09" finds that requester in the source and then fails at commit on `codigo_qr`, whereas the model adds a second requester and issues the ticket.
- `TicketController.Store.PublicCancel`: the cancel query has no ordering, so when several pending tickets match (reachable after `actualizar_turno` changes a CURP), the database picks one; the model fixes that choice as the lowest id, through `TicketController.FindPendingFrom`.
- `(value || "")` and missing form fields: the validators take a string, and the controller takes `Option` values for integer fields.
- Column widths and NOT NULL on text columns are not modelled, so a string longer than its column does not fail. The SmallInteger width of `numero_turno` and `ultimo_turno` is not modelled either: the counter is an unbounded integer.
- SQLAlchemy errors other than the constraint violations named in `IssueError` are left out, as are rollbacks of failed commits in the status operations.
- `crear_turno` returns an error string that the route treats as truthy. That is the route's concern: the model returns a `Result`.
- jQuery rule wiring, `submitHandler`, button state and `setTimeout` in `static/js/validador.js` are UI code and are not modelled.
- `print` and logging are not modelled.
- `Email.ValidateEmailMeaning` states when an address is accepted. It does not state which reason is reported for each rejected address; the order of the tests is in `Email.ValidateEmail` itself.
