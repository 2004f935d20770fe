# Room scheduler core, modelled in Dafny

This project models the core of the cu-rooms-app room scheduler:

- the booking overlap test, in its server form (`is_overlapping` in
  `app/utils/scheduler.py`, which strips the UTC offset and parses wall-clock
  times) and its browser form (`isOverlapping` in `app/static/calendar.js`,
  and the `select` callback that refuses an overlapping selection);
- the reservation handlers of `app/views/scheduler.py`: `event_select`
  creates a record, `event_drop` moves or resizes one, `event_delete`
  soft-deletes one, `event_data` lists the active events of a date range and
  `index` lists the current user's events sorted by start;
- the JSON encoding with `decimal_conversion` as fallback;
- identity and role resolution of the `User` class in `app/users.py`.

Modules, one per file:

| file | module | contents |
|---|---|---|
| wrappers.dfy | Wrappers | `Option` and `Result` |
| text.dfy | Text | the order Python uses on strings (code point by code point), with its laws |
| intervals.dfy | Intervals | the three-way conflict rule on integer instants and its laws |
| timestamps.dfy | Timestamps | dropping the offset, parsing `%Y-%m-%dT%H:%M:%S`, and an order-preserving integer for a date-time |
| overlap_py.dfy | OverlapPy | `is_overlapping`, including its parse failures |
| overlap_js.dfy | OverlapJs | `isOverlapping` as an index loop, and the `select` guard |
| json.dfy | Json | stored values, `decimal_conversion`, `json.dumps` with that fallback |
| store.dfy | Store | the scheduling table as a map from `(PK, SK)` to items, `update_item` with a `SET` expression, the two index queries, sorting by `start` |
| users.dfy | Users | `User.uni`, `dept`, `is_admin`, `is_dept_admin` |
| scheduler.dfy | Scheduler | the handlers: a specification function per handler and the class `SchedulingTable` whose methods are proved against them |

Choices made in the model:

- Times in the overlap rule are integers. The Python parse is modelled on the
  text: the last six characters are dropped and the remaining 19 must be a
  valid date-time with two-digit fields, except that the day may also be a
  space and a digit and the separator may be `T` or `t`; the parsed value is mapped to an integer that
  orders exactly as Python's `datetime` comparison does.
- `update_item` carries no condition, so on a missing key it creates an item
  holding the key and the written attributes. The model keeps this upsert.
- The current time (`get_timestamp`), the fresh id (`uuid4`) and the
  serializer's `loads` are parameters of the handlers; so is whether the store
  call raises in `event_select`, `event_drop` and `event_delete`.
- A JSON payload or form is a map from field name to text.

## Model

| member | source | states |
|---|---|---|
| Intervals.Conflicts | app/utils/scheduler.py:48-58 | definition (no contract): branch (a) start strictly inside, (b) end strictly inside, (c) the existing event within the new one, ends included |
| Intervals.ConflictsIffHalfOpen | app/utils/scheduler.py:48-58 | for intervals with start < end, the three-branch test holds exactly when `s1 < e2 && s2 < e1` |
| Intervals.ConflictsSymmetric | app/utils/scheduler.py:48-58 | for well-formed intervals, conflict does not depend on which one is the new booking, also for a one-event list |
| Intervals.SymmetryNeedsWellFormed | app/utils/scheduler.py:56-58 | an empty existing event at the new booking's start conflicts, but not the other way round: symmetry needs start < end |
| Intervals.TouchingDoNotConflict | app/utils/scheduler.py:48-56 | intervals sharing only an endpoint do not conflict, in either order |
| Intervals.IdenticalConflict | app/utils/scheduler.py:56-58 | identical intervals conflict through the containment branch |
| Intervals.ContainedProposalCaught | app/utils/scheduler.py:48-58 | a new booking inside an existing event conflicts, through the start branch when it starts strictly later |
| Intervals.EachBranchNeeded | app/utils/scheduler.py:48-58 | for each of the three branches there are intervals caught by that branch alone |
| Intervals.NoEventsNoConflict | app/utils/scheduler.py:44-60 | an empty list has no conflict |
| Intervals.AnyConflictOrderIrrelevant | app/utils/scheduler.py:44-60 | any reordering of the events gives the same answer |
| Intervals.AnyConflictMonotone | app/utils/scheduler.py:44-60 | adding events before or after never turns a conflict into none |
| Timestamps.WallClock | app/utils/scheduler.py:41-46 | `s[:-6]`: the stamp is the result followed by its last six characters; under six characters it is empty |
| Timestamps.DigitsValue | app/utils/scheduler.py:41 | a run of n decimal digits reads as a number below 10^n |
| Timestamps.DaysInMonth | app/utils/scheduler.py:41 | February has 29 days exactly in leap years and 28 otherwise; April, June, September and November have 30; the other months 31 |
| Timestamps.YearLength | app/utils/scheduler.py:41 | the month lengths add up to 366 days in a leap year and 365 otherwise |
| Timestamps.ParseWallClock | app/utils/scheduler.py:41 | parsing a 19-character text succeeds exactly for `YYYY-MM-DDTHH:MM:SS` with valid field values (separator `T` or `t`, day two digits or a space and a digit), and then returns those fields; otherwise a ValueError |
| Timestamps.Render | app/utils/scheduler.py:41 | the zero-padded `%Y-%m-%dT%H:%M:%S` reading of a valid date-time is 19 characters long |
| Timestamps.RenderParses | app/utils/scheduler.py:41 | parsing the zero-padded reading of any valid date-time gives that date-time back |
| Timestamps.ParseStamp | app/utils/scheduler.py:41-46 | a stamp under six characters fails; a parsed stamp has 25 characters and reads as the fields of its first 19 |
| Timestamps.OrdinalOrders | app/utils/scheduler.py:48-58 | the integer of a valid date-time orders, and equates, exactly as the date-times compare field by field |
| Timestamps.OffsetIgnored | app/utils/scheduler.py:38-46 | stamps that differ only in their six-character offset parse to the same value |
| Timestamps.ParseExample | app/utils/scheduler.py:41 | `2024-11-03T01:30:00` parses to 3 November 2024, 01:30:00 |
| Timestamps.LenientExample | app/utils/scheduler.py:41 | `2024-11- 3t01:30:00` also parses, to 3 November 2024, 01:30:00 |
| Timestamps.DifferentInstantsSameReading | app/utils/scheduler.py:38-46 | 01:30 at -04:00 and 01:30 at -05:00, an hour apart, compare equal |
| Timestamps.ShortStampRejected | app/utils/scheduler.py:41-42 | a stamp under six characters fails to parse |
| OverlapPy.ParseEvent | app/utils/scheduler.py:45-46 | an event parses exactly when both stamps parse, to the interval of their integers |
| OverlapPy.Scan | app/utils/scheduler.py:44-60 | False exactly when every event parses and none conflicts; True only with a parsed conflicting event; an error only after a failed parse; never an error when all parse |
| OverlapPy.ScanStopsAtFirst | app/utils/scheduler.py:44-60 | the scan stops at the first event that fails to parse or conflicts: True exactly when a conflicting event comes before any bad stamp, the error of the first bad stamp exactly when it comes before any conflict |
| OverlapPy.IsOverlapping | app/utils/scheduler.py:34-60 | a new event whose stamps do not parse raises that error; False exactly when the new event parses and every event parses and does not conflict with it |
| OverlapPy.ScanMeetsSpec | app/utils/scheduler.py:44-60 | when every event parses, the scan answers whether some event conflicts |
| OverlapPy.IsOverlappingMeetsSpec | app/utils/scheduler.py:34-60 | `is_overlapping` on parseable stamps answers whether some event's interval conflicts with the new one's |
| OverlapPy.EmptyListNoOverlap | app/utils/scheduler.py:44-60 | an empty list yields False |
| OverlapPy.ScanFindsWitness | app/utils/scheduler.py:48-58 | when every stamp parses, any conflicting event makes the scan answer True |
| OverlapPy.OverlapCarriesOver | app/utils/scheduler.py:44-60 | a True answer survives moving to any list whose stamps all parse and which contains the same parse results |
| OverlapPy.SameElementsSameScan | app/utils/scheduler.py:44-60 | two parseable lists with the same events give the same answer |
| OverlapPy.OrderIrrelevant | app/utils/scheduler.py:44-60 | a reordering of parseable events gives the same result |
| OverlapPy.AppendKeepsOverlap | app/utils/scheduler.py:44-60 | appending events never turns True into False, even unparseable ones |
| OverlapPy.OrderMattersWithBadStamp | app/utils/scheduler.py:44-50 | with an unparseable event, order decides between True and a ValueError |
| OverlapJs.IsOverlapping | app/static/calendar.js:1-41 | true exactly when some event conflicts; the same answer as the Python scan on the same integers |
| OverlapJs.OnSelect | app/static/calendar.js:92-116 | the overlap alert is shown exactly when the selection overlaps; a create request is sent exactly when there is no overlap and the user confirms, for exactly the selection and resource |
| Json.Truncate | app/utils/scheduler.py:20 | `int()` of a number: the integer next to it toward zero |
| Json.DecimalConversion | app/utils/scheduler.py:14-21 | succeeds exactly on numbers, with the value truncated toward zero; otherwise a TypeError with the type's name in the message |
| Json.DecimalConversionExact | app/utils/scheduler.py:19-20 | a whole number converts to itself |
| Json.Dump | app/views/scheduler.py:128-129 | a value encodes exactly when it and everything inside it is text, number, boolean, null or list |
| Json.DumpAll | app/views/scheduler.py:128-129 | a list encodes exactly when every element does, to a list as long |
| Json.DumpRoundTrip | app/views/scheduler.py:128-129 | reading back an encoded value with whole numbers gives the value |
| Json.DumpAllRoundTrip | app/views/scheduler.py:128-129 | the same for a list of values |
| Json.FractionRoundsTowardZero | app/utils/scheduler.py:19-20 | 2.5 reads back as 2 and -2.5 as -2 |
| Json.DumpItem | app/views/scheduler.py:128-129 | an item encodes exactly when all its attributes do, with the same attribute names, each attribute's text being the encoding of its value |
| Json.DumpItemRoundTrip | app/views/scheduler.py:128-129 | an item whose attributes are all text, booleans, null or whole numbers encodes, and loading each encoded attribute gives the item back |
| Store.Targets | app/views/scheduler.py:194-202 | every clause's attribute, `#` names resolved, is among those the update writes |
| Store.Apply | app/views/scheduler.py:194-202 | applying the clauses adds exactly the written attributes and leaves the others unchanged |
| Store.Base | app/views/scheduler.py:194-195 | an update starts from the stored item when the key is stored, and otherwise from an item holding only the key |
| Store.UpdateItem | app/views/scheduler.py:194-202 | an update touches only its key, may add it, and keeps every item carrying its own key; the keyed item becomes its stored item (or a bare key item) with the `SET` clauses applied in order |
| Store.TargetsAreClauseTargets | app/views/scheduler.py:194-202 | every attribute a `SET` expression writes is the target of one of its clauses |
| Store.ApplyWritesLastValue | app/views/scheduler.py:194-202 | after a `SET` expression, an attribute holds the value of the last clause that names it |
| Store.Matches | app/views/scheduler.py:58-64 | definition (no contract): `OwnedBy` selects items whose `uni` is the user's; `ActiveEventsStarting` selects `EVENT` items with a text `start` between the bounds inclusive and `active` true (lines 107-120) |
| Text.Less | app/views/scheduler.py:67 | definition (no contract): strings compare code point by code point, a proper prefix first |
| Text.LessTotal | app/views/scheduler.py:67 | Python's string order is total: of two different strings, one is less |
| Text.LessTransitive | app/views/scheduler.py:67 | Python's string order is transitive |
| Text.LessAsymmetric | app/views/scheduler.py:107-120 | no two strings are each less than the other |
| Store.DistinctKeysDistinctItems | app/views/scheduler.py:58-64 | in a table whose items carry their own key, items under different keys differ |
| Store.Insert | app/views/scheduler.py:67 | inserting into a list sorted by start keeps it sorted and adds exactly that item |
| Store.SortByStart | app/views/scheduler.py:67 | `sorted(items, key=itemgetter('start'))` on text starts: sorted, and a permutation of its input |
| Scheduler.HttpCode | app/views/scheduler.py:177-178 | each outcome's status code, 200 only on success; the drop handlers' codes are stated through it in `DropCodes` and `OwnedDropCodes` |
| Scheduler.NewEvent | app/views/scheduler.py:218-230 | the created item carries its key `EVENT` / resource `#` fresh id, exactly the eleven attributes of the source, title and owner the current user, `active` true, and each payload field as text or `None` when absent |
| Scheduler.SelectOutcome | app/views/scheduler.py:210-238 | `event_select` answers 200 or 500, 500 exactly on a store error and then with nothing written; on success the table gains the new key |
| Scheduler.DropOutcome | app/views/scheduler.py:161-207 | `event_drop` as written writes nothing unless it answers 200, and then the key set gains at most the payload's key; a request naming the current user, with every field and both keys present, answers 200 unless the store raises, and past those checks it answers 500 exactly when a key is missing or the store raises; without a `uni` it answers 500 |
| Scheduler.OwnedDropOutcome | app/views/scheduler.py:161-207 | the drop with the stored-owner test writes nothing unless it answers 200, and then only when the current user owns the stored record, with the key set unchanged; for an owned record with all fields present it answers 200 when the store does not raise and 500 when it does; a record the user does not own is refused with 403 |
| Scheduler.DeleteOutcome | app/views/scheduler.py:241-265 | `event_delete` answers 400 with nothing written, or redirects after an update of the unsigned key; with both keys present and validly signed and no store error it redirects; a store error gives 400 and leaves the table unchanged |
| Scheduler.DropUpdateAccepted | app/views/scheduler.py:180-190 | the drop expression is the fixed text, extended by the resource clauses exactly when `newResourceId` is sent; every placeholder has a value and every value is used; no key attribute is written |
| Scheduler.DropTargets | app/views/scheduler.py:180-202 | a drop writes `start`, `end`, `changedOn`, and `resourceId`, `resourceName` exactly when moving resource |
| Scheduler.DropEntriesUsed | app/views/scheduler.py:180-202 | the drop's value and name maps match its placeholders and `#` names |
| Scheduler.Moved | app/views/scheduler.py:180-202 | a moved record has the new times and change stamp, the new resource when one is sent, and every other attribute as before |
| Scheduler.DropApplies | app/views/scheduler.py:180-202 | the clauses the drop sends have exactly the effect `Moved` describes |
| Scheduler.DropUpdateEffect | app/views/scheduler.py:180-202 | the drop update rewrites the keyed record as `Moved`, creating it from its key when missing, and leaves every other record as it was |
| Scheduler.BuildDropUpdate | app/views/scheduler.py:180-190 | the expression, the placeholder values and the names built step by step are the drop update |
| Scheduler.DropCodes | app/views/scheduler.py:161-207 | `event_drop` as written answers 200 exactly for the current user's own name with every field and key present and no store error, 403 exactly for another name, and 500 otherwise |
| Scheduler.OwnedDropCodes | app/views/scheduler.py:161-207 | with the stored-owner test: 200 exactly for the owner with every field present and no store error, 403 exactly for a non-owner, 500 otherwise |
| Scheduler.DropRefusalWritesNothing | app/views/scheduler.py:177-178 | a drop that does not succeed leaves the table unchanged; it is refused with 403 exactly when the payload's `uni` is not the current user's; a store error past the checks answers 500 and writes nothing |
| Scheduler.DropChangesOnlyItsFields | app/views/scheduler.py:174-207 | a successful drop rewrites the keyed record as `Moved` (creating it if missing) and no other record |
| Scheduler.OwnedDropOnlyMovesOwnRecords | app/views/scheduler.py:177-178 | with the stored owner checked, a drop succeeds exactly when the current user owns the existing record, every field is present and the store does not raise; the record stays theirs and nothing is created |
| Scheduler.DropByNonOwnerSucceeds | app/views/scheduler.py:177-207 | as written, any user naming itself in the payload moves a record another user owns, which keeps its owner and takes the new start; the stored-owner check refuses the same request |
| Scheduler.NonOwnerDropExample | app/views/scheduler.py:177-207 | concretely: `u2` moves `u1`'s record `r1#a`, which stays `u1`'s |
| Scheduler.DeleteUpdate | app/views/scheduler.py:256-260 | the delete update is `SET active = :f` on the given key, and the store accepts it |
| Scheduler.DeleteEffect | app/views/scheduler.py:254-260 | the delete update sets `active` to false on the keyed record and changes nothing else |
| Scheduler.DeleteOnlyDeactivates | app/views/scheduler.py:247-265 | the answer redirects exactly when both keys are present and validly signed and the store does not raise, and then only `active` of the keyed record becomes false; a missing field, a bad signature or a store error gives 400 and no write; no owner is checked |
| Scheduler.DeleteIdempotent | app/views/scheduler.py:254-260 | deleting twice is deleting once |
| Scheduler.DeletedNotListed | app/views/scheduler.py:107-120 | a deleted record is not selected by the calendar's event query |
| Scheduler.SelectCreatesOwnedActiveRecord | app/views/scheduler.py:213-238 | a created record is keyed `EVENT` / resource `#` fresh id, titled and owned by the current user, active, with empty `changedOn`; nothing else changes |
| Scheduler.SelectAdmitsDoubleBooking | app/views/scheduler.py:232-238 | no overlap is checked: booking the same room and slot twice leaves two active records with the same times |
| Scheduler.SelectWithoutLogin | app/views/scheduler.py:213-226 | without a login the record is owned by `None` |
| Scheduler.CreatedRecordsEncode | app/views/scheduler.py:218-230 | every created record encodes as JSON |
| Scheduler.DumpRows | app/views/scheduler.py:128-129 | the rows encode exactly when every row does, row by row |
| Scheduler.SchedulingTable.EventSelect | app/views/scheduler.py:210-238 | puts the new record, or answers 500 on a store error, exactly as `SelectOutcome` says |
| Scheduler.SchedulingTable.EventDrop | app/views/scheduler.py:161-207 | builds the expression and values step by step and updates exactly as `DropOutcome` says |
| Scheduler.SchedulingTable.EventDropOwned | app/views/scheduler.py:161-207 | the drop with the stored-owner test, exactly as `OwnedDropOutcome` says |
| Scheduler.SchedulingTable.EventDelete | app/views/scheduler.py:241-265 | unsigns both keys and deactivates exactly as `DeleteOutcome` says |
| Scheduler.RunQuery | app/views/scheduler.py:58-64 | a query returns exactly the items under matching keys, each once |
| Scheduler.SchedulingTable.EventData | app/views/scheduler.py:72-129 | redirects without querying when a bound is missing; otherwise the active `EVENT` records whose start lies within the bounds inclusively, sorted by start, each once, followed by the not-available items, encoded exactly when every row encodes |
| Scheduler.SchedulingTable.Index | app/views/scheduler.py:53-69 | the current user's records, each once, sorted by start; an error exactly when some record lacks `start`, or starts that are not all text must be compared |
| Scheduler.SortedKeepsElements | app/views/scheduler.py:67 | a permutation of a list without repeats has the same elements and no repeats |
| Users.Uni | app/users.py:52-67 | the constructor's uni if given; otherwise the session's CAS name when logged in, else the four-character string `"None"`, not Python's `None` |
| Users.Dept | app/users.py:69-90 | definition (no contract): with a login or a given uni, the first record's sort key, or empty without records; empty otherwise |
| Users.IsAdmin | app/users.py:92-109 | definition (no contract): with a login or a given uni, whether the first record's sort key is `ADMIN`; false otherwise |
| Users.IsDeptAdmin | app/users.py:111-128 | definition (no contract): with a login or a given uni, whether the first record's `type` is `Staff` or `Chair`, a KeyError when it has none, false without records; false otherwise |
| Users.GivenUniIgnoresSession | app/users.py:61-67 | a uni given at construction is returned whatever the session |
| Users.AnonymousDefaults | app/users.py:69-128 | with no login and no uni: uni `None`, empty department, not admin, not department admin, whatever the store holds |
| Users.IsAdminIffAdminDept | app/users.py:92-105 | `is_admin()` exactly when `dept` is `ADMIN` |
| Users.DeptIsFirstRecord | app/users.py:69-128 | `dept` is the first record's sort key or empty; `is_dept_admin()` raises exactly when the first record lacks `type`, and is true exactly when it is `Staff` or `Chair` |

## Left out

- Weekly booking quotas: no code in the repository enforces one.
- Flask routing, the request and session objects, `redirect`, `abort` and `jsonify`: handlers take the payload, session and failure flags as parameters and answer a status.
- DynamoDB itself: indexes, pagination, capacity and the wire format are not modelled; the table is a map, a query is a filter over it.
- The read-then-write race between the browser's overlap check and the create request, and between concurrent drops and deletes: the model is sequential.
- itsdangerous signing: `loads` is a parameter that returns a value or fails.
- `arrow`, `moment` and time zones: the current time is a parameter; `get_timestamp`, `datetime_to_EST` and `get_local_ISO_timestamp` are not modelled.
- Timestamps.ParseWallClock: only 19-character readings are modelled; `strptime` also accepts shorter forms (single-digit month, hour, minute or second fields), and digits of other scripts wherever the format reads `\d`, which the model rejects.
- OverlapJs.IsOverlapping: `moment` parsing is not modelled; the events arrive as integer instants, so the browser never meets a parse failure in the model.
- `natmultisort`: a wrapper over the `natsort` library, whose code is not part of this model.
- The FullCalendar interface after line 41 of `app/static/calendar.js` other than the `select` guard: dialogs, AJAX, drag and drop, the idle timer. The browser posts to `event_create` and `event_modify` while the server routes are `event_select` and `event_drop`; the model follows the server.
- `resource_data` (app/views/scheduler.py:132-158), the admin views, the logger and the app wiring: outside the modelled core.
- The `decimal_conversion` in app/views/scheduler.py:36-43 is the same function as the one in app/utils/scheduler.py:14-21 and is modelled once, as Json.DecimalConversion.
- Store.UpdateItem: the store's parse of the `UpdateExpression` text is not modelled; a request carries the clauses its text spells, and the drop and delete requests carry their fixed texts alongside those clauses.
- OverlapPy.ParseEvent: an event is a pair of texts; an existing event without `start` or `end` (a `KeyError` at app/utils/scheduler.py:45-46) and a new event whose `start` or `end` is missing or not text (a `TypeError` at lines 41-42) are not modelled.
- Json.Dump: stored map attributes are not modelled; `json.dumps` writes a dict itself, recursing into its values, so an item holding a map attribute encodes when all the map's values do, which `Value` cannot express.
- Payload values other than text: a payload field is text or missing.
- Scheduler.SchedulingTable.EventData / Index: a query or scan that raises (answered 500 by the source) is not modelled; the store calls of these two handlers always return.
- Scheduler.SchedulingTable.EventData: the not-available items come from a scan of an index whose key schema the code does not show; they are a parameter, appended unchanged.
- Scheduler.SchedulingTable.Index: Python compares numbers with numbers and booleans without error; the model answers an error whenever two or more selected records do not all have text starts.
- Scheduler.SchedulingTable.EventData: the store orders the start index by the bytes of the start text; the model sorts by code points with a stable sort, which orders the same way but may place records with equal starts differently.

## Findings

| source | as written | input that shows it | evidently intended | confidence | as-written member | corrected member |
|---|---|---|---|---|---|---|
| app/views/scheduler.py:177 | the ownership test compares the `uni` field of the request body with the current user | user `u2` posts a drop of `u1`'s record with `uni: "u2"` in the body; the record is moved and still belongs to `u1` | compare the current user with the `uni` of the stored record, as the 403 message "You can only modify your own reservations." says | high (not executed) | Scheduler.DropOutcome, Scheduler.DropByNonOwnerSucceeds | Scheduler.OwnedDropOutcome, Scheduler.OwnedDropOnlyMovesOwnRecords, Scheduler.SchedulingTable.EventDropOwned |
