# Team calendar timetable engine

A Dafny model of the `TeamCalendar` component of EduTracTeamCalendar. The component is a Trac page. It shows each project member's availability per day over a date range, and it lets members edit their own availability. Members who may update both their own and others' availability can edit every project member's.

The model covers four parts of the component:

- **Range resolution** (`Interval`). The default range runs from the Monday `weeks_prior` weeks before the current ISO week to the Sunday `weeks_after` weeks after it. A requested range is kept only when it runs forwards and spans at most 60 days.
- **The grid** (`Timetable.GetTimetable`). Every date of the range gets every project member's work-week default. The project's stored rows for the range then overwrite it.
- **The edit batch** (`Timetable.BuildBatch`). This is one `(date, user, value)` triple per date of the edited range, for each member or for the requester alone.
- **Reconciliation** (`Reconcile.UpdateTimetable`). The batch is quantized to hundredths. Its distinct users are collected. The batch is matched against the stored rows of those users in the range (the "collision set"), using the parallel `tuples`/`keys` lists. What remains is written in one transaction: new cells are inserted and changed cells are updated.

`TeamCalendar.ProcessRequest` chains these parts the way the request handler does. It also handles the two permission checks.

The model's representations:

- **Dates** are proleptic Gregorian ordinals, so day 1 is Monday 0001-01-01, and `weekday(d) = (d + 6) % 7`.
- **Availabilities** are integers in hundredths.
- **A submitted decimal** is `Dec(digits, places)`, standing for `digits / 10^places`. Quantizing it to two places rounds half to even, which is the rounding of the default decimal context.
- **The `team_availability` table** is a `Store` object. Its `rows` field maps the primary key (project, date, user) to the availability. `Store.Valid()` is the table's check constraint `0 <= availability <= 1`.
- **The two SELECTs** are `Store.Select`.
- **The write transaction** is `Store.Apply`. A check-constraint or primary-key violation rolls it back entirely. The table's two foreign keys are not modelled (see "Left out").
- **`today`, the project's member list and the configuration options** are parameters.

## Model

| member | source | states |
|---|---|---|
| Interval.FindDefaultStart | teamcalendar/web_ui.py:278-281 | the default start is a Monday, and it lies in the ISO week that holds the day `7*weeks` days before today; for `weeks >= 0` it is not after today |
| Interval.FindDefaultEnd | teamcalendar/web_ui.py:283-286 | the default end is a Sunday, and it lies in the ISO week that holds the day `7*weeks` days after today; for `weeks >= 0` it is not before today |
| Interval.DefaultsByWeek | teamcalendar/web_ui.py:278-286 | each week of `weeks_prior` moves the start back exactly 7 days; each week of `weeks_after` moves the end forward 7 days; with no weeks the range is one Monday-to-Sunday week |
| Interval.ResolveRange | teamcalendar/web_ui.py:88-107 | a missing argument takes its default; the range is kept exactly when `0 <= to - from <= 60`; otherwise both ends become the defaults, with a negative-interval warning when `to < from` and a too-big warning when the span exceeds 60 |
| Interval.ResolvedRangeIsOrdered | teamcalendar/web_ui.py:93-107 | with non-negative week options a resolved range never runs backwards, and a range reset to the defaults holds today |
| Dates.Weekday | teamcalendar/web_ui.py:190 | `date.weekday()`: the weekday of a date is in 0..6 |
| Dates.IsoWeekday | teamcalendar/web_ui.py:280 | `date.isoweekday()`: the ISO weekday is in 1..7 and is one more than `weekday()` |
| Dates.WeekdayAfter | teamcalendar/web_ui.py:278-286 | the weekday `n` days after `d` is `(weekday(d) + n) mod 7` |
| Dates.WeekdayShiftWeeks | teamcalendar/web_ui.py:278-286 | whole weeks do not change the weekday |
| Decimals.RoundHalfEven | teamcalendar/web_ui.py:21 | rounding the quotient of the default context, half to even: the result is the floor of the exact quotient or one more |
| Decimals.Quantize | teamcalendar/web_ui.py:210 | `quantize(TWOPLACES)` in hundredths keeps the sign of the submitted value |
| Decimals.RoundHalfEvenNearest | teamcalendar/web_ui.py:21 | integer division rounded half to even is within half a unit of the exact quotient, exact when the division is, and even on a tie |
| Decimals.QuantizeNearest | teamcalendar/web_ui.py:209-210 | the quantized hundredths are within half a hundredth of the submitted value, exact for values with at most two places, and even on a tie |
| Decimals.QuantizeExact | teamcalendar/web_ui.py:209-210 | a value with two places or fewer is scaled to hundredths without rounding |
| Decimals.QuantizeUnitInterval | teamcalendar/db_default.py:14 | a submitted value between 0 and 1 quantizes into the check constraint's range 0..100 |
| Timetable.DefaultAvailability | teamcalendar/web_ui.py:183-193 | a member's default for a date meets the check constraint, and is the full day exactly when the date's weekday is a configured work day |
| Timetable.DefaultTimetable | teamcalendar/web_ui.py:183-194 | the grid has a day for every date from `from` to `to` and for no other date; every member has each day's weekday default of 100 on a work day and 0 otherwise |
| Timetable.GetTimetable | teamcalendar/web_ui.py:172-200 | after the overlay the grid still covers exactly the range; a day holds a user exactly when the user is a member or has a stored row that day; a stored row's cell holds its stored value; a member without a stored row keeps the weekday default |
| Timetable.Submitted | teamcalendar/web_ui.py:140 | a cell's submitted value is its form field, and a zero decimal when the field is absent |
| Timetable.EditBatch | teamcalendar/web_ui.py:134-145 | an edit is in the batch exactly when its date is in the edited range, its value is its cell's submitted field, and its user is a project member when the requester may update others, or the requester when they may update only their own; otherwise the batch is empty |
| Timetable.RangeEditsLength | teamcalendar/web_ui.py:137-145 | the batch has one triple per date of the range and user |
| Timetable.RangeEditsContents | teamcalendar/web_ui.py:137-145 | a triple is in the batch exactly when its date is in the range, its user is listed and its value is that cell's submitted field (0 when absent); with distinct users no two triples share a cell |
| Timetable.EditBatchCells | teamcalendar/web_ui.py:134-145 | with distinct members the batch has one triple per cell, and every triple's date is in the edited range |
| Timetable.BuildBatch | teamcalendar/web_ui.py:134-145 | the loop builds every member's triples when the requester may update others, else the requester's only when they may update their own, else none |
| Reconcile.QuantizeBatch | teamcalendar/web_ui.py:209-210 | every value is quantized to hundredths; dates, users, length and order are kept |
| Reconcile.CollectUsers | teamcalendar/web_ui.py:215-218 | the user list has no duplicates, holds exactly the batch's usernames, and lists them in order of first occurrence |
| Reconcile.Diff | teamcalendar/web_ui.py:228-253 | with distinct cells in the batch and in the collision set, an entry equal to a stored row is dropped; an entry whose cell is stored with another value goes to `updates` only; an entry whose cell is not stored goes to `inserts` only; both lists keep distinct cells; the stored rows whose cell is not in the batch are exactly the logged ones |
| Reconcile.CollisionCells | teamcalendar/web_ui.py:219-226 | because every entry's user is in the user list, the collision set holds an entry's cell exactly when that key is stored within the range, and holds the entry itself exactly when the stored value is also the same |
| Reconcile.WriteSetAdmissible | teamcalendar/web_ui.py:255-276 | the transaction commits exactly when every quantized value is in 0..100 and no entry hits a stored key outside the edited range (such an entry would be inserted over an existing primary key) |
| Reconcile.WriteSetWritten | teamcalendar/web_ui.py:255-276 | after the inserts and then the updates, every batch key holds its entry's value, the batch's keys are added, and every other row is unchanged |
| Reconcile.WriteSetEmpty | teamcalendar/web_ui.py:228-253 | nothing is inserted or updated exactly when every entry is already stored, within the range, with its value |
| Reconcile.WriteSetSplit | teamcalendar/web_ui.py:228-276 | an entry is INSERTed exactly when its key is not stored within the edited range, and UPDATEd exactly when it is stored there with another value; nothing else is written |
| Reconcile.Classify | teamcalendar/web_ui.py:209-253 | the quantized batch and the collision set hold the facts the write-set lemmas need: each entry is its edit quantized, the collision set holds exactly the matching stored rows, and the two lists partition the entries not already stored |
| Reconcile.PlanWrites | teamcalendar/web_ui.py:209-253 | the write set, stated on the submitted batch and the table: when the transaction on it commits, what it then writes, when it is empty, and which edit is INSERTed and which UPDATEd |
| Reconcile.UpdateTimetable | teamcalendar/web_ui.py:202-276 | the same facts, stated on the store before and after: when it commits, when it commits what, when it writes nothing, which edit was INSERTed and which UPDATEd; on a rollback the store is unchanged; an empty write set commits and changes nothing |
| Store.Store.Select | teamcalendar/web_ui.py:173-181 | the SELECT returns every matching row once, with its stored value, and nothing else |
| Store.Matches | teamcalendar/web_ui.py:178-179 | the WHERE clauses of both SELECTs: the row is the project's, dated within the range, and, when a user list is given, for one of its users (lines 223-225) |
| Store.Store.Apply | teamcalendar/web_ui.py:255-276 | the transaction commits exactly when the INSERT breaks neither the primary key nor the check constraint and no UPDATE breaks the check constraint; then the table is the inserts followed by the updates, and otherwise it is unchanged |
| Store.InsertsAdmissible | teamcalendar/db_default.py:7-14 | the multi-row INSERT succeeds when no two rows share a cell, no row hits a stored primary key and every row meets the check constraint |
| Store.UpdatesAdmissible | teamcalendar/db_default.py:14 | the UPDATEs succeed when every row they change meets the check constraint |
| Store.InsertAll | teamcalendar/web_ui.py:257-266 | the multi-row INSERT adds exactly the batch's keys and leaves every other row alone |
| Store.InsertAllValues | teamcalendar/web_ui.py:257-266 | with one row per cell, each inserted key holds its row's value |
| Store.InsertAllSnoc | teamcalendar/web_ui.py:257-266 | inserting one more row adds exactly that row |
| Store.InsertAllInScale | teamcalendar/db_default.py:14 | an admissible INSERT into a table that meets the check constraint leaves a table that meets it |
| Store.UpdateAll | teamcalendar/web_ui.py:268-276 | the UPDATEs keep the key set and change only keys of the batch |
| Store.UpdateAllValues | teamcalendar/web_ui.py:268-276 | with one row per cell, every UPDATE of a stored key sets its row's value |
| Store.UpdateAllSnoc | teamcalendar/web_ui.py:270-276 | one more UPDATE changes its key when that key is stored, and nothing otherwise |
| Store.UpdateAllInScale | teamcalendar/db_default.py:14 | admissible UPDATEs of a table that meets the check constraint leave a table that meets it |
| Store.InsertsAdmissibleSnoc | teamcalendar/web_ui.py:257-266 | an admissible INSERT stays admissible with one more row exactly when that row's key is new and its value is in scale |
| Store.InsertRows | teamcalendar/web_ui.py:257-266 | on a working copy, the INSERT succeeds exactly when it is admissible, and then yields `InsertAll` |
| Store.UpdateRows | teamcalendar/web_ui.py:268-276 | on a working copy, the UPDATEs succeed exactly when every changed row is in scale, and then yield `UpdateAll` |
| Lists.IndexOf | teamcalendar/web_ui.py:236-241 | `list.index` returns the first position holding the element |
| Lists.RemoveAt | teamcalendar/web_ui.py:236-243 | deleting a position shifts the later elements down by one and keeps the earlier ones |
| TeamCalendar.Flatten | teamcalendar/web_ui.py:153-157 | the page's day list has one row per date of the range, in date order, each holding that date's grid day |
| TeamCalendar.ReadPage | teamcalendar/web_ui.py:150-157 | the shown days are the range's dates in order, each as the store determines it |
| TeamCalendar.ProcessRequest | teamcalendar/web_ui.py:76-157 | without the view permission the request is refused; an update without the update-own permission is refused; either refusal leaves the store untouched; a plain view shows the resolved range; an update rolls back exactly when a submitted value quantizes outside 0..100; otherwise it writes the batch and shows the edited range read back from the store; the page reports the resolved range, today and the permission flags |
| TeamCalendar.Resubmit | teamcalendar/web_ui.py:202-276 | submitting a committed batch again, for a range holding all its dates, commits with no INSERT and no UPDATE |

## Left out

- Trac glue is not modelled: navigation items, permission-action registration, template and static directories, `match_request`, `check_component_enabled`, stylesheets, scripts and the template name. None of it touches the calendar's data.
- Permission checks become booleans. `req.perm.require` becomes the `Forbidden` outcome, and its exception is not modelled.
- Parsing is not modelled. Request arguments arrive already parsed: dates as ordinals, form fields as `Dec` values. `parse_date_only`, `Decimal(str)` and their errors are not modelled.
- `Decimal` NaN, infinities, signed zero and the 28-digit context precision are not modelled. `Dec` is an exact rational with a power-of-ten denominator.
- Date bounds are not modelled. Ordinals are unbounded, so `OverflowError` near `date.min` and `date.max` never occurs.
- `ProcessRequest` takes `today` and the project member list as parameters. `date.today()` and `get_project_users` are host calls.
- Warning text is not modelled. `add_warning`'s text, `pretty_timedelta` and `log.info` become the `RangeWarning` values and `Diff`'s `inconsistent` list.
- Row order is not modelled. `Store.Select` returns rows in an unspecified order, so `ORDER BY` is not modelled. With unique keys the grid does not depend on the order.
- The collision query's `username IN ()`, emitted when the batch is empty, is treated as matching nothing. The model does not capture the SQL error that some databases raise for it.
- The foreign keys from `project_id` to `projects` and from `username` to `users`, with their cascades, are not modelled. The model assumes that every user in a batch has a `users` row and the project a `projects` row, so `Store.Store.Apply`, `Reconcile.UpdateTimetable` and `TeamCalendar.ProcessRequest` commit where the INSERT would fail on a missing one. The tables they point to are not part of this model.
- The transaction's rollback is modelled as working on a copy of the table. The exception it raises out of the request becomes the `Rollback` outcome.
- Reconcile.UpdateTimetable: requires a batch with one triple per cell. Without it, the parallel `tuples`/`keys` lists can match different entries, and the model does not capture what happens then. Every batch the request handler builds meets the requirement, as `Timetable.EditBatchCells` shows.
- Reconcile.Diff: requires distinct cells in the batch and in the collision set, for the same reason. The store's primary key guarantees the latter.
- TeamCalendar.ProcessRequest: requires the project member list to have no duplicate names.
- Reconcile.QuantizeBatch: builds a new list rather than overwriting `tuples[idx]` in place. Nothing else holds the list while it is rewritten.
- The per-day dictionaries that `get_timetable` copies are map values, so the copying does not show up in the model.
