# School timetable: the assignment table and its conflict rules

This project models the core of a school timetabling server. It keeps a table of entries. Each entry puts
one class, one subject and one teacher into one period on one day of the week. Two uniqueness rules guard
the table:

- a class holds at most one entry per (period, day);
- a teacher holds at most one entry per (period, day).

The server exists in two forms, and both are modelled.

- **The database-backed controller** is `Controllers.TimetableController`, a class whose sequence fields
  stand for the repositories.
  - `findOne` / `find` become the first match in storage order.
  - `save` of a new entry appends it under an auto-increment counter.
  - `remove` splices the entry out.
  - The storage layer enforces the class rule, and deleting a referenced row cascades to its entries.
  - The controller checks the class rule and then the teacher rule before every write.
  - Its teacher check fails closed: a failing lookup counts as a conflict.
- **The in-memory server** is `SimpleServer.Server`, a class holding the five arrays that the handlers
  mutate in place.
  - New records get the id `length + 1`.
  - PUT replaces the record at the found index.
  - Deleting a class, subject, teacher or period is refused with 400 while an entry references it.

Modules:

- `Entities`: the stored records and lookup by id.
- `TimetableModel`: the entry record, the two uniqueness rules and distinct entry ids as one `Rule` type, first-match lookup, the storage cascade, and referential integrity.
- `Request`: request bodies with JavaScript truthiness, and replies with their status codes.
- `Schedule`: the nested loops that build the class, teacher and weekday grids.
- `Controllers`: the database-backed controller.
- `SimpleServer`: the in-memory server.

What is proved:

- Every handler states when it answers 400, 404, 409 or success, in both directions. The check order is part of the contract: a create reports a class clash before a teacher clash, while an update reports a clash of a given teacher before it looks at the day.
- A rejected request leaves every table unchanged.
- A successful request changes exactly the record it names.
- Every handler keeps referential integrity.
- The database controller keeps entry ids distinct and below the counter, and keeps the class rule. It keeps the teacher rule whenever the table kept it before.
- A database update never changes an entry's class or period.
- When an update moves an entry to a given day, it checks both rules against the new day. When both the teacher and the day change, the day's teacher check reads the new teacher.
- The storage cascade keeps integrity and both rules.
- The grids have 7 × |periods| cells, or |classes| × |periods| for the weekday grid. Each cell is filled exactly when a matching entry exists, and then shows the names of the first matching entry, as `find` returns it. Under the class rule, a class-week cell and a weekday-grid cell show the one entry of the class booked there; under the teacher rule, a teacher-week cell shows the one entry of the teacher booked there.
- In the in-memory server, ids can repeat. `SimpleServer.RepeatedIdScenario` drives the handlers from an empty server:
  - post two entries, which get ids 1 and 2;
  - delete id 1;
  - post again: the new entry also gets id 2;
  - PUT to id 2: the clash checks skip both entries with id 2, and the PUT overwrites the first of them.

  The table then holds two entries with the same id, class, teacher, period and day. So the in-memory PUT keeps the rules only while ids are distinct, and its contract says exactly that.

Where the code does less than its own comments say, the model follows the code:

- The `dayOfWeek` column is commented as 1 to 7, Monday to Sunday (server/src/models/Timetable.ts:30), but only the weekday grid checks the range. Create and update accept any number.
- The update's comment speaks of checking both rules "if day changes" (server/src/controllers/TimetableController.ts:297). The code re-runs the teacher check whenever a teacher id is given, and both checks whenever a day is given, even when the value equals the stored one.
- A create or update body's `dayOfWeek` only has to be present, so day 0 passes. The four ids must be truthy, so id 0 counts as missing.
- A teacher check whose exclusion id is falsy excludes nothing.
- The in-memory server answers 409 without the conflicting entry. It refuses to delete referenced entities where the database cascades.

## Model

| member | source | states |
|---|---|---|
| Entities.IndexOfId | server/src/index-simple.js:57-60 | `findIndex` by id: -1 exactly when no record has the id, otherwise the first index holding it |
| Entities.NameOf | server/src/index-simple.js:390 | the name of the first record carrying the id (`find` by id) |
| Entities.Names | server/src/index-simple.js:416 | the names of the records, one per record, in order |
| Entities.RemoveId | server/src/models/Timetable.ts:13-27 | a delete by primary key: every remaining record is one of the stored records and does not carry the id, every stored record not carrying the id remains, and so every other id is still stored |
| Entities.AppendKeepsIds | server/src/index-simple.js:45 | appending a record keeps every id already stored |
| Entities.ReplaceKeepsIds | server/src/index-simple.js:70 | replacing a record by one with the same id keeps the set of stored ids |
| Entities.SpliceKeepsOtherIds | server/src/index-simple.js:90 | splicing out one record keeps every id other than its own |
| TimetableModel.Find | server/src/controllers/TimetableController.ts:103-106 | `findOne` over the table: some result exactly when some entry matches, and then the first match |
| TimetableModel.FindNoneIffClashFree | server/src/controllers/TimetableController.ts:194-203 | a clash lookup finds nothing exactly when no entry it does not skip collides with the candidate |
| TimetableModel.EntryIndex | server/src/index-simple.js:592-595 | `findIndex` over the table: -1 exactly when no entry has the id, otherwise the first such index |
| TimetableModel.AppendKeepsRule | server/src/index-simple.js:536-566 | appending an entry that collides with no stored entry keeps a uniqueness rule |
| TimetableModel.ReplaceKeepsRule | server/src/index-simple.js:607-638 | overwriting one index with an entry that collides with no other index keeps a rule |
| TimetableModel.SpliceKeepsRule | server/src/index-simple.js:655-661 | removing one entry keeps every rule |
| TimetableModel.SpliceLeavesOthers | server/src/controllers/TimetableController.ts:356-364 | removing the found entry keeps the others in order, and under distinct ids none of them carries the removed id |
| TimetableModel.SameSlotStaysClear | server/src/controllers/TimetableController.ts:259-281 | an entry that a rule cannot tell apart from a stored entry collides with no entry of another id, so an update that changes neither teacher nor day keeps the rules |
| TimetableModel.Only | server/src/index-simple.js:396-397 | the entries referencing one entity: exactly the stored entries that mention it |
| TimetableModel.OnlySplits | server/src/index-simple.js:396-397 | picking out one entity's entries keeps table order: those of a front part of the table come before those of the rest |
| TimetableModel.FindAfterOnly | server/src/controllers/TimetableController.ts:382-408 | looking up a slot among one class's (or teacher's) entries gives the same first entry as looking up that class (or teacher) in the slot of the whole table |
| TimetableModel.FirstAtIsFound | server/src/controllers/TimetableController.ts:103-106 | the first position matching a query is what `find` returns |
| TimetableModel.Without | server/src/models/Timetable.ts:13-27 | what the cascade leaves: exactly the stored entries not mentioning the deleted entity, none referencing it, the table itself when nothing referenced it |
| TimetableModel.WithoutKeepsRule | server/src/models/Timetable.ts:8-27 | the cascade keeps the (class, period, dayOfWeek) uniqueness and every other rule the table kept |
| TimetableModel.Drop | server/src/models/Timetable.ts:13-27 | deleting a row by primary key: the entity is no longer stored and every other entity's presence is unchanged |
| TimetableModel.CascadeKeepsIntegrity | server/src/models/Timetable.ts:13-27 | after deleting an entity and cascading, every remaining entry's four references resolve |
| TimetableModel.SpliceUnreferencedKeepsIntegrity | server/src/index-simple.js:83-90 | splicing out an entity no entry references keeps every reference resolvable |
| Request.Complete | server/src/controllers/TimetableController.ts:177 | the 400 test of a create (and of the in-memory PUT, server/src/index-simple.js:519 and :585): the four ids truthy, the day present |
| Request.Revised | server/src/controllers/TimetableController.ts:259-335 | the updated entry keeps its id, class and period; a truthy subject and teacher and a present day are taken over, and an absent one leaves that field as stored |
| Schedule.ClassCell | server/src/controllers/TimetableController.ts:407-424 | the cell of a class's week names its period; its subject and teacher are present exactly when an entry sits in that slot, and are then the names of the first such entry |
| Schedule.TeacherCell | server/src/controllers/TimetableController.ts:471-488 | the cell of a teacher's week names its period; its class and subject are present exactly when an entry sits in that slot, and are then the names of the first such entry |
| Schedule.WeekdayCell | server/src/controllers/TimetableController.ts:533-555 | the cell of the day grid names class and period; its subject and teacher are present exactly when that class has an entry in that period on that day, and are then the names of the first such entry |
| Schedule.BuildClassWeek | server/src/controllers/TimetableController.ts:401-428 | 7 day rows named Monday to Sunday, each with one cell per period in order, filled exactly when booked |
| Schedule.BuildTeacherWeek | server/src/controllers/TimetableController.ts:465-492 | 7 day rows named Monday to Sunday, each with one cell per period in order, filled exactly when booked |
| Schedule.BuildWeekdayRow | server/src/controllers/TimetableController.ts:533-556 | one cell per period in order for one class, filled exactly when the class has an entry there, with the names of its first such entry |
| Schedule.BuildWeekdayLines | server/src/controllers/TimetableController.ts:530-557 | one row per class in order, each with one cell per period, filled exactly when booked, with the names of the first such entry |
| Schedule.OnlyBooked | server/src/controllers/TimetableController.ts:382-408 | a slot is booked among one class's (or teacher's) entries exactly when some entry of that class (or teacher) sits there |
| Schedule.WeekdayRowShowsBookings | server/src/controllers/TimetableController.ts:533-546 | under the class rule, a class's row of the day grid shows every entry of that class on that day under its period, with its subject and teacher names |
| Schedule.TeacherCellIsTheBooking | server/src/controllers/TimetableController.ts:471-479 | under the teacher rule, the cell of a teacher's week shows the class and subject of the entry booked in that slot |
| Schedule.ClassCellIsTheBooking | server/src/controllers/TimetableController.ts:407-416 | under the class rule, the cell of a class's week shows the subject and teacher of the entry booked in that slot |
| Schedule.ClassCellShowsFirst | server/src/controllers/TimetableController.ts:382-424 | the cell built from one class's entries names its period; its subject and teacher are present together, exactly when the class has an entry in that slot of the table, and are then the names of the class's first such entry in the table |
| Schedule.TeacherCellShowsFirst | server/src/controllers/TimetableController.ts:446-488 | the cell built from one teacher's entries names its period; its class and subject are present together, exactly when the teacher has an entry in that slot of the table, and are then the names of the teacher's first such entry in the table |
| Schedule.ClassWeek | server/src/index-simple.js:396-450 | one class's week: 7 day rows of one cell per period, every cell as `ClassCellShowsFirst` states it, and under the class rule each entry of the class shown with its subject and teacher in its own slot |
| Schedule.TeacherWeek | server/src/index-simple.js:460-514 | one teacher's week: 7 day rows of one cell per period, every cell as `TeacherCellShowsFirst` states it, and under the teacher rule each entry of the teacher shown with its class and subject in its own slot |
| Controllers.TimetableController.Valid | server/src/models/Timetable.ts:8-27 | what storage keeps: positive distinct primary keys below the counter, the (class, period, dayOfWeek) unique constraint, and foreign keys that resolve |
| Controllers.TimetableController.CheckTeacherConflict | server/src/controllers/TimetableController.ts:85-127 | a conflict exactly when the lookup fails or some entry has the teacher, period and day and, when a truthy id is excluded, another id; a found conflict always carries the first such entry, and a failed lookup none |
| Controllers.TimetableController.PlanCreate | server/src/controllers/TimetableController.ts:173-222 | the checks of a create: 400, 404, class 409, teacher 409 in that order, each exactly when its condition holds; a class 409 always carries the clashing entry, a teacher 409 does unless the lookup failed; a pass yields the body's entry under the next id, clashing with nothing stored |
| Controllers.TimetableController.Create | server/src/controllers/TimetableController.ts:173-238 | the same outcome conditions, each leaving the table unchanged; otherwise exactly one entry with the given fields and a fresh id is appended; the invariants and the teacher rule are kept |
| Controllers.TimetableController.PlanUpdate | server/src/controllers/TimetableController.ts:245-335 | 404 exactly when the entry, a given subject or a given teacher is missing; class 409 exactly when a day is given, the class is booked then by another entry and a given teacher passed its check; teacher 409 exactly when the revised teacher is booked by another entry (or the lookup fails) and either a teacher was given or a day was given and the class check passed; a 409's entry is stored, has another id and collides with the revised entry under the rule reported; success otherwise, with the revised entry colliding with no other entry under the class rule, nor under the teacher rule when teacher or day is given |
| Controllers.TimetableController.CheckRevision | server/src/controllers/TimetableController.ts:269-336 | the conflict checks alone: class and teacher 409 each exactly when its condition holds, with the teacher check of a day change reading the new teacher; a 409's entry is stored, has another id and collides with the revised entry under the rule reported; a pass yields the revised entry |
| Controllers.TimetableController.CheckNewDay | server/src/controllers/TimetableController.ts:295-334 | the checks of a day change: class 409 exactly when another entry books the class in the period on the new day, otherwise teacher 409 exactly when the (already reassigned) teacher is booked then or the lookup fails; a 409's entry is stored, has another id and collides with the revised entry; a pass yields the revised entry |
| Controllers.TimetableController.UpdateStaysClear | server/src/controllers/TimetableController.ts:259-335 | an update that passes its checks saves an entry colliding with no other entry under the class rule, and under the teacher rule when the teacher or day was checked or the table kept it |
| Controllers.TimetableController.Update | server/src/controllers/TimetableController.ts:245-346 | the same outcome conditions as the checks, in both directions; a 409's entry was stored, has another id and collides with the revised entry under the rule reported; a rejected update changes nothing; a successful one overwrites the entry in place with the revised entry; the invariants and the teacher rule are kept |
| Controllers.TimetableController.Delete | server/src/controllers/TimetableController.ts:353-366 | 404 exactly when no entry has the id, otherwise exactly that entry is removed and no entry with the id remains; the rules are kept |
| Controllers.TimetableController.CascadeDelete | server/src/models/Timetable.ts:13-27 | deleting an entity removes it and exactly the entries referencing it, and the invariants survive |
| Controllers.TimetableController.GetClassSchedule | server/src/controllers/TimetableController.ts:373-430 | 404 exactly for an unknown class; otherwise a 7 × periods grid; each cell's subject and teacher are present together, exactly when the class has an entry in that slot, and name the class's first such entry (null otherwise); every entry of the class appears in its own slot |
| Controllers.TimetableController.GetTeacherSchedule | server/src/controllers/TimetableController.ts:437-494 | 404 exactly for an unknown teacher; otherwise a 7 × periods grid; each cell's class and subject are present together, exactly when the teacher has an entry in that slot, and name the teacher's first such entry (null otherwise); while the teacher rule holds, every entry of the teacher appears in its own slot |
| Controllers.TimetableController.GetWeekdaySchedule | server/src/controllers/TimetableController.ts:501-559 | 400 exactly when the day is not a number in 1..7; otherwise the day's name and number and a classes × periods grid, filled exactly when booked, every entry of that day shown under its class and period with its subject and teacher names |
| SimpleServer.Server.constructor | server/src/index-simple.js:13-17 | the five arrays start empty |
| SimpleServer.Server.CreateClass | server/src/index-simple.js:33-47 | 400 exactly without a name, leaving the array; otherwise one record with id length + 1 appended |
| SimpleServer.Server.UpdateClass | server/src/index-simple.js:49-72 | 400 without a name, then 404 for an unknown id; otherwise only the record at the found index is replaced |
| SimpleServer.Server.DeleteClass | server/src/index-simple.js:74-92 | 404 for an unknown id, 400 exactly while an entry references it; otherwise the found record is spliced out; integrity kept |
| SimpleServer.Server.CreateSubject | server/src/index-simple.js:108-122 | as for classes, with a falsy `weeklyHours` stored as 0 |
| SimpleServer.Server.UpdateSubject | server/src/index-simple.js:124-147 | as for classes |
| SimpleServer.Server.DeleteSubject | server/src/index-simple.js:149-167 | as for classes |
| SimpleServer.Server.CreateTeacher | server/src/index-simple.js:183-198 | as for classes, with a falsy `maxWeeklyHours` stored as 0 |
| SimpleServer.Server.UpdateTeacher | server/src/index-simple.js:200-224 | as for classes |
| SimpleServer.Server.DeleteTeacher | server/src/index-simple.js:226-244 | as for classes |
| SimpleServer.Server.CreatePeriod | server/src/index-simple.js:260-274 | 400 exactly unless name, start and end time are given; otherwise one record with id length + 1 appended |
| SimpleServer.Server.UpdatePeriod | server/src/index-simple.js:276-299 | 400 unless name, start and end time are given, then 404 for an unknown id; otherwise a replacement at the found index |
| SimpleServer.Server.DeletePeriod | server/src/index-simple.js:301-319 | as for classes |
| SimpleServer.Server.PostTimetable | server/src/index-simple.js:516-579 | 400, 404, class 409, teacher 409 in that order, each exactly when its condition holds, without changes; otherwise one entry with id length + 1 appended at the end; both rules kept |
| SimpleServer.Server.PlanPut | server/src/index-simple.js:581-628 | the checks of a PUT: 400, 404 for an unknown id or reference, class 409 and teacher 409 against entries of other ids, in that order, each exactly when its condition holds; a 409 carries no entry; a pass yields the body's entry under the id, resolving and clashing with no entry of another id |
| SimpleServer.Server.PutTimetable | server/src/index-simple.js:581-651 | 400, 404 for an unknown id or reference, class and teacher 409 against entries of other ids; otherwise the first entry with the id is overwritten and every other index is untouched; the rules are kept while ids are distinct |
| SimpleServer.Server.DeleteTimetable | server/src/index-simple.js:653-663 | 404 exactly when absent, otherwise exactly the first entry with the id is removed and the length drops by one; every rule kept |
| SimpleServer.Server.GetClassSchedule | server/src/index-simple.js:388-450 | 404 exactly for an unknown class; otherwise a 7 × periods grid; each cell's subject and teacher are present together, exactly when the class has an entry in that slot, and name the class's first such entry (null otherwise); while the class rule holds, every entry of the class appears in its own slot |
| SimpleServer.Server.GetTeacherSchedule | server/src/index-simple.js:452-514 | 404 exactly for an unknown teacher; otherwise a 7 × periods grid; each cell's class and subject are present together, exactly when the teacher has an entry in that slot, and name the teacher's first such entry (null otherwise); while the teacher rule holds, every entry of the teacher appears in its own slot |
| SimpleServer.RepeatedIdScenario | server/src/index-simple.js:557-638 | after post, post, delete, post and put, two entries share id 2 and the class, teacher and id rules are all broken |

## Left out

- Message strings, `createdAt` / `updatedAt`, logging, and the 500 paths: any storage error other than the teacher check's fail-closed lookup is not modelled.
- Sort orders. Periods come back by start time, the weekday grid's classes by name, and entries by day or by the period's start time. The model takes the stored sequences as already in the order the queries return. Under the class rule a class slot holds at most one entry, so the entry order does not change the class grids.
- The weekday grid is an object keyed by class name. Class names are unique in the database (server/src/models/Class.ts:9), so it has one key per class; the model keeps one row per class, in order.
- In the database class grid, the class name comes from the first entry's relation, or else from the class row. Class ids are primary keys, so both are the same row; the model names the first class row carrying the id.
- JSON typing. Body fields are either absent or a number or string. `null` bodies, numeric strings and the `NaN` from `parseInt` are not modelled, except that the weekday grid's unparseable day is the absent case.
- Concurrency: the race between check and write is outside this sequential model.
- Listing routes: `getAll`, `getByClass` and `getByTeacher`, and the in-memory list and get-by-id routes. They only read and expand relations.
- The separate Class, Subject, Teacher and Period controllers of the database server. Only the storage cascade that deleting their rows triggers is modelled, as `CascadeDelete`.
- The health route and the server start-up.
- Controllers.TimetableController.GetTeacherSchedule: states that every entry of the teacher appears in its own slot only while the teacher rule holds, because that rule is not a storage invariant. Without it, two entries of the teacher can share a slot and the cell shows the first of them, which the handler's contract does state.
- SimpleServer.Server.GetTeacherSchedule and SimpleServer.Server.GetClassSchedule: as for the database teacher grid, since the in-memory server keeps neither rule once ids repeat.
