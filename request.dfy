/** Request bodies as the handlers read them, and the replies they send. */
module Request {
  import opened Wrappers
  import opened Entities
  import opened TimetableModel

  /** JavaScript truthiness of a numeric body field: `undefined` and 0 are falsy. */
  predicate Truthy(o: Option<int>) {
    o.Some? && o.value != 0
  }

  /** JavaScript truthiness of a string body field: `undefined` and "" are falsy. */
  predicate Filled(o: Option<string>) {
    o.Some? && o.value != ""
  }

  /** `x || 0` */
  function OrZero(o: Option<int>): int {
    if Truthy(o) then o.value else 0
  }

  /** Body of a timetable create (and of an in-memory full replacement). */
  datatype TimetableBody = TimetableBody(classId: Option<int>, subjectId: Option<int>, teacherId: Option<int>,
                                         periodId: Option<int>, dayOfWeek: Option<int>)

  /** The 400 test: the four ids must be truthy, `dayOfWeek` only not `undefined` (so day 0 passes). */
  predicate Complete(b: TimetableBody) {
    Truthy(b.classId) && Truthy(b.subjectId) && Truthy(b.teacherId) && Truthy(b.periodId) && b.dayOfWeek.Some?
  }

  /** The entry a complete body describes, stored under `id`. */
  function EntryOf(b: TimetableBody, id: int): Entry
    requires Complete(b)
  {
    Entry(id, b.classId.value, b.subjectId.value, b.teacherId.value, b.periodId.value, b.dayOfWeek.value)
  }

  /** Body of a database timetable update: only these three fields are read. */
  datatype UpdateBody = UpdateBody(subjectId: Option<int>, teacherId: Option<int>, dayOfWeek: Option<int>)

  /** The loaded entry after the update's assignments: subject and teacher when truthy, day when defined. */
  function Revised(e: Entry, b: UpdateBody): (r: Entry)
    ensures r.id == e.id && r.classId == e.classId && r.periodId == e.periodId
    ensures !Truthy(b.subjectId) && !Truthy(b.teacherId) && b.dayOfWeek.None? ==> r == e
    ensures r.subjectId == if Truthy(b.subjectId) then b.subjectId.value else e.subjectId
    ensures r.teacherId == if Truthy(b.teacherId) then b.teacherId.value else e.teacherId
    ensures r.dayOfWeek == if b.dayOfWeek.Some? then b.dayOfWeek.value else e.dayOfWeek
  {
    var s := if Truthy(b.subjectId) then e.(subjectId := b.subjectId.value) else e;
    var t := if Truthy(b.teacherId) then s.(teacherId := b.teacherId.value) else s;
    if b.dayOfWeek.Some? then t.(dayOfWeek := b.dayOfWeek.value) else t
  }

  datatype ClassBody = ClassBody(name: Option<string>, grade: Option<string>, section: Option<string>,
                                 description: Option<string>)
  datatype SubjectBody = SubjectBody(name: Option<string>, code: Option<string>, description: Option<string>,
                                     weeklyHours: Option<int>)
  datatype TeacherBody = TeacherBody(name: Option<string>, email: Option<string>, phone: Option<string>,
                                     specialization: Option<string>, maxWeeklyHours: Option<int>)
  datatype PeriodBody = PeriodBody(name: Option<string>, startTime: Option<string>, endTime: Option<string>,
                                   dayOfWeek: Option<int>)

  function ClassInfoOf(b: ClassBody): ClassInfo {
    ClassInfo(b.grade, b.section, b.description)
  }

  function SubjectInfoOf(b: SubjectBody): SubjectInfo {
    SubjectInfo(b.code, b.description, OrZero(b.weeklyHours))
  }

  function TeacherInfoOf(b: TeacherBody): TeacherInfo {
    TeacherInfo(b.email, b.phone, b.specialization, OrZero(b.maxWeeklyHours))
  }

  /** A period body is accepted when name, start and end time are all non-empty. */
  predicate PeriodComplete(b: PeriodBody) {
    Filled(b.name) && Filled(b.startTime) && Filled(b.endTime)
  }

  function PeriodInfoOf(b: PeriodBody): PeriodInfo
    requires PeriodComplete(b)
  {
    PeriodInfo(b.startTime.value, b.endTime.value, b.dayOfWeek)
  }

  /** Which uniqueness rule a 409 reply reports (`conflictType`). */
  datatype ConflictKind = ClassConflict | TeacherConflict

  /** A reply: its status code and the part of its body the model keeps. */
  datatype Reply<T> =
    | Ok(body: T)                                                // 200
    | Created(body: T)                                           // 201
    | NoContent                                                  // 204
    | BadRequest                                                 // 400
    | NotFound                                                   // 404
    | Conflict(kind: ConflictKind, conflicting: Option<Entry>)   // 409

  function Status<T>(r: Reply<T>): int {
    match r
    case Ok(_) => 200
    case Created(_) => 201
    case NoContent => 204
    case BadRequest => 400
    case NotFound => 404
    case Conflict(_, _) => 409
  }
}
