/**
 * The in-memory server: five module-level arrays mutated in place. New records get the id
 * `length + 1`, lookups take the first record carrying an id, and an entity is deleted only while no
 * timetable entry references it.
 */
module SimpleServer {
  import opened Wrappers
  import opened Entities
  import opened TimetableModel
  import opened Request
  import opened Schedule

  class Server {
    var classes: seq<ClassRec>
    var subjects: seq<SubjectRec>
    var teachers: seq<TeacherRec>
    var periods: seq<PeriodRec>
    var timetableEntries: seq<Entry>

    function Catalogue(): Catalog
      reads this
    {
      Catalog(classes, subjects, teachers, periods)
    }

    /** Every handler keeps each entry's four references resolvable. Ids need not be distinct here. */
    ghost predicate Valid()
      reads this
    {
      RefIntegrity(timetableEntries, Catalogue())
    }

    /** The arrays start empty. */
    constructor()
      ensures classes == [] && subjects == [] && teachers == [] && periods == [] && timetableEntries == []
      ensures Valid()
    {
      classes, subjects, teachers, periods, timetableEntries := [], [], [], [], [];
    }

    // -------------------------------------------------------------------------------------------
    // Classes

    /** POST /api/classes: 400 without a name, otherwise a record with id `length + 1` is appended. */
    method CreateClass(body: ClassBody) returns (r: Reply<ClassRec>)
      requires Valid()
      modifies this
      ensures Valid()
      ensures r.Created? || r.BadRequest?
      ensures r.BadRequest? <==> !Filled(body.name)
      ensures r.BadRequest? ==> classes == old(classes)
      ensures r.Created? ==>
                r.body == Rec(|old(classes)| + 1, body.name.value, ClassInfoOf(body)) && classes == old(classes) + [r.body]
      ensures Catalogue() == old(Catalogue()).(classes := classes) && timetableEntries == old(timetableEntries)
    {
      if !Filled(body.name) {
        return BadRequest;
      }
      var rec := Rec(|classes| + 1, body.name.value, ClassInfoOf(body));
      forall k | 0 <= k < |timetableEntries| ensures HasId(classes + [rec], timetableEntries[k].classId) {
        AppendKeepsIds(classes, rec, timetableEntries[k].classId);
      }
      classes := classes + [rec];
      r := Created(rec);
    }

    /** PUT /api/classes/:id: 400 without a name, then 404 for an unknown id, otherwise the first record
        with the id is replaced in place. */
    method UpdateClass(id: int, body: ClassBody) returns (r: Reply<ClassRec>)
      requires Valid()
      modifies this
      ensures Valid()
      ensures r.Ok? || r.BadRequest? || r.NotFound?
      ensures r.BadRequest? <==> !Filled(body.name)
      ensures r.NotFound? <==> Filled(body.name) && !HasId(old(classes), id)
      ensures !r.Ok? ==> classes == old(classes)
      ensures r.Ok? ==>
                r.body == Rec(id, body.name.value, ClassInfoOf(body)) &&
                classes == old(classes)[IndexOfId(old(classes), id) := r.body]
      ensures Catalogue() == old(Catalogue()).(classes := classes) && timetableEntries == old(timetableEntries)
    {
      if !Filled(body.name) {
        return BadRequest;
      }
      var i := IndexOfId(classes, id);
      if i == -1 {
        return NotFound;
      }
      var rec := Rec(id, body.name.value, ClassInfoOf(body));
      forall k | 0 <= k < |timetableEntries| ensures HasId(classes[i := rec], timetableEntries[k].classId) {
        ReplaceKeepsIds(classes, i, rec, timetableEntries[k].classId);
      }
      classes := classes[i := rec];
      r := Ok(rec);
    }

    /** DELETE /api/classes/:id: 404 for an unknown id, 400 while an entry references it, otherwise the
        first record with the id is spliced out. */
    method DeleteClass(id: int) returns (r: Reply<ClassRec>)
      requires Valid()
      modifies this
      ensures Valid()
      ensures r.NoContent? || r.NotFound? || r.BadRequest?
      ensures r.NotFound? <==> !HasId(old(classes), id)
      ensures r.BadRequest? <==> HasId(old(classes), id) && Referenced(timetableEntries, ClassRef(id))
      ensures !r.NoContent? ==> classes == old(classes)
      ensures r.NoContent? ==>
                var i := IndexOfId(old(classes), id);
                classes == old(classes)[..i] + old(classes)[i + 1..]
      ensures Catalogue() == old(Catalogue()).(classes := classes) && timetableEntries == old(timetableEntries)
    {
      var i := IndexOfId(classes, id);
      if i == -1 {
        return NotFound;
      }
      if Referenced(timetableEntries, ClassRef(id)) {
        return BadRequest;
      }
      var rest := classes[..i] + classes[i + 1..];
      assert SpliceAt(Catalogue(), ClassRef(id), i) == Catalogue().(classes := rest);
      SpliceUnreferencedKeepsIntegrity(timetableEntries, Catalogue(), ClassRef(id), i);
      classes := rest;
      r := NoContent;
    }

    // -------------------------------------------------------------------------------------------
    // Subjects

    /** POST /api/subjects: 400 without a name, otherwise a record with id `length + 1` is appended;
        a falsy `weeklyHours` is stored as 0. */
    method CreateSubject(body: SubjectBody) returns (r: Reply<SubjectRec>)
      requires Valid()
      modifies this
      ensures Valid()
      ensures r.Created? || r.BadRequest?
      ensures r.BadRequest? <==> !Filled(body.name)
      ensures r.BadRequest? ==> subjects == old(subjects)
      ensures r.Created? ==>
                r.body == Rec(|old(subjects)| + 1, body.name.value, SubjectInfoOf(body)) &&
                subjects == old(subjects) + [r.body]
      ensures Catalogue() == old(Catalogue()).(subjects := subjects) && timetableEntries == old(timetableEntries)
    {
      if !Filled(body.name) {
        return BadRequest;
      }
      var rec := Rec(|subjects| + 1, body.name.value, SubjectInfoOf(body));
      forall k | 0 <= k < |timetableEntries| ensures HasId(subjects + [rec], timetableEntries[k].subjectId) {
        AppendKeepsIds(subjects, rec, timetableEntries[k].subjectId);
      }
      subjects := subjects + [rec];
      r := Created(rec);
    }

    /** PUT /api/subjects/:id: 400 without a name, then 404 for an unknown id, otherwise a replacement in
        place. */
    method UpdateSubject(id: int, body: SubjectBody) returns (r: Reply<SubjectRec>)
      requires Valid()
      modifies this
      ensures Valid()
      ensures r.Ok? || r.BadRequest? || r.NotFound?
      ensures r.BadRequest? <==> !Filled(body.name)
      ensures r.NotFound? <==> Filled(body.name) && !HasId(old(subjects), id)
      ensures !r.Ok? ==> subjects == old(subjects)
      ensures r.Ok? ==>
                r.body == Rec(id, body.name.value, SubjectInfoOf(body)) &&
                subjects == old(subjects)[IndexOfId(old(subjects), id) := r.body]
      ensures Catalogue() == old(Catalogue()).(subjects := subjects) && timetableEntries == old(timetableEntries)
    {
      if !Filled(body.name) {
        return BadRequest;
      }
      var i := IndexOfId(subjects, id);
      if i == -1 {
        return NotFound;
      }
      var rec := Rec(id, body.name.value, SubjectInfoOf(body));
      forall k | 0 <= k < |timetableEntries| ensures HasId(subjects[i := rec], timetableEntries[k].subjectId) {
        ReplaceKeepsIds(subjects, i, rec, timetableEntries[k].subjectId);
      }
      subjects := subjects[i := rec];
      r := Ok(rec);
    }

    /** DELETE /api/subjects/:id: 404 for an unknown id, 400 while an entry references it, otherwise a
        splice. */
    method DeleteSubject(id: int) returns (r: Reply<SubjectRec>)
      requires Valid()
      modifies this
      ensures Valid()
      ensures r.NoContent? || r.NotFound? || r.BadRequest?
      ensures r.NotFound? <==> !HasId(old(subjects), id)
      ensures r.BadRequest? <==> HasId(old(subjects), id) && Referenced(timetableEntries, SubjectRef(id))
      ensures !r.NoContent? ==> subjects == old(subjects)
      ensures r.NoContent? ==>
                var i := IndexOfId(old(subjects), id);
                subjects == old(subjects)[..i] + old(subjects)[i + 1..]
      ensures Catalogue() == old(Catalogue()).(subjects := subjects) && timetableEntries == old(timetableEntries)
    {
      var i := IndexOfId(subjects, id);
      if i == -1 {
        return NotFound;
      }
      if Referenced(timetableEntries, SubjectRef(id)) {
        return BadRequest;
      }
      var rest := subjects[..i] + subjects[i + 1..];
      assert SpliceAt(Catalogue(), SubjectRef(id), i) == Catalogue().(subjects := rest);
      SpliceUnreferencedKeepsIntegrity(timetableEntries, Catalogue(), SubjectRef(id), i);
      subjects := rest;
      r := NoContent;
    }

    // -------------------------------------------------------------------------------------------
    // Teachers

    /** POST /api/teachers: 400 without a name, otherwise a record with id `length + 1` is appended;
        a falsy `maxWeeklyHours` is stored as 0. */
    method CreateTeacher(body: TeacherBody) returns (r: Reply<TeacherRec>)
      requires Valid()
      modifies this
      ensures Valid()
      ensures r.Created? || r.BadRequest?
      ensures r.BadRequest? <==> !Filled(body.name)
      ensures r.BadRequest? ==> teachers == old(teachers)
      ensures r.Created? ==>
                r.body == Rec(|old(teachers)| + 1, body.name.value, TeacherInfoOf(body)) &&
                teachers == old(teachers) + [r.body]
      ensures Catalogue() == old(Catalogue()).(teachers := teachers) && timetableEntries == old(timetableEntries)
    {
      if !Filled(body.name) {
        return BadRequest;
      }
      var rec := Rec(|teachers| + 1, body.name.value, TeacherInfoOf(body));
      forall k | 0 <= k < |timetableEntries| ensures HasId(teachers + [rec], timetableEntries[k].teacherId) {
        AppendKeepsIds(teachers, rec, timetableEntries[k].teacherId);
      }
      teachers := teachers + [rec];
      r := Created(rec);
    }

    /** PUT /api/teachers/:id: 400 without a name, then 404 for an unknown id, otherwise a replacement in
        place. */
    method UpdateTeacher(id: int, body: TeacherBody) returns (r: Reply<TeacherRec>)
      requires Valid()
      modifies this
      ensures Valid()
      ensures r.Ok? || r.BadRequest? || r.NotFound?
      ensures r.BadRequest? <==> !Filled(body.name)
      ensures r.NotFound? <==> Filled(body.name) && !HasId(old(teachers), id)
      ensures !r.Ok? ==> teachers == old(teachers)
      ensures r.Ok? ==>
                r.body == Rec(id, body.name.value, TeacherInfoOf(body)) &&
                teachers == old(teachers)[IndexOfId(old(teachers), id) := r.body]
      ensures Catalogue() == old(Catalogue()).(teachers := teachers) && timetableEntries == old(timetableEntries)
    {
      if !Filled(body.name) {
        return BadRequest;
      }
      var i := IndexOfId(teachers, id);
      if i == -1 {
        return NotFound;
      }
      var rec := Rec(id, body.name.value, TeacherInfoOf(body));
      forall k | 0 <= k < |timetableEntries| ensures HasId(teachers[i := rec], timetableEntries[k].teacherId) {
        ReplaceKeepsIds(teachers, i, rec, timetableEntries[k].teacherId);
      }
      teachers := teachers[i := rec];
      r := Ok(rec);
    }

    /** DELETE /api/teachers/:id: 404 for an unknown id, 400 while an entry references it, otherwise a
        splice. */
    method DeleteTeacher(id: int) returns (r: Reply<TeacherRec>)
      requires Valid()
      modifies this
      ensures Valid()
      ensures r.NoContent? || r.NotFound? || r.BadRequest?
      ensures r.NotFound? <==> !HasId(old(teachers), id)
      ensures r.BadRequest? <==> HasId(old(teachers), id) && Referenced(timetableEntries, TeacherRef(id))
      ensures !r.NoContent? ==> teachers == old(teachers)
      ensures r.NoContent? ==>
                var i := IndexOfId(old(teachers), id);
                teachers == old(teachers)[..i] + old(teachers)[i + 1..]
      ensures Catalogue() == old(Catalogue()).(teachers := teachers) && timetableEntries == old(timetableEntries)
    {
      var i := IndexOfId(teachers, id);
      if i == -1 {
        return NotFound;
      }
      if Referenced(timetableEntries, TeacherRef(id)) {
        return BadRequest;
      }
      var rest := teachers[..i] + teachers[i + 1..];
      assert SpliceAt(Catalogue(), TeacherRef(id), i) == Catalogue().(teachers := rest);
      SpliceUnreferencedKeepsIntegrity(timetableEntries, Catalogue(), TeacherRef(id), i);
      teachers := rest;
      r := NoContent;
    }

    // -------------------------------------------------------------------------------------------
    // Periods

    /** POST /api/periods: 400 unless name, start and end time are all given, otherwise a record with
        id `length + 1` is appended. */
    method CreatePeriod(body: PeriodBody) returns (r: Reply<PeriodRec>)
      requires Valid()
      modifies this
      ensures Valid()
      ensures r.Created? || r.BadRequest?
      ensures r.BadRequest? <==> !PeriodComplete(body)
      ensures r.BadRequest? ==> periods == old(periods)
      ensures r.Created? ==>
                r.body == Rec(|old(periods)| + 1, body.name.value, PeriodInfoOf(body)) &&
                periods == old(periods) + [r.body]
      ensures Catalogue() == old(Catalogue()).(periods := periods) && timetableEntries == old(timetableEntries)
    {
      if !PeriodComplete(body) {
        return BadRequest;
      }
      var rec := Rec(|periods| + 1, body.name.value, PeriodInfoOf(body));
      forall k | 0 <= k < |timetableEntries| ensures HasId(periods + [rec], timetableEntries[k].periodId) {
        AppendKeepsIds(periods, rec, timetableEntries[k].periodId);
      }
      periods := periods + [rec];
      r := Created(rec);
    }

    /** PUT /api/periods/:id: 400 unless name, start and end time are all given, then 404 for an unknown
        id, otherwise a replacement in place. */
    method UpdatePeriod(id: int, body: PeriodBody) returns (r: Reply<PeriodRec>)
      requires Valid()
      modifies this
      ensures Valid()
      ensures r.Ok? || r.BadRequest? || r.NotFound?
      ensures r.BadRequest? <==> !PeriodComplete(body)
      ensures r.NotFound? <==> PeriodComplete(body) && !HasId(old(periods), id)
      ensures !r.Ok? ==> periods == old(periods)
      ensures r.Ok? ==>
                PeriodComplete(body) && r.body == Rec(id, body.name.value, PeriodInfoOf(body)) &&
                periods == old(periods)[IndexOfId(old(periods), id) := r.body]
      ensures Catalogue() == old(Catalogue()).(periods := periods) && timetableEntries == old(timetableEntries)
    {
      if !PeriodComplete(body) {
        return BadRequest;
      }
      var i := IndexOfId(periods, id);
      if i == -1 {
        return NotFound;
      }
      var rec := Rec(id, body.name.value, PeriodInfoOf(body));
      forall k | 0 <= k < |timetableEntries| ensures HasId(periods[i := rec], timetableEntries[k].periodId) {
        ReplaceKeepsIds(periods, i, rec, timetableEntries[k].periodId);
      }
      periods := periods[i := rec];
      r := Ok(rec);
    }

    /** DELETE /api/periods/:id: 404 for an unknown id, 400 while an entry references it, otherwise a
        splice. */
    method DeletePeriod(id: int) returns (r: Reply<PeriodRec>)
      requires Valid()
      modifies this
      ensures Valid()
      ensures r.NoContent? || r.NotFound? || r.BadRequest?
      ensures r.NotFound? <==> !HasId(old(periods), id)
      ensures r.BadRequest? <==> HasId(old(periods), id) && Referenced(timetableEntries, PeriodRef(id))
      ensures !r.NoContent? ==> periods == old(periods)
      ensures r.NoContent? ==>
                var i := IndexOfId(old(periods), id);
                periods == old(periods)[..i] + old(periods)[i + 1..]
      ensures Catalogue() == old(Catalogue()).(periods := periods) && timetableEntries == old(timetableEntries)
    {
      var i := IndexOfId(periods, id);
      if i == -1 {
        return NotFound;
      }
      if Referenced(timetableEntries, PeriodRef(id)) {
        return BadRequest;
      }
      var rest := periods[..i] + periods[i + 1..];
      assert SpliceAt(Catalogue(), PeriodRef(id), i) == Catalogue().(periods := rest);
      SpliceUnreferencedKeepsIntegrity(timetableEntries, Catalogue(), PeriodRef(id), i);
      periods := rest;
      r := NoContent;
    }

    // -------------------------------------------------------------------------------------------
    // Timetable entries

    /** POST /api/timetables: 400, then 404, then a class clash, then a teacher clash (each 409, without
        the conflicting entry), otherwise the entry is appended with id `length + 1`. */
    method PostTimetable(body: TimetableBody) returns (r: Reply<Entry>)
      requires Valid()
      modifies this
      ensures Valid()
      ensures Catalogue() == old(Catalogue())
      ensures r.Created? || r.BadRequest? || r.NotFound? || r.Conflict?
      ensures !r.Created? ==> timetableEntries == old(timetableEntries)
      ensures r.BadRequest? <==> !Complete(body)
      ensures r.NotFound? <==> Complete(body) && !Resolves(EntryOf(body, 0), Catalogue())
      ensures r.Conflict? && r.kind == ClassConflict <==>
                Complete(body) && Resolves(EntryOf(body, 0), Catalogue()) &&
                Clashes(old(timetableEntries), ClassRule, EntryOf(body, 0))
      ensures r.Conflict? && r.kind == TeacherConflict <==>
                Complete(body) && Resolves(EntryOf(body, 0), Catalogue()) &&
                !Clashes(old(timetableEntries), ClassRule, EntryOf(body, 0)) &&
                Clashes(old(timetableEntries), TeacherRule, EntryOf(body, 0))
      ensures r.Conflict? ==> r.conflicting.None?
      ensures r.Created? ==>
                Complete(body) && r.body == EntryOf(body, |old(timetableEntries)| + 1) &&
                timetableEntries == old(timetableEntries) + [r.body]
      ensures old(Respects(timetableEntries, ClassRule)) ==> Respects(timetableEntries, ClassRule)
      ensures old(Respects(timetableEntries, TeacherRule)) ==> Respects(timetableEntries, TeacherRule)
    {
      if !Complete(body) {
        return BadRequest;
      }
      var e := EntryOf(body, |timetableEntries| + 1);
      if !Resolves(e, Catalogue()) {
        return NotFound;
      }
      FindNoneIffClashFree(timetableEntries, ClassRule, e, None);
      FindNoneIffClashFree(timetableEntries, TeacherRule, e, None);
      var existing := Find(timetableEntries, ClashQuery(ClassRule, e, None));
      if existing.Some? {
        return Conflict(ClassConflict, None);
      }
      var teacherConflict := Find(timetableEntries, ClashQuery(TeacherRule, e, None));
      if teacherConflict.Some? {
        return Conflict(TeacherConflict, None);
      }
      if Respects(timetableEntries, ClassRule) {
        AppendKeepsRule(timetableEntries, e, ClassRule);
      }
      if Respects(timetableEntries, TeacherRule) {
        AppendKeepsRule(timetableEntries, e, TeacherRule);
      }
      timetableEntries := timetableEntries + [e];
      r := Created(e);
    }

    /** The checks of PUT /api/timetables/:id, in the order they run: 400, then 404 for an unknown id,
        then 404 for an unknown reference, then a class clash and a teacher clash with any entry of
        another id (409). Returns the first error reply, or `Ok` with the entry that would be written. */
    method PlanPut(id: int, body: TimetableBody) returns (r: Reply<Entry>)
      requires Valid()
      ensures r.Ok? || r.BadRequest? || r.NotFound? || r.Conflict?
      ensures r.BadRequest? <==> !Complete(body)
      ensures r.NotFound? <==>
                Complete(body) &&
                (EntryIndex(timetableEntries, id) == -1 || !Resolves(EntryOf(body, id), Catalogue()))
      ensures r.Conflict? && r.kind == ClassConflict <==>
                Complete(body) && EntryIndex(timetableEntries, id) != -1 && Resolves(EntryOf(body, id), Catalogue()) &&
                ClashesOther(timetableEntries, ClassRule, EntryOf(body, id), id)
      ensures r.Conflict? && r.kind == TeacherConflict <==>
                Complete(body) && EntryIndex(timetableEntries, id) != -1 && Resolves(EntryOf(body, id), Catalogue()) &&
                !ClashesOther(timetableEntries, ClassRule, EntryOf(body, id), id) &&
                ClashesOther(timetableEntries, TeacherRule, EntryOf(body, id), id)
      ensures r.Conflict? ==> r.conflicting.None?
      ensures r.Ok? ==>
                Complete(body) && r.body == EntryOf(body, id) && EntryIndex(timetableEntries, id) != -1 &&
                Resolves(r.body, Catalogue()) &&
                !ClashesOther(timetableEntries, ClassRule, r.body, id) &&
                !ClashesOther(timetableEntries, TeacherRule, r.body, id)
    {
      if !Complete(body) {
        return BadRequest;
      }
      var i := EntryIndex(timetableEntries, id);
      if i == -1 {
        return NotFound;
      }
      var e := EntryOf(body, id);
      if !Resolves(e, Catalogue()) {
        return NotFound;
      }
      FindNoneIffClashFree(timetableEntries, ClassRule, e, Some(id));
      FindNoneIffClashFree(timetableEntries, TeacherRule, e, Some(id));
      var existing := Find(timetableEntries, ClashQuery(ClassRule, e, Some(id)));
      if existing.Some? {
        return Conflict(ClassConflict, None);
      }
      var teacherConflict := Find(timetableEntries, ClashQuery(TeacherRule, e, Some(id)));
      if teacherConflict.Some? {
        return Conflict(TeacherConflict, None);
      }
      r := Ok(e);
    }

    /** PUT /api/timetables/:id: run the checks and, when they pass, overwrite the first entry with the
        id in place. */
    method PutTimetable(id: int, body: TimetableBody) returns (r: Reply<Entry>)
      requires Valid()
      modifies this
      ensures Valid()
      ensures Catalogue() == old(Catalogue())
      ensures r.Ok? || r.BadRequest? || r.NotFound? || r.Conflict?
      ensures !r.Ok? ==> timetableEntries == old(timetableEntries)
      ensures r.BadRequest? <==> !Complete(body)
      ensures r.NotFound? <==>
                Complete(body) &&
                (EntryIndex(old(timetableEntries), id) == -1 || !Resolves(EntryOf(body, id), Catalogue()))
      ensures r.Conflict? && r.kind == ClassConflict <==>
                Complete(body) && EntryIndex(old(timetableEntries), id) != -1 && Resolves(EntryOf(body, id), Catalogue()) &&
                ClashesOther(old(timetableEntries), ClassRule, EntryOf(body, id), id)
      ensures r.Conflict? && r.kind == TeacherConflict <==>
                Complete(body) && EntryIndex(old(timetableEntries), id) != -1 && Resolves(EntryOf(body, id), Catalogue()) &&
                !ClashesOther(old(timetableEntries), ClassRule, EntryOf(body, id), id) &&
                ClashesOther(old(timetableEntries), TeacherRule, EntryOf(body, id), id)
      ensures r.Conflict? ==> r.conflicting.None?
      ensures r.Ok? ==>
                Complete(body) && r.body == EntryOf(body, id) &&
                timetableEntries == old(timetableEntries)[EntryIndex(old(timetableEntries), id) := r.body]
      ensures r.Ok? ==>
                !ClashesOther(timetableEntries, ClassRule, r.body, id) && !ClashesOther(timetableEntries, TeacherRule, r.body, id)
      ensures old(Respects(timetableEntries, IdRule)) ==> Respects(timetableEntries, IdRule)
      ensures old(Respects(timetableEntries, IdRule) && Respects(timetableEntries, ClassRule)) ==>
                Respects(timetableEntries, ClassRule)
      ensures old(Respects(timetableEntries, IdRule) && Respects(timetableEntries, TeacherRule)) ==>
                Respects(timetableEntries, TeacherRule)
    {
      r := PlanPut(id, body);
      if !r.Ok? {
        return;
      }
      var i := EntryIndex(timetableEntries, id);
      var e := r.body;
      var after := timetableEntries[i := e];
      assert !ClashesOther(after, ClassRule, e, id) && !ClashesOther(after, TeacherRule, e, id) by {
        forall k | 0 <= k < |after| && after[k].id != id
          ensures !Collide(ClassRule, after[k], e) && !Collide(TeacherRule, after[k], e)
        {
          assert k != i && after[k] == timetableEntries[k];
        }
      }
      if Respects(timetableEntries, IdRule) {
        forall k | 0 <= k < |timetableEntries| && k != i ensures timetableEntries[k].id != id {
          assert !Collide(IdRule, timetableEntries[k], timetableEntries[i]);
        }
        ReplaceKeepsRule(timetableEntries, i, e, IdRule);
        if Respects(timetableEntries, ClassRule) {
          ReplaceKeepsRule(timetableEntries, i, e, ClassRule);
        }
        if Respects(timetableEntries, TeacherRule) {
          ReplaceKeepsRule(timetableEntries, i, e, TeacherRule);
        }
      }
      timetableEntries := after;
    }

    /** DELETE /api/timetables/:id: 404 for an unknown id, otherwise the first entry with the id is spliced
        out. */
    method DeleteTimetable(id: int) returns (r: Reply<Entry>)
      requires Valid()
      modifies this
      ensures Valid()
      ensures Catalogue() == old(Catalogue())
      ensures r.NoContent? || r.NotFound?
      ensures r.NotFound? <==> EntryIndex(old(timetableEntries), id) == -1
      ensures r.NotFound? ==> timetableEntries == old(timetableEntries)
      ensures r.NoContent? ==>
                var i := EntryIndex(old(timetableEntries), id);
                timetableEntries == old(timetableEntries)[..i] + old(timetableEntries)[i + 1..] &&
                |timetableEntries| == |old(timetableEntries)| - 1
      ensures forall rule :: old(Respects(timetableEntries, rule)) ==> Respects(timetableEntries, rule)
    {
      var i := EntryIndex(timetableEntries, id);
      if i == -1 {
        return NotFound;
      }
      var rest := timetableEntries[..i] + timetableEntries[i + 1..];
      assert forall k :: 0 <= k < |rest| ==> rest[k] == timetableEntries[if k < i then k else k + 1];
      forall rule | Respects(timetableEntries, rule) ensures Respects(rest, rule) {
        SpliceKeepsRule(timetableEntries, i, rule);
      }
      timetableEntries := rest;
      r := NoContent;
    }

    // -------------------------------------------------------------------------------------------
    // Grids

    /** GET /api/timetables/class/:classId/schedule: 404 for an unknown class, otherwise 7 rows of one
        cell per period in array order. */
    method GetClassSchedule(classId: int) returns (r: Reply<ClassSchedule>)
      requires Valid()
      ensures r.Ok? || r.NotFound?
      ensures r.NotFound? <==> !HasId(classes, classId)
      ensures r.Ok? ==>
                HasId(classes, classId) && r.body.className == NameOf(classes, classId) &&
                r.body.days == Weekdays && r.body.periods == Names(periods)
      ensures r.Ok? ==>
                |r.body.data| == 7 &&
                forall d :: 0 <= d < 7 ==> r.body.data[d].day == Weekdays[d] && |r.body.data[d].slots| == |periods|
      ensures r.Ok? ==>
                forall d, p :: 0 <= d < 7 && 0 <= p < |periods| ==>
                  ShowsFirstOfClass(timetableEntries, Catalogue(), classId, d + 1, periods[p], r.body.data[d].slots[p])
      ensures r.Ok? && Respects(timetableEntries, ClassRule) ==>
                forall i, p :: 0 <= i < |timetableEntries| && timetableEntries[i].classId == classId &&
                               0 <= p < |periods| && periods[p].id == timetableEntries[i].periodId &&
                               IsWeekday(timetableEntries[i].dayOfWeek) ==>
                  r.body.data[timetableEntries[i].dayOfWeek - 1].slots[p].subject ==
                    Some(NameOf(subjects, timetableEntries[i].subjectId)) &&
                  r.body.data[timetableEntries[i].dayOfWeek - 1].slots[p].teacher ==
                    Some(NameOf(teachers, timetableEntries[i].teacherId))
    {
      if !HasId(classes, classId) {
        return NotFound;
      }
      var data := ClassWeek(timetableEntries, Catalogue(), classId);
      r := Ok(ClassSchedule(NameOf(classes, classId), Weekdays, Names(periods), data));
    }

    /** GET /api/timetables/teacher/:teacherId/schedule: 404 for an unknown teacher, otherwise 7 rows of
        one cell per period in array order. */
    method GetTeacherSchedule(teacherId: int) returns (r: Reply<TeacherSchedule>)
      requires Valid()
      ensures r.Ok? || r.NotFound?
      ensures r.NotFound? <==> !HasId(teachers, teacherId)
      ensures r.Ok? ==>
                HasId(teachers, teacherId) && r.body.teacherName == NameOf(teachers, teacherId) &&
                r.body.days == Weekdays && r.body.periods == Names(periods)
      ensures r.Ok? ==>
                |r.body.data| == 7 &&
                forall d :: 0 <= d < 7 ==> r.body.data[d].day == Weekdays[d] && |r.body.data[d].slots| == |periods|
      ensures r.Ok? ==>
                forall d, p :: 0 <= d < 7 && 0 <= p < |periods| ==>
                  ShowsFirstOfTeacher(timetableEntries, Catalogue(), teacherId, d + 1, periods[p], r.body.data[d].slots[p])
      ensures r.Ok? && Respects(timetableEntries, TeacherRule) ==>
                forall i, p :: 0 <= i < |timetableEntries| && timetableEntries[i].teacherId == teacherId &&
                               0 <= p < |periods| && periods[p].id == timetableEntries[i].periodId &&
                               IsWeekday(timetableEntries[i].dayOfWeek) ==>
                  r.body.data[timetableEntries[i].dayOfWeek - 1].slots[p].className ==
                    Some(NameOf(classes, timetableEntries[i].classId)) &&
                  r.body.data[timetableEntries[i].dayOfWeek - 1].slots[p].subject ==
                    Some(NameOf(subjects, timetableEntries[i].subjectId))
    {
      if !HasId(teachers, teacherId) {
        return NotFound;
      }
      var data := TeacherWeek(timetableEntries, Catalogue(), teacherId);
      r := Ok(TeacherSchedule(NameOf(teachers, teacherId), Weekdays, Names(periods), data));
    }
  }

  /** The catalogue the scenario below works on: one class, subject, teacher and period, each with id 1. */
  ghost predicate Seeded(s: Server)
    reads s
  {
    && |s.classes| == 1 && s.classes[0].id == 1
    && |s.subjects| == 1 && s.subjects[0].id == 1
    && |s.teachers| == 1 && s.teachers[0].id == 1
    && |s.periods| == 1 && s.periods[0].id == 1
  }

  /** An entry of class 1 with subject, teacher and period 1 on `day`, as a request body. */
  function Lesson(day: int): TimetableBody {
    TimetableBody(Some(1), Some(1), Some(1), Some(1), Some(day))
  }

  /** Ids are `length + 1` and deletes shift the length back, so two entries can share an id: post
      entries 1 and 2, delete entry 1, post again (it gets id 2 a second time). A PUT to id 2 then skips
      both entries with that id in its clash checks and overwrites the first, leaving two entries in the
      same class slot. */
  method RepeatedIdScenario() returns (s: Server)
    ensures |s.timetableEntries| == 2
    ensures s.timetableEntries[0].id == s.timetableEntries[1].id == 2
    ensures !Respects(s.timetableEntries, IdRule)
    ensures !Respects(s.timetableEntries, ClassRule) && !Respects(s.timetableEntries, TeacherRule)
  {
    s := SeededServer();
    PostTwiceDeleteFirst(s);
    PostAgainAndPut(s);
    assert Collide(ClassRule, s.timetableEntries[0], s.timetableEntries[1]);
    assert Collide(TeacherRule, s.timetableEntries[0], s.timetableEntries[1]);
    assert Collide(IdRule, s.timetableEntries[0], s.timetableEntries[1]);
  }

  /** A fresh server holding the seed catalogue and no entries. */
  method SeededServer() returns (s: Server)
    ensures fresh(s) && s.Valid() && Seeded(s) && s.timetableEntries == []
  {
    s := new Server();
    var c := s.CreateClass(ClassBody(Some("7A"), None, None, None));
    var m := s.CreateSubject(SubjectBody(Some("Mathematics"), None, None, None));
    var t := s.CreateTeacher(TeacherBody(Some("Ada"), None, None, None, None));
    var p := s.CreatePeriod(PeriodBody(Some("First"), Some("08:00"), Some("08:45"), None));
  }

  /** Post the lessons of days 1 and 2 (ids 1 and 2), then delete id 1. */
  method PostTwiceDeleteFirst(s: Server)
    requires s.Valid() && Seeded(s) && s.timetableEntries == []
    modifies s
    ensures s.Valid() && Seeded(s) && s.timetableEntries == [Entry(2, 1, 1, 1, 1, 2)]
  {
    var e1 := s.PostTimetable(Lesson(1));
    assert s.timetableEntries == [Entry(1, 1, 1, 1, 1, 1)];
    var e2 := s.PostTimetable(Lesson(2));
    assert s.timetableEntries == [Entry(1, 1, 1, 1, 1, 1), Entry(2, 1, 1, 1, 1, 2)];
    var d := s.DeleteTimetable(1);
  }

  /** Post the lesson of day 3 (which gets id 2 again), then PUT id 2 to day 3. */
  method PostAgainAndPut(s: Server)
    requires s.Valid() && Seeded(s) && s.timetableEntries == [Entry(2, 1, 1, 1, 1, 2)]
    modifies s
    ensures s.timetableEntries == [Entry(2, 1, 1, 1, 1, 3), Entry(2, 1, 1, 1, 1, 3)]
  {
    assert !Clashes(s.timetableEntries, ClassRule, Entry(0, 1, 1, 1, 1, 3));
    assert !Clashes(s.timetableEntries, TeacherRule, Entry(0, 1, 1, 1, 1, 3));
    var e3 := s.PostTimetable(Lesson(3));
    assert s.timetableEntries == [Entry(2, 1, 1, 1, 1, 2), Entry(2, 1, 1, 1, 1, 3)];
    assert EntryIndex(s.timetableEntries, 2) == 0;
    var u := s.PutTimetable(2, Lesson(3));
  }
}
