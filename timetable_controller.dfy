/**
 * The database-backed timetable controller. The repositories are the sequence fields of the
 * controller; `findOne` returns the first match in storage order and `save` of a new entry appends
 * it under the next auto-increment id.
 */
module Controllers {
  import opened Wrappers
  import opened Entities
  import opened TimetableModel
  import opened Request
  import opened Schedule

  /** The lookups of a PUT all succeed: the entry exists, and a given subject or teacher is stored. */
  predicate UpdateResolves(t: seq<Entry>, cat: Catalog, id: int, b: UpdateBody) {
    && EntryIndex(t, id) != -1
    && (Truthy(b.subjectId) ==> HasId(cat.subjects, b.subjectId.value))
    && (Truthy(b.teacherId) ==> HasId(cat.teachers, b.teacherId.value))
  }

  /** The entry a PUT of `b` to entry `id` saves when it passes its checks. */
  function UpdatedEntry(t: seq<Entry>, id: int, b: UpdateBody): Entry
    requires EntryIndex(t, id) != -1
  {
    Revised(t[EntryIndex(t, id)], b)
  }

  /** A PUT's teacher check refuses: the lookup fails, or another entry books the revised entry's
      teacher in its period on its day. */
  predicate TeacherBlocked(t: seq<Entry>, id: int, b: UpdateBody, lookupFails: bool)
    requires EntryIndex(t, id) != -1
  {
    lookupFails || ClashesOther(t, TeacherRule, UpdatedEntry(t, id, b), id)
  }

  /** A PUT's class check refuses: another entry books the class in its period on the revised day. */
  predicate ClassBlocked(t: seq<Entry>, id: int, b: UpdateBody)
    requires EntryIndex(t, id) != -1
  {
    ClashesOther(t, ClassRule, UpdatedEntry(t, id, b), id)
  }

  /** The result of the teacher conflict check (its message is not modelled). */
  datatype ConflictCheck = ConflictCheck(hasConflict: bool, conflicting: Option<Entry>)

  class TimetableController {
    var classes: seq<ClassRec>
    var subjects: seq<SubjectRec>
    var teachers: seq<TeacherRec>
    var periods: seq<PeriodRec>   // in ascending start-time order, as the period queries return them
    var timetables: seq<Entry>
    var nextId: int               // the next auto-increment id

    function Catalogue(): Catalog
      reads this
    {
      Catalog(classes, subjects, teachers, periods)
    }

    /** What storage guarantees: positive distinct ids below the counter, the unique constraint on
        (class, period, dayOfWeek), and foreign keys that resolve. */
    ghost predicate Valid()
      reads this
    {
      && 1 <= nextId
      && (forall i :: 0 <= i < |timetables| ==> 1 <= timetables[i].id < nextId)
      && Respects(timetables, IdRule)
      && Respects(timetables, ClassRule)
      && RefIntegrity(timetables, Catalogue())
    }

    /** Is the teacher already booked in this period on this day? An exclusion id is honoured only when
        truthy; a failing lookup reports a conflict (fail closed). */
    function CheckTeacherConflict(teacherId: int, periodId: int, dayOfWeek: int, excludeId: Option<int>,
                                  lookupFails: bool): (r: ConflictCheck)
      reads this
      ensures r.hasConflict <==>
                lookupFails ||
                exists i :: 0 <= i < |timetables| && timetables[i].teacherId == teacherId &&
                            timetables[i].periodId == periodId && timetables[i].dayOfWeek == dayOfWeek &&
                            (!Truthy(excludeId) || timetables[i].id != excludeId.value)
      ensures r.conflicting.Some? ==>
                !lookupFails && r.conflicting.value in timetables &&
                r.conflicting.value.teacherId == teacherId && r.conflicting.value.periodId == periodId &&
                r.conflicting.value.dayOfWeek == dayOfWeek &&
                (!Truthy(excludeId) || r.conflicting.value.id != excludeId.value)
      ensures lookupFails ==> r == ConflictCheck(true, None)
      ensures !lookupFails ==> (r.conflicting.Some? <==> r.hasConflict)
      ensures r.conflicting.Some? ==>
                exists i :: FirstAt(timetables, i, Query(TeacherOf(teacherId), periodId, dayOfWeek,
                                                         if Truthy(excludeId) then excludeId else None)) &&
                            timetables[i] == r.conflicting.value
    {
      if lookupFails then ConflictCheck(true, None)
      else
        var found := Find(timetables, Query(TeacherOf(teacherId), periodId, dayOfWeek,
                                            if Truthy(excludeId) then excludeId else None));
        ConflictCheck(found.Some?, found)
    }

    /** The checks of a POST, in the order they run: the 400 test, the four references (404), a class
        clash and then a teacher clash (409). Returns the first error reply, or `Created` with the entry
        that would be stored under the next id. `dayOfWeek` is not range-checked. */
    method PlanCreate(body: TimetableBody, lookupFails: bool) returns (r: Reply<Entry>)
      requires Valid()
      ensures r.Created? || r.BadRequest? || r.NotFound? || r.Conflict?
      ensures r.BadRequest? <==> !Complete(body)
      ensures r.NotFound? <==> Complete(body) && !Resolves(EntryOf(body, 0), Catalogue())
      ensures r.Conflict? && r.kind == ClassConflict <==>
                Complete(body) && Resolves(EntryOf(body, 0), Catalogue()) &&
                Clashes(timetables, ClassRule, EntryOf(body, 0))
      ensures r.Conflict? && r.kind == TeacherConflict <==>
                Complete(body) && Resolves(EntryOf(body, 0), Catalogue()) &&
                !Clashes(timetables, ClassRule, EntryOf(body, 0)) &&
                (lookupFails || Clashes(timetables, TeacherRule, EntryOf(body, 0)))
      ensures r.Conflict? && (r.kind == ClassConflict || !lookupFails) ==> r.conflicting.Some?
      ensures r.Conflict? && r.conflicting.Some? ==>
                r.conflicting.value in timetables &&
                Collide(if r.kind == ClassConflict then ClassRule else TeacherRule, r.conflicting.value, EntryOf(body, 0))
      ensures r.Created? ==>
                Complete(body) && r.body == EntryOf(body, nextId) && Resolves(r.body, Catalogue()) &&
                !Clashes(timetables, ClassRule, r.body) && !Clashes(timetables, TeacherRule, r.body)
    {
      if !Complete(body) {
        return BadRequest;
      }
      var e := EntryOf(body, nextId);
      if !Resolves(e, Catalogue()) {
        return NotFound;
      }
      FindNoneIffClashFree(timetables, ClassRule, e, None);
      FindNoneIffClashFree(timetables, TeacherRule, e, None);
      var existing := Find(timetables, ClashQuery(ClassRule, e, None));
      if existing.Some? {
        return Conflict(ClassConflict, existing);
      }
      var check := CheckTeacherConflict(e.teacherId, e.periodId, e.dayOfWeek, None, lookupFails);
      if check.hasConflict {
        return Conflict(TeacherConflict, check.conflicting);
      }
      r := Created(e);
    }

    /** POST: run the checks and, when they all pass, store the entry under a fresh id. */
    method Create(body: TimetableBody, lookupFails: bool) returns (r: Reply<Entry>)
      requires Valid()
      modifies this
      ensures Valid()
      ensures Catalogue() == old(Catalogue())
      ensures r.Created? || r.BadRequest? || r.NotFound? || r.Conflict?
      ensures !r.Created? ==> timetables == old(timetables) && nextId == old(nextId)
      ensures r.BadRequest? <==> !Complete(body)
      ensures r.NotFound? <==> Complete(body) && !Resolves(EntryOf(body, 0), Catalogue())
      ensures r.Conflict? && r.kind == ClassConflict <==>
                Complete(body) && Resolves(EntryOf(body, 0), Catalogue()) &&
                Clashes(old(timetables), ClassRule, EntryOf(body, 0))
      ensures r.Conflict? && r.kind == TeacherConflict <==>
                Complete(body) && Resolves(EntryOf(body, 0), Catalogue()) &&
                !Clashes(old(timetables), ClassRule, EntryOf(body, 0)) &&
                (lookupFails || Clashes(old(timetables), TeacherRule, EntryOf(body, 0)))
      ensures r.Conflict? && (r.kind == ClassConflict || !lookupFails) ==> r.conflicting.Some?
      ensures r.Conflict? && r.conflicting.Some? ==>
                r.conflicting.value in old(timetables) &&
                Collide(if r.kind == ClassConflict then ClassRule else TeacherRule, r.conflicting.value, EntryOf(body, 0))
      ensures r.Created? ==>
                Complete(body) && r.body == EntryOf(body, old(nextId)) &&
                timetables == old(timetables) + [r.body] && nextId == old(nextId) + 1
      ensures old(Respects(timetables, TeacherRule)) ==> Respects(timetables, TeacherRule)
    {
      r := PlanCreate(body, lookupFails);
      if r.Created? {
        var e := r.body;
        AppendKeepsRule(timetables, e, ClassRule);
        if Respects(timetables, TeacherRule) {
          AppendKeepsRule(timetables, e, TeacherRule);
        }
        forall k | 0 <= k < |timetables| ensures !Collide(IdRule, timetables[k], e) {
          assert timetables[k].id < nextId;
        }
        AppendKeepsRule(timetables, e, IdRule);
        timetables := timetables + [e];
        nextId := nextId + 1;
      }
    }

    /** The checks of a PUT, in the order they run: load the entry, then resolve a given subject and a
        given teacher (404s), then the conflict checks. Returns the first error reply, or `Ok` with the
        entry that would be saved. Class and period never change. */
    method PlanUpdate(id: int, body: UpdateBody, lookupFails: bool) returns (r: Reply<Entry>)
      requires Valid()
      ensures r.Ok? || r.NotFound? || r.Conflict?
      ensures r.NotFound? <==> !UpdateResolves(timetables, Catalogue(), id, body)
      ensures r.Conflict? && r.kind == ClassConflict <==>
                UpdateResolves(timetables, Catalogue(), id, body) && body.dayOfWeek.Some? &&
                ClassBlocked(timetables, id, body) &&
                !(Truthy(body.teacherId) && TeacherBlocked(timetables, id, body, lookupFails))
      ensures r.Conflict? && r.kind == TeacherConflict <==>
                UpdateResolves(timetables, Catalogue(), id, body) && TeacherBlocked(timetables, id, body, lookupFails) &&
                (Truthy(body.teacherId) || (body.dayOfWeek.Some? && !ClassBlocked(timetables, id, body)))
      ensures r.Ok? <==>
                UpdateResolves(timetables, Catalogue(), id, body) &&
                !(Truthy(body.teacherId) && TeacherBlocked(timetables, id, body, lookupFails)) &&
                !(body.dayOfWeek.Some? && (ClassBlocked(timetables, id, body) || TeacherBlocked(timetables, id, body, lookupFails)))
      ensures r.Conflict? && (r.kind == ClassConflict || !lookupFails) ==> r.conflicting.Some?
      ensures r.Ok? ==>
                var i := EntryIndex(timetables, id);
                0 <= i && r.body == Revised(timetables[i], body) && Resolves(r.body, Catalogue())
      ensures r.Ok? ==> !ClashesOther(timetables, ClassRule, r.body, id)
      ensures r.Ok? && (Truthy(body.teacherId) || body.dayOfWeek.Some? || Respects(timetables, TeacherRule)) ==>
                !ClashesOther(timetables, TeacherRule, r.body, id)
      ensures r.Conflict? && r.conflicting.Some? ==>
                r.conflicting.value in timetables && r.conflicting.value.id != id
      ensures r.Conflict? && r.conflicting.Some? ==>
                EntryIndex(timetables, id) != -1 &&
                Collide(if r.kind == ClassConflict then ClassRule else TeacherRule, r.conflicting.value,
                        UpdatedEntry(timetables, id, body))
    {
      var i := EntryIndex(timetables, id);
      if i == -1 {
        return NotFound;
      }
      var e := timetables[i];
      if Truthy(body.subjectId) {
        if !HasId(subjects, body.subjectId.value) {
          return NotFound;
        }
        e := e.(subjectId := body.subjectId.value);
      }
      if Truthy(body.teacherId) && !HasId(teachers, body.teacherId.value) {
        return NotFound;
      }
      assert Resolves(timetables[i], Catalogue());
      r := CheckRevision(id, body, e, lookupFails);
      if r.Ok? {
        UpdateStaysClear(id, body, lookupFails);
      }
    }

    /** The conflict checks of a PUT whose lookups all succeeded, on the loaded entry `e` with its subject
        already reassigned: the teacher check when a teacher is given (against the given day, or else the
        stored one), then, when a day is given, the checks of `CheckNewDay`. */
    method CheckRevision(id: int, body: UpdateBody, e: Entry, lookupFails: bool) returns (r: Reply<Entry>)
      requires Valid() && UpdateResolves(timetables, Catalogue(), id, body)
      requires e == timetables[EntryIndex(timetables, id)].(subjectId := UpdatedEntry(timetables, id, body).subjectId)
      ensures r.Ok? || r.Conflict?
      ensures r.Conflict? && r.kind == ClassConflict <==>
                body.dayOfWeek.Some? && ClassBlocked(timetables, id, body) &&
                !(Truthy(body.teacherId) && TeacherBlocked(timetables, id, body, lookupFails))
      ensures r.Conflict? && r.kind == TeacherConflict <==>
                TeacherBlocked(timetables, id, body, lookupFails) &&
                (Truthy(body.teacherId) || (body.dayOfWeek.Some? && !ClassBlocked(timetables, id, body)))
      ensures r.Conflict? && (r.kind == ClassConflict || !lookupFails) ==> r.conflicting.Some?
      ensures r.Conflict? && r.conflicting.Some? ==>
                r.conflicting.value in timetables && r.conflicting.value.id != id
      ensures r.Conflict? && r.conflicting.Some? ==>
                Collide(if r.kind == ClassConflict then ClassRule else TeacherRule, r.conflicting.value,
                        UpdatedEntry(timetables, id, body))
      ensures r.Ok? ==> r.body == UpdatedEntry(timetables, id, body)
    {
      ghost var rev := UpdatedEntry(timetables, id, body);
      ghost var tc := TeacherBlocked(timetables, id, body, lookupFails);
      assert Truthy(Some(id));
      var e := e;
      if Truthy(body.teacherId) {
        var dayToCheck := if body.dayOfWeek.Some? then body.dayOfWeek.value else e.dayOfWeek;
        var check := CheckTeacherConflict(body.teacherId.value, e.periodId, dayToCheck, Some(id), lookupFails);
        assert check.hasConflict <==> tc by {
          assert rev.teacherId == body.teacherId.value && rev.periodId == e.periodId && rev.dayOfWeek == dayToCheck;
        }
        if check.hasConflict {
          return Conflict(TeacherConflict, check.conflicting);
        }
        e := e.(teacherId := body.teacherId.value);
      }
      assert e.(dayOfWeek := rev.dayOfWeek) == rev;
      if body.dayOfWeek.Some? {
        r := CheckNewDay(id, body, e, lookupFails);
      } else {
        r := Ok(e);
      }
    }

    /** The checks of a PUT that gives a day, on the loaded entry `e` with its subject and teacher
        already reassigned: another entry of the class in the period on the new day is a class 409,
        and then the teacher check of the new day reads the teacher as reassigned. */
    method CheckNewDay(id: int, body: UpdateBody, e: Entry, lookupFails: bool) returns (r: Reply<Entry>)
      requires Valid() && EntryIndex(timetables, id) != -1 && body.dayOfWeek.Some?
      requires e.(dayOfWeek := body.dayOfWeek.value) == UpdatedEntry(timetables, id, body)
      ensures r.Ok? || r.Conflict?
      ensures r.Conflict? && r.kind == ClassConflict <==> ClassBlocked(timetables, id, body)
      ensures r.Conflict? && r.kind == TeacherConflict <==>
                !ClassBlocked(timetables, id, body) && TeacherBlocked(timetables, id, body, lookupFails)
      ensures r.Conflict? && (r.kind == ClassConflict || !lookupFails) ==> r.conflicting.Some?
      ensures r.Conflict? && r.conflicting.Some? ==>
                r.conflicting.value in timetables && r.conflicting.value.id != id &&
                Collide(if r.kind == ClassConflict then ClassRule else TeacherRule, r.conflicting.value,
                        UpdatedEntry(timetables, id, body))
      ensures r.Ok? ==> r.body == UpdatedEntry(timetables, id, body)
    {
      ghost var rev := UpdatedEntry(timetables, id, body);
      assert Truthy(Some(id));
      var day := body.dayOfWeek.value;
      var q := Query(ClassOf(e.classId), e.periodId, day, Some(id));
      var classConflict := Find(timetables, q);
      assert classConflict.Some? <==> ClassBlocked(timetables, id, body) by {
        assert forall k :: 0 <= k < |timetables| ==>
          (Matches(timetables[k], q) <==> timetables[k].id != id && Collide(ClassRule, timetables[k], rev));
      }
      if classConflict.Some? {
        return Conflict(ClassConflict, classConflict);
      }
      var check := CheckTeacherConflict(e.teacherId, e.periodId, day, Some(id), lookupFails);
      if check.hasConflict {
        return Conflict(TeacherConflict, check.conflicting);
      }
      r := Ok(e.(dayOfWeek := day));
    }

    /** A PUT that passes its checks saves an entry that collides with no entry of another id: under the
        class rule always, under the teacher rule when the teacher or the day was checked or the table
        kept the teacher rule. */
    lemma UpdateStaysClear(id: int, body: UpdateBody, lookupFails: bool)
      requires Valid() && UpdateResolves(timetables, Catalogue(), id, body)
      requires !(Truthy(body.teacherId) && TeacherBlocked(timetables, id, body, lookupFails))
      requires !(body.dayOfWeek.Some? && (ClassBlocked(timetables, id, body) || TeacherBlocked(timetables, id, body, lookupFails)))
      ensures !ClashesOther(timetables, ClassRule, UpdatedEntry(timetables, id, body), id)
      ensures Truthy(body.teacherId) || body.dayOfWeek.Some? || Respects(timetables, TeacherRule) ==>
                !ClashesOther(timetables, TeacherRule, UpdatedEntry(timetables, id, body), id)
    {
      var i := EntryIndex(timetables, id);
      var e := UpdatedEntry(timetables, id, body);
      if body.dayOfWeek.None? {
        SameSlotStaysClear(timetables, i, e, ClassRule);
        if !Truthy(body.teacherId) && Respects(timetables, TeacherRule) {
          SameSlotStaysClear(timetables, i, e, TeacherRule);
        }
      }
    }

    /** PUT: run the checks and, when they all pass, save the revised entry in place. */
    method Update(id: int, body: UpdateBody, lookupFails: bool) returns (r: Reply<Entry>)
      requires Valid()
      modifies this
      ensures Valid()
      ensures Catalogue() == old(Catalogue()) && nextId == old(nextId)
      ensures r.Ok? || r.NotFound? || r.Conflict?
      ensures !r.Ok? ==> timetables == old(timetables)
      ensures r.NotFound? <==> !UpdateResolves(old(timetables), old(Catalogue()), id, body)
      ensures r.Conflict? && r.kind == ClassConflict <==>
                UpdateResolves(old(timetables), old(Catalogue()), id, body) && body.dayOfWeek.Some? &&
                ClassBlocked(old(timetables), id, body) &&
                !(Truthy(body.teacherId) && TeacherBlocked(old(timetables), id, body, lookupFails))
      ensures r.Conflict? && r.kind == TeacherConflict <==>
                UpdateResolves(old(timetables), old(Catalogue()), id, body) &&
                TeacherBlocked(old(timetables), id, body, lookupFails) &&
                (Truthy(body.teacherId) || (body.dayOfWeek.Some? && !ClassBlocked(old(timetables), id, body)))
      ensures r.Ok? <==>
                UpdateResolves(old(timetables), old(Catalogue()), id, body) &&
                !(Truthy(body.teacherId) && TeacherBlocked(old(timetables), id, body, lookupFails)) &&
                !(body.dayOfWeek.Some? &&
                  (ClassBlocked(old(timetables), id, body) || TeacherBlocked(old(timetables), id, body, lookupFails)))
      ensures r.Conflict? && (r.kind == ClassConflict || !lookupFails) ==> r.conflicting.Some?
      ensures r.Conflict? && r.conflicting.Some? ==>
                r.conflicting.value in old(timetables) && r.conflicting.value.id != id &&
                EntryIndex(old(timetables), id) != -1 &&
                Collide(if r.kind == ClassConflict then ClassRule else TeacherRule, r.conflicting.value,
                        UpdatedEntry(old(timetables), id, body))
      ensures r.Ok? ==>
                var i := EntryIndex(old(timetables), id);
                0 <= i && r.body == Revised(old(timetables)[i], body) && timetables == old(timetables)[i := r.body]
      ensures old(Respects(timetables, TeacherRule)) ==> Respects(timetables, TeacherRule)
    {
      r := PlanUpdate(id, body, lookupFails);
      if r.Ok? {
        var i := EntryIndex(timetables, id);
        var e := r.body;
        forall k | 0 <= k < |timetables| && k != i ensures timetables[k].id != id {
          assert !Collide(IdRule, timetables[k], timetables[i]);
        }
        ReplaceKeepsRule(timetables, i, e, IdRule);
        ReplaceKeepsRule(timetables, i, e, ClassRule);
        if Respects(timetables, TeacherRule) {
          ReplaceKeepsRule(timetables, i, e, TeacherRule);
        }
        timetables := timetables[i := e];
      }
    }

    /** DELETE: 404 when no entry has the id, otherwise that entry is removed. */
    method Delete(id: int) returns (r: Reply<Entry>)
      requires Valid()
      modifies this
      ensures Valid()
      ensures Catalogue() == old(Catalogue()) && nextId == old(nextId)
      ensures r.NoContent? || r.NotFound?
      ensures r.NotFound? <==> EntryIndex(old(timetables), id) == -1
      ensures r.NotFound? ==> timetables == old(timetables)
      ensures r.NoContent? ==>
                var i := EntryIndex(old(timetables), id);
                timetables == old(timetables)[..i] + old(timetables)[i + 1..] && |timetables| == |old(timetables)| - 1
      ensures forall k :: 0 <= k < |timetables| ==> timetables[k].id != id
      ensures old(Respects(timetables, TeacherRule)) ==> Respects(timetables, TeacherRule)
    {
      var i := EntryIndex(timetables, id);
      if i == -1 {
        return NotFound;
      }
      var rest := timetables[..i] + timetables[i + 1..];
      SpliceLeavesOthers(timetables, i, rest);
      SpliceKeepsRule(timetables, i, IdRule);
      SpliceKeepsRule(timetables, i, ClassRule);
      if Respects(timetables, TeacherRule) {
        SpliceKeepsRule(timetables, i, TeacherRule);
      }
      timetables := rest;
      r := NoContent;
    }

    /** What storage does when a class, subject, teacher or period row is deleted: the row goes and every
        entry referencing it goes with it. The stored invariants survive. */
    method CascadeDelete(r: Ref)
      requires Valid()
      modifies this
      ensures Valid()
      ensures Catalogue() == Drop(old(Catalogue()), r) && nextId == old(nextId)
      ensures timetables == Without(old(timetables), r)
      ensures !Referenced(timetables, r) && !Stored(Catalogue(), r)
      ensures forall e :: e in timetables <==> e in old(timetables) && !Mentions(e, r)
    {
      var rest := Without(timetables, r);
      var cat := Drop(Catalogue(), r);
      CascadeKeepsIntegrity(timetables, Catalogue(), r);
      WithoutKeepsRule(timetables, r, IdRule);
      WithoutKeepsRule(timetables, r, ClassRule);
      forall k | 0 <= k < |rest| ensures 1 <= rest[k].id < nextId {
        assert rest[k] in timetables;
      }
      timetables := rest;
      classes, subjects, teachers, periods := cat.classes, cat.subjects, cat.teachers, cat.periods;
      assert Catalogue() == cat;
    }

    /** The week of one class: 404 for an unknown class, otherwise 7 rows of one cell per period. */
    method GetClassSchedule(classId: int) returns (r: Reply<ClassSchedule>)
      requires Valid()
      ensures r.Ok? || r.NotFound?
      ensures r.NotFound? <==> !HasId(classes, classId)
      ensures r.Ok? ==>
                HasId(classes, classId) && r.body.className == NameOf(classes, classId) &&
                r.body.days == Weekdays && r.body.periods == Names(periods)
      ensures r.Ok? ==>
                |r.body.data| == 7 &&
                forall d :: 0 <= d < 7 ==> r.body.data[d].day == Weekdays[d] && |r.body.data[d].slots| == |periods|
      ensures r.Ok? ==>
                forall d, p :: 0 <= d < 7 && 0 <= p < |periods| ==>
                  ShowsFirstOfClass(timetables, Catalogue(), classId, d + 1, periods[p], r.body.data[d].slots[p])
      ensures r.Ok? ==>
                forall i, p :: 0 <= i < |timetables| && timetables[i].classId == classId && 0 <= p < |periods| &&
                               periods[p].id == timetables[i].periodId && IsWeekday(timetables[i].dayOfWeek) ==>
                  r.body.data[timetables[i].dayOfWeek - 1].slots[p].subject ==
                    Some(NameOf(subjects, timetables[i].subjectId)) &&
                  r.body.data[timetables[i].dayOfWeek - 1].slots[p].teacher ==
                    Some(NameOf(teachers, timetables[i].teacherId))
    {
      if !HasId(classes, classId) {
        return NotFound;
      }
      var data := ClassWeek(timetables, Catalogue(), classId);
      r := Ok(ClassSchedule(NameOf(classes, classId), Weekdays, Names(periods), data));
    }

    /** The week of one teacher: 404 for an unknown teacher, otherwise 7 rows of one cell per period. */
    method GetTeacherSchedule(teacherId: int) returns (r: Reply<TeacherSchedule>)
      requires Valid()
      ensures r.Ok? || r.NotFound?
      ensures r.NotFound? <==> !HasId(teachers, teacherId)
      ensures r.Ok? ==>
                HasId(teachers, teacherId) && r.body.teacherName == NameOf(teachers, teacherId) &&
                r.body.days == Weekdays && r.body.periods == Names(periods)
      ensures r.Ok? ==>
                |r.body.data| == 7 &&
                forall d :: 0 <= d < 7 ==> r.body.data[d].day == Weekdays[d] && |r.body.data[d].slots| == |periods|
      ensures r.Ok? ==>
                forall d, p :: 0 <= d < 7 && 0 <= p < |periods| ==>
                  ShowsFirstOfTeacher(timetables, Catalogue(), teacherId, d + 1, periods[p], r.body.data[d].slots[p])
      ensures r.Ok? && Respects(timetables, TeacherRule) ==>
                forall i, p :: 0 <= i < |timetables| && timetables[i].teacherId == teacherId &&
                               0 <= p < |periods| && periods[p].id == timetables[i].periodId &&
                               IsWeekday(timetables[i].dayOfWeek) ==>
                  r.body.data[timetables[i].dayOfWeek - 1].slots[p].className ==
                    Some(NameOf(classes, timetables[i].classId)) &&
                  r.body.data[timetables[i].dayOfWeek - 1].slots[p].subject ==
                    Some(NameOf(subjects, timetables[i].subjectId))
    {
      if !HasId(teachers, teacherId) {
        return NotFound;
      }
      var data := TeacherWeek(timetables, Catalogue(), teacherId);
      r := Ok(TeacherSchedule(NameOf(teachers, teacherId), Weekdays, Names(periods), data));
    }

    /** The grid of one day: 400 unless the parsed day is a number in 1..7, otherwise one row per class
        with one cell per period. */
    method GetWeekdaySchedule(dayOfWeek: Option<int>) returns (r: Reply<WeekdaySchedule>)
      requires Valid()
      ensures r.Ok? || r.BadRequest?
      ensures r.BadRequest? <==> dayOfWeek.None? || !IsWeekday(dayOfWeek.value)
      ensures r.Ok? ==>
                r.body.weekday == Weekdays[dayOfWeek.value - 1] && r.body.dayNumber == dayOfWeek.value &&
                r.body.periods == Names(periods) && r.body.classes == Names(classes)
      ensures r.Ok? ==>
                |r.body.slots| == |classes| &&
                forall c :: 0 <= c < |classes| ==>
                  ShowsClassDay(timetables, Catalogue(), dayOfWeek.value, classes[c], r.body.slots[c])
      ensures r.Ok? ==>
                forall c :: 0 <= c < |classes| ==>
                  ShowsBookings(timetables, Catalogue(), dayOfWeek.value, classes[c], r.body.slots[c])
    {
      if dayOfWeek.None? || dayOfWeek.value < 1 || dayOfWeek.value > 7 {
        return BadRequest;
      }
      var day := dayOfWeek.value;
      var lines := BuildWeekdayLines(timetables, Catalogue(), day);
      forall c | 0 <= c < |classes|
        ensures ShowsBookings(timetables, Catalogue(), day, classes[c], lines[c])
      {
        WeekdayRowShowsBookings(timetables, Catalogue(), day, classes[c], lines[c]);
      }
      r := Ok(WeekdaySchedule(Weekdays[day - 1], day, Names(periods), Names(classes), lines));
    }
  }
}
