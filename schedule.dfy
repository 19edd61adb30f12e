/**
 * The read-only grids built from the flat table: one class's week, one teacher's week, and all
 * classes on one day. Every grid has a cell for every period (and, for the day grid, every class);
 * a cell without an entry has null fields rather than being left out.
 */
module Schedule {
  import opened Wrappers
  import opened Entities
  import opened TimetableModel

  datatype ClassSlot = ClassSlot(periodId: int, periodName: string, subject: Option<string>, teacher: Option<string>)
  datatype ClassDay = ClassDay(day: string, slots: seq<ClassSlot>)
  datatype ClassSchedule = ClassSchedule(className: string, days: seq<string>, periods: seq<string>,
                                         data: seq<ClassDay>)

  datatype TeacherSlot = TeacherSlot(periodId: int, periodName: string, className: Option<string>,
                                     subject: Option<string>)
  datatype TeacherDay = TeacherDay(day: string, slots: seq<TeacherSlot>)
  datatype TeacherSchedule = TeacherSchedule(teacherName: string, days: seq<string>, periods: seq<string>,
                                             data: seq<TeacherDay>)

  datatype WeekdaySlot = WeekdaySlot(periodId: int, periodName: string, className: string,
                                     subject: Option<string>, teacher: Option<string>)
  /** The row of one class in the day grid (the source keys these rows by class name). */
  datatype ClassLine = ClassLine(className: string, slots: seq<WeekdaySlot>)
  datatype WeekdaySchedule = WeekdaySchedule(weekday: string, dayNumber: int, periods: seq<string>,
                                             classes: seq<string>, slots: seq<ClassLine>)

  /** Some entry of `t` sits on `day` in `periodId`. */
  predicate Booked(t: seq<Entry>, day: int, periodId: int) {
    exists i :: 0 <= i < |t| && t[i].dayOfWeek == day && t[i].periodId == periodId
  }

  /** Some entry of `t` referencing `r` sits on `day` in `periodId`. */
  predicate BookedFor(t: seq<Entry>, r: Ref, day: int, periodId: int) {
    exists i :: 0 <= i < |t| && Mentions(t[i], r) && t[i].dayOfWeek == day && t[i].periodId == periodId
  }

  /** Cell of a class's week: the names of the subject and teacher of the first entry in the slot. */
  function ClassCell(t: seq<Entry>, p: PeriodRec, day: int, cat: Catalog): (c: ClassSlot)
    requires RefIntegrity(t, cat)
    ensures c.periodId == p.id && c.periodName == p.name
    ensures c.subject.Some? <==> Booked(t, day, p.id)
    ensures c.teacher.Some? <==> Booked(t, day, p.id)
    ensures Booked(t, day, p.id) ==>
              exists i :: FirstAt(t, i, Query(Anyone, p.id, day, None)) &&
                          c.subject == Some(NameOf(cat.subjects, t[i].subjectId)) &&
                          c.teacher == Some(NameOf(cat.teachers, t[i].teacherId))
  {
    var q := Query(Anyone, p.id, day, None);
    assert forall i :: 0 <= i < |t| ==> (Matches(t[i], q) <==> t[i].dayOfWeek == day && t[i].periodId == p.id);
    match Find(t, q)
    case None => ClassSlot(p.id, p.name, None, None)
    case Some(e) =>
      assert Resolves(e, cat);
      ClassSlot(p.id, p.name, Some(NameOf(cat.subjects, e.subjectId)), Some(NameOf(cat.teachers, e.teacherId)))
  }

  /** Cell of a teacher's week: the names of the class and subject of the first entry in the slot. */
  function TeacherCell(t: seq<Entry>, p: PeriodRec, day: int, cat: Catalog): (c: TeacherSlot)
    requires RefIntegrity(t, cat)
    ensures c.periodId == p.id && c.periodName == p.name
    ensures c.className.Some? <==> Booked(t, day, p.id)
    ensures c.subject.Some? <==> Booked(t, day, p.id)
    ensures Booked(t, day, p.id) ==>
              exists i :: FirstAt(t, i, Query(Anyone, p.id, day, None)) &&
                          c.className == Some(NameOf(cat.classes, t[i].classId)) &&
                          c.subject == Some(NameOf(cat.subjects, t[i].subjectId))
  {
    var q := Query(Anyone, p.id, day, None);
    assert forall i :: 0 <= i < |t| ==> (Matches(t[i], q) <==> t[i].dayOfWeek == day && t[i].periodId == p.id);
    match Find(t, q)
    case None => TeacherSlot(p.id, p.name, None, None)
    case Some(e) =>
      assert Resolves(e, cat);
      TeacherSlot(p.id, p.name, Some(NameOf(cat.classes, e.classId)), Some(NameOf(cat.subjects, e.subjectId)))
  }

  /** Cell of the day grid: the first entry of class `c` in period `p` on `day`. */
  function WeekdayCell(t: seq<Entry>, c: ClassRec, p: PeriodRec, day: int, cat: Catalog): (s: WeekdaySlot)
    requires RefIntegrity(t, cat)
    ensures s.periodId == p.id && s.periodName == p.name && s.className == c.name
    ensures s.subject.Some? <==> BookedFor(t, ClassRef(c.id), day, p.id)
    ensures s.teacher.Some? <==> s.subject.Some?
    ensures s.subject.Some? ==>
              exists i :: FirstAt(t, i, Query(ClassOf(c.id), p.id, day, None)) &&
                          s.subject == Some(NameOf(cat.subjects, t[i].subjectId)) &&
                          s.teacher == Some(NameOf(cat.teachers, t[i].teacherId))
  {
    var q := Query(ClassOf(c.id), p.id, day, None);
    match Find(t, q)
    case None => WeekdaySlot(p.id, p.name, c.name, None, None)
    case Some(e) =>
      assert Resolves(e, cat);
      WeekdaySlot(p.id, p.name, c.name, Some(NameOf(cat.subjects, e.subjectId)), Some(NameOf(cat.teachers, e.teacherId)))
  }

  /** The nested loops of a class schedule: seven day rows, each with one cell per period in order. */
  method BuildClassWeek(t: seq<Entry>, cat: Catalog) returns (data: seq<ClassDay>)
    requires RefIntegrity(t, cat)
    ensures |data| == 7
    ensures forall d :: 0 <= d < 7 ==> data[d].day == Weekdays[d] && |data[d].slots| == |cat.periods|
    ensures forall d, p :: 0 <= d < 7 && 0 <= p < |cat.periods| ==>
              data[d].slots[p] == ClassCell(t, cat.periods[p], d + 1, cat)
    ensures forall d, p :: 0 <= d < 7 && 0 <= p < |cat.periods| ==>
              data[d].slots[p].periodId == cat.periods[p].id &&
              (data[d].slots[p].subject.Some? <==> Booked(t, d + 1, cat.periods[p].id))
  {
    data := [];
    for day := 1 to 8
      invariant |data| == day - 1
      invariant forall d :: 0 <= d < day - 1 ==> data[d].day == Weekdays[d] && |data[d].slots| == |cat.periods|
      invariant forall d, p :: 0 <= d < day - 1 && 0 <= p < |cat.periods| ==>
                  data[d].slots[p] == ClassCell(t, cat.periods[p], d + 1, cat)
    {
      var slots: seq<ClassSlot> := [];
      for k := 0 to |cat.periods|
        invariant |slots| == k
        invariant forall p :: 0 <= p < k ==> slots[p] == ClassCell(t, cat.periods[p], day, cat)
      {
        slots := slots + [ClassCell(t, cat.periods[k], day, cat)];
      }
      data := data + [ClassDay(Weekdays[day - 1], slots)];
    }
  }

  /** The nested loops of a teacher schedule: seven day rows, each with one cell per period in order. */
  method BuildTeacherWeek(t: seq<Entry>, cat: Catalog) returns (data: seq<TeacherDay>)
    requires RefIntegrity(t, cat)
    ensures |data| == 7
    ensures forall d :: 0 <= d < 7 ==> data[d].day == Weekdays[d] && |data[d].slots| == |cat.periods|
    ensures forall d, p :: 0 <= d < 7 && 0 <= p < |cat.periods| ==>
              data[d].slots[p] == TeacherCell(t, cat.periods[p], d + 1, cat)
    ensures forall d, p :: 0 <= d < 7 && 0 <= p < |cat.periods| ==>
              data[d].slots[p].periodId == cat.periods[p].id &&
              (data[d].slots[p].className.Some? <==> Booked(t, d + 1, cat.periods[p].id))
  {
    data := [];
    for day := 1 to 8
      invariant |data| == day - 1
      invariant forall d :: 0 <= d < day - 1 ==> data[d].day == Weekdays[d] && |data[d].slots| == |cat.periods|
      invariant forall d, p :: 0 <= d < day - 1 && 0 <= p < |cat.periods| ==>
                  data[d].slots[p] == TeacherCell(t, cat.periods[p], d + 1, cat)
    {
      var slots: seq<TeacherSlot> := [];
      for k := 0 to |cat.periods|
        invariant |slots| == k
        invariant forall p :: 0 <= p < k ==> slots[p] == TeacherCell(t, cat.periods[p], day, cat)
      {
        slots := slots + [TeacherCell(t, cat.periods[k], day, cat)];
      }
      data := data + [TeacherDay(Weekdays[day - 1], slots)];
    }
  }

  /** The row of class `c` in the day grid of `day` shows, per period in order, whether `c` has an entry
      there and, when it has, the subject and teacher of its first such entry. */
  ghost predicate ShowsClassDay(t: seq<Entry>, cat: Catalog, day: int, c: ClassRec, line: ClassLine)
    requires RefIntegrity(t, cat)
  {
    && line.className == c.name
    && |line.slots| == |cat.periods|
    && forall p :: 0 <= p < |cat.periods| ==>
         && line.slots[p].className == c.name
         && line.slots[p].periodId == cat.periods[p].id
         && (line.slots[p].subject.Some? <==> BookedFor(t, ClassRef(c.id), day, cat.periods[p].id))
         && (line.slots[p].teacher.Some? <==> line.slots[p].subject.Some?)
         && (line.slots[p].subject.Some? ==>
               exists i :: FirstAt(t, i, Query(ClassOf(c.id), cat.periods[p].id, day, None)) &&
                           line.slots[p].subject == Some(NameOf(cat.subjects, t[i].subjectId)) &&
                           line.slots[p].teacher == Some(NameOf(cat.teachers, t[i].teacherId)))
  }

  /** Every entry of class `c` on `day` appears in `line` under its period, with its subject and teacher. */
  ghost predicate ShowsBookings(t: seq<Entry>, cat: Catalog, day: int, c: ClassRec, line: ClassLine)
    requires RefIntegrity(t, cat)
  {
    && |line.slots| == |cat.periods|
    && forall i, p :: 0 <= i < |t| && t[i].classId == c.id && t[i].dayOfWeek == day &&
                      0 <= p < |cat.periods| && cat.periods[p].id == t[i].periodId ==>
         line.slots[p].subject == Some(NameOf(cat.subjects, t[i].subjectId)) &&
         line.slots[p].teacher == Some(NameOf(cat.teachers, t[i].teacherId))
  }

  /** The nested loops of the day grid: one row per class, in order, each with one cell per period. */
  method BuildWeekdayLines(t: seq<Entry>, cat: Catalog, day: int) returns (lines: seq<ClassLine>)
    requires RefIntegrity(t, cat)
    ensures |lines| == |cat.classes|
    ensures forall c :: 0 <= c < |lines| ==> ShowsClassDay(t, cat, day, cat.classes[c], lines[c])
  {
    lines := [];
    for c := 0 to |cat.classes|
      invariant |lines| == c
      invariant forall i :: 0 <= i < c ==> ShowsClassDay(t, cat, day, cat.classes[i], lines[i])
    {
      var slots := BuildWeekdayRow(t, cat, cat.classes[c], day);
      lines := lines + [ClassLine(cat.classes[c].name, slots)];
    }
  }

  /** The inner loop of the day grid: one cell per period for class `c`. */
  method BuildWeekdayRow(t: seq<Entry>, cat: Catalog, c: ClassRec, day: int) returns (slots: seq<WeekdaySlot>)
    requires RefIntegrity(t, cat)
    ensures |slots| == |cat.periods|
    ensures forall p :: 0 <= p < |slots| ==> slots[p] == WeekdayCell(t, c, cat.periods[p], day, cat)
    ensures ShowsClassDay(t, cat, day, c, ClassLine(c.name, slots))
  {
    slots := [];
    for k := 0 to |cat.periods|
      invariant |slots| == k
      invariant forall p :: 0 <= p < k ==> slots[p] == WeekdayCell(t, c, cat.periods[p], day, cat)
    {
      slots := slots + [WeekdayCell(t, c, cat.periods[k], day, cat)];
    }
  }

  /** Entries of one class never share a (period, day) under the class rule, so the cell of a class's
      week shows exactly the entry booked there. */
  lemma {:induction false} ClassCellIsTheBooking(t: seq<Entry>, classId: int, i: int, p: PeriodRec, cat: Catalog)
    requires Respects(t, ClassRule) && RefIntegrity(t, cat)
    requires 0 <= i < |t| && t[i].classId == classId && t[i].periodId == p.id
    ensures RefIntegrity(Only(t, ClassRef(classId)), cat)
    ensures ClassCell(Only(t, ClassRef(classId)), p, t[i].dayOfWeek, cat) ==
              ClassSlot(p.id, p.name, Some(NameOf(cat.subjects, t[i].subjectId)), Some(NameOf(cat.teachers, t[i].teacherId)))
  {
    var s := Only(t, ClassRef(classId));
    OnlyKeepsIntegrity(t, ClassRef(classId), cat);
    var q := Query(Anyone, t[i].periodId, t[i].dayOfWeek, None);
    assert t[i] in s;
    var f := Find(s, q);
    assert f.Some?;
    var e := f.value;
    assert e in s;
    var j :| 0 <= j < |t| && t[j] == e;
    assert Collide(ClassRule, t[j], t[i]);
    assert j == i;
  }

  /** A slot is booked among the entries referencing `r` exactly when some entry referencing `r` sits there. */
  lemma OnlyBooked(t: seq<Entry>, r: Ref, day: int, periodId: int)
    ensures Booked(Only(t, r), day, periodId) <==> BookedFor(t, r, day, periodId)
  {
    var s := Only(t, r);
    if Booked(s, day, periodId) {
      var j :| 0 <= j < |s| && s[j].dayOfWeek == day && s[j].periodId == periodId;
      assert s[j] in t;
    }
    if BookedFor(t, r, day, periodId) {
      var i :| 0 <= i < |t| && Mentions(t[i], r) && t[i].dayOfWeek == day && t[i].periodId == periodId;
      assert t[i] in s;
    }
  }

  /** The entries of one kind's reference keep resolving. */
  lemma OnlyKeepsIntegrity(t: seq<Entry>, r: Ref, cat: Catalog)
    requires RefIntegrity(t, cat)
    ensures RefIntegrity(Only(t, r), cat)
  {
    var s := Only(t, r);
    forall k | 0 <= k < |s| ensures Resolves(s[k], cat) {
      assert s[k] in t;
    }
  }

  /** Under the class rule a class has one entry per slot, so its row of the day grid shows every one of
      its entries on that day. */
  lemma {:induction false} WeekdayRowShowsBookings(t: seq<Entry>, cat: Catalog, day: int, c: ClassRec, line: ClassLine)
    requires Respects(t, ClassRule) && RefIntegrity(t, cat)
    requires ShowsClassDay(t, cat, day, c, line)
    ensures ShowsBookings(t, cat, day, c, line)
  {
    forall i, p | 0 <= i < |t| && t[i].classId == c.id && t[i].dayOfWeek == day &&
                  0 <= p < |cat.periods| && cat.periods[p].id == t[i].periodId
      ensures line.slots[p].subject == Some(NameOf(cat.subjects, t[i].subjectId)) &&
              line.slots[p].teacher == Some(NameOf(cat.teachers, t[i].teacherId))
    {
      assert Mentions(t[i], ClassRef(c.id));
      assert BookedFor(t, ClassRef(c.id), day, cat.periods[p].id);
      var j :| FirstAt(t, j, Query(ClassOf(c.id), cat.periods[p].id, day, None)) &&
               line.slots[p].subject == Some(NameOf(cat.subjects, t[j].subjectId)) &&
               line.slots[p].teacher == Some(NameOf(cat.teachers, t[j].teacherId));
      assert Collide(ClassRule, t[j], t[i]);
      assert j == i;
    }
  }

  /** Under the teacher rule a teacher has one entry per slot, so the cell of a teacher's week shows
      exactly the entry booked there. */
  lemma {:induction false} TeacherCellIsTheBooking(t: seq<Entry>, teacherId: int, i: int, p: PeriodRec, cat: Catalog)
    requires Respects(t, TeacherRule) && RefIntegrity(t, cat)
    requires 0 <= i < |t| && t[i].teacherId == teacherId && t[i].periodId == p.id
    ensures RefIntegrity(Only(t, TeacherRef(teacherId)), cat)
    ensures TeacherCell(Only(t, TeacherRef(teacherId)), p, t[i].dayOfWeek, cat) ==
              TeacherSlot(p.id, p.name, Some(NameOf(cat.classes, t[i].classId)), Some(NameOf(cat.subjects, t[i].subjectId)))
  {
    var s := Only(t, TeacherRef(teacherId));
    OnlyKeepsIntegrity(t, TeacherRef(teacherId), cat);
    var q := Query(Anyone, t[i].periodId, t[i].dayOfWeek, None);
    assert t[i] in s;
    var f := Find(s, q);
    assert f.Some?;
    var e := f.value;
    assert e in s;
    var j :| 0 <= j < |t| && t[j] == e;
    assert Collide(TeacherRule, t[j], t[i]);
    assert j == i;
  }

  /** `slot` of a class's week shows period `p` and, exactly when class `classId` has an entry there on
      `day`, the subject and teacher of its first such entry; otherwise both are null. */
  ghost predicate ShowsFirstOfClass(t: seq<Entry>, cat: Catalog, classId: int, day: int, p: PeriodRec, slot: ClassSlot)
    requires RefIntegrity(t, cat)
  {
    && slot.periodId == p.id && slot.periodName == p.name
    && (slot.subject.Some? <==> BookedFor(t, ClassRef(classId), day, p.id))
    && (slot.teacher.Some? <==> slot.subject.Some?)
    && (slot.subject.Some? ==>
          exists i :: FirstAt(t, i, Query(ClassOf(classId), p.id, day, None)) &&
                      slot.subject == Some(NameOf(cat.subjects, t[i].subjectId)) &&
                      slot.teacher == Some(NameOf(cat.teachers, t[i].teacherId)))
  }

  /** `slot` of a teacher's week shows period `p` and, exactly when teacher `teacherId` has an entry there
      on `day`, the class and subject of its first such entry; otherwise both are null. */
  ghost predicate ShowsFirstOfTeacher(t: seq<Entry>, cat: Catalog, teacherId: int, day: int, p: PeriodRec,
                                      slot: TeacherSlot)
    requires RefIntegrity(t, cat)
  {
    && slot.periodId == p.id && slot.periodName == p.name
    && (slot.className.Some? <==> BookedFor(t, TeacherRef(teacherId), day, p.id))
    && (slot.subject.Some? <==> slot.className.Some?)
    && (slot.className.Some? ==>
          exists i :: FirstAt(t, i, Query(TeacherOf(teacherId), p.id, day, None)) &&
                      slot.className == Some(NameOf(cat.classes, t[i].classId)) &&
                      slot.subject == Some(NameOf(cat.subjects, t[i].subjectId)))
  }

  /** The cell built from one class's entries shows that class's first entry in the slot of the table. */
  lemma ClassCellShowsFirst(t: seq<Entry>, classId: int, p: PeriodRec, day: int, cat: Catalog)
    requires RefIntegrity(t, cat)
    ensures RefIntegrity(Only(t, ClassRef(classId)), cat)
    ensures ShowsFirstOfClass(t, cat, classId, day, p, ClassCell(Only(t, ClassRef(classId)), p, day, cat))
  {
    var r := ClassRef(classId);
    var s := Only(t, r);
    OnlyKeepsIntegrity(t, r, cat);
    OnlyBooked(t, r, day, p.id);
    var q := Query(Anyone, p.id, day, None);
    var c := ClassCell(s, p, day, cat);
    if c.subject.Some? {
      var i :| FirstAt(s, i, q) && c.subject == Some(NameOf(cat.subjects, s[i].subjectId)) &&
               c.teacher == Some(NameOf(cat.teachers, s[i].teacherId));
      FirstAtIsFound(s, i, q);
      FindAfterOnly(t, r, q);
      var j :| 0 <= j < |t| && t[j] == s[i] && Matches(t[j], Narrowed(q, r)) &&
               forall k :: 0 <= k < j ==> !Matches(t[k], Narrowed(q, r));
      assert FirstAt(t, j, Query(ClassOf(classId), p.id, day, None));
    }
  }

  /** The cell built from one teacher's entries shows that teacher's first entry in the slot of the table. */
  lemma TeacherCellShowsFirst(t: seq<Entry>, teacherId: int, p: PeriodRec, day: int, cat: Catalog)
    requires RefIntegrity(t, cat)
    ensures RefIntegrity(Only(t, TeacherRef(teacherId)), cat)
    ensures ShowsFirstOfTeacher(t, cat, teacherId, day, p, TeacherCell(Only(t, TeacherRef(teacherId)), p, day, cat))
  {
    var r := TeacherRef(teacherId);
    var s := Only(t, r);
    OnlyKeepsIntegrity(t, r, cat);
    OnlyBooked(t, r, day, p.id);
    var q := Query(Anyone, p.id, day, None);
    var c := TeacherCell(s, p, day, cat);
    if c.className.Some? {
      var i :| FirstAt(s, i, q) && c.className == Some(NameOf(cat.classes, s[i].classId)) &&
               c.subject == Some(NameOf(cat.subjects, s[i].subjectId));
      FirstAtIsFound(s, i, q);
      FindAfterOnly(t, r, q);
      var j :| 0 <= j < |t| && t[j] == s[i] && Matches(t[j], Narrowed(q, r)) &&
               forall k :: 0 <= k < j ==> !Matches(t[k], Narrowed(q, r));
      assert FirstAt(t, j, Query(TeacherOf(teacherId), p.id, day, None));
    }
  }

  /** The week of one class: its entries picked out of the table, then laid out by `BuildClassWeek`.
      Every cell shows the class's first entry in that slot of the table, and under the class rule
      each entry of the class shows up in its own slot. */
  method ClassWeek(t: seq<Entry>, cat: Catalog, classId: int) returns (data: seq<ClassDay>)
    requires RefIntegrity(t, cat)
    ensures |data| == 7
    ensures forall d :: 0 <= d < 7 ==> data[d].day == Weekdays[d] && |data[d].slots| == |cat.periods|
    ensures forall d, p :: 0 <= d < 7 && 0 <= p < |cat.periods| ==>
              ShowsFirstOfClass(t, cat, classId, d + 1, cat.periods[p], data[d].slots[p])
    ensures Respects(t, ClassRule) ==>
              forall i, p :: 0 <= i < |t| && t[i].classId == classId && 0 <= p < |cat.periods| &&
                             cat.periods[p].id == t[i].periodId && IsWeekday(t[i].dayOfWeek) ==>
                data[t[i].dayOfWeek - 1].slots[p].subject == Some(NameOf(cat.subjects, t[i].subjectId)) &&
                data[t[i].dayOfWeek - 1].slots[p].teacher == Some(NameOf(cat.teachers, t[i].teacherId))
  {
    var mine := Only(t, ClassRef(classId));
    OnlyKeepsIntegrity(t, ClassRef(classId), cat);
    data := BuildClassWeek(mine, cat);
    forall d, p | 0 <= d < 7 && 0 <= p < |cat.periods|
      ensures ShowsFirstOfClass(t, cat, classId, d + 1, cat.periods[p], data[d].slots[p])
    {
      ClassCellShowsFirst(t, classId, cat.periods[p], d + 1, cat);
    }
    if Respects(t, ClassRule) {
      forall i, p | 0 <= i < |t| && t[i].classId == classId && 0 <= p < |cat.periods| &&
                    cat.periods[p].id == t[i].periodId && IsWeekday(t[i].dayOfWeek)
        ensures data[t[i].dayOfWeek - 1].slots[p].subject == Some(NameOf(cat.subjects, t[i].subjectId)) &&
                data[t[i].dayOfWeek - 1].slots[p].teacher == Some(NameOf(cat.teachers, t[i].teacherId))
      {
        ClassCellIsTheBooking(t, classId, i, cat.periods[p], cat);
      }
    }
  }

  /** The week of one teacher: their entries picked out of the table, then laid out by
      `BuildTeacherWeek`. Every cell shows the teacher's first entry in that slot of the table, and
      under the teacher rule each entry of the teacher shows up in its own slot. */
  method TeacherWeek(t: seq<Entry>, cat: Catalog, teacherId: int) returns (data: seq<TeacherDay>)
    requires RefIntegrity(t, cat)
    ensures |data| == 7
    ensures forall d :: 0 <= d < 7 ==> data[d].day == Weekdays[d] && |data[d].slots| == |cat.periods|
    ensures forall d, p :: 0 <= d < 7 && 0 <= p < |cat.periods| ==>
              ShowsFirstOfTeacher(t, cat, teacherId, d + 1, cat.periods[p], data[d].slots[p])
    ensures Respects(t, TeacherRule) ==>
              forall i, p :: 0 <= i < |t| && t[i].teacherId == teacherId && 0 <= p < |cat.periods| &&
                             cat.periods[p].id == t[i].periodId && IsWeekday(t[i].dayOfWeek) ==>
                data[t[i].dayOfWeek - 1].slots[p].className == Some(NameOf(cat.classes, t[i].classId)) &&
                data[t[i].dayOfWeek - 1].slots[p].subject == Some(NameOf(cat.subjects, t[i].subjectId))
  {
    var mine := Only(t, TeacherRef(teacherId));
    OnlyKeepsIntegrity(t, TeacherRef(teacherId), cat);
    data := BuildTeacherWeek(mine, cat);
    forall d, p | 0 <= d < 7 && 0 <= p < |cat.periods|
      ensures ShowsFirstOfTeacher(t, cat, teacherId, d + 1, cat.periods[p], data[d].slots[p])
    {
      TeacherCellShowsFirst(t, teacherId, cat.periods[p], d + 1, cat);
    }
    if Respects(t, TeacherRule) {
      forall i, p | 0 <= i < |t| && t[i].teacherId == teacherId && 0 <= p < |cat.periods| &&
                    cat.periods[p].id == t[i].periodId && IsWeekday(t[i].dayOfWeek)
        ensures data[t[i].dayOfWeek - 1].slots[p].className == Some(NameOf(cat.classes, t[i].classId)) &&
                data[t[i].dayOfWeek - 1].slots[p].subject == Some(NameOf(cat.subjects, t[i].subjectId))
      {
        TeacherCellIsTheBooking(t, teacherId, i, cat.periods[p], cat);
      }
    }
  }
}
