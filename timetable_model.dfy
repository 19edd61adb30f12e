/**
 * The timetable assignment table: one entry puts a (class, subject, teacher) in a (period, day) slot.
 * The storage layer keeps (class, period, dayOfWeek) unique and deletes an entry together with any
 * entity it references; the application adds the rule that (teacher, period, dayOfWeek) is unique.
 */
module TimetableModel {
  import opened Wrappers
  import opened Entities

  /** One row of the timetable; the four references are the ids of the related records. */
  datatype Entry = Entry(id: int, classId: int, subjectId: int, teacherId: int, periodId: int, dayOfWeek: int)

  /** Day names; day number d (1 = Monday .. 7 = Sunday) is `Weekdays[d - 1]`. */
  const Weekdays: seq<string> := ["Monday", "Tuesday", "Wednesday", "Thursday", "Friday", "Saturday", "Sunday"]

  /** The documented range of `dayOfWeek`; only the weekday grid enforces it. */
  predicate IsWeekday(d: int) {
    1 <= d <= 7
  }

  // ---------------------------------------------------------------------------------------------
  // The uniqueness rules

  /** ClassRule: a class holds one entry per slot; TeacherRule: a teacher holds one entry per slot;
      IdRule: entry ids are distinct. */
  datatype Rule = ClassRule | TeacherRule | IdRule

  /** Entries `a` and `b` may not both be stored under `rule`. */
  predicate Collide(rule: Rule, a: Entry, b: Entry) {
    match rule
    case ClassRule => a.classId == b.classId && a.periodId == b.periodId && a.dayOfWeek == b.dayOfWeek
    case TeacherRule => a.teacherId == b.teacherId && a.periodId == b.periodId && a.dayOfWeek == b.dayOfWeek
    case IdRule => a.id == b.id
  }

  /** No two distinct positions of `t` collide under `rule`. */
  predicate Respects(t: seq<Entry>, rule: Rule) {
    forall i, j :: 0 <= i < |t| && 0 <= j < |t| && i != j ==> !Collide(rule, t[i], t[j])
  }

  /** Some stored entry collides with `e` under `rule`. */
  predicate Clashes(t: seq<Entry>, rule: Rule, e: Entry) {
    exists i :: 0 <= i < |t| && Collide(rule, t[i], e)
  }

  // ---------------------------------------------------------------------------------------------
  // First-match lookup (`findOne` / `find` over the table)

  /** Whose entries a lookup considers. */
  datatype Who = Anyone | ClassOf(classId: int) | TeacherOf(teacherId: int)

  /** A lookup by owner, period and day, optionally skipping every entry with the id `exclude`. */
  datatype Query = Query(who: Who, periodId: int, day: int, exclude: Option<int>)

  predicate Matches(e: Entry, q: Query) {
    && (match q.who
        case Anyone => true
        case ClassOf(c) => e.classId == c
        case TeacherOf(x) => e.teacherId == x)
    && e.periodId == q.periodId
    && e.dayOfWeek == q.day
    && (q.exclude.None? || e.id != q.exclude.value)
  }

  /** The first entry of `t` that matches `q`, if any. */
  function Find(t: seq<Entry>, q: Query): (r: Option<Entry>)
    ensures r.Some? <==> exists i :: 0 <= i < |t| && Matches(t[i], q)
    ensures r.Some? ==> exists i :: 0 <= i < |t| && t[i] == r.value && Matches(t[i], q)
                                    && forall j :: 0 <= j < i ==> !Matches(t[j], q)
  {
    if t == [] then None
    else if Matches(t[0], q) then Some(t[0])
    else
      assert forall j :: 1 <= j < |t| ==> t[j] == t[1..][j - 1];
      Find(t[1..], q)
  }

  /** `i` is the first index of `t` that `q` matches: the entry `find` / `findOne` returns. */
  predicate FirstAt(t: seq<Entry>, i: int, q: Query) {
    0 <= i < |t| && Matches(t[i], q) && forall j :: 0 <= j < i ==> !Matches(t[j], q)
  }

  /** Some entry with an id other than `id` collides with `e` under `rule`: what a check that skips
      the entry being updated looks for. */
  predicate ClashesOther(t: seq<Entry>, rule: Rule, e: Entry, id: int) {
    exists k :: 0 <= k < |t| && t[k].id != id && Collide(rule, t[k], e)
  }

  /** An entry that `rule` cannot tell apart from the stored `t[i]` collides with no entry of another id. */
  lemma SameSlotStaysClear(t: seq<Entry>, i: int, e: Entry, rule: Rule)
    requires Respects(t, rule) && 0 <= i < |t|
    requires forall x :: Collide(rule, x, e) <==> Collide(rule, x, t[i])
    ensures !ClashesOther(t, rule, e, t[i].id)
  {
    forall k | 0 <= k < |t| && t[k].id != t[i].id ensures !Collide(rule, t[k], e) {
      assert k != i;
    }
  }

  /** The lookup that finds what collides with `e` under a class or teacher rule. */
  function ClashQuery(rule: Rule, e: Entry, exclude: Option<int>): Query
    requires rule != IdRule
  {
    match rule
    case ClassRule => Query(ClassOf(e.classId), e.periodId, e.dayOfWeek, exclude)
    case TeacherRule => Query(TeacherOf(e.teacherId), e.periodId, e.dayOfWeek, exclude)
  }

  /** A clash lookup finds nothing exactly when no entry it does not skip collides with `e`. */
  lemma {:induction false} FindNoneIffClashFree(t: seq<Entry>, rule: Rule, e: Entry, exclude: Option<int>)
    requires rule != IdRule
    ensures Find(t, ClashQuery(rule, e, exclude)).None? <==>
            forall k :: 0 <= k < |t| && (exclude.None? || t[k].id != exclude.value) ==> !Collide(rule, t[k], e)
  {
    var q := ClashQuery(rule, e, exclude);
    assert forall k :: 0 <= k < |t| ==> (Matches(t[k], q) <==>
      (exclude.None? || t[k].id != exclude.value) && Collide(rule, t[k], e));
  }

  /** `findIndex(t => t.id === id)` over the table: the first index holding `id`, or -1. This is
      `Entities.IndexOfId` for entries, which are not named records and so are not a `Rec`. */
  function EntryIndex(t: seq<Entry>, id: int): (i: int)
    ensures -1 <= i < |t|
    ensures i == -1 <==> forall k :: 0 <= k < |t| ==> t[k].id != id
    ensures 0 <= i ==> t[i].id == id && forall k :: 0 <= k < i ==> t[k].id != id
  {
    if t == [] then -1
    else if t[0].id == id then 0
    else
      var k := EntryIndex(t[1..], id);
      assert forall j :: 1 <= j < |t| ==> t[j] == t[1..][j - 1];
      if k == -1 then -1 else k + 1
  }

  // ---------------------------------------------------------------------------------------------
  // Keeping the rules across appends, replacements and removals

  /** Appending an entry that collides with nothing stored keeps a rule. */
  lemma AppendKeepsRule(t: seq<Entry>, e: Entry, rule: Rule)
    requires Respects(t, rule)
    requires forall k :: 0 <= k < |t| ==> !Collide(rule, t[k], e)
    ensures Respects(t + [e], rule)
  {
    var s := t + [e];
    forall i, j | 0 <= i < |s| && 0 <= j < |s| && i != j ensures !Collide(rule, s[i], s[j]) {
      if i < |t| && j < |t| {
        assert s[i] == t[i] && s[j] == t[j];
      } else if i < |t| {
        assert s[i] == t[i] && s[j] == e;
      } else {
        assert s[i] == e && s[j] == t[j];
      }
    }
  }

  /** Overwriting position `i` with an entry that collides with no other position keeps a rule. */
  lemma ReplaceKeepsRule(t: seq<Entry>, i: int, e: Entry, rule: Rule)
    requires Respects(t, rule) && 0 <= i < |t|
    requires forall k :: 0 <= k < |t| && k != i ==> !Collide(rule, t[k], e)
    ensures Respects(t[i := e], rule)
  {
  }

  /** Splicing out one position keeps a rule. */
  lemma SpliceKeepsRule(t: seq<Entry>, i: int, rule: Rule)
    requires Respects(t, rule) && 0 <= i < |t|
    ensures Respects(t[..i] + t[i + 1..], rule)
  {
    var s := t[..i] + t[i + 1..];
    assert forall k :: 0 <= k < |s| ==> s[k] == t[if k < i then k else k + 1];
  }

  /** Splicing out position `i` leaves the other entries in order; under distinct ids, none with `t[i]`'s id. */
  lemma SpliceLeavesOthers(t: seq<Entry>, i: int, s: seq<Entry>)
    requires 0 <= i < |t| && s == t[..i] + t[i + 1..]
    ensures |s| == |t| - 1
    ensures forall k :: 0 <= k < |s| ==> s[k] == t[if k < i then k else k + 1]
    ensures Respects(t, IdRule) ==> forall k :: 0 <= k < |s| ==> s[k].id != t[i].id
  {
    assert forall k :: 0 <= k < |s| ==> s[k] == t[if k < i then k else k + 1];
    if Respects(t, IdRule) {
      forall k | 0 <= k < |s| ensures s[k].id != t[i].id {
        assert !Collide(IdRule, t[if k < i then k else k + 1], t[i]);
      }
    }
  }

  /** Prepending an entry that collides with nothing in `s` keeps a rule. */
  lemma ConsKeepsRule(x: Entry, s: seq<Entry>, rule: Rule)
    requires Respects(s, rule)
    requires forall k :: 0 <= k < |s| ==> !Collide(rule, x, s[k])
    ensures Respects([x] + s, rule)
  {
    var u := [x] + s;
    assert forall k :: 1 <= k < |u| ==> u[k] == s[k - 1];
  }

  // ---------------------------------------------------------------------------------------------
  // References and cascade on delete

  /** An entity one entry may reference, by kind and id. */
  datatype Ref = ClassRef(id: int) | SubjectRef(id: int) | TeacherRef(id: int) | PeriodRef(id: int)

  predicate Mentions(e: Entry, r: Ref) {
    match r
    case ClassRef(x) => e.classId == x
    case SubjectRef(x) => e.subjectId == x
    case TeacherRef(x) => e.teacherId == x
    case PeriodRef(x) => e.periodId == x
  }

  /** `entries.some(e => e.<ref>Id === id)` */
  predicate Referenced(t: seq<Entry>, r: Ref) {
    exists i :: 0 <= i < |t| && Mentions(t[i], r)
  }

  /** The entries that reference `r`, in table order (`filter`, or a `find` with a where clause). */
  function Only(t: seq<Entry>, r: Ref): (s: seq<Entry>)
    ensures |s| <= |t|
    ensures forall e :: e in s <==> e in t && Mentions(e, r)
  {
    if t == [] then []
    else
      assert forall e :: e in t <==> e == t[0] || e in t[1..];
      if Mentions(t[0], r) then [t[0]] + Only(t[1..], r) else Only(t[1..], r)
  }

  /** Picking out the entries of `r` keeps table order: the entries of a front part of the table come
      before those of the rest. */
  lemma {:induction false} OnlySplits(a: seq<Entry>, b: seq<Entry>, r: Ref)
    ensures Only(a + b, r) == Only(a, r) + Only(b, r)
  {
    if a == [] {
      assert a + b == b;
    } else {
      assert (a + b)[0] == a[0] && (a + b)[1..] == a[1..] + b;
      OnlySplits(a[1..], b, r);
    }
  }

  /** The lookup of `q` restricted to the class or teacher `r`. */
  function Narrowed(q: Query, r: Ref): Query
    requires r.ClassRef? || r.TeacherRef?
  {
    q.(who := if r.ClassRef? then ClassOf(r.id) else TeacherOf(r.id))
  }

  /** `Only` keeps table order: looking up a slot among the entries of a class or teacher finds the same
      entry as looking it up in the whole table restricted to that class or teacher. */
  lemma {:induction false} FindAfterOnly(t: seq<Entry>, r: Ref, q: Query)
    requires (r.ClassRef? || r.TeacherRef?) && q.who == Anyone
    ensures Find(Only(t, r), q) == Find(t, Narrowed(q, r))
  {
    if t != [] {
      FindAfterOnly(t[1..], r, q);
      assert Matches(t[0], Narrowed(q, r)) <==> Mentions(t[0], r) && Matches(t[0], q);
    }
  }

  /** The first matching index decides the lookup. */
  lemma FirstAtIsFound(t: seq<Entry>, i: int, q: Query)
    requires FirstAt(t, i, q)
    ensures Find(t, q) == Some(t[i])
  {
    var f := Find(t, q);
    var j :| 0 <= j < |t| && t[j] == f.value && Matches(t[j], q) && forall k :: 0 <= k < j ==> !Matches(t[k], q);
    assert j == i;
  }

  /** What the storage cascade leaves when the entity `r` is deleted: every entry not referencing it. */
  function Without(t: seq<Entry>, r: Ref): (s: seq<Entry>)
    ensures |s| <= |t|
    ensures forall e :: e in s <==> e in t && !Mentions(e, r)
    ensures !Referenced(s, r)
    ensures !Referenced(t, r) ==> s == t
  {
    if t == [] then []
    else
      assert forall e :: e in t <==> e == t[0] || e in t[1..];
      assert !Referenced(t, r) ==> !Referenced(t[1..], r) by {
        assert forall j :: 1 <= j < |t| ==> t[j] == t[1..][j - 1];
      }
      var rest := Without(t[1..], r);
      if Mentions(t[0], r) then rest
      else
        var s := [t[0]] + rest;
        assert forall j :: 1 <= j < |s| ==> s[j] == rest[j - 1];
        s
  }

  /** The cascade keeps every rule the table kept. */
  lemma {:induction false} WithoutKeepsRule(t: seq<Entry>, r: Ref, rule: Rule)
    requires Respects(t, rule)
    ensures Respects(Without(t, r), rule)
  {
    if t != [] {
      assert forall j :: 1 <= j < |t| ==> t[j] == t[1..][j - 1];
      WithoutKeepsRule(t[1..], r, rule);
      var rest := Without(t[1..], r);
      if !Mentions(t[0], r) {
        forall k | 0 <= k < |rest| ensures !Collide(rule, t[0], rest[k]) {
          assert rest[k] in t[1..];
          var j :| 0 <= j < |t[1..]| && t[1..][j] == rest[k];
          assert t[j + 1] == rest[k];
        }
        ConsKeepsRule(t[0], rest, rule);
      }
    }
  }

  // ---------------------------------------------------------------------------------------------
  // Referential integrity

  /** The four entity tables an entry's references resolve against. */
  datatype Catalog = Catalog(classes: seq<ClassRec>, subjects: seq<SubjectRec>, teachers: seq<TeacherRec>,
                             periods: seq<PeriodRec>)

  /** The entity `r` is stored. */
  predicate Stored(cat: Catalog, r: Ref) {
    match r
    case ClassRef(x) => HasId(cat.classes, x)
    case SubjectRef(x) => HasId(cat.subjects, x)
    case TeacherRef(x) => HasId(cat.teachers, x)
    case PeriodRef(x) => HasId(cat.periods, x)
  }

  /** Each of the four references of `e` names a stored record. */
  predicate Resolves(e: Entry, cat: Catalog) {
    && HasId(cat.classes, e.classId)
    && HasId(cat.subjects, e.subjectId)
    && HasId(cat.teachers, e.teacherId)
    && HasId(cat.periods, e.periodId)
  }

  predicate RefIntegrity(t: seq<Entry>, cat: Catalog) {
    forall i :: 0 <= i < |t| ==> Resolves(t[i], cat)
  }

  /** A delete by primary key: the records of `r`'s kind carrying `r`'s id are gone, nothing else changes. */
  function Drop(cat: Catalog, r: Ref): (c: Catalog)
    ensures !Stored(c, r)
    ensures forall x: Ref {:trigger Stored(c, x)} :: x != r ==> (Stored(c, x) <==> Stored(cat, x))
  {
    match r
    case ClassRef(x) => cat.(classes := RemoveId(cat.classes, x))
    case SubjectRef(x) => cat.(subjects := RemoveId(cat.subjects, x))
    case TeacherRef(x) => cat.(teachers := RemoveId(cat.teachers, x))
    case PeriodRef(x) => cat.(periods := RemoveId(cat.periods, x))
  }

  /** Deleting an entity and cascading to its entries leaves every remaining reference resolvable. */
  lemma {:induction false} CascadeKeepsIntegrity(t: seq<Entry>, cat: Catalog, r: Ref)
    requires RefIntegrity(t, cat)
    ensures RefIntegrity(Without(t, r), Drop(cat, r))
  {
    var s := Without(t, r);
    forall k | 0 <= k < |s| ensures Resolves(s[k], Drop(cat, r)) {
      assert s[k] in t;
      var j :| 0 <= j < |t| && t[j] == s[k];
      var e := s[k];
      assert Resolves(t[j], cat);
      assert Stored(cat, ClassRef(e.classId)) && Stored(cat, SubjectRef(e.subjectId));
      assert Stored(cat, TeacherRef(e.teacherId)) && Stored(cat, PeriodRef(e.periodId));
      assert !Mentions(e, r);
      assert Stored(Drop(cat, r), ClassRef(e.classId)) && Stored(Drop(cat, r), SubjectRef(e.subjectId));
      assert Stored(Drop(cat, r), TeacherRef(e.teacherId)) && Stored(Drop(cat, r), PeriodRef(e.periodId));
    }
  }

  /** Number of records of `r`'s kind. */
  function Size(cat: Catalog, r: Ref): nat {
    match r
    case ClassRef(_) => |cat.classes|
    case SubjectRef(_) => |cat.subjects|
    case TeacherRef(_) => |cat.teachers|
    case PeriodRef(_) => |cat.periods|
  }

  /** Id of the record at index `i` of `r`'s kind. */
  function IdAt(cat: Catalog, r: Ref, i: int): int
    requires 0 <= i < Size(cat, r)
  {
    match r
    case ClassRef(_) => cat.classes[i].id
    case SubjectRef(_) => cat.subjects[i].id
    case TeacherRef(_) => cat.teachers[i].id
    case PeriodRef(_) => cat.periods[i].id
  }

  /** `array.splice(i, 1)` on the table of `r`'s kind. */
  function SpliceAt(cat: Catalog, r: Ref, i: int): Catalog
    requires 0 <= i < Size(cat, r)
  {
    match r
    case ClassRef(_) => cat.(classes := cat.classes[..i] + cat.classes[i + 1..])
    case SubjectRef(_) => cat.(subjects := cat.subjects[..i] + cat.subjects[i + 1..])
    case TeacherRef(_) => cat.(teachers := cat.teachers[..i] + cat.teachers[i + 1..])
    case PeriodRef(_) => cat.(periods := cat.periods[..i] + cat.periods[i + 1..])
  }

  /** Splicing out a record whose id no entry references keeps every reference resolvable. */
  lemma SpliceUnreferencedKeepsIntegrity(t: seq<Entry>, cat: Catalog, r: Ref, i: int)
    requires RefIntegrity(t, cat)
    requires 0 <= i < Size(cat, r) && IdAt(cat, r, i) == r.id
    requires !Referenced(t, r)
    ensures RefIntegrity(t, SpliceAt(cat, r, i))
  {
    forall k | 0 <= k < |t| ensures Resolves(t[k], SpliceAt(cat, r, i)) {
      var e := t[k];
      assert Resolves(e, cat) && !Mentions(e, r);
      match r
      case ClassRef(_) => SpliceKeepsOtherIds(cat.classes, i, e.classId);
      case SubjectRef(_) => SpliceKeepsOtherIds(cat.subjects, i, e.subjectId);
      case TeacherRef(_) => SpliceKeepsOtherIds(cat.teachers, i, e.teacherId);
      case PeriodRef(_) => SpliceKeepsOtherIds(cat.periods, i, e.periodId);
    }
  }
}
