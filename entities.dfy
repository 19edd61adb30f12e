/** The four entities a timetable entry refers to: classes, subjects, teachers and periods. */
module Entities {
  import opened Wrappers

  /** A stored record: its numeric id, its display name and the columns proper to its kind. */
  datatype Rec<A> = Rec(id: int, name: string, info: A)

  datatype ClassInfo = ClassInfo(grade: Option<string>, section: Option<string>, description: Option<string>)
  datatype SubjectInfo = SubjectInfo(code: Option<string>, description: Option<string>, weeklyHours: int)
  datatype TeacherInfo = TeacherInfo(email: Option<string>, phone: Option<string>, specialization: Option<string>,
                                     maxWeeklyHours: int)
  datatype PeriodInfo = PeriodInfo(startTime: string, endTime: string, dayOfWeek: Option<int>)

  type ClassRec = Rec<ClassInfo>
  type SubjectRec = Rec<SubjectInfo>
  type TeacherRec = Rec<TeacherInfo>
  type PeriodRec = Rec<PeriodInfo>

  /** Some record of `s` carries `id`. */
  predicate HasId<A>(s: seq<Rec<A>>, id: int) {
    exists i :: 0 <= i < |s| && s[i].id == id
  }

  /** `findIndex(r => r.id === id)`: the first index holding `id`, or -1 when there is none. */
  function IndexOfId<A>(s: seq<Rec<A>>, id: int): (i: int)
    ensures -1 <= i < |s|
    ensures i == -1 <==> !HasId(s, id)
    ensures 0 <= i ==> s[i].id == id && forall j :: 0 <= j < i ==> s[j].id != id
  {
    if s == [] then -1
    else if s[0].id == id then 0
    else
      var k := IndexOfId(s[1..], id);
      assert forall j :: 1 <= j < |s| ==> s[j] == s[1..][j - 1];
      if k == -1 then -1 else k + 1
  }

  /** The name of the record that `find(r => r.id === id)` returns: the first one carrying `id`. */
  function NameOf<A>(s: seq<Rec<A>>, id: int): (n: string)
    requires HasId(s, id)
    ensures exists i :: 0 <= i < |s| && s[i].id == id && s[i].name == n && forall j :: 0 <= j < i ==> s[j].id != id
  {
    s[IndexOfId(s, id)].name
  }

  /** `records.map(r => r.name)` */
  function Names<A>(s: seq<Rec<A>>): (names: seq<string>)
    ensures |names| == |s|
    ensures forall i :: 0 <= i < |s| ==> names[i] == s[i].name
  {
    seq(|s|, i requires 0 <= i < |s| => s[i].name)
  }

  /** Every record except those carrying `id` (what a delete by primary key leaves), in the same order. */
  function RemoveId<A>(s: seq<Rec<A>>, id: int): (r: seq<Rec<A>>)
    ensures |r| <= |s|
    ensures forall x {:trigger HasId(r, x)} :: HasId(r, x) <==> HasId(s, x) && x != id
    ensures forall k :: 0 <= k < |r| ==> r[k].id != id && r[k] in s
    ensures forall j :: 0 <= j < |s| && s[j].id != id ==> s[j] in r
  {
    if s == [] then []
    else
      var rest := RemoveId(s[1..], id);
      assert forall j :: 1 <= j < |s| ==> s[j] == s[1..][j - 1];
      assert forall x :: HasId(s, x) <==> s[0].id == x || HasId(s[1..], x);
      if s[0].id == id then rest
      else
        var r := [s[0]] + rest;
        assert forall j :: 1 <= j < |r| ==> r[j] == rest[j - 1];
        assert forall x :: HasId(r, x) <==> s[0].id == x || HasId(rest, x) by {
          forall x | HasId(rest, x) ensures HasId(r, x) {
            var j :| 0 <= j < |rest| && rest[j].id == x;
            assert r[j + 1].id == x;
          }
          assert r[0] == s[0];
        }
        r
  }

  /** Appending a record keeps every id already stored. */
  lemma AppendKeepsIds<A>(s: seq<Rec<A>>, r: Rec<A>, x: int)
    requires HasId(s, x)
    ensures HasId(s + [r], x)
  {
    var j :| 0 <= j < |s| && s[j].id == x;
    assert (s + [r])[j].id == x;
  }

  /** Replacing a record by one with the same id leaves the set of ids as it was. */
  lemma ReplaceKeepsIds<A>(s: seq<Rec<A>>, i: int, r: Rec<A>, x: int)
    requires 0 <= i < |s| && s[i].id == r.id
    ensures HasId(s[i := r], x) <==> HasId(s, x)
  {
    if HasId(s, x) {
      var j :| 0 <= j < |s| && s[j].id == x;
      assert s[i := r][j].id == x;
    }
    if HasId(s[i := r], x) {
      var j :| 0 <= j < |s| && s[i := r][j].id == x;
      assert s[j].id == x;
    }
  }

  /** Splicing out index `i` keeps every id other than the one stored at `i`. */
  lemma SpliceKeepsOtherIds<A>(s: seq<Rec<A>>, i: int, x: int)
    requires 0 <= i < |s| && s[i].id != x
    ensures HasId(s[..i] + s[i + 1..], x) <==> HasId(s, x)
  {
    var t := s[..i] + s[i + 1..];
    assert forall j :: 0 <= j < |t| ==> t[j] == s[if j < i then j else j + 1];
    if HasId(s, x) {
      var j :| 0 <= j < |s| && s[j].id == x;
      assert t[if j < i then j else j - 1].id == x;
    }
  }
}
