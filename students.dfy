/** The read-only student routes: GET /students, with its optional search
    over the student's name and its group's name, and GET /students/{id}. */
module Students {
  import opened Models
  import opened Api
  import opened Text

  /** `{id, group_id, name}` of a stored student. */
  function Record(students: map<int, Student>, id: int): StudentRecord
    requires id in students
  {
    StudentRecord(id, students[id].groupId, students[id].name)
  }

  /** GET /students/{id}: the student's id, group id and name, or 404. */
  function GetStudent(students: Table<Student>, id: int): (r: Response<StudentRecord>)
    ensures r.Ok? <==> id in students.rows
    ensures r.Ok? ==> r.body.id == id && r.body.groupId == students.rows[id].groupId
                      && r.body.name == students.rows[id].name
    ensures !r.Ok? ==> r == NotFound(id)
  {
    if id in students.rows then Ok(Record(students.rows, id)) else NotFound(id)
  }

  /** The condition of a search: the student joins a stored group (an inner
      join on the group id), and the query occurs, ignoring case, in the
      student's name or in that group's name. */
  predicate Matches(students: map<int, Student>, groups: map<int, Group>, id: int, query: string)
    requires id in students
    ensures Matches(students, groups, id, query) ==> students[id].groupId in groups
    ensures students[id].groupId in groups && ILike(students[id].name, query) ==> Matches(students, groups, id, query)
    ensures students[id].groupId in groups && ILike(groups[students[id].groupId].name, query) ==>
              Matches(students, groups, id, query)
  {
    var s := students[id];
    s.groupId in groups && (ILike(s.name, query) || ILike(groups[s.groupId].name, query))
  }

  /** The ids of `ids` that match the search; ascending ids stay ascending. */
  function Select(ids: seq<int>, students: map<int, Student>, groups: map<int, Group>, query: string): (r: seq<int>)
    requires forall id :: id in ids ==> id in students
    ensures forall id :: id in r <==> id in ids && Matches(students, groups, id, query)
    ensures Increasing(ids) ==> Increasing(r)
    decreases |ids|
  {
    if ids == [] then []
    else
      var rest := Select(ids[1..], students, groups, query);
      var head := if Matches(students, groups, ids[0], query) then [ids[0]] else [];
      assert forall id :: id in ids <==> id == ids[0] || id in ids[1..];
      assert Increasing(ids) ==> Increasing(head + rest) by {
        if Increasing(ids) {
          assert Increasing(ids[1..]);
          forall j | 0 <= j < |rest| ensures ids[0] < rest[j] {
            assert rest[j] in ids[1..];
            var i :| 0 <= i < |ids[1..]| && ids[1..][i] == rest[j];
            assert ids[i + 1] == rest[j];
          }
        }
      }
      head + rest
  }

  /** `if query:` — only a given, non-empty query filters the listing. */
  predicate Filters(query: Option<string>)
    ensures Filters(query) <==> query != None && query != Some("")
  {
    query.Some? && query.value != []
  }

  /** GET /students?query=…: every stored student when the query is absent
      or empty, otherwise exactly the students that match it; in ascending
      id order, each as `{id, group_id, name}`. */
  function ListStudents(students: Table<Student>, groups: Table<Group>, query: Option<string>): (r: seq<StudentRecord>)
    requires IdsFresh(students)
    ensures Increasing(IdsOf(r, (s: StudentRecord) => s.id))
    ensures forall rec :: rec in r ==> rec.id in students.rows && rec.groupId == students.rows[rec.id].groupId
                                       && rec.name == students.rows[rec.id].name
    ensures !Filters(query) ==> forall id :: id in IdsOf(r, (s: StudentRecord) => s.id) <==> id in students.rows
    ensures Filters(query) ==> forall id :: id in IdsOf(r, (s: StudentRecord) => s.id) <==>
              id in students.rows && Matches(students.rows, groups.rows, id, query.value)
  {
    var all := Ids(students);
    var ids := if Filters(query) then Select(all, students.rows, groups.rows, query.value) else all;
    assert forall i :: 0 <= i < |ids| ==> ids[i] in ids;
    var r := seq(|ids|, i requires 0 <= i < |ids| => Record(students.rows, ids[i]));
    assert IdsOf(r, (s: StudentRecord) => s.id) == ids;
    r
  }

  /** Selecting with a query or with its lower-cased form picks the same ids. */
  lemma {:induction false} SelectIgnoresQueryCase(ids: seq<int>, students: map<int, Student>, groups: map<int, Group>, query: string)
    requires forall k :: 0 <= k < |ids| ==> ids[k] in students
    ensures Select(ids, students, groups, query) == Select(ids, students, groups, Lower(query))
    decreases |ids|
  {
    if ids != [] {
      var s := students[ids[0]];
      ILikeIgnoresCase(s.name, query);
      if s.groupId in groups {
        ILikeIgnoresCase(groups[s.groupId].name, query);
      }
      SelectIgnoresQueryCase(ids[1..], students, groups, query);
    }
  }

  /** Searching for "SMITH" gives the same listing as searching for "smith". */
  lemma SearchIgnoresQueryCase(students: Table<Student>, groups: Table<Group>, query: string)
    requires IdsFresh(students)
    ensures ListStudents(students, groups, Some(query)) == ListStudents(students, groups, Some(Lower(query)))
  {
    SelectIgnoresQueryCase(Ids(students), students.rows, groups.rows, query);
  }
}
