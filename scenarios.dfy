/** Two request sequences run against a fresh database, with the responses
    the route contracts determine. */
module Scenarios {
  import opened Models
  import opened Api
  import Groups
  import Students
  import Text
  import Database

  /** Math (id 1) gets the subgroup Algebra (id 2); the listing shows
      Algebra under Math. */
  method GroupTree() returns (math: Response<GroupRecord>, algebra: Response<GroupRecord>,
                              listing: seq<GroupEntry>)
    ensures math == Ok(GroupRecord(1, None, "Math"))
    ensures algebra == Ok(GroupRecord(2, Some(1), "Algebra"))
    ensures listing == [GroupEntry(1, "Math", [GroupRef(2, "Algebra")]), GroupEntry(2, "Algebra", [])]
  {
    var db := new Database.Store();
    math := db.CreateGroup("Math", None);
    algebra := db.CreateGroup("Algebra", Some(1));
    MathAlgebraListing(db.groups);
    listing := Groups.ListGroups(db.groups);
  }

  /** Math cannot be deleted while Algebra is its child, and can once
      Algebra is gone; afterwards Math is not found. */
  method DeleteGuard() returns (blocked: Response<string>, child: Response<string>,
                                parent: Response<string>, after: Response<GroupRef>)
    ensures blocked == BadRequest(HasSubgroups)
    ensures child == Ok(DeletedMessage) && parent == Ok(DeletedMessage)
    ensures after == NotFound(1)
  {
    var db := new Database.Store();
    var math := db.CreateGroup("Math", None);
    var algebra := db.CreateGroup("Algebra", Some(1));
    assert 2 in Subgroups(db.groups.rows, 1);
    blocked := db.DeleteGroup(1);
    child := db.DeleteGroup(2);
    MathAloneIsLeaf(db.groups.rows);
    parent := db.DeleteGroup(1);
    after := Groups.GetGroup(db.groups, 1);
  }

  /** A second student with Ann's email is refused with 409 and nothing is
      added; a student of a group that does not exist is refused with 400;
      a search for "MATH" finds Ann through her group's name. */
  method DuplicateEmail() returns (ann: Response<StudentRecord>, bob: Response<StudentRecord>,
                                   eve: Response<StudentRecord>, found: seq<StudentRecord>)
    ensures ann == Ok(StudentRecord(1, 1, "Ann"))
    ensures bob == Conflict("ann@x.com")
    ensures eve == BadRequest(UnknownGroup(Some(7)))
    ensures found == [StudentRecord(1, 1, "Ann")]
  {
    var db := new Database.Store();
    var math := db.CreateGroup("Math", None);
    ann := db.CreateStudent(Some("Ann"), Some("ann@x.com"), Some(1));
    bob := db.CreateStudent(Some("Bob"), Some("ann@x.com"), Some(1));
    eve := db.CreateStudent(Some("Eve"), Some("eve@x.com"), Some(7));
    AnnFoundByGroupName(db.students, db.groups);
    found := Students.ListStudents(db.students, db.groups, Some("MATH"));
  }

  /** The group table after creating Math and then Algebra under it. */
  predicate MathAndAlgebra(t: Table<Group>)
  {
    t == Table(map[1 := Group("Math", None), 2 := Group("Algebra", Some(1))], 3)
  }

  lemma MathAndAlgebraIds(t: Table<Group>)
    requires MathAndAlgebra(t)
    ensures IdsFresh(t) && Ids(t) == [1, 2]
  {
    var keys := t.rows.Keys;
    assert keys == {1, 2};
    assert IdsBelow(keys, 1) == [];
    assert IdsBelow(keys, 2) == [1];
  }

  lemma MathHasAlgebra(t: Table<Group>)
    requires MathAndAlgebra(t)
    ensures Groups.Children(t, 1) == [GroupRef(2, "Algebra")]
  {
    assert Subgroups(t.rows, 1) == {2};
    assert IdsBelow({2}, 2) == [];
  }

  lemma AlgebraIsLeaf(t: Table<Group>)
    requires MathAndAlgebra(t)
    ensures Groups.Children(t, 2) == []
  {
    assert Subgroups(t.rows, 2) == {};
    assert IdsBelow({}, 3) == [];
  }

  lemma MathAloneIsLeaf(groups: map<int, Group>)
    requires groups == map[1 := Group("Math", None)]
    ensures Subgroups(groups, 1) == {}
  {
  }

  lemma ListingOfTwo(t: Table<Group>)
    requires t.rows == map[1 := Group("Math", None), 2 := Group("Algebra", Some(1))] && IdsFresh(t)
    requires Ids(t) == [1, 2]
    requires Groups.Children(t, 1) == [GroupRef(2, "Algebra")] && Groups.Children(t, 2) == []
    ensures Groups.ListGroups(t) == [GroupEntry(1, "Math", [GroupRef(2, "Algebra")]), GroupEntry(2, "Algebra", [])]
  {
  }

  /** GET /groups after the two creates lists Math with its subgroup
      Algebra, then Algebra with none. */
  lemma MathAlgebraListing(t: Table<Group>)
    requires MathAndAlgebra(t)
    ensures Groups.ListGroups(t) == [GroupEntry(1, "Math", [GroupRef(2, "Algebra")]), GroupEntry(2, "Algebra", [])]
  {
    MathAndAlgebraIds(t);
    MathHasAlgebra(t);
    AlgebraIsLeaf(t);
    ListingOfTwo(t);
  }

  /** "MATH" occurs in "Math" once case is ignored. */
  lemma MathMatchesItsCapitals()
    ensures Text.ILike("Math", "MATH")
  {
    assert Text.Lower("Math") == "math";
    assert Text.Lower("MATH") == "math";
    assert Text.OccursAt("math", "math", 0);
  }

  /** Ann is the only stored student. */
  lemma AnnAlone(students: Table<Student>)
    requires students == Table(map[1 := Student("Ann", "ann@x.com", 1)], 2)
    ensures Ids(students) == [1]
  {
    assert students.rows.Keys == {1};
    assert IdsBelow({1}, 1) == [];
  }

  /** Ann matches "MATH" through her group Math. */
  lemma AnnSelected(students: map<int, Student>, groups: map<int, Group>)
    requires students == map[1 := Student("Ann", "ann@x.com", 1)]
    requires groups == map[1 := Group("Math", None)]
    ensures Students.Select([1], students, groups, "MATH") == [1]
  {
    MathMatchesItsCapitals();
    assert Students.Matches(students, groups, 1, "MATH");
  }

  /** A search for "MATH" finds Ann, whose group is Math. */
  lemma AnnFoundByGroupName(students: Table<Student>, groups: Table<Group>)
    requires students == Table(map[1 := Student("Ann", "ann@x.com", 1)], 2)
    requires groups == Table(map[1 := Group("Math", None)], 2)
    ensures Students.ListStudents(students, groups, Some("MATH")) == [StudentRecord(1, 1, "Ann")]
  {
    AnnAlone(students);
    AnnSelected(students.rows, groups.rows);
  }
}
