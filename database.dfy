/** The write routes of the API, as methods of the database session that
    holds the two tables. Each handler either commits its change at once or
    rolls back and leaves both tables as they were. */
module Database {
  import opened Models
  import opened Api
  import Groups
  import Students

  class Store {
    var groups: Table<Group>
    var students: Table<Student>

    ghost predicate Valid()
      reads this
    {
      Consistent(groups, students)
    }

    /** Both tables empty, each counter at its first id. */
    constructor ()
      ensures Valid()
      ensures groups == Table(map[], 1) && students == Table(map[], 1)
    {
      groups := Table(map[], 1);
      students := Table(map[], 1);
    }

    /** POST /groups: adds a group under a fresh id. The parent id is stored
        as given (None when the key is left out) without checking that it
        names a group. */
    method CreateGroup(name: string, parentId: Option<int>) returns (r: Response<GroupRecord>)
      requires Valid()
      modifies this
      ensures Valid()
      ensures var id := old(groups.nextId);
              && id !in old(groups.rows)
              && r == Ok(GroupRecord(id, parentId, name))
              && groups == Table(old(groups.rows)[id := Group(name, parentId)], id + 1)
      ensures students == old(students)
      ensures Groups.GetGroup(groups, r.body.id) == Ok(GroupRef(r.body.id, name))
      ensures forall p :: Subgroups(groups.rows, p) ==
                Subgroups(old(groups.rows), p) + (if parentId == Some(p) then {r.body.id} else {})
      ensures old(StudentsResolve(students.rows, groups.rows)) ==> StudentsResolve(students.rows, groups.rows)
    {
      var id := groups.nextId;
      groups := Table(groups.rows[id := Group(name, parentId)], id + 1);
      r := Ok(GroupRecord(id, parentId, name));
    }

    /** PUT /groups/{id}: replaces the name and the parent id only when the
        body gives them; a given null parent id makes the group a root. No
        check that the parent exists or that the tree stays acyclic. */
    method UpdateGroup(id: int, name: Field<string>, parentId: Field<Option<int>>) returns (r: Response<GroupRecord>)
      requires Valid()
      modifies this
      ensures Valid()
      ensures students == old(students) && groups.nextId == old(groups.nextId)
      ensures id !in old(groups.rows) ==> r == NotFound(id) && groups == old(groups)
      ensures id in old(groups.rows) ==>
                var g := Group(Patched(name, old(groups.rows[id].name)), Patched(parentId, old(groups.rows[id].parentId)));
                && r == Ok(GroupRecord(id, g.parentId, g.name))
                && groups.rows == old(groups.rows)[id := g]
      ensures r.Ok? ==> forall p :: Subgroups(groups.rows, p) - {id} == Subgroups(old(groups.rows), p) - {id}
      ensures r.Ok? && parentId == Present(None) ==> forall p :: id !in Subgroups(groups.rows, p)
    {
      if id !in groups.rows {
        return NotFound(id);
      }
      var g := groups.rows[id];
      g := g.(name := Patched(name, g.name));
      g := g.(parentId := Patched(parentId, g.parentId));
      Groups.MoveGroup(groups.rows, id, g);
      groups := groups.(rows := groups.rows[id := g]);
      r := Ok(GroupRecord(id, g.parentId, g.name));
    }

    /** DELETE /groups/{id}: 404 for a missing group, 400 for a group that
        has a subgroup; otherwise removes exactly that group. Students are
        not looked at. */
    method DeleteGroup(id: int) returns (r: Response<string>)
      requires Valid()
      modifies this
      ensures Valid()
      ensures students == old(students) && groups.nextId == old(groups.nextId)
      ensures id !in old(groups.rows) ==> r == NotFound(id)
      ensures id in old(groups.rows) && Subgroups(old(groups.rows), id) != {} ==> r == BadRequest(HasSubgroups)
      ensures r.Ok? <==> id in old(groups.rows) && Subgroups(old(groups.rows), id) == {}
      ensures !r.Ok? ==> groups == old(groups)
      ensures r.Ok? ==> r.body == DeletedMessage && groups.rows == old(groups.rows) - {id}
      ensures r.Ok? ==> Groups.GetGroup(groups, id) == NotFound(id)
      ensures r.Ok? ==> forall p :: Subgroups(groups.rows, p) == Subgroups(old(groups.rows), p) - {id}
      ensures old(ParentsResolve(groups.rows)) ==> ParentsResolve(groups.rows)
    {
      if id !in groups.rows {
        return NotFound(id);
      }
      if Subgroups(groups.rows, id) != {} {
        return BadRequest(HasSubgroups);
      }
      Groups.RemoveChildless(groups.rows, id);
      groups := groups.(rows := groups.rows - {id});
      r := Ok(DeletedMessage);
    }

    /** POST /students: 400 unless the group id names a stored group; then
        the insert, which fails with 400 on a missing name or email (a NOT
        NULL column) and with 409 on an email already held; a failed insert
        is rolled back. */
    method CreateStudent(name: Option<string>, email: Option<string>, groupId: Option<int>) returns (r: Response<StudentRecord>)
      requires Valid()
      modifies this
      ensures Valid()
      ensures groups == old(groups)
      ensures groupId.None? || groupId.value !in groups.rows ==> r == BadRequest(UnknownGroup(groupId))
      ensures groupId.Some? && groupId.value in groups.rows && (name.None? || email.None?) ==>
                r == BadRequest(StorageError)
      ensures (groupId.Some? && groupId.value in groups.rows && name.Some? && email.Some?
               && EmailTaken(old(students.rows), email.value)) ==> r == Conflict(email.value)
      ensures r.Ok? <==> groupId.Some? && groupId.value in groups.rows && name.Some? && email.Some?
                         && !EmailTaken(old(students.rows), email.value)
      ensures !r.Ok? ==> students == old(students)
      ensures r.Ok? ==>
                var id := old(students.nextId);
                && id !in old(students.rows)
                && r.body == StudentRecord(id, groupId.value, name.value)
                && students == Table(old(students.rows)[id := Student(name.value, email.value, groupId.value)], id + 1)
      ensures r.Ok? ==> Students.GetStudent(students, r.body.id) == Ok(r.body)
      ensures old(StudentsResolve(students.rows, groups.rows)) ==> StudentsResolve(students.rows, groups.rows)
    {
      if groupId.None? || groupId.value !in groups.rows {
        return BadRequest(UnknownGroup(groupId));
      }
      if name.None? || email.None? {
        return BadRequest(StorageError);
      }
      if EmailTaken(students.rows, email.value) {
        return Conflict(email.value);
      }
      var id := students.nextId;
      var s := Student(name.value, email.value, groupId.value);
      InsertKeepsEmailsUnique(students.rows, id, s);
      students := Table(students.rows[id := s], id + 1);
      r := Ok(StudentRecord(id, s.groupId, s.name));
    }

    /** PUT /students/{id}: 404 for a missing student; 400, changing nothing,
        when a given group id names no stored group; otherwise the group id
        and the name change only when given. The email never changes. */
    method UpdateStudent(id: int, name: Field<string>, groupId: Field<Option<int>>) returns (r: Response<StudentRecord>)
      requires Valid()
      modifies this
      ensures Valid()
      ensures groups == old(groups) && students.nextId == old(students.nextId)
      ensures id !in old(students.rows) ==> r == NotFound(id)
      ensures id in old(students.rows) && groupId.Present? && (groupId.value.None? || groupId.value.value !in groups.rows) ==>
                r == BadRequest(UnknownGroup(groupId.value))
      ensures r.Ok? <==> id in old(students.rows) && (groupId.Present? ==> groupId.value.Some? && groupId.value.value in groups.rows)
      ensures !r.Ok? ==> students == old(students)
      ensures r.Ok? ==>
                var s := old(students.rows[id]);
                var s' := Student(Patched(name, s.name), s.email, if groupId.Present? then groupId.value.value else s.groupId);
                && r.body == StudentRecord(id, s'.groupId, s'.name)
                && students.rows == old(students.rows)[id := s']
      ensures old(StudentsResolve(students.rows, groups.rows)) ==> StudentsResolve(students.rows, groups.rows)
    {
      if id !in students.rows {
        return NotFound(id);
      }
      var s := students.rows[id];
      if groupId.Present? {
        if groupId.value.None? || groupId.value.value !in groups.rows {
          return BadRequest(UnknownGroup(groupId.value));
        }
        s := s.(groupId := groupId.value.value);
      }
      s := s.(name := Patched(name, s.name));
      SameEmailKeepsEmailsUnique(students.rows, id, s);
      students := students.(rows := students.rows[id := s]);
      r := Ok(StudentRecord(id, s.groupId, s.name));
    }

    /** DELETE /students/{id}: 404 for a missing student; otherwise removes
        exactly that student. */
    method DeleteStudent(id: int) returns (r: Response<string>)
      requires Valid()
      modifies this
      ensures Valid()
      ensures groups == old(groups) && students.nextId == old(students.nextId)
      ensures r.Ok? <==> id in old(students.rows)
      ensures !r.Ok? ==> r == NotFound(id) && students == old(students)
      ensures r.Ok? ==> r.body == DeletedMessage && students.rows == old(students.rows) - {id}
      ensures r.Ok? ==> Students.GetStudent(students, id) == NotFound(id)
      ensures old(StudentsResolve(students.rows, groups.rows)) ==> StudentsResolve(students.rows, groups.rows)
    {
      if id !in students.rows {
        return NotFound(id);
      }
      students := students.(rows := students.rows - {id});
      r := Ok(DeletedMessage);
    }
  }
}
