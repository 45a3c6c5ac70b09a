/** The two tables of the education API (models.py): groups, which form a
    tree through a self-referencing parent id, and students, each of which
    belongs to a group. A row's primary key is the key it is stored under. */
module Models {

  datatype Option<T> = None | Some(value: T)

  /** A row of the group table: a non-null name and an optional parent id
      (None means a root group). */
  datatype Group = Group(name: string, parentId: Option<int>)

  /** A row of the student table: non-null name and email, and the id of
      the group the student belongs to. */
  datatype Student = Student(name: string, email: string, groupId: int)

  /** A table with an integer primary key assigned by autoincrement:
      `nextId` is the id the next inserted row receives. */
  datatype Table<T> = Table(rows: map<int, T>, nextId: int)

  /** Every stored id was handed out by the counter, so a new id is fresh. */
  predicate IdsFresh<T>(t: Table<T>)
  {
    1 <= t.nextId && forall id :: id in t.rows ==> 1 <= id < t.nextId
  }

  predicate Increasing(s: seq<int>)
  {
    forall i, j :: 0 <= i < j < |s| ==> s[i] < s[j]
  }

  /** The ids of a sequence of records, picked out by `key`. */
  function IdsOf<A>(s: seq<A>, key: A -> int): (ids: seq<int>)
    ensures |ids| == |s| && forall i :: 0 <= i < |s| ==> ids[i] == key(s[i])
  {
    seq(|s|, i requires 0 <= i < |s| => key(s[i]))
  }

  /** The ids of `keys` that lie in [1, n), in ascending order. */
  function IdsBelow(keys: set<int>, n: int): (ids: seq<int>)
    ensures Increasing(ids)
    ensures forall id :: id in ids <==> id in keys && 1 <= id < n
    decreases n
  {
    if n <= 1 then []
    else
      var lower := IdsBelow(keys, n - 1);
      assert forall i :: 0 <= i < |lower| ==> lower[i] in lower && lower[i] < n - 1;
      lower + (if n - 1 in keys then [n - 1] else [])
  }

  /** All ids of a table in ascending order, which is the order in which the
      counter handed them out. */
  function Ids<T>(t: Table<T>): (ids: seq<int>)
    requires IdsFresh(t)
    ensures Increasing(ids)
    ensures forall id :: id in ids <==> id in t.rows
  {
    IdsBelow(t.rows.Keys, t.nextId)
  }

  /** The subgroups of group `id`: the groups whose parent id is `id`. */
  function Subgroups(groups: map<int, Group>, id: int): (children: set<int>)
    ensures children <= groups.Keys
  {
    set k | k in groups && groups[k].parentId == Some(id)
  }

  /** The unique constraint on the email column. */
  predicate EmailsUnique(students: map<int, Student>)
    ensures EmailsUnique(students) ==>
              forall a, b :: a in students && b in students && students[a].email == students[b].email ==> a == b
  {
    forall a, b :: a in students && b in students && a != b ==> students[a].email != students[b].email
  }

  predicate EmailTaken(students: map<int, Student>, email: string)
  {
    exists k :: k in students && students[k].email == email
  }

  /** The foreign key of `parent_id`: every parent id names a stored group.
      The routes do not enforce it. */
  predicate ParentsResolve(groups: map<int, Group>)
    ensures ParentsResolve(groups) ==>
              (set k | k in groups && groups[k].parentId.Some? :: groups[k].parentId.value) <= groups.Keys
  {
    forall k :: k in groups && groups[k].parentId.Some? ==> groups[k].parentId.value in groups
  }

  /** The foreign key of `group_id`: every student's group is stored. */
  predicate StudentsResolve(students: map<int, Student>, groups: map<int, Group>)
    ensures StudentsResolve(students, groups) ==> (set k | k in students :: students[k].groupId) <= groups.Keys
  {
    forall k :: k in students ==> students[k].groupId in groups
  }

  /** What every reachable state of the two tables satisfies. */
  predicate Consistent(groups: Table<Group>, students: Table<Student>)
  {
    IdsFresh(groups) && IdsFresh(students) && EmailsUnique(students.rows)
  }

  /** Adding a student whose email is not yet taken keeps emails unique. */
  lemma InsertKeepsEmailsUnique(students: map<int, Student>, id: int, s: Student)
    requires EmailsUnique(students)
    requires id !in students
    requires !EmailTaken(students, s.email)
    ensures EmailsUnique(students[id := s])
  {
  }

  /** Changing anything but the email of a stored student keeps emails unique. */
  lemma SameEmailKeepsEmailsUnique(students: map<int, Student>, id: int, s: Student)
    requires EmailsUnique(students)
    requires id in students && students[id].email == s.email
    ensures EmailsUnique(students[id := s])
  {
  }
}
