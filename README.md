# Education API: groups and students

A model of a small REST API that keeps two tables. **Groups** form a tree: each group has a name and an optional parent id, and a group's subgroups are the groups whose parent id is that group's id. **Students** have a name and a unique email, and belong to a group. The route handlers create, read, update, delete and search rows. The model states and proves what each handler does to the two tables and what it answers.

- `models.dfy` (module `Models`): the row types, a `Table` (rows keyed by primary key, plus the autoincrement counter), the subgroup relation and the constraints: ids below the counter, unique emails, and the two foreign keys.
- `text.dfy` (module `Text`): `ILIKE '%query%'` as ASCII lower-casing plus substring search.
- `api.dfy` (module `Api`): request fields that may be left out (`Field`), the outcome of a handler (`Response`: `Ok`, `NotFound`, `BadRequest`, `Conflict`) and the JSON bodies.
- `groups.dfy`, `students.dfy`: the read-only routes as functions over the tables, with lemmas about the group tree and the search.
- `database.dfy` (module `Database`): the class `Store` holds both tables. Each write route is a method that changes the tables in place and states their whole new state and its answer. Every method keeps `Valid()`: ids are fresh and emails are unique.
- `scenarios.dfy`: three request sequences against a fresh store, with the answers the contracts determine.

What the handlers answer in the less obvious cases:
- Deleting a group that has a subgroup answers 400 (Olipm_2025_task2-master/routes/groups.py:79-80), so the model uses `BadRequest(HasSubgroups)`.
- A student whose name or email key is missing makes the constructor raise a `KeyError` (routes/students.py:39). An explicit null fails the insert on a NOT NULL column. Both happen inside the `try`, are caught (routes/students.py:43-47) and answer 400, which the model writes as `BadRequest(StorageError)`.
- A null `group_id` finds no group and answers 400 (routes/students.py:35-37), written `BadRequest(UnknownGroup(None))`.

Listings come back in ascending id order. Ids come from a counter that only grows, so this is also insertion order.

## Model

| member | source | states |
|---|---|---|
| Models.IdsBelow | Olipm_2025_task2-master/routes/groups.py:27 | the order in which rows are listed: the ids of a key set below a bound, strictly ascending, and exactly those ids |
| Models.Ids | models.py:6-12 | all primary keys of a table whose ids come from its counter, each once, ascending |
| Models.Subgroups | models.py:9 | the `subgroups` relationship: only stored groups are anyone's subgroups |
| Models.EmailsUnique | models.py:14 | the unique email column: two stored students with the same email are the same student |
| Models.ParentsResolve | models.py:8 | the `parent_id` foreign key: every parent id in use names a stored group |
| Models.StudentsResolve | models.py:15 | the `group_id` foreign key: every student's group id names a stored group |
| Models.InsertKeepsEmailsUnique | models.py:14 | inserting a row whose email no stored student holds keeps emails unique |
| Models.SameEmailKeepsEmailsUnique | routes/students.py:99-104 | rewriting a student without touching its email keeps emails unique |
| Text.Lower | routes/students.py:57 | same length, every character case-folded, and no ASCII capital left |
| Text.Contains | routes/students.py:57 | true exactly when the needle occurs at some position of the text |
| Text.ILike | routes/students.py:57 | `ILIKE '%query%'`: true exactly when the lower-cased query occurs somewhere in the lower-cased text |
| Text.LowerIdempotent | routes/students.py:57 | folding case twice is the same as folding it once |
| Text.ILikeIgnoresCase | routes/students.py:57 | the ILIKE match does not change when the text or the query is lower-cased |
| Text.ILikeReflexive | routes/students.py:57 | every text matches itself as a query |
| Text.ILikeWidens | routes/students.py:57 | a query that matches a slice of a text matches the whole text |
| Api.Patched | Olipm_2025_task2-master/routes/groups.py:61-62 | `data.get(key, current)`: the current value when the key is left out, the given value (null included) otherwise |
| Groups.GetGroup | Olipm_2025_task2-master/routes/groups.py:40-44 | `Ok({id, name})` exactly when the group is stored, otherwise `NotFound(id)` |
| Groups.Children | models.py:8-9 | the subGroups list: exactly the groups whose parent is the given id, ascending, with their stored names |
| Groups.ListGroups | Olipm_2025_task2-master/routes/groups.py:26-30 | one entry per stored group, ascending, with its stored name; its subGroups list each of its children once, ascending, with their stored names, and no other group |
| Groups.SelfParentIsOwnSubgroup | Olipm_2025_task2-master/routes/groups.py:62 | a group made its own parent is its own subgroup, so the delete guard always refuses it |
| Groups.RemoveChildless | Olipm_2025_task2-master/routes/groups.py:79-82 | removing a childless group only removes it from its parent's subgroups, and adds no dangling parent id |
| Groups.MoveGroup | Olipm_2025_task2-master/routes/groups.py:61-62 | after rewriting a group, it is a subgroup of exactly its new parent, and no other subgroup set changes |
| Students.GetStudent | routes/students.py:72-76 | `Ok({id, group_id, name})` exactly when the student is stored, otherwise `NotFound(id)` |
| Students.Matches | routes/students.py:56-57 | the search condition: only a student whose group is stored can match (inner join), and a student matches when the query is ILIKE its own name or its group's name |
| Students.Select | routes/students.py:55-58 | keeps exactly the ids that join a stored group and match by student or group name; ascending ids in, ascending ids out |
| Students.Filters | routes/students.py:55 | `if query:` filters exactly when a query is given and is not the empty string |
| Students.ListStudents | routes/students.py:52-59 | no query or an empty query lists every student; otherwise exactly the matching ones; ascending; stored group id and name |
| Students.SelectIgnoresQueryCase | routes/students.py:55-57 | filtering with a query or its lower-cased form keeps the same ids |
| Students.SearchIgnoresQueryCase | routes/students.py:55-58 | the search answers the same for a query and its lower-cased form |
| Database.Store.constructor | Olipm_2025_task2-master/app.py:18-19 | both tables start empty with their counters at id 1, and the invariant holds |
| Database.Store.CreateGroup | Olipm_2025_task2-master/routes/groups.py:16-21 | adds one group under a fresh id with the given name and parent (not checked); answers its id, parent id and name; only the parent's subgroups grow |
| Database.Store.UpdateGroup | Olipm_2025_task2-master/routes/groups.py:56-64 | `NotFound` changes nothing; otherwise name and parent change only if given, a given null parent makes a root, and no other group or subgroup set changes |
| Database.Store.DeleteGroup | Olipm_2025_task2-master/routes/groups.py:75-83 | `NotFound` if missing; `BadRequest(HasSubgroups)` if it has a subgroup and nothing changes; otherwise exactly that group is removed and a later get answers `NotFound` |
| Database.Store.CreateStudent | routes/students.py:33-47 | unknown or null group answers `BadRequest` and adds nothing; null name or email answers `BadRequest`; a held email answers `Conflict` and rolls back; otherwise adds one student under a fresh id |
| Database.Store.UpdateStudent | routes/students.py:94-106 | `NotFound` if missing; a given group id that names no group answers `BadRequest` and changes nothing; otherwise group id and name change only if given, and the email never changes |
| Database.Store.DeleteStudent | routes/students.py:125-131 | `NotFound` if missing; otherwise exactly that student is removed and the groups are untouched |
| Scenarios.GroupTree | Olipm_2025_task2-master/routes/groups.py:16-30 | Math then Algebra under it get ids 1 and 2, and the listing shows Algebra under Math |
| Scenarios.DeleteGuard | Olipm_2025_task2-master/routes/groups.py:75-83 | deleting Math is refused with 400 while Algebra is its subgroup, succeeds once Algebra is deleted, and Math is then not found |
| Scenarios.MathAlgebraListing | Olipm_2025_task2-master/routes/groups.py:26-30 | the listing after those two creates is Math with subgroup Algebra, then Algebra with none |
| Scenarios.DuplicateEmail | routes/students.py:33-59 | a second student with Ann's email gets `Conflict`, an unknown group gets `BadRequest`, and "MATH" finds Ann through her group |
| Scenarios.AnnFoundByGroupName | routes/students.py:55-58 | searching "MATH" lists exactly Ann, whose group is named Math |

## Left out

- The HTTP and framework layer: routing, status codes, JSON encoding, the Swagger dictionaries, `abort` and the error-message texts. Each outcome is a `Response` constructor.
- Application bootstrap (app.py, routes/__init__.py) is left out. So are the storage connection and its configuration.
- Missing required keys and explicit nulls that raise an error no handler catches (HTTP 500) are left out. In the group routes these are a missing or null `name` when creating a group (Olipm_2025_task2-master/routes/groups.py:18) and an explicit null `name` in an update (line 61, which stores it into a NOT NULL column). In the student routes these are a missing `group_id` when creating a student, because `data['group_id']` is read before the `try` (routes/students.py:35), and an explicit null `name` in an update, which fails the commit (routes/students.py:104-105). The model's `CreateGroup` name and the names an update may give are non-null strings, and `CreateStudent` takes the group id as given or null.
- JSON values of the wrong type (a string id, say) are not modelled.
- The `String(100)` length limits are left out: whether the database enforces them depends on the engine.
- ILIKE wildcards are left out: `%` and `_` inside the query act as wildcards in SQL, but the model treats them as plain characters. Case folding covers ASCII letters only, not the database collation's Unicode rules.
- Database.Store.CreateStudent: the source finds a duplicate email by matching the exception text (`unique constraint` or `duplicate key value`). The model checks explicitly whether the email is already held. With an engine whose message matches neither text (SQLite says `UNIQUE constraint failed`), the source answers 400 instead of 409.
- Database.Store.CreateStudent: a failed insert leaves the id counter unchanged. A PostgreSQL sequence would have used up a value. In either case, ids stay fresh.
- Id reuse is left out. An engine without AUTOINCREMENT may hand out the largest deleted id again; the model's counter never goes back.
- Foreign-key enforcement by the database is left out. The routes do not check that a group's parent exists, and deleting a group ignores its students. The model follows the routes. An engine that enforces the keys would reject those writes with an uncaught error.
- The race between the group check and the insert in student creation is left out, with all other concurrency: each handler runs as one atomic step.
- The order of `query.all()` is left to the engine; the model lists rows in ascending id order.
