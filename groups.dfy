/** The read-only group routes (GET /groups and GET /groups/{id}) and the
    facts about the group tree that the group write routes rely on. */
module Groups {
  import opened Models
  import opened Api

  /** GET /groups/{id}: the group's id and name, or 404. */
  function GetGroup(groups: Table<Group>, id: int): (r: Response<GroupRef>)
    ensures r.Ok? <==> id in groups.rows
    ensures r.Ok? ==> r.body.id == id && r.body.name == groups.rows[id].name
    ensures !r.Ok? ==> r == NotFound(id)
  {
    if id in groups.rows then Ok(GroupRef(id, groups.rows[id].name)) else NotFound(id)
  }

  /** The `subGroups` list of group `id`: one `{id, name}` per group whose
      parent is `id`, in ascending id order. */
  function Children(groups: Table<Group>, id: int): (refs: seq<GroupRef>)
    requires IdsFresh(groups)
    ensures Increasing(IdsOf(refs, (g: GroupRef) => g.id))
    ensures forall c :: c in IdsOf(refs, (g: GroupRef) => g.id) <==> c in Subgroups(groups.rows, id)
    ensures forall s :: s in refs ==> s.id in groups.rows && s.name == groups.rows[s.id].name
  {
    var ids := IdsBelow(Subgroups(groups.rows, id), groups.nextId);
    assert forall j :: 0 <= j < |ids| ==> ids[j] in ids;
    var refs := seq(|ids|, j requires 0 <= j < |ids| => GroupRef(ids[j], groups.rows[ids[j]].name));
    assert IdsOf(refs, (g: GroupRef) => g.id) == ids;
    refs
  }

  /** GET /groups: one entry per stored group, in ascending id order, each
      listing exactly the groups whose parent it is. */
  function ListGroups(groups: Table<Group>): (r: seq<GroupEntry>)
    requires IdsFresh(groups)
    ensures Increasing(IdsOf(r, (e: GroupEntry) => e.id))
    ensures forall id :: id in IdsOf(r, (e: GroupEntry) => e.id) <==> id in groups.rows
    ensures forall e :: e in r ==> e.id in groups.rows && e.name == groups.rows[e.id].name
    ensures forall e :: e in r ==> Increasing(IdsOf(e.subGroups, (g: GroupRef) => g.id))
    ensures forall e :: e in r ==> forall c :: c in IdsOf(e.subGroups, (g: GroupRef) => g.id) <==> c in Subgroups(groups.rows, e.id)
    ensures forall e, s :: e in r && s in e.subGroups ==> s.id in groups.rows && s.name == groups.rows[s.id].name
  {
    var ids := Ids(groups);
    assert forall i :: 0 <= i < |ids| ==> ids[i] in ids;
    var r := seq(|ids|, i requires 0 <= i < |ids| =>
      GroupEntry(ids[i], groups.rows[ids[i]].name, Children(groups, ids[i])));
    assert IdsOf(r, (e: GroupEntry) => e.id) == ids;
    r
  }

  /** A group made its own parent (nothing forbids it) is one of its own
      subgroups, so it cannot be deleted until it is detached. */
  lemma SelfParentIsOwnSubgroup(groups: map<int, Group>, id: int)
    requires id in groups && groups[id].parentId == Some(id)
    ensures id in Subgroups(groups, id)
  {
  }

  /** Removing a group that has no subgroups leaves every other group's
      subgroups as they were, and creates no dangling parent id. */
  lemma RemoveChildless(groups: map<int, Group>, id: int)
    requires id in groups && Subgroups(groups, id) == {}
    ensures forall p :: Subgroups(groups - {id}, p) == Subgroups(groups, p) - {id}
    ensures ParentsResolve(groups) ==> ParentsResolve(groups - {id})
  {
  }

  /** Renaming a group or moving it under another parent changes no other
      group's subgroups; `id` ends up a subgroup of its new parent only. */
  lemma MoveGroup(groups: map<int, Group>, id: int, g: Group)
    requires id in groups
    ensures forall p :: id in Subgroups(groups[id := g], p) <==> g.parentId == Some(p)
    ensures forall p :: Subgroups(groups[id := g], p) - {id} == Subgroups(groups, p) - {id}
  {
  }
}
