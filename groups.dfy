/** The groups.json handlers: validGroupPost, deleteGroup and patchGroup. */
module Groups {
  import opened Records
  import opened Schemas
  import opened Members

  /** The id validGroupPost assigns, by the same counter as for users: the
      last record's id plus one, and 2 for an empty document. */
  function NextGroupId(data: seq<Group>): (r: int)
    ensures GroupIdsIncreasing(data) ==> forall k :: 0 <= k < |data| ==> data[k].id < r
  {
    (if |data| == 0 then 1 else data[|data| - 1].id) + 1
  }

  ghost predicate NameTaken(data: seq<Group>, name: string) {
    exists k :: 0 <= k < |data| && data[k].name == name
  }

  /** validGroupPost after its schema check and the decoding of
      listOfUsers. */
  method CreateGroup(data: seq<Group>, body: GroupBody) returns (r: Result<Created<Group>>)
    ensures !ValidGroupBody(body) ==> r == Err(Invalid)
    ensures ValidGroupBody(body) && NameTaken(data, body.name) ==> r == Err(DuplicateName)
    ensures ValidGroupBody(body) && !NameTaken(data, body.name) ==>
      r == Ok(Created(data + [Group(NextGroupId(data), body.name, body.listOfUsers)], NextGroupId(data)))
    ensures r.Ok? && GroupIdsIncreasing(data) ==> GroupIdsIncreasing(r.value.doc)
    ensures r.Ok? && UniqueNames(data) ==> UniqueNames(r.value.doc)
  {
    if !ValidGroupBody(body) {
      return Err(Invalid);
    }
    var id := 1;
    for i := 0 to |data|
      invariant id == if i == 0 then 1 else data[i - 1].id
      invariant forall k :: 0 <= k < i ==> data[k].name != body.name
    {
      id := data[i].id;
      if data[i].name == body.name {
        return Err(DuplicateName);
      }
    }
    var created := Group(id + 1, body.name, body.listOfUsers);
    r := Ok(Created(data + [created], id + 1));
    NewGroupKeepsInvariants(data, created);
  }

  /** Appending a group with a fresh name and the next id keeps the
      invariants of the groups document. */
  lemma NewGroupKeepsInvariants(data: seq<Group>, g: Group)
    requires !NameTaken(data, g.name) && g.id == NextGroupId(data)
    ensures GroupIdsIncreasing(data) ==> GroupIdsIncreasing(data + [g])
    ensures UniqueNames(data) ==> UniqueNames(data + [g])
  {
    var t := data + [g];
    assert forall k :: 0 <= k < |data| ==> t[k] == data[k];
  }

  /** deleteGroup: there is no empty-document check, so an empty document
      reports the group as not found. */
  method DeleteGroup(groups: seq<Group>, id: int) returns (r: Result<Changed<Group>>)
    ensures (forall k :: 0 <= k < |groups| ==> groups[k].id != id) ==> r == Err(GroupNotFound)
    ensures forall k :: IsLastGroupMatch(groups, id, k) ==>
      r == Ok(Changed(groups[..k] + groups[k + 1..], groups[k].name))
    ensures r.Ok? && GroupIdsIncreasing(groups) ==> GroupIdsIncreasing(r.value.doc)
    ensures r.Ok? && UniqueNames(groups) ==> UniqueNames(r.value.doc)
  {
    var position := FindLastGroup(groups, id);
    if position == -1 {
      return Err(GroupNotFound);
    }
    GroupRemovalKeepsInvariants(groups, position);
    r := Ok(Changed(groups[..position] + groups[position + 1..], groups[position].name));
  }

  /** `body.name || stored name`: a supplied non-empty name replaces the
      stored one. */
  function Rename(stored: string, name: Option<string>): string {
    if name.Some? && name.value != "" then name.value else stored
  }

  /** The group record as patchGroup leaves it. */
  function UpdatedGroup(g: Group, p: GroupPatch): (r: Group)
    ensures r.id == g.id
    ensures |g.listOfUsers| <= |r.listOfUsers| && r.listOfUsers[..|g.listOfUsers|] == g.listOfUsers
    ensures p.listOfUsers.Some? ==> forall x :: x in p.listOfUsers.value ==> x in r.listOfUsers
    ensures NoDuplicates(g.listOfUsers) ==> NoDuplicates(r.listOfUsers)
  {
    if p.listOfUsers.Some? then
      MergeExtends(g.listOfUsers, p.listOfUsers.value);
      MergeElements(g.listOfUsers, p.listOfUsers.value);
      MergeKeepsNoDuplicates(g.listOfUsers, p.listOfUsers.value);
      Group(g.id, Rename(g.name, p.name), Merge(g.listOfUsers, p.listOfUsers.value))
    else
      Group(g.id, Rename(g.name, p.name), g.listOfUsers)
  }

  /** Patching a group twice with the same body gives the group of one
      patch. */
  lemma UpdatedGroupIdempotent(g: Group, p: GroupPatch)
    ensures UpdatedGroup(UpdatedGroup(g, p), p) == UpdatedGroup(g, p)
  {
    if p.listOfUsers.Some? {
      MergeIdempotent(g.listOfUsers, p.listOfUsers.value);
    }
  }

  /** The document patchGroup writes, patched again with the same body, is
      unchanged: the patched record is still the last match, and patching
      it again gives the same record. */
  lemma PatchedDocumentIdempotent(groups: seq<Group>, id: int, k: int, p: GroupPatch)
    requires IsLastGroupMatch(groups, id, k)
    ensures var once := groups[k := UpdatedGroup(groups[k], p)];
            IsLastGroupMatch(once, id, k) && once[k := UpdatedGroup(once[k], p)] == once
  {
    UpdatedGroupIdempotent(groups[k], p);
  }

  /** patchGroup after its schema check and the decoding of listOfUsers. */
  method PatchGroup(groups: seq<Group>, id: int, patch: GroupPatch) returns (r: Result<Changed<Group>>)
    ensures !ValidGroupPatch(patch) ==> r == Err(Invalid)
    ensures ValidGroupPatch(patch) && (forall k :: 0 <= k < |groups| ==> groups[k].id != id) ==> r == Err(GroupNotFound)
    ensures ValidGroupPatch(patch) ==> forall k :: IsLastGroupMatch(groups, id, k) ==>
      r == Ok(Changed(groups[k := UpdatedGroup(groups[k], patch)], groups[k].name))
    ensures r.Ok? && GroupIdsIncreasing(groups) ==> GroupIdsIncreasing(r.value.doc)
  {
    if !ValidGroupPatch(patch) {
      return Err(Invalid);
    }
    var index := FindLastGroup(groups, id);
    if index == -1 {
      return Err(GroupNotFound);
    }
    var g := groups[index];
    var list := g.listOfUsers;
    if patch.listOfUsers.Some? {
      list := MergeMembers(list, patch.listOfUsers.value);
    }
    var updated := Group(g.id, Rename(g.name, patch.name), list);
    r := Ok(Changed(groups[index := updated], g.name));
  }

  /** patchGroup does not re-check names: renaming onto another group's
      name leaves two groups with one name. */
  lemma PatchCanDuplicateName()
    ensures var groups := [Group(1, "admins", [1]), Group(2, "editors", [2])];
            UniqueNames(groups) && IsLastGroupMatch(groups, 2, 1) &&
            !UniqueNames(groups[1 := UpdatedGroup(groups[1], GroupPatch(Some("admins"), None))])
  {
    var groups := [Group(1, "admins", [1]), Group(2, "editors", [2])];
    var patched := groups[1 := UpdatedGroup(groups[1], GroupPatch(Some("admins"), None))];
    assert patched[0].name == patched[1].name;
  }
}
