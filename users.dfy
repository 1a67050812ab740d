/** The users.json handlers: validUserPost, deleteUser (with its cleanup of
    groups.json) and patchUser. */
module Users {
  import opened Records
  import opened Schemas
  import opened Members

  /** The id validUserPost assigns: the counter starts at 1, takes each
      scanned record's id in turn and is incremented once at the end. So it
      is the last record's id plus one, and 2 for an empty document. */
  function NextUserId(data: seq<User>): (r: int)
    ensures UserIdsIncreasing(data) ==> forall k :: 0 <= k < |data| ==> data[k].id < r
  {
    (if |data| == 0 then 1 else data[|data| - 1].id) + 1
  }

  /** The role stored for a new user: superadmin in an empty document,
      otherwise the requested one. */
  function AssignedRole(data: seq<User>, requested: string): string {
    if |data| == 0 then Superadmin else requested
  }

  /** What the scan of validUserPost throws at one existing record, if
      anything: the superadmin check comes before the email check. */
  function Clash(u: User, role: string, email: string): Option<Error> {
    if u.role == role && role == Superadmin then Some(SuperadminTaken)
    else if u.email == email then Some(DuplicateEmail)
    else None
  }

  ghost predicate NoClash(data: seq<User>, role: string, email: string) {
    forall k :: 0 <= k < |data| ==> Clash(data[k], role, email).None?
  }

  /** k is the first record at which the scan throws. */
  ghost predicate FirstClashAt(data: seq<User>, role: string, email: string, k: int) {
    0 <= k < |data| && Clash(data[k], role, email).Some? &&
    forall j :: 0 <= j < k ==> Clash(data[j], role, email).None?
  }

  /** validUserPost after its schema check. An error leaves the document
      as it was (nothing is written). */
  method CreateUser(data: seq<User>, body: UserBody, isEmail: string -> bool) returns (r: Result<Created<User>>)
    ensures !ValidUserBody(body, isEmail) ==> r == Err(Invalid)
    ensures r.Ok? <==> ValidUserBody(body, isEmail) && NoClash(data, AssignedRole(data, body.role), body.email)
    ensures ValidUserBody(body, isEmail) ==>
      forall k :: FirstClashAt(data, AssignedRole(data, body.role), body.email, k) ==>
        r == Err(Clash(data[k], AssignedRole(data, body.role), body.email).value)
    ensures r.Ok? ==>
      r.value == Created(data + [User(NextUserId(data), body.username, body.password, body.email,
                                      AssignedRole(data, body.role))], NextUserId(data))
    ensures r.Ok? && UserIdsIncreasing(data) ==> UserIdsIncreasing(r.value.doc)
    ensures r.Ok? && AtMostOneSuperadmin(data) ==> AtMostOneSuperadmin(r.value.doc)
    ensures r.Ok? && UniqueEmails(data) ==> UniqueEmails(r.value.doc)
  {
    if !ValidUserBody(body, isEmail) {
      return Err(Invalid);
    }
    var role := if |data| == 0 then Superadmin else body.role;
    var id := 1;
    for i := 0 to |data|
      invariant id == if i == 0 then 1 else data[i - 1].id
      invariant forall k :: 0 <= k < i ==> Clash(data[k], role, body.email).None?
    {
      id := data[i].id;
      if data[i].role == role && role == Superadmin {
        return Err(SuperadminTaken);
      }
      if data[i].email == body.email {
        return Err(DuplicateEmail);
      }
    }
    var created := User(id + 1, body.username, body.password, body.email, role);
    r := Ok(Created(data + [created], id + 1));
    NewRecordKeepsInvariants(data, created);
  }

  /** Appending a record that clashes with nothing and carries the next id
      keeps every invariant of the users document. */
  lemma NewRecordKeepsInvariants(data: seq<User>, u: User)
    requires NoClash(data, u.role, u.email) && u.id == NextUserId(data)
    ensures UserIdsIncreasing(data) ==> UserIdsIncreasing(data + [u])
    ensures AtMostOneSuperadmin(data) ==> AtMostOneSuperadmin(data + [u])
    ensures UniqueEmails(data) ==> UniqueEmails(data + [u])
  {
    var t := data + [u];
    assert forall k :: 0 <= k < |data| ==> t[k] == data[k];
    assert forall k :: 0 <= k < |data| ==> data[k].email != u.email by {
      forall k | 0 <= k < |data| ensures data[k].email != u.email {
        assert Clash(data[k], u.role, u.email).None?;
      }
    }
  }

  /** The first user of an empty document becomes superadmin whatever role
      was asked for, and gets id 2. */
  lemma FirstUserIsSuperadmin(body: UserBody)
    ensures NoClash([], AssignedRole([], body.role), body.email)
    ensures AssignedRole([], body.role) == Superadmin && NextUserId([]) == 2
  {
  }

  /** NextUserId is last-plus-one, not maximum-plus-one: when the last
      record does not carry the largest id, the new id can repeat one. */
  lemma NextUserIdCanRepeat()
    ensures var data := [User(3, "anna", "password1", "a@x.io", Superadmin), User(2, "bert", "password2", "b@x.io", "user")];
            NextUserId(data) == data[0].id
  {
  }

  /** deleteUser, with the groups.json document it reads after writing
      users.json. */
  method DeleteUser(users: seq<User>, groups: seq<Group>, id: int) returns (r: Result<UserRemoved>)
    ensures |users| == 0 ==> r == Err(EmptyList)
    ensures |users| > 0 && (forall k :: 0 <= k < |users| ==> users[k].id != id) ==> r == Err(UserNotFound)
    ensures forall k :: IsLastUserMatch(users, id, k) && users[k].role == Superadmin ==> r == Err(Undeletable)
    ensures forall k :: IsLastUserMatch(users, id, k) && users[k].role != Superadmin ==>
      r == Ok(UserRemoved(users[..k] + users[k + 1..],
                          if Listed(groups, id) then Some(WithoutMember(groups, id)) else None,
                          users[k].username))
    ensures r.Ok? ==> (r.value.groups.Some? <==> WithoutMember(groups, id) != groups)
    ensures r.Ok? && UserIdsIncreasing(users) ==> UserIdsIncreasing(r.value.users)
    ensures r.Ok? && AtMostOneSuperadmin(users) ==> AtMostOneSuperadmin(r.value.users)
    ensures r.Ok? && UniqueEmails(users) ==> UniqueEmails(r.value.users)
  {
    if |users| == 0 {
      return Err(EmptyList);
    }
    var index := FindLastUser(users, id);
    if index == -1 {
      return Err(UserNotFound);
    }
    if users[index].role == Superadmin {
      return Err(Undeletable);
    }
    var rest := users[..index] + users[index + 1..];
    UserRemovalKeepsInvariants(users, index);
    var cleaned, rewrite := RemoveMember(groups, id);
    r := Ok(UserRemoved(rest, if rewrite then Some(cleaned) else None, users[index].username));
  }

  /** Object.assign of a validated patch onto a stored record: each
      supplied key overwrites its field, the others (and the id) stay. */
  function Assign(u: User, p: UserPatch): User {
    User(u.id,
         if p.username.Some? then p.username.value else u.username,
         if p.password.Some? then p.password.value else u.password,
         if p.email.Some? then p.email.value else u.email,
         if p.role.Some? then p.role.value else u.role)
  }

  /** The same patch applied twice is the patch applied once, and an empty
      patch changes nothing. */
  lemma AssignIdempotent(u: User, p: UserPatch)
    ensures Assign(Assign(u, p), p) == Assign(u, p)
    ensures Assign(u, UserPatch(None, None, None, None)) == u
  {
  }

  /** The number of superadmins, counted as patchUser's scan counts them. */
  function SuperadminCount(s: seq<User>): nat {
    if |s| == 0 then 0
    else SuperadminCount(s[..|s| - 1]) + (if s[|s| - 1].role == Superadmin then 1 else 0)
  }

  /** Exactly one user is superadmin, and that user has the given id. */
  ghost predicate SoleSuperadmin(s: seq<User>, id: int) {
    exists k :: 0 <= k < |s| && s[k].role == Superadmin && s[k].id == id &&
      forall j :: 0 <= j < |s| && s[j].role == Superadmin ==> j == k
  }

  lemma {:induction false} SuperadminCountZero(s: seq<User>)
    ensures SuperadminCount(s) == 0 <==> forall k :: 0 <= k < |s| ==> s[k].role != Superadmin
  {
    if |s| > 0 {
      var p := s[..|s| - 1];
      SuperadminCountZero(p);
      assert forall k :: 0 <= k < |p| ==> p[k] == s[k];
    }
  }

  /** The count is one exactly when the superadmin at k is the only one. */
  lemma {:induction false} SuperadminCountOne(s: seq<User>, k: int)
    requires 0 <= k < |s| && s[k].role == Superadmin
    ensures SuperadminCount(s) == 1 <==> forall j :: 0 <= j < |s| && s[j].role == Superadmin ==> j == k
  {
    var p := s[..|s| - 1];
    assert forall j :: 0 <= j < |p| ==> p[j] == s[j];
    SuperadminCountZero(p);
    if k < |s| - 1 {
      SuperadminCountOne(p, k);
    }
  }

  /** What patchUser's scan ends with decides the role guard: the count is
      one and the last superadmin seen has the target id exactly when the
      target is the sole superadmin. */
  lemma ScanDecidesRoleGuard(s: seq<User>, id: int, last: int)
    requires 0 <= last < |s| && s[last].role == Superadmin
    requires forall j :: last < j < |s| ==> s[j].role != Superadmin
    ensures (SuperadminCount(s) == 1 && s[last].id == id) <==> SoleSuperadmin(s, id)
  {
    SuperadminCountOne(s, last);
    if SoleSuperadmin(s, id) {
      var k :| 0 <= k < |s| && s[k].role == Superadmin && s[k].id == id &&
               forall j :: 0 <= j < |s| && s[j].role == Superadmin ==> j == k;
      assert last == k;
    }
  }

  /** The counting view of the at-most-one-superadmin invariant. */
  lemma AtMostOneSuperadminByCount(s: seq<User>)
    ensures AtMostOneSuperadmin(s) <==> SuperadminCount(s) <= 1
  {
    SuperadminCountZero(s);
    if !AtMostOneSuperadmin(s) {
      var i, j :| 0 <= i < |s| && 0 <= j < |s| && s[i].role == Superadmin && s[j].role == Superadmin && i != j;
      SuperadminCountOne(s, i);
    } else if SuperadminCount(s) != 0 {
      var i :| 0 <= i < |s| && s[i].role == Superadmin;
      SuperadminCountOne(s, i);
    }
  }

  /** The forEach of patchUser: the last index holding the id, and, only
      when the patch carries a role, the number of superadmins and the id of
      the last one seen. */
  method PatchScan(users: seq<User>, id: int, roleGiven: bool) returns (index: int, count: nat, idSup: Option<int>)
    ensures index == -1 <==> forall k :: 0 <= k < |users| ==> users[k].id != id
    ensures index != -1 ==> IsLastUserMatch(users, id, index)
    ensures !roleGiven ==> count == 0 && idSup.None?
    ensures roleGiven ==> count == SuperadminCount(users)
    ensures roleGiven ==> ((idSup == Some(id) && count == 1) <==> SoleSuperadmin(users, id))
    ensures roleGiven ==> (count <= 1 <==> AtMostOneSuperadmin(users))
  {
    index, count, idSup := -1, 0, None;
    ghost var last := -1;
    for i := 0 to |users|
      invariant -1 <= index < i
      invariant index == -1 ==> forall k :: 0 <= k < i ==> users[k].id != id
      invariant index != -1 ==> users[index].id == id && forall k :: index < k < i ==> users[k].id != id
      invariant !roleGiven ==> count == 0 && idSup.None?
      invariant roleGiven ==> count == SuperadminCount(users[..i]) && -1 <= last < i
      invariant roleGiven && last == -1 ==>
        idSup.None? && forall k :: 0 <= k < i ==> users[k].role != Superadmin
      invariant roleGiven && last != -1 ==>
        users[last].role == Superadmin && idSup == Some(users[last].id) &&
        forall k :: last < k < i ==> users[k].role != Superadmin
    {
      assert users[..i + 1][..i] == users[..i];
      if users[i].role == Superadmin && roleGiven {
        idSup := Some(users[i].id);
        count := count + 1;
        last := i;
      }
      if users[i].id == id {
        index := i;
      }
    }
    assert users[..|users|] == users;
    if roleGiven && last != -1 {
      ScanDecidesRoleGuard(users, id, last);
    }
    AtMostOneSuperadminByCount(users);
  }

  /** patchUser after its schema check: the role guard runs before the
      not-found check. */
  method PatchUser(users: seq<User>, id: int, patch: UserPatch, isEmail: string -> bool) returns (r: Result<Changed<User>>)
    ensures !ValidUserPatch(patch, isEmail) ==> r == Err(Invalid)
    ensures r == Err(RoleLocked) <==> ValidUserPatch(patch, isEmail) && patch.role.Some? && SoleSuperadmin(users, id)
    ensures (ValidUserPatch(patch, isEmail) && !(patch.role.Some? && SoleSuperadmin(users, id)) &&
             forall k :: 0 <= k < |users| ==> users[k].id != id) ==> r == Err(UserNotFound)
    ensures ValidUserPatch(patch, isEmail) && !(patch.role.Some? && SoleSuperadmin(users, id)) ==>
      forall k :: IsLastUserMatch(users, id, k) ==>
        r == Ok(Changed(users[k := Assign(users[k], patch)], users[k].username))
    ensures r.Ok? <==> ValidUserPatch(patch, isEmail) && !(patch.role.Some? && SoleSuperadmin(users, id)) &&
                       exists k :: 0 <= k < |users| && users[k].id == id
    ensures ValidUserPatch(patch, isEmail) && patch.role.None? && (exists k :: 0 <= k < |users| && users[k].id == id) ==> r.Ok?
    ensures r.Ok? && UserIdsIncreasing(users) ==> UserIdsIncreasing(r.value.doc)
  {
    if !ValidUserPatch(patch, isEmail) {
      return Err(Invalid);
    }
    var index, count, idSup := PatchScan(users, id, patch.role.Some?);
    if idSup == Some(id) && count == 1 {
      return Err(RoleLocked);
    }
    if index == -1 {
      return Err(UserNotFound);
    }
    r := Ok(Changed(users[index := Assign(users[index], patch)], users[index].username));
  }

  /** patchUser does not re-check the superadmin invariant: promoting a
      second user passes the guard and leaves two superadmins. */
  lemma PatchCanAddSecondSuperadmin()
    ensures var users := [User(1, "anna", "password1", "a@x.io", Superadmin), User(2, "bert", "password2", "b@x.io", "user")];
            var patch := UserPatch(None, None, None, Some(Superadmin));
            AtMostOneSuperadmin(users) && !SoleSuperadmin(users, 2) && IsLastUserMatch(users, 2, 1) &&
            !AtMostOneSuperadmin(users[1 := Assign(users[1], patch)])
  {
    var users := [User(1, "anna", "password1", "a@x.io", Superadmin), User(2, "bert", "password2", "b@x.io", "user")];
    var patched := users[1 := Assign(users[1], UserPatch(None, None, None, Some(Superadmin)))];
    assert patched[0].role == Superadmin && patched[1].role == Superadmin;
  }

  /** Nor the email invariant: a patch may copy another user's email. */
  lemma PatchCanDuplicateEmail()
    ensures var users := [User(1, "anna", "password1", "a@x.io", Superadmin), User(2, "bert", "password2", "b@x.io", "user")];
            var patch := UserPatch(None, None, Some("a@x.io"), None);
            UniqueEmails(users) && IsLastUserMatch(users, 2, 1) &&
            !UniqueEmails(users[1 := Assign(users[1], patch)])
  {
    var users := [User(1, "anna", "password1", "a@x.io", Superadmin), User(2, "bert", "password2", "b@x.io", "user")];
    var patched := users[1 := Assign(users[1], UserPatch(None, None, Some("a@x.io"), None))];
    assert patched[0].email == patched[1].email;
  }
}
