/** Records of the two JSON documents (users.json and groups.json), the
    outcomes of the request handlers, and the invariants the design states
    for the stored collections. */
module Records {

  /** The role string that the first user receives and that at most one
      user is meant to hold. */
  const Superadmin: string := "superadmin"

  /** One element of users.json. The role is kept as the string stored in
      the document. */
  datatype User = User(id: int, username: string, password: string, email: string, role: string)

  /** One element of groups.json; listOfUsers holds user ids by value. */
  datatype Group = Group(id: int, name: string, listOfUsers: seq<int>)

  datatype Option<T> = None | Some(value: T)

  /** The errors a handler throws; each aborts the handler before anything
      is written. */
  datatype Error =
    | Invalid           // the body does not match the handler's schema
    | SuperadminTaken   // "Can't set role 'superadmin'"
    | DuplicateEmail    // "Duplicate email"
    | DuplicateName     // "<name> group is already exists"
    | EmptyList         // "User's list is empty"
    | UserNotFound      // "User not found"
    | GroupNotFound     // "Group not found"
    | Undeletable       // "This user couldn't be deleted"
    | RoleLocked        // "Can't change user's role"

  datatype Result<T> = Ok(value: T) | Err(error: Error)

  /** A create handler's outcome: the document to write and the id it
      responds with. */
  datatype Created<T> = Created(doc: seq<T>, id: int)

  /** A patch or group-delete outcome: the document to write and the name
      (of the record as it was before the call) the response mentions. */
  datatype Changed<T> = Changed(doc: seq<T>, name: string)

  /** A user-delete outcome: users.json to write, groups.json to write
      (None when no membership list changed, so it is not rewritten), and
      the deleted user's name. */
  datatype UserRemoved = UserRemoved(users: seq<User>, groups: Option<seq<Group>>, username: string)

  /** Ids grow strictly along the document. */
  ghost predicate UserIdsIncreasing(s: seq<User>) {
    forall i, j :: 0 <= i < j < |s| ==> s[i].id < s[j].id
  }

  ghost predicate GroupIdsIncreasing(s: seq<Group>) {
    forall i, j :: 0 <= i < j < |s| ==> s[i].id < s[j].id
  }

  ghost predicate AtMostOneSuperadmin(s: seq<User>) {
    forall i, j :: 0 <= i < |s| && 0 <= j < |s| && s[i].role == Superadmin && s[j].role == Superadmin ==> i == j
  }

  ghost predicate UniqueEmails(s: seq<User>) {
    forall i, j :: 0 <= i < |s| && 0 <= j < |s| && s[i].email == s[j].email ==> i == j
  }

  ghost predicate UniqueNames(s: seq<Group>) {
    forall i, j :: 0 <= i < |s| && 0 <= j < |s| && s[i].name == s[j].name ==> i == j
  }

  /** k is the last index whose record has the given id: the index the
      handlers' forEach scans end with. */
  ghost predicate IsLastUserMatch(s: seq<User>, id: int, k: int) {
    0 <= k < |s| && s[k].id == id && forall j :: k < j < |s| ==> s[j].id != id
  }

  ghost predicate IsLastGroupMatch(s: seq<Group>, id: int, k: int) {
    0 <= k < |s| && s[k].id == id && forall j :: k < j < |s| ==> s[j].id != id
  }

  /** The forEach scan of deleteUser: the last index holding the id, or
      -1. patchUser's scan, which also counts superadmins, is
      Users.PatchScan. */
  method FindLastUser(s: seq<User>, id: int) returns (index: int)
    ensures index == -1 <==> forall k :: 0 <= k < |s| ==> s[k].id != id
    ensures index != -1 ==> IsLastUserMatch(s, id, index)
  {
    index := -1;
    for i := 0 to |s|
      invariant -1 <= index < i
      invariant index == -1 ==> forall k :: 0 <= k < i ==> s[k].id != id
      invariant index != -1 ==> s[index].id == id && forall k :: index < k < i ==> s[k].id != id
    {
      if s[i].id == id {
        index := i;
      }
    }
  }

  /** The forEach scans of deleteGroup and patchGroup. */
  method FindLastGroup(s: seq<Group>, id: int) returns (index: int)
    ensures index == -1 <==> forall k :: 0 <= k < |s| ==> s[k].id != id
    ensures index != -1 ==> IsLastGroupMatch(s, id, index)
  {
    index := -1;
    for i := 0 to |s|
      invariant -1 <= index < i
      invariant index == -1 ==> forall k :: 0 <= k < i ==> s[k].id != id
      invariant index != -1 ==> s[index].id == id && forall k :: index < k < i ==> s[k].id != id
    {
      if s[i].id == id {
        index := i;
      }
    }
  }

  /** With increasing ids a matching record is the only one with that id. */
  lemma LastUserMatchIsOnlyMatch(s: seq<User>, id: int, k: int)
    requires UserIdsIncreasing(s) && IsLastUserMatch(s, id, k)
    ensures forall j :: 0 <= j < |s| && s[j].id == id ==> j == k
  {
  }

  /** Removing the record at k (a splice) keeps every invariant of the
      users document. */
  lemma UserRemovalKeepsInvariants(s: seq<User>, k: int)
    requires 0 <= k < |s|
    ensures UserIdsIncreasing(s) ==> UserIdsIncreasing(s[..k] + s[k + 1..])
    ensures AtMostOneSuperadmin(s) ==> AtMostOneSuperadmin(s[..k] + s[k + 1..])
    ensures UniqueEmails(s) ==> UniqueEmails(s[..k] + s[k + 1..])
  {
    var t := s[..k] + s[k + 1..];
    assert forall i :: 0 <= i < |t| ==> t[i] == s[if i < k then i else i + 1];
  }

  /** The same for the groups document. */
  lemma GroupRemovalKeepsInvariants(s: seq<Group>, k: int)
    requires 0 <= k < |s|
    ensures GroupIdsIncreasing(s) ==> GroupIdsIncreasing(s[..k] + s[k + 1..])
    ensures UniqueNames(s) ==> UniqueNames(s[..k] + s[k + 1..])
  {
    var t := s[..k] + s[k + 1..];
    assert forall i :: 0 <= i < |t| ==> t[i] == s[if i < k then i else i + 1];
  }
}
