/** The request bodies, the four validation schemas as predicates, and the
    credential check used by the Basic-auth strategy. */
module Schemas {
  import opened Records

  /** The roles the schemas allow. */
  const Roles: set<string> := {"superadmin", "admin", "user"}

  /** Body of a user create; every key is required. */
  datatype UserBody = UserBody(username: string, password: string, email: string, role: string)

  /** Body of a user patch; every key is optional. */
  datatype UserPatch = UserPatch(username: Option<string>, password: Option<string>,
                                 email: Option<string>, role: Option<string>)

  /** Body of a group create, with listOfUsers already decoded from its
      JSON text. */
  datatype GroupBody = GroupBody(name: string, listOfUsers: seq<int>)

  datatype GroupPatch = GroupPatch(name: Option<string>, listOfUsers: Option<seq<int>>)

  /** Joi's alphanum(): ASCII letters and digits only. */
  predicate AlphaNum(s: string) {
    forall i :: 0 <= i < |s| ==> ('a' <= s[i] <= 'z') || ('A' <= s[i] <= 'Z') || ('0' <= s[i] <= '9')
  }

  /** JavaScript's `length` of a string, which Joi's min() and max() test:
      the number of UTF-16 code units, two for a character outside the
      Basic Multilingual Plane. */
  function Utf16Len(s: string): (r: nat)
    ensures |s| <= r <= 2 * |s|
    ensures r == |s| <==> forall i :: 0 <= i < |s| ==> (s[i] as int) < 0x1_0000
    ensures r == 2 * |s| <==> forall i :: 0 <= i < |s| ==> (s[i] as int) >= 0x1_0000
    ensures |s| == 1 ==> r == if (s[0] as int) < 0x1_0000 then 1 else 2
    decreases |s|
  {
    if |s| == 0 then 0
    else
      var front := s[..|s| - 1];
      assert forall i :: 0 <= i < |front| ==> front[i] == s[i];
      Utf16Len(front) + (if (s[|s| - 1] as int) < 0x1_0000 then 1 else 2)
  }

  /** The length of a concatenation is the sum of the lengths; with the
      one-character case this fixes Utf16Len on every string. */
  lemma {:induction false} Utf16LenConcat(a: string, b: string)
    ensures Utf16Len(a + b) == Utf16Len(a) + Utf16Len(b)
    decreases |b|
  {
    if |b| == 0 {
      assert a + b == a;
    } else {
      var front := b[..|b| - 1];
      Utf16LenConcat(a, front);
      assert (a + b)[..|a + b| - 1] == a + front;
      assert (a + b)[|a + b| - 1] == b[|b| - 1];
    }
  }

  predicate UsernameOk(s: string) { 4 <= Utf16Len(s) <= 20 }

  predicate PasswordOk(s: string) { AlphaNum(s) && |s| >= 8 }

  predicate RoleOk(s: string) { s in Roles }

  predicate GroupNameOk(s: string) { Utf16Len(s) >= 4 }

  /** Length is counted in UTF-16 units: eleven emoji are 22 units, too long
      for a username, and two emoji are 4 units, long enough for a group
      name. */
  lemma LengthCountsUtf16Units()
    ensures !UsernameOk("\U{1F600}\U{1F600}\U{1F600}\U{1F600}\U{1F600}\U{1F600}\U{1F600}\U{1F600}\U{1F600}\U{1F600}\U{1F600}")
    ensures GroupNameOk("\U{1F600}\U{1F600}")
  {
  }

  /** An alphanumeric password is ASCII, so its length is its number of
      characters. */
  lemma AlphaNumLength(s: string)
    requires AlphaNum(s)
    ensures Utf16Len(s) == |s|
  {
  }

  predicate MembersOk(xs: seq<int>) { |xs| >= 1 }

  /** schemaUser; isEmail stands for Joi's email() check. */
  predicate ValidUserBody(b: UserBody, isEmail: string -> bool) {
    UsernameOk(b.username) && PasswordOk(b.password) && isEmail(b.email) && RoleOk(b.role)
  }

  /** schemaPatchUser: the same constraints, each only on a supplied key. */
  predicate ValidUserPatch(p: UserPatch, isEmail: string -> bool) {
    && (p.username.Some? ==> UsernameOk(p.username.value))
    && (p.password.Some? ==> PasswordOk(p.password.value))
    && (p.email.Some? ==> isEmail(p.email.value))
    && (p.role.Some? ==> RoleOk(p.role.value))
  }

  /** schemaGroup. */
  predicate ValidGroupBody(b: GroupBody) {
    GroupNameOk(b.name) && MembersOk(b.listOfUsers)
  }

  /** schemaPatchGroup. */
  predicate ValidGroupPatch(p: GroupPatch) {
    && (p.name.Some? ==> GroupNameOk(p.name.value))
    && (p.listOfUsers.Some? ==> MembersOk(p.listOfUsers.value))
  }

  /** A create body read as a patch that supplies every key. */
  function UserBodyAsPatch(b: UserBody): UserPatch {
    UserPatch(Some(b.username), Some(b.password), Some(b.email), Some(b.role))
  }

  function GroupBodyAsPatch(b: GroupBody): GroupPatch {
    GroupPatch(Some(b.name), Some(b.listOfUsers))
  }

  /** The patch schemas are the create schemas with every key made optional:
      a body is valid for create exactly when, with all keys supplied, it is
      valid for patch. */
  lemma UserSchemasAgree(b: UserBody, isEmail: string -> bool)
    ensures ValidUserBody(b, isEmail) <==> ValidUserPatch(UserBodyAsPatch(b), isEmail)
  {
  }

  lemma GroupSchemasAgree(b: GroupBody)
    ensures ValidGroupBody(b) <==> ValidGroupPatch(GroupBodyAsPatch(b))
  {
  }

  /** An empty patch passes schemaPatchUser and schemaPatchGroup. */
  lemma EmptyPatchesValid(isEmail: string -> bool)
    ensures ValidUserPatch(UserPatch(None, None, None, None), isEmail)
    ensures ValidGroupPatch(GroupPatch(None, None))
  {
  }

  /** findCb(user, pass): plaintext equality of both username and password. */
  predicate Matches(el: User, username: string, password: string) {
    el.username == username && el.password == password
  }

  /** data.find(findCb(username, password)): the first user whose
      credentials match, if any. */
  function FindUser(data: seq<User>, username: string, password: string): (r: Option<User>)
    ensures r.None? <==> forall k :: 0 <= k < |data| ==> !Matches(data[k], username, password)
    ensures r.Some? ==> exists k :: 0 <= k < |data| && data[k] == r.value && Matches(data[k], username, password)
                                    && forall j :: 0 <= j < k ==> !Matches(data[j], username, password)
  {
    if |data| == 0 then None
    else if Matches(data[0], username, password) then Some(data[0])
    else
      var r := FindUser(data[1..], username, password);
      assert forall k :: 1 <= k < |data| ==> data[k] == data[1..][k - 1];
      assert r.Some? ==> exists k :: 0 <= k < |data| && data[k] == r.value && Matches(data[k], username, password)
                                     && forall j :: 0 <= j < k ==> !Matches(data[j], username, password) by {
        if r.Some? {
          var k' :| 0 <= k' < |data| - 1 && data[1..][k'] == r.value && Matches(data[1..][k'], username, password)
                    && forall j :: 0 <= j < k' ==> !Matches(data[1..][j], username, password);
          assert data[k' + 1] == r.value;
          assert forall j :: 1 <= j < k' + 1 ==> data[j] == data[1..][j - 1];
        }
      }
      r
  }

  /** The Basic-auth verdict of index.js: accepted exactly when some stored
      user has both the username and the password. */
  function Authenticate(data: seq<User>, username: string, password: string): (ok: bool)
    ensures ok <==> exists k :: 0 <= k < |data| && Matches(data[k], username, password)
  {
    FindUser(data, username, password).Some?
  }
}
