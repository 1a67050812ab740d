# Users and groups service: a Dafny model of its request handlers

The service keeps two JSON documents. `users.json` holds user records (id,
username, password, email, role). `groups.json` holds group records (id, name,
listOfUsers). Each handler validates the request body against a schema, loads
one document, scans it, changes it in memory and writes it back. This project
models what each handler in `common.js` does between the load and the write.
Every handler is a method on a `seq` of records. It returns either `Err(e)`, in
which case nothing is written, or `Ok(...)` holding the document to write and
the value the response reports.

- `Records` (records.dfy): the two record types, the `Error` kinds the handlers
  throw, the `Result` and outcome types, and the document invariants. The
  invariants are increasing ids, at most one superadmin, unique emails and
  unique group names. The module also holds the "last index with this id"
  scans and the proof that a splice keeps every invariant.
- `Schemas` (schemas.dfy): the four Joi schemas as predicates on the bodies.
  Joi's `email()` is a parameter `isEmail`. The module also holds `findCb` (as
  `Matches`) and the `data.find(findCb(...))` lookup used for Basic
  authentication.
- `Members` (members.dfy): operations on a `listOfUsers`. `indexOf`+`splice`
  removes the first occurrence of an id. Across all groups that is
  `RemoveMember`, the cleanup loop of deleteUser. patchGroup's nested-loop
  union is `MergeMembers`, specified by the function `Merge`.
- `Users` (users.dfy): validUserPost (`CreateUser`), deleteUser (`DeleteUser`)
  and patchUser (`PatchUser`, with its scan `PatchScan`).
- `Groups` (groups.dfy): validGroupPost (`CreateGroup`), deleteGroup
  (`DeleteGroup`) and patchGroup (`PatchGroup`).

Behaviour of the code as written that the model keeps and proves:

- The id counter starts at 1. The scan overwrites it with each record's id, and
  the new record gets the counter plus one. So a new id is the last record's id
  plus one, and the first record of an empty document gets id **2**
  (`Users.FirstUserIsSuperadmin`). Last-plus-one can repeat an id when the last record does not carry the
  largest id (`Users.NextUserIdCanRepeat`). When ids increase along the
  document, which create and delete both preserve, the new id is fresh.
- deleteUser, patchUser, deleteGroup and patchGroup act on the *last* record
  with the requested id. With increasing ids that record is the only one
  (`Records.LastUserMatchIsOnlyMatch`).
- patchUser's role guard fires only when the body has a `role` key, exactly one
  superadmin exists, and that superadmin has the target id. It does not stop a
  patch from promoting a second user to superadmin
  (`Users.PatchCanAddSecondSuperadmin`) or from copying another user's email
  (`Users.PatchCanDuplicateEmail`). Likewise patchGroup can rename a group onto
  an existing name (`Groups.PatchCanDuplicateName`).
- The user-delete cleanup removes only the *first* occurrence of the id from
  each list, so a repeated id survives once (`Members.RepeatedMemberSurvives`).
  Lists without duplicates lose the id completely
  (`Members.RemoveFirstClears`). `groups.json` is rewritten exactly when some
  list contained the id.

## Model

| member | source | states |
|---|---|---|
| Records.FindLastUser | common.js:124-131 | returns -1 exactly when no user has the id, otherwise the last index holding it |
| Records.FindLastGroup | common.js:166-172 | returns -1 exactly when no group has the id, otherwise the last index holding it |
| Records.LastUserMatchIsOnlyMatch | common.js:125-129 | with increasing ids, the last index holding an id is the only one |
| Records.UserRemovalKeepsInvariants | common.js:136 | splicing one user out keeps increasing ids, at most one superadmin and unique emails |
| Records.GroupRemovalKeepsInvariants | common.js:175 | splicing one group out keeps increasing ids and unique names |
| Schemas.Utf16Len | common.js:5-24 | the length Joi's min and max test is the number of UTF-16 code units: between the number of characters and twice it, equal to it exactly when no character lies outside the Basic Multilingual Plane, twice it exactly when all do, and one or two units for a single character |
| Schemas.Utf16LenConcat | common.js:5-24 | the length of a concatenation is the sum of the lengths, so with the single-character case the length of every string is fixed |
| Schemas.AlphaNum | common.js:6-18 | alphanum(): every character is an ASCII letter or digit |
| Schemas.UsernameOk | common.js:5-17 | min(4).max(20): between 4 and 20 UTF-16 units |
| Schemas.PasswordOk | common.js:6-18 | alphanum().min(8): alphanumeric and at least 8 long |
| Schemas.RoleOk | common.js:8-20 | the role is one of superadmin, admin and user |
| Schemas.GroupNameOk | common.js:12-24 | min(4): at least 4 UTF-16 units |
| Schemas.MembersOk | common.js:13-25 | array().min(1): at least one id |
| Schemas.LengthCountsUtf16Units | common.js:5-12 | eleven emoji (22 units) fail the username's max(20), and two emoji (4 units) pass the group name's min(4) |
| Schemas.AlphaNumLength | common.js:6-18 | an alphanumeric password is ASCII, so its UTF-16 length is its number of characters |
| Schemas.ValidUserBody | common.js:4-9 | schemaUser: username of 4 to 20 UTF-16 units, alphanumeric password of at least 8, an email, and a role among superadmin, admin and user, all required |
| Schemas.ValidUserPatch | common.js:16-21 | schemaPatchUser: the same constraints, each applied only to a supplied key |
| Schemas.ValidGroupBody | common.js:11-14 | schemaGroup: name of at least 4 UTF-16 units and a list of at least one id, both required |
| Schemas.ValidGroupPatch | common.js:23-26 | schemaPatchGroup: the same constraints, each applied only to a supplied key |
| Schemas.Matches | common.js:275 | findCb: a user matches when both its username and its password are equal to the given ones |
| Schemas.UserSchemasAgree | common.js:4-21 | a body passes schemaUser exactly when, with every key supplied, it passes schemaPatchUser |
| Schemas.GroupSchemasAgree | common.js:11-26 | a body passes schemaGroup exactly when, with both keys supplied, it passes schemaPatchGroup |
| Schemas.EmptyPatchesValid | common.js:16-26 | a body with no keys passes both patch schemas |
| Schemas.FindUser | common.js:273-277 | find with findCb: None exactly when no user matches both username and password, otherwise the first matching user |
| Schemas.Authenticate | index.js:17-27 | the Basic-auth strategy accepts exactly when some stored user has both the username and the password |
| Members.IndexOf | common.js:144 | -1 exactly when the id is absent, otherwise the position of its first occurrence |
| Members.RemoveFirst | common.js:144-148 | an absent id leaves the list unchanged; otherwise the first occurrence is removed, the rest keep their order, and the multiset loses exactly one copy |
| Members.RemoveFirstClears | common.js:143-149 | a list without duplicates no longer contains the id afterwards and still has no duplicates |
| Members.RepeatedMemberSurvives | common.js:144-147 | a list [3, 3] keeps one 3 after user 3 is deleted |
| Members.Unlisted | common.js:144-148 | one group after the cleanup: its listOfUsers loses the first occurrence of the id, its id and name stay |
| Members.WithoutMember | common.js:143-149 | groups.json after the cleanup loop: every group in order, each Unlisted |
| Members.WithoutMemberChanges | common.js:143-154 | removing the id from every list changes the groups document exactly when some group lists the id |
| Members.DropFromGroup | common.js:144-148 | one group: its list loses the first occurrence of the id, and changed holds exactly when the id was listed |
| Members.RemoveMember | common.js:143-154 | every group's list loses the first occurrence of the id; rewrite holds exactly when some list held it, equivalently when the document changed |
| Members.AddMember | common.js:248-257 | one pass of the outer loop: the id is pushed exactly when the current list does not hold it |
| Members.Merge | common.js:247-258 | the list after the loop has taken each incoming id in order, pushing it only when the current list does not hold it |
| Members.MergeExtends | common.js:247-258 | the stored list is a prefix of the merged list |
| Members.MergeElements | common.js:247-258 | the merged list holds exactly the ids of the stored and the incoming lists |
| Members.MergeAppendsOnlyNew | common.js:247-258 | each appended id was neither in the stored list nor appended earlier |
| Members.MergeKeepsNoDuplicates | common.js:247-258 | a stored list without duplicates stays without duplicates |
| Members.MergeIdle | common.js:247-258 | merging ids that are all present changes nothing |
| Members.MergeIdempotent | common.js:247-258 | merging the same incoming list twice gives the list of one merge |
| Members.MergeMembers | common.js:246-259 | the nested loops compute Merge: old list is a prefix, every incoming id is present, nothing outside the two lists appears |
| Users.AssignedRole | common.js:69-71 | the stored role: superadmin in an empty document whatever was requested, otherwise the requested role |
| Users.Clash | common.js:74-80 | what the scan throws at one record: SuperadminTaken when the record's role equals the stored role and that role is superadmin, checked first; otherwise DuplicateEmail when the emails are equal; otherwise nothing |
| Users.NextUserId | common.js:62-82 | with increasing ids, the assigned id (last id plus one, or 2 when empty) exceeds every stored id |
| Users.CreateUser | common.js:60-89 | schema failure gives Invalid. Otherwise it succeeds iff no user clashes: a clash is an existing superadmin when the stored role is superadmin, or an equal email. A failure reports the first clashing record's error. Success appends exactly one record with the next id, the stored role (superadmin in an empty document), and the body's fields. Success keeps increasing ids, at most one superadmin and unique emails |
| Users.NewRecordKeepsInvariants | common.js:72-82 | appending a non-clashing record with the next id keeps all three users invariants |
| Users.FirstUserIsSuperadmin | common.js:62-71 | in an empty document nothing clashes, the stored role is superadmin whatever was requested, and the id is 2 |
| Users.NextUserIdCanRepeat | common.js:72-73 | with ids [3, 2] the assigned id is 3, the first record's id |
| Users.DeleteUser | common.js:116-160 | an empty document gives EmptyList and a missing id gives UserNotFound. A superadmin at the last matching index gives Undeletable. Otherwise that record is removed, the others keep their order, the response names the deleted user, and groups.json is rewritten exactly when some list held the id, each list losing its first occurrence of it. All three users invariants are kept |
| Users.Assign | common.js:211 | Object.assign of a patch: each supplied key overwrites its field, every other field and the id stay |
| Users.AssignIdempotent | common.js:211 | Object.assign of the same patch twice equals once; an empty patch changes nothing |
| Users.SuperadminCount | common.js:196-201 | the `count++` of the scan: the number of users whose role is superadmin |
| Users.SuperadminCountZero | common.js:196-201 | the count of superadmins is zero exactly when no user is superadmin |
| Users.SuperadminCountOne | common.js:196-208 | given a superadmin at k, the count is one exactly when k is the only superadmin |
| Users.ScanDecidesRoleGuard | common.js:196-208 | count one and the last superadmin seen carrying the target id hold exactly when the target is the sole superadmin |
| Users.AtMostOneSuperadminByCount | common.js:196-201 | at most one superadmin exactly when the count is at most one |
| Users.PatchScan | common.js:195-205 | returns the last index holding the id (or -1). Only when a role is supplied does it count superadmins, and then the guard condition `idSup == id && count == 1` holds exactly when the target is the sole superadmin, and the count is at most one exactly when the document has at most one superadmin |
| Users.PatchUser | common.js:187-223 | schema failure gives Invalid. RoleLocked exactly when a role is supplied and the target is the sole superadmin, a check made before the lookup. Otherwise a missing id gives UserNotFound, and success replaces only the last matching record by the merge of the supplied fields, reporting its old username. It succeeds exactly when the body is valid, the guard does not fire and the id exists; in particular a patch without a role key on an existing id succeeds, even on the sole superadmin. Ids stay increasing |
| Users.PatchCanAddSecondSuperadmin | common.js:206-211 | with users [1 superadmin, 2 user], a role patch of user 2 passes the guard and leaves two superadmins |
| Users.PatchCanDuplicateEmail | common.js:209-211 | an email patch can give two users one email |
| Groups.NameTaken | common.js:101 | some stored group has the requested name |
| Groups.NextGroupId | common.js:92-107 | with increasing ids, the assigned id (last id plus one, or 2 when empty) exceeds every stored id |
| Groups.CreateGroup | common.js:90-114 | schema failure gives Invalid and a taken name gives DuplicateName. Otherwise exactly one group is appended with the next id, the name and the list. Increasing ids and unique names are kept |
| Groups.NewGroupKeepsInvariants | common.js:99-107 | appending a group with an unused name and the next id keeps both groups invariants |
| Groups.DeleteGroup | common.js:162-185 | a missing id, including an empty document, gives GroupNotFound. Otherwise the last group with the id is removed, the others keep their order, and the response names it. Both groups invariants are kept |
| Groups.Rename | common.js:245 | `body.name || stored name`: a supplied non-empty name replaces the stored one, otherwise the stored name stays |
| Groups.UpdatedGroup | common.js:244-259 | the id is kept, the old list is a prefix of the new one, every incoming id is present, and a list without duplicates stays so |
| Groups.UpdatedGroupIdempotent | common.js:245-258 | patching a group twice with the same body gives the group of one patch |
| Groups.PatchGroup | common.js:225-271 | schema failure gives Invalid and a missing id gives GroupNotFound. Otherwise only the last group with the id changes: a supplied non-empty name replaces its name, and a supplied list is merged into its listOfUsers. The response names the old name. Ids stay increasing |
| Groups.PatchedDocumentIdempotent | common.js:225-271 | patching the document a second time with the same body leaves it as the first patch wrote it: the patched group is still the last match and patching it again changes nothing |
| Groups.PatchCanDuplicateName | common.js:245 | renaming a group onto another group's name leaves two groups with one name |

## Left out

- Users.NextUserId: ids are unbounded integers. The source's ids are JavaScript numbers, and above 2^53 its `id+1` (common.js:82) rounds, so a last id of 2^53 gives that same id again. The stated freshness holds only for ids below 2^53.
- Users.CreateUser: for the same reason its "ids stay increasing" clause holds in the source only while the last id is below 2^53.
- Groups.NextGroupId: ids are unbounded integers, while the source's `id+1` (common.js:107) rounds above 2^53 and can repeat the last id. The stated freshness holds only for ids below 2^53.
- Groups.CreateGroup: for the same reason its "ids stay increasing" clause holds in the source only while the last id is below 2^53.
- read, write, getUsers and getGroups (common.js:28-58): file I/O and JSON text. Each handler takes the loaded document as input and returns the document to write. The GET handlers return a document unchanged and are not modelled.
- The `JSON.parse` of `listOfUsers` (common.js:106, 242): bodies carry the list already decoded as `seq<int>`, so malformed JSON text is not modelled.
- Joi's `email()` check: it is library behaviour, so it is the parameter `isEmail`. Joi's rejection of unknown keys holds by construction, since the body types have only the schema's keys. `Joi.number()` items are modelled as integers; fractional ids are not modelled.
- Lone surrogates: a JavaScript string, and so a JSON body, can hold an unpaired UTF-16 surrogate such as `"\ud800"`. A Dafny string holds only Unicode scalar values, so usernames and group names with lone surrogates cannot be expressed in the model.
- Path parameters: the code compares the string path parameter with numeric ids by loose equality. The model takes the parameter as the integer it converts to.
- Storage failures, and the partly done delete they can cause: deleteUser writes users.json before it reads and writes groups.json, so a failure in between leaves the user gone but still listed. The model has no failing storage.
- Concurrency: two requests that interleave their read and write can lose an update. The model is sequential.
- Promise chains, response bodies and error texts: only the outcome and the value a response reports are kept.
- index.js routing, passport wiring and the 400 responder: framework plumbing. Its one piece of logic is `Schemas.Authenticate`.
- The assignment to the undeclared `checkSuperadmin` in patchUser (common.js:198): it affects no outcome.
