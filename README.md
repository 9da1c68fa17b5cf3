# Group membership and media store

This project is a Dafny model of the backend behind the group and media routes
of a small team application:

- `backend/routes/groups.js` — create a group, list the caller's groups, show
  one group, add a member, remove a member, leave a group, delete a group;
- `backend/routes/media.js` — upload a file to a group, list a group's files,
  download one file, and the multer `filename` callback that names the stored
  file.

The three SQLite tables (`groups`, `group_members`, `media`) are the fields of
one `Store` object:

- `groups` maps a group id to its row (name, optional description, creator);
- `members` maps a (group id, user id) pair to the role `Admin` or `Member`, so
  the pair is unique as in the table;
- `media` maps a media id to its row (group, uploader, stored name, path, type);
- `nextGroupId` and `nextMediaId` stand in for SQLite's `lastID`.

Every mutating route is a method of `Store`. It answers with a `Status`:
`Ok`, `Created(id)`, `BadRequest`, `Forbidden`, `NotFound` or `Internal`
(200, 201, 400, 403, 404, 500). Each method takes one extra argument naming the
SQL statement that reports an error, if any. In the routes that open a
transaction (create, leave, delete), a failing step rolls every table back to its
state before the request.

The read-only routes are pure functions of the tables in module `Queries`.

Every method keeps the store invariant `Store.Valid()`, with SQL matching
taken on string forms (see `Store.Store.RemoveMember` under "## Left out"):

- every membership row and every media row refers to an existing group;
- every group that has a member has an admin;
- every id in use is below its counter.

`Scenarios.Replay` runs an arbitrary sequence of requests and keeps the
invariant throughout. `Queries.DetailNeverNotFound` shows that, under the
invariant, the "group not found" branch of the detail route is unreachable.

User ids arrive as numbers (the token's `id`, or a number in a request body)
or as strings (route parameters, or a string in a request body). The routes compare them through `String(id)`.
The model keys the store by that string form (`Basics.Key`), so the numeric
id 7 and the string "7" are the same user. The SQL statements are modelled
as matching a bound id exactly when its string form equals the stored one.

Two behaviours of the code that a reader might not expect:

- AddMember answers a duplicate membership with 400; there is no distinct
  "conflict" status.
- CreateGroup removes only the creator from the member list and does not
  deduplicate the rest. Two listed ids with the same string form make the
  multi-row insert hit the unique key, and the request fails with 500.

## Model

| member | source | states |
|---|---|---|
| Basics.Decimal | backend/routes/groups.js:42 | `String(n)` of a non-negative integer is a non-empty string of decimal digits with no leading zero except for `"0"` |
| Basics.DecimalRoundTrip | backend/routes/groups.js:42 | reading back the digits of `String(n)` gives `n`, so comparing string forms loses nothing for numeric ids |
| Basics.Key | backend/routes/groups.js:194 | the string form `String(id)` under which ids are compared and stored: a number's key is a non-empty run of decimal digits with no leading zero that reads back as that number; a string is its own key |
| Basics.KeyComparison | backend/routes/groups.js:194 | two numeric ids have equal string forms exactly when they are equal; a numeric id and a string match exactly when the string is the id's decimal form |
| Tables.MembersOf | backend/routes/groups.js:243-248 | a user is in the set exactly when a membership row (group, user) exists; its size is `memberCount` |
| Tables.AdminsOf | backend/routes/groups.js:195 | a user is in the set exactly when their membership row has role admin; its size is `adminCount`, and every admin is a member |
| Tables.OtherMembers | backend/routes/groups.js:42 | the filtered list holds exactly the listed ids whose string form differs from the creator's, and is no longer than the list |
| Tables.OtherMembersCounts | backend/routes/groups.js:42 | the filter keeps duplicates: a listed id whose string form differs from the creator's occurs in the result as often as in the list, and any other id not at all |
| Tables.OtherMembersAppend | backend/routes/groups.js:42 | the filter keeps list order: filtering a concatenation gives the concatenation of the filtered parts |
| Tables.MemberRowsFor | backend/routes/groups.js:45-49 | definition: one `(groupId, userId, 'member')` row per filtered id, in list order; `Store.BuildMemberRows` is proved equal to it |
| Tables.InsertRows | backend/routes/groups.js:51-56 | the multi-row insert succeeds exactly when no two rows share a key and no row's key is already present; it then adds exactly those rows with their roles and keeps every old row |
| Tables.FoundingMembers | backend/routes/groups.js:33-61 | the memberships of a new group all lie in that group; its members are the creator plus every listed id; its only admin is the creator, whether or not the creator was also listed |
| Tables.FoundingByInserts | backend/routes/groups.js:33-61 | the creator's admin insert followed by the multi-row insert, on a store with no row for the new group, succeeds exactly when the filtered ids have distinct string forms, and then yields the old memberships plus the founding ones |
| Tables.DropGroupMembers | backend/routes/groups.js:299-303 | after `DELETE FROM group_members WHERE group_id = ?` the group has no member, and every other group has the same members and the same admins as before |
| Tables.MediaOfGroup | backend/routes/media.js:71 | definition: the media rows the `WHERE group_id = ?` query selects |
| Tables.DropGroupMedia | backend/routes/groups.js:294-298 | after `DELETE FROM media WHERE group_id = ?` the group has no media, every other group has the same media as before, and no remaining row changes |
| Tables.RemovalKeepsAdmin | backend/routes/groups.js:209-221 | deleting one membership keeps every non-empty group administered when another admin of that group remains or the removed user was its only member |
| Tables.RemoveKeepsAdmin | backend/routes/groups.js:193-221 | an admin removing anyone else, or removing themselves while the admin count exceeds 1, keeps every non-empty group administered |
| Tables.LeaveKeepsAdmin | backend/routes/groups.js:254-263 | unless the leaver is the only admin of a group with more than one member, leaving keeps every non-empty group administered |
| Tables.AdditionKeepsConsistent | backend/routes/groups.js:162-171 | adding a `member` row to an existing, administered group keeps the store consistent |
| Tables.FoundingKeepsConsistent | backend/routes/groups.js:21-73 | adding a new group row together with its founding memberships keeps the store consistent |
| Tables.DeletionKeepsConsistent | backend/routes/groups.js:293-312 | dropping a group's media, memberships and row keeps the store consistent: references to groups and the admin of every non-empty group survive |
| Queries.GroupsOf | backend/routes/groups.js:82-87 | the groups the JOIN yields for a user: those that exist and hold a membership row for that user |
| Queries.ListGroups | backend/routes/groups.js:78-96 | 500 exactly when the query fails; otherwise every listed row is a group the caller belongs to, with its stored name and description; every such group is listed, and none twice |
| Queries.GetGroupDetail | backend/routes/groups.js:99-141 | 403 exactly when the membership read succeeds and the caller is not a member, so a failing group or roster read for a member is never 403; 404 exactly when the caller is a member, both reads succeed and the group row is missing; 200 exactly when no statement fails, the caller is a member and the group exists, with the group's fields and a roster holding every member of the group with their role |
| Queries.DetailNeverNotFound | backend/routes/groups.js:122-124 | in a store where every membership refers to an existing group, the detail route never answers 404 |
| Queries.MediaRowsOf | backend/routes/media.js:71-77 | the rows are exactly the media of the group, each once, with their stored name and type |
| Queries.ListMedia | backend/routes/media.js:54-80 | 403 exactly when the membership read succeeds and the caller is not a member, so a failing media read for a member is never 403; 200 exactly when no statement fails and the caller is a member, with exactly the group's media rows |
| Queries.Download | backend/routes/media.js:83-102 | the stored path and name come back exactly when the row exists and the caller is a member of its group; a missing row and a non-member both get 403, never 404 |
| FileNames.StoredFileName | backend/routes/media.js:12-14 | the stored name is a run of decimal digits, a dash, then the original name |
| FileNames.StoredFileNameRoundTrip | backend/routes/media.js:13 | the clock reading and the original name, even one containing dashes, can both be read back from the stored name |
| Store.CreateRequestValid | backend/routes/groups.js:7-15 | the validators of POST /groups: the name is non-empty, and the description and members fields are absent or of the expected type |
| Store.MemberListOf | backend/routes/groups.js:42 | `members ? members : []`: the listed ids, or none when the field is missing |
| Store.DescriptionOf | backend/routes/groups.js:24-25 | the description column: the given string, or NULL when the field is missing |
| Store.LastAdminWithOthers | backend/routes/groups.js:254 | definition: the leave guard of line 254; `Tables.LeaveKeepsAdmin` proves the admin invariant survives a leave where it is false, and `Store.Store.LeaveGroup` answers 400 exactly when it is true |
| Store.FoundingKeepsInvariant | backend/routes/groups.js:24-35 | the next group id is unused by any group or membership, and adding a group under it with its founding memberships keeps the store invariant |
| Store.BuildMemberRows | backend/routes/groups.js:45-49 | the loop builds the same rows, in the same order, as the row specification |
| Store.Store.Rollback | backend/routes/groups.js:28 | every table and counter returns to the saved state |
| Store.Store.CreateGroup | backend/routes/groups.js:7-75 | 400 exactly when the name is empty or a field has the wrong type; 201 exactly when the request is valid, the filtered ids have distinct string forms and no executed statement fails; on 201 a fresh id, the new group row and the founding memberships are added and nothing else changes, and the answer carries the new id with the request's name and description; on any failure the store is unchanged; the invariant is kept |
| Store.Store.InsertFoundingMembers | backend/routes/groups.js:33-61 | the two membership inserts succeed exactly when the filtered ids have distinct string forms and either none remain or their insert reports no error; on success the memberships are the old ones plus the founding ones |
| Store.Store.AddMember | backend/routes/groups.js:144-174 | 500 exactly when the role read fails, or when the insert of a new pair fails for an admin; 403 exactly when the role read succeeds and the caller is not an admin of the group; 400 exactly when an admin adds an existing pair; 201 exactly when the caller is admin, the pair is new and no statement fails, adding exactly one `member` row; otherwise memberships are unchanged; the invariant is kept |
| Store.Store.RemoveMember | backend/routes/groups.js:177-223 | 500 exactly when the role read fails, the admin count fails for an admin removing themselves, or the delete fails once the checks pass; 403 exactly when the caller is not an admin; 400 exactly when an admin removes themselves as the group's only admin; the delete runs exactly when those checks pass; then 404 when the target is not a member, otherwise exactly that one row goes; the invariant is kept |
| Store.Store.LeaveGroup | backend/routes/groups.js:226-268 | 500 exactly when the membership read fails, or for a member when the counts read fails or the delete fails after the guard; 404 exactly when the membership read succeeds and the caller is not a member; 400 exactly when the caller is the only admin of a group with more than one member; 200 exactly when no statement fails and neither applies, deleting only the caller's row; on any other answer nothing changes; the group row stays; the invariant is kept |
| Store.Store.DeleteGroup | backend/routes/groups.js:271-315 | 500 exactly when the member read fails, or when the caller is the only member and one of the three deletes fails; 400 exactly when the read succeeds and there is more than one member; 403 exactly when there are no members or the one member is not the caller; 200 exactly when no statement fails and the caller is the only member, dropping the group's media, memberships and row; on any other answer nothing changes; the invariant is kept |
| Store.Store.UploadMedia | backend/routes/media.js:20-51 | 400 exactly when no file came, before the membership check; 500 exactly when a file came and the membership read fails, or the media insert fails for a member; 403 exactly when the read succeeds and the caller is not a member; 201 exactly when a file came, the caller is a member and no statement fails, adding exactly one media row under a fresh id with the stored name and its path in the upload directory; other tables unchanged; the invariant is kept |
| Scenarios.Replay | backend/routes/groups.js:143-315 | relying on the admin checks at lines 157-159 and 189-191, the self-removal guard at 193-203, the leave guard at 254, the delete guards at 285-291 and the cascade at 294-309: after any sequence of create, add, remove, leave, delete and upload requests, every membership and media row refers to an existing group and every group with a member has an admin |
| Scenarios.CreateWithTwoMembers | backend/routes/groups.js:41-61 | user 1 creating "Team" with users 2 and 3 yields three memberships, with user 1 the only admin, and the answer carries the new id, "Team" and "desc" |
| Scenarios.CreatorAlsoListed | backend/routes/groups.js:41-42 | a creator listed among the members (as the string "1") still holds a single membership, as admin, and user 2 is a member |
| Scenarios.DuplicateListedMember | backend/routes/groups.js:51-56 | listing 2 and "2" makes creation fail with 500 and leaves no group and no membership behind |
| Scenarios.SoleAdminCannotLeave | backend/routes/groups.js:254-256 | the only admin of a three-member group gets 400, and the memberships table is exactly as it was before the request |
| Scenarios.SoleMemberDeletes | backend/routes/groups.js:285-309 | the creator as the only member uploads a file (201) and then deletes the group (200); its row, its memberships and its media are gone |
| Scenarios.MemberCannotAdd | backend/routes/groups.js:157-159 | a plain member adding someone gets 403, and the memberships table is exactly as it was before the request |
| Scenarios.AdminRemovesOtherAdmin | backend/routes/groups.js:209-219 | one of two admins removes the other; one member remains, and that member is the group's admin |
| Scenarios.EmptiedGroupStays | backend/routes/groups.js:285-291 | a lone creator can leave, the emptied group row stays, and a later delete by the same user gets 403 |

## Left out

- Express routing, `authenticateToken` and the token format. The caller's id is a parameter of every operation.
- express-validator internals. The name check is modelled as non-empty. The description and member fields are modelled as missing, well-typed or wrongly typed (`Store.Field`). The validation result of the add-member route is never read by that route, and a missing `user_id` is not modelled.
- User ids in request bodies of any JSON type other than a non-negative integer or a string (null, booleans, fractional or negative numbers, objects) are not modelled. The `members` validator checks only that the field is an array, and `user_id` is never type-checked, so such values reach the filter and the insert. For example, `members: [true]` passes the creator filter, and node-sqlite3 binds it as 1.
- Route parameters are modelled as already-parsed group and media ids (`nat`). Non-numeric or negative ids match no row in SQLite, and that case is not modelled separately.
- The `users_master` join and the members' display names. `Queries.GetGroupDetail` lists every membership in the roster; the source's join drops memberships whose user has no `users_master` row.
- The `created_at` and `uploaded_at` columns, which SQLite fills from its clock.
- Row order. The list queries have no `ORDER BY`, and the model promises the contents and uniqueness of the rows, not their order.
- Which value SQLite picks for a new rowid. The model promises only an id not yet in use.
- sqlite3's callback sequencing and concurrent requests, including the race between two leavers of the same group. Each request is modelled as running alone.
- Errors from the final `COMMIT` of the leave and delete routes. The source ignores them and answers 200; the model treats that commit as always succeeding.
- The file itself. Multer writes the file to disk before the route runs, so a 403 or 500 upload leaves its file on disk. The clock read by the `filename` callback, and the stream and error path of `res.download`, are also outside the model.
- The string form of ids. The store holds user ids by their `String(id)` form. The SQLite schema file (`v2_add_groups_and_media_tables.sql`) is not part of this model, so the column's affinity is unknown. Text such as `"07"` or `"7.0"` is treated as a different user from 7, although an integer-affinity column would store or match it as 7.
- Store.Store.RemoveMember: the invariant that every non-empty group keeps an admin is proved only for targets whose text is the canonical string form of the stored id. The route's self-removal guard compares `String(adminId)` with the raw target, while the DELETE is matched by SQLite. If the column has integer affinity, an admin 1 removing the target `"01"` skips the guard, and the DELETE still removes their own row. That can leave a group with members but no admin. The model matches the DELETE by string form, so it does not capture this case.
- JavaScript prints numbers of 1e21 or more in exponent form. `Basics.Decimal` models only plain decimal digits, since user ids never reach that size.
- The migration script, `users.js` and the frontend.
