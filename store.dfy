/** The mutating handlers of the group routes (create, add member, remove
    member, leave, delete) and of the media route (upload), as methods of one
    store object holding the `groups`, `group_members` and `media` tables. */
module Store {
  import opened Basics
  import opened Tables
  import opened FileNames

  /** A request-body field validated by express-validator: missing, present
      with the expected type, or present with another type. */
  datatype Field<T> = Absent | Present(value: T) | Malformed

  /** The file multer has already written to disk for an upload: the client's
      name for it, the clock reading the `filename` callback used, and its type. */
  datatype UploadedFile = UploadedFile(originalName: string, receivedAt: nat, mimeType: string)

  // Which statement of a handler reports a database error, if any.
  datatype CreateFault = CreateNoFault | GroupInsertFails | AdminInsertFails | MembersInsertFails | CommitFails
  datatype AddFault = AddNoFault | AddRoleReadFails | MemberInsertFails
  datatype RemoveFault = RemoveNoFault | RemoveRoleReadFails | AdminCountFails | MemberDeleteFails
  datatype LeaveFault = LeaveNoFault | LeaveMemberReadFails | CountsReadFails | LeaveDeleteFails
  datatype DeleteFault = DeleteNoFault | MemberListFails | MediaDeleteFails | MembershipsDeleteFails | GroupDeleteFails
  datatype UploadFault = UploadNoFault | UploadMemberReadFails | MediaInsertFails

  /** The `group` object of a 201 answer to POST /groups. */
  datatype CreatedGroup = CreatedGroup(id: nat, name: string, description: Option<string>)

  /** The state a `BEGIN TRANSACTION` saves and a `ROLLBACK` restores. */
  datatype Snapshot = Snapshot(groups: Groups, members: Members, media: Media, nextGroupId: nat, nextMediaId: nat)

  /** The validators of POST /groups: a non-empty name, an optional string
      description, an optional array of members. */
  predicate CreateRequestValid(name: string, description: Field<string>, memberList: Field<seq<UserRef>>)
  {
    name != "" && !description.Malformed? && !memberList.Malformed?
  }

  /** `members ? members : []` */
  function MemberListOf(memberList: Field<seq<UserRef>>): seq<UserRef>
  {
    if memberList.Present? then memberList.value else []
  }

  /** A missing description is stored as NULL. */
  function DescriptionOf(description: Field<string>): Option<string>
  {
    if description.Present? then Some(description.value) else None
  }

  /** The leave guard: the caller is the group's only admin and others remain. */
  predicate LastAdminWithOthers(members: Members, g: nat, u: string)
  {
    u in AdminsOf(members, g) && |AdminsOf(members, g)| == 1 && |MembersOf(members, g)| > 1
  }

  /** The store invariant: the tables are consistent and every id in use
      lies below its counter. */
  predicate Invariant(groups: Groups, members: Members, media: Media, nextGroupId: nat, nextMediaId: nat)
  {
    Consistent(groups, members, media) &&
    (forall g | g in groups :: g < nextGroupId) &&
    (forall id | id in media :: id < nextMediaId)
  }

  predicate SnapshotValid(saved: Snapshot)
  {
    Invariant(saved.groups, saved.members, saved.media, saved.nextGroupId, saved.nextMediaId)
  }

  /** The next group id is unused, and a group created under it with its
      founding memberships keeps the invariant. */
  lemma FoundingKeepsInvariant(groups: Groups, members: Members, media: Media, nextGroupId: nat, nextMediaId: nat,
                               row: GroupRow, creator: string, list: seq<UserRef>)
    requires Invariant(groups, members, media, nextGroupId, nextMediaId)
    ensures nextGroupId !in groups
    ensures forall k | k in members :: k.0 != nextGroupId
    ensures Invariant(groups[nextGroupId := row], members + FoundingMembers(nextGroupId, creator, list),
                      media, nextGroupId + 1, nextMediaId)
  {
    FoundingKeepsConsistent(groups, members, media, nextGroupId, row, creator, list);
  }

  /** The `forEach` that pushes (groupId, userId, 'member') for every listed
      non-creator id into the values of the multi-row insert. */
  method BuildMemberRows(g: nat, others: seq<UserRef>) returns (rows: seq<MemberRow>)
    ensures rows == MemberRowsFor(g, others)
  {
    rows := [];
    for i := 0 to |others|
      invariant |rows| == i
      invariant forall j | 0 <= j < i :: rows[j] == MemberRow(g, Key(others[j]), Member)
    {
      rows := rows + [MemberRow(g, Key(others[i]), Member)];
    }
  }

  class Store {
    var groups: Groups
    var members: Members
    var media: Media
    /** Stand-ins for `lastID`: every id in use is below them. */
    var nextGroupId: nat
    var nextMediaId: nat
    /** The multer destination directory, ending in a path separator. */
    const uploadDir: string

    ghost predicate Valid()
      reads this
    {
      Invariant(groups, members, media, nextGroupId, nextMediaId)
    }

    constructor (uploadDir: string)
      ensures Valid()
      ensures groups == map[] && members == map[] && media == map[]
      ensures this.uploadDir == uploadDir
    {
      groups, members, media := map[], map[], map[];
      nextGroupId, nextMediaId := 1, 1;
      this.uploadDir := uploadDir;
    }

    /** ROLLBACK: every table and counter back to the saved state. */
    method Rollback(saved: Snapshot)
      requires SnapshotValid(saved)
      modifies this
      ensures Valid()
      ensures groups == saved.groups && members == saved.members && media == saved.media
      ensures nextGroupId == saved.nextGroupId && nextMediaId == saved.nextMediaId
    {
      groups, members, media := saved.groups, saved.members, saved.media;
      nextGroupId, nextMediaId := saved.nextGroupId, saved.nextMediaId;
    }

    /** POST /groups.  Inside one transaction: insert the group, the creator as
        admin, then every other listed id as member in one multi-row insert;
        any failing step rolls everything back. */
    method CreateGroup(caller: UserRef, name: string, description: Field<string>,
                       memberList: Field<seq<UserRef>>, fail: CreateFault) returns (s: Status, created: Option<CreatedGroup>)
      requires Valid()
      modifies this
      ensures Valid()
      ensures media == old(media) && nextMediaId == old(nextMediaId)
      ensures s.BadRequest? || s.Internal? || s.Created?
      ensures s.BadRequest? <==> !CreateRequestValid(name, description, memberList)
      ensures var others := OtherMembers(MemberListOf(memberList), Key(caller));
              s.Created? <==> CreateRequestValid(name, description, memberList) && DistinctKeys(others) &&
                              (fail.CreateNoFault? || (fail.MembersInsertFails? && others == []))
      ensures created.Some? <==> s.Created?
      ensures s.Created? ==> s.id.Some? && created == Some(CreatedGroup(s.id.value, name, DescriptionOf(description)))
      ensures !s.Created? ==> groups == old(groups) && members == old(members) && nextGroupId == old(nextGroupId)
      ensures s.Created? ==> s.id.Some? && s.id.value !in old(groups) &&
                             (forall k | k in old(members) :: k.0 != s.id.value) &&
                             groups == old(groups)[s.id.value := GroupRow(name, DescriptionOf(description), Key(caller))] &&
                             members == old(members) + FoundingMembers(s.id.value, Key(caller), MemberListOf(memberList))
    {
      if !CreateRequestValid(name, description, memberList) {
        return BadRequest, None;
      }
      var saved := Snapshot(groups, members, media, nextGroupId, nextMediaId);
      var id := nextGroupId;
      var creator := Key(caller);
      var list := MemberListOf(memberList);
      var row := GroupRow(name, DescriptionOf(description), creator);
      FoundingKeepsInvariant(groups, members, media, id, nextMediaId, row, creator, list);
      // Each step runs only when every earlier one succeeded.
      var ok := !fail.GroupInsertFails?;
      if ok {
        groups := groups[id := row];
        nextGroupId := id + 1;
        ok := !fail.AdminInsertFails?;
      }
      if ok {
        ok := InsertFoundingMembers(id, creator, list, fail.MembersInsertFails?);
      }
      if ok {
        ok := !fail.CommitFails?;
      }
      if !ok {
        Rollback(saved);
        return Internal, None;
      }
      s, created := Created(Some(id)), Some(CreatedGroup(id, name, row.description));
    }

    /** The two membership inserts of POST /groups: the creator as admin, then
        one multi-row insert of every other listed id as member, skipped when
        there is none.  The multi-row insert fails on a reported error or when
        two of its rows, or one of its rows and an existing membership, share a
        (group, user) key. */
    method InsertFoundingMembers(g: nat, creator: string, list: seq<UserRef>, insertFails: bool) returns (ok: bool)
      requires forall k | k in members :: k.0 != g
      modifies this
      ensures groups == old(groups) && media == old(media)
      ensures nextGroupId == old(nextGroupId) && nextMediaId == old(nextMediaId)
      ensures var others := OtherMembers(list, creator);
              ok <==> DistinctKeys(others) && (others == [] || !insertFails)
      ensures ok ==> members == old(members) + FoundingMembers(g, creator, list)
    {
      FoundingByInserts(members, g, creator, list);
      members := members[(g, creator) := Admin];
      var others := OtherMembers(list, creator);
      if |others| == 0 {
        assert MemberRowsFor(g, others) == [];
        return true;
      }
      var rows := BuildMemberRows(g, others);
      var result := InsertRows(members, rows);
      if insertFails || result.None? {
        return false;
      }
      members := result.value;
      ok := true;
    }

    /** POST /groups/:id/members: only an admin of the group may add; a user
        already in the group hits the unique key and gets 400. */
    method AddMember(caller: UserRef, g: nat, newMember: UserRef, fail: AddFault) returns (s: Status)
      requires Valid()
      modifies this
      ensures Valid()
      ensures groups == old(groups) && media == old(media)
      ensures nextGroupId == old(nextGroupId) && nextMediaId == old(nextMediaId)
      ensures s.Internal? <==> fail.AddRoleReadFails? ||
                               (fail.MemberInsertFails? && Key(caller) in AdminsOf(old(members), g) &&
                                (g, Key(newMember)) !in old(members))
      ensures s.Forbidden? <==> !fail.AddRoleReadFails? && Key(caller) !in AdminsOf(old(members), g)
      ensures s.BadRequest? <==> !fail.AddRoleReadFails? && Key(caller) in AdminsOf(old(members), g) &&
                                 (g, Key(newMember)) in old(members)
      ensures s.Created? <==> fail.AddNoFault? && Key(caller) in AdminsOf(old(members), g) &&
                              (g, Key(newMember)) !in old(members)
      ensures s.Created? ==> s.id.None? && members == old(members)[(g, Key(newMember)) := Member]
      ensures !s.Created? ==> members == old(members)
      ensures s.Created? || s.Internal? || s.Forbidden? || s.BadRequest?
    {
      if fail.AddRoleReadFails? {
        return Internal;
      }
      var caller' := Key(caller);
      if (g, caller') !in members || members[(g, caller')] != Admin {
        return Forbidden;
      }
      var key := (g, Key(newMember));
      if key in members {
        return BadRequest;
      }
      if fail.MemberInsertFails? {
        return Internal;
      }
      AdditionKeepsConsistent(groups, members, media, g, key.1);
      members := members[key := Member];
      s := Created(None);
    }

    /** DELETE /groups/:id/members/:userId: only an admin may remove; an admin
        removing themselves needs another admin; removing a non-member is 404. */
    method RemoveMember(caller: UserRef, g: nat, target: string, fail: RemoveFault) returns (s: Status)
      requires Valid()
      modifies this
      ensures Valid()
      ensures groups == old(groups) && media == old(media)
      ensures nextGroupId == old(nextGroupId) && nextMediaId == old(nextMediaId)
      ensures s.Internal? <==> fail.RemoveRoleReadFails? ||
                               (Key(caller) in AdminsOf(old(members), g) && Key(caller) == target && fail.AdminCountFails?) ||
                               (Key(caller) in AdminsOf(old(members), g) && fail.MemberDeleteFails? &&
                                !(Key(caller) == target && |AdminsOf(old(members), g)| <= 1))
      ensures s.Forbidden? <==> !fail.RemoveRoleReadFails? && Key(caller) !in AdminsOf(old(members), g)
      ensures s.BadRequest? <==> !fail.RemoveRoleReadFails? && !fail.AdminCountFails? && Key(caller) in AdminsOf(old(members), g) &&
                                 Key(caller) == target && |AdminsOf(old(members), g)| <= 1
      ensures s.Ok? || s.NotFound? <==>
              !fail.RemoveRoleReadFails? && !fail.MemberDeleteFails? && Key(caller) in AdminsOf(old(members), g) &&
              (Key(caller) == target ==> !fail.AdminCountFails? && |AdminsOf(old(members), g)| > 1)
      ensures s.Ok? ==> (g, target) in old(members) && members == old(members) - {(g, target)}
      ensures s.NotFound? ==> (g, target) !in old(members)
      ensures !s.Ok? ==> members == old(members)
      ensures s.Ok? || s.NotFound? || s.Internal? || s.Forbidden? || s.BadRequest?
    {
      if fail.RemoveRoleReadFails? {
        return Internal;
      }
      var caller' := Key(caller);
      if (g, caller') !in members || members[(g, caller')] != Admin {
        return Forbidden;
      }
      if caller' == target {
        if fail.AdminCountFails? {
          return Internal;
        }
        if |AdminsOf(members, g)| <= 1 {
          return BadRequest;
        }
      }
      if fail.MemberDeleteFails? {
        return Internal;
      }
      if (g, target) !in members {
        return NotFound;
      }
      RemoveKeepsAdmin(members, g, caller', target);
      members := members - {(g, target)};
      s := Ok;
    }

    /** POST /groups/:id/leave: inside one transaction, a member leaves unless
        they are the only admin of a group with other members; the group row
        stays even when its last member leaves. */
    method LeaveGroup(caller: UserRef, g: nat, fail: LeaveFault) returns (s: Status)
      requires Valid()
      modifies this
      ensures Valid()
      ensures groups == old(groups) && media == old(media)
      ensures nextGroupId == old(nextGroupId) && nextMediaId == old(nextMediaId)
      ensures s.Internal? <==> fail.LeaveMemberReadFails? ||
                               ((g, Key(caller)) in old(members) && fail.CountsReadFails?) ||
                               ((g, Key(caller)) in old(members) && fail.LeaveDeleteFails? &&
                                !LastAdminWithOthers(old(members), g, Key(caller)))
      ensures s.NotFound? <==> !fail.LeaveMemberReadFails? && (g, Key(caller)) !in old(members)
      ensures s.BadRequest? <==> !fail.LeaveMemberReadFails? && !fail.CountsReadFails? &&
                                 LastAdminWithOthers(old(members), g, Key(caller))
      ensures s.Ok? <==> fail.LeaveNoFault? && (g, Key(caller)) in old(members) &&
                         !LastAdminWithOthers(old(members), g, Key(caller))
      ensures s.Ok? ==> members == old(members) - {(g, Key(caller))}
      ensures !s.Ok? ==> members == old(members)
      ensures s.Ok? || s.NotFound? || s.Internal? || s.BadRequest?
    {
      var saved := Snapshot(groups, members, media, nextGroupId, nextMediaId);
      if fail.LeaveMemberReadFails? {
        Rollback(saved);
        return Internal;
      }
      var caller' := Key(caller);
      if (g, caller') !in members {
        Rollback(saved);
        return NotFound;
      }
      if fail.CountsReadFails? {
        Rollback(saved);
        return Internal;
      }
      if members[(g, caller')] == Admin && |AdminsOf(members, g)| == 1 && |MembersOf(members, g)| > 1 {
        Rollback(saved);
        return BadRequest;
      }
      if fail.LeaveDeleteFails? {
        Rollback(saved);
        return Internal;
      }
      LeaveKeepsAdmin(members, g, caller');
      members := members - {(g, caller')};
      s := Ok;
    }

    /** DELETE /groups/:id: inside one transaction, only the group's sole
        member may delete it; then its media, its memberships and the group
        row go, in that order, and a failing step rolls all of it back. */
    method DeleteGroup(caller: UserRef, g: nat, fail: DeleteFault) returns (s: Status)
      requires Valid()
      modifies this
      ensures Valid()
      ensures nextGroupId == old(nextGroupId) && nextMediaId == old(nextMediaId)
      ensures s.Internal? <==> fail.MemberListFails? ||
                               (MembersOf(old(members), g) == {Key(caller)} &&
                                (fail.MediaDeleteFails? || fail.MembershipsDeleteFails? || fail.GroupDeleteFails?))
      ensures s.BadRequest? <==> !fail.MemberListFails? && |MembersOf(old(members), g)| > 1
      ensures s.Forbidden? <==> !fail.MemberListFails? && |MembersOf(old(members), g)| <= 1 &&
                                MembersOf(old(members), g) != {Key(caller)}
      ensures s.Ok? <==> fail.DeleteNoFault? && MembersOf(old(members), g) == {Key(caller)}
      ensures s.Ok? ==> groups == old(groups) - {g} &&
                        members == DropGroupMembers(old(members), g) &&
                        media == DropGroupMedia(old(media), g)
      ensures !s.Ok? ==> groups == old(groups) && members == old(members) && media == old(media)
      ensures s.Ok? || s.BadRequest? || s.Forbidden? || s.Internal?
    {
      var saved := Snapshot(groups, members, media, nextGroupId, nextMediaId);
      if fail.MemberListFails? {
        Rollback(saved);
        return Internal;
      }
      var current := MembersOf(members, g);
      if |current| > 1 {
        Rollback(saved);
        return BadRequest;
      }
      if current != {Key(caller)} {
        Rollback(saved);
        return Forbidden;
      }
      DeletionKeepsConsistent(groups, members, media, g);
      media := DropGroupMedia(media, g);
      if fail.MediaDeleteFails? {
        Rollback(saved);
        return Internal;
      }
      members := DropGroupMembers(members, g);
      if fail.MembershipsDeleteFails? {
        Rollback(saved);
        return Internal;
      }
      groups := groups - {g};
      if fail.GroupDeleteFails? {
        Rollback(saved);
        return Internal;
      }
      s := Ok;
    }

    /** POST /media/upload/:groupId: without a file 400; a non-member 403;
        otherwise record the stored file under a fresh id. */
    method UploadMedia(caller: UserRef, g: nat, file: Option<UploadedFile>, fail: UploadFault) returns (s: Status)
      requires Valid()
      modifies this
      ensures Valid()
      ensures groups == old(groups) && members == old(members) && nextGroupId == old(nextGroupId)
      ensures s.BadRequest? <==> file.None?
      ensures s.Internal? <==> file.Some? && (fail.UploadMemberReadFails? ||
                                              (fail.MediaInsertFails? && (g, Key(caller)) in old(members)))
      ensures s.Forbidden? <==> file.Some? && !fail.UploadMemberReadFails? && (g, Key(caller)) !in old(members)
      ensures s.Created? <==> file.Some? && fail.UploadNoFault? && (g, Key(caller)) in old(members)
      ensures s.Created? ==>
                var stored := StoredFileName(file.value.receivedAt, file.value.originalName);
                s.id.Some? && s.id.value !in old(media) &&
                media == old(media)[s.id.value := MediaRow(g, Key(caller), stored, uploadDir + stored, file.value.mimeType)]
      ensures !s.Created? ==> media == old(media) && nextMediaId == old(nextMediaId)
      ensures s.Created? || s.BadRequest? || s.Forbidden? || s.Internal?
    {
      if file.None? {
        return BadRequest;
      }
      if fail.UploadMemberReadFails? {
        return Internal;
      }
      if (g, Key(caller)) !in members {
        return Forbidden;
      }
      if fail.MediaInsertFails? {
        return Internal;
      }
      var stored := StoredFileName(file.value.receivedAt, file.value.originalName);
      var id := nextMediaId;
      media := media[id := MediaRow(g, Key(caller), stored, uploadDir + stored, file.value.mimeType)];
      nextMediaId := id + 1;
      s := Created(Some(id));
    }
  }
}
