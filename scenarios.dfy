/** Short client sessions against a fresh store: creating a group, leaving
    it, deleting it, adding and removing members, each stating the outcome
    the handlers' contracts guarantee.  Users 1, 2 and 3 are the numeric token ids 1, 2 and 3. */
module Scenarios {
  import opened Basics
  import opened Tables
  import opened Store

  /** One request to a mutating route, with the statement that fails, if any. */
  datatype Request =
    | CreateRequest(caller: UserRef, name: string, description: Field<string>, memberList: Field<seq<UserRef>>, createFault: CreateFault)
    | AddRequest(caller: UserRef, group: nat, newMember: UserRef, addFault: AddFault)
    | RemoveRequest(caller: UserRef, group: nat, target: string, removeFault: RemoveFault)
    | LeaveRequest(caller: UserRef, group: nat, leaveFault: LeaveFault)
    | DeleteRequest(caller: UserRef, group: nat, deleteFault: DeleteFault)
    | UploadRequest(caller: UserRef, group: nat, file: Option<UploadedFile>, uploadFault: UploadFault)

  /** Whatever requests arrive, one after another: every membership and media
      row keeps pointing at an existing group, and no group with a member is
      left without an admin. */
  method Replay(store: Store, requests: seq<Request>) returns (statuses: seq<Status>)
    requires store.Valid()
    modifies store
    ensures store.Valid()
    ensures |statuses| == |requests|
    ensures forall k | k in store.members :: k.0 in store.groups && AdminsOf(store.members, k.0) != {}
    ensures forall id | id in store.media :: store.media[id].groupId in store.groups
  {
    statuses := [];
    for i := 0 to |requests|
      invariant store.Valid()
      invariant |statuses| == i
    {
      var s;
      match requests[i] {
        case CreateRequest(caller, name, description, memberList, fail) =>
          var body;
          s, body := store.CreateGroup(caller, name, description, memberList, fail);
        case AddRequest(caller, g, newMember, fail) =>
          s := store.AddMember(caller, g, newMember, fail);
        case RemoveRequest(caller, g, target, fail) =>
          s := store.RemoveMember(caller, g, target, fail);
        case LeaveRequest(caller, g, fail) =>
          s := store.LeaveGroup(caller, g, fail);
        case DeleteRequest(caller, g, fail) =>
          s := store.DeleteGroup(caller, g, fail);
        case UploadRequest(caller, g, file, fail) =>
          s := store.UploadMedia(caller, g, file, fail);
      }
      statuses := statuses + [s];
    }
  }

  lemma SmallKeys()
    ensures Key(Num(1)) == "1" && Key(Num(2)) == "2" && Key(Num(3)) == "3"
  {
  }

  /** User 1 creates "Team" listing users 2 and 3: three memberships, user 1
      the only admin. */
  method CreateWithTwoMembers() returns (store: Store, s: Status, body: Option<CreatedGroup>)
    ensures s.Created? && s.id.Some?
    ensures body == Some(CreatedGroup(s.id.value, "Team", Some("desc")))
    ensures s.id.value in store.groups && store.groups[s.id.value] == GroupRow("Team", Some("desc"), "1")
    ensures MembersOf(store.members, s.id.value) == {"1", "2", "3"}
    ensures AdminsOf(store.members, s.id.value) == {"1"}
    ensures forall k | k in store.members :: k.0 == s.id.value
    ensures fresh(store) && store.Valid()
  {
    store := new Store("uploads/");
    TeamListing();
    s, body := store.CreateGroup(Num(1), "Team", Present("desc"), Present([Num(2), Num(3)]), CreateNoFault);
    TeamFounding(s.id.value);
  }

  /** Users 2 and 3, listed by user 1, are both kept and have distinct keys. */
  lemma TeamListing()
    ensures Key(Num(1)) == "1"
    ensures OtherMembers([Num(2), Num(3)], "1") == [Num(2), Num(3)]
    ensures DistinctKeys([Num(2), Num(3)])
  {
    SmallKeys();
  }

  lemma TeamFounding(g: nat)
    ensures var members := map[] + FoundingMembers(g, "1", [Num(2), Num(3)]);
            MembersOf(members, g) == {"1", "2", "3"} && AdminsOf(members, g) == {"1"} &&
            forall k | k in members :: k.0 == g
  {
    SmallKeys();
    var list := [Num(2), Num(3)];
    assert KeysOf(list) == {"2", "3"};
    var f := FoundingMembers(g, "1", list);
    assert map[] + f == f;
  }

  /** The creator listed among the members still holds exactly one
      membership, as admin. */
  method CreatorAlsoListed() returns (store: Store, s: Status)
    ensures s.Created? && s.id.Some?
    ensures MembersOf(store.members, s.id.value) == {"1", "2"}
    ensures AdminsOf(store.members, s.id.value) == {"1"}
    ensures (s.id.value, "2") in store.members && store.members[(s.id.value, "2")] == Member
  {
    SmallKeys();
    store := new Store("uploads/");
    var list := [Text("1"), Num(2)];
    assert OtherMembers(list, "1") == [Num(2)];
    assert KeysOf(list) == {"1", "2"};
    var body;
    s, body := store.CreateGroup(Num(1), "Pair", Absent, Present(list), CreateNoFault);
  }

  /** Two listed ids with the same string form make the multi-row insert hit
      the unique key: 500, and not even the group row remains. */
  method DuplicateListedMember() returns (store: Store, s: Status)
    ensures s.Internal?
    ensures store.groups == map[] && store.members == map[]
  {
    SmallKeys();
    store := new Store("uploads/");
    var list := [Num(2), Text("2")];
    assert OtherMembers(list, "1") == list;
    var body;
    s, body := store.CreateGroup(Num(1), "Team", Absent, Present(list), CreateNoFault);
  }

  /** The sole admin of a three-member group cannot leave it. */
  method SoleAdminCannotLeave() returns (store: Store, g: nat, before: Members, s: Status)
    ensures s.BadRequest?
    ensures MembersOf(before, g) == {"1", "2", "3"} && AdminsOf(before, g) == {"1"}
    ensures store.members == before
  {
    var created, body;
    store, created, body := CreateWithTwoMembers();
    g := created.id.value;
    before := store.members;
    s := store.LeaveGroup(Num(1), g, LeaveNoFault);
  }

  /** The only member, who is the creator, deletes the group with its media. */
  method SoleMemberDeletes() returns (store: Store, g: nat, uploaded: Status, s: Status)
    ensures uploaded.Created? && s.Ok?
    ensures g !in store.groups && MembersOf(store.members, g) == {}
    ensures forall id | id in store.media :: store.media[id].groupId != g
  {
    store := new Store("uploads/");
    assert Key(Num(1)) == "1";
    var created, body := store.CreateGroup(Num(1), "Solo", Absent, Absent, CreateNoFault);
    g := created.id.value;
    SoloFounding(g);
    uploaded := store.UploadMedia(Num(1), g, Some(UploadedFile("a.png", 1700000000000, "image/png")), UploadNoFault);
    s := store.DeleteGroup(Num(1), g, DeleteNoFault);
  }

  /** A group founded by user 1 with no one else listed has user 1 as its
      only member. */
  lemma SoloFounding(g: nat)
    ensures MembersOf(map[] + FoundingMembers(g, "1", []), g) == {"1"}
  {
    assert KeysOf([]) == {};
    assert map[] + FoundingMembers(g, "1", []) == FoundingMembers(g, "1", []);
  }

  /** A plain member may not add anyone: 403 and no row inserted. */
  method MemberCannotAdd() returns (store: Store, g: nat, before: Members, s: Status)
    ensures s.Forbidden?
    ensures MembersOf(before, g) == {"1", "2", "3"} && AdminsOf(before, g) == {"1"}
    ensures store.members == before
  {
    var created, body;
    store, created, body := CreateWithTwoMembers();
    g := created.id.value;
    before := store.members;
    s := store.AddMember(Num(2), g, Text("4"), AddNoFault);
  }

  /** One of two admins of a two-member group removes the other: the group
      keeps one member, who is its admin.  No handler promotes a member, so
      the two-admin state is written into the tables directly. */
  method AdminRemovesOtherAdmin() returns (store: Store, s: Status)
    ensures s.Ok?
    ensures MembersOf(store.members, 1) == {"1"} && AdminsOf(store.members, 1) == {"1"}
  {
    SmallKeys();
    store := new Store("uploads/");
    var groups := map[1 := GroupRow("Admins", None, "1")];
    var members := map[(1, "1") := Admin, (1, "2") := Admin];
    TwoAdminGroup(members);
    assert Invariant(groups, members, map[], 2, 1);
    store.groups, store.members, store.media := groups, members, map[];
    store.nextGroupId, store.nextMediaId := 2, 1;
    s := store.RemoveMember(Num(1), 1, "2", RemoveNoFault);
  }

  /** The memberships of the two-admin group, before and after one admin goes. */
  lemma TwoAdminGroup(members: Members)
    requires members == map[(1, "1") := Admin, (1, "2") := Admin]
    ensures AdminsOf(members, 1) == {"1", "2"}
    ensures EveryNonEmptyGroupHasAdmin(members)
    ensures MembersOf(members - {(1, "2")}, 1) == {"1"} && AdminsOf(members - {(1, "2")}, 1) == {"1"}
  {
    assert "1" in AdminsOf(members, 1) && "2" in AdminsOf(members, 1);
    var after := members - {(1, "2")};
    assert "1" in AdminsOf(after, 1);
  }

  /** A lone creator may leave; the emptied group row stays and, having no
      member, can never be deleted by anyone. */
  method EmptiedGroupStays() returns (store: Store, g: nat, left: Status, deleted: Status)
    ensures left.Ok? && deleted.Forbidden?
    ensures g in store.groups && MembersOf(store.members, g) == {}
  {
    store := new Store("uploads/");
    assert Key(Num(1)) == "1";
    var created, body := store.CreateGroup(Num(1), "Solo", Absent, Absent, CreateNoFault);
    g := created.id.value;
    SoloFounding(g);
    left := store.LeaveGroup(Num(1), g, LeaveNoFault);
    deleted := store.DeleteGroup(Num(1), g, DeleteNoFault);
  }
}
