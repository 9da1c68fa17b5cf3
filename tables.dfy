/** The three tables behind the group and media routes, the facts derived
    from them (who belongs to a group, who administers it), the store
    invariant, and the table transformations the handlers perform. */
module Tables {
  import opened Basics

  datatype Role = Admin | Member

  /** A `group_members` row is identified by (group_id, user_id); the pair is
      unique, which is what the UNIQUE-constraint branch of AddMember relies on. */
  type MemberKey = (nat, string)

  datatype GroupRow = GroupRow(name: string, description: Option<string>, createdBy: string)

  /** One row of a multi-row `INSERT INTO group_members`. */
  datatype MemberRow = MemberRow(groupId: nat, userId: string, role: Role)
  {
    function Key(): MemberKey { (groupId, userId) }
  }

  datatype MediaRow = MediaRow(groupId: nat, uploader: string, fileName: string, filePath: string, fileType: string)

  type Groups = map<nat, GroupRow>
  type Members = map<MemberKey, Role>
  type Media = map<nat, MediaRow>

  /** The users holding a membership in group `g` (memberCount is its size). */
  function MembersOf(members: Members, g: nat): (us: set<string>)
    ensures forall u :: u in us <==> (g, u) in members
  {
    var us := set k | k in members && k.0 == g :: k.1;
    assert forall u | (g, u) in members :: (g, u).1 in us;
    us
  }

  /** The users holding role admin in group `g` (adminCount is its size). */
  function AdminsOf(members: Members, g: nat): (us: set<string>)
    ensures forall u :: u in us <==> (g, u) in members && members[(g, u)] == Admin
    ensures us <= MembersOf(members, g)
  {
    var us := set k | k in members && k.0 == g && members[k] == Admin :: k.1;
    assert forall u | (g, u) in members && members[(g, u)] == Admin :: (g, u).1 in us;
    us
  }

  // ---------------------------------------------------------------------
  // The store invariant

  predicate MembersReferToGroups(groups: Groups, members: Members)
  {
    forall k | k in members :: k.0 in groups
  }

  predicate MediaReferToGroups(groups: Groups, media: Media)
  {
    forall id | id in media :: media[id].groupId in groups
  }

  /** A group with at least one member has at least one admin. */
  predicate EveryNonEmptyGroupHasAdmin(members: Members)
  {
    forall k | k in members :: AdminsOf(members, k.0) != {}
  }

  predicate Consistent(groups: Groups, members: Members, media: Media)
  {
    MembersReferToGroups(groups, members) &&
    MediaReferToGroups(groups, media) &&
    EveryNonEmptyGroupHasAdmin(members)
  }

  // ---------------------------------------------------------------------
  // CreateGroup: the founding memberships

  /** `members.filter(id => String(id) !== String(created_by))`. */
  function OtherMembers(list: seq<UserRef>, creator: string): (r: seq<UserRef>)
    ensures |r| <= |list|
    ensures forall u :: u in r <==> u in list && Key(u) != creator
  {
    if list == [] then []
    else if Key(list[0]) != creator then [list[0]] + OtherMembers(list[1..], creator)
    else OtherMembers(list[1..], creator)
  }

  /** The filter keeps duplicates: an id whose string form differs from the
      creator's occurs as often as in the list, any other id not at all. */
  lemma {:induction false} OtherMembersCounts(list: seq<UserRef>, creator: string, u: UserRef)
    ensures multiset(OtherMembers(list, creator))[u] == if Key(u) != creator then multiset(list)[u] else 0
  {
    if list != [] {
      assert list == [list[0]] + list[1..];
      OtherMembersCounts(list[1..], creator, u);
    }
  }

  /** The filter keeps list order: filtering a concatenation is the
      concatenation of the filtered parts. */
  lemma {:induction false} OtherMembersAppend(a: seq<UserRef>, b: seq<UserRef>, creator: string)
    ensures OtherMembers(a + b, creator) == OtherMembers(a, creator) + OtherMembers(b, creator)
  {
    if a != [] {
      assert (a + b)[1..] == a[1..] + b;
      OtherMembersAppend(a[1..], b, creator);
    } else {
      assert a + b == b;
    }
  }

  /** No two listed ids share a string form (else the multi-row insert hits
      the unique key). */
  predicate DistinctKeys(list: seq<UserRef>)
  {
    forall i, j | 0 <= i < j < |list| :: Key(list[i]) != Key(list[j])
  }

  function KeysOf(list: seq<UserRef>): set<string>
  {
    set u | u in list :: Key(u)
  }

  /** The `member` rows built for the listed non-creator ids, in list order. */
  function MemberRowsFor(g: nat, others: seq<UserRef>): (rows: seq<MemberRow>)
  {
    seq(|others|, i requires 0 <= i < |others| => MemberRow(g, Key(others[i]), Member))
  }

  predicate DistinctRowKeys(rows: seq<MemberRow>)
  {
    forall i, j | 0 <= i < j < |rows| :: rows[i].Key() != rows[j].Key()
  }

  function RowKeys(rows: seq<MemberRow>): set<MemberKey>
  {
    set i | 0 <= i < |rows| :: rows[i].Key()
  }

  /** Rows that may all be inserted: pairwise distinct keys, none present yet. */
  predicate Insertable(members: Members, rows: seq<MemberRow>)
  {
    DistinctRowKeys(rows) && forall i | 0 <= i < |rows| :: rows[i].Key() !in members
  }

  lemma RowKeysSplit(rows: seq<MemberRow>)
    requires rows != []
    ensures RowKeys(rows) == {rows[0].Key()} + RowKeys(rows[1..])
  {
    forall k | k in RowKeys(rows) ensures k in {rows[0].Key()} + RowKeys(rows[1..]) {
      var i :| 0 <= i < |rows| && rows[i].Key() == k;
      if i > 0 { assert rows[1..][i - 1] == rows[i]; }
    }
    forall k | k in RowKeys(rows[1..]) ensures k in RowKeys(rows) {
      var i :| 0 <= i < |rows[1..]| && rows[1..][i].Key() == k;
      assert rows[i + 1] == rows[1..][i];
    }
  }

  /** Rows are insertable exactly when the first is absent and the rest are
      insertable once the first is in. */
  lemma InsertableSplit(members: Members, rows: seq<MemberRow>)
    requires rows != []
    ensures Insertable(members, rows) <==>
            rows[0].Key() !in members && Insertable(members[rows[0].Key() := rows[0].role], rows[1..])
  {
    var tail := rows[1..];
    var after := members[rows[0].Key() := rows[0].role];
    if Insertable(members, rows) {
      forall i, j | 0 <= i < j < |tail| ensures tail[i].Key() != tail[j].Key() {
        assert rows[i + 1] == tail[i] && rows[j + 1] == tail[j];
      }
      forall i | 0 <= i < |tail| ensures tail[i].Key() !in after {
        assert rows[i + 1] == tail[i];
      }
    }
    if rows[0].Key() !in members && Insertable(after, tail) {
      forall i, j | 0 <= i < j < |rows| ensures rows[i].Key() != rows[j].Key() {
        assert rows[j] == tail[j - 1];
        if i > 0 { assert rows[i] == tail[i - 1]; }
      }
      forall i | 0 <= i < |rows| ensures rows[i].Key() !in members {
        if i > 0 { assert rows[i] == tail[i - 1]; }
      }
    }
  }

  /** One multi-row `INSERT INTO group_members`: it fails as a whole (None)
      when a row's key is already present or two rows share a key, and
      otherwise adds every row. */
  function InsertRows(members: Members, rows: seq<MemberRow>): (r: Option<Members>)
    ensures r.Some? <==> Insertable(members, rows)
    ensures r.Some? ==> r.value.Keys == members.Keys + RowKeys(rows)
    ensures r.Some? ==> forall k | k in members :: r.value[k] == members[k]
    ensures r.Some? ==> forall i | 0 <= i < |rows| :: r.value[rows[i].Key()] == rows[i].role
    decreases |rows|
  {
    if rows == [] then Some(members)
    else
      InsertableSplit(members, rows);
      if rows[0].Key() in members then None
      else
        RowKeysSplit(rows);
        var rest := InsertRows(members[rows[0].Key() := rows[0].role], rows[1..]);
        assert rest.Some? ==> forall i | 0 < i < |rows| :: rows[i] == rows[1..][i - 1];
        rest
  }

  /** The memberships a new group `g` starts with: its creator as admin and
      every listed id, by string form, as member. */
  function FoundingMembers(g: nat, creator: string, list: seq<UserRef>): (r: Members)
    ensures forall k | k in r :: k.0 == g
    ensures MembersOf(r, g) == {creator} + KeysOf(list)
    ensures AdminsOf(r, g) == {creator}
  {
    var ks := {(g, creator)} + (set u | u in list :: (g, Key(u)));
    var r := map k | k in ks :: if k.1 == creator then Admin else Member;
    assert forall u | u in list :: (g, Key(u)) in ks;
    r
  }

  lemma RowsFor(g: nat, creator: string, others: seq<UserRef>, start: Members)
    requires forall u | u in others :: Key(u) != creator
    requires forall k | k in start :: k.0 != g || k.1 == creator
    ensures DistinctRowKeys(MemberRowsFor(g, others)) <==> DistinctKeys(others)
    ensures forall i | 0 <= i < |others| :: MemberRowsFor(g, others)[i].Key() !in start
    ensures RowKeys(MemberRowsFor(g, others)) == set u | u in others :: (g, Key(u))
  {
    var rows := MemberRowsFor(g, others);
    if DistinctKeys(others) {
      forall i, j | 0 <= i < j < |rows| ensures rows[i].Key() != rows[j].Key() {
        assert Key(others[i]) != Key(others[j]);
      }
    }
    if DistinctRowKeys(rows) {
      forall i, j | 0 <= i < j < |others| ensures Key(others[i]) != Key(others[j]) {
        assert rows[i].Key() != rows[j].Key();
      }
    }
    forall i | 0 <= i < |rows| ensures rows[i].Key() !in start {
      assert others[i] in others;
    }
    forall k | k in (set u | u in others :: (g, Key(u))) ensures k in RowKeys(rows) {
      var u :| u in others && k == (g, Key(u));
      var i :| 0 <= i < |others| && others[i] == u;
      assert rows[i].Key() == k;
    }
  }

  lemma MembersOfFounding(g: nat, creator: string, list: seq<UserRef>, k: MemberKey)
    requires k.0 == g
    ensures k in FoundingMembers(g, creator, list) <==>
            k.1 == creator || k in (set u | u in OtherMembers(list, creator) :: (g, Key(u)))
  {
    var f := FoundingMembers(g, creator, list);
    if k in f && k.1 != creator {
      assert k.1 in MembersOf(f, g);
      var u :| u in list && Key(u) == k.1;
      assert u in OtherMembers(list, creator);
    }
    if k in (set u | u in OtherMembers(list, creator) :: (g, Key(u))) {
      var u :| u in OtherMembers(list, creator) && k == (g, Key(u));
      assert k.1 in KeysOf(list);
      assert k.1 in MembersOf(f, g);
    }
  }

  /** The map the multi-row insert produced equals the founding memberships
      added to the old table. */
  lemma InsertedIsFounding(members: Members, g: nat, creator: string, list: seq<UserRef>, r: Members)
    requires forall k | k in members :: k.0 != g
    requires r.Keys == members.Keys + {(g, creator)} + (set u | u in OtherMembers(list, creator) :: (g, Key(u)))
    requires forall k | k in members :: r[k] == members[k]
    requires r[(g, creator)] == Admin
    requires forall k | k in r && k !in members && k != (g, creator) :: r[k] == Member
    ensures r == members + FoundingMembers(g, creator, list)
  {
    var want := members + FoundingMembers(g, creator, list);
    forall k | k in r ensures k in want && r[k] == want[k] {
      if k !in members {
        MembersOfFounding(g, creator, list, k);
      }
    }
    forall k | k in want ensures k in r {
      if k !in members {
        MembersOfFounding(g, creator, list, k);
      }
    }
  }

  /** Every key a multi-row insert of `member` rows added holds role member. */
  lemma NewRowsAreMembers(start: Members, rows: seq<MemberRow>, r: Members)
    requires InsertRows(start, rows) == Some(r)
    requires forall i | 0 <= i < |rows| :: rows[i].role == Member
    ensures forall k | k in r && k !in start :: r[k] == Member
  {
    forall k | k in r && k !in start ensures r[k] == Member {
      assert k in RowKeys(rows);
      var i :| 0 <= i < |rows| && rows[i].Key() == k;
    }
  }

  /** Inserting the creator's admin row and then the rows built from the
      filtered list into a store that has no row for `g` yet succeeds exactly
      when the filtered ids have distinct string forms, and then yields the
      founding memberships. */
  lemma FoundingByInserts(members: Members, g: nat, creator: string, list: seq<UserRef>)
    requires forall k | k in members :: k.0 != g
    ensures InsertRows(members[(g, creator) := Admin], MemberRowsFor(g, OtherMembers(list, creator))).Some?
            <==> DistinctKeys(OtherMembers(list, creator))
    ensures DistinctKeys(OtherMembers(list, creator)) ==>
            InsertRows(members[(g, creator) := Admin], MemberRowsFor(g, OtherMembers(list, creator)))
            == Some(members + FoundingMembers(g, creator, list))
  {
    var others := OtherMembers(list, creator);
    var start := members[(g, creator) := Admin];
    var rows := MemberRowsFor(g, others);
    RowsFor(g, creator, others, start);
    assert Insertable(start, rows) <==> DistinctKeys(others);
    if DistinctKeys(others) {
      var r := InsertRows(start, rows).value;
      NewRowsAreMembers(start, rows, r);
      assert start.Keys == members.Keys + {(g, creator)};
      assert r.Keys == start.Keys + RowKeys(rows);
      assert r.Keys == members.Keys + {(g, creator)} + (set u | u in others :: (g, Key(u)));
      InsertedIsFounding(members, g, creator, list, r);
    }
  }

  // ---------------------------------------------------------------------
  // DeleteGroup: dropping a group's rows

  /** `DELETE FROM group_members WHERE group_id = ?`: group `g` is left with
      no member, and every other group keeps its members and its admins. */
  function DropGroupMembers(members: Members, g: nat): (r: Members)
    ensures MembersOf(r, g) == {}
    ensures forall h | h != g :: MembersOf(r, h) == MembersOf(members, h)
    ensures forall h | h != g :: AdminsOf(r, h) == AdminsOf(members, h)
  {
    map k | k in members && k.0 != g :: members[k]
  }

  /** The media rows `WHERE group_id = ?` selects. */
  function MediaOfGroup(media: Media, g: nat): (ids: set<nat>)
  {
    set id | id in media && media[id].groupId == g
  }

  /** `DELETE FROM media WHERE group_id = ?`: group `g` is left with no media,
      every other group keeps its media, and no remaining row changes. */
  function DropGroupMedia(media: Media, g: nat): (r: Media)
    ensures MediaOfGroup(r, g) == {}
    ensures forall h | h != g :: MediaOfGroup(r, h) == MediaOfGroup(media, h)
    ensures forall id | id in r :: id in media && r[id] == media[id]
  {
    map id | id in media && media[id].groupId != g :: media[id]
  }

  // ---------------------------------------------------------------------
  // The invariant under each change

  lemma {:induction false} TwoAdminsSurviveOneRemoval(admins: set<string>, u: string)
    requires |admins| >= 2
    ensures admins - {u} != {}
  {
    if u in admins {
      assert |admins - {u}| == |admins| - 1;
    } else {
      assert admins - {u} == admins;
    }
    assert |admins - {u}| > 0;
  }

  lemma {:induction false} OnlyMember(us: set<string>, u: string)
    requires u in us && |us| <= 1
    ensures us == {u}
  {
    assert |us - {u}| == |us| - 1;
    assert us - {u} == {};
  }

  /** Deleting membership (g, u) keeps every non-empty group administered
      when some other admin of `g` remains or `u` was the group's only member. */
  lemma RemovalKeepsAdmin(members: Members, g: nat, u: string)
    requires EveryNonEmptyGroupHasAdmin(members)
    requires AdminsOf(members, g) - {u} != {} || MembersOf(members, g) <= {u}
    ensures EveryNonEmptyGroupHasAdmin(members - {(g, u)})
  {
    var after := members - {(g, u)};
    forall k | k in after ensures AdminsOf(after, k.0) != {} {
      if k.0 == g {
        assert k.1 in MembersOf(members, g) && k.1 != u;
        var a :| a in AdminsOf(members, g) - {u};
        assert a in AdminsOf(after, g);
      } else {
        var a :| a in AdminsOf(members, k.0);
        assert a in AdminsOf(after, k.0);
      }
    }
  }

  /** The LeaveGroup guard: unless the leaver is the only admin of a group
      with more than one member, leaving keeps every non-empty group administered. */
  lemma LeaveKeepsAdmin(members: Members, g: nat, u: string)
    requires EveryNonEmptyGroupHasAdmin(members) && (g, u) in members
    requires !(members[(g, u)] == Admin && |AdminsOf(members, g)| == 1 && |MembersOf(members, g)| > 1)
    ensures EveryNonEmptyGroupHasAdmin(members - {(g, u)})
  {
    var admins := AdminsOf(members, g);
    assert admins != {};
    if members[(g, u)] == Member {
      var a :| a in admins;
      assert a != u;
    } else if |admins| != 1 {
      assert |admins| >= 2;
      TwoAdminsSurviveOneRemoval(admins, u);
    } else {
      OnlyMember(MembersOf(members, g), u);
    }
    RemovalKeepsAdmin(members, g, u);
  }

  /** The RemoveMember guard: an admin may remove anyone but themselves, and
      themselves only while another admin exists. */
  lemma RemoveKeepsAdmin(members: Members, g: nat, caller: string, target: string)
    requires EveryNonEmptyGroupHasAdmin(members)
    requires (g, caller) in members && members[(g, caller)] == Admin
    requires caller == target ==> |AdminsOf(members, g)| > 1
    ensures EveryNonEmptyGroupHasAdmin(members - {(g, target)})
  {
    if caller == target {
      TwoAdminsSurviveOneRemoval(AdminsOf(members, g), target);
    } else {
      assert caller in AdminsOf(members, g) - {target};
    }
    RemovalKeepsAdmin(members, g, target);
  }

  /** Adding a `member` row to a group that has an admin keeps the store consistent. */
  lemma AdditionKeepsConsistent(groups: Groups, members: Members, media: Media, g: nat, u: string)
    requires Consistent(groups, members, media)
    requires g in groups && (g, u) !in members && AdminsOf(members, g) != {}
    ensures Consistent(groups, members[(g, u) := Member], media)
  {
    var after := members[(g, u) := Member];
    forall k | k in after ensures AdminsOf(after, k.0) != {} {
      var a :| a in AdminsOf(members, if k == (g, u) then g else k.0);
      assert a in AdminsOf(after, k.0);
    }
  }

  /** Creating a group with its founding memberships keeps the store consistent. */
  lemma FoundingKeepsConsistent(groups: Groups, members: Members, media: Media,
                                g: nat, row: GroupRow, creator: string, list: seq<UserRef>)
    requires Consistent(groups, members, media) && g !in groups
    ensures Consistent(groups[g := row], members + FoundingMembers(g, creator, list), media)
  {
    var f := FoundingMembers(g, creator, list);
    var after := members + f;
    forall k | k in after ensures AdminsOf(after, k.0) != {} {
      if k.0 == g {
        assert creator in AdminsOf(f, g);
        assert creator in AdminsOf(after, g);
      } else {
        assert k in members;
        var a :| a in AdminsOf(members, k.0);
        assert (k.0, a) !in f;
        assert a in AdminsOf(after, k.0);
      }
    }
  }

  /** Dropping a group with all its memberships and media keeps the store
      consistent, and no row of another group is touched. */
  lemma DeletionKeepsConsistent(groups: Groups, members: Members, media: Media, g: nat)
    requires Consistent(groups, members, media)
    ensures Consistent(groups - {g}, DropGroupMembers(members, g), DropGroupMedia(media, g))
  {
    var after := DropGroupMembers(members, g);
    forall k | k in after ensures AdminsOf(after, k.0) != {} {
      var a :| a in AdminsOf(members, k.0);
      assert a in AdminsOf(after, k.0);
    }
  }
}
