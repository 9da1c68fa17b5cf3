/** The read-only handlers: GET /groups, GET /groups/:id, GET /media/:groupId
    and GET /media/download/:mediaId, as functions of the tables. */
module Queries {
  import opened Basics
  import opened Tables

  /** Which statement of GET /groups/:id reports a database error, if any. */
  datatype DetailFault = DetailNoFault | DetailMemberReadFails | GroupReadFails | DetailMembersReadFails

  /** Which statement of GET /media/:groupId reports a database error, if any. */
  datatype ListMediaFault = ListMediaNoFault | ListMemberReadFails | MediaReadFails

  datatype GroupListing = GroupListing(id: nat, name: string, description: Option<string>)

  datatype GroupDetail = GroupDetail(id: nat, name: string, description: Option<string>, members: map<string, Role>)

  datatype MediaListing = MediaListing(id: nat, fileName: string, fileType: string)

  datatype DownloadTarget = DownloadTarget(filePath: string, fileName: string)

  /** Descending from any element of `s` reaches a least one. */
  lemma {:induction false} MinBelow(s: set<nat>, n: nat)
    requires n in s
    ensures exists m :: m in s && forall x | x in s :: m <= x
    decreases n
  {
    if x :| x in s && x < n {
      MinBelow(s, x);
    } else {
      assert forall x | x in s :: n <= x;
    }
  }

  function Min(s: set<nat>): (m: nat)
    requires s != {}
    ensures m in s && forall x | x in s :: m <= x
  {
    var y :| y in s;
    MinBelow(s, y);
    var m :| m in s && forall x | x in s :: m <= x;
    m
  }

  lemma PrependLeast(m: nat, rest: seq<nat>)
    requires forall x | x in rest :: m < x
    requires forall i, j | 0 <= i < j < |rest| :: rest[i] < rest[j]
    ensures forall i, j | 0 <= i < j < |[m] + rest| :: ([m] + rest)[i] < ([m] + rest)[j]
  {
    var r := [m] + rest;
    forall i, j | 0 <= i < j < |r| ensures r[i] < r[j] {
      assert r[j] == rest[j - 1];
      if i > 0 {
        assert r[i] == rest[i - 1];
      } else {
        assert rest[j - 1] in rest;
      }
    }
  }

  /** The ids of `s` in ascending order, each once.  The queries use it to
      turn a set of row ids into a result array; the handlers have no ORDER BY,
      so callers may rely only on contents and uniqueness. */
  function SortedIds(s: set<nat>): (r: seq<nat>)
    ensures |r| == |s|
    ensures forall x :: x in r <==> x in s
    ensures forall i, j | 0 <= i < j < |r| :: r[i] < r[j]
    decreases |s|
  {
    if s == {} then []
    else
      var m := Min(s);
      var rest := SortedIds(s - {m});
      PrependLeast(m, rest);
      [m] + rest
  }

  /** The groups the JOIN of `groups` with `group_members` yields for `user`. */
  function GroupsOf(groups: Groups, members: Members, user: string): (gs: set<nat>)
  {
    set g | g in groups && (g, user) in members
  }

  function GroupListings(groups: Groups, ids: seq<nat>): (rows: seq<GroupListing>)
    requires forall i | 0 <= i < |ids| :: ids[i] in groups
  {
    seq(|ids|, i requires 0 <= i < |ids| => GroupListing(ids[i], groups[ids[i]].name, groups[ids[i]].description))
  }

  lemma IdsAreGroups(groups: Groups, members: Members, user: string, ids: seq<nat>)
    requires ids == SortedIds(GroupsOf(groups, members, user))
    ensures forall i | 0 <= i < |ids| :: ids[i] in groups && (ids[i], user) in members
  {
    forall i | 0 <= i < |ids| ensures ids[i] in groups && (ids[i], user) in members {
      assert ids[i] in ids;
    }
  }

  lemma GroupListingsCover(groups: Groups, members: Members, user: string, ids: seq<nat>, rows: seq<GroupListing>)
    requires ids == SortedIds(GroupsOf(groups, members, user))
    requires forall i | 0 <= i < |ids| :: ids[i] in groups
    requires rows == GroupListings(groups, ids)
    ensures forall g | g in groups && (g, user) in members :: exists i | 0 <= i < |rows| :: rows[i].id == g
  {
    forall g | g in groups && (g, user) in members ensures exists i | 0 <= i < |rows| :: rows[i].id == g {
      assert g in ids;
      var i :| 0 <= i < |ids| && ids[i] == g;
      assert rows[i].id == g;
    }
  }

  /** GET /groups: one row per group the caller holds a membership in. */
  function ListGroups(groups: Groups, members: Members, caller: UserRef, failed: bool): (r: Reply<seq<GroupListing>>)
    ensures r.Failure? <==> failed
    ensures r.Failure? ==> r.status == Internal
    ensures r.Success? ==> forall i | 0 <= i < |r.value| ::
              var id := r.value[i].id;
              id in groups && (id, Key(caller)) in members &&
              r.value[i] == GroupListing(id, groups[id].name, groups[id].description)
    ensures r.Success? ==> forall g | g in groups && (g, Key(caller)) in members ::
              exists i | 0 <= i < |r.value| :: r.value[i].id == g
    ensures r.Success? ==> forall i, j | 0 <= i < j < |r.value| :: r.value[i].id != r.value[j].id
  {
    if failed then Failure(Internal)
    else
      var ids := SortedIds(GroupsOf(groups, members, Key(caller)));
      IdsAreGroups(groups, members, Key(caller), ids);
      var rows := GroupListings(groups, ids);
      GroupListingsCover(groups, members, Key(caller), ids, rows);
      Success(rows)
  }

  /** GET /groups/:id: members only; the group row and its full member list
      with roles. */
  function GetGroupDetail(groups: Groups, members: Members, caller: UserRef, g: nat, fail: DetailFault): (r: Reply<GroupDetail>)
    ensures fail.DetailMemberReadFails? ==> r == Failure(Internal)
    ensures r == Failure(Forbidden) <==> !fail.DetailMemberReadFails? && (g, Key(caller)) !in members
    ensures r == Failure(NotFound) <==>
            !fail.DetailMemberReadFails? && !fail.GroupReadFails? && (g, Key(caller)) in members && g !in groups
    ensures r.Success? <==> fail.DetailNoFault? && (g, Key(caller)) in members && g in groups
    ensures r.Failure? ==> r.status in {Internal, Forbidden, NotFound}
    ensures r.Success? ==>
              r.value.id == g && r.value.name == groups[g].name && r.value.description == groups[g].description &&
              r.value.members.Keys == MembersOf(members, g) &&
              forall u | u in r.value.members :: r.value.members[u] == members[(g, u)]
  {
    if fail.DetailMemberReadFails? then Failure(Internal)
    else if (g, Key(caller)) !in members then Failure(Forbidden)
    else if fail.GroupReadFails? then Failure(Internal)
    else if g !in groups then Failure(NotFound)
    else if fail.DetailMembersReadFails? then Failure(Internal)
    else
      var roster := map u | u in MembersOf(members, g) :: members[(g, u)];
      Success(GroupDetail(g, groups[g].name, groups[g].description, roster))
  }

  /** In a store where every membership points at an existing group, the
      "group not found" answer of the detail handler never happens. */
  lemma {:induction false} DetailNeverNotFound(groups: Groups, members: Members, caller: UserRef, g: nat, fail: DetailFault)
    requires MembersReferToGroups(groups, members)
    ensures GetGroupDetail(groups, members, caller, g, fail) != Failure(NotFound)
  {
    if (g, Key(caller)) in members {
      assert g in groups;
    }
  }

  function MediaListings(media: Media, ids: seq<nat>): (rows: seq<MediaListing>)
    requires forall i | 0 <= i < |ids| :: ids[i] in media
  {
    seq(|ids|, i requires 0 <= i < |ids| => MediaListing(ids[i], media[ids[i]].fileName, media[ids[i]].fileType))
  }

  lemma IdsAreMedia(media: Media, g: nat, ids: seq<nat>)
    requires ids == SortedIds(MediaOfGroup(media, g))
    ensures forall i | 0 <= i < |ids| :: ids[i] in media && media[ids[i]].groupId == g
  {
    forall i | 0 <= i < |ids| ensures ids[i] in media && media[ids[i]].groupId == g {
      assert ids[i] in ids;
    }
  }

  lemma MediaListingsSound(media: Media, g: nat, ids: seq<nat>, rows: seq<MediaListing>)
    requires forall i | 0 <= i < |ids| :: ids[i] in media && media[ids[i]].groupId == g
    requires forall i, j | 0 <= i < j < |ids| :: ids[i] < ids[j]
    requires rows == MediaListings(media, ids)
    ensures forall i | 0 <= i < |rows| ::
              rows[i].id in media && media[rows[i].id].groupId == g &&
              rows[i] == MediaListing(rows[i].id, media[rows[i].id].fileName, media[rows[i].id].fileType)
    ensures forall i, j | 0 <= i < j < |rows| :: rows[i].id != rows[j].id
  {
    forall i, j | 0 <= i < j < |rows| ensures rows[i].id != rows[j].id {
      assert rows[i].id == ids[i] && rows[j].id == ids[j];
    }
  }

  lemma MediaListingsCover(media: Media, g: nat, ids: seq<nat>, rows: seq<MediaListing>)
    requires ids == SortedIds(MediaOfGroup(media, g))
    requires forall i | 0 <= i < |ids| :: ids[i] in media
    requires rows == MediaListings(media, ids)
    ensures forall id | id in media && media[id].groupId == g :: exists i | 0 <= i < |rows| :: rows[i].id == id
  {
    forall id | id in media && media[id].groupId == g ensures exists i | 0 <= i < |rows| :: rows[i].id == id {
      assert id in ids;
      var i :| 0 <= i < |ids| && ids[i] == id;
      assert rows[i].id == id;
    }
  }

  /** The rows of `SELECT ... FROM media WHERE group_id = ?`. */
  function MediaRowsOf(media: Media, g: nat): (rows: seq<MediaListing>)
    ensures forall i | 0 <= i < |rows| ::
              rows[i].id in media && media[rows[i].id].groupId == g &&
              rows[i] == MediaListing(rows[i].id, media[rows[i].id].fileName, media[rows[i].id].fileType)
    ensures forall id | id in media && media[id].groupId == g :: exists i | 0 <= i < |rows| :: rows[i].id == id
    ensures forall i, j | 0 <= i < j < |rows| :: rows[i].id != rows[j].id
  {
    var ids := SortedIds(MediaOfGroup(media, g));
    IdsAreMedia(media, g, ids);
    var rows := MediaListings(media, ids);
    MediaListingsSound(media, g, ids, rows);
    MediaListingsCover(media, g, ids, rows);
    rows
  }

  /** GET /media/:groupId: members only; every media row of the group. */
  function ListMedia(members: Members, media: Media, caller: UserRef, g: nat, fail: ListMediaFault): (r: Reply<seq<MediaListing>>)
    ensures fail.ListMemberReadFails? ==> r == Failure(Internal)
    ensures r == Failure(Forbidden) <==> !fail.ListMemberReadFails? && (g, Key(caller)) !in members
    ensures r.Success? <==> fail.ListMediaNoFault? && (g, Key(caller)) in members
    ensures r.Failure? ==> r.status in {Internal, Forbidden}
    ensures r.Success? ==> forall i | 0 <= i < |r.value| ::
              var id := r.value[i].id;
              id in media && media[id].groupId == g &&
              r.value[i] == MediaListing(id, media[id].fileName, media[id].fileType)
    ensures r.Success? ==> forall id | id in media && media[id].groupId == g ::
              exists i | 0 <= i < |r.value| :: r.value[i].id == id
    ensures r.Success? ==> forall i, j | 0 <= i < j < |r.value| :: r.value[i].id != r.value[j].id
  {
    if fail.ListMemberReadFails? then Failure(Internal)
    else if (g, Key(caller)) !in members then Failure(Forbidden)
    else if fail.MediaReadFails? then Failure(Internal)
    else Success(MediaRowsOf(media, g))
  }

  /** GET /media/download/:mediaId: the stored path and name, only for a
      member of the media's group; a missing row and a non-member both get 403. */
  function Download(members: Members, media: Media, caller: UserRef, mediaId: nat, failed: bool): (r: Reply<DownloadTarget>)
    ensures r.Success? <==> !failed && mediaId in media && (media[mediaId].groupId, Key(caller)) in members
    ensures r.Success? ==> r.value == DownloadTarget(media[mediaId].filePath, media[mediaId].fileName)
    ensures r.Failure? ==> r.status == (if failed then Internal else Forbidden)
  {
    if failed then Failure(Internal)
    else if mediaId in media && (media[mediaId].groupId, Key(caller)) in members then
      Success(DownloadTarget(media[mediaId].filePath, media[mediaId].fileName))
    else Failure(Forbidden)
  }
}
