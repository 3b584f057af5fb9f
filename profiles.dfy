/** User profiles: the upsert by userId and the account/profile merge (database.ts:665-717). */
module Profiles {
  import opened Tables
  import opened Records

  predicate HasProfile(rows: seq<Row<Profile>>, userId: int)
  {
    exists i :: 0 <= i < |rows| && rows[i].val.userId == userId
  }

  /** Exactly one row belongs to `p.userId`, and it holds the fields of `p`. */
  predicate ExactlyOne(rows: seq<Row<Profile>>, p: Profile)
  {
    exists k :: 0 <= k < |rows| && rows[k].val == p &&
      forall i :: 0 <= i < |rows| && rows[i].val.userId == p.userId ==> i == k
  }

  /** `UPDATE userProfiles SET fullName, phone, email, address WHERE userId = ?`. */
  function SetFields(rows: seq<Row<Profile>>, p: Profile): (r: seq<Row<Profile>>)
    ensures |r| == |rows|
    ensures forall i :: 0 <= i < |rows| ==> r[i].id == rows[i].id && r[i].val.userId == rows[i].val.userId
    ensures forall i :: 0 <= i < |rows| ==> r[i].val == if rows[i].val.userId == p.userId then p else rows[i].val
  {
    seq(|rows|, i requires 0 <= i < |rows| =>
      if rows[i].val.userId == p.userId then Row(rows[i].id, p) else rows[i])
  }

  /** updateUserProfile: update the user's row when one exists, insert one otherwise. Afterwards
      exactly one row belongs to the user and holds the new fields; other users' rows are as
      they were. */
  function UpdateUserProfile(t: Table<Profile>, p: Profile): (r: Table<Profile>)
    requires WellFormed(t) && DistinctProfileUsers(t.rows)
    ensures WellFormed(r) && DistinctProfileUsers(r.rows)
    ensures ExactlyOne(r.rows, p)
    ensures HasProfile(t.rows, p.userId) ==>
              r.lastId == t.lastId && |r.rows| == |t.rows| &&
              forall i :: 0 <= i < |t.rows| ==>
                r.rows[i].id == t.rows[i].id &&
                (t.rows[i].val.userId != p.userId ==> r.rows[i] == t.rows[i])
    ensures !HasProfile(t.rows, p.userId) ==>
              r.rows == t.rows + [Row(r.lastId, p)] && r.lastId == t.lastId + 1 && !HasId(t.rows, r.lastId)
  {
    if HasProfile(t.rows, p.userId) then
      var r := SetFields(t.rows, p);
      var k :| 0 <= k < |t.rows| && t.rows[k].val.userId == p.userId;
      assert r[k].val == p;
      Table(r, t.lastId)
    else
      var r := Insert(t, p);
      assert r.rows[|t.rows|].val == p;
      r
  }

  /** A second call for the same user updates the row the first call left, in place: same id,
      no row added, the latest fields win. */
  lemma UpsertTwiceUpdatesInPlace(t: Table<Profile>, first: Profile, second: Profile, k: nat)
    requires WellFormed(t) && DistinctProfileUsers(t.rows)
    requires first.userId == second.userId
    requires var t1 := UpdateUserProfile(t, first); k < |t1.rows| && t1.rows[k].val.userId == first.userId
    ensures var t1 := UpdateUserProfile(t, first);
            var t2 := UpdateUserProfile(t1, second);
            |t2.rows| == |t1.rows| && t2.lastId == t1.lastId &&
            t2.rows[k] == Row(t1.rows[k].id, second) && ExactlyOne(t2.rows, second)
  {
    var t1 := UpdateUserProfile(t, first);
    assert HasProfile(t1.rows, second.userId);
    var t2 := UpdateUserProfile(t1, second);
    var j :| 0 <= j < |t2.rows| && t2.rows[j].val == second &&
      forall i :: 0 <= i < |t2.rows| && t2.rows[i].val.userId == second.userId ==> i == j;
    assert t2.rows[k].val.userId == second.userId;
  }

  /** `SELECT * FROM userProfiles WHERE userId = ?` followed by `rows.item(0)`. */
  function ProfileOf(rows: seq<Row<Profile>>, userId: int): (r: Option<Row<Profile>>)
    ensures r.Some? ==> r.value in rows && r.value.val.userId == userId
    ensures r.None? <==> !HasProfile(rows, userId)
  {
    if rows == [] then None
    else if rows[0].val.userId == userId then Some(rows[0])
    else
      var r := ProfileOf(rows[1..], userId);
      assert forall i :: 1 <= i < |rows| ==> rows[i] == rows[1..][i - 1];
      r
  }

  /** The object getUserProfile returns: the account's columns, overlaid by the profile's
      columns when there is a profile (absent ones as None). */
  datatype ProfileView = ProfileView(
    id: int, username: string, password: string, role: string,
    userId: Option<int>, fullName: Option<string>, phone: Option<string>,
    email: Option<string>, address: Option<string>)

  /** `{ ...user, ...profile }`: every column of the profile wins, its own `id` included. */
  function Merge(u: Row<User>, p: Option<Row<Profile>>): (r: ProfileView)
    ensures r.username == u.val.username && r.password == u.val.password && r.role == u.val.role
    ensures p.None? ==> r.id == u.id && r.userId == None && r.fullName == None &&
                        r.phone == None && r.email == None && r.address == None
    ensures p.Some? ==> r.id == p.value.id && r.userId == Some(p.value.val.userId) &&
                        r.fullName == Some(p.value.val.fullName) && r.phone == Some(p.value.val.phone) &&
                        r.email == Some(p.value.val.email) && r.address == Some(p.value.val.address)
  {
    match p
    case None =>
      ProfileView(u.id, u.val.username, u.val.password, u.val.role, None, None, None, None, None)
    case Some(q) =>
      ProfileView(q.id, u.val.username, u.val.password, u.val.role, Some(q.val.userId),
                  Some(q.val.fullName), Some(q.val.phone), Some(q.val.email), Some(q.val.address))
  }

  /** getUserProfile: null for an unknown account; otherwise the account merged with its profile,
      whose `id` is then the profile row's id rather than the account's. */
  function GetUserProfile(users: seq<Row<User>>, profiles: seq<Row<Profile>>, userId: int)
    : (r: Option<ProfileView>)
    ensures r.None? <==> !HasId(users, userId)
    ensures r.Some? ==>
              exists u :: u in users && u.id == userId && r.value.username == u.val.username &&
                          r.value.password == u.val.password && r.value.role == u.val.role
    ensures r.Some? && HasProfile(profiles, userId) ==>
              exists q :: q in profiles && q.val.userId == userId && r.value.id == q.id &&
                          r.value.userId == Some(userId) &&
                          r.value.fullName == Some(q.val.fullName) && r.value.phone == Some(q.val.phone) &&
                          r.value.email == Some(q.val.email) && r.value.address == Some(q.val.address)
    ensures r.Some? && !HasProfile(profiles, userId) ==>
              r.value.id == userId && r.value.userId == None && r.value.fullName == None &&
              r.value.phone == None && r.value.email == None && r.value.address == None
  {
    match Get(users, userId)
    case None => None
    case Some(u) => Some(Merge(u, ProfileOf(profiles, userId)))
  }

  /** The profile screen saves with the `id` of the merged object. Once a profile exists whose
      row id is not the account id, that save writes another account's profile: here account 2
      saves, the merged id is 1, and the new fields land on account 1 while account 2's profile
      keeps its old address. */
  lemma MergedIdSavesOtherProfile()
    ensures var users := [Row(1, User("admin", "123456", "admin")), Row(2, User("an", "pw", "user"))];
            var profiles := Table([Row(1, Profile(2, "An", "090", "an@x", "Hue"))], 1);
            var view := GetUserProfile(users, profiles.rows, 2).value;
            var saved := UpdateUserProfile(profiles, Profile(view.id, "An", "090", "an@x", "Hanoi"));
            view.id == 1 &&
            saved.rows == [Row(1, Profile(2, "An", "090", "an@x", "Hue")),
                           Row(2, Profile(1, "An", "090", "an@x", "Hanoi"))]
  {
    var profiles := Table([Row(1, Profile(2, "An", "090", "an@x", "Hue"))], 1);
    assert !HasProfile(profiles.rows, 1);
  }

  /** The merge the profile screen relies on: the profile's columns overlay the account's, but
      the result keeps the account's id. */
  function GetUserProfileKeepingId(users: seq<Row<User>>, profiles: seq<Row<Profile>>, userId: int)
    : (r: Option<ProfileView>)
    ensures r.None? <==> !HasId(users, userId)
    ensures r.Some? ==> r.value.id == userId
    ensures r.Some? ==> r == Some(GetUserProfile(users, profiles, userId).value.(id := userId))
  {
    match GetUserProfile(users, profiles, userId)
    case None => None
    case Some(v) => Some(v.(id := userId))
  }

  /** With the corrected merge, saving through the returned id always writes the account's own
      profile: afterwards that account has exactly one profile, holding the saved fields. */
  lemma KeepingIdSavesOwnProfile(users: seq<Row<User>>, profiles: Table<Profile>, userId: int,
                                 fullName: string, phone: string, email: string, address: string)
    requires WellFormed(profiles) && DistinctProfileUsers(profiles.rows)
    requires HasId(users, userId)
    ensures var view := GetUserProfileKeepingId(users, profiles.rows, userId).value;
            var saved := UpdateUserProfile(profiles, Profile(view.id, fullName, phone, email, address));
            ExactlyOne(saved.rows, Profile(userId, fullName, phone, email, address))
  {
  }
}
