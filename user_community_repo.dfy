/**
 * The `user_communities` collection. Its unique index on (uid, cid) is the store
 * invariant `PairsUnique`: an insert that would break it fails as a duplicate key.
 */
module UserCommunityRepo {
  import opened Wrappers
  import opened ObjectIds
  import opened Documents
  import opened UserCommunityModel
  import opened Database

  /** `is_member`: both ids valid and a record for the pair exists. */
  function IsMember(db: Store, uid: Id, cid: Id): (b: bool)
    reads db`memberships
    ensures b <==> IsValidId(uid) && IsValidId(cid) && HasPair(db.memberships, uid, cid)
  {
    if !IsValidId(uid) || !IsValidId(cid) then false
    else
      var found := Where(db.memberships, KeyIs(PairOf, (uid, cid)));
      KeyFilters<Membership, (Id, Id)>(PairOf, (uid, cid));
      assert found != [] ==> found[0] in found;
      |found| > 0
  }

  /**
   * Records that `uid` joined `cid` at `now` with `role`. None for an invalid id, for a
   * pair that already has a record (the unique index refuses it) and when no id is left.
   */
  method JoinCommunity(db: Store, uid: Id, cid: Id, now: Time, role: MemberRole := Member) returns (r: Option<Membership>)
    requires db.Valid()
    modifies db`memberships, db`nextId
    ensures db.Valid()
    ensures r.Some? <==> IsValidId(uid) && IsValidId(cid) && !HasPair(old(db.memberships), uid, cid) && old(db.nextId) < IdSpace
    ensures r.Some? ==> r.value.data == MembershipData(uid, cid, now, role) && r.value.id !in IdsOf(old(db.memberships))
    ensures r.Some? ==> db.memberships == old(db.memberships) + [r.value] && IsMember(db, uid, cid)
    ensures r.Some? ==> db.nextId == old(db.nextId) + 1
    ensures r.None? ==> db.memberships == old(db.memberships) && db.nextId == old(db.nextId)
  {
    if !IsValidId(uid) || !IsValidId(cid) || HasPair(db.memberships, uid, cid) {
      return None;
    }
    ghost var n := db.nextId;
    var data := MembershipData(uid, cid, now, role);
    var id := db.AllocateId();
    if id.None? {
      return None;
    }
    FreshIdUnused(db.memberships, n, data);
    var m := Doc(id.value, data);
    AppendKeepsKeysDistinct(db.memberships, m, PairOf);
    db.memberships := db.memberships + [m];
    r := Some(m);
  }

  /** Removes the record of the pair; true iff there was one. */
  method LeaveCommunity(db: Store, uid: Id, cid: Id) returns (left: bool)
    requires db.Valid()
    modifies db`memberships
    ensures db.Valid()
    ensures left <==> IsValidId(uid) && IsValidId(cid) && HasPair(old(db.memberships), uid, cid)
    ensures !IsMember(db, uid, cid)
    ensures forall m :: m in db.memberships <==> m in old(db.memberships) && (!IsValidId(uid) || !IsValidId(cid) || PairOf(m) != (uid, cid))
    ensures |db.memberships| == |old(db.memberships)| - if left then 1 else 0
  {
    if !IsValidId(uid) || !IsValidId(cid) {
      return false;
    }
    var before := |db.memberships|;
    var rest := Where(db.memberships, KeyIsNot(PairOf, (uid, cid)));
    KeyFilters<Membership, (Id, Id)>(PairOf, (uid, cid));
    DeleteByKeyCount(db.memberships, PairOf, (uid, cid));
    WhereKeepsKeyed(db.memberships, KeyIsNot(PairOf, (uid, cid)), db.nextId);
    WhereKeepsKeysDistinct(db.memberships, KeyIsNot(PairOf, (uid, cid)), PairOf);
    db.memberships := rest;
    left := |db.memberships| == before - 1;
  }

  /** The records of community `cid`; none for an invalid id. */
  function MembersOfCommunity(db: Store, cid: Id): (r: seq<Membership>)
    reads db`memberships
    ensures !IsValidId(cid) ==> r == []
    ensures forall m :: m in r ==> m in db.memberships && m.data.cid == cid
    ensures IsValidId(cid) ==> forall m :: m in db.memberships && m.data.cid == cid ==> m in r
    ensures multiset(r) <= multiset(db.memberships)
  {
    if !IsValidId(cid) then []
    else
      KeyFilters<Membership, Id>(MembershipCid, cid);
      Where(db.memberships, KeyIs(MembershipCid, cid))
  }

  /** The records of user `uid`; none for an invalid id. */
  function CommunitiesForUser(db: Store, uid: Id): (r: seq<Membership>)
    reads db`memberships
    ensures !IsValidId(uid) ==> r == []
    ensures forall m :: m in r ==> m in db.memberships && m.data.uid == uid
    ensures IsValidId(uid) ==> forall m :: m in db.memberships && m.data.uid == uid ==> m in r
    ensures multiset(r) <= multiset(db.memberships)
  {
    if !IsValidId(uid) then []
    else
      KeyFilters<Membership, Id>(MembershipUid, uid);
      Where(db.memberships, KeyIs(MembershipUid, uid))
  }
}
