/**
 * The community lifecycle: creation is gated on the owner existing and joins the owner;
 * update and delete are reserved to the owner; delete cascades to the community's
 * memberships and messages.
 */
module CommunityService {
  import opened Wrappers
  import opened ObjectIds
  import opened Documents
  import opened CommunityModel
  import opened UserCommunityModel
  import opened MessageModel
  import opened Database
  import opened Failures
  import UserRepo
  import CommunityRepo
  import UserCommunityRepo

  method CreateCommunity(db: Store, payload: CommunityData, now: Time) returns (r: Result<Community, Failure>)
    requires db.Valid()
    modifies db`communities, db`memberships, db`nextId
    ensures db.Valid()
    ensures r == Err(OwnerDoesNotExist) <==> old(UserRepo.GetUserById(db, payload.owner)).None?
    ensures r == Err(StoreFailure) <==> old(UserRepo.GetUserById(db, payload.owner)).Some? && old(db.nextId) == IdSpace
    ensures r.Ok? <==> old(UserRepo.GetUserById(db, payload.owner)).Some? && old(db.nextId) < IdSpace
    ensures r.Err? ==> db.communities == old(db.communities) && db.memberships == old(db.memberships) && db.nextId == old(db.nextId)
    ensures r.Ok? ==> r.value.data == payload && r.value.id !in IdsOf(old(db.communities))
    ensures r.Ok? ==> db.communities == old(db.communities) + [r.value]
    // one id for the community and one more when the owner's membership was recorded
    ensures r.Ok? ==> db.nextId == old(db.nextId) + 1 + (|db.memberships| - |old(db.memberships)|)
    // the owner's membership is attempted; the community is returned whether or not it was recorded
    ensures r.Ok? ==> |old(db.memberships)| <= |db.memberships| <= |old(db.memberships)| + 1
    ensures r.Ok? ==> db.memberships[..|old(db.memberships)|] == old(db.memberships)
    ensures r.Ok? && |db.memberships| > |old(db.memberships)| ==>
              db.memberships[|old(db.memberships)|].data == MembershipData(payload.owner, r.value.id, now, Owner)
    ensures r.Ok? && !HasPair(old(db.memberships), payload.owner, r.value.id) && old(db.nextId) + 1 < IdSpace ==>
              UserCommunityRepo.IsMember(db, payload.owner, r.value.id)
  {
    var owner := UserRepo.GetUserById(db, payload.owner);
    if owner.None? {
      return Err(OwnerDoesNotExist);
    }
    var community := CommunityRepo.CreateCommunity(db, payload);
    if community.None? {
      return Err(StoreFailure);
    }
    var _ := UserCommunityRepo.JoinCommunity(db, payload.owner, community.value.id, now, Owner);
    r := Ok(community.value);
  }

  function GetCommunity(db: Store, cid: Id): (r: Option<Community>)
    reads db`communities
    ensures r.Some? <==> HasId(db.communities, cid)
    ensures r.Some? ==> IsValidId(cid) && r.value in db.communities && r.value.id == Canonical(cid)
  {
    CommunityRepo.GetCommunityById(db, cid)
  }

  /** The entries of an update that may change a community: `name` and `description`. */
  function AllowedFields(update: map<string, string>): (allowed: map<string, string>)
    ensures forall k :: k in allowed <==> k in update && (k == "name" || k == "description")
    ensures forall k :: k in allowed ==> allowed[k] == update[k]
  {
    map k | k in update && (k == "name" || k == "description") :: update[k]
  }

  /** The merge an allowed update makes, with the refreshed `updated_at`. */
  function AllowedPatch(allowed: map<string, string>, now: Time): (p: CommunityPatch)
    // applied to any community, it sets exactly the supplied name and description and the
    // update time, and leaves the owner, creation time and moderators alone
    ensures forall c :: ApplyCommunityPatch(c, p) ==
              c.(name := if "name" in allowed then allowed["name"] else c.name,
                 description := if "description" in allowed then Some(allowed["description"]) else c.description,
                 updatedAt := Some(now))
  {
    CommunityPatch(
      if "name" in allowed then Some(allowed["name"]) else None,
      if "description" in allowed then Some(allowed["description"]) else None,
      None,
      Some(now))
  }

  method UpdateCommunity(db: Store, cid: Id, requester: Id, update: map<string, string>, now: Time)
    returns (r: Result<Option<Community>, Failure>)
    requires db.Valid()
    modifies db`communities
    ensures db.Valid()
    ensures r == Ok(None) <==> old(CommunityRepo.GetCommunityById(db, cid)).None?
    ensures r == Err(OnlyOwner) <==> old(CommunityRepo.GetCommunityById(db, cid)).Some? && old(CommunityRepo.GetCommunityById(db, cid)).value.data.owner != requester
    // the owner's update of a stored community always returns the community
    ensures r.Ok? && r.value.Some? <==> old(CommunityRepo.GetCommunityById(db, cid)).Some? && old(CommunityRepo.GetCommunityById(db, cid)).value.data.owner == requester
    ensures !(r.Ok? && r.value.Some?) ==> db.communities == old(db.communities)
    ensures r.Ok? && r.value.Some? ==>
              var before := old(CommunityRepo.GetCommunityById(db, cid)).value;
              var after := r.value.value;
              && before.data.owner == requester
              && IsValidId(cid) && after.id == Canonical(cid)
              && after.data.owner == before.data.owner
              && after.data.createdAt == before.data.createdAt
              && after.data.moderators == before.data.moderators
              && after.data.name == (if "name" in update then update["name"] else before.data.name)
              && after.data.description == (if "description" in update then Some(update["description"]) else before.data.description)
              && after.data.updatedAt == (if "name" in update || "description" in update then Some(now) else before.data.updatedAt)
    // with no allowed key the stored community comes back as it is
    ensures r.Ok? && r.value.Some? && "name" !in update && "description" !in update ==>
              r.value == old(CommunityRepo.GetCommunityById(db, cid)) && db.communities == old(db.communities)
    ensures r.Ok? && r.value.Some? ==>
              IsValidId(cid) && forall c :: c in db.communities <==> (c in old(db.communities) && c.id != Canonical(cid)) || c == r.value.value
  {
    var community := CommunityRepo.GetCommunityById(db, cid);
    if community.None? {
      return Ok(None);
    }
    if community.value.data.owner != requester {
      return Err(OnlyOwner);
    }
    var allowed := AllowedFields(update);
    if allowed == map[] {
      assert "name" !in allowed && "description" !in allowed;
      return Ok(community);
    }
    assert "name" in allowed || "description" in allowed;
    var updated := CommunityRepo.UpdateCommunity(db, cid, AllowedPatch(allowed, now));
    r := Ok(updated);
  }

  method DeleteCommunity(db: Store, cid: Id, requester: Id) returns (r: Result<bool, Failure>)
    requires db.Valid()
    modifies db`communities, db`memberships, db`messages
    ensures db.Valid()
    ensures r == Ok(false) <==> old(CommunityRepo.GetCommunityById(db, cid)).None?
    ensures r == Err(OnlyOwner) <==> old(CommunityRepo.GetCommunityById(db, cid)).Some? && old(CommunityRepo.GetCommunityById(db, cid)).value.data.owner != requester
    ensures r == Ok(true) <==> old(CommunityRepo.GetCommunityById(db, cid)).Some? && old(CommunityRepo.GetCommunityById(db, cid)).value.data.owner == requester
    ensures r != Ok(true) ==> db.communities == old(db.communities) && db.memberships == old(db.memberships) && db.messages == old(db.messages)
    // the cascade: nothing that refers to this community, however its id is spelt, is left, and everything else is
    ensures r == Ok(true) ==> IsValidId(cid) && forall c :: c in db.communities <==> c in old(db.communities) && c.id != Canonical(cid)
    ensures r == Ok(true) ==> forall m :: m in db.memberships <==> m in old(db.memberships) && !SameId(m.data.cid, cid)
    ensures r == Ok(true) ==> forall m :: m in db.messages <==> m in old(db.messages) && !SameId(m.data.cid, cid)
  {
    var community := CommunityRepo.GetCommunityById(db, cid);
    if community.None? {
      return Ok(false);
    }
    if community.value.data.owner != requester {
      return Err(OnlyOwner);
    }
    var deleted := CommunityRepo.DeleteCommunity(db, cid);
    if deleted {
      DeleteDependents(db, cid);
    }
    r := Ok(deleted);
  }

  /**
   * The cascade of a community deletion: every membership and every message that refers to
   * the community goes, whichever spelling of its id they were stored under.
   */
  method DeleteDependents(db: Store, cid: Id)
    requires db.Valid()
    modifies db`memberships, db`messages
    ensures db.Valid()
    ensures forall m :: m in db.memberships <==> m in old(db.memberships) && !SameId(m.data.cid, cid)
    ensures forall m :: m in db.messages <==> m in old(db.messages) && !SameId(m.data.cid, cid)
  {
    SpellingFilter(MembershipCid, cid);
    WhereKeepsKeyed(db.memberships, SpellsOtherId(MembershipCid, cid), db.nextId);
    WhereKeepsKeysDistinct(db.memberships, SpellsOtherId(MembershipCid, cid), PairOf);
    db.memberships := Where(db.memberships, SpellsOtherId(MembershipCid, cid));
    SpellingFilter(MessageCid, cid);
    WhereKeepsKeyed(db.messages, SpellsOtherId(MessageCid, cid), db.nextId);
    db.messages := Where(db.messages, SpellsOtherId(MessageCid, cid));
  }

  /**
   * The two `delete_many({'cid': cid})` calls as written: they match the string `cid`
   * exactly, so a record stored under another spelling of the same id stays.
   */
  method DeleteDependentsAsWritten(db: Store, cid: Id)
    requires db.Valid()
    modifies db`memberships, db`messages
    ensures db.Valid()
    ensures forall m :: m in db.memberships <==> m in old(db.memberships) && m.data.cid != cid
    ensures forall m :: m in db.messages <==> m in old(db.messages) && m.data.cid != cid
  {
    DropByKey(db.memberships, MembershipCid, cid, db.nextId);
    WhereKeepsKeysDistinct(db.memberships, KeyIsNot(MembershipCid, cid), PairOf);
    db.memberships := Where(db.memberships, KeyIsNot(MembershipCid, cid));
    DropByKey(db.messages, MessageCid, cid, db.nextId);
    db.messages := Where(db.messages, KeyIsNot(MessageCid, cid));
  }

  /**
   * A store the service can reach: one community, created as the tenth identifier, and the
   * owner's membership that `create_community` stored under the community's own (lower-case)
   * id. Deleting the community with the upper-case spelling of that id finds and removes the
   * community, yet the as-written cascade keeps the owner's membership, which now refers to a
   * community that no longer exists; the corrected cascade removes it.
   */
  lemma CascadeAsWrittenOrphansMembership(community: CommunityData, owner: Id, joinedAt: Time)
    returns (upper: Id, communities: seq<Community>, memberships: seq<Membership>)
    ensures Keyed(communities, 12) && Keyed(memberships, 12) && PairsUnique(memberships)
    ensures HasId(communities, upper)
    ensures Where(memberships, KeyIsNot(MembershipCid, upper)) == memberships != []
    ensures Where(memberships, SpellsOtherId(MembershipCid, upper)) == []
  {
    var lower;
    lower, upper := UpperCaseSpelling();
    IssuedIsCanonical(11);
    communities, memberships := CascadeOrphans(community, owner, joinedAt, lower, upper, IdOf(11), 12);
  }

  /**
   * For any second spelling `upper` of a community's canonical id `lower`, the
   * exact-string cascade keeps the owner's membership and the by-id cascade drops it.
   */
  lemma CascadeOrphans(community: CommunityData, owner: Id, joinedAt: Time, lower: Id, upper: Id, mid: Id, next: nat)
    returns (communities: seq<Community>, memberships: seq<Membership>)
    requires IsCanonical(lower) && IsCanonical(mid) && lower != mid
    requires IdNumber(lower) < next && IdNumber(mid) < next
    requires IsValidId(upper) && upper != lower && SameId(upper, lower)
    ensures Keyed(communities, next) && Keyed(memberships, next) && PairsUnique(memberships)
    ensures HasId(communities, upper)
    ensures Where(memberships, KeyIsNot(MembershipCid, upper)) == memberships != []
    ensures Where(memberships, SpellsOtherId(MembershipCid, upper)) == []
  {
    communities := [Doc(lower, community)];
    memberships := [Doc(mid, MembershipData(owner, lower, joinedAt, Owner))];
    SingletonKeyed(communities[0], next);
    SingletonKeyed(memberships[0], next);
    CanonicalSpelling(upper, lower);
    assert communities[0].id == Canonical(upper);
    KeyFilters(MembershipCid, upper);
    SpellingFilter(MembershipCid, upper);
    WhereAllTrue(memberships, KeyIsNot(MembershipCid, upper));
    WhereNoneMatch(memberships, SpellsOtherId(MembershipCid, upper));
  }

  function ListCommunitiesForOwner(db: Store, owner: Id): (r: seq<Community>)
    reads db`communities
    ensures forall c :: c in r <==> c in db.communities && c.data.owner == owner
  {
    CommunityRepo.ListCommunitiesForOwner(db, owner)
  }
}
