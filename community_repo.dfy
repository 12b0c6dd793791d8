/** The `communities` collection: insert, look-up, update and delete by id, and the communities of an owner. */
module CommunityRepo {
  import opened Wrappers
  import opened ObjectIds
  import opened Documents
  import opened CommunityModel
  import opened Database

  method CreateCommunity(db: Store, data: CommunityData) returns (r: Option<Community>)
    requires db.Valid()
    modifies db`communities, db`nextId
    ensures db.Valid()
    ensures r.Some? <==> old(db.nextId) < IdSpace
    ensures r.Some? ==> r.value.data == data && r.value.id !in IdsOf(old(db.communities))
    ensures r.Some? ==> db.communities == old(db.communities) + [r.value]
    ensures r.Some? ==> IsValidId(r.value.id) && db.nextId == old(db.nextId) + 1
    ensures r.None? ==> db.communities == old(db.communities) && db.nextId == old(db.nextId)
  {
    ghost var n := db.nextId;
    var id := db.AllocateId();
    if id.None? {
      return None;
    }
    FreshIdUnused(db.communities, n, data);
    var c := Doc(id.value, data);
    db.communities := db.communities + [c];
    r := Some(c);
  }

  function GetCommunityById(db: Store, cid: Id): (r: Option<Community>)
    reads db`communities
    ensures r.Some? ==> IsValidId(cid) && r.value in db.communities && r.value.id == Canonical(cid)
    ensures r.None? <==> !HasId(db.communities, cid)
  {
    if !IsValidId(cid) then None else FindById(db.communities, Canonical(cid))
  }

  /** Merges `patch` into the community with id `cid` and reads it back. */
  method UpdateCommunity(db: Store, cid: Id, patch: CommunityPatch) returns (r: Option<Community>)
    requires db.Valid()
    modifies db`communities
    ensures db.Valid()
    ensures r.Some? <==> HasId(old(db.communities), cid)
    ensures r.None? ==> db.communities == old(db.communities)
    ensures r.Some? ==> IsValidId(cid) && r.value == Doc(Canonical(cid), ApplyCommunityPatch(old(GetCommunityById(db, cid)).value.data, patch))
    ensures r.Some? ==> forall c :: c in db.communities <==> (c in old(db.communities) && c.id != Canonical(cid)) || c == r.value
    ensures r.Some? ==> db.communities == SetData(old(db.communities), Canonical(cid), r.value.data)
  {
    if !IsValidId(cid) {
      return None;
    }
    var id := Canonical(cid);
    var found := FindById(db.communities, id);
    if found.None? {
      return None;
    }
    var data := ApplyCommunityPatch(found.value.data, patch);
    SetDataKeepsKeyed(db.communities, id, data, db.nextId);
    SetDataEffect(db.communities, id, data);
    db.communities := SetData(db.communities, id, data);
    r := GetCommunityById(db, cid);
  }

  /** Deletes the community with id `cid`; true iff one was deleted. */
  method DeleteCommunity(db: Store, cid: Id) returns (deleted: bool)
    requires db.Valid()
    modifies db`communities
    ensures db.Valid()
    ensures deleted <==> HasId(old(db.communities), cid)
    ensures forall c :: c in db.communities <==> c in old(db.communities) && (!IsValidId(cid) || c.id != Canonical(cid))
    ensures |db.communities| == |old(db.communities)| - if deleted then 1 else 0
  {
    if !IsValidId(cid) {
      return false;
    }
    var before := |db.communities|;
    var id := Canonical(cid);
    WithoutIdCount(db.communities, id);
    WhereKeepsKeyed(db.communities, KeyIsNot(DocId, id), db.nextId);
    db.communities := WithoutId(db.communities, id);
    deleted := |db.communities| == before - 1;
  }

  /** The communities whose owner is `owner`; the argument is not checked. */
  function ListCommunitiesForOwner(db: Store, owner: Id): (r: seq<Community>)
    reads db`communities
    ensures forall c :: c in r ==> c in db.communities && c.data.owner == owner
    ensures forall c :: c in db.communities && c.data.owner == owner ==> c in r
    ensures multiset(r) <= multiset(db.communities)
  {
    KeyFilters<Community, Id>(CommunityOwner, owner);
    Where(db.communities, KeyIs(CommunityOwner, owner))
  }
}
