/**
 * The document store: the `db` object with its four collections. Every operation of the
 * model is atomic; each collection is kept in insertion order.
 */
module Database {
  import opened Wrappers
  import opened ObjectIds
  import opened Documents
  import opened UserModel
  import opened CommunityModel
  import opened MessageModel
  import opened UserCommunityModel

  class Store {
    var users: seq<User>
    var communities: seq<Community>
    var memberships: seq<Membership>
    var messages: seq<Message>
    /** The fresh-id supply: how many identifiers have been handed out. */
    var nextId: nat

    /**
     * Every collection keys its documents by unique, valid, already handed-out ids, and
     * the unique index of `user_communities` holds: one membership per (uid, cid).
     */
    ghost predicate Valid()
      reads this
    {
      && nextId <= IdSpace
      && Keyed(users, nextId)
      && Keyed(communities, nextId)
      && Keyed(memberships, nextId)
      && Keyed(messages, nextId)
      && PairsUnique(memberships)
    }

    constructor ()
      ensures Valid()
      ensures users == [] && communities == [] && memberships == [] && messages == [] && nextId == 0
    {
      users, communities, memberships, messages := [], [], [], [];
      nextId := 0;
    }

    /** Takes the next identifier of the supply, or fails once all have been handed out. */
    method AllocateId() returns (id: Option<Id>)
      requires Valid()
      modifies this`nextId
      ensures Valid()
      ensures old(nextId) < IdSpace ==> id == Some(IdOf(old(nextId))) && nextId == old(nextId) + 1
      ensures old(nextId) == IdSpace ==> id == None && nextId == old(nextId)
    {
      if nextId < IdSpace {
        id := Some(IdOf(nextId));
        nextId := nextId + 1;
      } else {
        id := None;
      }
    }
  }
}
