/**
 * Messaging. Sending runs fixed checks in a fixed order (id syntax, sender exists,
 * community exists, sender is a member, sliding-window rate limit) and inserts only when
 * all pass. Editing and deleting a message are reserved to its author and to the owner
 * of its community.
 */
module ChatService {
  import opened Wrappers
  import opened ObjectIds
  import opened Documents
  import opened MessageModel
  import opened Database
  import opened Failures
  import UserRepo
  import CommunityRepo
  import UserCommunityRepo
  import MessageRepo

  /** At most this many messages per sender and community within one window. */
  const MaxMessagesPerMinute: nat := 5

  /** The length of the rate-limit window, in seconds. */
  const RateWindowSeconds: int := 60

  /** `_validate_ids`: both strings are ObjectId strings. */
  function ValidateIds(uid: Id, cid: Id): (ok: bool)
    ensures ok <==> |uid| == IdLength && |cid| == IdLength && forall i :: 0 <= i < IdLength ==> IsHexDigit(uid[i]) && IsHexDigit(cid[i])
    // each then names a stored-form identifier, of which it is a spelling
    ensures ok ==> SameId(uid, Canonical(uid)) && SameId(cid, Canonical(cid))
  {
    IsValidId(uid) && IsValidId(cid)
  }

  /** The sender's messages in this community within the window ending at `now`. */
  function RecentCount(db: Store, uid: Id, cid: Id, now: Time): nat
    reads db`messages
  {
    MessageRepo.CountRecentMessagesByUser(db, uid, cid, RateWindowSeconds, now)
  }

  /**
   * The checks `send_message` makes before it stores anything, in their order: the ids,
   * the author, the community, the membership and the rate limit. None means every check passed.
   */
  method AdmitMessage(db: Store, uid: Id, cid: Id, now: Time) returns (refused: Option<Failure>)
    requires db.Valid()
    ensures refused == Some(InvalidIds) <==> !ValidateIds(uid, cid)
    ensures refused == Some(UserDoesNotExist) <==> ValidateIds(uid, cid) && UserRepo.GetUserById(db, uid).None?
    ensures refused == Some(CommunityDoesNotExist) <==>
              ValidateIds(uid, cid) && UserRepo.GetUserById(db, uid).Some? && CommunityRepo.GetCommunityById(db, cid).None?
    ensures refused == Some(NotAMember) <==>
              ValidateIds(uid, cid) && UserRepo.GetUserById(db, uid).Some? && CommunityRepo.GetCommunityById(db, cid).Some?
              && !UserCommunityRepo.IsMember(db, uid, cid)
    ensures refused == Some(RateLimitExceeded) <==>
              UserRepo.GetUserById(db, uid).Some? && CommunityRepo.GetCommunityById(db, cid).Some?
              && UserCommunityRepo.IsMember(db, uid, cid) && RecentCount(db, uid, cid, now) >= MaxMessagesPerMinute
    ensures refused.None? <==>
              UserRepo.GetUserById(db, uid).Some? && CommunityRepo.GetCommunityById(db, cid).Some?
              && UserCommunityRepo.IsMember(db, uid, cid) && RecentCount(db, uid, cid, now) < MaxMessagesPerMinute
    ensures refused.None? ==> ValidateIds(uid, cid)
  {
    if !ValidateIds(uid, cid) {
      return Some(InvalidIds);
    }
    var user := UserRepo.GetUserById(db, uid);
    if user.None? {
      return Some(UserDoesNotExist);
    }
    var community := CommunityRepo.GetCommunityById(db, cid);
    if community.None? {
      return Some(CommunityDoesNotExist);
    }
    if !UserCommunityRepo.IsMember(db, uid, cid) {
      return Some(NotAMember);
    }
    var recent := MessageRepo.CountRecentMessagesByUser(db, uid, cid, RateWindowSeconds, now);
    if recent >= MaxMessagesPerMinute {
      return Some(RateLimitExceeded);
    }
    return None;
  }

  method SendMessage(db: Store, uid: Id, cid: Id, text: string, now: Time) returns (r: Result<Message, Failure>)
    requires db.Valid()
    modifies db`messages, db`nextId
    ensures db.Valid()
    ensures r == Err(InvalidIds) <==> !ValidateIds(uid, cid)
    ensures r == Err(UserDoesNotExist) <==> ValidateIds(uid, cid) && old(UserRepo.GetUserById(db, uid)).None?
    ensures r == Err(CommunityDoesNotExist) <==>
              ValidateIds(uid, cid) && old(UserRepo.GetUserById(db, uid)).Some? && old(CommunityRepo.GetCommunityById(db, cid)).None?
    ensures r == Err(NotAMember) <==>
              ValidateIds(uid, cid) && old(UserRepo.GetUserById(db, uid)).Some? && old(CommunityRepo.GetCommunityById(db, cid)).Some?
              && !old(UserCommunityRepo.IsMember(db, uid, cid))
    ensures r == Err(RateLimitExceeded) <==>
              old(UserRepo.GetUserById(db, uid)).Some? && old(CommunityRepo.GetCommunityById(db, cid)).Some?
              && old(UserCommunityRepo.IsMember(db, uid, cid)) && old(RecentCount(db, uid, cid, now)) >= MaxMessagesPerMinute
    ensures r == Err(StoreFailure) <==>
              old(UserRepo.GetUserById(db, uid)).Some? && old(CommunityRepo.GetCommunityById(db, cid)).Some?
              && old(UserCommunityRepo.IsMember(db, uid, cid)) && old(RecentCount(db, uid, cid, now)) < MaxMessagesPerMinute
              && old(db.nextId) == IdSpace
    // a member under the limit whose message finds a free id is always served
    ensures r.Ok? <==>
              old(UserRepo.GetUserById(db, uid)).Some? && old(CommunityRepo.GetCommunityById(db, cid)).Some?
              && old(UserCommunityRepo.IsMember(db, uid, cid)) && old(RecentCount(db, uid, cid, now)) < MaxMessagesPerMinute
              && old(db.nextId) < IdSpace
    ensures r.Err? ==> db.messages == old(db.messages) && db.nextId == old(db.nextId)
    ensures r.Ok? ==> db.nextId == old(db.nextId) + 1
    ensures r.Ok? ==> r.value.data == MessageData(uid, cid, text, now) && r.value.id !in IdsOf(old(db.messages))
    ensures r.Ok? ==> db.messages == old(db.messages) + [r.value]
    // a send that succeeds is counted in its own window, which it cannot push past the limit
    ensures r.Ok? ==> RecentCount(db, uid, cid, now) == old(RecentCount(db, uid, cid, now)) + 1 <= MaxMessagesPerMinute
  {
    var refused := AdmitMessage(db, uid, cid, now);
    if refused.Some? {
      return Err(refused.value);
    }
    var created := MessageRepo.CreateMessage(db, MessageData(uid, cid, text, now));
    if created.None? {
      return Err(StoreFailure);
    }
    MessageRepo.WhereAppendRecent(old(db.messages), created.value, uid, cid, MessageRepo.WindowStart(now, RateWindowSeconds));
    r := Ok(created.value);
  }

  /**
   * With the recent-message filter as written the limit never fires: a member who has
   * already sent five messages in the window is counted as having sent none.
   */
  lemma RateLimitNeverFiresAsWritten(db: Store, uid: Id, cid: Id, now: Time)
    requires db.Valid() && IsValidId(uid)
    requires |MessageRepo.RecentMessages(db.messages, uid, cid, MessageRepo.WindowStart(now, RateWindowSeconds))| >= MaxMessagesPerMinute
    ensures RecentCount(db, uid, cid, now) >= MaxMessagesPerMinute
    ensures MessageRepo.CountRecentMessagesByUserAsWritten(db, uid, cid, RateWindowSeconds, now) < MaxMessagesPerMinute
  {
    MessageRepo.CountRecentIsNumberOfRecentMessages(db, uid, cid, RateWindowSeconds, now);
  }

  /** The requester wrote the message or owns the community it was sent to. */
  function MayModify(db: Store, m: Message, requester: Id): (allowed: bool)
    requires KeysDistinct(db.communities, DocId)
    reads db`communities
    ensures allowed <==>
              || m.data.uid == requester
              || (IsValidId(m.data.cid) && exists c :: c in db.communities && c.id == Canonical(m.data.cid) && c.data.owner == requester)
    // once the community is gone only the author qualifies
    ensures !HasId(db.communities, m.data.cid) ==> (allowed <==> m.data.uid == requester)
  {
    var community := CommunityRepo.GetCommunityById(db, m.data.cid);
    assert forall c :: c in db.communities && community.Some? && c.id == community.value.id ==> c == community.value by {
      forall c | c in db.communities && community.Some? && c.id == community.value.id
        ensures c == community.value
      {
        var i :| 0 <= i < |db.communities| && db.communities[i] == c;
        var j :| 0 <= j < |db.communities| && db.communities[j] == community.value;
        assert DocId(db.communities[i]) == DocId(db.communities[j]);
      }
    }
    m.data.uid == requester || (community.Some? && community.value.data.owner == requester)
  }

  /** Replaces the text of message `mid`; nothing else about it, and no other message, changes. */
  method UpdateMessage(db: Store, mid: Id, requester: Id, newText: string) returns (r: Result<Option<Message>, Failure>)
    requires db.Valid()
    modifies db`messages
    ensures db.Valid()
    ensures r == Err(InvalidMessageId) <==> !IsValidId(mid)
    ensures r == Ok(None) <==> IsValidId(mid) && !HasId(old(db.messages), mid)
    ensures r == Err(NotAuthorized) <==>
              HasId(old(db.messages), mid)
              && !old(MayModify(db, MessageRepo.GetMessageById(db, mid).value, requester))
    // the author's or the community owner's edit of a stored message always goes through
    ensures r.Ok? && r.value.Some? <==>
              HasId(old(db.messages), mid)
              && old(MayModify(db, MessageRepo.GetMessageById(db, mid).value, requester))
    ensures !(r.Ok? && r.value.Some?) ==> db.messages == old(db.messages)
    ensures r.Ok? && r.value.Some? ==>
              var before := old(MessageRepo.GetMessageById(db, mid)).value;
              && old(MayModify(db, before, requester))
              && r.value.value == before.(data := before.data.(text := newText))
    ensures r.Ok? && r.value.Some? ==>
              forall m :: m in db.messages <==> (m in old(db.messages) && m.id != Canonical(mid)) || m == r.value.value
    ensures |db.messages| == |old(db.messages)|
  {
    if !IsValidId(mid) {
      return Err(InvalidMessageId);
    }
    var message := MessageRepo.GetMessageById(db, mid);
    if message.None? {
      return Ok(None);
    }
    if !MayModify(db, message.value, requester) {
      return Err(NotAuthorized);
    }
    var updated := MessageRepo.UpdateMessage(db, mid, MessagePatch(None, None, Some(newText), None));
    r := Ok(updated);
  }

  /** Deletes message `mid`: true when it was deleted, false when there was no such message. */
  method DeleteMessage(db: Store, mid: Id, requester: Id) returns (r: Result<bool, Failure>)
    requires db.Valid()
    modifies db`messages
    ensures db.Valid()
    ensures r == Err(InvalidMessageId) <==> !IsValidId(mid)
    ensures r == Ok(false) <==> IsValidId(mid) && !HasId(old(db.messages), mid)
    ensures r == Err(NotAuthorized) <==>
              HasId(old(db.messages), mid)
              && !old(MayModify(db, MessageRepo.GetMessageById(db, mid).value, requester))
    ensures r == Ok(true) <==>
              HasId(old(db.messages), mid)
              && old(MayModify(db, MessageRepo.GetMessageById(db, mid).value, requester))
    ensures r != Ok(true) ==> db.messages == old(db.messages)
    ensures r == Ok(true) ==> forall m :: m in db.messages <==> m in old(db.messages) && m.id != Canonical(mid)
    ensures r == Ok(true) ==> |db.messages| == |old(db.messages)| - 1
  {
    if !IsValidId(mid) {
      return Err(InvalidMessageId);
    }
    var message := MessageRepo.GetMessageById(db, mid);
    if message.None? {
      return Ok(false);
    }
    if !MayModify(db, message.value, requester) {
      return Err(NotAuthorized);
    }
    var deleted := MessageRepo.DeleteMessage(db, mid);
    r := Ok(deleted);
  }

  /** The newest `limit` messages of community `cid` (all of them for 0). */
  function ListMessages(db: Store, cid: Id, limit: int := 100): (r: seq<Message>)
    reads db`messages
    ensures !IsValidId(cid) ==> r == []
    ensures forall m :: m in r ==> m in db.messages && m.data.cid == cid
    ensures MessageRepo.NewestFirst(r)
    ensures multiset(r) <= multiset(db.messages)
    ensures IsValidId(cid) ==> |r| == MessageRepo.Capped(|Where(db.messages, KeyIs(MessageCid, cid))|, limit)
    ensures limit != 0 ==> |r| <= MessageRepo.Abs(limit)
    ensures forall m, x :: m in db.messages && m.data.cid == cid && m !in r && x in r ==> m.data.createdAt <= x.data.createdAt
  {
    MessageRepo.ListMessagesByCommunity(db, cid, limit)
  }
}
