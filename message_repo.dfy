/** The `messages` collection: insert, look-up, update and delete by id, the newest-first listing of a community and the count of a user's recent messages. */
module MessageRepo {
  import opened Wrappers
  import opened ObjectIds
  import opened Documents
  import opened MessageModel
  import opened Database

  method CreateMessage(db: Store, data: MessageData) returns (r: Option<Message>)
    requires db.Valid()
    modifies db`messages, db`nextId
    ensures db.Valid()
    ensures r.Some? <==> old(db.nextId) < IdSpace
    ensures r.Some? ==> r.value.data == data && r.value.id !in IdsOf(old(db.messages))
    ensures r.Some? ==> db.messages == old(db.messages) + [r.value]
    ensures r.Some? ==> IsValidId(r.value.id) && db.nextId == old(db.nextId) + 1
    ensures r.None? ==> db.messages == old(db.messages) && db.nextId == old(db.nextId)
  {
    ghost var n := db.nextId;
    var id := db.AllocateId();
    if id.None? {
      return None;
    }
    FreshIdUnused(db.messages, n, data);
    var m := Doc(id.value, data);
    db.messages := db.messages + [m];
    r := Some(m);
  }

  function GetMessageById(db: Store, mid: Id): (r: Option<Message>)
    reads db`messages
    ensures r.Some? ==> IsValidId(mid) && r.value in db.messages && r.value.id == Canonical(mid)
    ensures r.None? <==> !HasId(db.messages, mid)
  {
    if !IsValidId(mid) then None else FindById(db.messages, Canonical(mid))
  }

  /** Merges `patch` into the message with id `mid` and reads it back. */
  method UpdateMessage(db: Store, mid: Id, patch: MessagePatch) returns (r: Option<Message>)
    requires db.Valid()
    modifies db`messages
    ensures db.Valid()
    ensures r.Some? <==> HasId(old(db.messages), mid)
    ensures r.None? ==> db.messages == old(db.messages)
    ensures r.Some? ==> IsValidId(mid) && r.value == Doc(Canonical(mid), ApplyMessagePatch(old(GetMessageById(db, mid)).value.data, patch))
    ensures r.Some? ==> forall m :: m in db.messages <==> (m in old(db.messages) && m.id != Canonical(mid)) || m == r.value
    ensures r.Some? ==> db.messages == SetData(old(db.messages), Canonical(mid), r.value.data)
  {
    if !IsValidId(mid) {
      return None;
    }
    var id := Canonical(mid);
    var found := FindById(db.messages, id);
    if found.None? {
      return None;
    }
    var data := ApplyMessagePatch(found.value.data, patch);
    SetDataKeepsKeyed(db.messages, id, data, db.nextId);
    SetDataEffect(db.messages, id, data);
    db.messages := SetData(db.messages, id, data);
    r := GetMessageById(db, mid);
  }

  /** Deletes the message with id `mid`; true iff one was deleted. */
  method DeleteMessage(db: Store, mid: Id) returns (deleted: bool)
    requires db.Valid()
    modifies db`messages
    ensures db.Valid()
    ensures deleted <==> HasId(old(db.messages), mid)
    ensures db.messages == if IsValidId(mid) then WithoutId(old(db.messages), Canonical(mid)) else old(db.messages)
    ensures !HasId(db.messages, mid)
    ensures |db.messages| == |old(db.messages)| - if deleted then 1 else 0
  {
    if !IsValidId(mid) {
      return false;
    }
    var before := |db.messages|;
    var id := Canonical(mid);
    WithoutIdCount(db.messages, id);
    WhereKeepsKeyed(db.messages, KeyIsNot(DocId, id), db.nextId);
    db.messages := WithoutId(db.messages, id);
    deleted := |db.messages| == before - 1;
  }

  /** Messages ordered by `created_at`, newest first. */
  predicate NewestFirst(ms: seq<Message>) {
    forall i, j :: 0 <= i < j < |ms| ==> ms[i].data.createdAt >= ms[j].data.createdAt
  }

  /** Putting a message no older than any of `ms` in front keeps the order. */
  lemma PrependNewestFirst(m: Message, ms: seq<Message>)
    requires NewestFirst(ms)
    requires forall x :: x in ms ==> x.data.createdAt <= m.data.createdAt
    ensures NewestFirst([m] + ms)
  {
    forall i, j | 0 <= i < j < |[m] + ms| ensures ([m] + ms)[i].data.createdAt >= ([m] + ms)[j].data.createdAt {
      if i > 0 {
        assert ([m] + ms)[i] == ms[i - 1] && ([m] + ms)[j] == ms[j - 1];
      } else {
        assert ([m] + ms)[j] == ms[j - 1];
        assert ms[j - 1] in ms;
      }
    }
  }

  /** The first message of a newest-first sequence is the newest. */
  lemma NewestFirstHead(ms: seq<Message>)
    requires NewestFirst(ms)
    ensures forall x :: x in ms ==> x.data.createdAt <= ms[0].data.createdAt
  {
  }

  function InsertNewestFirst(m: Message, ms: seq<Message>): (r: seq<Message>)
    requires NewestFirst(ms)
    ensures NewestFirst(r)
    ensures multiset(r) == multiset(ms) + multiset{m}
  {
    if ms == [] || m.data.createdAt >= ms[0].data.createdAt then
      NewestFirstHead(ms);
      PrependNewestFirst(m, ms);
      [m] + ms
    else
      var head := ms[0];
      var tail := ms[1..];
      assert ms == [head] + tail;
      var rest := InsertNewestFirst(m, tail);
      forall x | x in rest ensures x.data.createdAt <= head.data.createdAt {
        assert x in multiset(rest);
        if x != m {
          assert x in multiset(tail);
          var k :| 0 <= k < |tail| && tail[k] == x;
          assert ms[k + 1] == x;
        }
      }
      PrependNewestFirst(head, rest);
      [head] + rest
  }

  /** `sort('created_at', -1)`: the same messages, newest first. */
  function SortNewestFirst(ms: seq<Message>): (r: seq<Message>)
    ensures NewestFirst(r)
    ensures multiset(r) == multiset(ms)
  {
    if ms == [] then []
    else
      assert ms == [ms[0]] + ms[1..];
      InsertNewestFirst(ms[0], SortNewestFirst(ms[1..]))
  }

  function Abs(n: int): nat {
    if n < 0 then -n else n
  }

  /** How many documents a cursor with `limit(limit)` over `n` documents yields: 0 means no limit, and a negative limit counts as its absolute value. */
  function Capped(n: nat, limit: int): (c: nat)
    ensures c <= n
    ensures limit != 0 ==> c <= Abs(limit)
    // the cursor only stops short of `n` documents when a limit stops it, and then at the limit
    ensures c < n ==> limit != 0 && c == Abs(limit)
  {
    if limit == 0 || n <= Abs(limit) then n else Abs(limit)
  }

  /** The newest `limit` of `ms` (all of them when `limit` is 0), newest first. */
  function TopNewest(ms: seq<Message>, limit: int): (r: seq<Message>)
    ensures NewestFirst(r)
    ensures multiset(r) <= multiset(ms)
    ensures |r| == Capped(|ms|, limit)
    ensures forall m, x :: m in ms && m !in r && x in r ==> m.data.createdAt <= x.data.createdAt
  {
    var sorted := SortNewestFirst(ms);
    assert |sorted| == |multiset(sorted)| == |ms|;
    var r := sorted[..Capped(|sorted|, limit)];
    NewestFirstPrefix(sorted, |r|);
    forall m | m in ms ensures m in sorted {
      assert m in multiset(ms);
    }
    r
  }

  /** The messages of community `cid`, newest first, at most `limit` of them (0: all). */
  function ListMessagesByCommunity(db: Store, cid: Id, limit: int): (r: seq<Message>)
    reads db`messages
    ensures !IsValidId(cid) ==> r == []
    ensures forall m :: m in r ==> m in db.messages && m.data.cid == cid
    ensures NewestFirst(r)
    ensures multiset(r) <= multiset(db.messages)
    ensures IsValidId(cid) ==> |r| == Capped(|Where(db.messages, KeyIs(MessageCid, cid))|, limit)
    ensures forall m, x :: m in db.messages && m.data.cid == cid && m !in r && x in r ==> m.data.createdAt <= x.data.createdAt
  {
    if !IsValidId(cid) then []
    else
      var inCommunity := Where(db.messages, KeyIs(MessageCid, cid));
      KeyFilters<Message, Id>(MessageCid, cid);
      var r := TopNewest(inCommunity, limit);
      forall m | m in r ensures m in inCommunity {
        assert m in multiset(r);
      }
      r
  }

  /** A prefix of a newest-first sequence is newest first, and nothing left out of it is newer than anything in it. */
  lemma NewestFirstPrefix(sorted: seq<Message>, k: nat)
    requires NewestFirst(sorted) && k <= |sorted|
    ensures NewestFirst(sorted[..k])
    ensures multiset(sorted[..k]) <= multiset(sorted)
    ensures forall m, x :: m in sorted && m !in sorted[..k] && x in sorted[..k] ==> m.data.createdAt <= x.data.createdAt
  {
    assert sorted == sorted[..k] + sorted[k..];
    forall m, x | m in sorted && m !in sorted[..k] && x in sorted[..k] ensures m.data.createdAt <= x.data.createdAt {
      var j :| 0 <= j < |sorted| && sorted[j] == m;
      var i :| 0 <= i < k && sorted[..k][i] == x;
      assert sorted[i] == x;
    }
  }

  /** The messages that user `uid` sent to community `cid` at or after `since`. */
  predicate IsRecentBy(m: Message, uid: Id, cid: Id, since: Time) {
    m.data.uid == uid && m.data.cid == cid && m.data.createdAt >= since
  }

  function RecentBy(uid: Id, cid: Id, since: Time): Message -> bool {
    (m: Message) => IsRecentBy(m, uid, cid, since)
  }

  /** The earliest creation time inside a window of `seconds` seconds ending at `now`. */
  function WindowStart(now: Time, seconds: int): Time {
    now - seconds * MicrosPerSecond
  }

  /** The filter `{'uid': uid, 'cid': cid, 'created_at': {'$gte': now - seconds}}` counted. */
  function CountRecentMessagesByUser(db: Store, uid: Id, cid: Id, seconds: int, now: Time): (n: nat)
    reads db`messages
    ensures n <= |db.messages|
    ensures !IsValidId(uid) ==> n == 0
    ensures n > 0 <==> IsValidId(uid) && exists m :: m in db.messages && IsRecentBy(m, uid, cid, WindowStart(now, seconds))
  {
    if !IsValidId(uid) then 0
    else
      var recent := Where(db.messages, RecentBy(uid, cid, WindowStart(now, seconds)));
      assert recent != [] ==> recent[0] in recent;
      |recent|
  }

  /** The values a query compares a field with: a timestamp, or an embedded document. */
  datatype BsonValue = DateTime(t: Time) | Document(fields: seq<(string, BsonValue)>)

  /**
   * The recent filter as the repository spells it, `{'created_at': {'': since}}`: with no
   * `$` operator the inner document is an embedded-document equality on `created_at`.
   */
  predicate IsRecentByAsWritten(m: Message, uid: Id, cid: Id, since: Time) {
    m.data.uid == uid && m.data.cid == cid && DateTime(m.data.createdAt) == Document([("", DateTime(since))])
  }

  /** The count with the filter as written: a stored timestamp never equals a document, so nothing is counted. */
  function CountRecentMessagesByUserAsWritten(db: Store, uid: Id, cid: Id, seconds: int, now: Time): (n: nat)
    reads db`messages
    ensures n == 0
  {
    if !IsValidId(uid) then 0
    else
      var asWritten := (m: Message) => IsRecentByAsWritten(m, uid, cid, WindowStart(now, seconds));
      WhereNoneMatch(db.messages, asWritten);
      |Where(db.messages, asWritten)|
  }

  /** A message the sender just sent at `now` is recent for any window ending at `now`, so it adds one to the count. */
  lemma WhereAppendRecent(ms: seq<Message>, m: Message, uid: Id, cid: Id, since: Time)
    requires IsRecentBy(m, uid, cid, since)
    ensures |Where(ms + [m], RecentBy(uid, cid, since))| == |Where(ms, RecentBy(uid, cid, since))| + 1
  {
    WhereAppend(ms, m, RecentBy(uid, cid, since));
  }

  /** The distinct messages of user `uid` in community `cid` sent at or after `since`. */
  ghost function RecentMessages(ms: seq<Message>, uid: Id, cid: Id, since: Time): set<Message> {
    set m | m in ms && IsRecentBy(m, uid, cid, since)
  }

  /** Over messages with distinct ids, the recent filter counts each recent message once. */
  lemma RecentFilterCount(ms: seq<Message>, uid: Id, cid: Id, since: Time)
    requires KeysDistinct(ms, DocId)
    ensures |Where(ms, RecentBy(uid, cid, since))| == |RecentMessages(ms, uid, cid, since)|
  {
    var p := RecentBy(uid, cid, since);
    UniqueIdsDistinct(ms);
    WhereCountsMatches(ms, p);
    assert Matching(ms, p) == RecentMessages(ms, uid, cid, since);
  }

  /** In a valid store the count is the number of distinct recent messages of that user in that community. */
  lemma CountRecentIsNumberOfRecentMessages(db: Store, uid: Id, cid: Id, seconds: int, now: Time)
    requires db.Valid() && IsValidId(uid)
    ensures CountRecentMessagesByUser(db, uid, cid, seconds, now)
            == |RecentMessages(db.messages, uid, cid, WindowStart(now, seconds))|
  {
    RecentFilterCount(db.messages, uid, cid, WindowStart(now, seconds));
  }
}
