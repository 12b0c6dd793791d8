/** The `users` collection: insert, look-up by id and by email, update, delete and an equality-filtered listing. */
module UserRepo {
  import opened Wrappers
  import opened ObjectIds
  import opened Documents
  import opened UserModel
  import opened Database

  method CreateUser(db: Store, data: UserData) returns (r: Option<User>)
    requires db.Valid()
    modifies db`users, db`nextId
    ensures db.Valid()
    ensures r.Some? <==> old(db.nextId) < IdSpace
    ensures r.Some? ==> r.value.data == data && r.value.id !in IdsOf(old(db.users))
    ensures r.Some? ==> db.users == old(db.users) + [r.value]
    ensures r.Some? ==> IsValidId(r.value.id) && db.nextId == old(db.nextId) + 1
    ensures r.None? ==> db.users == old(db.users) && db.nextId == old(db.nextId)
  {
    ghost var n := db.nextId;
    var id := db.AllocateId();
    if id.None? {
      return None;
    }
    FreshIdUnused(db.users, n, data);
    var u := Doc(id.value, data);
    db.users := db.users + [u];
    r := Some(u);
  }

  function GetUserById(db: Store, uid: Id): (r: Option<User>)
    reads db`users
    ensures r.Some? ==> IsValidId(uid) && r.value in db.users && r.value.id == Canonical(uid)
    ensures r.None? <==> !HasId(db.users, uid)
  {
    if !IsValidId(uid) then None else FindById(db.users, Canonical(uid))
  }

  /** `find_one({'email': email})`: the first user with that email; the argument is not checked. */
  function GetUserByEmail(db: Store, email: string): (r: Option<User>)
    reads db`users
    ensures r.Some? ==> r.value in db.users && r.value.data.email == email
    ensures r.None? <==> forall u :: u in db.users ==> u.data.email != email
  {
    KeyFilters<User, string>(UserEmail, email);
    FindFirst(db.users, KeyIs(UserEmail, email))
  }

  /** Merges `patch` into the user with id `uid` and reads it back. */
  method UpdateUser(db: Store, uid: Id, patch: UserPatch) returns (r: Option<User>)
    requires db.Valid()
    modifies db`users
    ensures db.Valid()
    ensures r.Some? <==> HasId(old(db.users), uid)
    ensures r.None? ==> db.users == old(db.users)
    ensures r.Some? ==> IsValidId(uid) && r.value == Doc(Canonical(uid), ApplyUserPatch(old(GetUserById(db, uid)).value.data, patch))
    ensures r.Some? ==> forall u :: u in db.users <==> (u in old(db.users) && u.id != Canonical(uid)) || u == r.value
    ensures r.Some? ==> db.users == SetData(old(db.users), Canonical(uid), r.value.data)
  {
    if !IsValidId(uid) {
      return None;
    }
    var id := Canonical(uid);
    var found := FindById(db.users, id);
    if found.None? {
      return None;
    }
    var data := ApplyUserPatch(found.value.data, patch);
    SetDataKeepsKeyed(db.users, id, data, db.nextId);
    SetDataEffect(db.users, id, data);
    db.users := SetData(db.users, id, data);
    r := GetUserById(db, uid);
  }

  /** Deletes the user with id `uid`; true iff one was deleted. */
  method DeleteUser(db: Store, uid: Id) returns (deleted: bool)
    requires db.Valid()
    modifies db`users
    ensures db.Valid()
    ensures deleted <==> HasId(old(db.users), uid)
    ensures forall u :: u in db.users <==> u in old(db.users) && (!IsValidId(uid) || u.id != Canonical(uid))
    ensures |db.users| == |old(db.users)| - if deleted then 1 else 0
  {
    if !IsValidId(uid) {
      return false;
    }
    var before := |db.users|;
    var id := Canonical(uid);
    WithoutIdCount(db.users, id);
    WhereKeepsKeyed(db.users, KeyIsNot(DocId, id), db.nextId);
    db.users := WithoutId(db.users, id);
    deleted := |db.users| == before - 1;
  }

  function Matches(filter: map<string, string>): User -> bool {
    (u: User) => MatchesFilter(u.data, filter)
  }

  /** `find(filter)`; an absent or empty filter is `{}`, which every user matches. */
  function ListUsers(db: Store, filter: Option<map<string, string>>): (r: seq<User>)
    reads db`users
    ensures filter.None? || filter.value == map[] ==> r == db.users
    ensures forall u :: u in r ==> u in db.users && MatchesFilter(u.data, filter.GetOr(map[]))
    ensures forall u :: u in db.users && MatchesFilter(u.data, filter.GetOr(map[])) ==> u in r
    ensures multiset(r) <= multiset(db.users)
  {
    var f := if filter.None? || filter.value == map[] then map[] else filter.value;
    assert forall u :: Matches(f)(u) <==> MatchesFilter(u.data, f);
    if f == map[] then
      WhereAllTrue(db.users, Matches(f));
      Where(db.users, Matches(f))
    else
      Where(db.users, Matches(f))
  }
}
