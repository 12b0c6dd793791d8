/** User accounts: creation refuses an email that is already registered; the rest delegates to the repository. */
module UserService {
  import opened Wrappers
  import opened ObjectIds
  import opened Documents
  import opened UserModel
  import opened Database
  import opened Failures
  import UserRepo

  /** No two users share an email. */
  ghost predicate EmailsUnique(users: seq<User>) {
    KeysDistinct(users, UserEmail)
  }

  method CreateUser(db: Store, payload: UserData) returns (r: Result<User, Failure>)
    requires db.Valid()
    modifies db`users, db`nextId
    ensures db.Valid()
    ensures r == Err(EmailExists) <==> exists u :: u in old(db.users) && u.data.email == payload.email
    ensures r == Err(StoreFailure) <==> (forall u :: u in old(db.users) ==> u.data.email != payload.email) && old(db.nextId) == IdSpace
    ensures r.Ok? <==> (forall u :: u in old(db.users) ==> u.data.email != payload.email) && old(db.nextId) < IdSpace
    ensures r.Err? ==> db.users == old(db.users) && db.nextId == old(db.nextId)
    ensures r.Ok? ==> r.value.data == payload && db.users == old(db.users) + [r.value]
    ensures r.Ok? ==> db.nextId == old(db.nextId) + 1
    ensures EmailsUnique(old(db.users)) ==> EmailsUnique(db.users)
  {
    var existing := UserRepo.GetUserByEmail(db, payload.email);
    if existing.Some? {
      return Err(EmailExists);
    }
    var created := UserRepo.CreateUser(db, payload);
    if created.None? {
      return Err(StoreFailure);
    }
    if EmailsUnique(old(db.users)) {
      AppendKeepsKeysDistinct(old(db.users), created.value, UserEmail);
    }
    r := Ok(created.value);
  }

  function GetUser(db: Store, uid: Id): (r: Option<User>)
    reads db`users
    ensures r.Some? <==> HasId(db.users, uid)
    ensures r.Some? ==> IsValidId(uid) && r.value in db.users && r.value.id == Canonical(uid)
  {
    UserRepo.GetUserById(db, uid)
  }

  method UpdateUser(db: Store, uid: Id, patch: UserPatch) returns (r: Option<User>)
    requires db.Valid()
    modifies db`users
    ensures db.Valid()
    ensures r.Some? <==> HasId(old(db.users), uid)
    ensures r.None? ==> db.users == old(db.users)
    ensures r.Some? ==> IsValidId(uid) && r.value == Doc(Canonical(uid), ApplyUserPatch(old(UserRepo.GetUserById(db, uid)).value.data, patch))
    ensures r.Some? ==> db.users == SetData(old(db.users), Canonical(uid), r.value.data)
  {
    r := UserRepo.UpdateUser(db, uid, patch);
  }

  method DeleteUser(db: Store, uid: Id) returns (deleted: bool)
    requires db.Valid()
    modifies db`users
    ensures db.Valid()
    ensures deleted <==> HasId(old(db.users), uid)
    ensures forall u :: u in db.users <==> u in old(db.users) && (!IsValidId(uid) || u.id != Canonical(uid))
  {
    deleted := UserRepo.DeleteUser(db, uid);
  }

  /** `list_users()`: the repository listing with no filter, that is every user. */
  function ListUsers(db: Store): (r: seq<User>)
    reads db`users
    ensures r == db.users
  {
    UserRepo.ListUsers(db, None)
  }
}
