/** Memberships: the user-to-community relation with a per-community role (`UserCommunitySchema`, `UserCommunityIn`). */
module UserCommunityModel {
  import opened Wrappers
  import opened ObjectIds
  import opened Documents
  import opened Fields

  datatype MemberRole = Member | Moderator | Owner

  function MemberRoleName(r: MemberRole): string {
    match r
    case Member => "member"
    case Moderator => "moderator"
    case Owner => "owner"
  }

  /** The `Literal['member', 'moderator', 'owner']` check. */
  function ParseMemberRole(s: string): (r: Option<MemberRole>)
    ensures r.Some? <==> s == "member" || s == "moderator" || s == "owner"
    ensures r.Some? ==> MemberRoleName(r.value) == s
  {
    if s == "member" then Some(Member)
    else if s == "moderator" then Some(Moderator)
    else if s == "owner" then Some(Owner)
    else None
  }

  datatype MembershipData = MembershipData(uid: Id, cid: Id, joinedAt: Time, role: MemberRole)

  type Membership = Doc<MembershipData>

  /**
   * A membership as the `UserCommunityIn` request body carries it: only the two ids; the
   * role and the joining time are chosen by whoever stores it.
   */
  datatype MembershipInput = MembershipInput(uid: Id, cid: Id)

  /** Building a `UserCommunityIn`: both ids are required strings; their form is not checked. */
  function ValidateUserCommunityIn(uid: Option<string>, cid: Option<string>): (r: Result<MembershipInput, seq<FieldError>>)
    ensures r.Ok? <==> uid.Some? && cid.Some?
    ensures r.Ok? ==> r.value == MembershipInput(uid.value, cid.value)
    ensures r.Err? ==> (Missing("uid") in r.error <==> uid.None?)
    ensures r.Err? ==> (Missing("cid") in r.error <==> cid.None?)
  {
    var errors := ErrorsOf(RequireField("uid", uid)) + ErrorsOf(RequireField("cid", cid));
    if errors == [] then Ok(MembershipInput(uid.value, cid.value)) else Err(errors)
  }

  /** The `role` field: one of the three literals, `member` when not supplied. */
  function CheckMemberRole(role: Option<string>): (r: Result<MemberRole, FieldError>)
    ensures r.Ok? <==> role.None? || role.value in {"member", "moderator", "owner"}
    ensures r.Ok? ==> MemberRoleName(r.value) == (if role.Some? then role.value else "member")
    ensures r.Err? ==> r.error == NotAllowed("role")
  {
    if role.None? then Ok(Member)
    else if ParseMemberRole(role.value).None? then Err(NotAllowed("role"))
    else Ok(ParseMemberRole(role.value).value)
  }

  /**
   * Building a `UserCommunitySchema` (the id field aside). `uid` and `cid` are required plain
   * strings, the role must be one of the three literals and defaults to member, and
   * `joined_at` defaults to the construction time.
   */
  function ValidateUserCommunitySchema(uid: Option<string>, cid: Option<string>, joinedAt: Option<Time>, role: Option<string>, now: Time)
    : (r: Result<MembershipData, seq<FieldError>>)
    ensures r.Ok? <==> uid.Some? && cid.Some? && (role.None? || role.value in {"member", "moderator", "owner"})
    ensures r.Err? ==> (Missing("uid") in r.error <==> uid.None?)
    ensures r.Err? ==> (Missing("cid") in r.error <==> cid.None?)
    ensures r.Err? ==> (NotAllowed("role") in r.error <==> role.Some? && role.value !in {"member", "moderator", "owner"})
    ensures r.Ok? ==> r.value.uid == uid.value && r.value.cid == cid.value
    ensures r.Ok? ==> r.value.joinedAt == (if joinedAt.Some? then joinedAt.value else now)
    ensures r.Ok? ==> MemberRoleName(r.value.role) == (if role.Some? then role.value else "member")
  {
    var checkedRole := CheckMemberRole(role);
    var errors := ErrorsOf(RequireField("uid", uid)) + ErrorsOf(RequireField("cid", cid)) + ErrorsOf(checkedRole);
    if errors == [] then Ok(MembershipData(uid.value, cid.value, joinedAt.GetOr(now), checkedRole.value))
    else Err(errors)
  }

  function MembershipUid(m: Membership): Id { m.data.uid }

  function MembershipCid(m: Membership): Id { m.data.cid }

  function PairOf(m: Membership): (Id, Id) {
    (m.data.uid, m.data.cid)
  }

  /** Some membership records the pair (uid, cid). */
  predicate HasPair(ms: seq<Membership>, uid: Id, cid: Id) {
    exists m :: m in ms && m.data.uid == uid && m.data.cid == cid
  }

  /** The unique index on (uid, cid): at most one membership per pair. */
  ghost predicate PairsUnique(ms: seq<Membership>) {
    KeysDistinct(ms, PairOf)
  }
}
