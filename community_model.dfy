/** Communities: the stored record and the two pydantic models (`CommunitySchema`, `CommunityIn`). */
module CommunityModel {
  import opened Wrappers
  import opened ObjectIds
  import opened Documents
  import opened Fields

  datatype CommunityData = CommunityData(
    name: string,
    description: Option<string>,
    owner: Id,
    createdAt: Option<Time>,
    updatedAt: Option<Time>,
    moderators: Option<seq<Id>>)

  type Community = Doc<CommunityData>

  function CommunityOwner(c: Community): Id { c.data.owner }

  const MinNameLength: nat := 3
  const MaxNameLength: nat := 100
  const MaxDescriptionLength: nat := 500

  /** The `description` field: absent, or at most 500 characters. */
  function CheckDescription(description: Option<string>): (r: Result<Option<string>, FieldError>)
    ensures r.Ok? <==> description.None? || |description.value| <= MaxDescriptionLength
    ensures r.Ok? ==> r.value == description
    ensures r.Err? ==> r.error == TooLong("description")
  {
    if description.Some? && |description.value| > MaxDescriptionLength then Err(TooLong("description"))
    else Ok(description)
  }

  /** The required `name` field: missing, then `min_length=3` and `max_length=100`. */
  function CheckNameField(name: Option<string>): (r: Result<string, FieldError>)
    ensures r.Ok? <==> name.Some? && MinNameLength <= |name.value| <= MaxNameLength
    ensures r.Ok? ==> r.value == name.value
    ensures r.Err? ==> r.error.field == "name"
  {
    if name.None? then Err(Missing("name")) else CheckLength("name", name.value, MinNameLength, MaxNameLength)
  }

  /** The errors of the fields name, description and owner, in declaration order; `None` is a field not supplied. */
  function CommunityFieldErrors(name: Option<string>, description: Option<string>, owner: Option<string>): seq<FieldError> {
    ErrorsOf(CheckNameField(name))
    + ErrorsOf(CheckDescription(description))
    + ErrorsOf(RequireObjectIdField("owner", owner))
  }

  /** A community as the `CommunityIn` request body carries it. */
  datatype CommunityInput = CommunityInput(name: string, description: Option<string>, owner: Id)

  /** Building a `CommunityIn`: name and owner are required, the description is optional. */
  function ValidateCommunityIn(name: Option<string>, description: Option<string>, owner: Option<string>)
    : (r: Result<CommunityInput, seq<FieldError>>)
    ensures r.Ok? <==>
      && name.Some? && MinNameLength <= |name.value| <= MaxNameLength
      && (description.None? || |description.value| <= MaxDescriptionLength)
      && owner.Some? && IsValidId(owner.value)
    ensures r.Ok? ==> r.value == CommunityInput(name.value, description, owner.value)
    ensures r.Err? ==> r.error != []
  {
    var errors := CommunityFieldErrors(name, description, owner);
    if errors == [] then Ok(CommunityInput(name.value, description, owner.value)) else Err(errors)
  }

  /** A rejected `CommunityIn` reports the name as missing, too short or too long exactly when it is. */
  lemma CommunityInNameErrors(name: Option<string>, description: Option<string>, owner: Option<string>)
    ensures var r := ValidateCommunityIn(name, description, owner);
      r.Err? ==>
        && (Missing("name") in r.error <==> name.None?)
        && (TooShort("name") in r.error <==> name.Some? && |name.value| < MinNameLength)
        && (TooLong("name") in r.error <==> name.Some? && |name.value| > MaxNameLength)
  {
    var r := ValidateCommunityIn(name, description, owner);
    if r.Err? {
      var others := ErrorsOf(CheckDescription(description)) + ErrorsOf(RequireObjectIdField("owner", owner));
      assert r.error == ErrorsOf(CheckNameField(name)) + others;
      assert forall e: FieldError :: e in others ==> e.field != "name";
    }
  }

  /**
   * A rejected `CommunityIn` reports a description over 500 characters, and an owner that is
   * missing or not an ObjectId, exactly when that is so.
   */
  lemma CommunityInOtherErrors(name: Option<string>, description: Option<string>, owner: Option<string>)
    ensures var r := ValidateCommunityIn(name, description, owner);
      r.Err? ==>
        && (TooLong("description") in r.error <==> description.Some? && |description.value| > MaxDescriptionLength)
        && (Missing("owner") in r.error <==> owner.None?)
        && (InvalidObjectId("owner") in r.error <==> owner.Some? && !IsValidId(owner.value))
  {
    var r := ValidateCommunityIn(name, description, owner);
    if r.Err? {
      var names := ErrorsOf(CheckNameField(name));
      assert r.error == names + (ErrorsOf(CheckDescription(description)) + ErrorsOf(RequireObjectIdField("owner", owner)));
      assert forall e: FieldError :: e in names ==> e.field == "name";
    }
  }

  /**
   * Building a `CommunitySchema` (the id field aside). It accepts exactly what `CommunityIn`
   * accepts; both timestamps default to the construction time. `moderators` defaults to no
   * one when it is not supplied (`None`), and keeps what was supplied, an explicit null
   * (`Some(None)`) included.
   */
  function ValidateCommunitySchema(
    name: Option<string>, description: Option<string>, createdAt: Option<Time>, updatedAt: Option<Time>,
    owner: Option<string>, moderators: Option<Option<seq<Id>>>, now: Time)
    : (r: Result<CommunityData, seq<FieldError>>)
    ensures r.Ok? <==> ValidateCommunityIn(name, description, owner).Ok?
    ensures r.Err? ==> r.error == ValidateCommunityIn(name, description, owner).error
    ensures r.Ok? ==> r.value.name == name.value && r.value.description == description && r.value.owner == owner.value
    ensures r.Ok? ==> r.value.createdAt == Some(if createdAt.Some? then createdAt.value else now)
    ensures r.Ok? ==> r.value.updatedAt == Some(if updatedAt.Some? then updatedAt.value else now)
    ensures r.Ok? ==> r.value.moderators == (if moderators.Some? then moderators.value else Some([]))
  {
    var errors := CommunityFieldErrors(name, description, owner);
    if errors == [] then
      Ok(CommunityData(name.value, description, owner.value, Some(createdAt.GetOr(now)), Some(updatedAt.GetOr(now)),
                       moderators.GetOr(Some([]))))
    else Err(errors)
  }

  /** The fields an update document may set on a community (a `$set` merge). */
  datatype CommunityPatch = CommunityPatch(
    name: Option<string>,
    description: Option<string>,
    owner: Option<Id>,
    updatedAt: Option<Time>)

  function ApplyCommunityPatch(c: CommunityData, p: CommunityPatch): CommunityData {
    c.(name := p.name.GetOr(c.name),
       description := if p.description.Some? then p.description else c.description,
       owner := p.owner.GetOr(c.owner),
       updatedAt := if p.updatedAt.Some? then p.updatedAt else c.updatedAt)
  }
}
