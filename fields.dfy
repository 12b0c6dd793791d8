/**
 * Field validation as the pydantic models perform it: each field's declared constraints
 * (required, length bounds, literal choices) are checked first, and a `@validator` runs only
 * on a value that passed them. A model collects the error of every failing field, in the
 * order the fields are declared.
 */
module Fields {
  import opened Wrappers
  import opened ObjectIds

  datatype FieldError =
    | Missing(field: string)          // a required field was not supplied
    | TooShort(field: string)         // shorter than min_length
    | TooLong(field: string)          // longer than max_length
    | Blank(field: string)            // empty or whitespace only
    | InvalidObjectId(field: string)  // not an ObjectId string
    | NotAllowed(field: string)       // not one of the values of a Literal

  /** The errors a field check contributes: none, or its one error. */
  function ErrorsOf<T>(r: Result<T, FieldError>): (es: seq<FieldError>)
    ensures r.Ok? <==> es == []
    ensures forall e :: e in es <==> r.Err? && e == r.error
  {
    match r
    case Ok(_) => []
    case Err(e) => [e]
  }

  /**
   * An ObjectId-valued field: the value is kept unchanged when it is a valid ObjectId
   * string and rejected otherwise (PyObjectId.validate, valid_objectid_str, valid_owner).
   */
  function RequireObjectId(field: string, v: string): (r: Result<Id, FieldError>)
    ensures r.Ok? <==> IsValidId(v)
    ensures r.Ok? ==> r.value == v
    ensures r.Err? ==> r.error == InvalidObjectId(field)
  {
    if IsValidId(v) then Ok(v) else Err(InvalidObjectId(field))
  }

  /** A required field (`Field(...)`): `Missing` when it is not supplied, otherwise its value. */
  function RequireField(field: string, v: Option<string>): (r: Result<string, FieldError>)
    ensures r.Ok? <==> v.Some?
    ensures r.Ok? ==> r.value == v.value
    ensures r.Err? ==> r.error == Missing(field)
  {
    if v.None? then Err(Missing(field)) else Ok(v.value)
  }

  /** A required ObjectId-valued field: its validator runs only on a value that was supplied. */
  function RequireObjectIdField(field: string, v: Option<string>): (r: Result<Id, FieldError>)
    ensures r.Ok? <==> v.Some? && IsValidId(v.value)
    ensures r.Ok? ==> r.value == v.value
    ensures r.Err? ==> r.error == (if v.None? then Missing(field) else InvalidObjectId(field))
  {
    if v.None? then Err(Missing(field)) else RequireObjectId(field, v.value)
  }

  /** A string field with `min_length` and `max_length`. */
  function CheckLength(field: string, v: string, min: nat, max: nat): (r: Result<string, FieldError>)
    ensures r.Ok? <==> min <= |v| <= max
    ensures r.Ok? ==> r.value == v
    ensures r.Err? ==> r.error == (if |v| < min then TooShort(field) else TooLong(field))
  {
    if |v| < min then Err(TooShort(field))
    else if |v| > max then Err(TooLong(field))
    else Ok(v)
  }
}
