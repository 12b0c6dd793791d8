/** The placeholder authentication: every bearer token is accepted and a token that is an ObjectId is the caller's user id. */
module AuthService {
  import opened Wrappers
  import opened ObjectIds

  function ValidateBearerToken(token: string): (ok: bool)
    ensures ok
  {
    true
  }

  /** The user id a token names: the token itself when it is a valid ObjectId string. */
  function GetUserIdFromToken(token: string): (r: Option<Id>)
    ensures token == [] ==> r.None?
    ensures r.Some? <==> IsValidId(token)
    ensures r.Some? ==> r.value == token && IsValidId(r.value)
  {
    if token == [] then None
    else if IsValidId(token) then Some(token)
    else None
  }
}
