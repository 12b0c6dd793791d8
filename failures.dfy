/**
 * What the services raise. Each constructor stands for one `ValueError` or
 * `PermissionError` message of the service layer, or for an insert the store refused.
 */
module Failures {
  datatype Failure =
    | InvalidIds            // 'uid and cid must be valid ObjectId strings'
    | UserDoesNotExist      // 'user does not exist'
    | CommunityDoesNotExist // 'community does not exist'
    | NotAMember            // 'user is not a member of this community'
    | RateLimitExceeded     // 'rate limit exceeded'
    | InvalidMessageId      // 'message id must be a valid ObjectId'
    | NotAuthorized         // PermissionError: neither the author nor the community owner
    | OwnerDoesNotExist     // 'owner user does not exist'
    | OnlyOwner             // PermissionError: 'only owner can update/delete community'
    | EmailExists           // 'email already exists'
    | StoreFailure          // the insert raised: no fresh id was left
}
