# Community chat: a Dafny model of the service layer and its document store

Community chat is a small chat backend. Users join communities, and members post messages to a community.

The model covers four parts:
- **The services**: `chat_service`, `community_service`, `user_service` and `auth_service`.
- **The repositories they call**: `message_repo`, `user_community_repo`, `community_repo` and `user_repo`.
- **The pydantic field rules** of the four model files.
- **The document store** behind the repositories.

The store is a single object, the class `Database.Store`:
- It holds the four collections `users`, `communities`, `memberships` (the `user_communities` collection) and `messages`.
- Each collection is a sequence of documents in insertion order. A document is an `_id` plus its fields.
- A counter, `nextId`, hands out fresh ObjectIds.
- `Store.Valid()` is the invariant every operation keeps:
  - the ids of a collection are distinct, valid, and issued by the counter;
  - no two memberships share a `(uid, cid)` pair. This is the unique index that `user_community_repo` creates.

The code is modelled in the form it takes in the source:
- Operations that change collections are methods with field-granular `modifies` frames (``db`messages``, ``db`nextId``, ...).
- Reads are functions with a `reads` clause on the store.
- The validators are pure functions.

Failures are modelled as follows:
- The `ValueError`s and `PermissionError`s the services raise become `Err` values of `Failures.Failure`.
- The repositories' `None`/`False` results stay `Option` and `bool`.
- An insert that finds no fresh id left stands for the driver raising. It is an `Err(StoreFailure)` or a `None`, never a precondition.

Three Mongo behaviours are modelled explicitly:
- **Filters** are the function `Documents.Where`, which keeps the matching documents in their order.
- **`find_one`** returns the first match.
- **`sort('created_at', -1).limit(n)`** sorts newest first. A limit of 0 means no limit, and a negative limit counts as its absolute value.

Time is an integer number of microseconds, passed in as `now`.

Ids are 24-character hexadecimal strings. Two spellings of one id, differing only in the case of their letters, name the same `ObjectId`:
- The repositories' `_id` look-ups go through `ObjectId(id)`, so they accept any spelling. The model compares the id's number (`ObjectIds.SameId`) or its canonical lower-case spelling (`ObjectIds.Canonical`), which is what the store keeps.
- Filters on the `uid` and `cid` fields of memberships and messages compare strings exactly, as Mongo does.

Two details of the code are kept as written:
- The user role literal is spelt `bussiness` (app/db/models/user.py:55).
- `send_message` (app/services/chat_service.py:20-44) does not check the text. Text rules exist only in the pydantic models, and here they are the separate functions of `MessageModel`.

The update documents the repositories build (`{'': update}`) and the recent-message filter (`{'created_at': {'': since}}`) are modelled by their evident intent:
- The updates are `$set` merges of typed patches.
- The filter is `created_at >= now - seconds`.

The recent-message filter as written is also modelled, under Findings.

## Model

| member | source | states |
|---|---|---|
| `Fields.RequireObjectId` | app/db/models/message.py:45-49 | an id field is accepted iff it is a valid ObjectId string, is kept unchanged as a string, and is otherwise rejected with an invalid-ObjectId error (`valid_objectid_str` here and at message.py:78-82, `valid_owner` at community.py:43-47 and 67-71) |
| `Fields.CheckLength` | app/db/models/community.py:28 | a string field passes iff `min <= len <= max`; otherwise it is too short or too long, as the length says |
| `MessageModel.TextNotBlank` | app/db/models/message.py:39-43 | text passes iff some character is not Python whitespace, so the empty and all-whitespace texts are refused |
| `MessageModel.CheckText` | app/db/models/message.py:34 | text passes iff it has at most 1000 characters and is not blank; the length bound is checked before the blank check |
| `MessageModel.ValidateMessageIn` | app/db/models/message.py:65-82 | `MessageIn` accepts iff uid, cid and text are all given, uid and cid are valid ids and the text passes; the accepted value holds the given fields; a rejection reports at least one error |
| `MessageModel.MessageInIdErrors` | app/db/models/message.py:68-69 | a rejection reports uid (and likewise cid) as missing exactly when it is absent, and as an invalid ObjectId exactly when it is given and not valid |
| `MessageModel.MessageInTextErrors` | app/db/models/message.py:70 | a rejection reports the text as missing exactly when it is absent, too long exactly when it has more than 1000 characters, and blank exactly when it is within the bound and blank |
| `MessageModel.ValidateMessageSchema` | app/db/models/message.py:23-49 | `MessageSchema` accepts exactly what `MessageIn` accepts, with the same errors, required fields included; `created_at` defaults to the construction time |
| `CommunityModel.CheckDescription` | app/db/models/community.py:31 | the description is absent or has at most 500 characters |
| `CommunityModel.ValidateCommunityIn` | app/db/models/community.py:62-71 | `CommunityIn` accepts iff the name is given with 3 to 100 characters, the description passes, and the owner is given and is a valid id; the accepted value holds the given fields; a rejection reports at least one error |
| `CommunityModel.CommunityInNameErrors` | app/db/models/community.py:63 | a rejection reports the name as missing, too short or too long exactly when it is |
| `CommunityModel.CommunityInOtherErrors` | app/db/models/community.py:64-65 | a rejection reports a description over 500 characters, a missing owner and an owner that is not a valid ObjectId exactly when they occur |
| `CommunityModel.ValidateCommunitySchema` | app/db/models/community.py:23-47 | `CommunitySchema` accepts exactly what `CommunityIn` accepts, with the same errors; both timestamps default to the construction time; omitted moderators become the empty list, while an explicit `None` stays `None` |
| `UserModel.ParseUserRole` | app/db/models/user.py:55 | exactly `user`, `organiser`, `bussiness` and `admin` are roles, and each maps back to its own name |
| `UserModel.UserRoleRoundTrip` | app/db/models/user.py:55 | every role parses back from its name |
| `UserModel.ValidateUserSchema` | app/db/models/user.py:32-55 | `UserSchema` is accepted iff name (3 to 100), email and password (at least 8) are given and the role is one of the four; the role defaults to `user`, `approved` to false and `created_at` to the construction time; the optional fields pass through |
| `UserModel.UserSchemaNameErrors` | app/db/models/user.py:37 | a rejected schema reports the name as missing, too short or too long exactly when it is |
| `UserModel.UserSchemaCredentialErrors` | app/db/models/user.py:39-40 | a rejected schema reports a missing email, a missing password and a password under 8 characters exactly when they occur |
| `UserModel.UserSchemaRoleErrors` | app/db/models/user.py:55 | a rejected schema reports the role exactly when it is given and is not one of the four roles |
| `UserCommunityModel.ParseMemberRole` | app/db/models/user_community.py:38 | exactly `member`, `moderator` and `owner` are membership roles |
| `UserCommunityModel.ValidateUserCommunitySchema` | app/db/models/user_community.py:23-38 | accepted iff uid and cid are given (their format is not checked) and the role, if given, is one of the three literals; each missing field and a disallowed role are reported exactly when they occur; the role defaults to `member` and `joined_at` to the construction time |
| `UserCommunityModel.ValidateUserCommunityIn` | app/db/models/user_community.py:55-57 | `UserCommunityIn` accepts iff uid and cid are both given, and keeps them; each is reported missing exactly when it is absent |
| `Database.Store.AllocateId` | app/db/repositories/message_repo.py:10 | an insert obtains a valid id never issued before, keeping the store invariant; it fails, changing nothing, once the id space is used up |
| `MessageRepo.CreateMessage` | app/db/repositories/message_repo.py:9-11 | the message is appended under a fresh id and returned, so the collection grows by exactly one |
| `ObjectIds.CanonicalSpelling` | app/db/repositories/community_repo.py:17 | two valid spellings have the same canonical spelling iff they name the same `ObjectId`, and the canonical spelling is canonical |
| `ObjectIds.UpperCaseSpelling` | app/db/repositories/community_repo.py:17 | the id issued tenth is canonical and has an upper-case spelling that differs from it as a string and names the same `ObjectId` |
| `Documents.HasIdAnySpelling` | app/db/repositories/community_repo.py:17 | in a well-formed collection, an id is found iff some document's id names the same `ObjectId`, however it is spelt |
| `MessageRepo.GetMessageById` | app/db/repositories/message_repo.py:14-17 | None for an invalid id; otherwise the stored message with that id in any spelling, None iff there is none |
| `MessageRepo.UpdateMessage` | app/db/repositories/message_repo.py:20-24 | None for an invalid or unknown id, in any spelling; otherwise that message becomes the patched one and is returned; all other messages are unchanged |
| `MessageRepo.DeleteMessage` | app/db/repositories/message_repo.py:27-31 | true iff the id is valid and a message had it, in any spelling; afterwards no message has it, and the collection shrinks by exactly the number deleted |
| `MessageRepo.Capped` | app/db/repositories/message_repo.py:37 | `.limit(n)` keeps all documents when n is 0, and otherwise at most `abs(n)` of them, exactly `abs(n)` when fewer would be dropped |
| `MessageRepo.SortNewestFirst` | app/db/repositories/message_repo.py:37 | the result is ordered by `created_at`, newest first, and is a permutation of the input |
| `MessageRepo.TopNewest` | app/db/repositories/message_repo.py:37 | sorted newest first, drawn from the input, with the length the limit allows; no message left out is newer than one kept |
| `MessageRepo.ListMessagesByCommunity` | app/db/repositories/message_repo.py:34-37 | empty for an invalid cid; otherwise messages of that community only, newest first, exactly as many as the limit allows, with nothing newer left out |
| `MessageRepo.CountRecentMessagesByUser` | app/db/repositories/message_repo.py:40-45 | 0 for an invalid uid (cid is not checked); positive iff the user has a message in that community at or after `now - seconds`; never more than the collection size |
| `MessageRepo.CountRecentIsNumberOfRecentMessages` | app/db/repositories/message_repo.py:40-45 | in a valid store the count equals the number of distinct recent messages of that user in that community |
| `MessageRepo.CountRecentMessagesByUserAsWritten` | app/db/repositories/message_repo.py:45 | with the filter as written, the count is always 0 |
| `UserCommunityRepo.IsMember` | app/db/repositories/user_community_repo.py:35-38 | true iff both ids are valid and a membership for the pair exists |
| `UserCommunityRepo.JoinCommunity` | app/db/repositories/user_community_repo.py:16-25 | None, changing nothing, for an invalid id or a pair that already has a record (the unique index of lines 9-13); otherwise it appends `{uid, cid, joined_at = now, role}` (role defaulting to member) under a fresh id; afterwards the user is a member; the pair stays unique |
| `UserCommunityRepo.LeaveCommunity` | app/db/repositories/user_community_repo.py:28-32 | true iff both ids are valid and the pair had a record; afterwards the user is not a member (so a second leave returns false); every other membership is kept |
| `UserCommunityRepo.MembersOfCommunity` | app/db/repositories/user_community_repo.py:41-44 | empty for an invalid cid; otherwise exactly the memberships with that cid |
| `UserCommunityRepo.CommunitiesForUser` | app/db/repositories/user_community_repo.py:47-50 | empty for an invalid uid; otherwise exactly the memberships with that uid |
| `CommunityRepo.CreateCommunity` | app/db/repositories/community_repo.py:9-11 | the community is appended under a fresh id and returned |
| `CommunityRepo.GetCommunityById` | app/db/repositories/community_repo.py:14-17 | None for an invalid id; otherwise the stored community with that id in any spelling, None iff there is none |
| `CommunityRepo.UpdateCommunity` | app/db/repositories/community_repo.py:20-24 | None for an invalid or unknown id; otherwise the patch is merged into that community only, and the result is returned |
| `CommunityRepo.DeleteCommunity` | app/db/repositories/community_repo.py:27-31 | true iff the id is valid and a community had it, in any spelling; it removes exactly that one and keeps the others |
| `CommunityRepo.ListCommunitiesForOwner` | app/db/repositories/community_repo.py:34-35 | exactly the communities with that owner; the argument is not checked |
| `UserRepo.CreateUser` | app/db/repositories/user_repo.py:10-13 | the user is appended under a fresh id and returned |
| `UserRepo.GetUserById` | app/db/repositories/user_repo.py:16-19 | None for an invalid id; otherwise the stored user with that id in any spelling, None iff there is none |
| `UserRepo.GetUserByEmail` | app/db/repositories/user_repo.py:22-23 | a stored user with that email, None iff there is none |
| `UserRepo.UpdateUser` | app/db/repositories/user_repo.py:26-30 | None for an invalid or unknown id; otherwise the patch is merged into that user only, and the result is returned |
| `UserRepo.DeleteUser` | app/db/repositories/user_repo.py:33-37 | true iff the id is valid and a user had it, in any spelling; it removes exactly that one |
| `UserRepo.ListUsers` | app/db/repositories/user_repo.py:40-43 | an absent or empty filter returns every user, in order; otherwise exactly the users matching the filter |
| `UserService.CreateUser` | app/services/user_service.py:5-10 | fails with email-exists, inserting nothing, iff a user already has the email; otherwise, while ids remain, it inserts exactly one user and uses one id; "no two users share an email" is preserved |
| `UserService.GetUser` | app/services/user_service.py:13-14 | the repository look-up: found iff the id is valid and stored |
| `UserService.UpdateUser` | app/services/user_service.py:17-18 | the repository update, with the same outcome |
| `UserService.DeleteUser` | app/services/user_service.py:21-22 | the repository delete, with the same outcome |
| `UserService.ListUsers` | app/services/user_service.py:25-26 | every user |
| `AuthService.ValidateBearerToken` | app/services/auth_service.py:4-9 | every token is accepted |
| `AuthService.GetUserIdFromToken` | app/services/auth_service.py:12-22 | None for the empty token; the token itself iff it is a valid ObjectId string; no store state is involved |
| `CommunityService.CreateCommunity` | app/services/community_service.py:7-17 | fails, changing nothing, iff the owner is not an existing user (or no id is left); otherwise appends the community and attempts the owner's membership with role owner; it returns the community whether or not that membership was recorded; it was recorded whenever the pair was new and ids remained; it uses one id, plus one for the membership when recorded |
| `CommunityService.GetCommunity` | app/services/community_service.py:20-21 | found iff the id is valid and stored |
| `CommunityService.AllowedFields` | app/services/community_service.py:31 | exactly the `name` and `description` entries of the update are kept, with their values |
| `CommunityService.AllowedPatch` | app/services/community_service.py:31-35 | merged into any community, it sets exactly the supplied name and description and `updated_at = now`, and leaves the owner, creation time and moderators alone |
| `CommunityService.UpdateCommunity` | app/services/community_service.py:24-35 | None for a missing community; a non-owner is refused with no change; the owner's update always returns the community; only name and description change, plus `updated_at = now` when one of them is given; the owner, creation time and moderators never change; with neither key, the stored community comes back unchanged; other communities are untouched |
| `CommunityService.DeleteCommunity` | app/services/community_service.py:38-55 | false for a missing community; a non-owner is refused; both leave the store unchanged; otherwise true, and afterwards no community, membership or message naming that community in any spelling remains, while every record of another community does |
| `CommunityService.DeleteDependents` | app/services/community_service.py:52-54 | the memberships and messages left are exactly those whose cid names another community, however spelt, and the store stays well formed |
| `CommunityService.DeleteDependentsAsWritten` | app/services/community_service.py:52-54 | with the filters as written, the memberships and messages left are exactly those whose cid is not the same string as the argument |
| `CommunityService.CascadeOrphans` | app/services/community_service.py:52-54 | for any canonical community id and any other spelling of it, there is a well-formed store holding that community and its owner's membership in which the other spelling finds the community, the as-written cascade keeps the membership and the corrected one removes it |
| `CommunityService.CascadeAsWrittenOrphansMembership` | app/services/community_service.py:45-54 | a concrete well-formed store and an upper-case id that finds the community, with the owner's membership kept by the as-written cascade and removed by the corrected one |
| `CommunityService.ListCommunitiesForOwner` | app/services/community_service.py:58-59 | exactly the communities with that owner |
| `ChatService.ValidateIds` | app/services/chat_service.py:16-17 | true iff both ids are 24 hexadecimal digits; each then names the same `ObjectId` as its canonical spelling |
| `ChatService.AdmitMessage` | app/services/chat_service.py:22-40 | it refuses with the first failing check, in the order ids, author, community, membership, rate limit, each exactly when the earlier ones pass and its own fails; none when all pass |
| `ChatService.SendMessage` | app/services/chat_service.py:20-44 | each failure happens exactly when every earlier check passed and its own fails, in this order: invalid ids, user missing, community missing, not a member, rate limit (5 in 60 s). It succeeds exactly when all checks pass and an id is left. A failure inserts nothing. A success uses one id and appends exactly one message `{uid, cid, text, created_at = now}` under a fresh id; the window count rises by one and stays within the limit |
| `ChatService.MayModify` | app/services/chat_service.py:55-60 | the requester is the author, or the owner of the stored community with the message's cid; once that community is gone, only the author |
| `ChatService.UpdateMessage` | app/services/chat_service.py:47-64 | an invalid id fails; a missing message gives None; a requester who may not modify is refused; all three change nothing; otherwise the edit always succeeds, and only that message's text changes, and its id, uid, cid and `created_at` stay |
| `ChatService.DeleteMessage` | app/services/chat_service.py:67-82 | an invalid id fails; a missing message gives false; a requester who may not modify is refused; all three change nothing; otherwise true, and exactly that message is removed |
| `ChatService.ListMessages` | app/services/chat_service.py:85-86 | empty for an invalid cid; messages of that community only, newest first, exactly as many as `.limit(limit)` keeps (default 100; 0 keeps all), with nothing newer left out |
| `ChatService.RateLimitNeverFiresAsWritten` | app/services/chat_service.py:37-40 | a member with five messages in the window reaches the limit with the intended count, but the count as written stays below it |

## Findings

| source | as written | input that shows it | evidently intended | confidence | as-written member | corrected member |
|---|---|---|---|---|---|---|
| app/db/repositories/message_repo.py:45 | `{'created_at': {'': since}}` has no `$` operator, so it compares `created_at` for equality with the embedded document `{'': since}`; a stored timestamp never equals a document, so `count_recent_messages_by_user` is always 0 and the check at app/services/chat_service.py:39 never fires | a member who sent five messages to a community in the last 60 seconds sends a sixth: counted 0, accepted | `created_at >= since` (`$gte`), so the sixth send fails with "rate limit exceeded" | medium; not executed | `MessageRepo.CountRecentMessagesByUserAsWritten`, `ChatService.RateLimitNeverFiresAsWritten` | `MessageRepo.CountRecentMessagesByUser`, `ChatService.SendMessage` |
| app/services/community_service.py:52-54 | `delete_community` finds and deletes the community through `ObjectId(cid)`, which accepts any letter case, but the cascade `delete_many({'cid': cid})` compares the stored cid strings exactly, and those hold the lower-case spelling `str(ObjectId)` produced | the owner deletes their community passing its id with upper-case letters: the community is deleted, and the owner's membership and the community's messages are kept, referring to a community that no longer exists | every membership and message of the deleted community is removed, whatever the spelling of the id | medium; not executed | `CommunityService.DeleteDependentsAsWritten`, `CommunityService.CascadeAsWrittenOrphansMembership` | `CommunityService.DeleteDependents`, `CommunityService.DeleteCommunity` |

## Left out

- The HTTP layer (`app/api`), the package re-export files and the tests are not part of this model.
- The MongoDB client (`app/core/database.py`) is replaced by the in-memory `Database.Store`.
- Ids stay strings throughout. A document's `_id` is kept as the lower-case spelling `str(ObjectId)` produces, and look-ups by `_id` accept any spelling. The byte layout of BSON `ObjectId` is not modelled.
- `ObjectIds.IsValidId` approximates `ObjectId.is_valid` as exactly 24 hexadecimal digits. bson also accepts 12-byte values and `ObjectId` instances. It also accepts 24-character strings that `bytes.fromhex` reads despite embedded spaces. None of these is modelled.
- `Database.Store.AllocateId` issues ids from a counter. Real ObjectIds are built from the clock, a machine value and a counter. Running out of ids stands for any failure of `insert_one`.
- Wall-clock time is the parameter `now`, in whole microseconds. Floating-point and time-zone details of `datetime` are left out.
- `MessageRepo.CreateMessage`, `ChatService.SendMessage`, `CommunityService.CreateCommunity`, `UserCommunityRepo.JoinCommunity`: the stored timestamp is the microsecond value `now`. BSON dates keep milliseconds, so the stored value is really `now` truncated to the millisecond. That truncation is not modelled, and the rate-limit window is compared at microsecond resolution.
- Concurrency is left out:
  - the race between two sends and the rate-limit count;
  - the non-atomic create-then-join and delete cascade;
  - the index creation at import time.

  Every service call is treated as atomic, and the unique index as a store invariant.
- The `id` fields of the schemas (a default-generated ObjectId) are left out. Ids are assigned by the store on insert.
- The `EmailStr` format check is left out. An email is any string.
- pydantic's `Config` settings, `schema_extra`, `json_encoders` and `__modify_schema__` are left out.
- `MessageRepo.UpdateMessage`, `CommunityRepo.UpdateCommunity`, `UserRepo.UpdateUser`: the update document `{'': update}` is modelled as the `$set` merge it evidently means. The patches set only some fields. `UserPatch` cannot set `secret`, `created_at` or `last_synced_location`. `CommunityPatch` cannot set `created_at` or `moderators`. No patch can remove a field or set an optional field to `null`. Updates with other keys are not modelled. As written, the driver refuses an update document whose keys are not `$` operators; that failure is not modelled.
- `CommunityService.UpdateCommunity`: update values are strings. A non-string value, such as `null` for the description, is not modelled.
- `UserRepo.ListUsers`: filters are equalities on the string-valued fields of a user. Query operators and filters on other fields are not modelled.
- `UserCommunityRepo.JoinCommunity`: the role is one of the three membership roles. The repository would store any string, but its callers pass only `owner` or the default `member`. The catch-all `except` is modelled only for the duplicate pair and for a failed insert.
- `CommunityService.CreateCommunity`, `UserService.CreateUser`: a payload is a typed record. A payload without `owner`, or without `email`, and extra keys or a caller-supplied `_id`, are not modelled.
- The discarded `members_of_community` call in `delete_community` has no effect and is left out.
- `MessageRepo.ListMessagesByCommunity`: Mongo leaves the order of messages with equal `created_at` unspecified. The contract does not fix it either.
- The model takes `find_one` to return the first match in insertion order.
- `PyObjectId` (app/db/models/message.py:13-16 and its copies in the other model files) types only the default-generated `id` fields of the schemas, which are left out above; its validation, which turns the string into an `ObjectId`, is not modelled.
