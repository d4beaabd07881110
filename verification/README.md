# PingUp user relationships in Dafny

This project models the relationship bookkeeping of the PingUp server's user
controller (`server/controllers/userController.js`). It covers:

- following and unfollowing;
- the connection-request lifecycle: a request is sent under a rate limit, then
  accepted, and the pending list shows what is still waiting;
- the rule that decides which username `updateUserData` stores;
- the lookup-or-create rule of `getUserData` and `getUserProfiles`;
- the self-exclusion of `discoverUsers`.

The model has two tables:

- **Users**: a map from `_id` to a `User` record with its `followers`,
  `following` and `connections` id lists. The table also keeps its insertion
  order, which is the order `findOne` scans in.
- **Connections**: a sequence of `Request` records (`from`, `to`, `status`,
  `createdAt`).

Modules:

- `Records`: the documents and the reply tags.
- `Lists`: the `filter` that unfollow and discover use.
- `Queries`: the read-only queries. `findOne` is the first match in insertion
  order, `find(...).length` is a count, and the profile id is trimmed with
  JavaScript's `trim`.
- `Handlers`: one function per handler, from the tables before a request to
  the reply and the tables after it. The lemmas about the handlers are here.
- `Store`: the class `UserStore`. Its fields are the two tables, and each
  handler is a method that edits them step by step. Each method that
  changes the tables is proved to leave them as its `Handlers` function
  describes and to keep the store invariant `Valid`. The two read-only
  methods, `DiscoverUsers` and `GetUserConnections`, change nothing; their
  contracts state their answers in terms of the `Queries` functions.

The invariant `Valid` says three things:

- the insertion order lists every user exactly once;
- no two connection requests link the same two users, in either direction;
- no sender ever has more than 20 requests whose creation time falls in one
  24-hour window `(t - 24h, t]`.

The last point holds whatever values the clock takes. The rate-limit query
counts every request created after `now - 24h` and has no upper bound, so a
request stamped in the future also counts against its sender.

A handler that reads a user the table does not hold dereferences `null`. The
exception is caught and answered with `{success: false}`; the model's reply
for this is `MissingUser`. In follow, unfollow and accept, the caller's
document is saved before the second user is read. When the second user is
missing, that first save stays, and the contracts say so.

Four behaviours of the code are easy to misread; the model follows the code:

- acceptConnectionRequest does not check that the request is still pending
  (`userController.js:268`). Accepting twice therefore lists each user twice
  in the other's `connections`.
- The relationship lists are arrays that can hold duplicates, not sets.
  `followers` is appended to with no membership test.
- The rate limit counts requests created after `now - 24h`, with no upper
  bound on the creation time.
- discoverUsers matches with regular expressions built from the raw input,
  not with a plain substring test.

## Model

| member | source | states |
|---|---|---|
| Lists.Without | server/controllers/userController.js:179-183 | The `filter(v => v !== x)` result no longer contains `x`, and it keeps every other element exactly as many times as the input held it. |
| Lists.WithoutKeepsOrder | server/controllers/userController.js:179-183 | The filter only deletes elements and never reorders them: the result is a subsequence of the input. |
| Lists.WithoutAbsent | server/controllers/userController.js:179-183 | Filtering out a value that is not in the list returns the list unchanged. |
| Lists.WithoutIdempotent | server/controllers/userController.js:179-183 | Filtering twice by the same value gives the same list as filtering once. |
| Queries.First | server/controllers/userController.js:210-215 | `findOne` returns the first document in insertion order that matches, or nothing when no document matches. |
| Queries.FindPair | server/controllers/userController.js:210-215 | The send lookup returns the first request between the two users in either direction. It finds nothing exactly when no request links them. |
| Queries.FindIncoming | server/controllers/userController.js:268 | The accept lookup returns the first request from `sender` to `addressee`, in that direction only and whatever its status. It finds nothing exactly when no such request exists. |
| Queries.FindPairSymmetric | server/controllers/userController.js:210-215 | The pair lookup gives the same answer whichever of the two users asks. |
| Queries.QueryIsWindow | server/controllers/userController.js:202-205 | When no request is stamped after `now`, the rate-limit query made at `now` counts exactly the sender's requests in the 24-hour window ending at `now`. |
| Queries.SentWithinAppend | server/controllers/userController.js:218-221 | A new request adds one to a sender's window count exactly when it is that sender's and its time falls in the window. |
| Queries.WindowWithinQuery | server/controllers/userController.js:202-205 | Every request in a 24-hour window ending at or after `now` is counted by the rate-limit query made at `now`. |
| Queries.SentWithinSameStamps | server/controllers/userController.js:282 | The window counts depend only on each request's sender and creation time, so a status change does not affect them. |
| Queries.SentAfter | server/controllers/userController.js:202-205 | The rate-limit count is zero exactly when the user sent no request created strictly after `since`. There is no upper bound on the creation time. The count never exceeds the table size. |
| Queries.PendingFrom | server/controllers/userController.js:251-252 | The pending list holds exactly the senders of pending requests addressed to the user. It is never longer than the request table. |
| Queries.PendingFromAppend | server/controllers/userController.js:251-252 | A request stored after the others adds its sender at the end of the pending list exactly when it is pending and addressed to the user. Together with the empty table giving the empty list, this fixes the list's order and repeats. |
| Queries.Taken | server/controllers/userController.js:58-59 | The yes/no use of `findOne({username})` answers yes exactly when some listed user holds the name. |
| Queries.ChosenUsername | server/controllers/userController.js:55-63 | The stored name is the requested one or the current one. An empty request keeps the current name. A non-empty request is stored exactly when it equals the current name or no user holds it. A name that changes is never one already held. |
| Queries.FindByUsername | server/controllers/userController.js:347 | `findOne({username})` returns a user with that username that comes before every other such user in table order. It finds nothing exactly when no listed user has it. |
| Queries.Matching | server/controllers/userController.js:124-133 | The search returns exactly the listed users that the match predicate accepts. |
| Queries.MatchingAppend | server/controllers/userController.js:124-133 | A user listed after the others adds their id at the end of the search result exactly when they match. With the empty table giving the empty result, this fixes the result: each matching user once, in table order. |
| Queries.LeadingSpace | server/controllers/userController.js:338 | Counts the whitespace characters that `trim` removes at the start: all of them, and no more. |
| Queries.KeptEnd | server/controllers/userController.js:338 | Finds where `trim` cuts at the end: everything after the cut is whitespace, and the last kept character is not. |
| Queries.Trim | server/controllers/userController.js:338 | The trimmed id is a contiguous slice of the parameter. Everything cut away is JavaScript whitespace, and the result neither starts nor ends with whitespace. |
| Records.NewUser | server/controllers/userController.js:23-35 | A created user has the given email, full name and username, the default bio, empty picture, cover and location fields, and empty `followers`, `following` and `connections`. |
| Handlers.Insert | server/controllers/userController.js:37 | The upsert of an id the table does not hold adds that id with the new record, leaves every other record as it was, and appends the id to the insertion order. The requests are unchanged. |
| Handlers.InsertKeepsValid | server/controllers/userController.js:37 | Upserting an id the table does not hold keeps the insertion order a duplicate-free listing of the table, and keeps the request invariants. |
| Handlers.Follow | server/controllers/userController.js:150-161 | Already following fails with no change. A missing caller fails with no change. A missing target fails after the caller's save. On success the target is at the end of the caller's `following`, and the caller is at the end of the target's `followers`. Every other field of both records is unchanged, and so is every other user. A self-follow grows both lists of the one record. |
| Handlers.FollowTwiceRefused | server/controllers/userController.js:152-157 | After a follow has reached the caller's save, asking again is refused with no change, even when the target's list was never updated. |
| Handlers.FollowersNotDeduplicated | server/controllers/userController.js:159-161 | A successful follow adds one more occurrence of the caller to the target's `followers`, even when the caller was already listed there. |
| Handlers.Unfollow | server/controllers/userController.js:178-184 | The caller's `following` loses every occurrence of the target, and the target's `followers` loses every occurrence of the caller. Every other field of both records is unchanged, including the self-unfollow case. A missing target fails after the caller's save, which is the only change. Other users are untouched. |
| Handlers.UnfollowIdempotent | server/controllers/userController.js:178-184 | Unfollowing twice gives the same reply and the same tables as unfollowing once. |
| Handlers.SendRequest | server/controllers/userController.js:202-233 | 20 or more requests after `now - 24h` give `RateLimited` before any lookup. Otherwise a request in either direction blocks creation and answers by its status. Only when none exists is one pending request from caller to target appended and its id announced. Users are untouched. |
| Handlers.RateLimitBeforePairLookup | server/controllers/userController.js:202-215 | A rate-limited caller gets `RateLimited` even for a pair whose request is already accepted. |
| Handlers.SamePair | server/controllers/userController.js:210-215 | Two requests that link the same two users link each other's endpoints. |
| Handlers.OnePerPair | server/controllers/userController.js:210-221 | Under the pair invariant, two requests between the same two users are the same request. |
| Handlers.SendReportsPairStatus | server/controllers/userController.js:210-233 | Under the pair invariant, a blocked send answers `AlreadyConnected` or `RequestPending` according to the status of the pair's only request, whichever user sent it. |
| Handlers.SendUnderLimitSucceeds | server/controllers/userController.js:202-221 | The limit is not stricter than 20: when no request is stamped after `now`, a sender with fewer than 20 requests in the last 24 hours and no request with the target gets one new pending request. |
| Handlers.SendSymmetric | server/controllers/userController.js:210-233 | Two users who are both under the rate limit get the same reply whichever of them sends. |
| Handlers.SendKeepsValid | server/controllers/userController.js:202-221 | Sending keeps one request per pair, and keeps every sender at 20 or fewer requests in every 24-hour window. |
| Handlers.AcceptRequest | server/controllers/userController.js:268-283 | Answers `ConnectionNotFound`, with no change, exactly when no request from `sender` to the caller exists. A missing caller answers `MissingUser` with no change. On success each id is appended to the other user's `connections`, every other field of both records is unchanged, and the first such request becomes accepted. A self-accept appends the caller twice. A missing sender fails after the caller's save. |
| Handlers.AcceptTwiceDuplicates | server/controllers/userController.js:268-283 | Accepting the same request a second time succeeds again, so each user is listed twice in the other's `connections`. |
| Handlers.AcceptIsDirectional | server/controllers/userController.js:268-272 | Under the pair invariant, a pending request the caller sent to another user cannot be accepted by the caller. The reply is `ConnectionNotFound` and nothing changes. If the other user is under the rate limit, their send answers `RequestPending`. |
| Handlers.AcceptClearsPending | server/controllers/userController.js:251-282 | Under the pair invariant, after a successful accept the sender is no longer on the caller's pending list. |
| Handlers.AcceptKeepsValid | server/controllers/userController.js:268-283 | Accepting keeps one request per pair and keeps the window bound. |
| Handlers.ConnectScenario | server/controllers/userController.js:210-283 | User `a` sends a request to `b`, which is stored as pending. `b` accepts it: the request becomes accepted and each user lists the other in `connections`. A later send from `a` to `b` answers `AlreadyConnected`. |
| Handlers.UpdateUsername | server/controllers/userController.js:53-63 | A missing caller fails with no change. Otherwise only the caller's username changes. It becomes the name `ChosenUsername` picks from the requested and the current name, so a changed name was held by no user. |
| Handlers.UpdateKeepsUsernamesUnique | server/controllers/userController.js:57-63 | If no two users shared a username before the update, none do after it. |
| Handlers.ProvisionSelf | server/controllers/userController.js:18-39 | Returns the caller's record. If the caller is not in the table, a new record is created from the identity claims with default fields and empty lists. |
| Handlers.ResolveProfile | server/controllers/userController.js:338-395 | The returned profile always exists, and its id or its username is the trimmed parameter. Existing records are never changed. An id match wins; otherwise a username match returns the first user in table order that holds it. When neither matches, exactly one placeholder is upserted under the trimmed id: the caller's claims for the caller's own id, otherwise `full_name 'User'` with the id as username. |
| Handlers.ResolveCreatesOnlyWhenUnknown | server/controllers/userController.js:351-394 | A placeholder is created exactly when neither the id nor any username matches. It takes the caller's claims for the caller's own id, and otherwise `full_name 'User'` with the id as username. |
| Handlers.ResolveIdempotent | server/controllers/userController.js:342-395 | Looking up the same profile a second time returns the same record and changes nothing. |
| Handlers.ResolveKeepsValid | server/controllers/userController.js:362-392 | Looking up a profile keeps the store invariant. |
| Handlers.ProvisionKeepsValid | server/controllers/userController.js:37 | Auto-creating the caller keeps the store invariant. |
| Handlers.UserEditsKeepValid | server/controllers/userController.js:150-184 | Following, unfollowing and renaming keep the store invariant. |
| Store.UserStore.GetUserData | server/controllers/userController.js:10-45 | Looks up the caller and upserts a new record when it is missing. The result is the state `ProvisionSelf` describes, and the invariant still holds. |
| Store.UserStore.UpdateUserData | server/controllers/userController.js:53-108 | Carries out the username rule step by step and saves the chosen name. The result is the state `UpdateUsername` describes. |
| Store.UserStore.DiscoverUsers | server/controllers/userController.js:124-134 | Returns exactly the matching users other than the caller, in the order the search returned them. |
| Store.UserStore.FollowUser | server/controllers/userController.js:145-170 | Pushes and saves one document at a time. The result is the state `Follow` describes, and the invariant still holds. |
| Store.UserStore.UnfollowUser | server/controllers/userController.js:173-193 | Reassigns the two filtered lists one document at a time. The result is the state `Unfollow` describes. |
| Store.UserStore.SendConnectionRequest | server/controllers/userController.js:196-239 | Checks the rate limit, then the pair lookup, then creates the request. The result is the state `SendRequest` describes, so the window bound and pair uniqueness still hold. |
| Store.UserStore.GetUserConnections | server/controllers/userController.js:242-260 | Fails exactly when the caller is missing. Otherwise returns the caller's three lists and the pending list `PendingFrom` gives. That list holds the senders of pending requests addressed to the caller, in request order. |
| Store.UserStore.AcceptConnectionRequest | server/controllers/userController.js:263-291 | Pushes onto both `connections` lists, then marks the request accepted. The result is the state `AcceptRequest` describes. |
| Store.UserStore.GetUserProfiles | server/controllers/userController.js:335-406 | Looks up by id, then by username, then upserts a placeholder. The result is the state `ResolveProfile` describes, and the returned profile is in the table. |

## Left out

- Image upload and URL building for the profile and cover pictures, and the temporary-file reads (`userController.js:72-106`). These are calls into an external image service and the file system.
- The `bio`, `location` and `full_name` fields that updateUserData also writes (`userController.js:65-67`). Only the username rule and the stored username are modelled.
- The event-bus message after a request is created (`userController.js:223-226`) is recorded only as the new request's id appended to `events`. If the bus fails after the request was created, the handler replies with a failure while the request remains; that case is not modelled.
- The regular-expression search of discoverUsers (`userController.js:124-133`) is replaced by an abstract predicate `matches` over user records. JavaScript `RegExp` semantics on raw input are not modelled.
- `populate` is not modelled (`userController.js:245-252`). The model returns ids where the handlers return documents. Users are never deleted, but an id can have no document: a follow or accept whose second user was missing leaves that id in the caller's list (`:156-159`, `:275-278`). Populate drops such ids from the three lists, and it turns a pending request whose sender has no document into `null`; neither is modelled.
- `Post.find` in getUserProfiles (`userController.js:398`). The `Post` model is not part of this model.
- The `Connection` and `User` schemas are not part of this model. That a new request starts as `pending` is read off the query at `userController.js:251`. A request's database id is modelled as its position in the table.
- Handlers.SendRequest: the new request is stamped with the `now` the rate-limit window is computed from (`userController.js:202`). The database stamps it when `Connection.create` runs (`:218`), slightly later; that gap is not modelled.
- Database and network errors other than reading a missing user. Every store call is assumed to succeed.
- Concurrent requests. Each handler runs to completion before the next one starts. Lost updates between two requests racing on one document are not modelled.
- Logging, the JSON reply bodies and their message texts. Replies are tags.
- The test endpoints getAllUsers and createTestUser (`userController.js:295-332`), the route table, the authentication middleware and the React profile page. The middleware guarantees that every handler sees an authenticated `userId`.
