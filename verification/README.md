# Microblog users, follows and post-list actions in Dafny

This project models three sequential pieces of a CakePHP/React microblog. Each piece is written as pure functions over immutable records and sequences.

- **The users table** (`src/Model/Table/UsersTable.php`):
  - The signup validator (`validationDefault`) with its birthdate check `notExceedCurrentDate`, and the uniqueness rules (`buildRules`).
  - `addUser`, `activateAccount` and `fetchByUsername`.
  - The recommendation listings `fetchNotFollowedUsers` and `fetchRecommendedUsers`.
- **The followers table** (`src/Model/Table/FollowersTable.php`): directed follow edges, the existence rules checked when an edge is saved, and `countFollowers` / `countFollowing`.
- **The client post-list actions** (`clients/src/store/actions/postActions.js`):
  - The paginated fetchers `getPostsForLanding` and `getUserPosts`, as the sequence of store actions each one dispatches.
  - The requests built by `addPost` and `updatePost`.

## How the model is built

- The database tables are sequences of rows.
- The users table has a soft-delete scope, so every query through it sees only rows whose `deleted` column is null. That covers finds, `exists`, `validateUnique`, `isUnique`, and the followers table's `existsIn(..., 'Users')`. `UserRecords.Visible` is that filter.
- The followers table has no such scope. Its counts therefore include rows whose `deleted` column is set.
- A signup payload is a map from field to text. A field missing from the map was not sent.
- The validator follows the framework's algorithm for a new record:
  - A required field that is absent gets `_required` and nothing else.
  - An empty value that is not allowed gets `_empty` and nothing else.
  - An allowed empty value, or an absent optional field, gets no error.
  - Otherwise every value rule of the field runs, and each failure is recorded.
- `UserValidation.AcceptableSignup` restates the signup conditions field by field. `UserValidation.ValidateAccepts` proves that it accepts exactly the payloads the rule table accepts.
- Library calls are parameters of `UserValidation.Env`: the email-format check, the date-format check, `strtotime` and `time()`.
- The stored procedure `getNotFollowedUsers` is a function parameter of `UsersTable.FetchRecommendedUsers`.
- Each HTTP call of the client is an input: a success carrying the response data, or a failure.
- The store's reducer is not among the modelled files, so `PostsReducer.Reduce` is an assumption about it. Every effect lemma about the fetchers depends on these four meanings:
  - `SET_POSTS` replaces the list ("override all posts", as the fetchers' comments say).
  - `ADD_POSTS` appends to it ("add additional posts").
  - `TOGGLE_LOADING_POST` sets the loading flag to its payload.
  - `SET_PAGE` sets the current page to its payload.

The model follows the code in these places, where the code's behaviour may be unexpected:

- `fetchNotFollowedUsers` filters only on activation and on `id` differing from the viewer's. Despite its name, it does not exclude users the viewer already follows.
- The birthdate must be strictly earlier than `time()`.
- When `strtotime` fails, `notExceedCurrentDate` compares `false < $now`. PHP evaluates that as a boolean comparison, so the rule holds whenever `now` is non-zero. The date-format rule still rejects such a value.
- The name rule is a character blacklist (`% # / * @ !` and the digits), not a letters-only check.
- Follow counts include soft-deleted edges.
- No rule forbids following oneself.
- `activateAccount` with a key that matches no visible user fails: the source dereferences the missing row.
- `Query::page` rejects page numbers below 1. The fetchers report that as an error.
- `addUser` checks the uniqueness rules again when it saves. `UsersTable.AddUser` proves that this second check never fails after validation has passed. So the `InternalErrorException` branch is reached only by a storage fault.

## Model

| member | source | states |
|---|---|---|
| UserRecords.FirstMatchFrom | src/Model/Table/UsersTable.php:256-258 | the row `first()` returns is the earliest visible row that matches; no visible row before it matches, and no result means no visible row matches |
| UserValidation.Validate | src/Model/Table/UsersTable.php:79-188 | the error map of `validationDefault` on a new record: a missing field has an entry exactly when it is required on create, and then only `_required`; an empty value has an entry exactly when the field is not the activation key, and then only `_empty`; any other value never gets `_required` or `_empty`, and gets a broken-rule entry for exactly the rules of its field that it fails |
| UserValidation.ValidateAccepts | src/Model/Table/UsersTable.php:79-188 | the validator's error map is empty exactly when every field condition holds: all required fields present, username 6-20 characters and unused, names within 70/35 characters with no blacklisted character, email well-formed and unused, birthdate a date before now, password 1-255 characters, sex `M` or `F`, activation key at most 255 characters (empty allowed), confirmation equal to the password, role non-empty if sent, `is_activated` boolean if sent |
| UserValidation.LettersOnlyMeansNoForbiddenChar | src/Model/Table/UsersTable.php:103-107 | the name pattern matches exactly the non-empty strings with none of `% # / * @ !` or a digit |
| UserValidation.MissingFieldRejected | src/Model/Table/UsersTable.php:85-185 | leaving out any of username, first_name, last_name, email, birthdate, password, sex, activation_key or confirm_password gives that field exactly the `_required` error |
| UserValidation.FutureBirthdateRejected | src/Model/Table/UsersTable.php:306-315 | a birthdate that parses to a time at or after now is reported as breaking `notExceedCurrentDate` |
| CreatedOrder.SortNewestFirst | src/Model/Table/UsersTable.php:295 | the listing order is newest `created` first and a permutation of the rows it orders |
| CreatedOrder.SortKeepsIdsUnique | src/Model/Table/UsersTable.php:295 | ordering the rows does not duplicate any user |
| Paging.Window | src/Model/Table/UsersTable.php:297-298 | a page holds the rows from the offset on, at most `limit` of them, and none past the end |
| Paging.FirstPagesArePrefix | src/Model/Table/UsersTable.php:297-298 | pages 1 to k read in order are exactly the first k*limit rows (or all rows): nothing skipped, nothing repeated |
| UsersTable.AddUser | src/Model/Table/UsersTable.php:226-246 | a payload carrying `is_activated` is refused before validation with the store unchanged; an invalid payload returns exactly the validator's (non-empty) error map with the store unchanged, and a missing required field is reported as `_required`; a valid payload appends exactly one visible, not activated user with a fresh id, storing every sent column as sent, `role` at its default when not sent and no avatar; the save never fails after validation; unique ids are preserved |
| UsersTable.TakenValueRejected | src/Model/Table/UsersTable.php:85-96 | a signup whose username (or email, :123-132) a visible user already holds is rejected with a uniqueness error on that field and changes nothing |
| UsersTable.RepeatedSignupRejected | src/Model/Table/UsersTable.php:85-132 | after one signup succeeds, a second signup with the same username (or email) is rejected with a uniqueness error on that field and changes nothing |
| UsersTable.FetchByUsername | src/Model/Table/UsersTable.php:205-215 | returns a visible user with that username, and fails with not-found exactly when there is none |
| UsersTable.SignupThenLookup | src/Model/Table/UsersTable.php:205-246 | a user who has just signed up is found by their username, and the row found is the new row |
| UsersTable.ActivateAccount | src/Model/Table/UsersTable.php:254-264 | fails exactly when no visible user has the key; otherwise sets `is_activated` on the first visible user with that key and leaves every other row unchanged |
| UsersTable.ActivationIsIdempotent | src/Model/Table/UsersTable.php:254-264 | activating a second time with the same key changes nothing |
| UsersTable.Eligible | src/Model/Table/UsersTable.php:293-294 | keeps exactly the visible, activated users other than the viewer |
| UsersTable.EligibleKeepsIdsUnique | src/Model/Table/UsersTable.php:293-294 | filtering a store with unique ids does not duplicate any id |
| UsersTable.Ranking | src/Model/Table/UsersTable.php:293-295 | the eligible users ordered newest first, with exactly the same members |
| UsersTable.FetchNotFollowedUsers | src/Model/Table/UsersTable.php:291-300 | pages below 1 are errors; page p is the window of the ranked summaries starting at (p-1)*perPage, at most perPage long, and lists only visible, activated users other than the viewer |
| UsersTable.FetchedPagesArePrefix | src/Model/Table/UsersTable.php:291-300 | pages 1 to k read in order are exactly the newest k*perPage eligible users (or all of them), in ranking order |
| UsersTable.PagesListEveryEligibleUserOnce | src/Model/Table/UsersTable.php:291-300 | once the pages cover the listing, every eligible user appears once, no id appears twice and no one else appears |
| UsersTable.FetchRecommendedUsers | src/Model/Table/UsersTable.php:275-289 | the stored procedure is asked for offset (p-1)*perPage; its rows are returned when there are any, and otherwise the result is exactly `fetchNotFollowedUsers` for the same page |
| UsersTable.RecommendationsNotEmptyWhileRowsRemain | src/Model/Table/UsersTable.php:284-286 | whatever the stored procedure returns, the result is non-empty while the fallback listing still has rows at that offset |
| FollowersTable.SaveEdge | src/Model/Table/FollowersTable.php:80-86 | an edge is stored exactly when both ends are existing visible users, self-edges included; it is appended and nothing else changes; a refusal reports which of the two rules failed |
| FollowersTable.CountFollowers | src/Model/Table/FollowersTable.php:88-93 | the number of stored rows whose `following_id` is the user, rows marked deleted included |
| FollowersTable.CountFollowing | src/Model/Table/FollowersTable.php:95-100 | the number of stored rows whose `user_id` is the user, rows marked deleted included |
| FollowersTable.SaveEdgeAdjustsCounts | src/Model/Table/FollowersTable.php:80-100 | storing the edge (a, b) raises a's following count and b's follower count by one and leaves every other count unchanged |
| FollowersTable.CountsIgnoreDeletedMark | src/Model/Table/FollowersTable.php:88-100 | marking a row deleted changes no count |
| FollowersTable.SaveEdgeKeepsReferences | src/Model/Table/FollowersTable.php:80-86 | if every edge joins existing users before a successful save, the same holds after it |
| FollowersTable.TotalIsRowCount | src/Model/Table/FollowersTable.php:88-100 | summed over distinct ids covering every row's end, the per-user counts add up to the number of rows |
| FollowersTable.CountsSumToEdgeCount | src/Model/Table/FollowersTable.php:82-100 | while every edge joins existing users, the follower counts of all users and their following counts each sum to the number of edges |
| PostActions.GetPostsForLanding | clients/src/store/actions/postActions.js:19-47 | requests the landing page; loading is raised first and lowered last; on success exactly four actions go out, the list update (replace for page 1, append otherwise) before the page update; the promise resolves exactly when the request succeeds, and then with the response's posts; a failure sets no page; after the actions loading is off |
| PostActions.GetUserPosts | clients/src/store/actions/postActions.js:64-95 | requests the user's page; loading is raised first and lowered last; on success exactly four actions go out, the list update (replace for page 1, append otherwise) before the page update; the promise resolves exactly when the request succeeds, and then with the response's posts; a failure sets page 1 just before loading ends |
| PostActions.LandingFetchEffect | clients/src/store/actions/postActions.js:19-47 | a successful fetch replaces the list (page 1) or appends to it, records the page and ends loading; a failed fetch only ends loading |
| PostActions.UserPostsFetchEffect | clients/src/store/actions/postActions.js:64-95 | as for the landing fetch, except that a failure also resets the page to 1 |
| PostActions.PagesAccumulate | clients/src/store/actions/postActions.js:23-35 | fetching pages 1 to k in order leaves exactly the concatenation of the k responses, page k and loading off, whatever the list held before |
| PostActions.FirstPageDiscardsEarlierPosts | clients/src/store/actions/postActions.js:23-28 | a later page-1 fetch leaves only its own posts |
| PostActions.CreateRequest | clients/src/store/actions/postActions.js:102-111 | sends title then body; sends `img` (carrying `post.img`) and the multipart header exactly when `post.img` is truthy; never sends `img_path`; nothing else: two fields, or three with `img` |
| PostActions.AddPost | clients/src/store/actions/postActions.js:100-118 | a failed create dispatches nothing and rejects; a successful create reloads the landing feed from page 1, and resolves exactly when the reload succeeds |
| PostActions.AddPostShowsFirstPage | clients/src/store/actions/postActions.js:112-113 | after a successful create and reload the list holds exactly the first page |
| PostActions.UpdateRequest | clients/src/store/actions/postActions.js:125-128 | the update request goes to the post's endpoint and starts with the title and the body |
| PostActions.UpdateRequestCases | clients/src/store/actions/postActions.js:129-140 | `img_path` is sent (empty) exactly when `img` is -1; `img` is sent exactly when it is truthy and not -1; multipart goes with `img`; the form is title and body plus at most that one field, nothing else |
| PostActions.UpdatePost | clients/src/store/actions/postActions.js:123-146 | sends the update request and resolves exactly when it succeeds |

## Left out

- Scalar-type rules (`scalar`, and `integer` on `id`) are omitted: every payload value is text.
- The `id`, `avatar_url` and `deleted` payload fields are not modelled. The User entity class that decides which fields are mass-assignable is not part of this model.
- A field sent as `null` is not modelled. `isset` and the validator's presence check treat `null` differently; here a sent field always has a text value.
- Email format and date format are not checked here. Both are library checks, passed in as `Env.isEmail` and `Env.isDate`; `strtotime` and `time()` are `Env.toTimestamp` and `Env.now`.
- Column comparisons are exact. This covers uniqueness, the username lookup in `FetchByUsername` and the key lookup in `ActivateAccount`. The database collation, under which `where` equality may ignore case, is not modelled.
- Password hashing is not modelled. `addUser` stores the password as sent, and any hashing happens outside `UsersTable.php`.
- New-row defaults are stand-ins for the database's. `role` keeps the column default when not sent, shown as `None`. The auto-increment id is `NextId`: one more than every stored id.
- Among rows with equal `created`, the order is storage order. The database leaves that order unspecified.
- FetchedPagesArePrefix and PagesListEveryEligibleUserOnce assume every page query orders rows with equal `created` the same way, which the database does not promise. Each page is its own `ORDER BY created DESC` query, so the source can list a user on two pages, or on none, when a tie straddles a page boundary.
- FirstMatchFrom: storage order stands in for the unordered `first()` in `activateAccount` and `fetchByUsername`. Which row the database returns when several visible rows match is unspecified, for example several users with the same (possibly empty) activation key.
- AddUser: a save that fails for a storage fault (the `InternalErrorException` branch) is not modelled. The only save failure modelled is the `buildRules` check, and it is proved never to fail after validation.
- FetchNotFollowedUsers: `perPage` is a natural number. A negative limit is an SQL error and is not modelled.
- Default arguments are not modelled. The source defaults `$pageNo = 1` and `$perPage = 5` in `fetchRecommendedUsers` and `fetchNotFollowedUsers`, and `page = 1` in `getPostsForLanding` and `getUserPosts`. Every model function takes the page, and the page size, explicitly; a call with the defaults is the call with those values passed.
- FetchRecommendedUsers: `perPage` is a natural number here too. A negative value, passed on to the stored procedure and to the fallback listing, is not modelled.
- The exact exception classes are not modelled; each failure is an error value of its own type. `NotFoundException` and `InternalErrorException` are not even imported by the source file.
- `fetchByUsername`'s `fields` projection is not modelled: the whole row is returned.
- `fetchFollowers` is not modelled. It dumps its result and stops the request.
- Table associations and the Timestamp behaviour are not modelled, beyond `created` being set to `now` on signup.
- Concurrent signups are not modelled. Races between two signups with the same username are settled by the database.
- The other action creators in `postActions.js` (`getPostById`, `getCommentsByPost`, `deletePost`, `sharePost`, `likePost`, `addComment`, `deleteComment`, `fetchLikesByPost`, `countCommentByPost`) are not modelled. Each sends one request and dispatches nothing.
- JavaScript values are narrowed to undefined, null, booleans, integers, strings and files. NaN, fractional numbers and other objects are not modelled, nor is an `img` inherited through the prototype chain. Pages are integers, so `page === 1` is integer equality; a page passed as the string `"1"` is not modelled.
- The React components and the notifications table test are not modelled: they hold no logic of the modelled core.
