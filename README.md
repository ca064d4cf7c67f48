# CLI-ter backend core in Dafny

This project models the backend core of CLI-ter, a small microblog served by FastAPI on top of
PostgreSQL. An author registers with a name and a password and receives an api-key. Every request
carries that key in its `api-key` header. Authors post tweets with media attachments, like tweets
and follow each other.

The database is one object, `Store.Database`, holding three tables as maps from serial id to row:
authors, tweets and medias. It also holds the serial counters and the unique indexes on
`authors.name`, `authors.api_key` and `medias.hash`. Its invariant `Valid()` gives, for each table:
- every row sits under its own id;
- every VARCHAR value fits its column;
- each unique index is exactly the inverse of its column;
- every tweet's `author_id` refers to an existing author.

Each `async with session.begin()` block is one atomic method on that object. The `online` flag says
whether the database server accepts connections. When it does not, each session raises
`ConnectionRefusedError`. The flag is fixed for the whole of one service call.

The modules follow the repository's layers:
- `AuthorModel`, `TweetModel`, `MediaModel` (models.dfy): the rows and their column defaults and widths.
- `Store` (store.dfy): the database object, the table invariants and their preservation lemmas.
- `AuthorDb`, `TweetDb`, `MediaDb`: the `*DbService` classes, the store calls.
- `UserServices`, `TweetServices`, `MediaServices`: `PermissionService`, `AuthorService`,
  `TweetService` and `MediaService`, the business logic.
- `Exceptions` (exceptions.dfy): the exception family, the `ErrorsList` codes and the
  `exc_handler` wrapper.
- `App` (app.dfy): the api-key gate that runs before every route, and the handlers that turn an
  exception into an HTTP status and body.
- `Lists` and `Tables`: the Python list operations and the table reads the rest uses.

Every call returns an `Outcome`: either a returned value or a raised exception. An exception is
either a member of the `BackendException` family or one of the foreign exceptions the code lets
escape. The falsy Python arguments (`author_id=None`, `api_key=None`) are `0` and `""`.

## Model

| member | source | states |
|---|---|---|
| Exceptions.Mro | backend/src/exceptions.py:15-36 | `AuthException` and `InternalServerException` are subclasses of `BackendException`; the resolution order starts at the class and ends at `BackendException` |
| Exceptions.ExcHandler | backend/src/exceptions.py:76-93 | a returned value passes unchanged; `ConnectionRefusedError` becomes InternalServerException CON_REFUSED; every other exception becomes BackendException POSTGRES_QUERY_ERROR; the argument of the decorator plays no part |
| Exceptions.ExcHandlerMasksBackendErrors | backend/src/exceptions.py:87-89 | a family member raised inside a wrapped call, whatever its class and code, reaches the caller as POSTGRES_QUERY_ERROR |
| Exceptions.AuthErrorsShareType | backend/src/exceptions.py:67-68 | `not_authorized` and `api_key_not_exists` both carry AUTH_ERROR and have different messages |
| Lists.AppendIfAbsent | backend/src/app_users/services.py:257-262 | the guarded append: the element is present afterwards, nothing is lost or invented, the list is unchanged when the element was already present and grows by exactly that element at the end otherwise, and no duplicate appears |
| Lists.RemoveFirst | backend/src/app_users/services.py:303-308 | `list.remove`: one element shorter, exactly one occurrence of the element gone (as multisets), and on a list without duplicates the element is absent afterwards |
| Lists.RemoveIfPresent | backend/src/app_users/services.py:302-308 | the guarded remove: unchanged when the element is absent, one occurrence removed otherwise, without duplicates the element is absent afterwards |
| Lists.RemoveLastAppended | backend/src/app_tweets/services.py:159-184 | removing an element just appended to a list not holding it gives back the list |
| Lists.AppendThenRemove | backend/src/app_tweets/services.py:159-184 | an unguarded append followed by `remove` restores the list |
| Lists.AppendIfAbsentThenRemove | backend/src/app_users/services.py:257-308 | a guarded append followed by a guarded remove restores a list that did not hold the element |
| Lists.AppendIfAbsentIdempotent | backend/src/app_users/services.py:257-262 | a second guarded append changes nothing |
| Lists.RemoveIfPresentIdempotent | backend/src/app_users/services.py:302-308 | on a list without duplicates a second guarded remove changes nothing |
| Tables.Scan | backend/src/app_tweets/db_services.py:35-39 | a table read returns every row whose id lies in the range and nothing else |
| Tables.Filter | backend/src/app_tweets/db_services.py:35-39 | a filtered read keeps exactly the rows that pass the filter |
| Tables.FilterScanSize | backend/src/app_tweets/db_services.py:35-39 | a filtered read returns exactly one row per id that passes the filter |
| Store.Database.constructor | backend/src/app_users/models.py:37-46 | a fresh schema has three empty, consistent tables |
| Store.AuthorInserted | backend/src/app_users/models.py:38-45 | inserting a row under the next serial id with a free name and a free api_key keeps the authors table and both unique indexes consistent |
| Store.AuthorsRewritten | backend/src/app_users/models.py:38-45 | rewriting rows without touching id, name, password or api_key keeps the authors table consistent |
| Store.TweetAuthorsGrow | backend/src/app_tweets/models.py:37 | the foreign key of every tweet stays satisfied when authors are only added or rewritten |
| Store.TweetInserted | backend/src/app_tweets/models.py:35-41 | inserting a row of an existing author under the next serial id keeps the tweets table consistent |
| Store.TweetsRewritten | backend/src/app_tweets/models.py:35-41 | rewriting tweets without touching id or author keeps the tweets table consistent |
| Store.MediaInserted | backend/src/app_media/models.py:24-26 | inserting a row with a free hash under the next serial id keeps the medias table and its hash index consistent |
| Store.AuthorIndexesExact | backend/src/app_users/models.py:39-41 | the name index (api_key index) holds a value exactly when some author row has that name (api_key) |
| Store.MediaIndexExact | backend/src/app_media/models.py:26 | the hash index holds a hash exactly when some media row has it |
| Store.AuthorKeysUnique | backend/src/app_users/models.py:39-41 | two author rows with the same name, or the same api_key, are the same row |
| Store.MediaHashUnique | backend/src/app_media/models.py:26 | two media rows with the same hash are the same row |
| AuthorDb.GetAuthor | backend/src/app_users/db_services.py:24-62 | with no criterion, INCORRECT_PARAMETERS before any session; with the database down, POSTGRES_QUERY_ERROR; otherwise a row is returned exactly when one matches the first given criterion (id, then api_key, then name), the row returned is a stored row that matches, and None means no row matches |
| AuthorModel.NewAuthorKeepsNoSelfEntry | backend/src/app_users/models.py:43-44 | a new row starts with empty followers and following, so adding it leaves no author listing itself |
| AuthorDb.GetAuthorFindsEveryRow | backend/src/app_users/db_services.py:43-59 | on a reachable database every stored row is found again by its id, by its api_key and by its name (the last two when non-empty), because the id is the key and both columns are unique |
| AuthorDb.CreateAuthor | backend/src/app_users/db_services.py:64-91 | refused connection, too long a value (DataError) or a taken name or api_key (IntegrityError) raise and leave the table unchanged; a row is created exactly when none of these hold, and it has a fresh id, exactly the given name, api_key and password, follower_count 0, empty followers and following, and soft_delete false; nothing else changes; a table in which no author lists itself stays so |
| AuthorDb.FollowWritten | backend/src/app_users/db_services.py:121-128 | after the update, the reader's followers and the writer's following are the given lists; every other field of every author is unchanged |
| AuthorDb.UpdateFollow | backend/src/app_users/db_services.py:93-128 | both lists are written in one step and Success is returned; with the database down nothing changes and the driver's exception escapes |
| AuthorDb.VerifyApiKeyExist | backend/src/app_users/db_services.py:130-142 | true exactly when the key is non-empty and some author holds it; a refused connection escapes |
| TweetDb.ListedRowsExact | backend/src/app_tweets/db_services.py:35-39 | the rows read are stored rows of the author that are not deleted, every such row is read, and each only once |
| TweetDb.GetList | backend/src/app_tweets/db_services.py:22-39 | exactly the author's tweets with soft_delete false, each once; a refused connection escapes |
| TweetDb.CreateTweet | backend/src/app_tweets/db_services.py:41-79 | a refused connection, or an unknown author (the foreign key, IntegrityError), raises and writes nothing; otherwise a new row under a fresh id with the given content, author and attachments, no likes and soft_delete false; nothing else changes |
| TweetDb.GetTweetByIdQuery | backend/src/app_tweets/db_services.py:82-107 | a tweet is returned only if it exists and is not deleted; otherwise TWEET_NOT_EXIST |
| TweetDb.GetTweetById | backend/src/app_tweets/db_services.py:81-107 | under the wrapper, a missing or deleted tweet is POSTGRES_QUERY_ERROR and a refused connection CON_REFUSED |
| TweetDb.SoftDeleted | backend/src/app_tweets/db_services.py:131-136 | only the row matching both the tweet id and the author id gets soft_delete true; a flag already set stays set; every other row and column is unchanged |
| TweetDb.DeleteTweet | backend/src/app_tweets/db_services.py:109-136 | Success whether or not a row matched, with the table as `SoftDeleted` says; CON_REFUSED and no change with the database down |
| TweetDb.LikesWritten | backend/src/app_tweets/db_services.py:154-159 | the likes of the row with this id become exactly the given list, whatever its soft_delete; nothing else changes |
| TweetDb.UpdateLikeInTweet | backend/src/app_tweets/db_services.py:138-159 | Success with the table as `LikesWritten` says; CON_REFUSED and no change with the database down |
| TweetDb.DeletedTweetHidden | backend/src/app_tweets/db_services.py:131-136 | after a delete by its author, the tweet is flagged deleted and no longer listed |
| TweetDb.SoftDeleteIdempotent | backend/src/app_tweets/db_services.py:131-136 | deleting twice is the same as deleting once |
| TweetDb.LikesWrittenKeepsVisibility | backend/src/app_tweets/db_services.py:154-159 | writing likes neither revives nor hides a tweet and keeps its author |
| MediaDb.LinkFor | backend/src/app_media/db_services.py:72 | the link is `media_url`, then `/`, then the file name |
| MediaDb.GetMedia | backend/src/app_media/db_services.py:25-53 | with neither criterion, INCORRECT_PARAMETERS; otherwise a row is returned exactly when one matches the hash if given, else the id, the row returned is a stored row that matches, and None means none matches; a refused connection escapes |
| MediaDb.CreateMedia | backend/src/app_media/db_services.py:56-77 | refused connection, too long a link or hash (DataError) or a stored hash (IntegrityError) raise and write nothing; otherwise a new row under a fresh id with the given hash and the file's link; nothing else changes |
| MediaDb.RequestedRows | backend/src/app_media/db_services.py:92-97 | one stored row per distinct existing requested id, and every such row |
| MediaDb.RequestedRowLinks | backend/src/app_media/db_services.py:92-97 | the links of those rows are exactly the links of the requested rows, one per row |
| MediaDb.GetManyMediaQuery | backend/src/app_media/db_services.py:80-97 | a missing id list raises (the `in_` filter is built before any session) whether or not the database is up; a refused connection raises ConnectionRefusedError; otherwise one link per distinct existing requested id, every such link, and None exactly when no requested id exists |
| MediaDb.GetManyMedia | backend/src/app_media/db_services.py:79-97 | under the wrapper, a missing id list is POSTGRES_QUERY_ERROR and a refused connection CON_REFUSED; otherwise as the query |
| MediaServices.HexDigest | backend/src/app_media/services.py:43 | the hex digest has two lower-case hex digits per byte, 64 for a SHA-256 digest |
| MediaServices.HexRoundTrip | backend/src/app_media/services.py:43 | decoding the hex digest gives back the digest |
| MediaServices.HexDigestInjective | backend/src/app_media/services.py:43 | different digests give different stored hashes |
| MediaServices.GetOrCreateMedia | backend/src/app_media/services.py:28-60 | a stored hash yields the stored id with nothing written; otherwise a failed write raises (OSError on open, MEDIA_IMPORT_ERROR on copy) and stores nothing, too long a link is DataError, and else a new row keyed by the hash is created and its id returned |
| MediaServices.UploadTwice | backend/src/app_media/services.py:43-60 | uploading the same content twice yields the same id, whose row holds the hash, and adds at most that one row |
| MediaServices.GetManyMedia | backend/src/app_media/services.py:100-120 | a missing id list is POSTGRES_QUERY_ERROR; CON_REFUSED with the database down; otherwise the links of the requested existing media, one per distinct id, every such link, and an empty list when there is none |
| UserServices.NewPermission | backend/src/app_users/services.py:38-57 | the key attribute is assigned exactly when the `api-key` header is present and non-empty, and then holds the header |
| UserServices.GetApiKey | backend/src/app_users/services.py:59-74 | as written: the key when assigned, and AttributeError when the constructor did not assign it |
| UserServices.GetApiKeyWithoutHeader | backend/src/app_users/services.py:51-67 | a request without the header or with an empty one gets AttributeError, not AuthException |
| UserServices.GetApiKeyIntended | backend/src/app_users/services.py:59-74 | as intended: the key exactly when one was assigned, AuthException AUTH_ERROR otherwise |
| UserServices.GetApiKeyIntendedBehaviour | backend/src/app_users/services.py:59-74 | with the correction the key is returned exactly for a non-empty header, every other request is unauthorized, and where a key was sent both versions agree |
| UserServices.VerifyApiKey | backend/src/app_users/services.py:114-129 | true exactly when the key is non-empty and some author holds it |
| UserServices.SampleWithinPopulation | backend/src/app_users/services.py:340-341 | `random.sample` draws each element at most as often as the population holds it (multiset inclusion) |
| UserServices.SampleOccurrences | backend/src/app_users/services.py:340-341 | the same, counted element by element |
| UserServices.GenerateApiKey | backend/src/app_users/services.py:327-343 | ValueError for a length outside 0..88; otherwise exactly that many characters, all from the letters-and-digits pool, each drawn no more often than the pool holds it |
| UserServices.GetOrCreateUser | backend/src/app_users/services.py:145-171 | empty name INCORRECT_PARAMETERS; database down POSTGRES_QUERY_ERROR; a known name with a verifying password returns (stored key, False), with a wrong password AuthException AUTH_ERROR, and writes nothing; an unknown name stores exactly a new author with the name, a fresh 64-character key and the password's hash and returns (that key, True), unless the name is too long or the key is taken; a table in which no author lists itself stays so |
| UserServices.RegisterThenLogin | backend/src/app_users/services.py:145-171 | logging in right after registering with the same password returns the key just handed out and False |
| UserServices.Me | backend/src/app_users/services.py:173-200 | the profile of the author holding the key; AUTHOR_NOT_EXIST for an unknown key |
| UserServices.GetAuthorProfile | backend/src/app_users/services.py:202-233 | the profile of the matching author exactly when one matches; POSTGRES_QUERY_ERROR when none does |
| UserServices.CheckFollowerAuthors | backend/src/app_users/services.py:345-370 | passes exactly when both authors exist and differ; a missing author and a self-follow are both RECURSIVE_FOLLOW |
| UserServices.FollowPair | backend/src/app_users/services.py:251-253 | the two lookups and the check succeed exactly when the key is non-empty, the database is up, the writer id is non-zero and exists, some author holds the key, and that author is not the writer; otherwise the lookup's error or RECURSIVE_FOLLOW |
| UserServices.AddFollow | backend/src/app_users/services.py:235-278 | any failed lookup or check raises and writes nothing; otherwise Success, and the authors table becomes `Followed`: the writer's entry appended, if absent, to the reader's followers and the reader's entry, if absent, to the writer's following; a table in which no author lists itself stays so |
| UserServices.RemoveFollow | backend/src/app_users/services.py:280-325 | any failed lookup or check raises and writes nothing; otherwise Success, and the authors table becomes `Unfollowed`: both entries removed where present; a table in which no author lists itself stays so |
| UserServices.FollowedKeepsNoSelfEntry | backend/src/app_users/services.py:255-262 | a follow between two different authors (the self-follow is refused at lines 368-370) leaves no author in its own followers or following |
| UserServices.FollowedLinksBoth | backend/src/app_users/services.py:255-269 | after a follow the writer's entry is in the reader's followers and the reader's entry in the writer's following, while the reader's following, the writer's followers and every other author are untouched |
| UserServices.FollowWrittenKeepsEntries | backend/src/app_users/db_services.py:121-128 | a follow update changes no author's id or name, so the entries it writes stay valid |
| UserServices.FollowIdempotent | backend/src/app_users/services.py:257-262 | following twice leaves the table as following once |
| UserServices.UnfollowedUnlinksBoth | backend/src/app_users/services.py:299-315 | after an unfollow neither entry remains (on lists without duplicates), the other two lists and other authors are untouched, and with both entries absent nothing changes at all |
| UserServices.UnfollowedKeepsNoSelfEntry | backend/src/app_users/services.py:299-308 | an unfollow only removes entries, so no author ends up in its own followers or following |
| UserServices.FollowWrittenTwice | backend/src/app_users/db_services.py:121-128 | a second follow update overrides the first |
| UserServices.FollowWrittenSame | backend/src/app_users/db_services.py:121-128 | writing back the lists an author already has changes nothing |
| UserServices.FollowThenUnfollow | backend/src/app_users/services.py:255-308 | follow then unfollow of an unrelated pair restores the authors table exactly |
| UserServices.FollowKeepsNoDup | backend/src/app_users/services.py:257-262 | follow and unfollow keep both lists free of duplicates |
| TweetServices.GetList | backend/src/app_tweets/services.py:46-67 | the lookup's error for an unknown caller; otherwise exactly the caller's non-deleted tweets, each once |
| TweetServices.GetTweet | backend/src/app_tweets/services.py:69-85 | the readable tweet exactly when it exists and is not deleted; POSTGRES_QUERY_ERROR (never TWEET_NOT_EXIST) otherwise, CON_REFUSED with the database down |
| TweetServices.CheckBelongsTweetToAuthor | backend/src/app_tweets/services.py:187-206 | true exactly when the readable tweet has that author; TWEET_NOT_BELONGS_TO_AUTHOR when it has another; the wrapper's error when it is not readable |
| TweetServices.CreateTweet | backend/src/app_tweets/services.py:87-107 | the lookup's error for an unknown caller, writing nothing; a missing `tweet_media_ids` is POSTGRES_QUERY_ERROR, writing nothing; otherwise a new tweet of the caller under a fresh id with the content and the links of the requested media as attachments |
| TweetServices.DeleteTweet | backend/src/app_tweets/services.py:109-135 | an unreadable tweet is POSTGRES_QUERY_ERROR, another author's tweet TWEET_NOT_BELONGS_TO_AUTHOR, both without change; the author's tweet is soft-deleted and nothing else changes |
| TweetServices.AddLikeToTweet | backend/src/app_tweets/services.py:137-160 | an existing like is DOUBLE_LIKE_ERROR and writes nothing; otherwise the caller's `{user_id, name}` is appended and the whole list written back |
| TweetServices.RemoveLikeFromTweet | backend/src/app_tweets/services.py:162-185 | a missing like is REMOVE_NOT_EXITS_LIKE and writes nothing; otherwise the caller's entry is removed and the list written back |
| TweetServices.LikesKeepNoDup | backend/src/app_tweets/services.py:157-184 | a like list without duplicates stays so after a like or an unlike |
| TweetServices.LikesWrittenBack | backend/src/app_tweets/db_services.py:154-159 | writing a tweet's likes and then its old likes restores the table |
| TweetServices.LikeThenUnlike | backend/src/app_tweets/services.py:137-185 | a successful like followed by an unlike by the same caller succeeds and restores the tweets table exactly |
| App.VerifyApiKey | backend/src/app.py:53-62 | an empty key is `not_authorized`; "test" passes without a lookup; an unknown key is `api_key_not_exists`, both as plain BackendException; a stored key passes; a refused connection escapes |
| App.FirstHandled | backend/src/app.py:76-97 | the handler chosen is the first class of the resolution order that has one, and there is none exactly when no class on it has one |
| App.StatusFor | backend/src/app.py:76-97 | AuthException answers 401, InternalServerException 500, any other BackendException 404 |
| App.Respond | backend/src/app.py:76-97 | a family member is answered with its status and exactly `{result: false, error_type, error_message}`; anything else with the plain 500 page |
| App.GateRefusalsAre404 | backend/src/app.py:56-81 | both refusals of the gate are answered with 404 and AUTH_ERROR, not 401 |
| App.WrappedCallsNever401 | backend/src/app.py:76-97 | whatever a wrapped store call raises is answered with 500 (refused connection) or 404, never 401 |

The code is followed wherever the repository's own description or tests say otherwise:
- The follow entries keep the code's naming. The writer's `{id, name}` goes into the reader's
  `followers` (`backend/src/app_users/services.py:255-258`). The reader's goes into the writer's
  `following` (`:259-262`).
- A missing author in a follow is RECURSIVE_FOLLOW, not AUTHOR_NOT_EXIST.
- Both refusals of the api-key gate are plain `BackendException`s and therefore 404, not 401.
- A deleted tweet can no longer be read by id. `backend/src/tests/test_tweet_service.py:89-90`
  expects otherwise.
- `update_like_in_tweet` filters on the id only, so it also rewrites a deleted tweet's likes.
- `verify_api_key_exist` tests the value it found for truthiness, so an empty key never counts as
  existing.

## Left out

- HTTP routing, dependency injection and the CORS middleware (`backend/src/app.py:100-106`) are
  framework plumbing.
- Logging and the context variables are output only.
- `verify_api_key` in `backend/src/app.py:53` declares the header `api_key: str = Header()`. A
  request without it is refused by FastAPI with a 422 before the gate runs. That validation is
  outside the model; the gate starts from the header's value.
- `PermissionService.__init__` echoes the key into the response headers. The response headers are
  not modelled.
- SQL, the engine and sessions are out. Each session block is one atomic method on the in-memory
  tables. The only driver behaviours kept are these:
  - the refused connection;
  - the unique and foreign-key constraints (IntegrityError);
  - the VARCHAR widths (DataError).
- The `online` flag is fixed for a whole service call, so a server lost between two sessions of
  one call is not modelled. The paths this misses are:
  - `add_follow` and `remove_follow`: `update_follow` is not wrapped, so ConnectionRefusedError
    would escape after both lookups succeeded;
  - `create_tweet`: CON_REFUSED from `get_many_media` or from the insert after the caller's lookup
    succeeded;
  - `add_like_to_tweet` and `remove_like_from_tweet`: CON_REFUSED from `update_like_in_tweet`
    after the caller's lookup succeeded.
- MediaDb.MediaUrl is the default of `settings.media_url` (`backend/src/settings.py:17`), which the
  environment can override. A different prefix changes every link, and with it the file-name
  length at which `create_media` raises DataError.
- A failed insert does not consume a serial id here. PostgreSQL sequences would skip one. Ids stay
  fresh and the rest of the model is unaffected.
- A read without `ORDER BY` is modelled as ascending id order. PostgreSQL promises no order.
- TweetDb.GetList: states which tweets are returned and how many, not their order, because the
  source fixes none.
- MediaDb.GetManyMediaQuery: states which links are returned and how many, not their order, because
  the source fixes none.
- bcrypt comes in as a `PasswordContext` parameter. Its `Sound` predicate gives what the code relies
  on: a 60-character hash that fits the password column, and `verify(p, hash(p))`. The cost factor,
  salts and the 72-byte truncation are not modelled.
- SHA-256 (FIPS 180-4) of the uploaded bytes comes in as the 32-byte `digest` parameter. Only
  `hexdigest()` is modelled.
- `random.sample` comes in as the `picks` parameter: distinct positions in the pool.
  UserServices.GetOrCreateUser states the outcome for the key those picks spell. Which key the
  generator chooses is not modelled.
- The file write (`write_media_to_static_folder`, `backend/src/app_media/services.py:63-97`) is
  reduced to how it ends: `Written`, or failing to open (OSError), or failing to copy
  (MEDIA_IMPORT_ERROR). The directory creation, whose PermissionError is logged and swallowed, is
  not modelled, nor are the bytes written.
- Pydantic serialisation is not modelled. The rows always convert, so PYDANTIC_SERIALIZE_ERROR is
  never raised here (`backend/src/app_media/services.py:53-55` and the schema conversions in the
  store).
- `MediaService.get_or_create_media` ends with a MEDIA_IMPORT_ERROR raise for a creation that
  returns nothing (`backend/src/app_media/services.py:59-60`). That branch is dead:
  `create_media` returns the row or raises.
- `get_tweet`'s TWEET_NOT_EXIST branch is dead. The wrapped store call raises
  POSTGRES_QUERY_ERROR first, as TweetServices.GetTweet states.
- The tweet content column is NOT NULL (`backend/src/app_tweets/models.py:36`). Strings are never
  null here, so no constraint is needed.
- `follower_count` is never updated by the code and stays at its default.
- Concurrency is not modelled: two requests interleaving their read-modify-write of the same JSON
  list could lose an update. Each operation runs alone.
- The abstract interfaces, the transport services, the mocks, the
  `app_users/exceptions.py` and `app_tweets/exceptions.py` classes (never raised), the `api/` and
  `application/` trees and the test hook `raise_exception` are not part of this model.

## Findings

| source | as written | input that shows it | evidently intended | confidence | as-written member | corrected member |
|---|---|---|---|---|---|---|
| backend/src/app_users/services.py:51-74 | `__init__` assigns `self.api_key` only for a truthy header, and `get_api_key` then reads `self.api_key` unguarded | a `PermissionService` built for a request with no `api-key` header, or an empty one: `get_api_key` raises AttributeError, a 500 (on the HTTP routes the app-level gate refuses such requests first, so it shows only where that gate does not run) | such a request is refused with AuthException AUTH_ERROR (401), the raise the method ends with | not executed | UserServices.GetApiKey, UserServices.GetApiKeyWithoutHeader | UserServices.GetApiKeyIntended, UserServices.GetApiKeyIntendedBehaviour |
