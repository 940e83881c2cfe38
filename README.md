# meme_service, modelled in Dafny

The meme service is two web services:

- The **image service** keeps a relational catalog of memes. Each row has an id, a name, a description and a last-update time. Uploads and deletions go through an HTTP gateway to the blob service.
- The **blob service** stores the images in a MinIO (S3-compatible) bucket. It checks a bearer token on every request. A password login issues that token.

This project models the three repositories that hold the services' own logic:

- `MemeCatalog` (`catalog.dfy`) models `MemeRepository` of the image service.
  - The table is a sequence of rows plus the next value of its id sequence.
  - `MemeRepository` is a class with those fields and the log of gateway calls. Its methods are proved against the step functions `CreateSpec`, `UpdateSpec` and `DeleteSpec`.
  - The gateway's answer is a parameter of each operation: the fields the blob service reported, or a failure.
- `BlobStore` (`blob_store.dfy`) models `MinioRepository`.
  - The bucket is a map from key to object: bytes, metadata headers and a modification time.
  - The modification time comes from a clock parameter (`now`).
  - Failures of the remote calls are a parameter too (`Faults`).
  - `get` and `list` are functions. `create_or_update` and `delete` are methods of the class that holds the bucket.
- `KeyOrder` (`key_order.dfy`) gives the order in which the store lists keys: code point by code point.
- `Credentials` (`credentials.dfy`) models `UserRepository` as pure functions.
  - Password checking is a parameter.
  - The token library is a pair of functions; `RoundTrips` is the property it is assumed to have.
- `Sync` (`sync.dfy`) puts the two stores side by side. It proves the catalog stays in step with the bucket when an upload goes through both services. It proves the same for a delete when the meme's name reaches the blob service intact. It also shows two cases where the stores drift apart: a stat failure after a successful put, and a delete whose unescaped name the query cuts short at `&` or `#` (see "## Findings").

Times are whole seconds. Timezone stripping is not modelled.

## Behaviour worth knowing

- **A failed delete keeps the row.** The image service deletes the blob through the gateway before it deletes the row. If `delete_file` raises, `session.delete` never runs and the row stays. It raises on a transport failure, on a login request that fails or whose reply is not JSON, or on a delete reply whose body is not JSON, such as the blob service's plain-text server error. A login the blob service refuses with a JSON body does not raise: the gateway goes on with an `Authorization: Bearer None` header, and the blob service's answer to the delete decides. A JSON reply of any status, even "not found", lets the row be removed. `MemeCatalog.DeleteSpec` states both cases.
- **A failed create is not `UnprocessableEntity`.** The image service's `create` only re-raises `UnprocessableEntity`. A failed upload surfaces as whatever the HTTP client or the `MemeCreate` validation raised. The model calls this `GatewayError` and leaves the table unchanged.
- **A missing id gives `None`.** The image service's `get` never raises for a missing id. The scalar result it tests is always truthy, so the `raise` cannot be reached, and `.first()` yields `None`. `update` and `delete` turn that `None` into `EntityDoesNotExist`.

## Model

| member | source | states |
|---|---|---|
| MemeCatalog.FirstWithName | img_api/repositories/memes.py:31-33 | the index of the first row with that name, with no earlier row of that name, or none when no row has it |
| MemeCatalog.FirstWithId | img_api/repositories/memes.py:58-60 | the index of the first row with that id, with no earlier row of that id, or none when no row has it |
| MemeCatalog.Upsert | img_api/repositories/memes.py:30-42 | the upserted item carries exactly the reported name, description and time; its id is that of the first row of that name, or unset when there is none |
| MemeCatalog.Store | img_api/repositories/memes.py:25-28 | a new item is appended with the next id of the sequence and the sequence advances; an item loaded from the table replaces its own row and nothing else; the id invariant is kept |
| MemeCatalog.Lookup | img_api/repositories/memes.py:57-62 | a row of the table carrying that id, and None exactly when no row carries it (never an error) |
| MemeCatalog.Window | img_api/repositories/memes.py:64-67 | at most `limit` rows (default 50), the consecutive rows starting at `offset` (default 0), empty past the end |
| MemeCatalog.RemoveAt | img_api/repositories/memes.py:86-87 | the rows without the one at the index, one fewer, the others in their order |
| MemeCatalog.RemoveAtDropsId | img_api/repositories/memes.py:86-87 | removing a row keeps the ids unique and below the sequence, and no remaining row carries the removed row's id |
| MemeCatalog.ApplyPatch | img_api/repositories/memes.py:71-76 | each field the update sets overwrites the row's, every other field is kept, and the id never changes |
| MemeCatalog.CreateSpec | img_api/repositories/memes.py:44-55 | one gateway call with the file and description; a failed reply leaves the table unchanged; otherwise the first row of the reported name keeps its id, takes the reported fields, and every other row (later duplicates included) is untouched, or else exactly one row with a fresh id is appended; ids stay unique |
| MemeCatalog.UpdateSpec | img_api/repositories/memes.py:69-81 | a missing id gives EntityDoesNotExist with the table unchanged; otherwise only that row changes, by the patch, and the id still finds it; the gateway is never called |
| MemeCatalog.DeleteSpec | img_api/repositories/memes.py:83-90 | a missing id gives EntityDoesNotExist with no call; otherwise the blob is deleted by that row's name first; a transport failure or a reply that is not JSON keeps the row; any JSON reply removes exactly that row, keeping the order of the others |
| MemeCatalog.ReuploadKeepsIdentity | img_api/repositories/memes.py:30-53 | a second upload under a name already stored keeps that row's id and the row count, takes the new fields, and the id finds the updated row |
| MemeCatalog.CreateKeepsNamesUnique | img_api/repositories/memes.py:30-51 | on a catalog without two rows of one name, create never adds a second row of the same name |
| MemeCatalog.MemeRepository.constructor | img_api/repositories/memes.py:19-23 | an empty table whose id sequence starts at 1, no gateway calls |
| MemeCatalog.MemeRepository.AddToDb | img_api/repositories/memes.py:25-28 | the new table and stored item are those of Store; no gateway call; the id invariant is kept |
| MemeCatalog.MemeRepository.Create | img_api/repositories/memes.py:44-55 | the new table, the gateway calls appended to the log, and the result are those of CreateSpec |
| MemeCatalog.MemeRepository.Get | img_api/repositories/memes.py:57-62 | the answer is Lookup of the current table; nothing changes |
| MemeCatalog.MemeRepository.List | img_api/repositories/memes.py:64-67 | the page is Window of the current table; nothing changes |
| MemeCatalog.MemeRepository.Update | img_api/repositories/memes.py:69-81 | the new table and result are those of UpdateSpec; no gateway call is logged |
| MemeCatalog.MemeRepository.Delete | img_api/repositories/memes.py:83-90 | the new table, logged call and result are those of DeleteSpec |
| MemeCatalog.UploadListGetDelete | img_api/tests/test_routes.py:6-56 | on an empty catalog an upload gets id 1, the listing and a fetch of id 1 show it with description "test", the delete succeeds, and id 1 is then gone |
| KeyOrder.SortedKeys | minio_api/repositories/minio_repo.py:67 | the keys of the bucket, each exactly once, in strictly increasing listing order |
| BlobStore.MetaGet | minio_api/repositories/minio_repo.py:60 | the value under the key when there is one, None otherwise |
| BlobStore.AmzHeaders | minio_api/repositories/minio_repo.py:41 | the stored headers hold every metadata key, and only those, under the `x-amz-meta-` prefix with its value |
| BlobStore.Get | minio_api/repositories/minio_repo.py:54-64 | NoSuchKey exactly when the key is missing; otherwise the name, the modification time and the stored description header, with no status |
| BlobStore.GetEach | minio_api/repositories/minio_repo.py:68 | one record per key in order, each equal to `get` of its own name |
| BlobStore.List | minio_api/repositories/minio_repo.py:66-68 | as many records as objects, each equal to `get` of its name, names strictly increasing in listing order |
| BlobStore.ListCoversBucket | minio_api/repositories/minio_repo.py:66-68 | every object of the bucket appears in the listing, and no name appears twice |
| BlobStore.CreateOrUpdateSpec | minio_api/repositories/minio_repo.py:33-52 | a failed put leaves the bucket unchanged; otherwise only the named object is overwritten, even when an error follows; success exactly when put and stat succeed and metadata is given; every error is UnprocessableEntity; on success the answer is Modified, the name, the time of the stat and the given description, and `get` of the name then returns the same fields |
| BlobStore.DeleteSpec | minio_api/repositories/minio_repo.py:70-84 | a missing key raises NoSuchKey and removes nothing; otherwise exactly that key is removed, the answer is the earlier snapshot marked Deleted, and a later `get` raises NoSuchKey |
| BlobStore.MinioRepository.constructor | minio_api/repositories/minio_repo.py:17-31 | the repository starts on an empty bucket |
| BlobStore.MinioRepository.CreateOrUpdate | minio_api/repositories/minio_repo.py:33-52 | the new bucket and answer are those of CreateOrUpdateSpec |
| BlobStore.MinioRepository.Delete | minio_api/repositories/minio_repo.py:70-84 | the new bucket and answer are those of DeleteSpec |
| BlobStore.UploadGetListDelete | minio_api/tests/test_routes.py:9-66 | on an empty bucket, uploading cat.png with description "test" reports it Modified; `get` shows the description; the listing is not empty; the delete reports Deleted with the description; a later `get` raises NoSuchKey |
| Credentials.GetUser | minio_api/repositories/users.py:25-30 | the stored user of that username, or UserCredentialsError exactly when there is none |
| Credentials.ExpiresAt | minio_api/repositories/users.py:35-38 | now plus the lifetime when it is given and non-zero, else now plus 15 minutes |
| Credentials.CreateAccessToken | minio_api/repositories/users.py:32-41 | a token that decodes to the caller's claims with `exp` set to ExpiresAt |
| Credentials.Decode | minio_api/repositories/users.py:45 | the payload exactly when the token verifies, its `exp` has not passed and its `sub` is a string |
| Credentials.Subject | minio_api/repositories/users.py:45-51 | the `sub` of a token that decodes, and None when decoding fails or there is no `sub` |
| Credentials.Get | minio_api/repositories/users.py:43-55 | the stored user named by the token's `sub`; UserCredentialsError exactly when the token does not decode, has no `sub`, or names no stored user |
| Credentials.Login | minio_api/repositories/users.py:57-69 | a token exactly when the username is stored and its password verifies, else UserCredentialsError; token type "bearer"; the token decodes to `sub` = the username and `exp` = `ExpiresAt(now, minutes·60)`, so a setting of 0 minutes gives 15 minutes |
| Credentials.LoginThenGet | minio_api/repositories/users.py:40-67 | until it expires, the token of a successful login identifies the user who logged in |
| Credentials.ExpiredLoginTokenRejected | minio_api/repositories/users.py:45-51 | once past its expiry, the token of a successful login is rejected with UserCredentialsError |
| Sync.UploadMetadata | minio_api/routers/minio_router.py:31 | the metadata the upload route attaches holds the form's description under "description" |
| Sync.Relay | img_api/repositories/memes.py:46-48 | a blob-service success becomes the catalog's reported fields (name, description, time); every error becomes a failed create |
| Sync.UploadKeepsStoresInStep | img_api/repositories/memes.py:44-51 | starting from a catalog in step with the bucket, an upload through both services that the blob service confirms, or whose put fails, leaves them in step with names unique |
| Sync.StatFailureLeavesCatalogBehind | minio_api/repositories/minio_repo.py:40-52 | when the stat after a successful put fails, the object is overwritten, the catalog is unchanged, and the two are no longer in step |
| Sync.ReceivedName | img_api/gateway/api_gateway.py:80 | the name the blob service reads from the unescaped query: the longest prefix without `&` or `#`, cut at the first of them |
| Sync.ReceivedNameCutsAt | img_api/gateway/api_gateway.py:80 | a name whose first `&` or `#` is at position k reaches the blob service as its first k characters |
| Sync.AmpersandCutsName | img_api/gateway/api_gateway.py:80 | the name `cat.png&x.png` reaches the blob service as `cat.png` |
| Sync.UnescapedDeleteRemovesAnotherObject | img_api/gateway/api_gateway.py:76-82 | when the query cuts the deleted meme's name down to another meme's name, the delete succeeds, removes the other meme's object, keeps its own, and the stores fall out of step |
| Sync.DeleteKeepsStoresInStep | img_api/repositories/memes.py:83-87 | when the name reaches the blob service intact, deleting a stored id through both services removes the object and the row, and the rest stays in step with names unique |

## Findings

| source | as written | input that shows it | evidently intended | confidence | as-written member | corrected member |
|---|---|---|---|---|---|---|
| img_api/gateway/api_gateway.py:80 | `delete_file` puts the name into the URL as `?name={name}` without escaping it | deleting a meme named `cat.png&x.png` while a meme `cat.png` exists: the blob service receives `cat.png` and removes that object, and the catalog row of `cat.png&x.png` is removed anyway | pass the name as an escaped query parameter, so the blob service receives it intact | medium, not executed | Sync.UnescapedDeleteRemovesAnotherObject | Sync.DeleteKeepsStoresInStep |

## Left out

- The HTTP layer is left out. This covers the FastAPI routers, the status mapping (404, 422), the gateway's per-call login and its URL building, except for the query of `delete_file` (`Sync.ReceivedName`). The gateway appears only as the reply a repository operation receives (`CreateReply`, `DeleteReply`). The upload metadata of the blob service's route appears as `Sync.UploadMetadata`.
- Concurrency is left out: async interleaving, and the race between `_upsert`'s read and the commit. The operations run one after the other.
- Database mechanics are left out: session, commit, refresh and ORM identity. Rows are values, so an item returned by `create` or `update` is a copy, not a live object that later writes would change. A commit that fails is not modelled.
- Negative `offset` or `limit` are left out. The database rejects them, so `Window` and `List` take naturals.
- Object bytes are stored as given. The `length` argument of `put_object` and the transfer of the stream are left out.
- The store's treatment of metadata is simplified. It may fold header names to lower case; the model stores them under the `x-amz-meta-` prefix unchanged.
- `list` models a flat bucket. The listing's handling of `/`-separated prefixes (non-recursive listing) is left out.
- `delete`'s truthiness test on `last_updated_at` is not a branch in the model. A datetime is always truthy, so the object is always removed.
- Timezones are left out. Times are integers from an injected clock, and `.replace(tzinfo=None)` has nothing to do. For tokens this means `Credentials.LoginThenGet` proves the token lifetime on one clock. `_create_access_token` takes `exp` from the naive local time, and the token library reads that as UTC, so the proved lifetime holds only on a server whose local clock is UTC. Elsewhere it shifts by the UTC offset; west of UTC a 15-minute token can be expired when it is issued.
- Password hashing, JWT signing and JWT decoding are opaque parameters. The round trip of encoding and decoding is a hypothesis (`RoundTrips`), not something proved.
- `_create_access_token` copies its input before changing it. Claims are values in the model, so not changing the caller's dictionary holds trivially.
- `MemeCatalog.Upsert`: it always writes all three reported fields. This matches a `MemeCreate` built from a full blob-service reply; which fields count as "set" under other pydantic versions is not modelled.
- `MemeCatalog.ApplyPatch`: a patch lists only the fields it sets. The request validation that builds the `MemeUpdate` is left out.
- Logging is left out.
- Startup seeding, configuration loading and the test fixtures are left out.
- MemeCatalog.Window: the order of the sequence stands for the order the database returns rows in. The query has no `ORDER BY`, so that order is unspecified. The model keeps insertion order and rewrites an updated row in place, so after an update or a re-upload a page of `MemeCatalog.MemeRepository.List` may differ from what the database returns.
- BlobStore.Get: a stat of a present key always succeeds in the model. Other `S3Error` codes, such as AccessDenied, and transport errors are not modelled. In the source they propagate out of `get`.
- BlobStore.List: the listing and each stat always succeed in the model. Failures of `list_objects` or of a stat are not modelled.
- BlobStore.DeleteSpec: the stat of a present key and the removal always succeed in the model. Other `S3Error` codes and transport errors, which propagate out of `delete`, are not modelled. Only `create_or_update`'s stat failure is modelled (`Faults`).
- BlobStore.AmzHeaders: it assumes plain user metadata keys and prefixes every key. The client leaves keys that are already `x-amz-*` or are standard headers such as `Content-Type` unprefixed. The only metadata the upload route sends is `{'description': …}`, which is a plain key.
- Credentials.Decode: it models only the `exp` and `sub` checks. The token library also rejects tokens on `nbf`, `iat`, `aud`, `iss`, `jti` and `at_hash`. Those checks are not modelled, because the tokens this service issues carry only `sub` and `exp`.
- Sync.ReceivedName: it models only the cut at `&` and `#`. How the query decodes `+` (to a space) and `%` escapes is not modelled, so `Sync.UnescapedDeleteRemovesAnotherObject` covers only names that the cut shortens.
- Sync.DeleteKeepsStoresInStep: it assumes the name reaches the blob service intact. That is the corrected gateway of the finding above; the gateway as written delivers the name intact only when it holds none of `&`, `#`, `+` or `%`.
