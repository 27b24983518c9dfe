# Recycling-collection backend: application rules over an abstract store

This project models the application-level rules of a recycling-collection
backend. Residential and commercial users register and log in. They file
pickup requests ("collections"). Cooperatives are listed in a shared
directory. The relational database becomes a value of type `Database.Store`.
It holds the `users`, `collections` and `cooperative` tables as sequences in
insertion order, plus the next value of each table's serial key. Every
endpoint is a pure function. It takes a store and returns an `Http.Reply`:
the store after the request, and either a success (status code and body) or
an HTTP error. In the endpoints as modelled, with the collection response
read through the corrected column name (see Findings), every error path hands
back the store unchanged. The collection handlers as written commit their
write before the response fails; `CreateCollectionAsWritten`,
`ListCollectionsAsWritten` and `UpdateCollectionAsWritten` model that.

Modules follow the source layout:

- `UserModel`, `CollectionModel`, `CooperativeModel`: the table rows and
  their enums.
- `Database`: the store. It also holds the constraints the table declarations
  ask the database to enforce: unique email, the foreign key from a
  collection to its owner, and serial keys. The store invariant is `Valid`.
- `Paging`: `OFFSET`/`LIMIT` as PostgreSQL evaluates it.
- `UserSchemas`, `CollectionSchemas`, `CooperativeSchemas`: request and
  response shapes.
- `CrudUser`: user data access.
- `UsersEndpoint`, `AuthEndpoint`, `CollectionsEndpoint`,
  `CooperativesEndpoint`: the HTTP handlers.

Some things are parameters. Password hashing (`hash`) and checking
(`verify`) are function-typed parameters about which nothing is assumed. So
are token creation (`createAccessToken`) and the server clock (`now`). The
authenticated caller (`currentUser`) is a plain parameter.

Listing queries have no `ORDER BY`. The model fixes insertion order as an
explicit assumption, and `.first()` returns the first matching row in that
order.

A few facts about the handlers shape the model:

- Neither creation handler geocodes (app/api/api_v1/endpoints/collections.py:20-27,
  app/api/api_v1/endpoints/cooperatives.py:27-31). A new collection stores no
  coordinates. A new cooperative stores whatever coordinates the request
  carried, possibly none.
- The patch schema makes `status` required (app/schemas/collection.py:16-17),
  so a patch body without it is refused by request validation before the
  handler runs.
- All three collection handlers filter by the caller's key: creation stamps
  it, and listing and updating query with it
  (app/api/api_v1/endpoints/collections.py:21, 37-38, 51-54).

## Model

| member | source | states |
|---|---|---|
| UserModel.FirstWithEmail | app/crud/crud_user.py:7-8 | the result has the queried email and comes from the table; it is None exactly when no stored user has that email; a found user is preceded by no other user with that email |
| UserModel.FirstWithEmailIsTheHolder | app/models/user.py:14 | when emails are unique, looking up any stored user's email returns exactly that user |
| Database.EmptyIsValid | app/models/user.py:13-14 | a fresh database satisfies the store invariant |
| Database.InsertUser | app/models/user.py:13-22 | the insert is refused with a unique violation exactly when the email is already stored; otherwise the row gets the next serial key and the clock's time, and it is appended with nothing else changed |
| Database.InsertCollection | app/models/collection.py:13-14 | the insert is refused with a foreign-key violation exactly when the owner key names no user; otherwise the row is appended with the next serial key |
| Database.InsertCooperative | app/models/cooperative.py:9-19 | the insert always succeeds, appending the row with the next serial key |
| Database.InsertUserPreservesValid | app/models/user.py:13-14 | a successful user insert keeps emails unique, keys unique and below the sequence, and owners resolvable |
| Database.InsertCollectionPreservesValid | app/models/collection.py:13-14 | a successful collection insert keeps the store invariant, including the owner foreign key |
| Database.InsertCooperativePreservesValid | app/models/cooperative.py:9 | a cooperative insert keeps the store invariant |
| Paging.Page | app/api/api_v1/endpoints/collections.py:39 | a negative offset, then a negative limit, is a database error; otherwise the page has at most `limit` rows, exactly max(0, min(limit, rows - skip)) of them, and row k of the page is row skip + k of the input |
| Paging.PagesConcatenate | app/api/api_v1/endpoints/cooperatives.py:18 | the page [skip, skip+n) followed by the page [skip+n, skip+n+m) is the page [skip, skip+n+m): paging neither skips nor repeats rows |
| Paging.LargePageIsSuffix | app/api/api_v1/endpoints/collections.py:39 | a limit covering every row after the offset returns the whole remainder |
| UserSchemas.ToUserOut | app/schemas/user.py:20-28 | the response carries the user's key, creation time and the six public fields of the stored user |
| UserSchemas.UserOutHidesHash | app/api/api_v1/endpoints/users.py:10 | the response does not depend on the stored password hash |
| CooperativeSchemas.ToCooperativeData | app/api/api_v1/endpoints/cooperatives.py:27 | every column of the new row is the request field of the same name, latitude and longitude included |
| CooperativeSchemas.ToCooperativeOut | app/schemas/cooperative.py:41-46 | the response carries the key, the creation time and every stored base field |
| CollectionSchemas.ParseCollectionCreate | app/schemas/collection.py:6-14 | an omitted status becomes `pending`, a given status is kept, and the other fields are the body's |
| CollectionSchemas.ParseCollectionUpdate | app/schemas/collection.py:16-17 | a patch is refused as missing `status` exactly when the body has no status; otherwise it carries that status and nothing else |
| CollectionSchemas.ToCollectionData | app/api/api_v1/endpoints/collections.py:20-23 | the new row's date, time, address, materials and status are the request's, and it has no coordinates, since the create schema has no such fields |
| CollectionSchemas.ApplyUpdate | app/api/api_v1/endpoints/collections.py:62-63 | the result has the patch's status whatever the old status was; key, owner, creation time and every other data field are the old row's |
| CollectionSchemas.ApplyUpdateLastWins | app/api/api_v1/endpoints/collections.py:62-63 | a second patch overrides the first, and repeating a patch changes nothing |
| CollectionSchemas.ToCollectionOut | app/schemas/collection.py:19-23 | the response carries the key, the owner key, the creation time and the stored base fields |
| CollectionSchemas.ReadResponse | app/schemas/collection.py:6-26 | reading a response from a row succeeds exactly when every response field without a default is an attribute of the row; otherwise the error lists precisely the missing fields; a row without `status` reads as `pending`, and otherwise the response is the row's |
| CollectionSchemas.AsWrittenResponseFails | app/models/collection.py:23 | with the columns as declared, reading any collection's response fails, and `updated_at` is the only missing field |
| CollectionSchemas.CorrectedResponseSucceeds | app/schemas/collection.py:23 | with the column spelled `updated_at`, every collection's response reads back |
| CrudUser.GetByEmail | app/crud/crud_user.py:7-8 | a found user is stored and has the queried email; the result is None exactly when no stored user has it |
| CrudUser.Create | app/crud/crud_user.py:10-23 | the stored hash is `hash(password)`; email, name, type, address, phone and document are copied; exactly one row is appended and the other tables are unchanged; a stored email is refused by the database |
| CrudUser.Authenticate | app/crud/crud_user.py:25-31 | an unknown email gives None; a wrong password for the found user gives None; a returned user is stored, has the email, and its hash verifies against the password |
| CrudUser.AuthenticateAcceptsHolder | app/crud/crud_user.py:25-31 | in a valid store, a stored user whose hash verifies against the password is the one returned |
| CrudUser.AuthenticateSucceedsIff | app/crud/crud_user.py:25-31 | in a valid store, authentication succeeds exactly when some stored user has the email and a hash that verifies |
| UsersEndpoint.CreateUser | app/api/api_v1/endpoints/users.py:10-74 | a stored email gives 400 "Email already registered" and the store unchanged; otherwise 201, exactly one user appended with that email, the hashed password and the copied fields, the response built from it, and the other tables unchanged |
| UsersEndpoint.CreateUserKeepsEmailsUnique | app/api/api_v1/endpoints/users.py:67-74 | starting from unique emails, registration leaves emails unique |
| UsersEndpoint.CreateUserPreservesValid | app/api/api_v1/endpoints/users.py:67-74 | registration keeps the whole store invariant |
| UsersEndpoint.FirstRegistrationGetsKeyOne | app/models/user.py:13 | on a fresh database the first registration succeeds with status 201 and the user gets key 1 |
| UsersEndpoint.SecondRegistrationRefused | app/api/api_v1/endpoints/users.py:68-70 | after a successful registration, registering the same email again gives 400 and leaves the store as the first registration left it |
| AuthEndpoint.Login | app/api/api_v1/endpoints/auth.py:75-86 | the store never changes; the reply fails exactly when authenticating the `username` as email fails, and then it is 401 "Incorrect email or password" with `WWW-Authenticate: Bearer`; on success it is 200 with a token whose subject is the user's key, type "bearer", and the user's own type, name, email and document |
| AuthEndpoint.UnknownEmailAndWrongPasswordLookAlike | app/api/api_v1/endpoints/auth.py:75-83 | an unknown email and a stored email with a wrong password get the identical 401 reply |
| AuthEndpoint.LoginSucceedsIff | app/api/api_v1/endpoints/auth.py:75-86 | in a valid store, login succeeds exactly when a stored user has the email and a verifying hash, and the token is then issued to that user |
| CollectionsEndpoint.OwnedBy | app/api/api_v1/endpoints/collections.py:37-38 | every returned row belongs to the owner and comes from the table, and every row of the owner is returned |
| CollectionsEndpoint.OwnedByKeepsDistinctIds | app/api/api_v1/endpoints/collections.py:37-38 | filtering by owner keeps primary keys distinct |
| CollectionsEndpoint.OwnedByAppend | app/api/api_v1/endpoints/collections.py:37-38 | a row added at the end of the table appears at the end of its owner's rows and nowhere else |
| CollectionsEndpoint.FindOwned | app/api/api_v1/endpoints/collections.py:51-54 | a result points at a row with the given key owned by the caller; None exactly when the caller owns no row with that key |
| CollectionsEndpoint.CreateCollection | app/api/api_v1/endpoints/collections.py:13-27 | the insert succeeds exactly when the caller's key names a stored user; the new row is appended, owned by the caller, with the request's fields and no coordinates; users and cooperatives are unchanged; a failure is a 500 with the store unchanged |
| CollectionsEndpoint.CreateCollectionPreservesValid | app/api/api_v1/endpoints/collections.py:14-27 | for a stored caller in a valid store, creation succeeds and keeps the invariant |
| CollectionsEndpoint.CreatedCollectionIsListedLast | app/api/api_v1/endpoints/collections.py:20-39 | after creation, the caller's rows are the old ones followed by the new one, and every other user's rows are unchanged |
| CollectionsEndpoint.ListCollections | app/api/api_v1/endpoints/collections.py:30-40 | the store never changes; a negative skip or limit is a 500; otherwise the listing has at most `limit` entries, and entry k is the caller's row skip + k |
| CollectionsEndpoint.ListedCollectionsAreCallers | app/api/api_v1/endpoints/collections.py:37-38 | every collection a listing returns belongs to the caller |
| CollectionsEndpoint.DefaultListingIsFirstHundred | app/api/api_v1/endpoints/collections.py:34-35 | with skip 0 and limit 100 the listing succeeds with min(100, number of the caller's rows) entries |
| CollectionsEndpoint.ConsecutivePagesShareNoId | app/api/api_v1/endpoints/collections.py:37-39 | in a valid store, the caller's pages [0, n) and [n, 2n) share no key |
| CollectionsEndpoint.UpdateCollection | app/api/api_v1/endpoints/collections.py:43-67 | when the caller owns no row with the key, the reply is 404 "Collection not found" and the store is unchanged; otherwise 200 with the patched status; rows not matching key and caller are unchanged, and a matching row is either unchanged or patched; users, cooperatives and sequences are unchanged |
| CollectionsEndpoint.UpdateChangesOnlyStatus | app/api/api_v1/endpoints/collections.py:62-63 | in a valid store, updating the caller's row replaces that row by its patched version and changes nothing else |
| CollectionsEndpoint.CrossUserUpdateIsNotFound | app/api/api_v1/endpoints/collections.py:51-60 | in a valid store, updating a collection owned by someone else gives 404 and leaves the store unchanged |
| CollectionsEndpoint.CollectedCanReturnToPending | app/api/api_v1/endpoints/collections.py:62-63 | no transition guard exists: the owner can set a collected request back to pending |
| CollectionsEndpoint.UpdateCollectionPreservesValid | app/api/api_v1/endpoints/collections.py:62-65 | updating keeps the store invariant |
| CollectionsEndpoint.Respond | app/api/api_v1/endpoints/collections.py:13 | a read response is sent as a 200 body; a failed read is answered with 500 |
| CollectionsEndpoint.ReadAll | app/api/api_v1/endpoints/collections.py:30 | reading a page of rows succeeds exactly when the page is empty or the row attributes cover the required response fields, and then entry k is row k read back |
| CollectionsEndpoint.CreateCollectionAsWritten | app/api/api_v1/endpoints/collections.py:20-27 | with the columns as declared, creation always replies 500, yet leaves the store the corrected handler leaves; for a stored caller that store has one more collection |
| CollectionsEndpoint.ListCollectionsAsWritten | app/api/api_v1/endpoints/collections.py:37-40 | with the columns as declared, the store never changes, and the listing succeeds exactly when the corrected listing is empty; every non-empty page is a 500 |
| CollectionsEndpoint.UpdateCollectionAsWritten | app/api/api_v1/endpoints/collections.py:51-67 | with the columns as declared, the store after the request is the corrected handler's; a row the caller does not own gives 404, and the caller's own row gives 500 |
| CollectionsEndpoint.UpdateAsWrittenCommitsThenFails | app/api/api_v1/endpoints/collections.py:62-67 | with the columns as declared, updating the caller's row stores the new status and still replies 500 |
| CooperativesEndpoint.ListCooperatives | app/api/api_v1/endpoints/cooperatives.py:12-19 | the store never changes; a negative skip or limit is a 500; otherwise there is no filter, the listing has at most `limit` entries, and entry k is cooperative skip + k |
| CooperativesEndpoint.DefaultListingIsFirstHundred | app/api/api_v1/endpoints/cooperatives.py:13-14 | with skip 0 and limit 100 the listing succeeds with min(100, number of cooperatives) entries |
| CooperativesEndpoint.ConsecutivePagesShareNoId | app/api/api_v1/endpoints/cooperatives.py:18 | in a valid store, the pages [0, n) and [n, 2n) share no key |
| CooperativesEndpoint.CreateCooperative | app/api/api_v1/endpoints/cooperatives.py:22-31 | creation always succeeds; exactly one cooperative is appended, storing every request field verbatim with the next key; users and collections are unchanged |
| CooperativesEndpoint.CreateCooperativePreservesValid | app/api/api_v1/endpoints/cooperatives.py:27-29 | creation keeps the store invariant |

The datatypes carry the remaining declared facts. A user's type is one of
`Residential` and `Commercial` (app/models/user.py:6-8). A collection's
status is one of `Pending` and `Collected` (app/models/collection.py:6-8).
Every non-null column is a plain field, and the nullable coordinates are
`Option` values (app/models/collection.py:20-21). A material entry is a map
from strings to a string or an integer (app/schemas/collection.py:10). The
patch schema has exactly one field (app/schemas/collection.py:16-17). The
collection response has `id` and `user_id` besides the base fields
(app/schemas/collection.py:19-23). `Database.Valid` states the remaining
table-level facts: unique emails, unique serial keys, and owner keys that
name stored users.

## Findings

| source | as written | input that shows it | evidently intended | confidence | as-written member | corrected member |
|---|---|---|---|---|---|---|
| app/models/collection.py:23 | the last timestamp column is declared as `updated_t`, while the collection response schema requires `updated_at` with no default (app/schemas/collection.py:23), so validating any returned collection reports `updated_at` missing | any stored collection returned by create, list or update | the column is named `updated_at`, so every collection response can be read | medium, not executed | CollectionSchemas.AsWrittenResponseFails | CollectionSchemas.CorrectedResponseSucceeds |

`CollectionsEndpoint.CreateCollection`, `ListCollections` and
`UpdateCollection` build their responses with `CollectionSchemas.ToCollectionOut`.
That is the corrected reading, as `CorrectedResponseSucceeds` shows. The
handlers as declared are `CreateCollectionAsWritten`,
`ListCollectionsAsWritten` and `UpdateCollectionAsWritten`: creation and
update commit the write and then reply 500, and listing replies 500 for any
non-empty page.

## Left out

- Geocoding (app/utils/geocoding.py) is not part of this model. It is an outbound HTTP call with floating-point parsing, and none of the modelled create paths call it.
- Settings loading, the migration and the router wiring are left out. They carry no application logic.
- Password hashing, password checking, token signing and token expiry are left out. They live in a security module that is not part of this model, so they are parameters.
- `get_current_user` and the request's database session are not part of this model. The caller is a parameter.
- CrudUser.Create: states that the stored hash is `hash(password)`. Whether it differs from the plaintext depends on the hash function, which is a parameter.
- Timestamps: `created_at` is the `now` parameter. Update times (`updated_at`, and `updated_t` for collections) are not tracked. The user row omits its update time, and collection responses carry None.
- Concurrency is left out. The model is sequential. It does not model the check-then-insert race on registration, nor last-writer-wins between concurrent patches.
- A failed insert leaves the key sequence unchanged in the model. PostgreSQL would consume a sequence value even then. Keys stay unique either way.
- Email format validation and normalisation by the request schema are left out. Emails are compared exactly as given.
- Request validation is modelled only for a patch body without `status` and for the default status of a new collection. Other malformed bodies never reach a handler.
- Integer widths are left out. Keys, `skip` and `limit` are unbounded integers, so a database error for an out-of-range value is not modelled.
- The column default for a collection's status is not modelled separately. It never applies, because the handler always supplies a status. It is the same value, `pending`, as the schema default.
- CollectionsEndpoint.CreateCollection: reads the response through the corrected column name. As declared, the row is committed and the reply is 500 instead, which `CreateCollectionAsWritten` states.
- CollectionsEndpoint.ListCollections: reads the response through the corrected column name. As declared, every non-empty page is a 500, which `ListCollectionsAsWritten` states.
- CollectionsEndpoint.UpdateCollection: reads the response through the corrected column name. As declared, the patch is committed and the reply is 500 instead, which `UpdateCollectionAsWritten` states.
- The cooperative update schema (app/schemas/cooperative.py:26-35) is used by no handler, so it is not modelled.
