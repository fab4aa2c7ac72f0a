# doc-pouch user collection, modelled in Dafny

This project models the user collection of the doc-pouch server, `src/srv/NeDbWrapper.ts`.
The collection has two layers:

- `CustomStore` wraps one nedb datastore. It exposes count, add (insert) and query (find).
- `NeDbWrapper` owns the "System Users" store. On first run it seeds a default administrator. It also answers `getUsers` and `getUsersByIds`, and creates users through `createUser`.

Module `Store` (`store.dfy`) holds the data model and the store:

- `User` follows the `I_dbUser` shape: optional numeric `id`, `name`, optional `email`, `password` and `roleIds`.
- `Body` is the object handed to insert.
  - `Plain(user)` is the user record itself, which is what bootstrap inserts.
  - `Wrapped(user)` is the object `{ user }`, which is what `createUser` inserts. Its only field is `user`, so it has no top-level `id`.
- `StoredRecord` pairs a body with the key the datastore assigned (nedb's `_id`).
- `Filter` covers the two filter shapes ever used: `{}` (`MatchAll`) and `{ id: { $in: ids } }` (`IdIn`).
- `CustomStore` is a class whose `records` sequence the `Add` method extends in place.
  - `Count` and `Query` are read-only functions over that sequence.
  - `Query` returns the reference selection `Select`. The lemmas `SelectMembers` and `SelectMultiplicity` characterise that selection independently: which records it returns, and how often.
  - `Count` uses the independent counter `CountMatching`. The lemma `CountIsSelectLength` ties it to the length of the query.
  - `Matches` and `TopLevelId` model nedb's matching for the two filters. `IdIn` compares against the top-level `id` only, so a record without one never matches.

Module `Users` (`users.dfy`) holds the `NeDbWrapper` class and the specification functions its methods are proved against:

- `Bootstrapped` is the collection after first-run bootstrap.
- `CreateUserOutcome` is how the promise of `createUser` settles.
- `DefaultAdmin` is the seeded administrator (src/srv/NeDbWrapper.ts:16-20).
- `FirstFailedCheck` gives the message of the first failing check of `createUser` (src/srv/NeDbWrapper.ts:43-48).
- The lemmas in the table below pin down these functions.

A JavaScript promise is modelled by `Promise`, a value that settles at most once. So in `createUser`, each failing check calls `reject` but does not return. The first failing check decides the outcome. The later `resolve` after the insert takes effect only when no check failed. The insert of `{ user }` happens in every case: a rejected `createUser` still adds a record.

`createUser` does not check whether the name is already taken. A valid user whose name is already stored is inserted again and the promise resolves. The lemma `CreateUserAcceptsTakenName` states this.

Because `createUser` stores the user under the key `user`, a user created that way is never returned by `getUsersByIds`, whatever its id. The lemma `CreatedUserNotFoundById` states this.

## Model

| member | source | states |
|---|---|---|
| Store.CustomStore.constructor | src/srv/NeDbWrapper.ts:62-68 | opening a store keeps the loaded records and stores its name, description and role id lists as given |
| Store.CustomStore.Count | src/srv/NeDbWrapper.ts:70-80 | the count equals the number of records the query returns, is at most the collection size, and for `{}` is the collection size |
| Store.CustomStore.Query | src/srv/NeDbWrapper.ts:94-104 | a record is returned exactly when it is stored and matches the filter, as many times as it is stored, which is at most once while keys are distinct; `{}` returns the whole collection |
| Store.KeysDistinctStoresOnce | src/srv/NeDbWrapper.ts:94-104 | while keys are distinct no record is stored twice, so find returns each document at most once |
| Store.CustomStore.Add | src/srv/NeDbWrapper.ts:82-92 | insert appends exactly one record holding the given object under a key no existing record uses, returns that record, leaves earlier records unchanged and keeps keys distinct |
| Store.FreshKey | src/srv/NeDbWrapper.ts:82-92 | the key given to a new record is larger than every key in use, so it is fresh |
| Store.SelectMembers | src/srv/NeDbWrapper.ts:94-104 | find returns exactly the stored records matching the filter, in both directions |
| Store.SelectMultiplicity | src/srv/NeDbWrapper.ts:94-104 | find returns each matching record exactly as often as it is stored and no non-matching record |
| Store.SelectAll | src/srv/NeDbWrapper.ts:29-33 | the match-all filter `{}` returns every stored record |
| Store.SelectLength | src/srv/NeDbWrapper.ts:94-104 | a query never returns more records than are stored |
| Store.CountIsSelectLength | src/srv/NeDbWrapper.ts:70-80 | count agrees with the length of find for the same filter |
| Store.CountAllIsLength | src/srv/NeDbWrapper.ts:12-14 | `count({})` is the size of the collection |
| Store.SelectAppend | src/srv/NeDbWrapper.ts:82-92 | after one insert, a query returns what it returned before plus the new record if it matches |
| Store.AppendFreshKeepsKeysDistinct | src/srv/NeDbWrapper.ts:82-92 | inserting under a fresh key keeps every key in the collection distinct |
| Users.NeDbWrapper.constructor | src/srv/NeDbWrapper.ts:6-27 | the wrapper opens the "System Users" store with its description, reading and writing role ids [0] and leaves it in the bootstrapped state of the loaded records |
| Users.NeDbWrapper.Bootstrap | src/srv/NeDbWrapper.ts:12-26 | when the count is below 1 the default admin is inserted, otherwise the collection is unchanged |
| Users.NeDbWrapper.GetUsers | src/srv/NeDbWrapper.ts:29-33 | returns every stored record and changes nothing |
| Users.NeDbWrapper.GetUsersByIds | src/srv/NeDbWrapper.ts:35-39 | returns exactly the stored records whose top-level `id` is one of `ids`, each as often as it is stored, and changes nothing |
| Users.NeDbWrapper.CreateUser | src/srv/NeDbWrapper.ts:41-52 | in every case exactly one record, the input wrapped under `user`, is appended and existing records are kept; the promise settles as the first failing check or with the inserted record |
| Users.BootstrapSeedsAdmin | src/srv/NeDbWrapper.ts:12-24 | on an empty collection bootstrap leaves exactly one record: name "admin", password "adminSecret", id 0, roleIds [0], found by id 0 |
| Users.BootstrapKeepsPopulated | src/srv/NeDbWrapper.ts:12-14 | on a collection holding a record, bootstrap changes nothing |
| Users.BootstrapIdempotent | src/srv/NeDbWrapper.ts:12-26 | running bootstrap twice gives the same collection as once, so no second admin is added |
| Users.BootstrapExtends | src/srv/NeDbWrapper.ts:12-26 | bootstrap keeps existing records in place and adds at most one |
| Users.CreateUserAcceptsTakenName | src/srv/NeDbWrapper.ts:41-52 | a valid user whose name is already stored still resolves and is appended, leaving two records with that name |
| Users.ShortPasswordRejected | src/srv/NeDbWrapper.ts:43-44 | a password shorter than 8 characters rejects with "Password must be at least 8 characters long", whatever the other fields |
| Users.NamelessUserRejected | src/srv/NeDbWrapper.ts:43-46 | with a valid password and an empty name, the rejection is "User must have a name" |
| Users.RolelessUserRejected | src/srv/NeDbWrapper.ts:43-48 | with a valid password and name and no role id, the rejection is "User must have at least 1 role" |
| Users.CreateUserFulfilledIffValid | src/srv/NeDbWrapper.ts:41-51 | the promise resolves exactly when all three checks pass, with the inserted record, and it never stays pending |
| Users.CreatedUserNotFoundById | src/srv/NeDbWrapper.ts:35-52 | a user inserted by createUser has no top-level id, so getUsersByIds returns the same records as before it |
| Users.AdminFoundByIdZero | src/srv/NeDbWrapper.ts:16-39 | the admin seeded into an empty collection is returned by getUsersByIds exactly when 0 is among the ids |

## Left out

- Storage faults: the error callbacks of count, insert and find (`reject(err)`) are not modelled. Every store operation succeeds, so `getUsers` and `getUsersByIds`, which never settle when a query fails, always return.
- Asynchrony: the constructor starts bootstrap without waiting for it, and count-then-insert can race with other requests. Every asynchronous step is modelled as a sequential step.
- File persistence and `autoload`: the file's contents are the constructor parameter `persisted`. The model requires those records to have distinct keys, as nedb's unique `_id` index guarantees after loading. The file name is not modelled.
- nedb's `_id` scheme: nedb draws a random string. The model fixes the key at one above the largest key in use. The contracts of `Add`, `Bootstrap`, `CreateUser` and the constructor state their results with that key, so they say more about the key than nedb does. No lemma uses more than the key's freshness.
- Store.CustomStore.Query: nedb promises no order for results without a sort. The model returns records in insertion order. For `{}`, the contracts of `Query` and `GetUsers`, and the lemma `SelectAppend`, fix that order, which nedb does not promise. For `IdIn` the contracts state which records are returned and how often, but no order.
- Users.CreateUser: `password.length` and `name.length` count UTF-16 code units in JavaScript. The model counts Dafny characters, so the two differ for characters outside the Basic Multilingual Plane.
- Logging: the `console.info` of the created admin (src/srv/NeDbWrapper.ts:23) is not modelled.
- The unused `getUsers()` call inside `createUser` (src/srv/NeDbWrapper.ts:49) reads the collection and discards the result. It has no effect and is not modelled.
- Users.CreateUser: typing the input as `User` excludes malformed requests. `/users/create` passes the request body unchecked (src/srv/NetworkManager.ts:68-69).
  - A missing `password`, `name` or `roleIds` makes the `.length` read fail inside the promise executor. That turns into a rejection, unless an earlier check has already rejected, and the insert is then skipped. The model does not capture this.
  - A field of the wrong type can pass a check unnoticed. For example, a numeric password has no `.length`, so the comparison with 8 is false and the check passes. The model does not capture this either.
- JavaScript numbers are doubles. The model represents user ids, role ids and the `ids` argument as integers, so fractional and `NaN` ids are not modelled. Under `$in`, `NaN` matches nothing.
- The role metadata (`readingRoleIds`, `writingRoleIds`) is stored but never consulted. `I_dbUserRole` and `I_Document` are unused declarations.
- The network layer (src/srv/NetworkManager.ts), the schema validator, the error class, process startup and the build configuration are not part of this model. The same holds for the user shape in src/types.ts, which the store does not use.
- Documents, structures and ownership or admin permission checks have no implementation in these sources, so they are not modelled.
