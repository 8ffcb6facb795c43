# etcd auth store (early `auth/store.go`), modelled in Dafny

etcd's first authentication store keeps two pieces of state in the server's
bucketed storage backend: a feature flag, `auth/authEnabled`, whose value is
the single byte `0x01` once authentication is on, and a user table,
`authUsers`, keyed by user name. Each value in that table is an encoded
`User{Name, Password}` record, and the password is a bcrypt hash. The store
has four operations:

- `NewAuthStore` creates both buckets under the backend lock. Creating a
  bucket that already exists is a no-op. It then forces a commit.
- `AuthEnable` writes the flag under the lock, then forces a commit.
- `Recover` swaps the backend reference and does nothing else.
- `UserAdd` is an insert-if-absent. It hashes the password first. Then,
  under the lock, it refuses a name that is already present, marshals the
  record, and writes it under the name. It never forces a commit.

Files:

- `types.dfy`: bytes, `Option`, `Result`.
- `authpb.dfy`: the `User` record. Its `Marshal` is the abstract
  `Marshaller` type.
- `backend.dfy`: the backend and its batch transaction, as one class.
  - `pending` holds the bucket tables that reads inside the transaction see.
  - `committed` holds what a crash keeps.
  - `locked` is a ghost flag for the transaction mutex.
  - `forceCommits` is a ghost counter of `ForceCommit` calls.
  - `Put` and `CreateBucket` are the pure specifications of the unsafe
    writes.
- `store.dfy`: the constants, the errors, and three pure specifications:
  `EnableAuth`, `EnsureBuckets` and `AddUser`. It also holds the
  `AuthStore` class and `NewAuthStore`. Each method performs the source's
  steps in the source's order: lock, unsafe reads and writes, unlock, then
  commit. Each method's `ensures` ties the new backend state to its
  specification function. It also states what happens to the committed
  state, the lock and the commit counter.
- `properties.dfy`: properties that relate several calls. They cover
  idempotence and the second addition of a name. They also show that no
  sequence of operations overwrites a user record or clears the flag, and
  that every record stays under its own name. Two client methods contrast
  the durability of `AuthEnable` with that of `UserAdd` across a crash.

Fatal conditions in the backend become preconditions, because the process
aborts there rather than returning:

- a missing bucket in `UnsafePut` or `UnsafeRange`;
- taking the lock twice, which deadlocks;
- unlocking a free lock;
- calling `ForceCommit` while holding the lock, since `ForceCommit` takes
  the lock itself.

`bcrypt.GenerateFromPassword` becomes a `Hasher` function parameter, and
`User.Marshal` becomes a `Marshaller` function parameter. Both may fail.
`UserAdd` reports their failures as `ErrHash(cause)` and `ErrMarshal(cause)`;
the Go code returns the foreign error value as it is. On `ErrUserAlreadyExist`
the code returns an empty response together with the error. On the other two
failures it returns a nil response. The model keeps that difference.

Two behaviours of the code that the model keeps:

- The code does not check that a user name is non-empty, and neither does
  the model.
- Hashing runs before the existence check (auth/store.go:70 comes before
  auth/store.go:80). So a second addition of a name whose own hashing fails
  reports the hashing error, not `ErrUserAlreadyExist`.
  `AddUserTwiceRejected` states exactly this.

## Model

| member | source | states |
|---|---|---|
| `StorageBackend.Put` | auth/store.go:96 | An unsafe put changes only the one key of the one bucket: the bucket set is the same, the bucket gains `key` with `value`, and every other key and every other bucket is unchanged |
| `StorageBackend.CreateBucket` | auth/store.go:107-108 | Creating a bucket adds it empty when absent and keeps every existing bucket, its own included, unchanged |
| `StorageBackend.Backend.UnsafeRange` | auth/store.go:80-81 | With a nil end key the range is an exact-key lookup: it returns one value exactly when the bucket holds the key, namely that key's value, and nothing otherwise; it changes nothing |
| `StorageBackend.Backend.UnsafePut` | auth/store.go:55 | Under the lock, the pending tables become `Put` of the old ones; committed state, lock and commit count are unchanged |
| `StorageBackend.Backend.UnsafeCreateBucket` | auth/store.go:107-108 | Under the lock, the pending tables become `CreateBucket` of the old ones; nothing else changes |
| `StorageBackend.Backend.ForceCommit` | auth/store.go:57 | Requires the lock free; afterwards the committed state equals the pending state and one more forced commit is counted |
| `StorageBackend.Backend.Lock` | auth/store.go:54 | Takes a free lock; contents unchanged |
| `StorageBackend.Backend.Unlock` | auth/store.go:56 | Releases a held lock; contents unchanged |
| `Auth.EnableAuth` | auth/store.go:50-55 | After enabling, `auth/authEnabled` holds the single byte 1; every other key of `auth` and every other bucket is unchanged |
| `Auth.EnsureBuckets` | auth/store.go:104-110 | Both `auth` and `authUsers` exist afterwards; every bucket that existed keeps its contents; only the two names can be added, and they are added empty |
| `Auth.AddUser` | auth/store.go:67-101 | Every failure leaves the tables unchanged; a hashing failure is returned with no response; an existing entry under the exact name gives `ErrUserAlreadyExist` with an empty response; a marshalling failure is returned with no response; success holds iff hashing succeeds, the name is absent and marshalling succeeds, and then only `authUsers[name]` is written, with `Marshal(User{name, hashed})` |
| `Auth.AuthStore.AuthEnable` | auth/store.go:49-60 | The pending tables become `EnableAuth` of the old ones and are committed (committed equals pending), the lock is free on return, and one forced commit is counted |
| `Auth.AuthStore.Recover` | auth/store.go:62-65 | The store's backend becomes the given one; no backend's contents change |
| `Auth.AuthStore.UserAdd` | auth/store.go:67-101 | The pending tables, the response and the error are exactly those of `AddUser`; committed state is untouched and no commit is forced; the lock is free on every return path |
| `Auth.NewAuthStore` | auth/store.go:103-116 | Returns a new store bound to the given backend, whose pending tables become `EnsureBuckets` of the old ones and are committed; the lock is free on return |
| `AuthProperties.EnableAuthIdempotent` | auth/store.go:50-57 | Enabling twice gives the same tables as enabling once |
| `AuthProperties.EnsureBucketsIdempotent` | auth/store.go:104-111 | Creating the buckets on an already opened store changes nothing |
| `AuthProperties.AddUserTwiceRejected` | auth/store.go:80-83 | After a successful addition, a second addition of the same name with any password fails and changes nothing, and its error is `ErrUserAlreadyExist` whenever its hashing succeeds |
| `AuthProperties.AddUserStoresUnderOwnName` | auth/store.go:85-96 | The value a successful addition writes under `name` is the encoding of a record whose name is `name` |
| `AuthProperties.Step` | auth/store.go:49-116 | Each of `NewAuthStore`, `AuthEnable` and `UserAdd` on one backend keeps both buckets present |
| `AuthProperties.Run` | auth/store.go:49-116 | Any sequence of `NewAuthStore`, `AuthEnable` and `UserAdd` calls on one backend that has both buckets keeps both buckets present |
| `AuthProperties.RunNeverOverwritesUser` | auth/store.go:80-83 | Once a user record is stored, no sequence of `NewAuthStore`, `AuthEnable` and `UserAdd` calls on that backend removes or changes it |
| `AuthProperties.RunKeepsAuthEnabled` | auth/store.go:50-57 | Once the flag holds 1, no sequence of `NewAuthStore`, `AuthEnable` and `UserAdd` calls on that backend clears or changes it |
| `AuthProperties.StepKeepsUsersStoredUnderOwnName` | auth/store.go:85-96 | Each of `NewAuthStore`, `AuthEnable` and `UserAdd` keeps every `authUsers` entry an encoding of a record named by its key |
| `AuthProperties.RunKeepsUsersStoredUnderOwnName` | auth/store.go:85-96 | Every `authUsers` entry stays an encoding of a record named by its key, after any sequence of `NewAuthStore`, `AuthEnable` and `UserAdd` calls on one backend |
| `AuthProperties.AuthEnableSurvivesCrash` | auth/store.go:54-57 | A crash right after `AuthEnable` returns still shows `auth/authEnabled` as 1 |
| `AuthProperties.UserAddLostOnCrash` | auth/store.go:96-100 | A user the backend had not committed before `UserAdd` is absent after a crash right after it, because `UserAdd` forces no commit |

## Left out

- bcrypt internals: the cost factor, salting and input length limits. The hash is a function parameter that may fail. Nothing is claimed about salting, or about the hash differing from the plaintext, because the code does not show it.
- The protobuf encoding of `authpb.User`: it is generated code. `Marshal` is a function parameter that may fail. Only the `Name` and `Password` fields are modelled, because only those are set.
- `plog` logging calls: they are output only and do not change state.
- Real locking and concurrency: the mutex is a ghost flag, and callers run one after another. Concurrent calls serialise through the one lock, so `Run` over a sequence of operations stands for any interleaving of whole calls.
- The backend's own commit machinery: batch limits, the periodic commit, compaction and snapshots. The model has no automatic commit, so a write that `UserAdd` leaves pending stays pending until something forces a commit.
- `Backend.BatchTx()` returns the backend's single batch transaction. The model folds the transaction into the `Backend` class.
- RPC types: the response header is not modelled, and request strings are byte sequences.
- `Recover`'s missing reconstruction: the source has none. `Recover` also does not check that the new backend has the buckets. For that reason `AuthEnable` requires the `auth` bucket in the backend's pending state, and `UserAdd` requires the `authUsers` bucket there once hashing has succeeded. The real backend aborts the process when the bucket it reads or writes is missing; a `UserAdd` whose hashing fails returns before touching the backend.
- `Recover` is not an operation of `Run`: it swaps in a different backend, whose contents may lack the buckets, a stored user or the flag. So the `Run*` properties hold for the calls made on one backend between two swaps, not across a `Recover`.
- Empty user names: the backend's key-value store refuses an empty key, and the backend turns that refusal into a process abort. The model's `UnsafePut` has no such precondition, so a `UserAdd` with an empty name stores the record under the empty key where the real backend would abort. The backend's maximum key and value sizes are not modelled either.
- `EncodesUserNamed`: says only that some record with the key as its name encodes to the stored bytes. It identifies the record's name only if `Marshal` is injective, and the abstract `Marshaller` does not promise that.
