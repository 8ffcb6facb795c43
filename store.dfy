/**
 * The auth store: the authentication state kept in two buckets of the
 * storage backend, the feature flag in `auth` and the user table in
 * `authUsers`.
 */
module Auth {
  import opened Types
  import opened StorageBackend
  import opened AuthPb

  /** "authEnabled", the key of the feature flag. */
  const EnableFlagKey: Bytes := [97, 117, 116, 104, 69, 110, 97, 98, 108, 101, 100]
  /** "auth", the bucket of the feature flag. */
  const AuthBucketName: Bytes := [97, 117, 116, 104]
  /** "authUsers", the bucket of user records keyed by user name. */
  const AuthUsersBucketName: Bytes := [97, 117, 116, 104, 85, 115, 101, 114, 115]
  /** The flag's value once authentication is enabled: the single byte 1. */
  const EnabledValue: Bytes := [1]

  /** The errors UserAdd reports; hashing and marshalling failures carry the foreign error's text. */
  datatype Error = ErrUserAlreadyExist | ErrHash(cause: string) | ErrMarshal(cause: string)

  datatype AuthUserAddRequest = AuthUserAddRequest(name: Bytes, password: Bytes)

  /** The (empty) response of a user addition. */
  datatype AuthUserAddResponse = AuthUserAddResponse

  /**
   * bcrypt's GenerateFromPassword at the default cost, salt included, for one
   * call: a hash of the password or an error text.
   */
  type Hasher = Bytes -> Result<Bytes, string>

  /** Both buckets of the store exist. */
  predicate BucketsExist(t: Tables)
  {
    AuthBucketName in t && AuthUsersBucketName in t
  }

  /** What AuthEnable writes: auth/authEnabled holds the byte 1, and nothing else changes. */
  function EnableAuth(t: Tables): (r: Tables)
    requires AuthBucketName in t
    ensures r.Keys == t.Keys
    ensures EnableFlagKey in r[AuthBucketName] && r[AuthBucketName][EnableFlagKey] == EnabledValue
    ensures r[AuthBucketName].Keys == t[AuthBucketName].Keys + {EnableFlagKey}
    ensures forall k :: k in t[AuthBucketName] && k != EnableFlagKey ==>
              r[AuthBucketName][k] == t[AuthBucketName][k]
    ensures forall b :: b in t && b != AuthBucketName ==> r[b] == t[b]
  {
    Put(t, AuthBucketName, EnableFlagKey, EnabledValue)
  }

  /** What NewAuthStore writes: both buckets exist, existing contents are kept. */
  function EnsureBuckets(t: Tables): (r: Tables)
    ensures BucketsExist(r)
    ensures r.Keys == t.Keys + {AuthBucketName, AuthUsersBucketName}
    ensures forall b :: b in t ==> r[b] == t[b]
    ensures forall b :: b in r && b !in t ==> r[b] == map[]
  {
    CreateBucket(CreateBucket(t, AuthBucketName), AuthUsersBucketName)
  }

  /** The backend contents UserAdd leaves and the response and error it returns. */
  datatype UserAddResult = UserAddResult(tables: Tables, resp: Option<AuthUserAddResponse>, err: Option<Error>)

  /**
   * UserAdd on backend contents: hash the password, refuse a name that is
   * already present, marshal the record, and write it under the name.
   */
  function AddUser(t: Tables, r: AuthUserAddRequest, hash: Hasher, marshal: Marshaller): (o: UserAddResult)
    // the bucket is only read once hashing has succeeded
    requires hash(r.password).Success? ==> AuthUsersBucketName in t
    // every failure leaves the contents as they were
    ensures o.err.Some? ==> o.tables == t
    // hashing comes first and its failure is reported with no response
    ensures hash(r.password).Failure? ==>
              o.err == Some(ErrHash(hash(r.password).error)) && o.resp == None
    // an existing entry under the exact name is refused, with an empty response
    ensures hash(r.password).Success? && r.name in t[AuthUsersBucketName] ==>
              o.err == Some(ErrUserAlreadyExist) && o.resp == Some(AuthUserAddResponse)
    ensures hash(r.password).Success? && r.name !in t[AuthUsersBucketName] &&
            marshal(User(r.name, hash(r.password).value)).Failure? ==>
              o.err == Some(ErrMarshal(marshal(User(r.name, hash(r.password).value)).error)) && o.resp == None
    // success exactly when all three steps pass
    ensures o.err.None? <==>
              && hash(r.password).Success?
              && r.name !in t[AuthUsersBucketName]
              && marshal(User(r.name, hash(r.password).value)).Success?
    // on success only authUsers[name] is written, with the marshalled record
    ensures o.err.None? ==>
              && o.resp == Some(AuthUserAddResponse)
              && o.tables.Keys == t.Keys
              && (forall b :: b in t && b != AuthUsersBucketName ==> o.tables[b] == t[b])
              && o.tables[AuthUsersBucketName].Keys == t[AuthUsersBucketName].Keys + {r.name}
              && (forall k :: k in t[AuthUsersBucketName] ==>
                    o.tables[AuthUsersBucketName][k] == t[AuthUsersBucketName][k])
              && o.tables[AuthUsersBucketName][r.name] == marshal(User(r.name, hash(r.password).value)).value
  {
    match hash(r.password)
    case Failure(e) => UserAddResult(t, None, Some(ErrHash(e)))
    case Success(hashed) =>
      if r.name in t[AuthUsersBucketName] then
        UserAddResult(t, Some(AuthUserAddResponse), Some(ErrUserAlreadyExist))
      else
        match marshal(User(r.name, hashed))
        case Failure(e) => UserAddResult(t, None, Some(ErrMarshal(e)))
        case Success(data) =>
          UserAddResult(Put(t, AuthUsersBucketName, r.name, data), Some(AuthUserAddResponse), None)
  }

  /** The auth store: a reference to the backend it keeps its state in. */
  class AuthStore {
    var be: Backend

    constructor (be: Backend)
      ensures this.be == be
    {
      this.be := be;
    }

    /**
     * Turns authentication on: puts the flag under the lock, releases it,
     * then forces a commit so the flag is durable.
     */
    method AuthEnable()
      requires AuthBucketName in be.pending && !be.locked
      modifies be
      ensures be.pending == EnableAuth(old(be.pending))
      ensures be.committed == be.pending
      ensures !be.locked && be.forceCommits == old(be.forceCommits) + 1
    {
      var value := EnabledValue;
      var b := be;
      b.Lock();
      b.UnsafePut(AuthBucketName, EnableFlagKey, value);
      b.Unlock();
      b.ForceCommit();
    }

    /** Replaces the backend reference; nothing is read from the new backend. */
    method Recover(b: Backend)
      modifies this
      ensures be == b
    {
      be := b;
    }

    /**
     * Adds a user: hashes the password, then, under the lock, refuses a name
     * already present, marshals the record and writes it under the name.
     * The lock is released on every path after it is taken, and no commit is
     * forced: the write stays pending.
     */
    method UserAdd(r: AuthUserAddRequest, hash: Hasher, marshal: Marshaller)
      returns (resp: Option<AuthUserAddResponse>, err: Option<Error>)
      requires hash(r.password).Success? ==> AuthUsersBucketName in be.pending
      requires !be.locked
      modifies be
      ensures UserAddResult(be.pending, resp, err) == AddUser(old(be.pending), r, hash, marshal)
      ensures be.committed == old(be.committed)
      ensures !be.locked && be.forceCommits == old(be.forceCommits)
    {
      var hashed := hash(r.password);
      if hashed.Failure? {
        return None, Some(ErrHash(hashed.error));
      }

      var tx := be;
      tx.Lock();

      var _, vs := tx.UnsafeRange(AuthUsersBucketName, r.name);
      if |vs| != 0 {
        tx.Unlock();
        return Some(AuthUserAddResponse), Some(ErrUserAlreadyExist);
      }

      var newUser := User(r.name, hashed.value);
      var marshaledUser := marshal(newUser);
      if marshaledUser.Failure? {
        tx.Unlock();
        return None, Some(ErrMarshal(marshaledUser.error));
      }

      tx.UnsafePut(AuthUsersBucketName, r.name, marshaledUser.value);
      tx.Unlock();
      return Some(AuthUserAddResponse), None;
    }
  }

  /**
   * Opens the store on a backend: creates both buckets under the lock (an
   * existing bucket is kept), releases it and forces a commit so the buckets
   * are durable.
   */
  method NewAuthStore(be: Backend) returns (s: AuthStore)
    requires !be.locked
    modifies be
    ensures fresh(s) && s.be == be
    ensures be.pending == EnsureBuckets(old(be.pending))
    ensures be.committed == be.pending
    ensures !be.locked && be.forceCommits == old(be.forceCommits) + 1
  {
    var tx := be;
    tx.Lock();
    tx.UnsafeCreateBucket(AuthBucketName);
    tx.UnsafeCreateBucket(AuthUsersBucketName);
    tx.Unlock();
    be.ForceCommit();
    s := new AuthStore(be);
  }
}
