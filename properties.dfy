/**
 * Properties of the auth store that relate several calls: idempotence, no
 * overwrite of an existing user, the flag staying set, every user record
 * stored under its own name, and the durability difference between
 * AuthEnable and UserAdd.
 */
module AuthProperties {
  import opened Types
  import opened StorageBackend
  import opened AuthPb
  import opened Auth

  /** AuthEnable a second time writes nothing new. */
  lemma EnableAuthIdempotent(t: Tables)
    requires AuthBucketName in t
    ensures EnableAuth(EnableAuth(t)) == EnableAuth(t)
  {
    var e := EnableAuth(t);
    assert e[AuthBucketName][EnableFlagKey := EnabledValue] == e[AuthBucketName];
  }

  /** Opening the store again on the same contents changes nothing. */
  lemma EnsureBucketsIdempotent(t: Tables)
    ensures EnsureBuckets(EnsureBuckets(t)) == EnsureBuckets(t)
  {
  }

  /**
   * After a successful addition, adding the same name again, with any
   * password, fails and writes nothing; once its own hashing succeeds the
   * error is ErrUserAlreadyExist.
   */
  lemma AddUserTwiceRejected(t: Tables, r: AuthUserAddRequest, hash: Hasher,
                             r2: AuthUserAddRequest, hash2: Hasher, marshal: Marshaller)
    requires AuthUsersBucketName in t
    requires AddUser(t, r, hash, marshal).err.None?
    requires r2.name == r.name
    ensures AddUser(AddUser(t, r, hash, marshal).tables, r2, hash2, marshal).err.Some?
    ensures AddUser(AddUser(t, r, hash, marshal).tables, r2, hash2, marshal).tables
            == AddUser(t, r, hash, marshal).tables
    ensures hash2(r2.password).Success? ==>
              AddUser(AddUser(t, r, hash, marshal).tables, r2, hash2, marshal).err == Some(ErrUserAlreadyExist)
  {
  }

  /**
   * `v` is the encoding of some user record whose name is `name`. This pins
   * the record's name down only as far as `marshal` is injective, which the
   * abstract encoding does not promise.
   */
  ghost predicate EncodesUserNamed(marshal: Marshaller, name: Bytes, v: Bytes)
  {
    exists password: Bytes :: marshal(User(name, password)) == Success(v)
  }

  /** Every entry of `authUsers` is a record whose name is the entry's key. */
  ghost predicate UsersStoredUnderOwnName(t: Tables, marshal: Marshaller)
    requires AuthUsersBucketName in t
  {
    forall k :: k in t[AuthUsersBucketName] ==> EncodesUserNamed(marshal, k, t[AuthUsersBucketName][k])
  }

  /** The record a successful UserAdd writes is keyed by its own name. */
  lemma AddUserStoresUnderOwnName(t: Tables, r: AuthUserAddRequest, hash: Hasher, marshal: Marshaller)
    requires AuthUsersBucketName in t
    requires AddUser(t, r, hash, marshal).err.None?
    ensures EncodesUserNamed(marshal, r.name, AddUser(t, r, hash, marshal).tables[AuthUsersBucketName][r.name])
  {
    var hashed := hash(r.password).value;
    assert marshal(User(r.name, hashed)) == Success(AddUser(t, r, hash, marshal).tables[AuthUsersBucketName][r.name]);
  }

  /** One call of the store's table-changing operations, as a client issues them. */
  datatype Op = NewStore | Enable | Add(r: AuthUserAddRequest, hash: Hasher)

  /** The backend contents after one operation; failed additions leave them as they were. */
  function Step(t: Tables, op: Op, marshal: Marshaller): (r: Tables)
    requires BucketsExist(t)
    ensures BucketsExist(r)
  {
    match op
    case NewStore => EnsureBuckets(t)
    case Enable => EnableAuth(t)
    case Add(req, hash) => AddUser(t, req, hash, marshal).tables
  }

  /** The backend contents after a sequence of operations, the lock serialising them. */
  function Run(t: Tables, ops: seq<Op>, marshal: Marshaller): (r: Tables)
    requires BucketsExist(t)
    ensures BucketsExist(r)
    decreases |ops|
  {
    if ops == [] then t else Run(Step(t, ops[0], marshal), ops[1..], marshal)
  }

  /** No sequence of operations changes or removes a user record once it is stored. */
  lemma {:induction false} RunNeverOverwritesUser(t: Tables, ops: seq<Op>, marshal: Marshaller, name: Bytes)
    requires BucketsExist(t) && name in t[AuthUsersBucketName]
    ensures name in Run(t, ops, marshal)[AuthUsersBucketName]
    ensures Run(t, ops, marshal)[AuthUsersBucketName][name] == t[AuthUsersBucketName][name]
    decreases |ops|
  {
    if ops != [] {
      RunNeverOverwritesUser(Step(t, ops[0], marshal), ops[1..], marshal, name);
    }
  }

  /** Once enabled, authentication stays enabled: no operation clears the flag. */
  lemma {:induction false} RunKeepsAuthEnabled(t: Tables, ops: seq<Op>, marshal: Marshaller)
    requires BucketsExist(t)
    requires EnableFlagKey in t[AuthBucketName] && t[AuthBucketName][EnableFlagKey] == EnabledValue
    ensures EnableFlagKey in Run(t, ops, marshal)[AuthBucketName]
    ensures Run(t, ops, marshal)[AuthBucketName][EnableFlagKey] == EnabledValue
    decreases |ops|
  {
    if ops != [] {
      RunKeepsAuthEnabled(Step(t, ops[0], marshal), ops[1..], marshal);
    }
  }

  /** Every operation keeps each user record under its own name. */
  lemma StepKeepsUsersStoredUnderOwnName(t: Tables, op: Op, marshal: Marshaller)
    requires BucketsExist(t) && UsersStoredUnderOwnName(t, marshal)
    ensures UsersStoredUnderOwnName(Step(t, op, marshal), marshal)
  {
    match op
    case NewStore =>
    case Enable =>
    case Add(req, hash) =>
      if AddUser(t, req, hash, marshal).err.None? {
        AddUserStoresUnderOwnName(t, req, hash, marshal);
      }
  }

  /** The key of every user record equals the record's name, after any sequence of operations. */
  lemma {:induction false} RunKeepsUsersStoredUnderOwnName(t: Tables, ops: seq<Op>, marshal: Marshaller)
    requires BucketsExist(t) && UsersStoredUnderOwnName(t, marshal)
    ensures UsersStoredUnderOwnName(Run(t, ops, marshal), marshal)
    decreases |ops|
  {
    if ops != [] {
      StepKeepsUsersStoredUnderOwnName(t, ops[0], marshal);
      RunKeepsUsersStoredUnderOwnName(Step(t, ops[0], marshal), ops[1..], marshal);
    }
  }

  /** The flag AuthEnable writes is still there after a crash right after it returns. */
  method AuthEnableSurvivesCrash(s: AuthStore)
    requires AuthBucketName in s.be.pending && !s.be.locked
    modifies s.be
    ensures AuthBucketName in s.be.pending && EnableFlagKey in s.be.pending[AuthBucketName]
    ensures s.be.pending[AuthBucketName][EnableFlagKey] == EnabledValue
  {
    s.AuthEnable();
    s.be.Crash();
  }

  /** A user added but not yet committed by the backend is gone after a crash. */
  method UserAddLostOnCrash(s: AuthStore, r: AuthUserAddRequest, hash: Hasher, marshal: Marshaller)
    returns (resp: Option<AuthUserAddResponse>, err: Option<Error>)
    requires AuthUsersBucketName in s.be.pending && !s.be.locked
    requires AuthUsersBucketName in s.be.committed && r.name !in s.be.committed[AuthUsersBucketName]
    modifies s.be
    ensures AuthUsersBucketName in s.be.pending && r.name !in s.be.pending[AuthUsersBucketName]
  {
    resp, err := s.UserAdd(r, hash, marshal);
    s.be.Crash();
  }
}
