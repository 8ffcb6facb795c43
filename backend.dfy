/**
 * The storage backend the auth store writes into: named buckets of key/value
 * pairs, one batch transaction guarded by a lock, and a forced commit that
 * makes every write so far durable.
 */
module StorageBackend {
  import opened Types

  /** Bucket name -> (key -> value). */
  type Tables = map<Bytes, map<Bytes, Bytes>>

  /** The tables after writing `value` under `key` in an existing bucket. */
  function Put(t: Tables, bucket: Bytes, key: Bytes, value: Bytes): (r: Tables)
    requires bucket in t
    ensures r.Keys == t.Keys
    ensures r[bucket].Keys == t[bucket].Keys + {key} && r[bucket][key] == value
    ensures forall k :: k in t[bucket] && k != key ==> r[bucket][k] == t[bucket][k]
    ensures forall b :: b in t && b != bucket ==> r[b] == t[b]
  {
    t[bucket := t[bucket][key := value]]
  }

  /** The tables after creating a bucket; creating one that exists changes nothing. */
  function CreateBucket(t: Tables, name: Bytes): (r: Tables)
    ensures r.Keys == t.Keys + {name}
    ensures forall b :: b in t ==> r[b] == t[b]
    ensures name !in t ==> r[name] == map[]
  {
    if name in t then t else t[name := map[]]
  }

  /**
   * A backend together with its batch transaction. `pending` is what reads
   * inside the transaction see; `committed` is what survives a crash.
   * `locked` is the transaction's mutex and `forceCommits` counts calls of
   * ForceCommit; both exist only for the proofs.
   */
  class Backend {
    var pending: Tables
    var committed: Tables
    ghost var locked: bool
    ghost var forceCommits: nat

    /** A backend opened on durable contents, with nothing pending. */
    constructor (contents: Tables)
      ensures pending == contents && committed == contents
      ensures !locked && forceCommits == 0
    {
      pending := contents;
      committed := contents;
      locked := false;
      forceCommits := 0;
    }

    /** Takes the transaction lock; taking it twice deadlocks, so it must be free. */
    method Lock()
      requires !locked
      modifies this
      ensures locked
      ensures pending == old(pending) && committed == old(committed)
      ensures forceCommits == old(forceCommits)
    {
      locked := true;
    }

    /** Releases the transaction lock, which must be held. */
    method Unlock()
      requires locked
      modifies this
      ensures !locked
      ensures pending == old(pending) && committed == old(committed)
      ensures forceCommits == old(forceCommits)
    {
      locked := false;
    }

    /** Writes one key under the lock; a missing bucket is fatal in the backend. */
    method UnsafePut(bucket: Bytes, key: Bytes, value: Bytes)
      requires locked && bucket in pending
      modifies this
      ensures pending == Put(old(pending), bucket, key, value)
      ensures locked && committed == old(committed)
      ensures forceCommits == old(forceCommits)
    {
      pending := Put(pending, bucket, key, value);
    }

    /** Creates a bucket under the lock; an existing bucket is kept as it is. */
    method UnsafeCreateBucket(name: Bytes)
      requires locked
      modifies this
      ensures pending == CreateBucket(old(pending), name)
      ensures locked && committed == old(committed)
      ensures forceCommits == old(forceCommits)
    {
      pending := CreateBucket(pending, name);
    }

    /**
     * UnsafeRange with a nil end key and limit 0: the exact-key lookup. It
     * yields the key and its value when the bucket holds the key, and two
     * empty lists otherwise.
     */
    method UnsafeRange(bucket: Bytes, key: Bytes) returns (keys: seq<Bytes>, vs: seq<Bytes>)
      requires locked && bucket in pending
      ensures |keys| == |vs| <= 1
      ensures |vs| != 0 <==> key in pending[bucket]
      ensures key in pending[bucket] ==> keys == [key] && vs == [pending[bucket][key]]
    {
      if key in pending[bucket] {
        keys, vs := [key], [pending[bucket][key]];
      } else {
        keys, vs := [], [];
      }
    }

    /**
     * Commits every pending write durably. It takes the transaction lock
     * itself, so the caller must not hold it.
     */
    method ForceCommit()
      requires !locked
      modifies this
      ensures committed == pending && pending == old(pending)
      ensures !locked && forceCommits == old(forceCommits) + 1
    {
      committed := pending;
      forceCommits := forceCommits + 1;
    }

    /** A crash and reopen: uncommitted writes are lost and the lock is gone. */
    method Crash()
      modifies this
      ensures pending == old(committed) && committed == old(committed)
      ensures !locked && forceCommits == old(forceCommits)
    {
      pending := committed;
      locked := false;
    }
  }
}
