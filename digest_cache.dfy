/** The digest cache the action cache server is built on: a key/value store of blobs shared by
    every user of the cache, each user seeing it through a namespace. Its eviction, durability
    and capacity are not modelled; its failures are, through `Faults`. */
module DigestCache {
  import opened Wrappers
  import opened Status
  import opened RemoteExecution

  /** The caller's scope that the permission layer attaches to a request (opaque to the server). */
  datatype Scope = Scope(userPrefix: string)

  /** A view of the store: the caller's scope and the prefix of the cache view in use. */
  datatype Namespace = Namespace(scope: Scope, prefix: string)

  /** The store key of a digest within a namespace. */
  datatype Key = Key(ns: Namespace, digest: Digest)

  /** How the store misbehaves, beyond what it holds:
      - a Get of a key in `unreadable` fails with a store error;
      - `containsMultiError`, when set, is the error every ContainsMulti fails with;
      - a key in `unreported` is left out of every ContainsMulti answer that should mention it;
      - `setError`, when set, is the error every Set fails with. */
  datatype Faults = Faults(
    unreadable: set<Key>,
    containsMultiError: Option<Error>,
    unreported: set<Key>,
    setError: Option<Error>)

  /** A store whose reads are all answered honestly and completely. */
  predicate ReadsFaithful(f: Faults) {
    f.unreadable == {} && f.containsMultiError.None? && f.unreported == {}
  }

  /** What the store holds, and how it misbehaves. */
  datatype StoreState = StoreState(blobs: map<Key, Blob>, faults: Faults)

  /** A call the server makes on the store, as recorded in a request's call log. */
  datatype Call =
    | CallContainsMulti(ns: Namespace, digests: seq<Digest>)
    | CallGet(key: Key)
    | CallSet(key: Key, blob: Blob)

  /** Get: the blob under `k`, the store's NotFound on a miss, or a store error. */
  function StoreGet(st: StoreState, k: Key): (r: Result<Blob, Error>)
    ensures r.Success? ==> k in st.blobs && r.value == st.blobs[k]
    ensures k in st.blobs && k !in st.faults.unreadable ==> r.Success?
  {
    if k in st.faults.unreadable then Failure(StoreError)
    else if k !in st.blobs then Failure(NotFound)
    else Success(st.blobs[k])
  }

  /** ContainsMulti: for each requested digest, whether the store holds it in namespace `ns`,
      except that digests whose key is `unreported` are missing from the answer. */
  function StoreContainsMulti(st: StoreState, ns: Namespace, digests: seq<Digest>): (r: Result<map<Digest, bool>, Error>)
    ensures r.Success? ==> forall d | d in r.value :: d in digests && r.value[d] == (Key(ns, d) in st.blobs)
    ensures r.Success? ==> forall d | d in digests && Key(ns, d) !in st.faults.unreported :: d in r.value
    ensures r.Failure? <==> st.faults.containsMultiError.Some?
  {
    match st.faults.containsMultiError
    case Some(e) => Failure(e)
    case None => Success(map d | d in digests && Key(ns, d) !in st.faults.unreported :: Key(ns, d) in st.blobs)
  }

  /** Set: the store after writing `b` under `k`, or the store's error. */
  function StoreSet(st: StoreState, k: Key, b: Blob): (r: Result<StoreState, Error>)
    ensures r.Success? ==> r.value.faults == st.faults && r.value.blobs == st.blobs[k := b]
    ensures r.Failure? <==> st.faults.setError.Some?
  {
    match st.faults.setError
    case Some(e) => Failure(e)
    case None => Success(StoreState(st.blobs[k := b], st.faults))
  }

  /** The store object shared by every request. `log` records every call made on it, in order;
      it is ghost and exists only to state what the server asks of the store. */
  class Cache {
    var blobs: map<Key, Blob>
    var faults: Faults
    ghost var log: seq<Call>

    constructor (blobs: map<Key, Blob>, faults: Faults)
      ensures this.blobs == blobs && this.faults == faults && log == []
    {
      this.blobs := blobs;
      this.faults := faults;
      log := [];
    }

    /** What the store holds and how it misbehaves; the log is not part of it. */
    function State(): StoreState
      reads this`blobs, this`faults
    {
      StoreState(blobs, faults)
    }

    method Get(k: Key) returns (r: Result<Blob, Error>)
      modifies this`log
      ensures r == StoreGet(State(), k)
      ensures log == old(log) + [CallGet(k)]
    {
      if k in faults.unreadable {
        r := Failure(StoreError);
      } else if k !in blobs {
        r := Failure(NotFound);
      } else {
        r := Success(blobs[k]);
      }
      log := log + [CallGet(k)];
    }

    method ContainsMulti(ns: Namespace, digests: seq<Digest>) returns (r: Result<map<Digest, bool>, Error>)
      modifies this`log
      ensures r == StoreContainsMulti(State(), ns, digests)
      ensures log == old(log) + [CallContainsMulti(ns, digests)]
    {
      r := StoreContainsMulti(State(), ns, digests);
      log := log + [CallContainsMulti(ns, digests)];
    }

    method Set(k: Key, b: Blob) returns (err: Option<Error>)
      modifies this
      ensures StoreSet(old(State()), k, b).Success? ==> err.None? && State() == StoreSet(old(State()), k, b).value
      ensures StoreSet(old(State()), k, b).Failure? ==> err == Some(StoreSet(old(State()), k, b).error) && State() == old(State())
      ensures log == old(log) + [CallSet(k, b)]
    {
      err := faults.setError;
      if err.None? {
        blobs := blobs[k := b];
      }
      log := log + [CallSet(k, b)];
    }
  }
}
