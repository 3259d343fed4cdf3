/** The key lease pool: the state a `KeyManager` guards and the public
    operations on it.

    Every public operation of the Go type takes the pool mutex, makes a small
    change to the maps and the queue, and returns. Each locked body is
    modelled here as one total function from the pool state before the call
    to the state after it, together with what the call returns. What the Go
    code draws from its environment becomes a parameter: the freshly
    generated id `k`, the random queue position `index`, and the clock
    reading `now`. */
module KeyManager {
  import opened Clock
  import opened Seqs

  type KeyId = string

  /** One issued key, as `KeyMetadata` stores it. */
  datatype KeyMetadata = KeyMetadata(
    key: KeyId,
    creationTime: Time,
    lastAccess: Time,
    isBlocked: bool,
    blockedAt: Time)

  /** The zero `KeyMetadata`, which a Go map lookup yields for a missing id. */
  const ZeroMetadata: KeyMetadata := KeyMetadata("", Zero, Zero, false, Zero)

  /** The three structures of a `KeyManager`: every record by id, the queue
      of ids that may be checked out, and the time each checked-out id was
      blocked. */
  datatype PoolState = PoolState(
    keys: map<KeyId, KeyMetadata>,
    available: seq<KeyId>,
    blocked: map<KeyId, Time>)

  /** The three error values the operations return. */
  datatype PoolError =
    | NoKeysAvailable   // "no keys available"
    | KeyNotBlocked     // "key not blocked or not exist"
    | KeyNotFound       // "key does not exist"

  datatype Result<T> = Ok(value: T) | Err(error: PoolError)

  /** The outcome of one locked operation: the pool afterwards and the value
      or error handed back to the caller. */
  datatype Step<T> = Step(state: PoolState, result: Result<T>)

  /** `m` and `m'` hold the same entries at every id other than `k`. */
  predicate AgreeExcept<V(==)>(m: map<KeyId, V>, m': map<KeyId, V>, k: KeyId) {
    && (forall j | j in m && j != k :: j in m' && m'[j] == m[j])
    && (forall j | j in m' && j != k :: j in m)
  }

  /** Go's `keys[k]`: the stored record, or the zero record when absent. */
  function Lookup(keys: map<KeyId, KeyMetadata>, k: KeyId): KeyMetadata {
    if k in keys then keys[k] else ZeroMetadata
  }

  /** `NewKeyManager`: an empty pool. */
  function NewKeyManager(): (s: PoolState)
    ensures forall k :: GetKeyInfo(s, k) == Err(KeyNotFound)
    ensures |s.available| == 0
    ensures forall k :: k !in s.blocked
  {
    PoolState(map[], [], map[])
  }

  /** `GenerateNewKey` with `k` as the id `GenerateRandomKey` drew and `now`
      as the clock reading. The new record has only its id and creation time
      set, so its last access is the zero time. The id is appended to the
      queue whether or not it was already there: the Go code does not check
      for a collision. */
  function GenerateNewKey(s: PoolState, k: KeyId, now: Time): (r: Step<KeyId>)
    ensures r.result == Ok(k)
    ensures GetKeyInfo(r.state, k) == Ok(KeyMetadata(k, now, Zero, false, Zero))
    ensures forall j | j != k :: GetKeyInfo(r.state, j) == GetKeyInfo(s, j)
    ensures |r.state.available| == |s.available| + 1
    ensures r.state.available[..|s.available|] == s.available
    ensures r.state.available[|s.available|] == k
    ensures r.state.blocked == s.blocked
  {
    var record := KeyMetadata(k, now, Zero, false, Zero);
    Step(PoolState(s.keys[k := record], s.available + [k], s.blocked), Ok(k))
  }

  /** `RetreiveAvailableKey` (the Go spelling), with `index` as the position
      `rand.Intn` drew and `now` as the clock reading. The checked-out id's
      record is replaced by a new one rather than updated, so its creation
      time becomes the zero time; and an id still queued after `DeleteKey`
      removed its record gets a new record here. */
  function RetreiveAvailableKey(s: PoolState, index: nat, now: Time): (r: Step<KeyId>)
    requires s.available != [] ==> index < |s.available|
    ensures s.available == [] <==> r.result.Err?
    ensures s.available == [] ==> r == Step(s, Err(NoKeysAvailable))
    ensures s.available != [] ==>
      var key := s.available[index];
      && r.result == Ok(key)
      && |r.state.available| == |s.available| - 1
      && multiset(r.state.available) + multiset{key} == multiset(s.available)
      && r.state.available[..index] == s.available[..index]
      && r.state.available[index..] == s.available[index + 1..]
      && key in r.state.blocked && r.state.blocked[key] == now
      && AgreeExcept(s.blocked, r.state.blocked, key)
      && GetKeyInfo(r.state, key) == Ok(KeyMetadata(key, Zero, now, true, now))
      && AgreeExcept(s.keys, r.state.keys, key)
  {
    if s.available == [] then
      Step(s, Err(NoKeysAvailable))
    else
      var key := s.available[index];
      var record := KeyMetadata(key, Zero, now, true, now);
      Step(PoolState(s.keys[key := record], RemoveAt(s.available, index), s.blocked[key := now]), Ok(key))
  }

  /** Returning a blocked id to the queue, the effect shared by `UnblockKey`
      and the block-timeout pass of the background task: the record read
      (the zero record if missing) is stored back with `isBlocked` cleared,
      the id leaves `blocked` and is appended to `available`. */
  function Unblocked(s: PoolState, k: KeyId): (s': PoolState)
    ensures k in s'.keys && s'.keys[k] == Lookup(s.keys, k).(isBlocked := false)
    ensures AgreeExcept(s.keys, s'.keys, k)
    ensures s'.available == s.available + [k]
    ensures k !in s'.blocked
    ensures AgreeExcept(s.blocked, s'.blocked, k)
  {
    var metadata := Lookup(s.keys, k).(isBlocked := false);
    PoolState(s.keys[k := metadata], s.available + [k], s.blocked - {k})
  }

  /** `UnblockKey`: fails, changing nothing, exactly when `k` is not blocked;
      otherwise returns `k` to the queue. */
  function UnblockKey(s: PoolState, k: KeyId): (r: Step<()>)
    ensures r.result.Err? <==> k !in s.blocked
    ensures r.result.Err? ==> r == Step(s, Err(KeyNotBlocked))
    ensures r.result.Ok? ==>
      && k !in r.state.blocked
      && AgreeExcept(s.blocked, r.state.blocked, k)
      && r.state.available == s.available + [k]
      && k in r.state.keys
      && r.state.keys[k] == Lookup(s.keys, k).(isBlocked := false)
      && AgreeExcept(s.keys, r.state.keys, k)
  {
    if k in s.blocked then Step(Unblocked(s, k), Ok(()))
    else Step(s, Err(KeyNotBlocked))
  }

  /** `DeleteKey`: never fails; drops the record and the blocked entry of
      `k` but leaves the queue as it is, so a queued `k` stays queued. */
  function DeleteKey(s: PoolState, k: KeyId): (r: Step<()>)
    ensures r.result == Ok(())
    ensures GetKeyInfo(r.state, k) == Err(KeyNotFound)
    ensures AgreeExcept(s.keys, r.state.keys, k)
    ensures k !in r.state.blocked
    ensures AgreeExcept(s.blocked, r.state.blocked, k)
    ensures r.state.available == s.available
  {
    Step(PoolState(s.keys - {k}, s.available, s.blocked - {k}), Ok(()))
  }

  /** `KeepAlive`: fails, changing nothing, exactly when `k` has no record;
      otherwise moves the record's last access to `now` and touches nothing
      else. */
  function KeepAlive(s: PoolState, k: KeyId, now: Time): (r: Step<()>)
    ensures r.result.Err? <==> k !in s.keys
    ensures r.result.Err? ==> r == Step(s, Err(KeyNotFound))
    ensures r.result.Ok? ==>
      && k in r.state.keys
      && r.state.keys[k].lastAccess == now
      && r.state.keys[k].(lastAccess := s.keys[k].lastAccess) == s.keys[k]
      && AgreeExcept(s.keys, r.state.keys, k)
      && r.state.available == s.available
      && r.state.blocked == s.blocked
  {
    if k in s.keys then
      var metadata := s.keys[k].(lastAccess := now);
      Step(PoolState(s.keys[k := metadata], s.available, s.blocked), Ok(()))
    else
      Step(s, Err(KeyNotFound))
  }

  /** `GetKeyInfo`: a read of the record of `k`; it takes the pool but
      returns no new one, so it cannot change the pool. */
  function GetKeyInfo(s: PoolState, k: KeyId): (r: Result<KeyMetadata>)
    ensures r.Ok? <==> k in s.keys
    ensures r.Ok? ==> r.value == s.keys[k]
    ensures r.Err? ==> r.error == KeyNotFound
  {
    if k in s.keys then Ok(s.keys[k]) else Err(KeyNotFound)
  }
}
