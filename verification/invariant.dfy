/** The consistency invariant of the pool and its preservation by every
    operation and by the background sweep.

    `Valid` is what the pool keeps with no help: the queue has no duplicate,
    no id is both queued and blocked, and every blocked id has a record that
    says it is blocked. `Coherent` adds that every record is filed under its
    own id and is either queued or blocked, as its `isBlocked` flag says.

    What the pool does NOT keep is "every queued id has a record": `DeleteKey`
    and the idle pass drop records without touching the queue (see
    `Quirks.DeleteLeavesStaleQueueEntry`). */
module PoolInvariant {
  import opened Clock
  import opened Seqs
  import opened KeyManager
  import opened Reclaimer

  predicate Valid(s: PoolState) {
    // the queue holds each id at most once
    && Distinct(s.available)
    // no id is both queued and blocked
    && (forall i | 0 <= i < |s.available| :: s.available[i] !in s.blocked)
    // every blocked id has a record, and that record says it is blocked
    && (forall k | k in s.blocked :: k in s.keys && s.keys[k].isBlocked)
  }

  predicate Coherent(s: PoolState) {
    && Valid(s)
    // every record is filed under its own id
    && (forall k | k in s.keys :: s.keys[k].key == k)
    // a record is blocked exactly when its id is in `blocked`
    && (forall k | k in s.keys :: s.keys[k].isBlocked ==> k in s.blocked)
    // every record is either queued or blocked
    && (forall k | k in s.keys :: k in s.blocked || k in s.available)
  }

  /** An id that `GenerateRandomKey` may draw without breaking the pool: no
      record and no queue entry has it yet. */
  predicate Fresh(s: PoolState, k: KeyId) {
    k !in s.keys && k !in s.available
  }

  lemma NewKeyManagerCoherent()
    ensures Valid(NewKeyManager()) && Coherent(NewKeyManager())
  {
  }

  lemma GenerateNewKeyPreserves(s: PoolState, k: KeyId, now: Time)
    requires Valid(s)
    requires Fresh(s, k)
    ensures Valid(GenerateNewKey(s, k, now).state)
    ensures Coherent(s) ==> Coherent(GenerateNewKey(s, k, now).state)
  {
  }

  /** Checking out removes the chosen id from the duplicate-free queue, so
      it is never both queued and blocked. */
  lemma RetreiveAvailableKeyPreserves(s: PoolState, index: nat, now: Time)
    requires Valid(s)
    requires s.available != [] ==> index < |s.available|
    ensures Valid(RetreiveAvailableKey(s, index, now).state)
    ensures Coherent(s) ==> Coherent(RetreiveAvailableKey(s, index, now).state)
  {
  }

  /** Returning a blocked id to the queue keeps the invariants; shared by
      `UnblockKey` and the block-timeout pass. */
  lemma UnblockedPreserves(s: PoolState, k: KeyId)
    requires Valid(s)
    requires k in s.blocked
    ensures Valid(Unblocked(s, k))
    ensures Coherent(s) ==> Coherent(Unblocked(s, k))
  {
  }

  lemma UnblockKeyPreserves(s: PoolState, k: KeyId)
    requires Valid(s)
    ensures Valid(UnblockKey(s, k).state)
    ensures Coherent(s) ==> Coherent(UnblockKey(s, k).state)
  {
  }

  lemma DeleteKeyPreserves(s: PoolState, k: KeyId)
    requires Valid(s)
    ensures Valid(DeleteKey(s, k).state)
    ensures Coherent(s) ==> Coherent(DeleteKey(s, k).state)
  {
  }

  lemma KeepAlivePreserves(s: PoolState, k: KeyId, now: Time)
    requires Valid(s)
    ensures Valid(KeepAlive(s, k, now).state)
    ensures Coherent(s) ==> Coherent(KeepAlive(s, k, now).state)
  {
  }

  /** The block-timeout pass keeps the invariants, whatever order it visits
      the ids in. */
  lemma {:induction false} ReleaseTimedOutPreserves(s: PoolState, order: seq<KeyId>, now: Time)
    requires Valid(s)
    ensures Valid(ReleaseTimedOut(s, order, now))
    ensures Coherent(s) ==> Coherent(ReleaseTimedOut(s, order, now))
    decreases |order|
  {
    if order != [] {
      var k := order[0];
      if BlockExpired(s.blocked, k, now) {
        UnblockedPreserves(s, k);
        ReleaseTimedOutPreserves(Unblocked(s, k), order[1..], now);
      } else {
        ReleaseTimedOutPreserves(s, order[1..], now);
      }
    }
  }

  lemma ExpireIdlePreserves(s: PoolState, now: Time)
    requires Valid(s)
    ensures Valid(ExpireIdle(s, now))
    ensures Coherent(s) ==> Coherent(ExpireIdle(s, now))
  {
  }

  lemma SweepPreserves(s: PoolState, now: Time, order: seq<KeyId>)
    requires Valid(s)
    requires Enumerates(order, s.blocked.Keys)
    ensures Valid(Sweep(s, now, order))
    ensures Coherent(s) ==> Coherent(Sweep(s, now, order))
  {
    ReleaseTimedOutPreserves(s, order, now);
    ExpireIdlePreserves(ReleaseTimedOut(s, order, now), now);
  }

  /** Everything that can happen to a pool: a call of one of its public
      operations, or one tick of the background task. */
  datatype Event =
    | Generate(k: KeyId, now: Time)
    | Retreive(index: nat, now: Time)
    | Unblock(k: KeyId)
    | Delete(k: KeyId)
    | KeepAliveCall(k: KeyId, now: Time)
    | GetInfo(k: KeyId)
    | Tick(now: Time, order: seq<KeyId>)

  /** What the environment guarantees about an event: a random position
      inside the queue, a map range that visits each blocked id once, and (an
      assumption about `GenerateRandomKey`) a generated id nobody holds. */
  predicate Admissible(s: PoolState, e: Event) {
    match e
    case Generate(k, _) => Fresh(s, k)
    case Retreive(index, _) => s.available != [] ==> index < |s.available|
    case Tick(_, order) => Enumerates(order, s.blocked.Keys)
    case _ => true
  }

  /** The pool after `e`. */
  function Apply(s: PoolState, e: Event): PoolState
    requires Admissible(s, e)
  {
    match e
    case Generate(k, now) => GenerateNewKey(s, k, now).state
    case Retreive(index, now) => RetreiveAvailableKey(s, index, now).state
    case Unblock(k) => UnblockKey(s, k).state
    case Delete(k) => DeleteKey(s, k).state
    case KeepAliveCall(k, now) => KeepAlive(s, k, now).state
    case GetInfo(_) => s
    case Tick(now, order) => Sweep(s, now, order)
  }

  /** Every admissible event keeps both invariants. */
  lemma ApplyPreserves(s: PoolState, e: Event)
    requires Valid(s)
    requires Admissible(s, e)
    ensures Valid(Apply(s, e))
    ensures Coherent(s) ==> Coherent(Apply(s, e))
  {
    match e
    case Generate(k, now) => GenerateNewKeyPreserves(s, k, now);
    case Retreive(index, now) => RetreiveAvailableKeyPreserves(s, index, now);
    case Unblock(k) => UnblockKeyPreserves(s, k);
    case Delete(k) => DeleteKeyPreserves(s, k);
    case KeepAliveCall(k, now) => KeepAlivePreserves(s, k, now);
    case GetInfo(_) =>
    case Tick(now, order) => SweepPreserves(s, now, order);
  }

  datatype Option<T> = None | Some(value: T)

  /** Runs `events` from `s`, or yields nothing if some event is not
      admissible in the state it meets. */
  function Run(s: PoolState, events: seq<Event>): (r: Option<PoolState>)
    decreases |events|
  {
    if events == [] then Some(s)
    else if !Admissible(s, events[0]) then None
    else Run(Apply(s, events[0]), events[1..])
  }

  /** Every pool reachable from a new `KeyManager` by admissible events is
      coherent. */
  lemma {:induction false} RunPreserves(s: PoolState, events: seq<Event>)
    requires Coherent(s)
    ensures Run(s, events).Some? ==> Coherent(Run(s, events).value)
    decreases |events|
  {
    if events != [] && Admissible(s, events[0]) {
      ApplyPreserves(s, events[0]);
      RunPreserves(Apply(s, events[0]), events[1..]);
    }
  }

  lemma ReachableCoherent(events: seq<Event>)
    ensures Run(NewKeyManager(), events).Some? ==> Coherent(Run(NewKeyManager(), events).value)
  {
    NewKeyManagerCoherent();
    RunPreserves(NewKeyManager(), events);
  }
}
