/** Behaviour of the key manager that a reader of its interface may not
    expect, stated as theorems about the model rather than corrected. */
module Quirks {
  import opened Clock
  import opened Seqs
  import opened KeyManager
  import opened Reclaimer
  import opened PoolInvariant

  /** Every queued id has a record: the property the pool does NOT keep. */
  predicate QueueHasRecords(s: PoolState) {
    forall i | 0 <= i < |s.available| :: s.available[i] in s.keys
  }

  /** `DeleteKey` on a queued id leaves the id queued with no record behind
      it. */
  lemma DeleteLeavesStaleQueueEntry(s: PoolState, k: KeyId)
    requires k in s.available
    ensures var d := DeleteKey(s, k).state;
      k in d.available && GetKeyInfo(d, k) == Err(KeyNotFound) && !QueueHasRecords(d)
  {
  }

  /** So a coherent pool whose every queued id has a record can lose that
      property in one call. */
  lemma QueueHasRecordsNotPreserved()
    ensures var s := GenerateNewKey(NewKeyManager(), "key1", 5).state;
      && Coherent(s)
      && QueueHasRecords(s)
      && !QueueHasRecords(DeleteKey(s, "key1").state)
  {
  }

  /** A deleted id that is still queued can be checked out: the caller gets
      the deleted id, and the checkout creates a new record for it. */
  lemma DeletedKeyCanBeCheckedOut(s: PoolState, index: nat, now: Time)
    requires index < |s.available|
    ensures var k := s.available[index];
      var d := DeleteKey(s, k).state;
      var c := RetreiveAvailableKey(d, index, now);
      && GetKeyInfo(d, k).Err?
      && c.result == Ok(k)
      && GetKeyInfo(c.state, k) == Ok(KeyMetadata(k, Zero, now, true, now))
  {
  }

  /** Checking out a key forgets its creation time: whatever the record held
      before, afterwards it holds the zero time. */
  lemma CheckoutForgetsCreationTime(s: PoolState, k: KeyId, created: Time, index: nat, now: Time)
    requires index == |s.available|
    ensures var g := GenerateNewKey(s, k, created).state;
      var c := RetreiveAvailableKey(g, index, now);
      && GetKeyInfo(g, k).value.creationTime == created
      && c.result == Ok(k)
      && GetKeyInfo(c.state, k).value.creationTime == Zero
  {
  }

  /** A new key has the zero last access, so it is idle from the start. In
      the Go code the first tick after it is created, if it has been neither
      checked out nor kept alive since, therefore reaches the `DeleteKey` call inside the idle
      pass and deadlocks on the pool mutex. Under the intended removal the
      model gives, that tick drops the record: the key can no longer be
      looked up or kept alive, yet stays queued. */
  lemma NewKeyIdleAtOnce(s: PoolState, k: KeyId, created: Time, now: Time, order: seq<KeyId>)
    requires now > IdleTimeout
    requires Enumerates(order, s.blocked.Keys)
    ensures var g := GenerateNewKey(s, k, created).state;
      var r := Sweep(g, now, order);
      && GetKeyInfo(r, k) == Err(KeyNotFound)
      && KeepAlive(r, k, now).result == Err(KeyNotFound)
      && k in r.available
  {
    var g := GenerateNewKey(s, k, created).state;
    assert g.blocked == s.blocked;
    var r := Sweep(g, now, order);
    SweepRecords(g, now, order);
    SweepQueue(g, now, order);
    SubExceedsIff(now, Zero, IdleTimeout);
    assert r.available[|s.available|] == k;
  }
}
