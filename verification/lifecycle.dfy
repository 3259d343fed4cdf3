/** How operations compose over the life of a key: create, check out,
    release, keep alive, time out, expire. */
module Lifecycle {
  import opened Clock
  import opened Seqs
  import opened KeyManager
  import opened Reclaimer
  import opened PoolInvariant

  /** A new key is checked out by choosing the position it was appended at;
      the record then shows it blocked since `now`. */
  lemma CreateCheckoutRoundTrip(s: PoolState, k: KeyId, created: Time, now: Time)
    ensures var g := GenerateNewKey(s, k, created);
      var c := RetreiveAvailableKey(g.state, |s.available|, now);
      && g.result == Ok(k)
      && GetKeyInfo(g.state, k).value.isBlocked == false
      && c.result == Ok(k)
      && GetKeyInfo(c.state, k).value.isBlocked == true
      && GetKeyInfo(c.state, k).value.blockedAt == now
  {
  }

  /** Releasing a key just checked out undoes the checkout, up to the
      position of the id in the queue and the record, which keeps the times
      of the checkout and loses its creation time. */
  lemma CheckoutThenUnblock(s: PoolState, index: nat, now: Time)
    requires Valid(s)
    requires index < |s.available|
    ensures var k := s.available[index];
      var c := RetreiveAvailableKey(s, index, now);
      var u := UnblockKey(c.state, k);
      && u.result == Ok(())
      && u.state.blocked == s.blocked
      && multiset(u.state.available) == multiset(s.available)
      && u.state.keys == s.keys[k := KeyMetadata(k, Zero, now, false, now)]
  {
  }

  /** Releasing a key twice fails the second time and leaves the pool as the
      first release left it. */
  lemma UnblockTwiceFails(s: PoolState, k: KeyId)
    requires UnblockKey(s, k).result.Ok?
    ensures var u := UnblockKey(s, k).state;
      UnblockKey(u, k) == Step(u, Err(KeyNotBlocked))
  {
  }

  /** The next checkout never returns the id just checked out, and it
      succeeds whenever the pool held two or more queued ids. (That no later
      checkout returns it either, until it is released, is
      `ReachableBlockedNotCheckedOut`.) */
  lemma NoDoubleCheckout(s: PoolState, i: nat, j: nat, now: Time, later: Time)
    requires Valid(s)
    requires i < |s.available|
    requires var c := RetreiveAvailableKey(s, i, now).state;
      c.available != [] ==> j < |c.available|
    ensures var c := RetreiveAvailableKey(s, i, now);
      var c2 := RetreiveAvailableKey(c.state, j, later);
      && (|s.available| >= 2 ==> c2.result.Ok?)
      && (c2.result.Ok? ==> c2.result.value != c.result.value)
  {
  }

  /** A key that is checked out and not yet released is never what a
      checkout returns, whichever queue position the random draw picks. */
  lemma BlockedNotCheckedOut(s: PoolState, k: KeyId, i: nat, now: Time)
    requires Valid(s)
    requires k in s.blocked
    requires s.available != [] ==> i < |s.available|
    ensures RetreiveAvailableKey(s, i, now).result != Ok(k)
  {
  }

  /** The same for every pool a new `KeyManager` can reach: however many
      calls and ticks have happened, a key still checked out is not handed
      out again. */
  lemma ReachableBlockedNotCheckedOut(events: seq<Event>, k: KeyId, i: nat, now: Time)
    requires Run(NewKeyManager(), events).Some?
    requires k in Run(NewKeyManager(), events).value.blocked
    requires var s := Run(NewKeyManager(), events).value;
      s.available != [] ==> i < |s.available|
    ensures RetreiveAvailableKey(Run(NewKeyManager(), events).value, i, now).result != Ok(k)
  {
    ReachableCoherent(events);
    BlockedNotCheckedOut(Run(NewKeyManager(), events).value, k, i, now);
  }

  /** `DeleteKey` applied twice has the effect of applying it once. */
  lemma DeleteKeyIdempotent(s: PoolState, k: KeyId)
    ensures DeleteKey(DeleteKey(s, k).state, k) == DeleteKey(s, k)
  {
  }

  /** Keeping a key alive is seen by the next lookup. */
  lemma KeepAliveThenInfo(s: PoolState, k: KeyId, now: Time)
    requires k in s.keys
    ensures var a := KeepAlive(s, k, now).state;
      && GetKeyInfo(a, k).Ok?
      && GetKeyInfo(a, k).value.lastAccess == now
      && GetKeyInfo(a, k).value.isBlocked == s.keys[k].isBlocked
  {
  }

  /** A key kept alive at `touched` survives every tick up to one minute
      later. */
  lemma KeepAliveDefersExpiry(s: PoolState, k: KeyId, touched: Time, now: Time, order: seq<KeyId>)
    requires k in s.keys
    requires now - touched <= IdleTimeout
    requires Enumerates(order, s.blocked.Keys)
    ensures var a := KeepAlive(s, k, touched).state;
      GetKeyInfo(Sweep(a, now, order), k).Ok?
  {
    var a := KeepAlive(s, k, touched).state;
    SubExceedsIff(now, touched, IdleTimeout);
    SweepRecords(a, now, order);
  }

  /** A lease held for more than the block timeout is back in the queue after
      the next tick, and some checkout hands it out again. */
  lemma TimeoutReclaims(s: PoolState, k: KeyId, now: Time, order: seq<KeyId>, later: Time)
    requires k in s.blocked
    requires now - s.blocked[k] > BlockTimeout
    requires Enumerates(order, s.blocked.Keys)
    ensures var r := Sweep(s, now, order);
      && k !in r.blocked
      && exists i :: 0 <= i < |r.available| && RetreiveAvailableKey(r, i, later).result == Ok(k)
  {
    SubExceedsIff(now, s.blocked[k], BlockTimeout);
    var r := Sweep(s, now, order);
    assert k in r.available;
    var i :| 0 <= i < |r.available| && r.available[i] == k;
    assert RetreiveAvailableKey(r, i, later).result == Ok(k);
  }

  /** A record not accessed for more than a minute is gone after the next
      tick: a lookup fails. */
  lemma IdleKeyExpires(s: PoolState, k: KeyId, now: Time, order: seq<KeyId>)
    requires k in s.keys
    requires now - s.keys[k].lastAccess > IdleTimeout
    requires Enumerates(order, s.blocked.Keys)
    ensures GetKeyInfo(Sweep(s, now, order), k) == Err(KeyNotFound)
    ensures k !in Sweep(s, now, order).blocked
  {
    SubExceedsIff(now, s.keys[k].lastAccess, IdleTimeout);
    SweepRecords(s, now, order);
    SweepBlocked(s, now, order);
  }

  /** A pool with no keys: checkout fails; one key created at `t0` is handed
      out once, the pool is then exhausted, and after the release the same
      key is handed out again. */
  lemma CheckoutReleaseScenario(t0: Time, t1: Time, t2: Time, t3: Time)
    ensures var p0 := NewKeyManager();
      var c0 := RetreiveAvailableKey(p0, 0, t0);
      var g := GenerateNewKey(p0, "key7", t0);
      var c1 := RetreiveAvailableKey(g.state, 0, t1);
      var c2 := RetreiveAvailableKey(c1.state, 0, t2);
      var u := UnblockKey(c2.state, "key7");
      var c3 := RetreiveAvailableKey(u.state, 0, t3);
      && c0.result == Err(NoKeysAvailable)
      && c1.result == Ok("key7")
      && c2.result == Err(NoKeysAvailable)
      && u.result == Ok(())
      && c3.result == Ok("key7")
  {
  }

  /** Unknown ids: release fails with `KeyNotBlocked`, keep-alive and lookup
      fail with `KeyNotFound`, and delete succeeds without changing the
      pool. */
  lemma UnknownKeyScenario(s: PoolState, k: KeyId, now: Time)
    requires k !in s.keys && k !in s.blocked
    ensures UnblockKey(s, k) == Step(s, Err(KeyNotBlocked))
    ensures KeepAlive(s, k, now) == Step(s, Err(KeyNotFound))
    ensures GetKeyInfo(s, k) == Err(KeyNotFound)
    ensures DeleteKey(s, k) == Step(s, Ok(()))
  {
  }
}
