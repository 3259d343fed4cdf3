/** One tick of the background task of a `KeyManager`: a block-timeout pass
    that returns leases held too long to the queue, then an idle pass meant
    to drop records nobody touched for too long. The Go idle pass deadlocks
    on the pool mutex at its first idle record (see `ExpireIdleLoop`); what
    is modelled is the removal it intends.

    The sleep, the clock read and the two lock scopes of the tick are not
    modelled; the tick is the pure function `Sweep` of the pool and the
    clock reading `now`. */
module Reclaimer {
  import opened Clock
  import opened Seqs
  import opened KeyManager

  /** How long an id may stay checked out before the pass returns it. */
  const BlockTimeout: int := 20 * Second

  /** How long a record may go without access before the pass drops it. */
  const IdleTimeout: int := 1 * Minute

  /** `now.Sub(blockedTime) > 20*time.Second` for the blocked entry of `k`. */
  predicate BlockExpired(blocked: map<KeyId, Time>, k: KeyId, now: Time) {
    k in blocked && Sub(now, blocked[k]) > BlockTimeout
  }

  /** `now.Sub(metadata.LastAccess) > 1*time.Minute` for the record of `k`. */
  predicate IdleExpired(keys: map<KeyId, KeyMetadata>, k: KeyId, now: Time) {
    k in keys && Sub(now, keys[k].lastAccess) > IdleTimeout
  }

  /** The ids of `order` whose block has timed out, in the order of `order`. */
  function TimedOut(blocked: map<KeyId, Time>, order: seq<KeyId>, now: Time): (r: seq<KeyId>)
    ensures forall k :: k in r <==> k in order && BlockExpired(blocked, k, now)
    decreases |order|
  {
    if order == [] then []
    else
      var rest := TimedOut(blocked, order[1..], now);
      if BlockExpired(blocked, order[0], now) then [order[0]] + rest else rest
  }

  /** The ids listed by `TimedOut`, as a set. */
  ghost function TimedOutSet(blocked: map<KeyId, Time>, order: seq<KeyId>, now: Time): set<KeyId> {
    set k | k in TimedOut(blocked, order, now)
  }

  /** `TimedOut` looks at `blocked` only at the ids of `order`. */
  lemma {:induction false} TimedOutFrame(b: map<KeyId, Time>, b': map<KeyId, Time>, order: seq<KeyId>, now: Time)
    requires forall k | k in order :: (k in b <==> k in b') && (k in b ==> b[k] == b'[k])
    ensures TimedOut(b, order, now) == TimedOut(b', order, now)
    decreases |order|
  {
    if order != [] {
      TimedOutFrame(b, b', order[1..], now);
    }
  }

  /** A duplicate-free visiting order yields a duplicate-free list of
      timed-out ids. */
  lemma {:induction false} TimedOutDistinct(blocked: map<KeyId, Time>, order: seq<KeyId>, now: Time)
    requires Distinct(order)
    ensures Distinct(TimedOut(blocked, order, now))
    decreases |order|
  {
    if order != [] {
      var rest := TimedOut(blocked, order[1..], now);
      DistinctTail(order);
      TimedOutDistinct(blocked, order[1..], now);
      if BlockExpired(blocked, order[0], now) {
        var r := [order[0]] + rest;
        forall i, j | 0 <= i < j < |r|
          ensures r[i] != r[j]
        {
          assert r[j] == rest[j - 1];
          if i > 0 {
            assert r[i] == rest[i - 1];
          }
        }
      }
    }
  }

  /** The block-timeout pass: the ids of `blocked`, visited in `order` (the
      unspecified order of a Go map range), and each one blocked for more
      than `BlockTimeout` is returned to the queue exactly as `UnblockKey`
      would. */
  function ReleaseTimedOut(s: PoolState, order: seq<KeyId>, now: Time): (r: PoolState)
    ensures |r.available| >= |s.available| && r.available[..|s.available|] == s.available
    ensures forall k | k in r.blocked :: k in s.blocked && r.blocked[k] == s.blocked[k]
    decreases |order|
  {
    if order == [] then s
    else
      var k := order[0];
      var s' := if BlockExpired(s.blocked, k, now) then Unblocked(s, k) else s;
      ReleaseTimedOut(s', order[1..], now)
  }

  /** The block-timeout pass appends the timed-out ids of `order` to the
      queue, in visiting order. */
  lemma {:induction false} ReleaseTimedOutQueue(s: PoolState, order: seq<KeyId>, now: Time)
    requires Distinct(order)
    ensures ReleaseTimedOut(s, order, now).available == s.available + TimedOut(s.blocked, order, now)
    decreases |order|
  {
    if order != [] {
      var k0 := order[0];
      DistinctTail(order);
      var s1 := if BlockExpired(s.blocked, k0, now) then Unblocked(s, k0) else s;
      ReleaseTimedOutQueue(s1, order[1..], now);
      // The first step changes `blocked` only at `k0`, which the tail never visits.
      TimedOutFrame(s1.blocked, s.blocked, order[1..], now);
      if BlockExpired(s.blocked, k0, now) {
        assert s1.available + TimedOut(s.blocked, order[1..], now)
          == s.available + ([k0] + TimedOut(s.blocked, order[1..], now));
      }
    }
  }

  /** The block-timeout pass removes exactly the timed-out ids of `order`
      from `blocked`. */
  lemma {:induction false} ReleaseTimedOutBlocked(s: PoolState, order: seq<KeyId>, now: Time)
    requires Distinct(order)
    ensures ReleaseTimedOut(s, order, now).blocked == s.blocked - TimedOutSet(s.blocked, order, now)
    decreases |order|
  {
    var e := TimedOutSet(s.blocked, order, now);
    if order == [] {
      assert s.blocked - e == s.blocked;
    } else {
      var k0 := order[0];
      DistinctTail(order);
      var s1 := if BlockExpired(s.blocked, k0, now) then Unblocked(s, k0) else s;
      ReleaseTimedOutBlocked(s1, order[1..], now);
      var e1 := TimedOutSet(s1.blocked, order[1..], now);
      assert e1 == TimedOutSet(s.blocked, order[1..], now);
      if BlockExpired(s.blocked, k0, now) {
        assert e == e1 + {k0};
        assert s1.blocked == s.blocked - {k0};
      } else {
        assert e == e1;
      }
    }
  }

  /** What the block-timeout pass does to the record of one id `k`: if `k`
      is a timed-out id of `order` it ends up with its record (the zero
      record if missing) with `isBlocked` cleared, and otherwise its record,
      or its lack of one, is left alone. */
  lemma {:induction false} ReleaseTimedOutRecord(s: PoolState, order: seq<KeyId>, now: Time, k: KeyId)
    requires Distinct(order)
    ensures var r := ReleaseTimedOut(s, order, now);
      if k in order && BlockExpired(s.blocked, k, now) then
        k in r.keys && r.keys[k] == Lookup(s.keys, k).(isBlocked := false)
      else
        (k in r.keys <==> k in s.keys) && (k in s.keys ==> r.keys[k] == s.keys[k])
    decreases |order|
  {
    if order != [] {
      var k0 := order[0];
      DistinctTail(order);
      var s1 := if BlockExpired(s.blocked, k0, now) then Unblocked(s, k0) else s;
      ReleaseTimedOutRecord(s1, order[1..], now, k);
      if k != k0 {
        assert BlockExpired(s1.blocked, k, now) == BlockExpired(s.blocked, k, now);
        assert Lookup(s1.keys, k) == Lookup(s.keys, k);
      } else {
        assert k !in order[1..];
      }
    }
  }

  /** The block-timeout pass gives each timed-out id of `order` its record
      (the zero record if missing) with `isBlocked` cleared, and leaves every
      other record alone. */
  lemma ReleaseTimedOutKeys(s: PoolState, order: seq<KeyId>, now: Time)
    requires Distinct(order)
    ensures var r := ReleaseTimedOut(s, order, now);
      var e := TimedOutSet(s.blocked, order, now);
      && r.keys.Keys == s.keys.Keys + e
      && (forall k | k in e :: r.keys[k] == Lookup(s.keys, k).(isBlocked := false))
      && (forall k | k in s.keys && k !in e :: r.keys[k] == s.keys[k])
  {
    forall k {
      ReleaseTimedOutRecord(s, order, now, k);
    }
  }

  /** The idle pass, stated as one change: every record idle for more than
      `IdleTimeout` is dropped, with its blocked entry; the queue is not
      touched, so a dropped id that was queued stays queued. This is the
      intended effect; the Go loop deadlocks instead (see `ExpireIdleLoop`). */
  function ExpireIdle(s: PoolState, now: Time): (r: PoolState)
    ensures forall k :: k in r.keys <==> k in s.keys && !IdleExpired(s.keys, k, now)
    ensures forall k | k in r.keys :: r.keys[k] == s.keys[k]
    ensures forall k :: k in r.blocked <==> k in s.blocked && !IdleExpired(s.keys, k, now)
    ensures forall k | k in r.blocked :: r.blocked[k] == s.blocked[k]
    ensures r.available == s.available
  {
    var stale := set k | k in s.keys && IdleExpired(s.keys, k, now);
    PoolState(s.keys - stale, s.available, s.blocked - stale)
  }

  /** The idle pass as the Go loop means it: the records, visited in
      `order`, each idle one removed as `DeleteKey` removes it.

      The Go code does not get that far. The loop calls the public
      `DeleteKey`, which locks the pool mutex the loop already holds; Go's
      `sync.Mutex` is not reentrant, so the first idle record the loop meets
      blocks the background task forever, and every later public operation
      then blocks on the same mutex. What is modelled here is the per-key
      removal the loop evidently intends. */
  function ExpireIdleLoop(s: PoolState, order: seq<KeyId>, now: Time): (r: PoolState)
    ensures r.available == s.available
    ensures forall k | k in r.keys :: k in s.keys && r.keys[k] == s.keys[k]
    ensures forall k | k in r.blocked :: k in s.blocked && r.blocked[k] == s.blocked[k]
    decreases |order|
  {
    if order == [] then s
    else
      var k := order[0];
      var s' := if IdleExpired(s.keys, k, now) then DeleteKey(s, k).state else s;
      ExpireIdleLoop(s', order[1..], now)
  }

  /** The ids of `order` whose record is idle. */
  ghost function IdleIn(keys: map<KeyId, KeyMetadata>, order: seq<KeyId>, now: Time): set<KeyId> {
    set k | k in order && IdleExpired(keys, k, now)
  }

  /** The Go loop over any visiting order removes exactly the idle records
      it visits, and nothing from the queue. */
  lemma {:induction false} ExpireIdleLoopEffect(s: PoolState, order: seq<KeyId>, now: Time)
    ensures var e := IdleIn(s.keys, order, now);
      ExpireIdleLoop(s, order, now) == PoolState(s.keys - e, s.available, s.blocked - e)
    decreases |order|
  {
    var e := IdleIn(s.keys, order, now);
    if order == [] {
      assert e == {};
      assert s.keys - e == s.keys;
      assert s.blocked - e == s.blocked;
    } else {
      var k0 := order[0];
      var tail := order[1..];
      var s1 := if IdleExpired(s.keys, k0, now) then DeleteKey(s, k0).state else s;
      ExpireIdleLoopEffect(s1, tail, now);
      var e1 := IdleIn(s1.keys, tail, now);
      if IdleExpired(s.keys, k0, now) {
        assert e1 == IdleIn(s.keys, tail, now) - {k0};
        assert e == e1 + {k0};
        assert s1.keys - e1 == s.keys - e;
        assert s1.blocked - e1 == s.blocked - e;
      } else {
        assert e1 == IdleIn(s.keys, tail, now);
        assert e == e1;
      }
    }
  }

  /** The order the Go runtime picks for the idle loop does not matter:
      whenever it visits every record, the loop has the effect of
      `ExpireIdle`. */
  lemma ExpireIdleLoopMatches(s: PoolState, order: seq<KeyId>, now: Time)
    requires forall k | k in s.keys :: k in order
    ensures ExpireIdleLoop(s, order, now) == ExpireIdle(s, now)
  {
    ExpireIdleLoopEffect(s, order, now);
    assert IdleIn(s.keys, order, now) == set k | k in s.keys && IdleExpired(s.keys, k, now);
  }

  /** One tick of `BackgroundTask` at clock reading `now`, with `order` the
      order in which the Go runtime ranges over the blocked ids. After it,
      every timed-out lease is back in the queue and no record is left that
      was idle too long. */
  function Sweep(s: PoolState, now: Time, order: seq<KeyId>): (r: PoolState)
    requires Enumerates(order, s.blocked.Keys)
    ensures forall k | BlockExpired(s.blocked, k, now) :: k !in r.blocked && k in r.available
    ensures forall k | k in r.keys :: Sub(now, r.keys[k].lastAccess) <= IdleTimeout
  {
    ReleaseTimedOutQueue(s, order, now);
    ReleaseTimedOutBlocked(s, order, now);
    var mid := ReleaseTimedOut(s, order, now);
    assert forall k | BlockExpired(s.blocked, k, now) :: k !in mid.blocked && k in mid.available;
    ExpireIdle(mid, now)
  }

  /** The tick appends the timed-out leases to the queue after the ids that
      were already queued, each once, in the order the map range met them. */
  lemma SweepQueue(s: PoolState, now: Time, order: seq<KeyId>)
    requires Enumerates(order, s.blocked.Keys)
    ensures Sweep(s, now, order).available == s.available + TimedOut(s.blocked, order, now)
    ensures Distinct(TimedOut(s.blocked, order, now))
    ensures forall k :: k in TimedOut(s.blocked, order, now) <==> BlockExpired(s.blocked, k, now)
  {
    ReleaseTimedOutQueue(s, order, now);
    TimedOutDistinct(s.blocked, order, now);
  }

  /** The tick drops exactly the blocked entries that timed out or whose
      record went idle, and changes no blocked time. */
  lemma SweepBlocked(s: PoolState, now: Time, order: seq<KeyId>)
    requires Enumerates(order, s.blocked.Keys)
    ensures var r := Sweep(s, now, order);
      forall k :: k in r.blocked <==>
        k in s.blocked && !BlockExpired(s.blocked, k, now) && !IdleExpired(s.keys, k, now)
    ensures var r := Sweep(s, now, order);
      forall k | k in r.blocked :: r.blocked[k] == s.blocked[k]
  {
    ReleaseTimedOutBlocked(s, order, now);
    ReleaseTimedOutKeys(s, order, now);
    var mid := ReleaseTimedOut(s, order, now);
    assert forall k | k in mid.blocked :: k in s.keys ==> mid.keys[k] == s.keys[k];
  }

  /** The tick moves no last access, clears `isBlocked` on the records of
      timed-out leases, drops the idle records and leaves every other record
      as it was. */
  lemma SweepRecords(s: PoolState, now: Time, order: seq<KeyId>)
    requires Enumerates(order, s.blocked.Keys)
    ensures var r := Sweep(s, now, order);
      forall k | k in r.keys :: r.keys[k].lastAccess == Lookup(s.keys, k).lastAccess
    ensures var r := Sweep(s, now, order);
      forall k | k in r.keys :: k in s.keys || BlockExpired(s.blocked, k, now)
    ensures var r := Sweep(s, now, order);
      forall k | k in s.keys && !IdleExpired(s.keys, k, now) ::
        && k in r.keys
        && r.keys[k] == if BlockExpired(s.blocked, k, now) then s.keys[k].(isBlocked := false) else s.keys[k]
  {
    ReleaseTimedOutKeys(s, order, now);
    var mid := ReleaseTimedOut(s, order, now);
    var e := TimedOutSet(s.blocked, order, now);
    assert forall k | k in mid.keys :: mid.keys[k].lastAccess == Lookup(s.keys, k).lastAccess;
    assert forall k | k in s.keys :: IdleExpired(mid.keys, k, now) == IdleExpired(s.keys, k, now);
  }
}
