# Key lease pool

A Dafny model of the key lease pool of Keys-Generator: the `KeyManager` of
`main.go`, which issues opaque key ids, lets callers check them out (block
them) and release them, keeps records alive, and runs a background task that
every second returns leases held longer than 20 seconds and is meant to
drop records idle for more than a minute. As written, that idle pass
deadlocks (see below); the model gives the removal it evidently intends.

The pool is the immutable `KeyManager.PoolState`: the record map `keys`, the
queue `available` and the map `blocked` from id to blocking time. Each public
method of the Go type runs its body under the pool mutex, so each is modelled
as one total function from the state before to a `Step` holding the state
after and the value or error returned. What the Go code takes from its
environment is a parameter: the id drawn by `GenerateRandomKey`, the position
drawn by `rand.Intn`, the clock reading of `time.Now()`, and the order in
which a Go `range` visits the blocked map. Times are whole nanoseconds since
Go's zero time, so an unset time field is `0`; `time.Time.Sub` saturates at
the bounds of a 64-bit `time.Duration` (`Clock.Sub`).

Files:
- `clock.dfy` — `Clock`: times, durations, saturating `Sub`.
- `seqs.dfy` — `Seqs`: duplicate-free sequences and removal at a position.
- `key_manager.dfy` — `KeyManager`: records, pool state, the six operations.
- `reclaimer.dfy` — `Reclaimer`: the two passes of one background tick.
- `invariant.dfy` — `PoolInvariant`: the pool invariant and its preservation.
- `quirks.dfy` — `Quirks`: surprising behaviour of the code, proved.
- `lifecycle.dfy` — `Lifecycle`: round trips, timeouts and call sequences.

The invariant `PoolInvariant.Valid` says: the queue has no duplicates, no id
is both queued and blocked, every blocked id has a record, and that record
says it is blocked. `PoolInvariant.Coherent` adds that every record is filed
under its own id, its `isBlocked` flag is set exactly when the id is blocked,
and every record is either queued or blocked. Both hold after every operation
and every tick, provided the generated id is fresh (`PoolInvariant.Fresh`).
"Every queued id has a record" does not hold. `DeleteKey` and the idle pass
drop records but leave the queue alone.

Facts about `main.go` that a caller of the pool may not expect:
- Checking out a key replaces its record (main.go:70-75), so the record's
  creation time becomes the zero time (`Quirks.CheckoutForgetsCreationTime`).
- `DeleteKey` (main.go:97-105) removes the record and the blocked entry but
  not the queue entry. A deleted id can therefore be handed out again, and
  the checkout then creates a new record for it
  (`Quirks.DeletedKeyCanBeCheckedOut`).
- Both timeouts are strict: main.go:139 and main.go:152 test elapsed time
  `> 20s` and `> 1m`, so a lease held exactly 20 seconds is kept.
- A new record's last access is the zero time (main.go:48-51), so every key
  that has been created and neither checked out nor kept alive (main.go:111-114
  sets the last access) counts as idle.
- The idle pass (main.go:149-156) holds `mu` and calls `DeleteKey`, which
  locks `mu` again. Go's `sync.Mutex` is not reentrant, so the background
  goroutine blocks for ever at the first idle record, and every later public
  operation blocks waiting for `mu`. With the previous point, this happens on
  the first tick after any key is created and before it is either checked out
  or kept alive. The
  model does not reproduce the deadlock: `Reclaimer.ExpireIdle` and
  `Reclaimer.ExpireIdleLoop` give the per-key removal the loop intends, and
  the lemmas about them describe that intended removal.

## Model

| member | source | states |
|---|---|---|
| `Clock.Sub` | main.go:139 | The elapsed time stays within the 64-bit duration range and equals the true difference whenever that difference fits. |
| `Clock.SubExceedsIff` | main.go:152 | Saturation never changes the result of comparing an elapsed time with a timeout below the largest duration. |
| `Seqs.RemoveAt` | main.go:68 | Removing position `i` keeps the elements before it, shifts the ones after it down by one, and drops exactly one occurrence of `xs[i]`. |
| `Seqs.RemoveAtDistinct` | main.go:66-68 | In a duplicate-free queue, removing a position removes exactly that id, and the queue stays duplicate-free. |
| `KeyManager.NewKeyManager` | main.go:31-36 | A new pool has no records, no queued ids and no blocked ids. |
| `KeyManager.GenerateNewKey` | main.go:42-56 | Returns `k`. The record at `k` becomes `{k, now, 0, false, 0}`. Other records and `blocked` are unchanged. `k` is appended as the last queue element, after the old queue. |
| `KeyManager.RetreiveAvailableKey` | main.go:58-79 | Fails with `NoKeysAvailable` and no change exactly when the queue is empty. Otherwise it returns `available[index]` and removes exactly that position, keeping the order of the rest. It records `blocked[key] = now` and replaces the record with `{key, 0, now, true, now}`. Nothing else changes. |
| `KeyManager.Unblocked` | main.go:86-90 | Releasing an id clears `isBlocked` on its record and keeps every other field of the record. The zero record is used if the id has none. The id leaves `blocked` and is appended to the queue. Nothing else changes. |
| `KeyManager.UnblockKey` | main.go:81-95 | Fails with `KeyNotBlocked` and no change exactly when `k` is not blocked. Otherwise it has the release effect above. |
| `KeyManager.DeleteKey` | main.go:97-105 | Never fails. It removes `k`'s record and blocked entry and leaves the queue and all other entries unchanged. |
| `KeyManager.KeepAlive` | main.go:107-118 | Fails with `KeyNotFound` and no change exactly when `k` has no record. Otherwise it sets only that record's last access to `now`. |
| `KeyManager.GetKeyInfo` | main.go:120-129 | Returns the record exactly when `k` has one, and `KeyNotFound` otherwise. It returns no new state. |
| `Reclaimer.TimedOut` | main.go:138-139 | The ids listed are exactly the visited ids blocked for more than 20 seconds. |
| `Reclaimer.TimedOutDistinct` | main.go:138-146 | A duplicate-free visit order lists each timed-out id once. |
| `Reclaimer.ReleaseTimedOut` | main.go:138-146 | The block-timeout loop only appends to the queue, keeping the old queue as a prefix, and only removes `blocked` entries, keeping the times of the rest. Its exact effect is stated by `ReleaseTimedOutQueue`, `ReleaseTimedOutBlocked` and `ReleaseTimedOutKeys`. |
| `Reclaimer.ReleaseTimedOutQueue` | main.go:138-146 | The block-timeout pass appends the timed-out ids to the queue in visit order. |
| `Reclaimer.ReleaseTimedOutBlocked` | main.go:138-146 | The block-timeout pass removes exactly the timed-out ids from `blocked`. |
| `Reclaimer.ReleaseTimedOutRecord` | main.go:138-146 | For one id, the block-timeout pass clears `isBlocked` on its record if it is a visited timed-out id. The zero record is used if the id has none. Otherwise the record, or its absence, is unchanged. |
| `Reclaimer.ReleaseTimedOutKeys` | main.go:138-146 | The block-timeout pass clears `isBlocked` on the records of the timed-out ids and leaves every other record alone. |
| `Reclaimer.ExpireIdle` | main.go:149-156 | As intended (the code deadlocks instead), the idle pass drops exactly the idle records and their blocked entries, changes nothing else, and leaves the queue unchanged. |
| `Reclaimer.ExpireIdleLoop` | main.go:151-155 | The idle loop, with the intended per-key removal in place of the deadlocking `DeleteKey` call, leaves the queue unchanged and only removes records and `blocked` entries, keeping the rest unchanged. Its exact effect is stated by `ExpireIdleLoopEffect` and `ExpireIdleLoopMatches`. |
| `Reclaimer.ExpireIdleLoopEffect` | main.go:151-155 | The Go loop, which deletes records one by one in any visit order, removes exactly the idle records it visits, and their blocked entries. |
| `Reclaimer.ExpireIdleLoopMatches` | main.go:151-155 | When the loop visits every record, its result does not depend on the visit order and equals `ExpireIdle`. |
| `Reclaimer.Sweep` | main.go:134-156 | After one tick, every timed-out lease is out of `blocked` and in the queue, and (under the intended idle removal) no record idle for more than a minute remains. |
| `Reclaimer.SweepQueue` | main.go:138-146 | The tick appends the timed-out ids after the old queue, each exactly once. |
| `Reclaimer.SweepBlocked` | main.go:136-155 | After the tick, `blocked` holds exactly the entries that neither timed out nor belong to an idle record, with their times unchanged. |
| `Reclaimer.SweepRecords` | main.go:136-155 | The tick moves no last access and only adds records for timed-out ids. Each record that is not idle survives, with `isBlocked` cleared if its lease timed out and otherwise unchanged. |
| `PoolInvariant.NewKeyManagerCoherent` | main.go:31-36 | A new pool satisfies both invariants. |
| `PoolInvariant.GenerateNewKeyPreserves` | main.go:42-56 | Creating a key with a fresh id preserves both invariants. |
| `PoolInvariant.RetreiveAvailableKeyPreserves` | main.go:58-79 | Checkout preserves both invariants. |
| `PoolInvariant.UnblockedPreserves` | main.go:86-90 | Releasing a blocked id preserves both invariants. |
| `PoolInvariant.UnblockKeyPreserves` | main.go:81-95 | `UnblockKey` preserves both invariants. |
| `PoolInvariant.DeleteKeyPreserves` | main.go:97-105 | `DeleteKey` preserves both invariants. |
| `PoolInvariant.KeepAlivePreserves` | main.go:107-118 | `KeepAlive` preserves both invariants. |
| `PoolInvariant.ReleaseTimedOutPreserves` | main.go:138-146 | The block-timeout pass preserves both invariants in any visit order. |
| `PoolInvariant.ExpireIdlePreserves` | main.go:149-156 | The idle pass preserves both invariants. |
| `PoolInvariant.SweepPreserves` | main.go:134-156 | A whole tick preserves both invariants. |
| `PoolInvariant.ApplyPreserves` | main.go:42-156 | Every admissible operation call or tick preserves both invariants. |
| `PoolInvariant.RunPreserves` | main.go:42-156 | Any sequence of admissible events preserves `Coherent`. |
| `PoolInvariant.ReachableCoherent` | main.go:31-156 | Every pool reachable from a new `KeyManager` by admissible events is coherent. |
| `Quirks.DeleteLeavesStaleQueueEntry` | main.go:97-105 | Deleting a queued id leaves it in the queue with no record. |
| `Quirks.QueueHasRecordsNotPreserved` | main.go:48-53 | A coherent pool in which every queued id has a record loses that property after one `DeleteKey`. |
| `Quirks.DeletedKeyCanBeCheckedOut` | main.go:66-77 | A deleted id that is still queued can be checked out. The checkout returns it and creates a new record for it. |
| `Quirks.CheckoutForgetsCreationTime` | main.go:70-75 | A key created at time `t` has the zero creation time after checkout. |
| `Quirks.NewKeyIdleAtOnce` | main.go:48-51 | A new key has zero last access, so once the clock reads more than a minute it is idle at the next tick. In the code that tick deadlocks; under the intended removal it drops the record, after which lookup and keep-alive fail but the id stays queued. |
| `Lifecycle.CreateCheckoutRoundTrip` | main.go:42-78 | A created key shows `isBlocked = false`. Checking it out returns it and shows `isBlocked = true` with `blockedAt = now`. |
| `Lifecycle.CheckoutThenUnblock` | main.go:66-91 | Releasing a key right after checking it out restores `blocked` and the queue's contents. Its record becomes `{k, 0, now, false, now}`. |
| `Lifecycle.UnblockTwiceFails` | main.go:81-95 | After a successful release, a second release fails with `KeyNotBlocked` and changes nothing. |
| `Lifecycle.NoDoubleCheckout` | main.go:62-78 | The next checkout never returns the id just checked out, and it succeeds whenever two or more ids were queued. |
| `Lifecycle.BlockedNotCheckedOut` | main.go:62-78 | In a valid pool, a checkout never returns an id that is currently blocked, whatever position is drawn. |
| `Lifecycle.ReachableBlockedNotCheckedOut` | main.go:31-156 | In every pool reachable from a new `KeyManager`, after any calls and ticks, a checkout never returns an id that is still blocked. |
| `Lifecycle.DeleteKeyIdempotent` | main.go:97-105 | Deleting twice has the same effect as deleting once. |
| `Lifecycle.KeepAliveThenInfo` | main.go:107-129 | After keep-alive, lookup shows the new last access and an unchanged blocked flag. |
| `Lifecycle.KeepAliveDefersExpiry` | main.go:107-155 | A key kept alive at time `t` survives every tick up to one minute after `t`. |
| `Lifecycle.TimeoutReclaims` | main.go:138-146 | A lease held more than 20 seconds is unblocked and queued by the next tick. Some checkout then returns it. |
| `Lifecycle.IdleKeyExpires` | main.go:151-154 | A record idle for more than a minute is gone after the next tick. Lookup then fails with `KeyNotFound`. |
| `Lifecycle.CheckoutReleaseScenario` | main.go:58-95 | Empty pool: checkout fails. Create one key: checkout returns it. Checkout again: fails. Release, then checkout: returns the same key. |
| `Lifecycle.UnknownKeyScenario` | main.go:81-129 | For an unknown id, release fails with `KeyNotBlocked`, and keep-alive and lookup fail with `KeyNotFound`. Delete succeeds and changes nothing. |

## Left out

- The HTTP routes and JSON responses of `main` (main.go:160-222): a stateless adapter from requests to the operations.
- The mutexes `mu` and `blockMu`, the goroutine and the endless sleep loop. These are concurrency, and each locked body is modelled as one atomic step. This hides that the block-timeout pass holds only `blockMu`, so it can race with operations under `mu`.
- The idle pass's deadlock: it calls `DeleteKey`, which takes `mu`, while already holding `mu`. Go's mutex is not reentrant, so that call never returns, and from then on every public operation blocks. The model gives the per-key removal the loop evidently means; a comment on `Reclaimer.ExpireIdleLoop` records the deadlock.
- `fmt.Println` logging in `GenerateNewKey` and `GetKeyInfo`: output only.
- `GenerateRandomKey`'s id format `"key" + strconv.Itoa(rand.Int())`. Ids are opaque strings. The operation accepts any id, including a colliding one. The invariant lemmas assume the id is fresh (`PoolInvariant.Fresh`).
- `rand.Intn` and `time.Now()`, which are parameters. `RetreiveAvailableKey` reads the clock three times; the model uses one reading for all three.
- The monotonic reading inside a Go `time.Time` and time zones: a time is one integer of nanoseconds.
