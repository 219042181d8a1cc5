# go_cache: a verified model of the TTL memory cache

go_cache is an in-memory key/value store. Keys are strings. Each entry holds a
payload of any type and the Unix second at which it expires. A background
"stale data cleaner" wakes on every tick of a ticker and sweeps out the
expired entries, until it receives a stop signal on its `doneCh` channel. The
repository has two copies of this code. `cache.go` is the library copy.
`main.go` is a program copy in `package main`.

This Dafny project models both copies:

- `store.dfy`, module `Store`. This is the store code, which is the same in
  both copies. `Cache<V>` is a class whose `data` map the methods `Get`,
  `Set`, `Delete` and `Clean` read or change in place. `Clean` is a loop that
  deletes in place, visiting the keys in an unspecified order as Go's
  `range` does. It is proved equal to the pure function `Sweep`. The pure
  functions `Lookup`, `Put`, `Remove` and `Sweep` give each operation's
  result on the map. The lemmas beside them state the store's promises:
  lookup after insert, last write wins, frame conditions, delete
  idempotence, sweep exactness and idempotence, and the tests' clean
  scenarios.
- `events.dfy`, module `Events`. The cleaner goroutine's input is the sequence
  of events offered to it, `Tick(nowNanos)` or `Done`. Its state is a `Loop` record: the
  phase (`Running` or `Stopped`), the map, the number of cleans run and the
  number of `wg.Done` calls.
- `cleaner.dfy`, module `Cleaner`. This is the loop of `cache.go`. `Done`
  leaves the labelled `for`, and the goroutine then calls `wg.Done` once.
- `main_cleaner.dfy`, module `MainCleaner`. This is the loop of `main.go`.
  Its `break` leaves only the `select`, so the loop never stops (see
  Findings).

Time is an explicit integer parameter in nanoseconds since the Unix epoch. It
replaces `time.Now()`. `UnixSeconds` rounds down to whole seconds, as
`Time.Unix` does. Payloads have a type parameter `V`, and Go's `nil` result is
`None`.

Three behaviours of the code are easy to miss, and the model follows the code:

- Get never checks `expiresAt`. An expired entry stays visible until a clean
  or a Delete removes it (`LookupAfterPut` holds whatever the ttl and the
  clock).
- `expiresAt` is truncated to whole seconds. An entry can therefore be evicted
  up to one second before its ttl has run out (`ExpiryWindow`,
  `EarlyEviction`).
- In `main.go` the stop signal does not stop the loop.

## Model

| member | source | states |
|---|---|---|
| Store.UnixSeconds | cache.go:46 | The stored expiry is the instant rounded down to whole seconds: `s * 10^9 <= nanos < (s + 1) * 10^9`. |
| Store.UnixSecondsMonotonic | cache.go:62 | Rounding to seconds keeps the order of instants; it is the fact behind both halves of ExpiryWindow. |
| Store.Sweep | cache.go:67-71 | Result of one clean at second `now`: a key is kept exactly when it has not expired (`now < expiresAt`). Kept entries are unchanged, the result is a sub-map and the map never grows. Same code at main.go:71-75. |
| Store.LookupAfterPut | cache.go:28-47 | Get after Set returns the new payload, whatever the ttl and the clock, because Get never reads `expiresAt`. |
| Store.PutOtherKey | cache.go:44-47 | Set changes neither the presence nor the payload of any other key. |
| Store.LastWriteWins | cache.go:44-47 | Two Sets of one key leave the map exactly as the second Set alone would: its payload and its expiry. |
| Store.LookupAfterRemove | cache.go:51-59 | Get after Delete reports not found. |
| Store.RemoveAbsent | cache.go:55-58 | Deleting an absent key leaves the map unchanged. |
| Store.RemoveIdempotent | cache.go:51-59 | Deleting twice is the same as deleting once. |
| Store.RemoveOtherKey | cache.go:57 | Delete keeps every other key and its entry. |
| Store.SweepIdempotent | cache.go:61-72 | A second clean at the same second removes nothing more. |
| Store.SweepTwice | cache.go:61-72 | Two cleans, in either order, equal one clean at the later second. |
| Store.ExpiryWindow | cache.go:39-72 | An entry set at `t` with `ttl` is evicted by every clean whose clock has reached `t + ttl`. It survives every clean at least a whole second before that. |
| Store.EarlyEviction | cache.go:44-68 | Truncation to seconds: an entry with a 10 s ttl set at 0.5 s is evicted by a clean at 10.2 s. |
| Store.LibraryCleanScenario | cache_test.go:204-228 | ttls of 5 s (set at t) and 1 min (set next, at t2) go into an empty store. A clean in [t2, t+4 s] leaves 2 entries; a clean in [t+5 s, t+59 s] leaves 1. A clean in the last second before an expiry may already evict (EarlyEviction). |
| Store.ProgramCleanScenario | main_test.go:202-232 | ttls of 10 s (set at t) and 20 s (set next, at t2). Cleans in [t2, t+9 s], [t+10 s, t+19 s] and from t2+20 s on leave 2, 1 and 0 entries; a clean in the last second before an expiry may already evict (EarlyEviction). |
| Store.Cache.constructor | cache.go:93-98 | A new store has an empty map. Same code at main.go:80-84. |
| Store.Cache.Get | cache.go:28-37 | A present key yields `(Some(payload), true)` and a missing key `(None, false)`. Nothing changes. Same code at main.go:32-41. |
| Store.Cache.Set | cache.go:39-49 | The entry for `key` becomes `{v, UnixSeconds(now + ttl)}`, the key set grows by `key` only, and every other entry is unchanged. Same code at main.go:43-53. |
| Store.Cache.Delete | cache.go:51-59 | The key is removed if present and every other entry is kept. An absent key leaves the map unchanged. Same code at main.go:55-63. |
| Store.Cache.Clean | cache.go:61-72 | The in-place deleting loop leaves exactly `Sweep(old map, UnixSeconds(now))`. Same code at main.go:65-76. |
| Cleaner.Run | cache.go:78-86 | The library loop over a sequence of events (one select per event, nothing after the stop): the map only shrinks to a sub-map, cleans grow by at most one per event, and `wg.Done` is called at most once (never again once stopped). |
| Cleaner.StoppedAbsorbs | cache.go:77-87 | Once the loop has stopped, no later event changes anything, so no clean runs. |
| Cleaner.RunAppend | cache.go:78-86 | Processing two event segments in turn equals processing their concatenation. (Usage note: a caller's operation between segments is modelled by changing the store of the intermediate state.) |
| Cleaner.RunWithoutDone | cache.go:80-82 | Without a stop signal, each tick runs exactly one clean. The map ends as one sweep at the latest tick's clock and `wg.Done` is not called. |
| Cleaner.RunStopsAtFirstDone | cache.go:77-87 | The first `Done` at index k stops the loop. Exactly k cleans ran before it, `wg.Done` is called once, and later events are ignored. |
| Cleaner.StopIffDone | cache.go:74-90 | From launch, the loop is Stopped exactly when a `Done` arrived. `wg.Done` was then called exactly once, and otherwise never. |
| Cleaner.NoCleanAfterStop | cache.go:83-87 | Events after the stop have no effect on the final state. |
| Cleaner.StartStaleDataCleaner | cache.go:74-90 | The goroutine's loop over the given events ends in the state `Run` predicts. It consumes events up to and including the first `Done`, or all of them if there is none. |
| Cleaner.NewGenericMemoryCache | cache.go:93-102 | Yields a fresh store with an empty map and a Running cleaner. |
| MainCleaner.Run | main.go:107-116 | The program loop over a sequence of events: the phase never changes, the map only shrinks to a sub-map, and every event adds exactly one clean or one `wg.Done`. |
| MainCleaner.RunInClosedForm | main.go:107-116 | Every tick, before or after a `Done`, runs one clean, and together they make one sweep at the latest clock. Every `Done` calls `wg.Done`. The phase never changes. |
| MainCleaner.NeverStops | main.go:104-119 | From launch the loop is Running whatever events are offered to it. Cleans equal the number of ticks and `wg.Done` calls equal the number of `Done`s. |
| MainCleaner.DoneDoesNotStop | main.go:112-114 | On `[Done, Tick(n)]` this copy stays Running, runs a clean and evicts an expired entry. The library copy stops instead and leaves the map alone. |
| MainCleaner.StartStaleDataCleaner | main.go:104-119 | The goroutine's loop consumes every given event and ends in the state `Run` predicts. |
| MainCleaner.NewGenericMemoryCache | main.go:79-89 | Yields a fresh store with an empty map and a Running cleaner. |

## Left out

- Goroutines, `time.Ticker`, the `doneCh` channel and `select`'s choice between two ready cases. The cleaner's input is a finite event sequence instead, and the ticker's `cleaningInterval` parameter of `NewGenericMemoryCache` is dropped.
- The embedded `sync.RWMutex`: every operation is atomic. Both copies' `clean` deletes while holding only the read lock (cache.go:64, main.go:68). That is a data race a sequential model cannot express.
- `sync.WaitGroup` counting: only the number of `wg.Done` calls is kept. main.go's double `wg.Add` (main.go:86 and 105) is not modelled. Nor is the panic on a negative counter when its loop keeps taking the closed `doneCh` case.
- The real clock `time.Now()`: it is an explicit nanosecond parameter of `Set`, `Clean` and each `Tick`.
- Store.UnixSeconds: the model does not capture the int64 range of `time.Duration`, of `time.Time` arithmetic or of `expiresAt`. Integers are unbounded, so overflow far beyond the year 2262 is not modelled.
- `interface{}` payloads and the tests' `!=` comparisons on them: a type parameter `V` is used instead.
- The `GenericMemoryCache` interface itself: it only names the method set of the struct.
- `supplyData`, `main` and `cleanup` in main.go. They are demonstration and shutdown code: they spawn sleeping goroutines, print, and close a channel.
- The test files: their concurrent Sets and Gets, sleeps and random delays, and their calls of a `Cleanup` function and a two-result `NewGenericMemoryCache` that cache.go does not define. The tests serve only as evidence of the expected behaviour.
- Interleaving callers' operations with the cleaner inside one `StartStaleDataCleaner` call. As a usage note, such interleavings can be written by running the library loop over event segments (`Cleaner.RunAppend`) and changing the store between them; no lemma states this for the program copy.

## Findings

| source | as written | input that shows it | evidently intended | confidence | as-written member | corrected member |
|---|---|---|---|---|---|---|
| main.go:112-114 | The unlabelled `break` in the stop case leaves only the `select`. The `for` loop keeps running, keeps cleaning, and calls `wg.Done` again for every later stop signal. | An entry expiring at second `UnixSeconds(n)` and events `[Done, Tick(n)]`: after the stop the loop is still Running and a clean evicts the entry. | Leave the loop on the stop signal, as the labelled `break inf_loop` does at cache.go:84. | not executed; high | MainCleaner.DoneDoesNotStop | Cleaner.StopIffDone |
