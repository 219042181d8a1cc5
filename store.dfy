/**
 * The in-memory key/value store with per-entry expiry. Its code (Get, Set,
 * Delete, clean and the empty-map construction) is the same in the library
 * copy cache.go and in the program copy main.go, so one class serves both.
 *
 * Every operation is treated as atomic: the RWMutex embedded in the Go
 * struct is not modelled. (Both copies' clean deletes from the map while
 * holding only the read lock, a data race that a sequential model cannot
 * show.) The clock is an explicit parameter, in nanoseconds since the Unix
 * epoch, instead of a call of time.Now().
 */
module Store {

  datatype Option<T> = None | Some(value: T)

  const NanosPerSecond: int := 1_000_000_000

  /** A stored record: the payload and the Unix second at which it expires. */
  datatype Entry<V> = Entry(data: V, expiresAt: int)

  /** Whole seconds of an instant given in nanoseconds, rounded down, as Go's Time.Unix reports them. */
  function UnixSeconds(nanos: int): (s: int)
    ensures s * NanosPerSecond <= nanos < (s + 1) * NanosPerSecond
  {
    nanos / NanosPerSecond
  }

  /** Rounding down to seconds keeps the order of instants. */
  lemma UnixSecondsMonotonic(a: int, b: int)
    requires a <= b
    ensures UnixSeconds(a) <= UnixSeconds(b)
  {
  }

  /** A sweep at Unix second `now` evicts the entry. */
  predicate Expired<V>(e: Entry<V>, now: int)
  {
    now >= e.expiresAt
  }

  /** What Get reports for `key`: the payload, or nothing (Go's nil) when the key is absent. */
  function Lookup<V>(m: map<string, Entry<V>>, key: string): Option<V>
  {
    if key in m then Some(m[key].data) else None
  }

  /** The map after Set(key, v, ttl) at clock `nowNanos`. */
  function Put<V>(m: map<string, Entry<V>>, key: string, v: V, ttl: int, nowNanos: int): map<string, Entry<V>>
  {
    m[key := Entry(v, UnixSeconds(nowNanos + ttl))]
  }

  /** The map after Delete(key). */
  function Remove<V>(m: map<string, Entry<V>>, key: string): map<string, Entry<V>>
  {
    if key in m then m - {key} else m
  }

  /** `small` holds some of the entries of `big`, each unchanged. */
  ghost predicate IsSubMap<V>(small: map<string, Entry<V>>, big: map<string, Entry<V>>)
  {
    forall k :: k in small ==> k in big && small[k] == big[k]
  }

  /** The map after a sweep at Unix second `now`: the entries that have not expired. */
  function Sweep<V>(m: map<string, Entry<V>>, now: int): (r: map<string, Entry<V>>)
    ensures forall k :: k in m ==> (k in r <==> !Expired(m[k], now))
    ensures IsSubMap(r, m)
    ensures |r| <= |m|
  {
    var r := map k | k in m && !Expired(m[k], now) :: m[k];
    assert m.Keys == r.Keys + (m.Keys - r.Keys);
    r
  }

  // ---------------------------------------------------------------------
  // Properties of the store operations

  /** Get after Set returns the new payload, whatever the ttl and the clock: Get never looks at expiresAt. */
  lemma LookupAfterPut<V>(m: map<string, Entry<V>>, key: string, v: V, ttl: int, nowNanos: int)
    ensures Lookup(Put(m, key, v, ttl, nowNanos), key) == Some(v)
  {
  }

  /** Set changes what Get reports for no other key. */
  lemma PutOtherKey<V>(m: map<string, Entry<V>>, key: string, other: string, v: V, ttl: int, nowNanos: int)
    requires other != key
    ensures Lookup(Put(m, key, v, ttl, nowNanos), other) == Lookup(m, other)
    ensures other in Put(m, key, v, ttl, nowNanos) <==> other in m
  {
  }

  /** The last write of a key wins, payload and expiry both. */
  lemma LastWriteWins<V>(m: map<string, Entry<V>>, key: string, v1: V, ttl1: int, now1: int, v2: V, ttl2: int, now2: int)
    ensures Put(Put(m, key, v1, ttl1, now1), key, v2, ttl2, now2) == Put(m, key, v2, ttl2, now2)
  {
  }

  /** Get after Delete reports not found. */
  lemma LookupAfterRemove<V>(m: map<string, Entry<V>>, key: string)
    ensures Lookup(Remove(m, key), key) == None
  {
  }

  /** Deleting an absent key leaves the map as it was. */
  lemma RemoveAbsent<V>(m: map<string, Entry<V>>, key: string)
    requires key !in m
    ensures Remove(m, key) == m
  {
  }

  /** Deleting twice is the same as deleting once. */
  lemma RemoveIdempotent<V>(m: map<string, Entry<V>>, key: string)
    ensures Remove(Remove(m, key), key) == Remove(m, key)
  {
  }

  /** Delete removes one key and keeps every other entry. */
  lemma RemoveOtherKey<V>(m: map<string, Entry<V>>, key: string, other: string)
    requires other != key
    ensures other in Remove(m, key) <==> other in m
    ensures other in m ==> Remove(m, key)[other] == m[other]
  {
  }

  /** A second sweep at the same second removes nothing more. */
  lemma SweepIdempotent<V>(m: map<string, Entry<V>>, now: int)
    ensures Sweep(Sweep(m, now), now) == Sweep(m, now)
  {
  }

  /** Two sweeps, in either order, are one sweep at the later second. */
  lemma SweepTwice<V>(m: map<string, Entry<V>>, a: int, b: int)
    ensures Sweep(Sweep(m, a), b) == Sweep(m, if a <= b then b else a)
  {
  }

  /**
   * An entry written at `setNanos` with `ttl` is evicted by every sweep whose
   * clock has reached setNanos + ttl, and survives every sweep at least one
   * whole second before that instant. Because expiresAt is truncated to
   * seconds, a sweep in the last second before setNanos + ttl may evict it.
   * Both halves rest on UnixSecondsMonotonic: rounding down keeps the order
   * of setNanos + ttl and sweepNanos.
   */
  lemma ExpiryWindow<V>(v: V, setNanos: int, ttl: int, sweepNanos: int)
    ensures sweepNanos >= setNanos + ttl ==> Expired(Entry(v, UnixSeconds(setNanos + ttl)), UnixSeconds(sweepNanos))
    ensures sweepNanos + NanosPerSecond <= setNanos + ttl ==> !Expired(Entry(v, UnixSeconds(setNanos + ttl)), UnixSeconds(sweepNanos))
  {
  }

  /** An entry with a 10 s ttl written at 0.5 s is evicted by a sweep at 10.2 s, 0.3 s before its ttl has run out. */
  lemma EarlyEviction<V>(v: V)
    ensures Expired(Entry(v, UnixSeconds(500_000_000 + 10 * NanosPerSecond)), UnixSeconds(10_200_000_000))
  {
  }

  /**
   * The manual clean of the library's tests: an entry with a ttl of 5 s
   * written at `t`, then one with a ttl of 1 min written at `t2`, into an
   * empty store; a clean in [t2, t + 4 s] keeps both, a later clean in
   * [t + 5 s, t + 59 s] keeps one. Outside these windows a clean in the last
   * second before an expiry may already evict (see EarlyEviction).
   */
  lemma LibraryCleanScenario<V>(v1: V, v2: V, t: int, t2: int, first: int, second: int)
    requires t <= t2 <= first && first + NanosPerSecond <= t + 5 * NanosPerSecond
    requires t + 5 * NanosPerSecond <= second && second + NanosPerSecond <= t + 60 * NanosPerSecond
    ensures var m := Put(Put(map[], "teststring", v1, 5 * NanosPerSecond, t), "integerkey", v2, 60 * NanosPerSecond, t2);
            var afterFirst := Sweep(m, UnixSeconds(first));
            |afterFirst| == 2 && |Sweep(afterFirst, UnixSeconds(second))| == 1
  {
    var m := Put(Put(map[], "teststring", v1, 5 * NanosPerSecond, t), "integerkey", v2, 60 * NanosPerSecond, t2);
    ExpiryWindow(v1, t, 5 * NanosPerSecond, first);
    ExpiryWindow(v2, t2, 60 * NanosPerSecond, first);
    ExpiryWindow(v1, t, 5 * NanosPerSecond, second);
    ExpiryWindow(v2, t2, 60 * NanosPerSecond, second);
    var afterFirst := Sweep(m, UnixSeconds(first));
    assert afterFirst.Keys == {"teststring", "integerkey"};
    assert Sweep(afterFirst, UnixSeconds(second)).Keys == {"integerkey"};
  }

  /**
   * The manual clean of the program's tests: a ttl of 10 s written at `t`,
   * then one of 20 s written at `t2`, into an empty store; cleans in
   * [t2, t + 9 s], [t + 10 s, t + 19 s] and from t2 + 20 s on leave two, one
   * and no entries. A clean in the last second before an expiry may already
   * evict (see EarlyEviction).
   */
  lemma ProgramCleanScenario<V>(v1: V, v2: V, t: int, t2: int, first: int, second: int, third: int)
    requires t <= t2 <= first && first + NanosPerSecond <= t + 10 * NanosPerSecond
    requires t + 10 * NanosPerSecond <= second && second + NanosPerSecond <= t + 20 * NanosPerSecond
    requires t2 + 20 * NanosPerSecond <= third
    ensures var m := Put(Put(map[], "teststring", v1, 10 * NanosPerSecond, t), "integerkey", v2, 20 * NanosPerSecond, t2);
            var afterFirst := Sweep(m, UnixSeconds(first));
            var afterSecond := Sweep(afterFirst, UnixSeconds(second));
            |afterFirst| == 2 && |afterSecond| == 1 && |Sweep(afterSecond, UnixSeconds(third))| == 0
  {
    var m := Put(Put(map[], "teststring", v1, 10 * NanosPerSecond, t), "integerkey", v2, 20 * NanosPerSecond, t2);
    ExpiryWindow(v1, t, 10 * NanosPerSecond, first);
    ExpiryWindow(v2, t2, 20 * NanosPerSecond, first);
    ExpiryWindow(v1, t, 10 * NanosPerSecond, second);
    ExpiryWindow(v2, t2, 20 * NanosPerSecond, second);
    ExpiryWindow(v2, t2, 20 * NanosPerSecond, third);
    var afterFirst := Sweep(m, UnixSeconds(first));
    assert afterFirst.Keys == {"teststring", "integerkey"};
    var afterSecond := Sweep(afterFirst, UnixSeconds(second));
    assert afterSecond.Keys == {"integerkey"};
    assert Sweep(afterSecond, UnixSeconds(third)).Keys == {};
  }

  // ---------------------------------------------------------------------
  // The store object

  /** genericMemoryCacheStruct: the map from keys to entries, updated in place. */
  class Cache<V> {
    var data: map<string, Entry<V>>

    /** NewGenericMemoryCache's allocation of the struct: an empty map. */
    constructor ()
      ensures data == map[]
    {
      data := map[];
    }

    /** Looks `key` up; a present key yields its payload and true, a missing one (None, false). */
    method Get(key: string) returns (entry: Option<V>, found: bool)
      ensures found <==> key in data
      ensures entry == Lookup(data, key)
      ensures found ==> entry == Some(data[key].data)
    {
      if key !in data {
        return None, false;
      }
      var res := data[key];
      return Some(res.data), true;
    }

    /** Inserts or overwrites the entry for `key`, expiring at the Unix second of nowNanos + ttl. */
    method Set(key: string, v: V, ttl: int, nowNanos: int)
      modifies this
      ensures data == Put(old(data), key, v, ttl, nowNanos)
      ensures key in data && data[key] == Entry(v, UnixSeconds(nowNanos + ttl))
      ensures data.Keys == old(data).Keys + {key}
      ensures forall k :: k in old(data) && k != key ==> data[k] == old(data)[k]
    {
      data := data[key := Entry(v, UnixSeconds(nowNanos + ttl))];
    }

    /** Removes `key` when it is present; an absent key is left alone. */
    method Delete(key: string)
      modifies this
      ensures data == Remove(old(data), key)
      ensures key !in data
      ensures data.Keys == old(data).Keys - {key}
      ensures IsSubMap(data, old(data))
      ensures key !in old(data) ==> data == old(data)
    {
      if key in data {
        data := data - {key};
      }
    }

    /**
     * clean: reads the clock once, then visits every key in an unspecified
     * order (Go's range over a map) and deletes the entries that have expired.
     */
    method Clean(nowNanos: int)
      modifies this
      ensures data == Sweep(old(data), UnixSeconds(nowNanos))
    {
      var now := UnixSeconds(nowNanos);
      ghost var orig := data;
      var keys := data.Keys;
      while keys != {}
        invariant keys <= orig.Keys
        invariant forall k :: k in data <==> k in orig && (k in keys || !Expired(orig[k], now))
        invariant forall k :: k in data ==> data[k] == orig[k]
        decreases keys
      {
        var key :| key in keys;
        var el := data[key];
        if now >= el.expiresAt {
          data := data - {key};
        }
        keys := keys - {key};
      }
      assert data.Keys == Sweep(orig, now).Keys;
    }
  }
}
