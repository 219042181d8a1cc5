/**
 * What the background stale-data cleaner of either copy reacts to, and the
 * state it keeps. The goroutine, the time.Ticker and the doneCh channel are
 * replaced by a finite sequence of the events offered to its select
 * statement, in order. A loop that has ended receives none of the rest.
 */
module Events {
  import opened Store

  /** A tick of the ticker (with the wall clock, in nanoseconds, that the clean it triggers reads), or a stop signal on doneCh. */
  datatype Event = Tick(nowNanos: int) | Done

  datatype Phase = Running | Stopped

  /** The loop's state together with the map it sweeps: how many cleans ran and how many times wg.Done was called. */
  datatype Loop<V> = Loop(phase: Phase, store: map<string, Entry<V>>, cleans: nat, wgDone: nat)

  /** The loop as NewGenericMemoryCache / StartStaleDataCleaner launch it over `m`. */
  function Start<V>(m: map<string, Entry<V>>): Loop<V>
  {
    Loop(Running, m, 0, 0)
  }

  function CountTicks(es: seq<Event>): nat
  {
    if es == [] then 0 else (if es[0].Tick? then 1 else 0) + CountTicks(es[1..])
  }

  function CountDones(es: seq<Event>): nat
  {
    if es == [] then 0 else (if es[0] == Done then 1 else 0) + CountDones(es[1..])
  }

  function MaxOf(a: Option<int>, b: Option<int>): Option<int>
  {
    match (a, b)
    case (None, _) => b
    case (_, None) => a
    case (Some(x), Some(y)) => Some(if x <= y then y else x)
  }

  /** The latest Unix second that a tick in `es` reads, if `es` holds a tick. */
  function LatestClock(es: seq<Event>): (r: Option<int>)
    ensures r.None? <==> CountTicks(es) == 0
  {
    if es == [] then None
    else MaxOf(if es[0].Tick? then Some(UnixSeconds(es[0].nowNanos)) else None, LatestClock(es[1..]))
  }

  /** Where the first stop signal in `es` is. */
  function FirstDone(es: seq<Event>): (k: nat)
    requires Done in es
    ensures k < |es| && es[k] == Done && Done !in es[..k]
  {
    if es[0] == Done then 0
    else
      var k := FirstDone(es[1..]);
      assert es[..k + 1] == [es[0]] + es[1..][..k];
      k + 1
  }

  /** `m` swept once at `latest`, or left alone when there was no sweep. */
  function SweptTo<V>(m: map<string, Entry<V>>, latest: Option<int>): map<string, Entry<V>>
  {
    match latest
    case None => m
    case Some(now) => Sweep(m, now)
  }

  /** A sweep followed by the sweeps of later ticks is one sweep at the latest of their clocks. */
  lemma SweptToAfterSweep<V>(m: map<string, Entry<V>>, now: int, later: Option<int>)
    ensures SweptTo(Sweep(m, now), later) == SweptTo(m, MaxOf(Some(now), later))
  {
  }
}
