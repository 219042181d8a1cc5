/**
 * The library copy's stale-data cleaner (cache.go). Its select either runs
 * one clean on a tick or, on the stop signal, leaves the labelled for loop,
 * after which the goroutine calls wg.Done once and ends.
 */
module Cleaner {
  import opened Store
  import opened Events

  /** One pass of the loop. Once stopped the goroutine has ended and receives nothing. */
  function Step<V>(s: Loop<V>, e: Event): Loop<V>
  {
    if s.phase == Stopped then s
    else match e
      case Tick(n) => s.(store := Sweep(s.store, UnixSeconds(n)), cleans := s.cleans + 1)
      case Done => s.(phase := Stopped, wgDone := s.wgDone + 1)
  }

  /** The labelled for loop over the events offered to it: it shrinks the map only, cleans at most once per event and calls wg.Done at most once. */
  function Run<V>(s: Loop<V>, es: seq<Event>): (r: Loop<V>)
    ensures IsSubMap(r.store, s.store)
    ensures s.cleans <= r.cleans <= s.cleans + |es|
    ensures r.wgDone <= s.wgDone + (if s.phase == Running then 1 else 0)
    decreases |es|
  {
    if es == [] then s else Run(Step(s, es[0]), es[1..])
  }

  /** After the loop has stopped, no later event changes anything: in particular no clean runs. */
  lemma {:induction false} StoppedAbsorbs<V>(s: Loop<V>, es: seq<Event>)
    requires s.phase == Stopped
    ensures Run(s, es) == s
    decreases |es|
  {
    if es != [] {
      StoppedAbsorbs(Step(s, es[0]), es[1..]);
    }
  }

  /**
   * Running over two segments in turn is running over both. (Usage note: a
   * caller's Get/Set/Delete between two segments is modelled by running the
   * second segment from a state whose store that operation has changed.)
   */
  lemma {:induction false} RunAppend<V>(s: Loop<V>, a: seq<Event>, b: seq<Event>)
    ensures Run(s, a + b) == Run(Run(s, a), b)
    decreases |a|
  {
    if a != [] {
      assert (a + b)[0] == a[0];
      assert (a + b)[1..] == a[1..] + b;
      RunAppend(Step(s, a[0]), a[1..], b);
    } else {
      assert a + b == b;
    }
  }

  /** Without a stop signal a running loop cleans once per tick, and the map ends as one sweep at the latest clock. */
  lemma {:induction false} RunWithoutDone<V>(s: Loop<V>, es: seq<Event>)
    requires s.phase == Running
    requires Done !in es
    ensures Run(s, es) == Loop(Running, SweptTo(s.store, LatestClock(es)), s.cleans + |es|, s.wgDone)
    decreases |es|
  {
    if es != [] {
      var n := es[0].nowNanos;
      assert es[0] == Tick(n);
      assert Done !in es[1..] by { assert forall j :: 0 <= j < |es| - 1 ==> es[1..][j] == es[j + 1]; }
      RunWithoutDone(Step(s, es[0]), es[1..]);
      SweptToAfterSweep(s.store, UnixSeconds(n), LatestClock(es[1..]));
    }
  }

  /** The first stop signal, at index k, ends the loop: the ticks before it cleaned, wg.Done is called once, nothing after it counts. */
  lemma RunStopsAtFirstDone<V>(s: Loop<V>, es: seq<Event>, k: nat)
    requires s.phase == Running
    requires k < |es| && es[k] == Done && Done !in es[..k]
    ensures Run(s, es) == Loop(Stopped, SweptTo(s.store, LatestClock(es[..k])), s.cleans + k, s.wgDone + 1)
  {
    assert es == es[..k] + ([Done] + es[k + 1..]);
    RunAppend(s, es[..k], [Done] + es[k + 1..]);
    RunWithoutDone(s, es[..k]);
    var stopped := Step(Run(s, es[..k]), Done);
    assert ([Done] + es[k + 1..])[1..] == es[k + 1..];
    StoppedAbsorbs(stopped, es[k + 1..]);
  }

  /** From launch, the loop has stopped exactly when a stop signal came, and then wg.Done was called exactly once (never otherwise). */
  lemma StopIffDone<V>(m: map<string, Entry<V>>, es: seq<Event>)
    ensures Run(Start(m), es).phase == Stopped <==> Done in es
    ensures Run(Start(m), es).wgDone == if Done in es then 1 else 0
  {
    if Done in es {
      RunStopsAtFirstDone(Start(m), es, FirstDone(es));
    } else {
      RunWithoutDone(Start(m), es);
    }
  }

  /** Events after the loop has stopped have no effect. */
  lemma NoCleanAfterStop<V>(s: Loop<V>, es: seq<Event>, more: seq<Event>)
    requires Run(s, es).phase == Stopped
    ensures Run(s, es + more) == Run(s, es)
  {
    RunAppend(s, es, more);
    StoppedAbsorbs(Run(s, es), more);
  }

  /** StartStaleDataCleaner's goroutine on the events offered to it: it returns how many events it consumed before it exited. */
  method StartStaleDataCleaner<V>(c: Cache<V>, events: seq<Event>) returns (phase: Phase, cleans: nat, wgDone: nat, consumed: nat)
    modifies c
    ensures Run(Start(old(c.data)), events) == Loop(phase, c.data, cleans, wgDone)
    ensures consumed <= |events|
    ensures phase == Running ==> consumed == |events| && Done !in events
    ensures phase == Stopped ==> 0 < consumed && events[consumed - 1] == Done && Done !in events[..consumed - 1]
  {
    ghost var start := Start(c.data);
    phase, cleans, wgDone, consumed := Running, 0, 0, 0;
    while consumed < |events| && phase == Running
      invariant consumed <= |events|
      invariant wgDone == 0
      invariant Run(start, events) == Run(Loop(phase, c.data, cleans, if phase == Stopped then 1 else 0), events[consumed..])
      invariant phase == Running ==> Done !in events[..consumed]
      invariant phase == Stopped ==> 0 < consumed && events[consumed - 1] == Done && Done !in events[..consumed - 1]
      decreases |events| - consumed
    {
      assert events[consumed..][1..] == events[consumed + 1..];
      assert events[..consumed + 1] == events[..consumed] + [events[consumed]];
      match events[consumed] {
        case Tick(n) =>
          c.Clean(n);
          cleans := cleans + 1;
        case Done =>
          phase := Stopped;  // break inf_loop
      }
      consumed := consumed + 1;
    }
    if phase == Stopped {
      wgDone := wgDone + 1;
      StoppedAbsorbs(Loop(phase, c.data, cleans, wgDone), events[consumed..]);
    } else {
      assert events[..consumed] == events;
    }
  }

  /** NewGenericMemoryCache: an empty store whose cleaner has been launched. */
  method NewGenericMemoryCache<V>() returns (c: Cache<V>, phase: Phase)
    ensures fresh(c) && c.data == map[]
    ensures phase == Running
  {
    c := new Cache();
    phase := Running;
  }
}
