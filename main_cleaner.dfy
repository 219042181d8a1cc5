/**
 * The program copy's stale-data cleaner (main.go). Its select runs one clean
 * on a tick; on the stop signal it calls wg.Done and then `break`, which in
 * Go leaves only the select, so the for loop goes on receiving events and
 * never ends. (This copy also adds to the WaitGroup both in
 * NewGenericMemoryCache and in StartStaleDataCleaner, and once doneCh is
 * closed every later select may take the stop branch again; the WaitGroup
 * counter itself is not modelled, only the wg.Done calls.)
 */
module MainCleaner {
  import opened Store
  import opened Events
  import Cleaner

  /** One pass of the for loop: the phase never changes. */
  function Step<V>(s: Loop<V>, e: Event): Loop<V>
  {
    match e
    case Tick(n) => s.(store := Sweep(s.store, UnixSeconds(n)), cleans := s.cleans + 1)
    case Done => s.(wgDone := s.wgDone + 1)
  }

  /** The for loop over the events offered to it: it never stops, shrinks the map only, and counts every event once. */
  function Run<V>(s: Loop<V>, es: seq<Event>): (r: Loop<V>)
    ensures r.phase == s.phase
    ensures IsSubMap(r.store, s.store)
    ensures r.cleans + r.wgDone == s.cleans + s.wgDone + |es|
    decreases |es|
  {
    if es == [] then s else Run(Step(s, es[0]), es[1..])
  }

  /**
   * The loop in closed form: every tick, before or after a stop signal, runs
   * one clean (together one sweep at the latest clock), every stop signal
   * calls wg.Done once, and the phase stays what it was.
   */
  lemma {:induction false} RunInClosedForm<V>(s: Loop<V>, es: seq<Event>)
    ensures Run(s, es) == Loop(s.phase, SweptTo(s.store, LatestClock(es)), s.cleans + CountTicks(es), s.wgDone + CountDones(es))
    decreases |es|
  {
    if es != [] {
      RunInClosedForm(Step(s, es[0]), es[1..]);
      match es[0]
      case Tick(n) => SweptToAfterSweep(s.store, UnixSeconds(n), LatestClock(es[1..]));
      case Done =>
    }
  }

  /** From launch, whatever events are offered to it, the loop never stops. */
  lemma NeverStops<V>(m: map<string, Entry<V>>, es: seq<Event>)
    ensures Run(Start(m), es).phase == Running
    ensures Run(Start(m), es).wgDone == CountDones(es)
    ensures Run(Start(m), es).cleans == CountTicks(es)
  {
    RunInClosedForm(Start(m), es);
  }

  /**
   * A stop signal followed by a tick: this copy stays running, cleans after
   * the stop and evicts the entry expired at the tick's clock, where the
   * library copy stops and leaves the map alone.
   */
  lemma DoneDoesNotStop<V>(v: V, n: int)
    ensures var m := map["k" := Entry(v, UnixSeconds(n))];
            var es := [Done, Tick(n)];
            && Run(Start(m), es) == Loop(Running, map[], 1, 1)
            && Cleaner.Run(Start(m), es) == Loop(Stopped, m, 0, 1)
  {
    var m := map["k" := Entry(v, UnixSeconds(n))];
    var es := [Done, Tick(n)];
    assert es[1..] == [Tick(n)] && es[1..][1..] == [];
    var afterDone := Step(Start(m), Done);
    assert Run(Start(m), es) == Run(Step(afterDone, Tick(n)), []);
    assert Sweep(m, UnixSeconds(n)).Keys == {};
    var stopped := Cleaner.Step(Start(m), Done);
    assert Cleaner.Run(Start(m), es) == Cleaner.Run(Cleaner.Step(stopped, Tick(n)), []);
  }

  /** StartStaleDataCleaner's goroutine on the events offered to it; it consumes all of them, since nothing ends its loop. */
  method StartStaleDataCleaner<V>(c: Cache<V>, events: seq<Event>) returns (phase: Phase, cleans: nat, wgDone: nat)
    modifies c
    ensures Run(Start(old(c.data)), events) == Loop(phase, c.data, cleans, wgDone)
  {
    ghost var start := Start(c.data);
    phase, cleans, wgDone := Running, 0, 0;
    var i := 0;
    while i < |events|
      invariant i <= |events|
      invariant Run(start, events) == Run(Loop(phase, c.data, cleans, wgDone), events[i..])
    {
      assert events[i..][1..] == events[i + 1..];
      match events[i] {
        case Tick(n) =>
          c.Clean(n);
          cleans := cleans + 1;
        case Done =>
          wgDone := wgDone + 1;
          // `break` here leaves the select only
      }
      i := i + 1;
    }
  }

  /** NewGenericMemoryCache: an empty store whose cleaner has been launched. */
  method NewGenericMemoryCache<V>() returns (c: Cache<V>, phase: Phase)
    ensures fresh(c) && c.data == map[]
    ensures phase == Running
  {
    c := new Cache();
    phase := Running;
  }
}
