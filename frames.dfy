/** What the two frame schedulers share: the `delta`/`previousTime` rule of
    the tick, the calls one tick makes, and the `T | T[]` argument of their
    `add` and `remove`. Times are the seconds `Clock.getElapsedTime` reports,
    modelled as reals. */
module Frames {

  /** One thing a tick does: call an updatable with `(delta, elapsedTime)`,
      or render the scene. */
  datatype FrameEvent = Update(target: nat, delta: real, elapsed: real) | Render

  /** An argument that is either one element or an array of them. */
  datatype OneOrMany<T> = One(item: T) | Many(items: seq<T>)

  /** The elements an argument stands for, in the order they are applied. */
  function Items<T>(a: OneOrMany<T>): (r: seq<T>)
    ensures a.One? ==> r == [a.item]
    ensures a.Many? ==> r == a.items
  {
    match a
    case One(x) => [x]
    case Many(xs) => xs
  }

  function Sum(xs: seq<real>): real
  {
    if xs == [] then 0.0 else Sum(xs[..|xs| - 1]) + xs[|xs| - 1]
  }

  /** `previousTime` after ticks at `times`, when the loop started at `start`. */
  function LastTime(start: real, times: seq<real>): (t: real)
    ensures times == [] ==> t == start
    ensures times != [] ==> t == times[|times| - 1]
  {
    if times == [] then start else times[|times| - 1]
  }

  /** The `delta` each tick computes: its elapsed time minus the elapsed time
      of the tick before, or of `start` for the first tick. */
  function Deltas(start: real, times: seq<real>): seq<real>
  {
    if times == [] then []
    else
      var earlier := times[..|times| - 1];
      Deltas(start, earlier) + [times[|times| - 1] - LastTime(start, earlier)]
  }

  /** One delta per tick; the newest is measured from the previous tick. */
  lemma DeltasAppend(start: real, times: seq<real>, t: real)
    ensures Deltas(start, times + [t]) == Deltas(start, times) + [t - LastTime(start, times)]
  {
    var s := times + [t];
    assert s[..|s| - 1] == times && s[|s| - 1] == t;
  }

  lemma {:induction false} DeltasLength(start: real, times: seq<real>)
    ensures |Deltas(start, times)| == |times|
  {
    if times != [] {
      DeltasLength(start, times[..|times| - 1]);
    }
  }

  /** The deltas handed out since `start` telescope: they add up to the
      latest elapsed time minus the elapsed time at start. */
  lemma {:induction false} DeltasTelescope(start: real, times: seq<real>)
    ensures Sum(Deltas(start, times)) == LastTime(start, times) - start
  {
    if times != [] {
      var earlier := times[..|times| - 1];
      DeltasTelescope(start, earlier);
      var ds := Deltas(start, earlier);
      var d := times[|times| - 1] - LastTime(start, earlier);
      assert (ds + [d])[..|ds + [d]| - 1] == ds;
    }
  }

  /** The updates of one tick: each target, in order, with the same `delta`
      and `elapsed`. */
  function TickEvents(targets: seq<nat>, delta: real, elapsed: real): seq<FrameEvent>
  {
    if targets == [] then []
    else TickEvents(targets[..|targets| - 1], delta, elapsed) + [Update(targets[|targets| - 1], delta, elapsed)]
  }

  /** A tick calls the targets in their order, every call with the tick's
      `delta` and `elapsed`. */
  lemma {:induction false} TickEventsInOrder(targets: seq<nat>, delta: real, elapsed: real)
    ensures |TickEvents(targets, delta, elapsed)| == |targets|
    ensures forall i :: 0 <= i < |targets| ==> TickEvents(targets, delta, elapsed)[i] == Update(targets[i], delta, elapsed)
  {
    if targets != [] {
      var earlier := targets[..|targets| - 1];
      TickEventsInOrder(earlier, delta, elapsed);
      assert forall i :: 0 <= i < |earlier| ==> targets[i] == earlier[i];
    }
  }

  /** A target is updated once per occurrence among the targets: once for a
      member of a set, twice for an object pushed twice onto an array, never
      for one that is absent. */
  lemma {:induction false} TickEventsCount(targets: seq<nat>, t: nat, delta: real, elapsed: real)
    ensures multiset(TickEvents(targets, delta, elapsed))[Update(t, delta, elapsed)] == multiset(targets)[t]
  {
    if targets != [] {
      var earlier := targets[..|targets| - 1];
      TickEventsCount(earlier, t, delta, elapsed);
      assert targets == earlier + [targets[|targets| - 1]];
    }
  }
}
