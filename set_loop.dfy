/** The frame scheduler of `worlds/world/system/Loop.ts`: a `Set` of update
    callbacks, an idempotent start/stop flag and a tick that computes the
    time since the previous tick, calls every callback once and renders.
    Callbacks are opaque handles; the clock is an input; rendering is a
    logged event. */
module SetLoop {
  import opened Wrappers
  import opened Seqs
  import opened Frames
  import opened NotInitialized

  /** A callback `(delta, elapsedTime) => unknown`, by identity. */
  type Updatable = nat

  /** The camera, scene and renderer the loop is built with. */
  datatype Dependencies = Dependencies(camera: nat, scene: nat, renderer: nat)

  /** `Set.prototype.add` on the set's elements in insertion order: a new
      element goes last, a present one keeps its place. */
  function Inserted(s: seq<Updatable>, x: Updatable): (r: seq<Updatable>)
    ensures x in r
    ensures forall y :: y in r <==> y in s || y == x
    ensures |s| <= |r| && r[..|s|] == s
  {
    if x in s then s else s + [x]
  }

  lemma InsertedKeepsNoDup(s: seq<Updatable>, x: Updatable)
    requires NoDup(s)
    ensures NoDup(Inserted(s, x))
  {
    if x !in s {
      var r := s + [x];
      forall i, j | 0 <= i < j < |r| ensures r[i] != r[j] {
        if j == |s| {
          assert r[i] == s[i];
        }
      }
    }
  }

  /** `add(fn); remove(fn)` with a callback that was not registered restores
      the set, order included. */
  lemma AddThenRemoveRestores(s: seq<Updatable>, x: Updatable)
    requires x !in s
    ensures Remove(Inserted(s, x), x) == s
  {
    RemoveAppended(s, x);
  }

  /** `updatable.forEach((fn) => this.updatables.add(fn))`. */
  function InsertedAll(s: seq<Updatable>, xs: seq<Updatable>): seq<Updatable>
  {
    if xs == [] then s else Inserted(InsertedAll(s, xs[..|xs| - 1]), xs[|xs| - 1])
  }

  /** `updatable.forEach((fn) => this.updatables.delete(fn))`. */
  function RemovedAll(s: seq<Updatable>, xs: seq<Updatable>): seq<Updatable>
  {
    if xs == [] then s else Remove(RemovedAll(s, xs[..|xs| - 1]), xs[|xs| - 1])
  }

  /** Adding an array leaves exactly the old elements and the array's, the
      old ones first and in their order, with no element twice. */
  lemma {:induction false} InsertedAllSpec(s: seq<Updatable>, xs: seq<Updatable>)
    requires NoDup(s)
    ensures NoDup(InsertedAll(s, xs))
    ensures forall y :: y in InsertedAll(s, xs) <==> y in s || y in xs
    ensures |s| <= |InsertedAll(s, xs)| && InsertedAll(s, xs)[..|s|] == s
  {
    if xs != [] {
      var init := xs[..|xs| - 1];
      InsertedAllSpec(s, init);
      InsertedKeepsNoDup(InsertedAll(s, init), xs[|xs| - 1]);
      assert xs == init + [xs[|xs| - 1]];
    }
  }

  /** Removing an array leaves exactly the old elements not in the array,
      with no element twice. */
  lemma {:induction false} RemovedAllSpec(s: seq<Updatable>, xs: seq<Updatable>)
    requires NoDup(s)
    ensures NoDup(RemovedAll(s, xs))
    ensures forall y :: y in RemovedAll(s, xs) <==> y in s && y !in xs
  {
    if xs != [] {
      var init := xs[..|xs| - 1];
      RemovedAllSpec(s, init);
      RemoveKeepsNoDup(RemovedAll(s, init), xs[|xs| - 1]);
      assert xs == init + [xs[|xs| - 1]];
    }
  }

  /** The single-element forms are the array forms on a one-element array. */
  lemma SingleIsArrayOfOne(s: seq<Updatable>, x: Updatable)
    ensures InsertedAll(s, [x]) == Inserted(s, x)
    ensures RemovedAll(s, [x]) == Remove(s, x)
  {
    assert [x][..0] == [];
  }

  class Loop {
    /** `updatables`, in insertion order. */
    var updatables: seq<Updatable>
    var isRunning: bool
    /** Whether a frame callback is installed with `setAnimationLoop`. */
    var animating: bool
    var previousTime: real
    /** Every callback call and render so far, in order. */
    var log: seq<FrameEvent>
    const deps: Dependencies
    /** The elapsed time read at the latest `start`, the elapsed times of the
        ticks since then, and the deltas those ticks handed out. */
    ghost var startedAt: real
    ghost var frameTimes: seq<real>
    ghost var deltas: seq<real>

    ghost predicate Valid()
      reads this
    {
      && NoDup(updatables)
      && animating == isRunning
      && (isRunning ==> previousTime == LastTime(startedAt, frameTimes) && deltas == Deltas(startedAt, frameTimes))
    }

    constructor (deps: Dependencies)
      ensures Valid()
      ensures updatables == [] && !isRunning && !animating && previousTime == 0.0 && log == []
      ensures this.deps == deps
    {
      this.deps := deps;
      updatables := [];
      isRunning := false;
      animating := false;
      previousTime := 0.0;
      log := [];
    }

    /** `add(updatable)`: each element is added in turn; an element already
        present changes nothing. */
    method Add(arg: OneOrMany<Updatable>)
      requires Valid()
      modifies this`updatables
      ensures Valid()
      ensures updatables == InsertedAll(old(updatables), Items(arg))
    {
      match arg
      case One(x) =>
        SingleIsArrayOfOne(updatables, x);
        InsertedKeepsNoDup(updatables, x);
        updatables := Inserted(updatables, x);
      case Many(xs) =>
        var i := 0;
        while i < |xs|
          invariant 0 <= i <= |xs|
          invariant Valid()
          invariant updatables == InsertedAll(old(updatables), xs[..i])
        {
          assert xs[..i + 1][..i] == xs[..i];
          InsertedKeepsNoDup(updatables, xs[i]);
          updatables := Inserted(updatables, xs[i]);
          i := i + 1;
        }
        assert xs[..i] == xs;
    }

    /** `remove(updatable)`: each element is deleted in turn; an absent
        element changes nothing. */
    method Remove(arg: OneOrMany<Updatable>)
      requires Valid()
      modifies this`updatables
      ensures Valid()
      ensures updatables == RemovedAll(old(updatables), Items(arg))
    {
      match arg
      case One(x) =>
        SingleIsArrayOfOne(updatables, x);
        RemoveKeepsNoDup(updatables, x);
        updatables := Seqs.Remove(updatables, x);
      case Many(xs) =>
        var i := 0;
        while i < |xs|
          invariant 0 <= i <= |xs|
          invariant Valid()
          invariant updatables == RemovedAll(old(updatables), xs[..i])
        {
          assert xs[..i + 1][..i] == xs[..i];
          RemoveKeepsNoDup(updatables, xs[i]);
          updatables := Seqs.Remove(updatables, xs[i]);
          i := i + 1;
        }
        assert xs[..i] == xs;
    }

    /** `start()`; `now` is the clock's elapsed time right after
        `clock.start()`. A running loop is left as it is. */
    method Start(now: real)
      requires Valid()
      modifies this`isRunning, this`animating, this`previousTime, this`startedAt, this`frameTimes, this`deltas
      ensures Valid()
      ensures old(isRunning) ==> unchanged(this)
      ensures !old(isRunning) ==>
        && isRunning && animating && previousTime == now
        && startedAt == now && frameTimes == [] && deltas == []
    {
      if isRunning {
        return;
      }
      isRunning := true;
      previousTime := now;
      startedAt, frameTimes, deltas := now, [], [];
      animating := true;
    }

    /** `stop()`: detaches the frame callback. A stopped loop is left as it
        is. */
    method Stop()
      requires Valid()
      modifies this`isRunning, this`animating
      ensures Valid()
      ensures old(isRunning) ==> !isRunning && !animating
      ensures !old(isRunning) ==> unchanged(this)
    {
      if !isRunning {
        return;
      }
      isRunning := false;
      animating := false;
    }

    /** The renderer asks for a frame and the clock reads `elapsed`: nothing
        happens without an installed callback; otherwise the tick closure
        runs. */
    method Frame(elapsed: real)
      requires Valid()
      modifies this`previousTime, this`log, this`frameTimes, this`deltas
      ensures Valid()
      ensures !animating ==> unchanged(this)
      ensures animating ==>
        && previousTime == elapsed
        && log == old(log) + TickEvents(updatables, elapsed - old(previousTime), elapsed) + [Render]
        && frameTimes == old(frameTimes) + [elapsed]
        && deltas == old(deltas) + [elapsed - old(previousTime)]
    {
      if !animating {
        return;
      }
      var delta := elapsed - previousTime;
      previousTime := elapsed;
      DeltasAppend(startedAt, frameTimes, elapsed);
      frameTimes := frameTimes + [elapsed];
      deltas := deltas + [delta];
      UpdateAll(delta, elapsed);
      log := log + [Render];
    }

    /** `this.updatables.forEach((update) => update(delta, elapsedTime))`. */
    method UpdateAll(delta: real, elapsed: real)
      modifies this`log
      ensures log == old(log) + TickEvents(updatables, delta, elapsed)
    {
      var i := 0;
      while i < |updatables|
        invariant 0 <= i <= |updatables|
        invariant log == old(log) + TickEvents(updatables[..i], delta, elapsed)
      {
        assert updatables[..i + 1][..i] == updatables[..i];
        log := log + [Update(updatables[i], delta, elapsed)];
        i := i + 1;
      }
      assert updatables[..i] == updatables;
    }

    /** While the loop runs, the deltas handed out since `start` add up to
        the time elapsed between `start` and the latest tick. */
    lemma DeltasSumToElapsed()
      requires Valid() && isRunning
      ensures Sum(deltas) == previousTime - startedAt
    {
      DeltasTelescope(startedAt, frameTimes);
    }
  }

  /** The module-level `loopInstance` and the `loop` proxy. */
  class LoopSingleton {
    var instance: Loop?

    constructor ()
      ensures instance == null
    {
      instance := null;
    }

    /** `createLoop(dependencies)`: builds the loop on the first call and
        returns that same loop, ignoring the dependencies, afterwards. */
    method CreateLoop(deps: Dependencies) returns (r: Loop)
      modifies this
      ensures instance == r
      ensures old(instance) != null ==> r == old(instance)
      ensures old(instance) == null ==>
        (fresh(r) && r.Valid() && r.deps == deps && r.updatables == [] && !r.isRunning)
    {
      if instance == null {
        instance := new Loop(deps);
      }
      r := instance;
    }

    /** A property access through the `loop` proxy. */
    method Access() returns (r: Result<Loop, NotInitializedError>)
      ensures instance == null ==> r == Failure(ClassNotInitializedError("Loop"))
      ensures instance != null ==> r == Success(instance)
    {
      if instance == null {
        r := Failure(ClassNotInitializedError("Loop"));
      } else {
        r := Success(instance);
      }
    }
  }
}
