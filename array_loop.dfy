/** The frame scheduler of `src/world/system/Loop.ts`: an array of objects
    with a `tick(delta, elapsedTime)` method, so the same object may be
    registered twice, and `remove` takes out only its first occurrence. The
    start/stop flag and the tick's time rule are those of the set-based
    loop. */
module ArrayLoop {
  import opened Wrappers
  import opened Seqs
  import opened Frames
  import opened NotInitialized

  /** An object with a `tick` method, by identity. */
  type Updatable = nat

  datatype Dependencies = Dependencies(camera: nat, scene: nat, renderer: nat)

  /** `object.forEach((obj) => this.removeUpdatable(obj))`. */
  function RemovedFirstAll(s: seq<Updatable>, xs: seq<Updatable>): seq<Updatable>
  {
    if xs == [] then s else RemoveFirst(RemovedFirstAll(s, xs[..|xs| - 1]), xs[|xs| - 1])
  }

  /** Removing an array takes one occurrence out per element of the array,
      as far as there are occurrences to take. */
  lemma {:induction false} RemovedFirstAllMultiset(s: seq<Updatable>, xs: seq<Updatable>)
    ensures multiset(RemovedFirstAll(s, xs)) == multiset(s) - multiset(xs)
  {
    if xs != [] {
      var init := xs[..|xs| - 1];
      RemovedFirstAllMultiset(s, init);
      RemoveFirstMultiset(RemovedFirstAll(s, init), xs[|xs| - 1]);
      assert xs == init + [xs[|xs| - 1]];
      assert multiset(xs) == multiset(init) + multiset{xs[|xs| - 1]};
      MinusRegroups(multiset(s), multiset(init), multiset{xs[|xs| - 1]});
    }
  }

  /** Taking out `b` and then `c` takes out `b + c`. */
  lemma MinusRegroups(a: multiset<Updatable>, b: multiset<Updatable>, c: multiset<Updatable>)
    ensures a - b - c == a - (b + c)
  {
    forall e ensures (a - b - c)[e] == (a - (b + c))[e] {
    }
  }

  /** `add(x); remove(x)` with an object that was not registered restores the
      array. */
  lemma AddThenRemoveRestores(s: seq<Updatable>, x: Updatable)
    requires x !in s
    ensures RemovedFirstAll(s + [x], [x]) == s
  {
    assert [x][..0] == [];
    RemoveFirstAppended(s, x);
  }

  /** An object added twice is ticked twice in every frame, and removing it
      once leaves it ticked once. */
  lemma AddedTwiceTickedTwice(s: seq<Updatable>, x: Updatable, delta: real, elapsed: real)
    requires x !in s
    ensures multiset(TickEvents(s + [x, x], delta, elapsed))[Update(x, delta, elapsed)] == 2
    ensures multiset(TickEvents(RemoveFirst(s + [x, x], x), delta, elapsed))[Update(x, delta, elapsed)] == 1
  {
    TickEventsCount(s + [x, x], x, delta, elapsed);
    assert multiset(s + [x, x]) == multiset(s) + multiset{x, x};
    RemoveFirstMultiset(s + [x, x], x);
    TickEventsCount(RemoveFirst(s + [x, x], x), x, delta, elapsed);
  }

  class Loop {
    /** `updatables`, in array order, duplicates allowed. */
    var updatables: seq<Updatable>
    var isRunning: bool
    var animating: bool
    var previousTime: real
    var log: seq<FrameEvent>
    const deps: Dependencies
    ghost var startedAt: real
    ghost var frameTimes: seq<real>
    ghost var deltas: seq<real>

    ghost predicate Valid()
      reads this
    {
      && animating == isRunning
      && (isRunning ==> previousTime == LastTime(startedAt, frameTimes) && deltas == Deltas(startedAt, frameTimes))
    }

    constructor (deps: Dependencies)
      ensures Valid()
      ensures updatables == [] && !isRunning && !animating && previousTime == 0.0 && log == []
      ensures this.deps == deps
    {
      this.deps := deps;
      updatables := [];
      isRunning := false;
      animating := false;
      previousTime := 0.0;
      log := [];
    }

    /** `addUpdatable(object)`: `push`, whether or not it is already there. */
    method AddUpdatable(x: Updatable)
      modifies this`updatables
      ensures updatables == old(updatables) + [x]
      ensures multiset(updatables)[x] == multiset(old(updatables))[x] + 1
    {
      updatables := updatables + [x];
    }

    /** `removeUpdatable(object)`: `splice(indexOf(object), 1)` when the index
        is not -1. */
    method RemoveUpdatable(x: Updatable)
      modifies this`updatables
      ensures updatables == RemoveFirst(old(updatables), x)
      ensures multiset(updatables) == multiset(old(updatables)) - multiset{x}
    {
      SpliceRemovesFirst(updatables, x);
      RemoveFirstMultiset(updatables, x);
      var index := IndexOf(updatables, x);
      if index != -1 {
        updatables := updatables[..index] + updatables[index + 1..];
      }
    }

    /** `add(object)`: every element is appended in order. */
    method Add(arg: OneOrMany<Updatable>)
      modifies this`updatables
      ensures updatables == old(updatables) + Items(arg)
    {
      match arg
      case One(x) =>
        AddUpdatable(x);
      case Many(xs) =>
        var i := 0;
        while i < |xs|
          invariant 0 <= i <= |xs|
          invariant updatables == old(updatables) + xs[..i]
        {
          assert xs[..i + 1] == xs[..i] + [xs[i]];
          AddUpdatable(xs[i]);
          i := i + 1;
        }
        assert xs[..i] == xs;
    }

    /** `remove(object)`: the first occurrence of each element, in order. */
    method Remove(arg: OneOrMany<Updatable>)
      modifies this`updatables
      ensures updatables == RemovedFirstAll(old(updatables), Items(arg))
    {
      match arg
      case One(x) =>
        assert [x][..0] == [];
        RemoveUpdatable(x);
      case Many(xs) =>
        var i := 0;
        while i < |xs|
          invariant 0 <= i <= |xs|
          invariant updatables == RemovedFirstAll(old(updatables), xs[..i])
        {
          assert xs[..i + 1][..i] == xs[..i];
          RemoveUpdatable(xs[i]);
          i := i + 1;
        }
        assert xs[..i] == xs;
    }

    /** `start()`; `now` is the clock's elapsed time right after
        `clock.start()`. */
    method Start(now: real)
      requires Valid()
      modifies this`isRunning, this`animating, this`previousTime, this`startedAt, this`frameTimes, this`deltas
      ensures Valid()
      ensures old(isRunning) ==> unchanged(this)
      ensures !old(isRunning) ==>
        && isRunning && animating && previousTime == now
        && startedAt == now && frameTimes == [] && deltas == []
    {
      if isRunning {
        return;
      }
      isRunning := true;
      previousTime := now;
      startedAt, frameTimes, deltas := now, [], [];
      animating := true;
    }

    /** `stop()`. */
    method Stop()
      requires Valid()
      modifies this`isRunning, this`animating
      ensures Valid()
      ensures old(isRunning) ==> !isRunning && !animating
      ensures !old(isRunning) ==> unchanged(this)
    {
      if !isRunning {
        return;
      }
      isRunning := false;
      animating := false;
    }

    /** An animation frame with the clock at `elapsed`: the tick closure runs
        only while installed. */
    method Frame(elapsed: real)
      requires Valid()
      modifies this`previousTime, this`log, this`frameTimes, this`deltas
      ensures Valid()
      ensures !animating ==> unchanged(this)
      ensures animating ==>
        && previousTime == elapsed
        && log == old(log) + TickEvents(updatables, elapsed - old(previousTime), elapsed) + [Render]
        && frameTimes == old(frameTimes) + [elapsed]
        && deltas == old(deltas) + [elapsed - old(previousTime)]
    {
      if !animating {
        return;
      }
      var delta := elapsed - previousTime;
      previousTime := elapsed;
      DeltasAppend(startedAt, frameTimes, elapsed);
      frameTimes := frameTimes + [elapsed];
      deltas := deltas + [delta];
      TickAll(delta, elapsed);
      log := log + [Render];
    }

    /** `for (const object of this.updatables) object.tick(delta, elapsedTime)`. */
    method TickAll(delta: real, elapsed: real)
      modifies this`log
      ensures log == old(log) + TickEvents(updatables, delta, elapsed)
    {
      var i := 0;
      while i < |updatables|
        invariant 0 <= i <= |updatables|
        invariant log == old(log) + TickEvents(updatables[..i], delta, elapsed)
      {
        assert updatables[..i + 1][..i] == updatables[..i];
        log := log + [Update(updatables[i], delta, elapsed)];
        i := i + 1;
      }
      assert updatables[..i] == updatables;
    }

    /** While the loop runs, the deltas since `start` add up to the time
        elapsed between `start` and the latest tick. */
    lemma DeltasSumToElapsed()
      requires Valid() && isRunning
      ensures Sum(deltas) == previousTime - startedAt
    {
      DeltasTelescope(startedAt, frameTimes);
    }
  }

  /** The module-level `loopInstance` and the `loop` proxy. */
  class LoopSingleton {
    var instance: Loop?

    constructor ()
      ensures instance == null
    {
      instance := null;
    }

    /** `createLoop(dependencies)`: idempotent; later dependencies are
        ignored. */
    method CreateLoop(deps: Dependencies) returns (r: Loop)
      modifies this
      ensures instance == r
      ensures old(instance) != null ==> r == old(instance)
      ensures old(instance) == null ==>
        (fresh(r) && r.Valid() && r.deps == deps && r.updatables == [] && !r.isRunning)
    {
      if instance == null {
        instance := new Loop(deps);
      }
      r := instance;
    }

    /** A property access through the `loop` proxy. */
    method Access() returns (r: Result<Loop, NotInitializedError>)
      ensures instance == null ==> r == Failure(ClassNotInitializedError("Loop"))
      ensures instance != null ==> r == Success(instance)
    {
      if instance == null {
        r := Failure(ClassNotInitializedError("Loop"));
      } else {
        r := Success(instance);
      }
    }
  }
}
