/** `AnimationManager`: a registry of named gsap timelines plus, for names
    that have no timeline yet, the callbacks waiting for one. Timelines and
    callbacks are opaque handles; what the manager does to them (notify,
    kill, pause, resume) is appended to a log. */
module Animations {
  import opened Wrappers
  import opened OrderedMaps

  /** A `gsap.core.Timeline`, by identity. */
  type Timeline = nat
  /** A `(animation) => void` callback, by identity. */
  type Listener = nat

  datatype Action = Kill | Pause | Resume

  /** What the manager does to the outside world. */
  datatype AnimEvent =
    | Notified(listener: Listener, timeline: Timeline)
    | Applied(action: Action, timeline: Timeline)

  /** The callbacks waiting for `name`, in registration order. */
  function Waiting(listeners: OMap<string, seq<Listener>>, name: string): (r: seq<Listener>)
    ensures name !in listeners.items ==> r == []
    ensures name in listeners.items ==> r == listeners.items[name]
  {
    match listeners.Get(name)
    case Some(ls) => ls
    case None => []
  }

  /** `listeners.forEach((callback) => callback(timeline))`. */
  function Notifications(ls: seq<Listener>, t: Timeline): seq<AnimEvent>
  {
    if ls == [] then [] else Notifications(ls[..|ls| - 1], t) + [Notified(ls[|ls| - 1], t)]
  }

  /** Every listener is called once, in registration order, with the new
      timeline. */
  lemma {:induction false} NotificationsSpec(ls: seq<Listener>, t: Timeline)
    ensures |Notifications(ls, t)| == |ls|
    ensures forall i :: 0 <= i < |ls| ==> Notifications(ls, t)[i] == Notified(ls[i], t)
  {
    if ls != [] {
      var init := ls[..|ls| - 1];
      NotificationsSpec(init, t);
      assert forall i :: 0 <= i < |init| ==> ls[i] == init[i];
    }
  }

  /** A callback queued by `onAnimationCreated` for a name is called, after
      the callbacks queued before it, when that name's timeline is created. */
  lemma QueuedListenerFires(listeners: OMap<string, seq<Listener>>, name: string, callback: Listener, t: Timeline)
    requires listeners.Valid()
    ensures var queued := Waiting(listeners.Set(name, Waiting(listeners, name) + [callback]), name);
      && |Notifications(queued, t)| == |Waiting(listeners, name)| + 1
      && Notifications(queued, t) == Notifications(Waiting(listeners, name), t) + [Notified(callback, t)]
  {
    var before := Waiting(listeners, name);
    var queued := before + [callback];
    assert Waiting(listeners.Set(name, queued), name) == queued;
    assert queued[..|queued| - 1] == before;
    NotificationsSpec(before, t);
  }

  /** `animations.forEach((timeline) => timeline.<action>())` over the keys
      `keys` of `items`, in map order. */
  function ApplyAll(a: Action, keys: seq<string>, items: map<string, Timeline>): seq<AnimEvent>
    requires forall k :: k in keys ==> k in items
  {
    if keys == [] then []
    else ApplyAll(a, keys[..|keys| - 1], items) + [Applied(a, items[keys[|keys| - 1]])]
  }

  /** The action reaches each stored timeline once, in map order. */
  lemma {:induction false} ApplyAllSpec(a: Action, keys: seq<string>, items: map<string, Timeline>)
    requires forall k :: k in keys ==> k in items
    ensures |ApplyAll(a, keys, items)| == |keys|
    ensures forall i :: 0 <= i < |keys| ==> ApplyAll(a, keys, items)[i] == Applied(a, items[keys[i]])
  {
    if keys != [] {
      var init := keys[..|keys| - 1];
      ApplyAllSpec(a, init, items);
      assert forall i :: 0 <= i < |init| ==> keys[i] == init[i];
    }
  }

  class AnimationManager {
    var animations: OMap<string, Timeline>
    var listeners: OMap<string, seq<Listener>>
    /** The handle the next `gsap.timeline()` returns; every call makes a new
        timeline. */
    var nextTimeline: Timeline
    var log: seq<AnimEvent>

    ghost predicate Valid()
      reads this
    {
      && animations.Valid() && listeners.Valid()
      && forall name :: name in animations.items ==> animations.items[name] < nextTimeline
    }

    constructor ()
      ensures Valid()
      ensures animations == Empty() && listeners == Empty() && log == []
    {
      animations := Empty();
      listeners := Empty();
      nextTimeline := 0;
      log := [];
    }

    /** `createAnimation(name)`: a new timeline replaces whatever was stored
        under `name`, and every callback waiting for `name` is called with
        it. The callbacks stay registered. Nothing is thrown, even when the
        name is taken. */
    method CreateAnimation(name: string) returns (t: Timeline)
      requires Valid()
      modifies this`animations, this`nextTimeline, this`log
      ensures Valid()
      ensures forall other :: other in old(animations.items) ==> t != old(animations.items[other])
      ensures animations == old(animations).Set(name, t)
      ensures log == old(log) + Notifications(Waiting(listeners, name), t)
    {
      t := nextTimeline;
      nextTimeline := nextTimeline + 1;
      animations := animations.Set(name, t);
      if name in listeners.items {
        Notify(listeners.items[name], t);
      }
    }

    /** `this.listeners.get(name)?.forEach((callback) => callback(timeline))`. */
    method Notify(ls: seq<Listener>, t: Timeline)
      modifies this`log
      ensures log == old(log) + Notifications(ls, t)
    {
      var i := 0;
      while i < |ls|
        invariant 0 <= i <= |ls|
        invariant log == old(log) + Notifications(ls[..i], t)
      {
        assert ls[..i + 1][..i] == ls[..i];
        log := log + [Notified(ls[i], t)];
        i := i + 1;
      }
      assert ls[..i] == ls;
    }

    /** `getAnimation(name)`: `undefined` exactly when no timeline is stored
        under `name`. */
    function GetAnimation(name: string): (r: Option<Timeline>)
      reads this
      ensures r.None? <==> name !in animations.items
      ensures r.Some? ==> r.value == animations.items[name]
    {
      animations.Get(name)
    }

    /** `killAnimation(name)`: kills and forgets the timeline under `name`;
        a no-op for an unknown name. */
    method KillAnimation(name: string)
      requires Valid()
      modifies this`animations, this`log
      ensures Valid()
      ensures name !in old(animations.items) ==> animations == old(animations) && log == old(log)
      ensures name in old(animations.items) ==>
        && animations == old(animations).Delete(name)
        && log == old(log) + [Applied(Kill, old(animations.items[name]))]
    {
      var timeline := animations.Get(name);
      if timeline.Some? {
        log := log + [Applied(Kill, timeline.value)];
        animations := animations.Delete(name);
      }
    }

    /** `forEach` over the stored timelines applying `a`, in map order. */
    method ApplyToAll(a: Action)
      requires Valid()
      modifies this`log
      ensures log == old(log) + ApplyAll(a, animations.keys, animations.items)
    {
      var keys := animations.keys;
      var i := 0;
      while i < |keys|
        invariant 0 <= i <= |keys|
        invariant log == old(log) + ApplyAll(a, keys[..i], animations.items)
      {
        assert keys[..i + 1][..i] == keys[..i];
        log := log + [Applied(a, animations.items[keys[i]])];
        i := i + 1;
      }
      assert keys[..i] == keys;
    }

    /** `killAll()`: every timeline is killed and the map is cleared; the
        waiting callbacks are kept. */
    method KillAll()
      requires Valid()
      modifies this`animations, this`log
      ensures Valid()
      ensures log == old(log) + ApplyAll(Kill, old(animations.keys), old(animations.items))
      ensures animations == Empty() && listeners == old(listeners)
    {
      ApplyToAll(Kill);
      animations := Empty();
    }

    /** `pauseAll()`: pauses every timeline; neither map changes. */
    method PauseAll()
      requires Valid()
      modifies this`log
      ensures log == old(log) + ApplyAll(Pause, animations.keys, animations.items)
    {
      ApplyToAll(Pause);
    }

    /** `resumeAll()`: resumes every timeline; neither map changes. */
    method ResumeAll()
      requires Valid()
      modifies this`log
      ensures log == old(log) + ApplyAll(Resume, animations.keys, animations.items)
    {
      ApplyToAll(Resume);
    }

    /** `getProgress(name)`, with `progressOf` standing for
        `timeline.progress()`: `undefined` exactly when no timeline is stored
        under `name`. */
    function GetProgress(name: string, progressOf: Timeline -> real): (r: Option<real>)
      reads this
      ensures r.None? <==> name !in animations.items
      ensures r.Some? ==> r.value == progressOf(animations.items[name])
    {
      match animations.Get(name)
      case Some(t) => Some(progressOf(t))
      case None => None
    }

    /** `getAllAnimations()`: the map of stored timelines by name. */
    function GetAllAnimations(): (r: map<string, Timeline>)
      reads this
      ensures forall name :: name in r <==> GetAnimation(name).Some?
      ensures forall name :: name in r ==> GetAnimation(name) == Some(r[name])
    {
      animations.items
    }

    /** `onAnimationCreated(name, callback)`: with a timeline stored under
        `name` the callback is called with it at once and not kept;
        otherwise it is appended to the callbacks waiting for `name`. */
    method OnAnimationCreated(name: string, callback: Listener)
      requires Valid()
      modifies this`listeners, this`log
      ensures Valid()
      ensures name in animations.items ==>
        && listeners == old(listeners)
        && log == old(log) + [Notified(callback, animations.items[name])]
      ensures name !in animations.items ==>
        && log == old(log)
        && listeners == old(listeners).Set(name, Waiting(old(listeners), name) + [callback])
    {
      var timeline := animations.Get(name);
      if timeline.Some? {
        log := log + [Notified(callback, timeline.value)];
      } else {
        listeners := listeners.Set(name, Waiting(listeners, name) + [callback]);
      }
    }
  }
}
