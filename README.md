# A verified model of the scene registries

This project models, in Dafny, the small stateful registries behind the
three.js scene of the repository:

- the pointer hit-test dispatcher `Raycast` (`world/system/Raycaster.ts`, in
  both the `worlds` and the `src` tree, which hold the same logic): tracked
  objects with ordered handler lists, candidate selection for a pointer
  event, a stable ranking by priority, the hover state machine, click
  dispatch, the move throttle, bounding-box refresh, `dispose`, and the
  guarded lazy singleton;
- the two frame schedulers `Loop`: the `Set`-based one of `worlds` and the
  array-based one of `src`, each with `add`/`remove`, an idempotent
  `start`/`stop`, the tick closure and its `delta`/`previousTime` rule, and
  the guarded singleton;
- `AnimationManager`: named gsap timelines and the callbacks waiting for a
  name;
- the texture cache in front of the three.js `TextureLoader`;
- the debug `Pane` and its find-or-create `addFolder`;
- `ClassNotInitializedError`, the error the singleton guards throw.

Scene objects, callbacks, boxes, intersections, timelines and textures are
opaque handles (`nat`). What the world answers during one pointer event
(`object.visible`, `ray.intersectsBox`, `intersectObject`) is a `Probe` of
oracle functions. Every callback invocation, render and timeline action is
appended to a log field, so contracts state exactly which calls happen and
in which order. The clock is an input, window listeners are flags, and the
16 ms throttle timer is an explicit event.

Modules: `Wrappers` (Option/Result), `Seqs` (sequence operations behind
`Set.delete`, `indexOf` and `splice`), `OrderedMaps` (a JavaScript `Map`:
insertion-ordered keys over a map), `NotInitialized`, `Raycaster`, `Frames`
(what both loops share), `SetLoop`, `ArrayLoop`, `Animations`,
`TextureCache`, `Tweakpane`.

Where the comments in the source and its code disagree, the model follows
the code:

- The ranking of candidates is by priority only, with ties kept in map
  insertion order by the stable sort; distance plays no part.
- The sort key is the highest priority over all of an object's handlers,
  enabled or not, of any type.
- The `null` exit notifications of a move go to the hover and both handlers
  of the old object whether or not they are enabled; `removeObject` on the
  hovered object calls every handler of any type with `null`.
- `dispose` does not detach the click listener (see Findings).
- `removeObject` and `dispose` called through the `raycast` proxy do not
  clear the instance's hover (see Findings); the rest of the model calls
  them on the instance.
- `createAnimation` never throws, although its comment says it throws when
  the name is taken; it replaces the stored timeline.
- The `folders` map of the debug `Pane` is never used; `addFolder` searches
  the pane's children.

## Model

| member | source | states |
|---|---|---|
| Raycaster.MaxPriorityIsMax | worlds/world/system/Raycaster.ts:240-245 | The sort key bounds the priority of every handler of the object and is the priority of one of them. |
| Raycaster.NotificationsSpec | worlds/world/system/Raycaster.ts:191-193 | A filtered `forEach` calls only handlers of the requested types, each with the given argument, and each handler of those types exactly once and in handler order: the matching handler at `i` makes the call whose position is the number of matching handlers before it, and there are as many calls as matching handlers. With every type requested, handler `i` makes call `i`. |
| Raycaster.CandidatesSpec | worlds/world/system/Raycaster.ts:213-236 | Every candidate is a tracked object that is visible, has an enabled handler for the event, is not rejected by its box and has a precise hit, and carries its entry and first intersection; at most one per object. |
| Raycaster.EligibleIsCandidate | src/world/system/Raycaster.ts:190-213 | Conversely, every tracked object that passes all four tests yields a candidate. |
| Raycaster.CandidatesFollowKeyOrder | src/world/system/Raycaster.ts:190 | Candidates appear in the insertion order of their objects in the map. |
| Raycaster.SortPermutes | src/world/system/Raycaster.ts:215-224 | The ranking is a permutation of the candidates. |
| Raycaster.SortKeepsMembers | worlds/world/system/Raycaster.ts:238-248 | The ranking keeps exactly the candidates, and on fewer than two it is the identity, so skipping the sort then changes nothing. |
| Raycaster.InsertKeepsRanked | src/world/system/Raycaster.ts:216-224 | Inserting into a ranked list keeps it in descending priority. |
| Raycaster.SortIsRanked | src/world/system/Raycaster.ts:215-225 | The ranked candidates are in descending priority. |
| Raycaster.SortHeadIsFirstHighest | worlds/world/system/Raycaster.ts:238-248 | The head of the ranking has the highest priority, and every candidate before it in the input has a strictly lower one (stability). |
| Raycaster.EarlierKeyEarlierCandidate | worlds/world/system/Raycaster.ts:213-234 | A candidate whose object was registered earlier stands earlier among the candidates. |
| Raycaster.WinnerIsFirstHighestPriority | worlds/world/system/Raycaster.ts:238-250 | The winner is an eligible tracked object with its first intersection, no candidate has a higher priority, and every candidate registered before it has a strictly lower one. |
| Raycaster.Registered | worlds/world/system/Raycaster.ts:90-113 | On a tracked object the handler is appended and the box and map order are kept; on a new object an entry with exactly that handler and a fresh box is appended to the map. The handler carries the options `WithDefaults` fills in: an omitted type, priority or enabled flag becomes hover, 0 or true, and `Map.get` (`OMap.Get`) decides between the two branches. |
| Raycaster.RegisteredAll | src/world/system/Raycaster.ts:96-97 | The array form of `addObject` keeps the map well formed. |
| Raycaster.RegisteredAllTracks | src/world/system/Raycaster.ts:96-100 | After the array form every listed object is tracked with the new handler last, and every previously tracked object stays tracked. |
| Raycaster.RemoveStepSpec | worlds/world/system/Raycaster.ts:139-146 | Removal deletes the entry and keeps all others. If the object was hovered and is in the map, handler `i` of the object gets call `i`, with `null`, and there are no other calls. A hover of the object clears even when it is stale. Otherwise no handler is called and the hover, tracked or stale, stays. A tracked hover stays null or tracked. |
| Raycaster.RemoveAllStepSpec | worlds/world/system/Raycaster.ts:127-137 | The array form of `removeObject` leaves none of the listed objects tracked or hovered, keeps the others and keeps a tracked hover null or tracked. |
| Raycaster.MoveStep | worlds/world/system/Raycaster.ts:156-194 | A pointer move never changes the map. |
| Raycaster.MoveStepKeepsTracked | worlds/world/system/Raycaster.ts:160-189 | After a move from any hover, stale or not, the hover is null exactly when there is no candidate and otherwise is the winner, so it is null or tracked. |
| Raycaster.MoveStepOrder | worlds/world/system/Raycaster.ts:156-194 | Exit before enter: no `null` call follows a call with an intersection. Exactly: without candidates only the old object's hover/both handlers get `null`; on a new target the old object's hover/both handlers get `null` and then the winner's hover/both handlers get the intersection; on the same target only the winner's hover/both handlers get it, on every move. |
| Raycaster.ClickReachesOnlyWinner | worlds/world/system/Raycaster.ts:196-206 | A click calls only click/both handlers of the winner, each with its intersection, and calls every click/both handler of the winner; nothing without a candidate. |
| Raycaster.Reboxed | worlds/world/system/Raycaster.ts:257-261 | Refreshing boxes keeps the set of tracked objects. |
| Raycaster.EmptyDispatchesNothing | worlds/world/system/Raycaster.ts:282-283 | With an empty map neither a move without hover nor a click calls any handler. |
| Raycaster.ClickOnSoleTarget | worlds/world/system/Raycaster.ts:196-204 | A click on the only tracked object, with one enabled click handler, calls that handler with the intersection. |
| Raycaster.NothingHitNoCandidates | worlds/world/system/Raycaster.ts:213-223 | A ray that sees no visible object makes no candidate. |
| Raycaster.HoverOnSoleTarget | worlds/world/system/Raycaster.ts:175-193 | A move whose ray hits the only tracked object, with nothing hovered, hovers it and calls its default-options handler with the intersection. |
| Raycaster.MissAfterSoleHover | worlds/world/system/Raycaster.ts:160-172 | A move that misses everything calls the hovered object's hover handler with `null` and clears the hover; with nothing hovered it calls nothing. |
| Raycaster.ProxyRemoveThenMove | worlds/world/system/Raycaster.ts:307-314 | As written: hover `o`, remove it through the proxy, add it again with `h2`, then a move off everything calls `h2(null)` for a hover that had already ended. |
| Raycaster.DirectRemoveThenMove | worlds/world/system/Raycaster.ts:139-147 | With the removal acting on the instance, the same sequence ends with no call after the removal's `null`. |
| Raycaster.ClickAfterDispose | worlds/world/system/Raycaster.ts:279-284 | As written: after `dispose`, an object added later is still dispatched a click. |
| Raycaster.ClickAfterDisposeDetached | worlds/world/system/Raycaster.ts:279-284 | With both listeners detached, the same sequence calls no handler. |
| Raycaster.Raycast.constructor | worlds/world/system/Raycaster.ts:51-66 | A new dispatcher has an empty map (`Empty`: no keys, no entries), no hover, no log, and both window listeners attached. |
| Raycaster.Raycast.Notify | worlds/world/system/Raycaster.ts:164-168 | The `filter(...).forEach(handler)` loop appends exactly the calls the notification function names. |
| Raycaster.Raycast.AddObject | src/world/system/Raycaster.ts:78-94 | The single-object `addObject` leaves the map `Registered` describes and keeps the hover invariant; it needs nothing of the hover, and re-adding a stale hovered object makes the invariant hold again. |
| Raycaster.Raycast.AddObjects | worlds/world/system/Raycaster.ts:115-116 | The array form applies the same handler and options to each object in turn; it needs only a well-formed map and keeps a tracked hover tracked. |
| Raycaster.Raycast.RemoveObject | src/world/system/Raycaster.ts:115-124 | The single-object `removeObject` makes exactly the state change and calls of the removal step, from any hover; it keeps a tracked hover tracked. |
| Raycaster.Raycast.RemoveObjectThroughProxy | worlds/world/system/Raycaster.ts:139-147 | `removeObject` called through the proxy deletes the entry and makes the calls of the removal step, but its write of `null` to the hover is lost: the hover is unchanged, and it becomes stale exactly when the removed object was hovered. |
| Raycaster.Raycast.RemoveObjects | src/world/system/Raycaster.ts:104-114 | The array form removes each object in turn, with the calls of each step in order, from any hover; it keeps a tracked hover tracked. |
| Raycaster.Raycast.GetIntersections | src/world/system/Raycaster.ts:185-228 | The loop returns the ranked candidates, and the precise test runs only for visible objects with an enabled matching handler whose box (if any) the ray hits; the hover, stale or not, plays no part. |
| Raycaster.Raycast.OnMouseMove | src/world/system/Raycaster.ts:133-171 | A move from any hover, stale ones included, makes exactly the hover change and calls of the move step and leaves the hover null or tracked. |
| Raycaster.Raycast.OnClick | src/world/system/Raycaster.ts:173-183 | A click, from any hover, makes exactly the click calls and changes neither map nor hover. |
| Raycaster.Raycast.ThrottledMouseMove | worlds/world/system/Raycaster.ts:68-77 | The first move runs, from any hover, leaves the hover null or tracked and raises the flag; moves while the flag is up are dropped. |
| Raycaster.Raycast.ThrottleTimerFires | src/world/system/Raycaster.ts:61 | The timer clears the throttle flag. |
| Raycaster.Raycast.HostMouseMove | worlds/world/system/Raycaster.ts:60-62 | A window `mousemove` reaches the throttled handler only while that listener is attached, from any hover; while the throttle flag is up it changes nothing; otherwise it makes the move step, leaves the hover null or tracked and raises the flag. |
| Raycaster.Raycast.HostClick | worlds/world/system/Raycaster.ts:63-65 | A window `click` is dispatched only while that listener is attached, also after a `dispose` through the proxy has left a stale hover. |
| Raycaster.Raycast.UpdateBoundingBoxes | src/world/system/Raycaster.ts:230-234 | Every existing box is recomputed; handlers, the set of objects and the map order are unchanged, so whether the hover is tracked is unchanged too. |
| Raycaster.Raycast.Dispose | worlds/world/system/Raycaster.ts:279-284 | From any state, the map is cleared to `Empty` (no keys), the hover is null and the move listener is detached; the click listener stays attached. |
| Raycaster.Raycast.DisposeThroughProxy | worlds/world/system/Raycaster.ts:279-284 | `dispose` called through the proxy clears the instance's map and detaches the move listener, but the hover stays as it was, so it is stale exactly when something was hovered. |
| Raycaster.Raycast.DisposeDetached | worlds/world/system/Raycaster.ts:279-284 | The intended `dispose`, from any state: both listeners detached, map cleared, no hover. |
| Raycaster.RaycastSingleton.constructor | worlds/world/system/Raycaster.ts:288 | No instance exists before `createRaycast`. |
| Raycaster.RaycastSingleton.CreateRaycast | worlds/world/system/Raycaster.ts:296-301 | The first call builds a fresh, empty dispatcher for the camera; later calls return that same instance and ignore their camera. |
| Raycaster.RaycastSingleton.Access | src/world/system/Raycaster.ts:264-271 | A property read through the `raycast` proxy fails with `ClassNotInitializedError('Raycast')` before creation and afterwards yields the instance's member. A prototype method called through the proxy runs with `this` bound to the proxy; see `RemoveObjectThroughProxy` and `DisposeThroughProxy`. |
| Seqs.Remove | worlds/world/system/Loop.ts:58 | `Set.delete` leaves exactly the other elements. |
| Seqs.RemoveKeepsOrder | worlds/world/system/Loop.ts:58 | `Set.delete` keeps the order of the rest: every other element moves back by the number of copies of the deleted one before it, and only those copies are dropped. |
| Seqs.RemoveKeepsNoDup | worlds/world/system/Loop.ts:18 | Deleting from a set keeps its elements distinct. |
| Seqs.RemoveAbsent | worlds/world/system/Loop.ts:58 | Deleting an absent element leaves the set unchanged. |
| Seqs.RemoveAppended | worlds/world/system/Loop.ts:46-58 | Adding a new element and deleting it restores the set, order included. |
| Seqs.IndexOf | src/world/system/Loop.ts:51 | `indexOf` is -1 exactly for an absent element, otherwise the first index holding it. |
| Seqs.RemoveFirstMultiset | src/world/system/Loop.ts:50-55 | Removing the first occurrence takes exactly one copy out, none when absent. |
| Seqs.SpliceRemovesFirst | src/world/system/Loop.ts:51-54 | `splice(indexOf(x), 1)` guarded by `!== -1` removes exactly the first occurrence. |
| Seqs.RemoveFirstAppended | src/world/system/Loop.ts:46-55 | Pushing a new element and removing it restores the array. |
| OrderedMaps.OMap.Set | worlds/world/system/Raycaster.ts:108-111 | `Map.set` updates the value; a new key goes last, a present one keeps its place. |
| OrderedMaps.OMap.Delete | worlds/world/system/Raycaster.ts:146 | `Map.delete` drops the key and its entry and leaves the other keys in the order `Seqs.RemoveKeepsOrder` states. |
| NotInitialized.ClassNotInitializedError | src/class/ClassNotInitializedError.ts:10-13 | The message is the fixed text whatever the class; the name is the class name followed by `NotInitializedError`. |
| NotInitialized.NameIsInjective | src/class/ClassNotInitializedError.ts:12 | Distinct class names give distinct error names. |
| Frames.DeltasLength | src/world/system/Loop.ts:63-65 | One delta per tick. |
| Frames.DeltasTelescope | worlds/world/system/Loop.ts:70-74 | The deltas since `start` add up to the latest elapsed time minus the elapsed time at start. |
| Frames.TickEventsInOrder | src/world/system/Loop.ts:67-69 | A tick updates the registered objects in their order, all with the same delta and elapsed time. |
| Frames.TickEventsCount | src/world/system/Loop.ts:67-69 | A tick updates each object once per occurrence among the registered ones. |
| SetLoop.Inserted | worlds/world/system/Loop.ts:46 | `Set.add` leaves exactly the old elements and the new one, old ones first and in order. |
| SetLoop.InsertedKeepsNoDup | worlds/world/system/Loop.ts:18 | Adding keeps the set's elements distinct. |
| SetLoop.AddThenRemoveRestores | worlds/world/system/Loop.ts:42-60 | `add(f); remove(f)` with an unregistered `f` restores the set. |
| SetLoop.InsertedAllSpec | worlds/world/system/Loop.ts:43-44 | The array form of `add` leaves exactly the old elements and the array's, distinct, old ones first. |
| SetLoop.RemovedAllSpec | worlds/world/system/Loop.ts:55-56 | The array form of `remove` leaves exactly the old elements not in the array. |
| SetLoop.SingleIsArrayOfOne | worlds/world/system/Loop.ts:42-60 | The single forms of `add` and `remove` are the array forms on one element. |
| SetLoop.Loop.constructor | worlds/world/system/Loop.ts:16-18 | A new loop is stopped, has no callbacks and `previousTime` 0. |
| SetLoop.Loop.Add | worlds/world/system/Loop.ts:42-48 | `add` applies `Set.add` to each element in turn; elements stay distinct. A single argument counts as an array of one (`Items`). |
| SetLoop.Loop.Remove | worlds/world/system/Loop.ts:54-60 | `remove` applies `Set.delete` to each element in turn. A single argument counts as an array of one (`Items`). |
| SetLoop.Loop.Start | worlds/world/system/Loop.ts:66-71 | On a stopped loop: running, the frame callback installed, `previousTime` the elapsed time at start; on a running loop nothing changes. |
| SetLoop.Loop.Stop | worlds/world/system/Loop.ts:87-92 | On a running loop: stopped and the frame callback removed; on a stopped loop nothing changes. |
| SetLoop.Loop.Frame | worlds/world/system/Loop.ts:71-80 | A frame computes `delta` from `previousTime`, sets `previousTime` to the elapsed time, updates every callback once in order with `(delta, elapsed)`, then renders; without an installed callback nothing happens. The recorded deltas grow by this frame's delta, which keeps them equal to `Deltas` of the tick times (by `DeltasAppend`), the invariant `DeltasSumToElapsed` rests on. |
| SetLoop.Loop.UpdateAll | worlds/world/system/Loop.ts:77 | The `forEach` calls each callback in set order. |
| SetLoop.Loop.DeltasSumToElapsed | worlds/world/system/Loop.ts:70-74 | While running, the deltas since `start` add up to the elapsed time since `start`. |
| SetLoop.LoopSingleton.constructor | worlds/world/system/Loop.ts:96 | No instance before `createLoop`. |
| SetLoop.LoopSingleton.CreateLoop | worlds/world/system/Loop.ts:106-115 | The first call builds a fresh stopped loop; later calls return it and ignore their dependencies. |
| SetLoop.LoopSingleton.Access | worlds/world/system/Loop.ts:121-128 | Access before creation fails with `ClassNotInitializedError('Loop')`. |
| ArrayLoop.RemovedFirstAllMultiset | src/world/system/Loop.ts:38-44 | The array form of `remove` takes one occurrence out per element, as far as there are occurrences. |
| ArrayLoop.AddThenRemoveRestores | src/world/system/Loop.ts:46-55 | `add(x); remove(x)` with an unregistered `x` restores the array. |
| ArrayLoop.AddedTwiceTickedTwice | src/world/system/Loop.ts:46-48 | An object added twice is ticked twice per frame, and once after one removal. |
| ArrayLoop.Loop.constructor | src/world/system/Loop.ts:13-15 | A new loop is stopped with an empty array. |
| ArrayLoop.Loop.AddUpdatable | src/world/system/Loop.ts:46-48 | `push` appends, whether or not the object is already there. |
| ArrayLoop.Loop.RemoveUpdatable | src/world/system/Loop.ts:50-55 | Removes exactly the first occurrence; an absent object leaves the array unchanged. |
| ArrayLoop.Loop.Add | src/world/system/Loop.ts:29-35 | `add` appends every element in order. A single argument counts as an array of one (`Items`). |
| ArrayLoop.Loop.Remove | src/world/system/Loop.ts:38-44 | `remove` removes the first occurrence of each element in turn. A single argument counts as an array of one (`Items`). |
| ArrayLoop.Loop.Start | src/world/system/Loop.ts:57-62 | Guarded by `isRunning`; on a stopped loop sets `previousTime` to the elapsed time and installs the frame callback. |
| ArrayLoop.Loop.Stop | src/world/system/Loop.ts:75-80 | Guarded by `isRunning`; removes the frame callback. |
| ArrayLoop.Loop.Frame | src/world/system/Loop.ts:62-72 | A frame ticks the objects in array order with the new delta, then renders once. The recorded deltas grow by this frame's delta, which keeps them equal to `Deltas` of the tick times (by `DeltasAppend`), the invariant `DeltasSumToElapsed` rests on. |
| ArrayLoop.Loop.TickAll | src/world/system/Loop.ts:67-69 | The `for` loop ticks each array slot in order. |
| ArrayLoop.Loop.DeltasSumToElapsed | src/world/system/Loop.ts:61-65 | While running, the deltas since `start` add up to the elapsed time since `start`. |
| ArrayLoop.LoopSingleton.constructor | src/world/system/Loop.ts:84 | No instance before `createLoop`. |
| ArrayLoop.LoopSingleton.CreateLoop | src/world/system/Loop.ts:87-96 | Idempotent creation; later dependencies are ignored. |
| ArrayLoop.LoopSingleton.Access | src/world/system/Loop.ts:99-106 | Access before creation fails with `ClassNotInitializedError('Loop')`. |
| Animations.NotificationsSpec | src/class/AnimationManager.ts:36 | Every waiting callback is called once, in registration order, with the new timeline. |
| Animations.QueuedListenerFires | src/class/AnimationManager.ts:126-129 | A callback queued for a name fires, after those queued before it, when the name's timeline is created. |
| Animations.ApplyAllSpec | src/class/AnimationManager.ts:67 | `kill`, `pause` or `resume` reaches each stored timeline once, in map order. |
| Animations.AnimationManager.constructor | src/class/AnimationManager.ts:15-19 | Both maps start empty. |
| Animations.AnimationManager.CreateAnimation | src/class/AnimationManager.ts:30-40 | A new timeline, distinct from every stored one, replaces the entry for the name; its waiting callbacks are called with it and stay registered. `Waiting` gives the name's list, empty when the name has none. |
| Animations.AnimationManager.Notify | src/class/AnimationManager.ts:36 | The `forEach` calls the given callbacks in order. |
| Animations.AnimationManager.GetAnimation | src/class/AnimationManager.ts:47-49 | Undefined exactly when no timeline is stored under the name. |
| Animations.AnimationManager.KillAnimation | src/class/AnimationManager.ts:55-61 | Kills and removes only that name's timeline; a no-op for an unknown name. |
| Animations.AnimationManager.ApplyToAll | src/class/AnimationManager.ts:75 | The `forEach` over the map applies the action to every timeline in map order. |
| Animations.AnimationManager.KillAll | src/class/AnimationManager.ts:66-69 | Every timeline is killed, the map is emptied and the waiting callbacks are kept. |
| Animations.AnimationManager.PauseAll | src/class/AnimationManager.ts:74-76 | Pauses every timeline; neither map changes. |
| Animations.AnimationManager.ResumeAll | src/class/AnimationManager.ts:81-83 | Resumes every timeline; neither map changes. |
| Animations.AnimationManager.GetProgress | src/class/AnimationManager.ts:90-93 | Undefined exactly when the name is absent, otherwise that timeline's progress. |
| Animations.AnimationManager.GetAllAnimations | src/class/AnimationManager.ts:99-101 | Holds exactly the names `getAnimation` finds, with their timelines. |
| Animations.AnimationManager.OnAnimationCreated | src/class/AnimationManager.ts:119-131 | With a stored timeline the callback is called at once and not kept; otherwise it is appended to the name's waiting list. `Waiting` gives the name's list, empty when the name has none. |
| TextureCache.TextureLoader.constructor | src/utils/textureLoader.ts:15 | The cache starts empty. |
| TextureCache.TextureLoader.LoadTexture | src/utils/textureLoader.ts:17-42 | A hit returns the cached texture without a loader call; a miss calls the loader once and caches what it yields under the path; other entries never change and keys only grow; every cached texture came from a load of its own path. |
| TextureCache.TextureLoader.LoadTwice | src/utils/textureLoader.ts:23-41 | Two loads of the same path return the same texture, with at most one loader call. |
| Tweakpane.FindFolderSpec | worlds/world/system/Tweakpane.ts:29-32 | `find` answers the first folder child with that title, and nothing exactly when there is none. |
| Tweakpane.FindAppendedFolder | worlds/world/system/Tweakpane.ts:34-38 | After a new folder is appended, `find` for its title answers it. |
| Tweakpane.FindKeptByAppend | worlds/world/system/Tweakpane.ts:29-32 | Appending a child keeps what `find` answered before. |
| Tweakpane.Pane.constructor | worlds/world/system/Tweakpane.ts:17-20 | The pane is titled "Debug" and hidden exactly when the hash is not `#debug`. |
| Tweakpane.Pane.AddFolder | worlds/world/system/Tweakpane.ts:27-39 | Returns the first folder with the title and adds nothing, or appends exactly one new folder with that title; afterwards `find` answers the returned folder, so a second call returns the same one. The title is the string argument or the config's `title` (`TitleOf`). |
| Tweakpane.Pane.AddBlade | worlds/world/system/Tweakpane.ts:7 | Other children added by the base class never change what `addFolder` finds for a title already present. |

## Left out

- Pointer-to-NDC arithmetic in `updatePointer`, `setFromCamera`, `ray.intersectsBox`, `intersectObject` and `Box3.setFromObject`: floating-point three.js geometry, replaced by the `Probe` oracles and a `boxOf` function.
- `enableDebug`: it only adds box helpers to the scene.
- `window.addEventListener`/`removeEventListener` and `setTimeout`: listeners are flags and the throttle timer is the explicit `ThrottleTimerFires` event.
- Handlers, callbacks and updatables that call back into the registries while being dispatched (changing the map or the set during the `forEach`): the model treats calls as log entries.
- `Raycaster.MaxPriorityIsMax`: priorities are integers; `priority || 0` on `NaN` and fractional priorities are not modelled.
- The three.js `Clock`, `setAnimationLoop` and `render`: the elapsed time is an input, the installed frame callback a flag and rendering a log entry; times are reals, so floating-point rounding of `delta` is not modelled.
- gsap timeline behaviour (`kill`, `pause`, `resume`, `progress`): timelines are handles, the actions are log entries and `progress()` is a function argument.
- `AnimationManager.debug`: it only prints to the console.
- `Animations.AnimationManager.GetAllAnimations`: returns the map's contents as a value; callers mutating the live `Map` it returns are not modelled.
- `TextureCache.TextureLoader.LoadTexture`: concurrent `await`s are not modelled; each call runs to completion before the next, and the loader's result is an input.
- `Tweakpane.Pane.AddFolder`: config fields other than `title` passed to the base `addFolder`, and folders nested inside folders, are not modelled.
- Exceptions thrown by handlers, updatables or animation callbacks: the source abandons the `forEach` and leaves partial state (a throwing enter handler after `hoveredObject` was set, a throwing `tick` after `previousTime` advanced and before `render`, a throwing handler in `removeObject` before the entry is deleted); every call in the model returns.
- `Raycaster.WithDefaults`: an option passed explicitly as `undefined` is copied by the spread over the defaults, so `{ enabled: undefined }` is never enabled and `{ type: undefined }` serves no event; `PartialOptions` models only omitted fields, which get the defaults.
- `Raycaster.Raycast.RemoveObjects` through the `raycast` proxy: the array form loses its hover writes in the same way as `RemoveObjectThroughProxy`; it is modelled only as called on the instance.
- The module-level `animationManager` and `pane` singletons are plain instances; the loading manager and the `src` debug wrapper are not part of this model.

## Findings

| source | as written | input that shows it | evidently intended | confidence | as-written member | corrected member |
|---|---|---|---|---|---|---|
| worlds/world/system/Raycaster.ts:281 | `dispose` removes the click listener with a new `this.onClick.bind(this)`, a function that was never registered, so the click listener stays attached (the same line is at src/world/system/Raycaster.ts:247) | `dispose()`, then `addObject(o, h, { type: 'click' })`, then a click whose ray hits `o`: `h` is called with the intersection | `dispose` detaches both window listeners, so no later click reaches a handler | high (not executed) | Raycaster.ClickAfterDispose | Raycaster.ClickAfterDisposeDetached |
| worlds/world/system/Raycaster.ts:307-314 | The `raycast` proxy has only a `get` trap, and `removeObject` and `dispose` are prototype methods, so called through the proxy they run with `this` bound to it; their assignment `this.hoveredObject = null` (:144, :283; src/world/system/Raycaster.ts:121, :249, proxy at :264-271) lands on the proxy's empty target and the instance keeps the hover of a removed object | `createRaycast`; `raycast.addObject(o, h)`; a move that hits `o`; `raycast.removeObject(o)`; `raycast.addObject(o, h2)`; a move that hits nothing: `h2(null)` is called | calls through the proxy act on the instance, so the removal clears the hover and the last move calls nothing | high (not executed) | Raycaster.ProxyRemoveThenMove | Raycaster.DirectRemoveThenMove |
