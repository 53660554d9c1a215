/** The pointer hit-test dispatcher `Raycast` (world/system/Raycaster.ts, in
    both the `worlds` and the `src` tree, which hold the same logic).

    Scene objects, handler callbacks, bounding boxes and intersection records
    are opaque handles. The ray that one pointer event casts is a `Probe`: the
    answers the host world gives to the visibility, box and precise tests
    during that event. Calling a handler appends a `Call` to the log. */
module Raycaster {
  import opened Wrappers
  import opened Seqs
  import opened OrderedMaps
  import opened NotInitialized

  /** A three.js `Object3D`, compared by identity. */
  type ObjectId = nat
  /** A handler callback `(intersection | null) => void`, compared by identity. */
  type HandlerId = nat
  /** A `Box3` computed by `Box3.setFromObject`. */
  type Box = nat
  /** An `Intersection` record returned by `Raycaster.intersectObject`. */
  type Intersection = nat
  /** The camera the rays are cast from. */
  type Camera = nat

  /** `RaycastOptions.type`; the event types of `getIntersections` are
      `Hover` and `Click`. */
  datatype EventType = Hover | Click | Both

  datatype RaycastOptions = RaycastOptions(kind: EventType, priority: int, enabled: bool)

  /** `Partial<RaycastOptions>`: each field may be omitted. */
  datatype PartialOptions = PartialOptions(kind: Option<EventType>, priority: Option<int>, enabled: Option<bool>)

  datatype RaycastHandler = RaycastHandler(callback: HandlerId, options: RaycastOptions)

  /** A tracked object always has at least one handler: its entry is created
      with one and handlers are only ever appended. */
  type Handlers = hs: seq<RaycastHandler> | |hs| > 0
    witness [RaycastHandler(0, RaycastOptions(Hover, 0, true))]

  /** `RaycastObject`: the handlers of one tracked object and its cached box. */
  datatype RaycastObject = RaycastObject(handlers: Handlers, box: Option<Box>)

  /** `objectsMap`: tracked objects in insertion order. */
  type Registry = OMap<ObjectId, RaycastObject>

  /** One handler invocation: `handler(null)` or `handler(intersection)`. */
  datatype Call = Call(handler: HandlerId, arg: Option<Intersection>)

  /** What the host world answers during one pointer event: `object.visible`,
      `raycaster.ray.intersectsBox(box)` and `raycaster.intersectObject(object,
      false)` for the ray cast from the pointer. */
  datatype Probe = Probe(
    visible: ObjectId -> bool,
    hitsBox: Box -> bool,
    intersect: ObjectId -> seq<Intersection>)

  /** An element of the array `getIntersections` returns:
      `[object, intersection, raycastObject]`. */
  datatype Candidate = Candidate(obj: ObjectId, hit: Intersection, entry: RaycastObject)

  /** The state that a removal or a pointer move leaves, with the handler
      calls it made on the way, in order. */
  datatype Outcome = Outcome(objects: Registry, hovered: Option<ObjectId>, calls: seq<Call>)

  const HoverKinds: set<EventType> := {Hover, Both}
  const ClickKinds: set<EventType> := {Click, Both}
  const AllKinds: set<EventType> := {Hover, Click, Both}

  // ---------------------------------------------------------------------
  // Options and handler lists

  /** `{ type: 'hover', priority: 0, enabled: true, ...options }`. */
  function WithDefaults(options: PartialOptions): (o: RaycastOptions)
    ensures options.kind.None? ==> o.kind == Hover
    ensures options.kind.Some? ==> o.kind == options.kind.value
    ensures options.priority.None? ==> o.priority == 0
    ensures options.priority.Some? ==> o.priority == options.priority.value
    ensures options.enabled.None? ==> o.enabled
    ensures options.enabled.Some? ==> o.enabled == options.enabled.value
  {
    RaycastOptions(
      match options.kind case Some(k) => k case None => Hover,
      match options.priority case Some(p) => p case None => 0,
      match options.enabled case Some(e) => e case None => true)
  }

  /** A handler of `kind` serves events of type `ev` (`type === eventType ||
      type === 'both'`). */
  predicate Serves(kind: EventType, ev: EventType)
  {
    kind == ev || kind == Both
  }

  /** `handlers.some(h => h.options.enabled && (h.options.type === eventType ||
      h.options.type === 'both'))`. */
  predicate HasEnabledHandler(hs: seq<RaycastHandler>, ev: EventType)
  {
    exists i :: 0 <= i < |hs| && hs[i].options.enabled && Serves(hs[i].options.kind, ev)
  }

  /** `Math.max(...handlers.map(h => h.options.priority || 0))`. */
  function MaxPriority(hs: seq<RaycastHandler>): int
    requires |hs| > 0
  {
    if |hs| == 1 then hs[0].options.priority
    else
      var rest := MaxPriority(hs[1..]);
      if hs[0].options.priority >= rest then hs[0].options.priority else rest
  }

  /** The maximum bounds every handler's priority and is one of them. */
  lemma {:induction false} MaxPriorityIsMax(hs: seq<RaycastHandler>)
    requires |hs| > 0
    ensures forall i :: 0 <= i < |hs| ==> hs[i].options.priority <= MaxPriority(hs)
    ensures exists i :: 0 <= i < |hs| && hs[i].options.priority == MaxPriority(hs)
  {
    if |hs| == 1 {
      assert hs[0].options.priority == MaxPriority(hs);
    } else {
      var t := hs[1..];
      MaxPriorityIsMax(t);
      var i :| 0 <= i < |t| && t[i].options.priority == MaxPriority(t);
      assert hs[i + 1] == t[i];
      forall k | 1 <= k < |hs| ensures hs[k].options.priority <= MaxPriority(t) {
        assert hs[k] == t[k - 1];
      }
      if hs[0].options.priority < MaxPriority(t) {
        assert hs[i + 1].options.priority == MaxPriority(hs);
      } else {
        assert hs[0].options.priority == MaxPriority(hs);
      }
    }
  }

  /** `handlers.filter(h => kinds has h.options.type).forEach(({ handler }) =>
      handler(arg))`: the calls made, in handler order. */
  function Notifications(hs: seq<RaycastHandler>, kinds: set<EventType>, arg: Option<Intersection>): seq<Call>
  {
    if hs == [] then []
    else
      var init := Notifications(hs[..|hs| - 1], kinds, arg);
      var h := hs[|hs| - 1];
      if h.options.kind in kinds then init + [Call(h.callback, arg)] else init
  }

  /** Handler `h` of `hs` is of one of `kinds` and has callback `id`. */
  ghost predicate HandlerOf(hs: seq<RaycastHandler>, kinds: set<EventType>, id: HandlerId)
  {
    exists i :: 0 <= i < |hs| && hs[i].callback == id && hs[i].options.kind in kinds
  }

  /** How many handlers of `hs` are of one of `kinds`. */
  ghost function MatchCount(hs: seq<RaycastHandler>, kinds: set<EventType>): nat
  {
    if hs == [] then 0
    else MatchCount(hs[1..], kinds) + if hs[0].options.kind in kinds then 1 else 0
  }

  /** The handlers of `kinds` before handler `i`, plus handler `i` itself when
      it is one of them. */
  lemma MatchCountNext(hs: seq<RaycastHandler>, kinds: set<EventType>, i: nat)
    requires i < |hs|
    ensures MatchCount(hs[..i + 1], kinds) == MatchCount(hs[..i], kinds) + if hs[i].options.kind in kinds then 1 else 0
  {
    if i > 0 {
      assert hs[..i + 1][1..] == hs[1..][..i];
      assert hs[..i][1..] == hs[1..][..i - 1];
      MatchCountNext(hs[1..], kinds, i - 1);
    }
  }

  /** Every call goes to a handler of the requested kinds and carries `arg`,
      and every handler of those kinds is called with `arg`, exactly once and
      in handler order: the handler at `i` makes the call at the position
      given by the number of matching handlers before it. With every kind
      requested, handler `i` makes call `i`. */
  lemma NotificationsSpec(hs: seq<RaycastHandler>, kinds: set<EventType>, arg: Option<Intersection>)
    ensures var r := Notifications(hs, kinds, arg);
      && |r| == MatchCount(hs, kinds) <= |hs|
      && (forall i :: 0 <= i < |hs| && hs[i].options.kind in kinds ==>
            MatchCount(hs[..i], kinds) < |r| && r[MatchCount(hs[..i], kinds)] == Call(hs[i].callback, arg))
      && (forall c :: c in r ==> c.arg == arg && HandlerOf(hs, kinds, c.handler))
      && (forall i :: 0 <= i < |hs| && hs[i].options.kind in kinds ==> Call(hs[i].callback, arg) in r)
      && (kinds == AllKinds ==> |r| == |hs| && forall i :: 0 <= i < |hs| ==> r[i] == Call(hs[i].callback, arg))
  {
    NotificationsSound(hs, kinds, arg);
    NotificationsComplete(hs, kinds, arg);
    NotificationsInOrder(hs, kinds, arg);
    if kinds == AllKinds {
      NotificationsOfAll(hs, arg);
    }
  }

  /** Every handler of the requested kinds is called with `arg`. */
  lemma {:induction false} NotificationsComplete(hs: seq<RaycastHandler>, kinds: set<EventType>, arg: Option<Intersection>)
    ensures forall i :: 0 <= i < |hs| && hs[i].options.kind in kinds ==>
      Call(hs[i].callback, arg) in Notifications(hs, kinds, arg)
  {
    if hs != [] {
      var init := hs[..|hs| - 1];
      NotificationsComplete(init, kinds, arg);
      forall i | 0 <= i < |hs| && hs[i].options.kind in kinds
        ensures Call(hs[i].callback, arg) in Notifications(hs, kinds, arg)
      {
        if i < |init| {
          assert hs[i] == init[i];
        }
      }
    }
  }

  /** Matching handler `i` makes the call after those of the matching
      handlers before it, and there is no other call. */
  lemma {:induction false} NotificationsInOrder(hs: seq<RaycastHandler>, kinds: set<EventType>, arg: Option<Intersection>)
    ensures var r := Notifications(hs, kinds, arg);
      && |r| == MatchCount(hs, kinds) <= |hs|
      && (forall i :: 0 <= i < |hs| && hs[i].options.kind in kinds ==>
            MatchCount(hs[..i], kinds) < |r| && r[MatchCount(hs[..i], kinds)] == Call(hs[i].callback, arg))
  {
    if hs != [] {
      var n := |hs| - 1;
      var init := hs[..n];
      NotificationsInOrder(init, kinds, arg);
      MatchCountNext(hs, kinds, n);
      assert hs[..n + 1] == hs;
      forall i | 0 <= i < |hs| && hs[i].options.kind in kinds
        ensures MatchCount(hs[..i], kinds) < |Notifications(hs, kinds, arg)|
        ensures Notifications(hs, kinds, arg)[MatchCount(hs[..i], kinds)] == Call(hs[i].callback, arg)
      {
        if i < n {
          assert hs[..i] == init[..i] && hs[i] == init[i];
        }
      }
    }
  }

  /** With every kind requested, handler `i` makes call `i`. */
  lemma {:induction false} NotificationsOfAll(hs: seq<RaycastHandler>, arg: Option<Intersection>)
    ensures |Notifications(hs, AllKinds, arg)| == |hs|
    ensures forall i :: 0 <= i < |hs| ==> Notifications(hs, AllKinds, arg)[i] == Call(hs[i].callback, arg)
  {
    if hs != [] {
      var init := hs[..|hs| - 1];
      NotificationsOfAll(init, arg);
      var h := hs[|hs| - 1];
      assert h.options.kind in AllKinds by {
        assert h.options.kind.Hover? || h.options.kind.Click? || h.options.kind.Both?;
      }
      assert forall i :: 0 <= i < |init| ==> hs[i] == init[i];
    }
  }

  /** Every call goes to a handler of the requested kinds and carries `arg`. */
  lemma {:induction false} NotificationsSound(hs: seq<RaycastHandler>, kinds: set<EventType>, arg: Option<Intersection>)
    ensures var r := Notifications(hs, kinds, arg);
      && |r| <= |hs|
      && (forall c :: c in r ==> c.arg == arg && HandlerOf(hs, kinds, c.handler))
  {
    if hs != [] {
      var init := hs[..|hs| - 1];
      NotificationsSound(init, kinds, arg);
      var h := hs[|hs| - 1];
      assert h.options.kind.Hover? || h.options.kind.Click? || h.options.kind.Both?;
      forall c | c in Notifications(init, kinds, arg) ensures HandlerOf(hs, kinds, c.handler) {
        var i :| 0 <= i < |init| && init[i].callback == c.handler && init[i].options.kind in kinds;
        assert hs[i] == init[i];
      }
      if h.options.kind in kinds {
        assert hs[|hs| - 1] == h;
      }
    }
  }

  // ---------------------------------------------------------------------
  // Candidates and their ranking (getIntersections)

  /** The filter of `getIntersections`: the object is visible, has an enabled
      handler for the event type, is not rejected by its box, and the precise
      test returns at least one intersection. */
  predicate Eligible(obj: ObjectId, entry: RaycastObject, ev: EventType, probe: Probe)
  {
    Screened(obj, entry, ev, probe) && |probe.intersect(obj)| > 0
  }

  /** The filter before the precise test: visible, with an enabled handler
      for the event type, and not rejected by its box. */
  predicate Screened(obj: ObjectId, entry: RaycastObject, ev: EventType, probe: Probe)
  {
    && probe.visible(obj)
    && HasEnabledHandler(entry.handlers, ev)
    && (entry.box.None? || probe.hitsBox(entry.box.value))
  }

  /** One more key extends the candidates by the candidate it makes, if any. */
  lemma CandidatesNext(keys: seq<ObjectId>, items: map<ObjectId, RaycastObject>, ev: EventType, probe: Probe, i: nat)
    requires i < |keys|
    ensures var obj := keys[i];
      Candidates(keys[..i + 1], items, ev, probe) ==
        if obj in items && Eligible(obj, items[obj], ev, probe)
        then Candidates(keys[..i], items, ev, probe) + [Candidate(obj, probe.intersect(obj)[0], items[obj])]
        else Candidates(keys[..i], items, ev, probe)
  {
    assert keys[..i + 1][..i] == keys[..i];
  }

  /** The array `getIntersections` builds before sorting: one candidate per
      eligible tracked object, in map order, carrying its first precise
      intersection. */
  function Candidates(keys: seq<ObjectId>, items: map<ObjectId, RaycastObject>, ev: EventType, probe: Probe): seq<Candidate>
  {
    if keys == [] then []
    else
      var init := Candidates(keys[..|keys| - 1], items, ev, probe);
      var obj := keys[|keys| - 1];
      if obj in items && Eligible(obj, items[obj], ev, probe) then
        init + [Candidate(obj, probe.intersect(obj)[0], items[obj])]
      else init
  }

  /** `c` is the candidate an eligible tracked object in `keys` makes. */
  ghost predicate IsCandidate(c: Candidate, keys: seq<ObjectId>, items: map<ObjectId, RaycastObject>, ev: EventType, probe: Probe)
  {
    && c.obj in keys && c.obj in items && c.entry == items[c.obj]
    && Eligible(c.obj, c.entry, ev, probe) && c.hit == probe.intersect(c.obj)[0]
  }

  /** Each candidate comes from an eligible tracked object, with that object's
      entry and first precise intersection. */
  lemma {:induction false} CandidatesSpec(keys: seq<ObjectId>, items: map<ObjectId, RaycastObject>, ev: EventType, probe: Probe)
    ensures |Candidates(keys, items, ev, probe)| <= |keys|
    ensures forall c :: c in Candidates(keys, items, ev, probe) ==> IsCandidate(c, keys, items, ev, probe)
  {
    if keys != [] {
      var init := keys[..|keys| - 1];
      CandidatesSpec(init, items, ev, probe);
      assert keys == init + [keys[|keys| - 1]];
    }
  }

  /** Conversely, every eligible tracked object is a candidate. */
  lemma {:induction false} EligibleIsCandidate(keys: seq<ObjectId>, items: map<ObjectId, RaycastObject>, ev: EventType, probe: Probe, obj: ObjectId)
    requires obj in keys && obj in items && Eligible(obj, items[obj], ev, probe)
    ensures Candidate(obj, probe.intersect(obj)[0], items[obj]) in Candidates(keys, items, ev, probe)
  {
    var last := keys[|keys| - 1];
    if last != obj {
      assert keys == keys[..|keys| - 1] + [last];
      EligibleIsCandidate(keys[..|keys| - 1], items, ev, probe, obj);
    }
  }

  /** Candidates appear in the order of their objects in the map. */
  lemma {:induction false} CandidatesFollowKeyOrder(keys: seq<ObjectId>, items: map<ObjectId, RaycastObject>, ev: EventType, probe: Probe)
    requires NoDup(keys)
    ensures var cs := Candidates(keys, items, ev, probe);
      forall i, j :: 0 <= i < j < |cs| ==> IndexOf(keys, cs[i].obj) < IndexOf(keys, cs[j].obj)
  {
    if keys != [] {
      var n := |keys| - 1;
      var init, x := keys[..n], keys[n];
      assert keys == init + [x];
      PrefixKeepsNoDup(keys, n);
      CandidatesFollowKeyOrder(init, items, ev, probe);
      CandidatesSpec(init, items, ev, probe);
      var ci := Candidates(init, items, ev, probe);
      var cs := Candidates(keys, items, ev, probe);
      assert x !in init by {
        forall k | 0 <= k < n ensures init[k] != x {
          assert init[k] == keys[k];
        }
      }
      forall c | c in ci ensures IndexOf(keys, c.obj) == IndexOf(init, c.obj) < n {
        IndexOfPrefix(init, [x], c.obj);
      }
      IndexOfAppended(init, x);
      forall i, j | 0 <= i < j < |cs| ensures IndexOf(keys, cs[i].obj) < IndexOf(keys, cs[j].obj) {
        assert cs[i] == ci[i];
        assert ci[i] in ci;
        if j < |ci| {
          assert cs[j] == ci[j];
          assert ci[j] in ci;
        } else {
          assert cs[j].obj == x;
        }
      }
    }
  }

  /** The sort key of a candidate: its object's highest handler priority,
      over every handler whatever its type and whether or not enabled. */
  function Priority(c: Candidate): int
  {
    MaxPriority(c.entry.handlers)
  }

  /** Descending by priority. */
  ghost predicate Ranked(s: seq<Candidate>)
  {
    forall i, j :: 0 <= i < j < |s| ==> Priority(s[i]) >= Priority(s[j])
  }

  /** Places `c` before the first element whose priority does not exceed its
      own, so that `c` stays ahead of the equal-priority elements that came
      after it in the input. */
  function InsertByPriority(c: Candidate, s: seq<Candidate>): seq<Candidate>
  {
    if s == [] || Priority(s[0]) <= Priority(c) then [c] + s
    else [s[0]] + InsertByPriority(c, s[1..])
  }

  /** `intersections.sort((a, b) => priorityB - priorityA)`: a stable sort,
      highest priority first, with no distance key. */
  function SortByPriority(s: seq<Candidate>): seq<Candidate>
  {
    if s == [] then [] else InsertByPriority(s[0], SortByPriority(s[1..]))
  }

  lemma {:induction false} InsertPermutes(c: Candidate, s: seq<Candidate>)
    ensures multiset(InsertByPriority(c, s)) == multiset(s) + multiset{c}
  {
    if s != [] && Priority(s[0]) > Priority(c) {
      InsertPermutes(c, s[1..]);
      assert s == [s[0]] + s[1..];
    }
  }

  /** The sort is a permutation of its input. */
  lemma {:induction false} SortPermutes(s: seq<Candidate>)
    ensures multiset(SortByPriority(s)) == multiset(s)
  {
    if s != [] {
      SortPermutes(s[1..]);
      InsertPermutes(s[0], SortByPriority(s[1..]));
      assert s == [s[0]] + s[1..];
    }
  }

  /** The sort keeps the candidates it was given and no others; on fewer than
      two it is the identity, which is why `getIntersections` may skip it. */
  lemma SortKeepsMembers(s: seq<Candidate>)
    ensures forall c :: c in SortByPriority(s) <==> c in s
    ensures |s| <= 1 ==> SortByPriority(s) == s
  {
    SortPermutes(s);
    forall c ensures c in SortByPriority(s) <==> c in s {
      assert c in SortByPriority(s) <==> c in multiset(SortByPriority(s));
      assert c in s <==> c in multiset(s);
    }
  }

  /** The tail of a ranked sequence is ranked and ranks no higher than its
      head. */
  lemma RankedTail(s: seq<Candidate>)
    requires s != [] && Ranked(s)
    ensures Ranked(s[1..])
    ensures forall c :: c in s[1..] ==> Priority(c) <= Priority(s[0])
  {
    var t := s[1..];
    forall i, j | 0 <= i < j < |t| ensures Priority(t[i]) >= Priority(t[j]) {
      assert t[i] == s[i + 1] && t[j] == s[j + 1];
    }
    forall c | c in t ensures Priority(c) <= Priority(s[0]) {
      var m :| 0 <= m < |t| && t[m] == c;
      assert t[m] == s[m + 1];
    }
  }

  /** A head that ranks at least as high as every element of a ranked
      sequence keeps it ranked. */
  lemma RankedCons(x: Candidate, u: seq<Candidate>)
    requires Ranked(u)
    requires forall c :: c in u ==> Priority(c) <= Priority(x)
    ensures Ranked([x] + u)
  {
    var r := [x] + u;
    forall i, j | 0 <= i < j < |r| ensures Priority(r[i]) >= Priority(r[j]) {
      assert r[j] == u[j - 1] && r[j] in u;
      if i > 0 {
        assert r[i] == u[i - 1];
      }
    }
  }

  lemma {:induction false} InsertKeepsRanked(c: Candidate, s: seq<Candidate>)
    requires Ranked(s)
    ensures Ranked(InsertByPriority(c, s))
  {
    if s == [] || Priority(s[0]) <= Priority(c) {
      RankedCons(c, s);
    } else {
      var t := s[1..];
      RankedTail(s);
      InsertKeepsRanked(c, t);
      InsertPermutes(c, t);
      var u := InsertByPriority(c, t);
      forall x | x in u ensures Priority(x) <= Priority(s[0]) {
        assert x in multiset(u);
      }
      RankedCons(s[0], u);
    }
  }

  /** The sorted array runs from the highest priority down. */
  lemma {:induction false} SortIsRanked(s: seq<Candidate>)
    ensures Ranked(SortByPriority(s))
  {
    if s != [] {
      SortIsRanked(s[1..]);
      InsertKeepsRanked(s[0], SortByPriority(s[1..]));
    }
  }

  /** `w` is one of `s`, no element of `s` has a higher priority, and every
      element before `w` has a strictly lower one. */
  ghost predicate FirstHighest(s: seq<Candidate>, w: Candidate)
  {
    && w in s
    && (forall c :: c in s ==> Priority(c) <= Priority(w))
    && (forall j :: 0 <= j < IndexOf(s, w) ==> Priority(s[j]) < Priority(w))
  }

  /** The head of a sequence is its first highest when nothing after it
      ranks higher. */
  lemma FirstHighestHere(s: seq<Candidate>)
    requires s != []
    requires forall c :: c in s[1..] ==> Priority(c) <= Priority(s[0])
    ensures FirstHighest(s, s[0])
  {
    assert IndexOf(s, s[0]) == 0;
    forall c | c in s ensures Priority(c) <= Priority(s[0]) {
      if c != s[0] {
        assert s == [s[0]] + s[1..];
      }
    }
  }

  /** The first highest of the tail stays first highest when the head ranks
      strictly lower. */
  lemma FirstHighestLater(s: seq<Candidate>, w: Candidate)
    requires s != [] && FirstHighest(s[1..], w)
    requires Priority(s[0]) < Priority(w)
    ensures FirstHighest(s, w)
  {
    var t := s[1..];
    assert s == [s[0]] + t;
    assert IndexOf(s, w) == IndexOf(t, w) + 1;
    forall k | 0 <= k < IndexOf(s, w) ensures Priority(s[k]) < Priority(w) {
      if k > 0 {
        assert s[k] == t[k - 1];
      }
    }
  }

  /** The first element after the sort has the highest priority, and every
      element before it in the input has a strictly lower priority: among
      equal priorities the earliest wins. */
  lemma {:induction false} SortHeadIsFirstHighest(s: seq<Candidate>)
    requires s != []
    ensures FirstHighest(s, SortByPriority(s)[0])
  {
    var t := s[1..];
    var r := SortByPriority(t);
    SortPermutes(t);
    if t == [] {
      assert r == [];
      FirstHighestHere(s);
    } else {
      assert r != [] by {
        assert |multiset(r)| == |multiset(t)|;
      }
      SortHeadIsFirstHighest(t);
      if Priority(r[0]) <= Priority(s[0]) {
        FirstHighestHere(s);
      } else {
        FirstHighestLater(s, r[0]);
      }
    }
  }

  /** The sorted candidates of one event. */
  function Found(m: Registry, ev: EventType, probe: Probe): seq<Candidate>
  {
    SortByPriority(Candidates(m.keys, m.items, ev, probe))
  }

  /** A candidate whose object was registered earlier stands earlier in the
      candidate array. */
  lemma EarlierKeyEarlierCandidate(m: Registry, ev: EventType, probe: Probe, c: Candidate, w: Candidate)
    requires m.Valid()
    requires c in Candidates(m.keys, m.items, ev, probe) && w in Candidates(m.keys, m.items, ev, probe)
    requires IndexOf(m.keys, c.obj) < IndexOf(m.keys, w.obj)
    ensures IndexOf(Candidates(m.keys, m.items, ev, probe), c) < IndexOf(Candidates(m.keys, m.items, ev, probe), w)
  {
    var cs := Candidates(m.keys, m.items, ev, probe);
    CandidatesFollowKeyOrder(m.keys, m.items, ev, probe);
    var j, iw := IndexOf(cs, c), IndexOf(cs, w);
    OrderedPositions(cs, m.keys, j, iw);
  }

  /** In a list ordered by key position, an element with an earlier key
      position stands earlier. */
  lemma OrderedPositions(cs: seq<Candidate>, keys: seq<ObjectId>, a: int, b: int)
    requires forall i, j :: 0 <= i < j < |cs| ==> IndexOf(keys, cs[i].obj) < IndexOf(keys, cs[j].obj)
    requires 0 <= a < |cs| && 0 <= b < |cs|
    requires IndexOf(keys, cs[a].obj) < IndexOf(keys, cs[b].obj)
    ensures a < b
  {
  }

  /** The winner of an event, `intersections[0]`, is an eligible tracked object
      whose priority no candidate exceeds, and every candidate registered
      before it has a strictly lower priority: ties go to map insertion
      order, and distance plays no part. */
  lemma WinnerIsFirstHighestPriority(m: Registry, ev: EventType, probe: Probe)
    requires m.Valid()
    requires Candidates(m.keys, m.items, ev, probe) != []
    ensures var w := Found(m, ev, probe)[0];
      && w.obj in m.items && w.entry == m.items[w.obj]
      && Eligible(w.obj, w.entry, ev, probe) && w.hit == probe.intersect(w.obj)[0]
      && (forall c :: c in Candidates(m.keys, m.items, ev, probe) ==> Priority(c) <= Priority(w))
      && (forall c :: (c in Candidates(m.keys, m.items, ev, probe)
                       && IndexOf(m.keys, c.obj) < IndexOf(m.keys, w.obj)) ==> Priority(c) < Priority(w))
  {
    var cs := Candidates(m.keys, m.items, ev, probe);
    SortHeadIsFirstHighest(cs);
    CandidatesSpec(m.keys, m.items, ev, probe);
    var w := Found(m, ev, probe)[0];
    assert IsCandidate(w, m.keys, m.items, ev, probe);
    forall c | c in cs && IndexOf(m.keys, c.obj) < IndexOf(m.keys, w.obj)
      ensures Priority(c) < Priority(w)
    {
      EarlierKeyEarlierCandidate(m, ev, probe, c, w);
    }
  }

  // ---------------------------------------------------------------------
  // State transitions, as functions of the old state

  /** The tracked-object invariant: `hoveredObject` is null or a map key. */
  ghost predicate Tracked(m: Registry, hovered: Option<ObjectId>)
  {
    m.Valid() && (hovered.Some? ==> hovered.value in m.items)
  }

  /** `addHandlerToObject(obj)`: append the handler to a tracked object, or
      create its entry with that one handler and the box computed now. */
  function Registered(m: Registry, obj: ObjectId, h: RaycastHandler, box: Box): (r: Registry)
    requires m.Valid()
    ensures r.Valid()
    ensures obj in m.items ==>
      (r.keys == m.keys && r.items == m.items[obj := RaycastObject(m.items[obj].handlers + [h], m.items[obj].box)])
    ensures obj !in m.items ==>
      (r.keys == m.keys + [obj] && r.items == m.items[obj := RaycastObject([h], Some(box))])
  {
    match m.Get(obj)
    case Some(e) => m.Set(obj, e.(handlers := e.handlers + [h]))
    case None => m.Set(obj, RaycastObject([h], Some(box)))
  }

  /** `object.forEach(addHandlerToObject)` for the array form of `addObject`. */
  function RegisteredAll(m: Registry, objs: seq<ObjectId>, h: RaycastHandler, boxOf: ObjectId -> Box): (r: Registry)
    requires m.Valid()
    ensures r.Valid()
  {
    if objs == [] then m
    else
      var last := objs[|objs| - 1];
      Registered(RegisteredAll(m, objs[..|objs| - 1], h, boxOf), last, h, boxOf(last))
  }

  /** After the array form of `addObject`, every listed object is tracked and
      its newest handler is the one just added; objects tracked before stay
      tracked. */
  lemma {:induction false} RegisteredAllTracks(m: Registry, objs: seq<ObjectId>, h: RaycastHandler, boxOf: ObjectId -> Box)
    requires m.Valid()
    ensures var r := RegisteredAll(m, objs, h, boxOf);
      && (forall o :: o in objs ==> NewestHandler(r, o, h))
      && (forall o :: o in m.items ==> o in r.items)
  {
    if objs != [] {
      var init, last := objs[..|objs| - 1], objs[|objs| - 1];
      RegisteredAllTracks(m, init, h, boxOf);
      var prev := RegisteredAll(m, init, h, boxOf);
      RegisteredStep(prev, last, h, boxOf(last));
      assert objs == init + [last];
    }
  }

  /** Object `o` is tracked and its most recently added handler is `h`. */
  ghost predicate NewestHandler(m: Registry, o: ObjectId, h: RaycastHandler)
  {
    o in m.items && m.items[o].handlers[|m.items[o].handlers| - 1] == h
  }

  /** Registering `h` on `obj` makes it the newest handler of `obj` and
      leaves every other object's handlers as they were. */
  lemma RegisteredStep(m: Registry, obj: ObjectId, h: RaycastHandler, box: Box)
    requires m.Valid()
    ensures var r := Registered(m, obj, h, box);
      && NewestHandler(r, obj, h)
      && (forall o :: o in m.items ==> o in r.items)
      && (forall o, g :: o != obj && NewestHandler(m, o, g) ==> NewestHandler(r, o, g))
  {
    var r := Registered(m, obj, h, box);
    var hs := r.items[obj].handlers;
    assert hs[|hs| - 1] == h;
  }

  /** `removeObject(obj)`: when `obj` is hovered, every one of its handlers,
      whatever its type or enabled flag, gets `null` and the hover is
      cleared; then the entry is deleted. */
  function RemoveStep(m: Registry, hovered: Option<ObjectId>, obj: ObjectId): (r: Outcome)
    requires m.Valid()
  {
    if hovered == Some(obj) then
      var exit := if obj in m.items then Notifications(m.items[obj].handlers, AllKinds, None) else [];
      Outcome(m.Delete(obj), None, exit)
    else Outcome(m.Delete(obj), hovered, [])
  }

  /** Removal keeps the map well formed and a tracked hover tracked, leaves
      `obj` untracked and unhovered, keeps every other entry, and calls
      handlers only when `obj` was hovered and is still in the map: then each
      of its handlers exactly once, with `null`. A stale hover of another
      object stays as it is. */
  lemma RemoveStepSpec(m: Registry, hovered: Option<ObjectId>, obj: ObjectId)
    requires m.Valid()
    ensures var r := RemoveStep(m, hovered, obj);
      && r.objects.Valid()
      && (Tracked(m, hovered) ==> Tracked(r.objects, r.hovered))
      && obj !in r.objects.items && r.hovered != Some(obj)
      && (forall o :: o in m.items && o != obj ==> o in r.objects.items && r.objects.items[o] == m.items[o])
      && (hovered != Some(obj) ==> r.calls == [] && r.hovered == hovered)
      && (hovered == Some(obj) && obj !in m.items ==> r.calls == [] && r.hovered == None)
      && (hovered == Some(obj) && obj in m.items ==>
            var hs := m.items[obj].handlers;
            |r.calls| == |hs| && forall i :: 0 <= i < |hs| ==> r.calls[i] == Call(hs[i].callback, None))
  {
    if hovered == Some(obj) && obj in m.items {
      NotificationsSpec(m.items[obj].handlers, AllKinds, None);
    }
  }

  /** `object.forEach(...)` for the array form of `removeObject`. */
  function RemoveAllStep(m: Registry, hovered: Option<ObjectId>, objs: seq<ObjectId>): (r: Outcome)
    requires m.Valid()
    ensures r.objects.Valid()
  {
    if objs == [] then Outcome(m, hovered, [])
    else
      var prev := RemoveAllStep(m, hovered, objs[..|objs| - 1]);
      var last := RemoveStep(prev.objects, prev.hovered, objs[|objs| - 1]);
      Outcome(last.objects, last.hovered, prev.calls + last.calls)
  }

  /** One more object of the array is removed as a single `removeObject`. */
  lemma RemoveAllStepNext(m: Registry, hovered: Option<ObjectId>, objs: seq<ObjectId>, i: nat)
    requires m.Valid() && i < |objs|
    ensures var prev := RemoveAllStep(m, hovered, objs[..i]);
      var step := RemoveStep(prev.objects, prev.hovered, objs[i]);
      RemoveAllStep(m, hovered, objs[..i + 1]) == Outcome(step.objects, step.hovered, prev.calls + step.calls)
  {
    assert objs[..i + 1][..i] == objs[..i];
  }

  /** The array form of `removeObject` keeps a tracked hover tracked and
      leaves none of the listed objects tracked or hovered. */
  lemma {:induction false} RemoveAllStepSpec(m: Registry, hovered: Option<ObjectId>, objs: seq<ObjectId>)
    requires m.Valid()
    ensures var r := RemoveAllStep(m, hovered, objs);
      && (Tracked(m, hovered) ==> Tracked(r.objects, r.hovered))
      && (r.hovered.Some? ==> r.hovered.value !in objs)
      && (forall o :: o in objs ==> o !in r.objects.items)
      && (forall o :: o in m.items && o !in objs ==> o in r.objects.items)
  {
    if objs != [] {
      var init := objs[..|objs| - 1];
      RemoveAllStepSpec(m, hovered, init);
      var prev := RemoveAllStep(m, hovered, init);
      RemoveStepSpec(prev.objects, prev.hovered, objs[|objs| - 1]);
      forall o | o in objs && o != objs[|objs| - 1] ensures o in init {
        var k :| 0 <= k < |objs| && objs[k] == o;
        assert init[k] == o;
      }
    }
  }

  /** The `null` calls to the hover/both handlers of the hovered object, as
      `onMouseMove` makes them when the hover leaves it (only when it is
      still in the map). */
  function ExitCalls(m: Registry, hovered: Option<ObjectId>): seq<Call>
  {
    if hovered.Some? && hovered.value in m.items
    then Notifications(m.items[hovered.value].handlers, HoverKinds, None)
    else []
  }

  /** `onMouseMove` after the pointer update: with no candidate, the hovered
      object (if any) gets its exit and the hover is cleared; otherwise a
      change of target first exits the old one, and then the target's
      hover/both handlers get the intersection, on every move. */
  function MoveStep(m: Registry, hovered: Option<ObjectId>, probe: Probe): (r: Outcome)
    ensures r.objects == m
  {
    var found := Found(m, Hover, probe);
    if found == [] then
      Outcome(m, None, if hovered.Some? then ExitCalls(m, hovered) else [])
    else
      var w := found[0];
      var enter := Notifications(w.entry.handlers, HoverKinds, Some(w.hit));
      if hovered != Some(w.obj) then
        Outcome(m, Some(w.obj), (if hovered.Some? then ExitCalls(m, hovered) else []) + enter)
      else Outcome(m, hovered, enter)
  }

  /** A move, even from a stale hover, leaves `hoveredObject` null or a
      tracked object: it hovers the winner of the hover candidates, or
      nothing when there is none. */
  lemma MoveStepKeepsTracked(m: Registry, hovered: Option<ObjectId>, probe: Probe)
    requires m.Valid()
    ensures var r := MoveStep(m, hovered, probe);
      && Tracked(r.objects, r.hovered)
      && (Found(m, Hover, probe) == [] <==> r.hovered.None?)
      && (r.hovered.Some? ==> r.hovered.value == Found(m, Hover, probe)[0].obj)
  {
    var found := Found(m, Hover, probe);
    var cs := Candidates(m.keys, m.items, Hover, probe);
    SortPermutes(cs);
    CandidatesSpec(m.keys, m.items, Hover, probe);
    if found != [] {
      assert found[0] in multiset(found);
      assert found[0] in cs;
    }
  }

  /** No `null` call follows a call that carries an intersection. */
  ghost predicate ExitsFirst(calls: seq<Call>)
  {
    forall i, j :: 0 <= i < j < |calls| && calls[i].arg.Some? ==> calls[j].arg.Some?
  }

  /** `null` calls followed by intersection calls exit first. */
  lemma ExitsThenEnters(exit: seq<Call>, enter: seq<Call>)
    requires forall k :: 0 <= k < |exit| ==> exit[k].arg.None?
    requires forall k :: 0 <= k < |enter| ==> enter[k].arg.Some?
    ensures ExitsFirst(exit + enter)
  {
    var all := exit + enter;
    assert forall k :: 0 <= k < |exit| ==> all[k] == exit[k];
    assert forall k :: |exit| <= k < |all| ==> all[k] == enter[k - |exit|];
  }

  /** The exit calls of a move all carry `null`. */
  lemma ExitCallsAreNull(m: Registry, hovered: Option<ObjectId>)
    ensures forall k :: 0 <= k < |ExitCalls(m, hovered)| ==> ExitCalls(m, hovered)[k].arg.None?
  {
    if hovered.Some? && hovered.value in m.items {
      NotificationsSpec(m.items[hovered.value].handlers, HoverKinds, None);
    }
  }

  /** The enter calls of a move all carry the winner's intersection. */
  lemma EnterCallsCarryHit(hs: seq<RaycastHandler>, hit: Intersection, enter: seq<Call>)
    requires enter == Notifications(hs, HoverKinds, Some(hit))
    ensures forall k :: 0 <= k < |enter| ==> enter[k].arg == Some(hit)
  {
    NotificationsSpec(hs, HoverKinds, Some(hit));
    assert forall k :: 0 <= k < |enter| ==> enter[k] in enter;
  }

  /** Exit before enter: within one move no `null` call follows a call that
      carries an intersection. With no candidate, a hovered object's hover
      and both handlers get `null` once each and nothing else is called;
      staying on the same object calls only the enter notifications. */
  lemma MoveStepOrder(m: Registry, hovered: Option<ObjectId>, probe: Probe)
    ensures ExitsFirst(MoveStep(m, hovered, probe).calls)
    ensures Found(m, Hover, probe) == [] ==>
      MoveStep(m, hovered, probe).calls == ExitCalls(m, hovered)
    ensures var found := Found(m, Hover, probe);
      found != [] && hovered == Some(found[0].obj) ==>
        MoveStep(m, hovered, probe).calls ==
          Notifications(found[0].entry.handlers, HoverKinds, Some(found[0].hit))
    ensures var found := Found(m, Hover, probe);
      found != [] && hovered != Some(found[0].obj) ==>
        MoveStep(m, hovered, probe).calls ==
          ExitCalls(m, hovered) + Notifications(found[0].entry.handlers, HoverKinds, Some(found[0].hit))
  {
    var exit := if hovered.Some? then ExitCalls(m, hovered) else [];
    ExitCallsAreNull(m, hovered);
    var found := Found(m, Hover, probe);
    if found == [] {
      ExitsThenEnters(exit, []);
      assert exit + [] == exit;
    } else {
      var w := found[0];
      var enter := Notifications(w.entry.handlers, HoverKinds, Some(w.hit));
      EnterCallsCarryHit(w.entry.handlers, w.hit, enter);
      if hovered != Some(w.obj) {
        ExitsThenEnters(exit, enter);
      } else {
        ExitsThenEnters([], enter);
        assert [] + enter == enter;
      }
    }
  }

  /** `onClick` after the pointer update: only the winner's click/both
      handlers get the intersection, and nothing happens without a
      candidate. */
  function ClickCalls(m: Registry, probe: Probe): seq<Call>
  {
    var found := Found(m, Click, probe);
    if found == [] then [] else
      Notifications(found[0].entry.handlers, ClickKinds, Some(found[0].hit))
  }

  /** A click reaches only handlers of the click winner, all of type click or
      both, each with the winner's intersection. */
  lemma ClickReachesOnlyWinner(m: Registry, probe: Probe)
    requires m.Valid()
    ensures var found := Found(m, Click, probe);
      forall c :: c in ClickCalls(m, probe) ==>
        && found != []
        && c.arg == Some(found[0].hit)
        && HandlerOf(found[0].entry.handlers, ClickKinds, c.handler)
    ensures var found := Found(m, Click, probe);
      found != [] ==>
        var hs := found[0].entry.handlers;
        forall i :: 0 <= i < |hs| && hs[i].options.kind in ClickKinds ==>
          Call(hs[i].callback, Some(found[0].hit)) in ClickCalls(m, probe)
  {
    var found := Found(m, Click, probe);
    if found != [] {
      NotificationsSpec(found[0].entry.handlers, ClickKinds, Some(found[0].hit));
    }
  }

  /** `updateBoundingBoxes`: every cached box is recomputed from the object's
      current geometry. */
  function Reboxed(m: Registry, boxOf: ObjectId -> Box): (r: map<ObjectId, RaycastObject>)
    ensures r.Keys == m.items.Keys
  {
    map o | o in m.items ::
      RaycastObject(m.items[o].handlers, if m.items[o].box.Some? then Some(boxOf(o)) else None)
  }

  /** An empty map dispatches nothing: after `dispose`, neither a move nor a
      click calls a handler until something is added again. */
  lemma EmptyDispatchesNothing(m: Registry, probe: Probe)
    requires m.keys == []
    ensures MoveStep(m, None, probe).calls == []
    ensures ClickCalls(m, probe) == []
  {
  }

  /** The probe of a pointer event whose ray hits every object, at `hit`. */
  function HitEverything(hit: Intersection): (p: Probe)
    ensures forall o :: p.visible(o) && p.intersect(o) == [hit]
    ensures forall b :: p.hitsBox(b)
  {
    Probe(o => true, b => true, o => [hit])
  }

  /** With a single tracked object carrying a single enabled click handler,
      a click whose ray hits it calls that handler with the intersection. */
  lemma ClickOnSoleTarget(obj: ObjectId, callback: HandlerId, box: Box, hit: Intersection)
    ensures var m := Registered(Empty(), obj, RaycastHandler(callback, RaycastOptions(Click, 0, true)), box);
      ClickCalls(m, HitEverything(hit)) == [Call(callback, Some(hit))]
  {
    var h := RaycastHandler(callback, RaycastOptions(Click, 0, true));
    var m := Registered(Empty(), obj, h, box);
    var probe := HitEverything(hit);
    assert m.keys == [obj] && m.items[obj] == RaycastObject([h], Some(box));
    assert [obj][..0] == [];
    assert HasEnabledHandler([h], Click) by {
      assert [h][0] == h;
    }
    var c := Candidate(obj, hit, m.items[obj]);
    assert Candidates(m.keys, m.items, Click, probe) == [c];
    assert SortByPriority([c]) == InsertByPriority(c, []) == [c];
    assert Found(m, Click, probe) == [c];
    assert [h][..0] == [];
    assert Notifications([h], ClickKinds, Some(hit)) == [Call(callback, Some(hit))];
  }

  // ---------------------------------------------------------------------
  // The class

  class Raycast {
    /** `objectsMap`. */
    var objects: Registry
    /** `hoveredObject`. */
    var hovered: Option<ObjectId>
    /** The `inThrottle` flag captured by the throttled move listener. */
    var inThrottle: bool
    /** Whether the `mousemove` and `click` window listeners are attached. */
    var moveListening: bool
    var clickListening: bool
    /** Every handler call made so far, in order. */
    var calls: seq<Call>
    const camera: Camera

    ghost predicate Valid()
      reads this
    {
      Tracked(objects, hovered)
    }

    /** `new Raycast(camera)`: an empty map, nothing hovered, both window
        listeners attached. */
    constructor (camera: Camera)
      ensures Valid()
      ensures objects == Empty() && hovered == None && calls == []
      ensures !inThrottle && moveListening && clickListening
      ensures this.camera == camera
    {
      this.camera := camera;
      objects := Empty();
      hovered := None;
      inThrottle := false;
      moveListening := true;
      clickListening := true;
      calls := [];
    }

    /** The `forEach` that calls the filtered handlers. */
    method Notify(hs: seq<RaycastHandler>, kinds: set<EventType>, arg: Option<Intersection>)
      modifies this`calls
      ensures calls == old(calls) + Notifications(hs, kinds, arg)
    {
      var i := 0;
      while i < |hs|
        invariant 0 <= i <= |hs|
        invariant calls == old(calls) + Notifications(hs[..i], kinds, arg)
      {
        assert hs[..i + 1][..i] == hs[..i];
        if hs[i].options.kind in kinds {
          calls := calls + [Call(hs[i].callback, arg)];
        }
        i := i + 1;
      }
      assert hs[..i] == hs;
    }

    /** `addObject(obj, handler, options)` for one object; `boxOf` is what
        `new Box3().setFromObject` computes for an object now. */
    method AddObject(obj: ObjectId, callback: HandlerId, options: PartialOptions, boxOf: ObjectId -> Box)
      requires objects.Valid()
      modifies this`objects
      ensures objects.Valid()
      ensures old(Valid()) || hovered == Some(obj) ==> Valid()
      ensures objects == Registered(old(objects), obj, RaycastHandler(callback, WithDefaults(options)), boxOf(obj))
    {
      var h := RaycastHandler(callback, WithDefaults(options));
      var existing := objects.Get(obj);
      if existing.Some? {
        var e := existing.value;
        objects := objects.Set(obj, e.(handlers := e.handlers + [h]));
      } else {
        objects := objects.Set(obj, RaycastObject([h], Some(boxOf(obj))));
      }
    }

    /** `addObject([...objs], handler, options)`: the same handler and options
        for each object in turn. */
    method AddObjects(objs: seq<ObjectId>, callback: HandlerId, options: PartialOptions, boxOf: ObjectId -> Box)
      requires objects.Valid()
      modifies this`objects
      ensures objects.Valid()
      ensures old(Valid()) ==> Valid()
      ensures objects == RegisteredAll(old(objects), objs, RaycastHandler(callback, WithDefaults(options)), boxOf)
    {
      var i := 0;
      while i < |objs|
        invariant 0 <= i <= |objs|
        invariant objects.Valid()
        invariant old(Valid()) ==> Valid()
        invariant objects == RegisteredAll(old(objects), objs[..i], RaycastHandler(callback, WithDefaults(options)), boxOf)
      {
        assert objs[..i + 1][..i] == objs[..i];
        AddObject(objs[i], callback, options, boxOf);
        i := i + 1;
      }
      assert objs[..i] == objs;
    }

    /** `removeObject(obj)` for one object. */
    method RemoveObject(obj: ObjectId)
      requires objects.Valid()
      modifies this`objects, this`hovered, this`calls
      ensures objects.Valid()
      ensures old(Valid()) ==> Valid()
      ensures var r := RemoveStep(old(objects), old(hovered), obj);
        objects == r.objects && hovered == r.hovered && calls == old(calls) + r.calls
    {
      if hovered == Some(obj) {
        var entry := objects.Get(obj);
        if entry.Some? {
          Notify(entry.value.handlers, AllKinds, None);
        }
        hovered := None;
      }
      objects := objects.Delete(obj);
      RemoveStepSpec(old(objects), old(hovered), obj);
    }

    /** `raycast.removeObject(obj)` called through the `raycast` proxy. The
        proxy has only a `get` trap and `removeObject` is a prototype method,
        so it runs with `this` bound to the proxy: its reads reach the
        instance, and the map it mutates is the instance's, but its
        assignment `this.hoveredObject = null` lands on the proxy's empty
        target. The hover of a removed object therefore survives, and the
        tracked-object invariant breaks. */
    method RemoveObjectThroughProxy(obj: ObjectId)
      requires objects.Valid()
      modifies this`objects, this`calls
      ensures objects.Valid()
      ensures var r := RemoveStep(old(objects), old(hovered), obj);
        objects == r.objects && calls == old(calls) + r.calls
      ensures hovered == old(hovered)
      ensures old(hovered) == Some(obj) ==> !Valid()
      ensures old(hovered) != Some(obj) ==> (Valid() <==> old(Valid()))
    {
      if hovered == Some(obj) {
        var entry := objects.Get(obj);
        if entry.Some? {
          Notify(entry.value.handlers, AllKinds, None);
        }
      }
      objects := objects.Delete(obj);
      RemoveStepSpec(old(objects), old(hovered), obj);
    }

    /** `removeObject([...objs])`: each object in turn. */
    method RemoveObjects(objs: seq<ObjectId>)
      requires objects.Valid()
      modifies this`objects, this`hovered, this`calls
      ensures objects.Valid()
      ensures old(Valid()) ==> Valid()
      ensures var r := RemoveAllStep(old(objects), old(hovered), objs);
        objects == r.objects && hovered == r.hovered && calls == old(calls) + r.calls
    {
      ghost var m0, h0, c0 := objects, hovered, calls;
      ghost var done := RemoveAllStep(m0, h0, []);
      var i := 0;
      while i < |objs|
        invariant 0 <= i <= |objs| && m0.Valid()
        invariant done == RemoveAllStep(m0, h0, objs[..i])
        invariant objects == done.objects && hovered == done.hovered && calls == c0 + done.calls
        invariant objects.Valid()
        invariant old(Valid()) ==> Valid()
      {
        ghost var step := RemoveStep(done.objects, done.hovered, objs[i]);
        RemoveAllStepNext(m0, h0, objs, i);
        RemoveObject(objs[i]);
        assert objects == step.objects && hovered == step.hovered && calls == c0 + done.calls + step.calls;
        AppendRegroups(c0, done.calls, step.calls);
        done := Outcome(step.objects, step.hovered, done.calls + step.calls);
        i := i + 1;
      }
      assert objs[..i] == objs;
    }

    /** `getIntersections(eventType)`: the sorted candidates, and the objects
        whose precise test ran, in order. Only visible objects with an enabled
        handler for the event whose box (if any) the ray hits are tested
        precisely. */
    method GetIntersections(ev: EventType, probe: Probe) returns (found: seq<Candidate>, tested: seq<ObjectId>)
      requires objects.Valid()
      ensures found == Found(objects, ev, probe)
      ensures forall o :: o in tested ==> o in objects.items && Screened(o, objects.items[o], ev, probe)
      ensures forall c :: c in found ==> c.obj in tested
    {
      var keys, items := objects.keys, objects.items;
      var result: seq<Candidate> := [];
      tested := [];
      var i := 0;
      while i < |keys|
        invariant 0 <= i <= |keys|
        invariant result == Candidates(keys[..i], items, ev, probe)
        invariant forall o :: o in tested ==> o in items && Screened(o, items[o], ev, probe)
        invariant forall c :: c in result ==> c.obj in tested
      {
        CandidatesNext(keys, items, ev, probe, i);
        var obj := keys[i];
        assert obj in items;
        var entry := items[obj];
        if probe.visible(obj) && HasEnabledHandler(entry.handlers, ev)
          && (entry.box.None? || probe.hitsBox(entry.box.value))
        {
          tested := tested + [obj];
          var hits := probe.intersect(obj);
          if |hits| > 0 {
            result := result + [Candidate(obj, hits[0], entry)];
          }
        }
        i := i + 1;
      }
      assert keys[..i] == keys;
      if |result| > 1 {
        found := SortByPriority(result);
      } else {
        found := result;
      }
      SortKeepsMembers(result);
    }

    /** `onMouseMove` after the pointer update; a stale hover is exited only
        through the map lookup, which finds nothing for it. */
    method OnMouseMove(probe: Probe)
      requires objects.Valid()
      modifies this`hovered, this`calls
      ensures Valid()
      ensures var r := MoveStep(objects, old(hovered), probe);
        hovered == r.hovered && calls == old(calls) + r.calls
    {
      MoveStepKeepsTracked(objects, hovered, probe);
      var found, _ := GetIntersections(Hover, probe);
      if |found| == 0 {
        if hovered.Some? {
          var previous := objects.Get(hovered.value);
          if previous.Some? {
            Notify(previous.value.handlers, HoverKinds, None);
          }
          hovered := None;
        }
        return;
      }
      var target := found[0];
      if hovered != Some(target.obj) {
        if hovered.Some? {
          var previous := objects.Get(hovered.value);
          if previous.Some? {
            Notify(previous.value.handlers, HoverKinds, None);
          }
        }
        hovered := Some(target.obj);
      }
      Notify(target.entry.handlers, HoverKinds, Some(target.hit));
    }

    /** `onClick` after the pointer update; never touches the hover. */
    method OnClick(probe: Probe)
      requires objects.Valid()
      modifies this`calls
      ensures calls == old(calls) + ClickCalls(objects, probe)
    {
      var found, _ := GetIntersections(Click, probe);
      if |found| > 0 {
        var target := found[0];
        Notify(target.entry.handlers, ClickKinds, Some(target.hit));
      }
    }

    /** The throttled `mousemove` listener: runs the move when the flag is
        clear and sets it; drops the event while the flag is set. */
    method ThrottledMouseMove(probe: Probe)
      requires objects.Valid()
      modifies this`hovered, this`calls, this`inThrottle
      ensures inThrottle
      ensures old(Valid()) || !old(inThrottle) ==> Valid()
      ensures old(inThrottle) ==> hovered == old(hovered) && calls == old(calls)
      ensures !old(inThrottle) ==> var r := MoveStep(objects, old(hovered), probe);
        hovered == r.hovered && calls == old(calls) + r.calls
    {
      if !inThrottle {
        OnMouseMove(probe);
        inThrottle := true;
      }
    }

    /** The throttle's `setTimeout` callback, 16 ms after a move ran. */
    method ThrottleTimerFires()
      modifies this`inThrottle
      ensures !inThrottle
    {
      inThrottle := false;
    }

    /** A `mousemove` event from the window: handled only while the
        listener is attached. */
    method HostMouseMove(probe: Probe)
      requires objects.Valid()
      modifies this`hovered, this`calls, this`inThrottle
      ensures old(Valid()) || (moveListening && !old(inThrottle)) ==> Valid()
      ensures !moveListening ==> hovered == old(hovered) && calls == old(calls) && inThrottle == old(inThrottle)
      ensures moveListening && !old(inThrottle) ==> var r := MoveStep(objects, old(hovered), probe);
        hovered == r.hovered && calls == old(calls) + r.calls && inThrottle
      ensures moveListening && old(inThrottle) ==> hovered == old(hovered) && calls == old(calls) && inThrottle
    {
      if moveListening {
        ThrottledMouseMove(probe);
      }
    }

    /** A `click` event from the window: handled while the listener is
        attached. */
    method HostClick(probe: Probe)
      requires objects.Valid()
      modifies this`calls
      ensures !clickListening ==> calls == old(calls)
      ensures clickListening ==> calls == old(calls) + ClickCalls(objects, probe)
    {
      if clickListening {
        OnClick(probe);
      }
    }

    /** `updateBoundingBoxes`: recompute every cached box; handlers and the
        map order stay as they are. */
    method UpdateBoundingBoxes(boxOf: ObjectId -> Box)
      requires objects.Valid()
      modifies this`objects
      ensures objects.Valid()
      ensures Valid() <==> old(Valid())
      ensures objects.keys == old(objects.keys)
      ensures objects.items == Reboxed(old(objects), boxOf)
    {
      var keys := objects.keys;
      var items := objects.items;
      var i := 0;
      while i < |keys|
        invariant 0 <= i <= |keys|
        invariant items.Keys == objects.items.Keys
        invariant forall o :: o in items ==> items[o].handlers == objects.items[o].handlers
        invariant forall o :: o in items && o in keys[..i] ==>
          items[o] == Reboxed(objects, boxOf)[o]
        invariant forall o :: o in items && o !in keys[..i] ==> items[o] == objects.items[o]
      {
        assert keys[..i + 1] == keys[..i] + [keys[i]];
        var obj := keys[i];
        var entry := items[obj];
        if entry.box.Some? {
          items := items[obj := entry.(box := Some(boxOf(obj)))];
        }
        i := i + 1;
      }
      assert keys[..i] == keys;
      assert items == Reboxed(objects, boxOf);
      objects := OMap(keys, items);
    }

    /** `dispose`: the map is cleared, nothing is hovered and the move
        listener is detached. The click listener stays attached, because
        its removal is asked for with a fresh `bind` that was never
        registered. */
    method Dispose()
      modifies this`objects, this`hovered, this`moveListening
      ensures Valid()
      ensures objects == Empty() && hovered == None && !moveListening
    {
      moveListening := false;
      objects := Empty();
      hovered := None;
    }

    /** `raycast.dispose()` called through the proxy: as `Dispose`, except
        that the write to `hoveredObject` is lost in the same way as in
        `RemoveObjectThroughProxy`. */
    method DisposeThroughProxy()
      modifies this`objects, this`moveListening
      ensures objects == Empty() && !moveListening && hovered == old(hovered)
      ensures old(hovered).Some? <==> !Valid()
    {
      moveListening := false;
      objects := Empty();
    }

    /** `dispose` as evidently intended: both window listeners are detached,
        so no later pointer event reaches a handler, whatever is added
        afterwards. */
    method DisposeDetached()
      modifies this`objects, this`hovered, this`moveListening, this`clickListening
      ensures Valid()
      ensures objects == Empty() && hovered == None && !moveListening && !clickListening
    {
      moveListening := false;
      clickListening := false;
      objects := Empty();
      hovered := None;
    }
  }

  /** `dispose` as written leaves the click listener attached: an object
      added after it is still clicked. */
  method ClickAfterDispose(camera: Camera, obj: ObjectId, callback: HandlerId, box: Box, hit: Intersection)
    returns (r: Raycast)
    ensures r.calls == [Call(callback, Some(hit))]
  {
    r := new Raycast(camera);
    r.Dispose();
    r.AddObject(obj, callback, PartialOptions(Some(Click), None, None), o => box);
    ClickOnSoleTarget(obj, callback, box, hit);
    r.HostClick(HitEverything(hit));
  }

  /** With the intended `dispose`, the same sequence calls nothing. */
  method ClickAfterDisposeDetached(camera: Camera, obj: ObjectId, callback: HandlerId, box: Box, hit: Intersection)
    returns (r: Raycast)
    ensures r.calls == []
  {
    r := DetachedThenAdded(camera, obj, callback, box);
    r.HostClick(HitEverything(hit));
    r.HostMouseMove(HitEverything(hit));
  }

  /** A new dispatcher, disposed as intended, with `obj` then added. */
  method DetachedThenAdded(camera: Camera, obj: ObjectId, callback: HandlerId, box: Box) returns (r: Raycast)
    ensures fresh(r) && r.objects.Valid()
    ensures r.calls == [] && !r.clickListening && !r.moveListening
  {
    r := new Raycast(camera);
    r.DisposeDetached();
    r.AddObject(obj, callback, PartialOptions(Some(Click), None, None), o => box);
  }

  /** The probe of a pointer event whose ray misses every object. */
  function HitNothing(): (p: Probe)
    ensures forall o :: !p.visible(o) && p.intersect(o) == []
  {
    Probe(o => false, b => false, o => [])
  }

  /** A ray that misses everything makes no candidate. */
  lemma {:induction false} NothingHitNoCandidates(keys: seq<ObjectId>, items: map<ObjectId, RaycastObject>, ev: EventType)
    ensures Candidates(keys, items, ev, HitNothing()) == []
  {
    if keys != [] {
      NothingHitNoCandidates(keys[..|keys| - 1], items, ev);
    }
  }

  /** The registry holding only `obj`, with one handler of default options. */
  function SoleHover(obj: ObjectId, callback: HandlerId, box: Box): (m: Registry)
    ensures m.Valid() && m.keys == [obj]
    ensures m.items == map[obj := RaycastObject([RaycastHandler(callback, RaycastOptions(Hover, 0, true))], Some(box))]
  {
    Registered(Empty(), obj, RaycastHandler(callback, WithDefaults(PartialOptions(None, None, None))), box)
  }

  /** A move whose ray hits the sole tracked object hovers it and calls its
      hover handler with the intersection. */
  lemma HoverOnSoleTarget(obj: ObjectId, callback: HandlerId, box: Box, hit: Intersection)
    ensures MoveStep(SoleHover(obj, callback, box), None, HitEverything(hit)) ==
      Outcome(SoleHover(obj, callback, box), Some(obj), [Call(callback, Some(hit))])
  {
    var h := RaycastHandler(callback, RaycastOptions(Hover, 0, true));
    var m := SoleHover(obj, callback, box);
    var probe := HitEverything(hit);
    assert [obj][..0] == [];
    assert HasEnabledHandler([h], Hover) by {
      assert [h][0] == h;
    }
    var c := Candidate(obj, hit, m.items[obj]);
    assert Candidates(m.keys, m.items, Hover, probe) == [c];
    assert SortByPriority([c]) == InsertByPriority(c, []) == [c];
    assert Found(m, Hover, probe) == [c];
    assert [h][..0] == [];
    assert Notifications([h], HoverKinds, Some(hit)) == [Call(callback, Some(hit))];
  }

  /** A move whose ray misses everything, with `obj` still hovered, calls
      the hover handler of `obj` with `null`; with nothing hovered it calls
      nothing. */
  lemma MissAfterSoleHover(obj: ObjectId, callback: HandlerId, box: Box)
    ensures MoveStep(SoleHover(obj, callback, box), Some(obj), HitNothing()) ==
      Outcome(SoleHover(obj, callback, box), None, [Call(callback, None)])
    ensures MoveStep(SoleHover(obj, callback, box), None, HitNothing()) ==
      Outcome(SoleHover(obj, callback, box), None, [])
  {
    var h := RaycastHandler(callback, RaycastOptions(Hover, 0, true));
    var m := SoleHover(obj, callback, box);
    NothingHitNoCandidates(m.keys, m.items, Hover);
    assert Found(m, Hover, HitNothing()) == [];
    assert [h][..0] == [];
    assert Notifications([h], HoverKinds, None) == [Call(callback, None)];
  }

  /** Removing the sole tracked object leaves the empty map. */
  lemma RemoveSole(obj: ObjectId, callback: HandlerId, box: Box)
    ensures SoleHover(obj, callback, box).Delete(obj) == Empty()
  {
    assert [obj][1..] == [];
  }

  /** A new dispatcher whose only object `obj`, with a default handler `h`,
      has just been hovered by a move whose ray hit it. */
  method HoveredSole(camera: Camera, obj: ObjectId, h: HandlerId, box: Box, hit: Intersection)
    returns (r: Raycast)
    ensures fresh(r) && r.Valid()
    ensures r.objects == SoleHover(obj, h, box) && r.hovered == Some(obj)
    ensures r.calls == [Call(h, Some(hit))]
  {
    r := NewSole(camera, obj, h, box);
    HoverOnSoleTarget(obj, h, box, hit);
    r.OnMouseMove(HitEverything(hit));
  }

  /** A new dispatcher with `obj` added under a default handler `h`. */
  method NewSole(camera: Camera, obj: ObjectId, h: HandlerId, box: Box) returns (r: Raycast)
    ensures fresh(r) && r.Valid()
    ensures r.objects == SoleHover(obj, h, box) && r.hovered == None && r.calls == []
  {
    r := new Raycast(camera);
    r.AddObject(obj, h, PartialOptions(None, None, None), o => box);
  }

  /** On an empty map, `obj` is added again with a default handler `h2` and
      the pointer then moves off everything: `h2` gets `null` exactly when
      the hover still names `obj`. */
  method ReaddThenMiss(r: Raycast, obj: ObjectId, h2: HandlerId, box: Box)
    requires r.objects == Empty()
    requires r.hovered == None || r.hovered == Some(obj)
    modifies r
    ensures r.hovered == None
    ensures old(r.hovered) == Some(obj) ==> r.calls == old(r.calls) + [Call(h2, None)]
    ensures old(r.hovered) == None ==> r.calls == old(r.calls)
  {
    r.AddObject(obj, h2, PartialOptions(None, None, None), o => box);
    assert r.objects == SoleHover(obj, h2, box);
    MissAfterSoleHover(obj, h2, box);
    r.OnMouseMove(HitNothing());
  }

  /** `removeObject` through the proxy, as written: after the hovered object
      is removed and then added again with a new handler, a move off
      everything calls that new handler with `null`, an exit for a hover
      that had already ended. */
  method ProxyRemoveThenMove(camera: Camera, obj: ObjectId, h: HandlerId, h2: HandlerId, box: Box, hit: Intersection)
    returns (r: Raycast)
    ensures r.calls == [Call(h, Some(hit)), Call(h, None), Call(h2, None)]
  {
    r := HoveredSole(camera, obj, h, box, hit);
    RemoveStepSpec(r.objects, r.hovered, obj);
    RemoveSole(obj, h, box);
    r.RemoveObjectThroughProxy(obj);
    assert r.objects == Empty() && r.hovered == Some(obj) && r.calls == [Call(h, Some(hit)), Call(h, None)];
    ReaddThenMiss(r, obj, h2, box);
  }

  /** The same sequence with `removeObject` acting on the instance: the
      removal clears the hover, and the last move calls nothing. */
  method DirectRemoveThenMove(camera: Camera, obj: ObjectId, h: HandlerId, h2: HandlerId, box: Box, hit: Intersection)
    returns (r: Raycast)
    ensures r.calls == [Call(h, Some(hit)), Call(h, None)]
  {
    r := HoveredSole(camera, obj, h, box, hit);
    RemoveStepSpec(r.objects, r.hovered, obj);
    RemoveSole(obj, h, box);
    r.RemoveObject(obj);
    assert r.objects == Empty() && r.hovered == None && r.calls == [Call(h, Some(hit)), Call(h, None)];
    ReaddThenMiss(r, obj, h2, box);
  }

  // ---------------------------------------------------------------------
  // The guarded singleton

  /** The module-level `raycastInstance` and the `raycast` proxy. */
  class RaycastSingleton {
    var instance: Raycast?

    constructor ()
      ensures instance == null
    {
      instance := null;
    }

    /** `createRaycast({ camera })`: builds the instance on the first call and
        returns that same instance, ignoring the camera, on every later one. */
    method CreateRaycast(camera: Camera) returns (r: Raycast)
      modifies this
      ensures instance == r
      ensures old(instance) != null ==> r == old(instance)
      ensures old(instance) == null ==>
        (fresh(r) && r.Valid() && r.camera == camera && r.objects == Empty() && r.hovered == None && r.calls == [])
    {
      if instance == null {
        instance := new Raycast(camera);
      }
      r := instance;
    }

    /** A property access through the `raycast` proxy: the instance once it
        exists, otherwise `ClassNotInitializedError('Raycast')`. */
    method Access() returns (r: Result<Raycast, NotInitializedError>)
      ensures instance == null ==> r == Failure(ClassNotInitializedError("Raycast"))
      ensures instance != null ==> r == Success(instance)
    {
      if instance == null {
        r := Failure(ClassNotInitializedError("Raycast"));
      } else {
        r := Success(instance);
      }
    }
  }
}
