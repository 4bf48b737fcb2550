/**
 * Reconciliation (globe.js `updateArrows`): the caller's replacement set is split into new,
 * updated and removed names, and each group gets its records and animations. The replacement
 * is a sequence of entries with distinct names in the order the JavaScript object yields its
 * keys, because that order decides the stagger of the enter animations.
 */
module Reconcile {
  import opened ArrowRecords
  import opened Scheduling
  import opened LifecycleState

  // ---------------------------------------------------------------------------
  // Splitting the replacement

  /** `new_arrows`: the entries whose names are not live, in key order. */
  function NewEntries(r: seq<Entry>, live: set<string>): (es: seq<Entry>)
    ensures forall e :: e in es <==> e in r && e.name !in live
    ensures |es| <= |r|
    decreases |r|
  {
    if r == [] then []
    else
      var rest := NewEntries(r[..|r| - 1], live);
      assert r == r[..|r| - 1] + [r[|r| - 1]];
      if r[|r| - 1].name in live then rest else rest + [r[|r| - 1]]
  }

  /** `updated_arrows`: the entries whose names are live, in key order. */
  function UpdatedEntries(r: seq<Entry>, live: set<string>): (es: seq<Entry>)
    ensures forall e :: e in es <==> e in r && e.name in live
    decreases |r|
  {
    if r == [] then []
    else
      var rest := UpdatedEntries(r[..|r| - 1], live);
      assert r == r[..|r| - 1] + [r[|r| - 1]];
      if r[|r| - 1].name in live then rest + [r[|r| - 1]] else rest
  }

  /** Splitting keeps the replacement's key order: the new entries of a concatenation are
      those of its first part followed by those of its second. */
  lemma {:induction false} NewEntriesAppend(r1: seq<Entry>, r2: seq<Entry>, live: set<string>)
    ensures NewEntries(r1 + r2, live) == NewEntries(r1, live) + NewEntries(r2, live)
    decreases |r2|
  {
    if r2 == [] {
      assert r1 + r2 == r1;
    } else {
      var init := r2[..|r2| - 1];
      assert (r1 + r2)[..|r1 + r2| - 1] == r1 + init;
      assert (r1 + r2)[|r1 + r2| - 1] == r2[|r2| - 1];
      NewEntriesAppend(r1, init, live);
    }
  }

  /** The same for the updated entries. */
  lemma {:induction false} UpdatedEntriesAppend(r1: seq<Entry>, r2: seq<Entry>, live: set<string>)
    ensures UpdatedEntries(r1 + r2, live) == UpdatedEntries(r1, live) + UpdatedEntries(r2, live)
    decreases |r2|
  {
    if r2 == [] {
      assert r1 + r2 == r1;
    } else {
      var init := r2[..|r2| - 1];
      assert (r1 + r2)[..|r1 + r2| - 1] == r1 + init;
      assert (r1 + r2)[|r1 + r2| - 1] == r2[|r2| - 1];
      UpdatedEntriesAppend(r1, init, live);
    }
  }

  /** The two groups split the replacement's names into those not live and those live. */
  lemma {:induction false} FilteredNames(r: seq<Entry>, live: set<string>)
    ensures Names(NewEntries(r, live)) == Names(r) - live
    ensures Names(UpdatedEntries(r, live)) == Names(r) * live
    decreases |r|
  {
    if r != [] {
      var init := r[..|r| - 1];
      var x := r[|r| - 1];
      assert init + [x] == r;
      FilteredNames(init, live);
      NamesSnoc(init, x);
      if x.name in live {
        assert NewEntries(r, live) == NewEntries(init, live);
        NamesSnoc(UpdatedEntries(init, live), x);
      } else {
        assert UpdatedEntries(r, live) == UpdatedEntries(init, live);
        NamesSnoc(NewEntries(init, live), x);
      }
    }
  }

  lemma NamesSnoc(es: seq<Entry>, x: Entry)
    ensures Names(es + [x]) == Names(es) + {x.name}
  {
    assert (es + [x])[..|es + [x]| - 1] == es;
  }

  lemma {:induction false} DistinctSnoc(es: seq<Entry>, x: Entry)
    requires DistinctNames(es) && x.name !in Names(es)
    ensures DistinctNames(es + [x])
  {
  }

  /** Both groups keep the replacement's key order and hence its distinct names. */
  lemma {:induction false} FilteredEntriesDistinct(r: seq<Entry>, live: set<string>)
    requires DistinctNames(r)
    ensures DistinctNames(NewEntries(r, live)) && DistinctNames(UpdatedEntries(r, live))
    decreases |r|
  {
    if r != [] {
      var init := r[..|r| - 1];
      var x := r[|r| - 1];
      FilteredEntriesDistinct(init, live);
      assert x.name !in Names(init);
      if x.name in live {
        NamesSnoc(UpdatedEntries(init, live), x);
        DistinctSnoc(UpdatedEntries(init, live), x);
      } else {
        NamesSnoc(NewEntries(init, live), x);
        DistinctSnoc(NewEntries(init, live), x);
      }
    }
  }

  // ---------------------------------------------------------------------------
  // New arrows

  /** The record a new arrow gets: nothing drawn yet, displayed score already the arrow's score. */
  function NewArrow(e: Entry, index: int, meshSerial: nat): Arrow
  {
    Arrow(e.spec.src, e.spec.dst, e.spec.score, 0.0, e.spec.score, index,
          Mesh(meshSerial, e.name), Mesh(meshSerial + 1, e.name))
  }

  /** The enter animation of the `i`-th new arrow. */
  function EnterAnimation(i: nat): Animation
  {
    Animation(Enter, ENTER_DURATION, STAGGER * i as real, None)
  }

  /** One new arrow: its record, the next picking index and its reverse entry, its two
      meshes, its enter animation and its being-created flag. */
  function AddNewArrow(s: GlobeState, e: Entry, i: nat): GlobeState
  {
    var index := s.nextUnusedMousemapIndex;
    s.(arrows := s.arrows[e.name := NewArrow(e, index, s.meshesCreated)],
       arrowByMousemapIndex := s.arrowByMousemapIndex[index := e.name],
       nextUnusedMousemapIndex := index + 1,
       meshesCreated := s.meshesCreated + 2,
       animations := s.animations[e.name := EnterAnimation(i)],
       arrowsBeingCreated := s.arrowsBeingCreated + {e.name})
  }

  /** The new arrows in key order; the `i`-th gets stagger `i`. */
  function AddNewArrows(s: GlobeState, es: seq<Entry>): (t: GlobeState)
    ensures s.arrows.Keys <= t.arrows.Keys
    ensures forall j :: 0 <= j < |es| ==> es[j].name in t.arrows
    ensures t.nextUnusedMousemapIndex == s.nextUnusedMousemapIndex + |es|
    ensures t.meshesCreated == s.meshesCreated + 2 * |es|
    ensures t.arrowsBeingRemoved == s.arrowsBeingRemoved
    decreases |es|
  {
    if es == [] then s
    else AddNewArrow(AddNewArrows(s, es[..|es| - 1]), es[|es| - 1], |es| - 1)
  }

  // ---------------------------------------------------------------------------
  // Updated arrows

  /** The caller's new endpoints and score, with the position, displayed score, picking
      index and meshes of the arrow already live. */
  function UpdatedRecord(a: Arrow, spec: ArrowSpec): Arrow
  {
    a.(src := spec.src, dst := spec.dst, score := spec.score)
  }

  /** The record the source stores for an updated name: the caller's own object, which keeps
      whatever picking index that object carries (`callerIndex`, absent for a fresh object),
      with only the position, displayed score and the two meshes carried over. */
  datatype StoredRecord = StoredRecord(
    spec: ArrowSpec, animationPosition: real, animationScore: real,
    mousemapIndex: Option<int>, mesh: Mesh, mousemapMesh: Mesh)

  function UpdatedRecordAsWritten(a: Arrow, spec: ArrowSpec, callerIndex: Option<int>): (r: StoredRecord)
    ensures r.animationPosition == a.animationPosition && r.animationScore == a.animationScore
    ensures r.mesh == a.mesh && r.mousemapMesh == a.mousemapMesh
    ensures r.mousemapIndex == callerIndex
  {
    StoredRecord(spec, a.animationPosition, a.animationScore, callerIndex, a.mesh, a.mousemapMesh)
  }

  /** The reverse map after an exit completes for a record holding `index`: deleting under an
      absent index (the key `undefined`) removes no integer key. */
  function ReverseAfterExit(reverse: map<int, string>, index: Option<int>): (r: map<int, string>)
    ensures r.Keys <= reverse.Keys
    ensures forall k :: k in r ==> r[k] == reverse[k]
    ensures index.Some? ==> index.value !in r
    ensures index.None? ==> r == reverse
  {
    if index.Some? then reverse - {index.value} else reverse
  }

  /** Growing back from where an exit stopped, over the part of the full duration still to go. */
  function ReEnterAnimation(a: Arrow, i: nat): Animation
  {
    Animation(ReEnter(a.animationPosition, a.animationScore),
              ENTER_DURATION * (1.0 - a.animationPosition), STAGGER * i as real, None)
  }

  function ScoreFadeAnimation(a: Arrow): Animation
  {
    Animation(ScoreFade(a.animationScore), ENTER_DURATION, 0.0, None)
  }

  /** The state reached so far and the stagger counter `i` of updateArrows. */
  datatype Progress = Progress(state: GlobeState, stagger: nat)

  /** One updated arrow: a pending exit is overwritten by a re-enter, a steady arrow gets a
      score fade, an arrow still being created gets no animation. */
  function UpdateExistingArrow(s: GlobeState, e: Entry, i: nat): Progress
    requires e.name in s.arrows
  {
    var a := s.arrows[e.name];
    var s1 := s.(arrows := s.arrows[e.name := UpdatedRecord(a, e.spec)]);
    if e.name in s.arrowsBeingRemoved then
      Progress(s1.(animations := s.animations[e.name := ReEnterAnimation(a, i)],
                   arrowsBeingRemoved := s.arrowsBeingRemoved - {e.name},
                   arrowsBeingCreated := s.arrowsBeingCreated + {e.name}), i + 1)
    else if e.name !in s.arrowsBeingCreated then
      Progress(s1.(animations := s.animations[e.name := ScoreFadeAnimation(a)]), i)
    else
      Progress(s1, i)
  }

  function UpdateExistingArrows(s: GlobeState, es: seq<Entry>, i0: nat): (p: Progress)
    requires Names(es) <= s.arrows.Keys
    ensures p.state.arrows.Keys == s.arrows.Keys
    ensures p.state.nextUnusedMousemapIndex == s.nextUnusedMousemapIndex
    ensures p.state.arrowByMousemapIndex == s.arrowByMousemapIndex
    ensures p.stagger >= i0
    decreases |es|
  {
    if es == [] then Progress(s, i0)
    else
      var p := UpdateExistingArrows(s, es[..|es| - 1], i0);
      UpdateExistingArrow(p.state, es[|es| - 1], p.stagger)
  }

  // ---------------------------------------------------------------------------
  // Removed arrows

  /** The exit animation; a position of 0 counts as 1 (`animation_position || 1`). */
  function ExitAnimation(a: Arrow): Animation
  {
    var startPos := if a.animationPosition == 0.0 then 1.0 else a.animationPosition;
    Animation(Exit(startPos), ENTER_DURATION * startPos, 0.0, None)
  }

  /** One removed arrow; one already being removed is skipped. */
  function RemoveArrow(s: GlobeState, n: string): GlobeState
    requires n in s.arrows
  {
    if n in s.arrowsBeingRemoved then s
    else
      s.(arrowsBeingRemoved := s.arrowsBeingRemoved + {n},
         arrowsBeingCreated := s.arrowsBeingCreated - {n},
         animations := s.animations[n := ExitAnimation(s.arrows[n])])
  }

  /** All removed arrows; each one touches only its own name, so the order does not matter. */
  function RemoveArrows(s: GlobeState, removed: set<string>): GlobeState
    requires removed <= s.arrows.Keys
  {
    var starting := removed - s.arrowsBeingRemoved;
    s.(arrowsBeingRemoved := s.arrowsBeingRemoved + starting,
       arrowsBeingCreated := s.arrowsBeingCreated - starting,
       animations := map n | n in s.animations.Keys + starting ::
                       if n in starting then ExitAnimation(s.arrows[n]) else s.animations[n])
  }

  lemma RemoveArrowsNone(s: GlobeState)
    ensures RemoveArrows(s, {}) == s
  {
    assert RemoveArrows(s, {}).animations == s.animations;
  }

  lemma RemoveArrowsStep(s: GlobeState, D: set<string>, n: string)
    requires D <= s.arrows.Keys && n in s.arrows && n !in D
    ensures RemoveArrows(s, D + {n}) == RemoveArrow(RemoveArrows(s, D), n)
  {
    var u := RemoveArrows(s, D + {n});
    var w := RemoveArrow(RemoveArrows(s, D), n);
    assert u.animations == w.animations;
  }

  /** The removed arrows handled one after another, in the order `ns`. */
  function RemoveArrowsInOrder(s: GlobeState, ns: seq<string>): (t: GlobeState)
    requires forall n :: n in ns ==> n in s.arrows
    ensures t.arrows == s.arrows
  {
    if ns == [] then s
    else RemoveArrow(RemoveArrowsInOrder(s, ns[..|ns| - 1]), ns[|ns| - 1])
  }

  /** Handling distinct removed names one at a time, in any order, gives the closed form. */
  lemma {:induction false} RemoveArrowsInAnyOrder(s: GlobeState, ns: seq<string>)
    requires forall n :: n in ns ==> n in s.arrows
    requires forall j, k :: 0 <= j < k < |ns| ==> ns[j] != ns[k]
    ensures RemoveArrowsInOrder(s, ns) == RemoveArrows(s, set n | n in ns)
  {
    if ns == [] {
      RemoveArrowsNone(s);
      assert (set n | n in ns) == {};
    } else {
      var init := ns[..|ns| - 1];
      var last := ns[|ns| - 1];
      RemoveArrowsInAnyOrder(s, init);
      assert (set n | n in ns) == (set n | n in init) + {last} by {
        assert ns == init + [last];
      }
      RemoveArrowsStep(s, (set n | n in init), last);
    }
  }

  /** The same, for an order `ns` that lists the set `removed` once each. */
  lemma RemoveArrowsListed(s: GlobeState, ns: seq<string>, removed: set<string>)
    requires removed <= s.arrows.Keys
    requires forall n :: n in ns <==> n in removed
    requires forall j, k :: 0 <= j < k < |ns| ==> ns[j] != ns[k]
    ensures RemoveArrowsInOrder(s, ns) == RemoveArrows(s, removed)
  {
    RemoveArrowsInAnyOrder(s, ns);
    assert (set n | n in ns) == removed;
  }

  // ---------------------------------------------------------------------------
  // The whole reconciliation

  function UpdateArrows(s: GlobeState, r: seq<Entry>): GlobeState
  {
    var live := s.arrows.Keys;
    var news := NewEntries(r, live);
    var s1 := AddNewArrows(s, news);
    var p := UpdateExistingArrows(s1, UpdatedEntries(r, live), |news|);
    RemoveArrows(p.state, live - Names(r))
  }
}
