/** What `updateArrows` guarantees: the lifecycle invariant is kept, and each new, updated and
    removed name ends up with the record, flags and animation the source gives it. */
module ReconcileProperties {
  import opened ArrowRecords
  import opened Scheduling
  import opened LifecycleState
  import opened Reconcile
  import Ticking
  import TickingProperties

  // ---------------------------------------------------------------------------
  // The invariant

  lemma AddNewArrowPreservesInv(s: GlobeState, e: Entry, i: nat)
    requires Inv(s) && e.name !in s.arrows
    ensures Inv(AddNewArrow(s, e, i))
  {
    AddNewArrowKeepsReverse(s, e, i);
    AddNewArrowKeepsFlags(s, e, i);
  }

  /** The fresh index is above every index handed out, so it collides with no reverse entry. */
  lemma AddNewArrowKeepsReverse(s: GlobeState, e: Entry, i: nat)
    requires IndicesAllocated(s) && ReverseAgrees(s) && e.name !in s.arrows
    ensures ReverseAgrees(AddNewArrow(s, e, i))
  {
    var t := AddNewArrow(s, e, i);
    var idx := s.nextUnusedMousemapIndex;
    assert forall k :: k in s.arrowByMousemapIndex ==> k < idx;
  }

  lemma AddNewArrowKeepsFlags(s: GlobeState, e: Entry, i: nat)
    requires FlagsMirrorAnimations(s) && e.name !in s.arrows
    ensures FlagsMirrorAnimations(AddNewArrow(s, e, i))
  {
  }

  lemma {:induction false} AddNewArrowsPreservesInv(s: GlobeState, es: seq<Entry>)
    requires Inv(s) && DistinctNames(es)
    requires forall j :: 0 <= j < |es| ==> es[j].name !in s.arrows
    ensures Inv(AddNewArrows(s, es))
    decreases |es|
  {
    if es != [] {
      var init := es[..|es| - 1];
      var x := es[|es| - 1];
      AddNewArrowsPreservesInv(s, init);
      AddNewArrowsKeys(s, init);
      assert x.name !in Names(init);
      AddNewArrowPreservesInv(AddNewArrows(s, init), x, |es| - 1);
    }
  }

  lemma UpdateExistingArrowPreservesInv(s: GlobeState, e: Entry, i: nat)
    requires Inv(s) && e.name in s.arrows
    ensures Inv(UpdateExistingArrow(s, e, i).state)
  {
    if e.name in s.arrowsBeingRemoved {
      ReEnterPreservesInv(s, e, i);
    } else if e.name !in s.arrowsBeingCreated {
      ScoreFadePreservesInv(s, e, i);
    } else {
      RecordOnlyPreservesInv(s, e, i);
    }
  }

  /** A pending exit turned into a re-enter. */
  lemma ReEnterPreservesInv(s: GlobeState, e: Entry, i: nat)
    requires Inv(s) && e.name in s.arrows && e.name in s.arrowsBeingRemoved
    ensures Inv(UpdateExistingArrow(s, e, i).state)
  {
    var t := UpdateExistingArrow(s, e, i).state;
    assert ReverseAgrees(t);
    assert FlagsMirrorAnimations(t);
  }

  /** A steady arrow given a score fade. */
  lemma ScoreFadePreservesInv(s: GlobeState, e: Entry, i: nat)
    requires Inv(s) && e.name in s.arrows && e.name !in s.arrowsBeingRemoved && e.name !in s.arrowsBeingCreated
    ensures Inv(UpdateExistingArrow(s, e, i).state)
  {
    var t := UpdateExistingArrow(s, e, i).state;
    assert ReverseAgrees(t);
    assert FlagsMirrorAnimations(t);
  }

  /** An arrow still being created: only its record changes. */
  lemma RecordOnlyPreservesInv(s: GlobeState, e: Entry, i: nat)
    requires Inv(s) && e.name in s.arrows && e.name !in s.arrowsBeingRemoved && e.name in s.arrowsBeingCreated
    ensures Inv(UpdateExistingArrow(s, e, i).state)
  {
    var t := UpdateExistingArrow(s, e, i).state;
    assert ReverseAgrees(t);
  }

  lemma {:induction false} UpdateExistingArrowsPreservesInv(s: GlobeState, es: seq<Entry>, i0: nat)
    requires Inv(s) && Names(es) <= s.arrows.Keys
    ensures Inv(UpdateExistingArrows(s, es, i0).state)
    decreases |es|
  {
    if es != [] {
      var init := es[..|es| - 1];
      UpdateExistingArrowsPreservesInv(s, init, i0);
      var p := UpdateExistingArrows(s, init, i0);
      UpdateExistingArrowPreservesInv(p.state, es[|es| - 1], p.stagger);
    }
  }

  lemma RemoveArrowsPreservesInv(s: GlobeState, removed: set<string>)
    requires Inv(s) && removed <= s.arrows.Keys
    ensures Inv(RemoveArrows(s, removed))
  {
    var t := RemoveArrows(s, removed);
    assert ReverseAgrees(t);
    assert FlagsMirrorAnimations(t);
  }

  /** Reconciliation keeps the lifecycle invariant. */
  lemma UpdateArrowsPreservesInv(s: GlobeState, r: seq<Entry>)
    requires Inv(s) && DistinctNames(r)
    ensures Inv(UpdateArrows(s, r))
  {
    var live := s.arrows.Keys;
    var news := NewEntries(r, live);
    FilteredEntriesDistinct(r, live);
    forall j | 0 <= j < |news|
      ensures news[j].name !in s.arrows
    {
      assert news[j] in news;
    }
    AddNewArrowsPreservesInv(s, news);
    var s1 := AddNewArrows(s, news);
    var p := UpdateExistingArrows(s1, UpdatedEntries(r, live), |news|);
    UpdateExistingArrowsPreservesInv(s1, UpdatedEntries(r, live), |news|);
    RemoveArrowsPreservesInv(p.state, live - Names(r));
    assert UpdateArrows(s, r) == RemoveArrows(p.state, live - Names(r));
  }

  // ---------------------------------------------------------------------------
  // Frames: each group touches only its own names

  /** `s` and `t` hold the same record, animation and flags under `n`. */
  ghost predicate SameAt(s: GlobeState, t: GlobeState, n: string)
  {
    && (n in s.arrows <==> n in t.arrows)
    && (n in s.arrows ==> s.arrows[n] == t.arrows[n])
    && (n in s.animations <==> n in t.animations)
    && (n in s.animations ==> s.animations[n] == t.animations[n])
    && (n in s.arrowsBeingCreated <==> n in t.arrowsBeingCreated)
    && (n in s.arrowsBeingRemoved <==> n in t.arrowsBeingRemoved)
  }

  lemma {:induction false} AddNewArrowsFrame(s: GlobeState, es: seq<Entry>, n: string)
    requires n !in Names(es)
    ensures SameAt(s, AddNewArrows(s, es), n)
    decreases |es|
  {
    if es != [] {
      AddNewArrowsFrame(s, es[..|es| - 1], n);
    }
  }

  lemma {:induction false} UpdateExistingArrowsFrame(s: GlobeState, es: seq<Entry>, i0: nat, n: string)
    requires Names(es) <= s.arrows.Keys && n !in Names(es)
    ensures SameAt(s, UpdateExistingArrows(s, es, i0).state, n)
    decreases |es|
  {
    if es != [] {
      UpdateExistingArrowsFrame(s, es[..|es| - 1], i0, n);
    }
  }

  lemma RemoveArrowsFrame(s: GlobeState, removed: set<string>, n: string)
    requires removed <= s.arrows.Keys && n !in removed
    ensures SameAt(s, RemoveArrows(s, removed), n)
  {
  }

  // ---------------------------------------------------------------------------
  // New names

  /** `t` holds the new arrow made from `e` with index `idx`, first mesh serial `serial` and
      stagger `j`, its reverse entry, its enter animation and its being-created flag. */
  ghost predicate NewArrowAt(t: GlobeState, e: Entry, idx: int, serial: nat, j: nat)
  {
    && e.name in t.arrows && t.arrows[e.name] == NewArrow(e, idx, serial)
    && idx in t.arrowByMousemapIndex && t.arrowByMousemapIndex[idx] == e.name
    && e.name in t.animations && t.animations[e.name] == EnterAnimation(j)
    && e.name in t.arrowsBeingCreated
  }

  lemma AddNewArrowKeeps(q: GlobeState, x: Entry, i: nat, e: Entry, idx: int, serial: nat, j: nat)
    requires NewArrowAt(q, e, idx, serial, j) && x.name != e.name && idx != q.nextUnusedMousemapIndex
    ensures NewArrowAt(AddNewArrow(q, x, i), e, idx, serial, j)
  {
  }

  /** The `j`-th new arrow takes the `j`-th index from the counter, its two meshes, position 0,
      its own score as displayed score, its reverse entry, an enter animation with stagger `j`
      and the being-created flag. */
  lemma {:induction false} AddNewArrowsOutcome(s: GlobeState, es: seq<Entry>, j: nat)
    requires DistinctNames(es) && j < |es|
    ensures NewArrowAt(AddNewArrows(s, es), es[j], s.nextUnusedMousemapIndex + j, s.meshesCreated + 2 * j, j)
    decreases |es|
  {
    var init := es[..|es| - 1];
    var x := es[|es| - 1];
    var q := AddNewArrows(s, init);
    assert AddNewArrows(s, es) == AddNewArrow(q, x, |es| - 1);
    if j < |es| - 1 {
      AddNewArrowsOutcome(s, init, j);
      assert es[j] == init[j];
      AddNewArrowKeeps(q, x, |es| - 1, es[j], s.nextUnusedMousemapIndex + j, s.meshesCreated + 2 * j, j);
    }
  }

  /** The arrow a new entry becomes, as updateArrows leaves it. */
  lemma NewArrowOutcome(s: GlobeState, r: seq<Entry>, j: nat)
    requires Inv(s) && DistinctNames(r) && j < |NewEntries(r, s.arrows.Keys)|
    ensures var t := UpdateArrows(s, r);
      var e := NewEntries(r, s.arrows.Keys)[j];
      && e.name !in s.arrows
      && NewArrowAt(t, e, s.nextUnusedMousemapIndex + j, s.meshesCreated + 2 * j, j)
      && e.name !in t.arrowsBeingRemoved
  {
    var e := NewEntries(r, s.arrows.Keys)[j];
    assert e in NewEntries(r, s.arrows.Keys);
    NewArrowPlaced(s, r, j);
  }

  lemma NewArrowPlaced(s: GlobeState, r: seq<Entry>, j: nat)
    requires DistinctNames(r) && j < |NewEntries(r, s.arrows.Keys)|
    ensures NewArrowAt(UpdateArrows(s, r), NewEntries(r, s.arrows.Keys)[j],
                       s.nextUnusedMousemapIndex + j, s.meshesCreated + 2 * j, j)
    ensures NewEntries(r, s.arrows.Keys)[j].name in UpdateArrows(s, r).arrowsBeingRemoved
        <==> NewEntries(r, s.arrows.Keys)[j].name in s.arrowsBeingRemoved
  {
    var live := s.arrows.Keys;
    var news := NewEntries(r, live);
    var ups := UpdatedEntries(r, live);
    FilteredEntriesDistinct(r, live);
    assert news[j] in news;
    FilteredNames(r, live);
    NewArrowSurvivesLaterPhases(s, news, j, ups, live - Names(r));
  }

  /** Updating and removing other names leaves a placed new arrow as it is. */
  lemma NewArrowSurvivesLaterPhases(s: GlobeState, news: seq<Entry>, j: nat, ups: seq<Entry>, removed: set<string>)
    requires DistinctNames(news) && j < |news|
    requires Names(ups) <= s.arrows.Keys && news[j].name !in Names(ups)
    requires removed <= s.arrows.Keys && news[j].name !in removed
    ensures var t := RemoveArrows(UpdateExistingArrows(AddNewArrows(s, news), ups, |news|).state, removed);
      && NewArrowAt(t, news[j], s.nextUnusedMousemapIndex + j, s.meshesCreated + 2 * j, j)
      && (news[j].name in t.arrowsBeingRemoved <==> news[j].name in s.arrowsBeingRemoved)
  {
    var e := news[j];
    var idx := s.nextUnusedMousemapIndex + j;
    var serial := s.meshesCreated + 2 * j;
    AddNewArrowsOutcome(s, news, j);
    var s1 := AddNewArrows(s, news);
    UpdateExistingArrowsFrame(s1, ups, |news|, e.name);
    var p := UpdateExistingArrows(s1, ups, |news|);
    NewArrowAtTransfer(s1, p.state, e, idx, serial, j);
    RemoveArrowsFrame(p.state, removed, e.name);
    NewArrowAtTransfer(p.state, RemoveArrows(p.state, removed), e, idx, serial, j);
  }

  lemma NewArrowAtTransfer(t: GlobeState, t': GlobeState, e: Entry, idx: int, serial: nat, j: nat)
    requires NewArrowAt(t, e, idx, serial, j) && SameAt(t, t', e.name)
    requires t'.arrowByMousemapIndex == t.arrowByMousemapIndex
    ensures NewArrowAt(t', e, idx, serial, j)
  {
  }

  // ---------------------------------------------------------------------------
  // Updated names

  /** How many of the entries have names in `removing`: the re-entries among them. */
  function ReEntries(es: seq<Entry>, removing: set<string>): (c: nat)
    ensures c <= |es|
    ensures c == 0 <== (forall j :: 0 <= j < |es| ==> es[j].name !in removing)
    decreases |es|
  {
    if es == [] then 0
    else ReEntries(es[..|es| - 1], removing) + (if es[|es| - 1].name in removing then 1 else 0)
  }

  /** What updateArrows leaves under the updated name `e.name` of `s`, with stagger `k`: the
      caller's endpoints and score over the old position, displayed score, index and meshes;
      a pending exit turned into a re-enter with stagger `k`; a steady arrow given a score
      fade; an arrow still being created left with its enter animation. */
  ghost predicate UpdatedAs(s: GlobeState, t: GlobeState, e: Entry, k: nat)
    requires e.name in s.arrows
  {
    var n := e.name;
    var a := s.arrows[n];
    && n in t.arrows && t.arrows[n] == UpdatedRecord(a, e.spec)
    && (n in s.arrowsBeingRemoved ==>
          && n in t.animations && t.animations[n] == ReEnterAnimation(a, k)
          && n !in t.arrowsBeingRemoved && n in t.arrowsBeingCreated)
    && (n !in s.arrowsBeingRemoved && n !in s.arrowsBeingCreated ==>
          && n in t.animations && t.animations[n] == ScoreFadeAnimation(a)
          && n !in t.arrowsBeingRemoved && n !in t.arrowsBeingCreated)
    && (n !in s.arrowsBeingRemoved && n in s.arrowsBeingCreated ==>
          && (n in t.animations <==> n in s.animations)
          && (n in s.animations ==> t.animations[n] == s.animations[n])
          && n !in t.arrowsBeingRemoved && n in t.arrowsBeingCreated)
  }

  /** The stagger counter counts the re-entries so far. */
  lemma {:induction false} StaggerCountsReEntries(s: GlobeState, es: seq<Entry>, i0: nat)
    requires Names(es) <= s.arrows.Keys && DistinctNames(es)
    ensures UpdateExistingArrows(s, es, i0).stagger == i0 + ReEntries(es, s.arrowsBeingRemoved)
    decreases |es|
  {
    if es != [] {
      var init := es[..|es| - 1];
      var x := es[|es| - 1];
      StaggerCountsReEntries(s, init, i0);
      assert x.name !in Names(init);
      UpdateExistingArrowsFrame(s, init, i0, x.name);
    }
  }

  /** The update of `e` itself, made from a state that agrees with `s` under `e.name`. */
  lemma UpdateExistingArrowActs(s: GlobeState, q: GlobeState, e: Entry, i: nat)
    requires e.name in s.arrows && SameAt(s, q, e.name)
    ensures UpdatedAs(s, UpdateExistingArrow(q, e, i).state, e, i)
  {
  }

  /** The update of another name leaves what an earlier update did to `e.name` in place. */
  lemma UpdateExistingArrowKeeps(s: GlobeState, q: GlobeState, e: Entry, k: nat, x: Entry, i: nat)
    requires e.name in s.arrows && UpdatedAs(s, q, e, k) && x.name in q.arrows && x.name != e.name
    ensures UpdatedAs(s, UpdateExistingArrow(q, x, i).state, e, k)
  {
  }

  lemma {:induction false} UpdateExistingArrowsOutcome(s: GlobeState, es: seq<Entry>, i0: nat, j: nat)
    requires Names(es) <= s.arrows.Keys && DistinctNames(es) && j < |es|
    ensures es[j].name in s.arrows
    ensures UpdatedAs(s, UpdateExistingArrows(s, es, i0).state, es[j], i0 + ReEntries(es[..j], s.arrowsBeingRemoved))
    decreases |es|
  {
    assert es[j] in es;
    var init := es[..|es| - 1];
    var x := es[|es| - 1];
    assert x in es;
    var q := UpdateExistingArrows(s, init, i0);
    assert UpdateExistingArrows(s, es, i0) == UpdateExistingArrow(q.state, x, q.stagger);
    if j == |es| - 1 {
      assert x.name !in Names(init);
      UpdateExistingArrowsFrame(s, init, i0, x.name);
      StaggerCountsReEntries(s, init, i0);
      assert es[..j] == init;
      UpdateExistingArrowActs(s, q.state, x, q.stagger);
    } else {
      UpdateExistingArrowsOutcome(s, init, i0, j);
      assert es[j] == init[j] && es[..j] == init[..j];
      UpdateExistingArrowKeeps(s, q.state, es[j], i0 + ReEntries(es[..j], s.arrowsBeingRemoved), x, q.stagger);
    }
  }

  /** The arrow an updated entry becomes, as updateArrows leaves it; the re-entries are
      staggered after all new arrows, in key order. */
  lemma UpdatedArrowOutcome(s: GlobeState, r: seq<Entry>, j: nat)
    requires DistinctNames(r) && j < |UpdatedEntries(r, s.arrows.Keys)|
    ensures UpdatedEntries(r, s.arrows.Keys)[j].name in s.arrows
    ensures var ups := UpdatedEntries(r, s.arrows.Keys);
      UpdatedAs(s, UpdateArrows(s, r), ups[j],
                |NewEntries(r, s.arrows.Keys)| + ReEntries(ups[..j], s.arrowsBeingRemoved))
  {
    var live := s.arrows.Keys;
    var news := NewEntries(r, live);
    var ups := UpdatedEntries(r, live);
    var e := ups[j];
    assert e in ups;
    FilteredEntriesDistinct(r, live);
    FilteredNames(r, live);
    AddNewArrowsFrame(s, news, e.name);
    var s1 := AddNewArrows(s, news);
    UpdateExistingArrowsOutcome(s1, ups, |news|, j);
    var p := UpdateExistingArrows(s1, ups, |news|);
    var k := |news| + ReEntries(ups[..j], s.arrowsBeingRemoved);
    UpdatedAsBefore(s, s1, p.state, e, k);
    RemoveArrowsFrame(p.state, live - Names(r), e.name);
    assert UpdateArrows(s, r) == RemoveArrows(p.state, live - Names(r));
    UpdatedAsAfter(s, p.state, UpdateArrows(s, r), e, k);
  }

  /** `UpdatedAs` only looks at the starting state under `e.name`. */
  lemma UpdatedAsBefore(s: GlobeState, s1: GlobeState, t: GlobeState, e: Entry, k: nat)
    requires e.name in s.arrows && SameAt(s, s1, e.name) && UpdatedAs(s1, t, e, k)
    ensures UpdatedAs(s, t, e, k)
  {
  }

  /** ... and only at the final state under `e.name`. */
  lemma UpdatedAsAfter(s: GlobeState, t: GlobeState, t': GlobeState, e: Entry, k: nat)
    requires e.name in s.arrows && UpdatedAs(s, t, e, k) && SameAt(t, t', e.name)
    ensures UpdatedAs(s, t', e, k)
  {
  }

  // ---------------------------------------------------------------------------
  // Removed names

  /** A live name missing from the replacement keeps its record and is being removed; its exit
      starts now unless one was already pending, which is left as it was. */
  lemma RemovedArrowOutcome(s: GlobeState, r: seq<Entry>, n: string)
    requires Inv(s) && n in s.arrows && n !in Names(r)
    ensures var t := UpdateArrows(s, r);
      && n in t.arrows && t.arrows[n] == s.arrows[n]
      && n in t.arrowsBeingRemoved && n !in t.arrowsBeingCreated
      && n in t.animations
      && (n in s.arrowsBeingRemoved ==> t.animations[n] == s.animations[n])
      && (n !in s.arrowsBeingRemoved ==> t.animations[n] == ExitAnimation(s.arrows[n]))
  {
    var live := s.arrows.Keys;
    var news := NewEntries(r, live);
    var ups := UpdatedEntries(r, live);
    FilteredNames(r, live);
    AddNewArrowsFrame(s, news, n);
    var s1 := AddNewArrows(s, news);
    UpdateExistingArrowsFrame(s1, ups, |news|, n);
    var p := UpdateExistingArrows(s1, ups, |news|);
    assert UpdateArrows(s, r) == RemoveArrows(p.state, live - Names(r));
  }

  lemma {:induction false} AddNewArrowsKeys(s: GlobeState, es: seq<Entry>)
    ensures AddNewArrows(s, es).arrows.Keys == s.arrows.Keys + Names(es)
    decreases |es|
  {
    if es != [] {
      AddNewArrowsKeys(s, es[..|es| - 1]);
    }
  }

  /** Reconciliation never deletes an arrow (only a completed exit does) and hands out exactly
      one index per new name. */
  lemma UpdateArrowsKeys(s: GlobeState, r: seq<Entry>)
    ensures UpdateArrows(s, r).arrows.Keys == s.arrows.Keys + Names(r)
    ensures UpdateArrows(s, r).nextUnusedMousemapIndex
      == s.nextUnusedMousemapIndex + |NewEntries(r, s.arrows.Keys)|
  {
    FilteredNames(r, s.arrows.Keys);
    AddNewArrowsKeys(s, NewEntries(r, s.arrows.Keys));
  }

  /** Supplying a name again while its exit is pending cancels the exit: the arrow survives the
      next frame whatever its timestamp. */
  lemma ResupplyCancelsPendingExit(s: GlobeState, r: seq<Entry>, n: string, timestamp: real)
    requires Inv(s) && DistinctNames(r) && n in s.arrowsBeingRemoved && n in Names(r)
    ensures var t := UpdateArrows(s, r);
      Inv(t) && n in Ticking.Tick(t, timestamp).arrows
  {
    var live := s.arrows.Keys;
    var ups := UpdatedEntries(r, live);
    FilteredNames(r, live);
    assert n in Names(ups);
    var j :| 0 <= j < |ups| && ups[j].name == n;
    UpdatedArrowOutcome(s, r, j);
    UpdateArrowsPreservesInv(s, r);
    TickingProperties.TickRemovesOnlyCompletedExits(UpdateArrows(s, r), n, timestamp);
  }

  // ---------------------------------------------------------------------------
  // The picking index of an updated arrow

  /** As written, an arrow updated with a fresh object and later removed leaves its reverse
      entry behind: the entry still names the arrow after the arrow is gone. */
  lemma UpdateThenExitLeavesStaleEntry(s: GlobeState, n: string, spec: ArrowSpec)
    requires Inv(s) && n in s.arrows
    ensures var stored := UpdatedRecordAsWritten(s.arrows[n], spec, None);
      var reverse := ReverseAfterExit(s.arrowByMousemapIndex, stored.mousemapIndex);
      && s.arrows[n].mousemapIndex in reverse
      && reverse[s.arrows[n].mousemapIndex] == n
  {
  }

  /** The model keeps the index, so the exit removes exactly the arrow's own reverse entry and
      every other entry survives. */
  lemma UpdateThenExitRemovesEntry(s: GlobeState, n: string, spec: ArrowSpec)
    requires Inv(s) && n in s.arrows
    ensures var reverse := ReverseAfterExit(s.arrowByMousemapIndex, Some(UpdatedRecord(s.arrows[n], spec).mousemapIndex));
      && (forall k :: k in reverse ==> reverse[k] != n)
      && (forall m :: m in s.arrows && m != n ==> s.arrows[m].mousemapIndex in reverse)
  {
    forall m | m in s.arrows && m != n
      ensures s.arrows[m].mousemapIndex in ReverseAfterExit(s.arrowByMousemapIndex, Some(s.arrows[n].mousemapIndex))
    {
      LiveIndicesUnique(s, m, n);
    }
  }
}
