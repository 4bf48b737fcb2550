/**
 * One frame of the animation scheduler (globe.js `runAnimationFunctions`) over the lifecycle
 * state: every pending step function runs once; what it does to its arrow is given by its
 * kind (the `action` closures), and when it finishes its `onEnd` closure runs and its entry
 * is deleted.
 */
module Ticking {
  import opened ArrowRecords
  import opened Scheduling
  import opened LifecycleState

  /** The `action` closures of updateArrows, applied to eased progress `t`. */
  function Advance(kind: AnimationKind, a: Arrow, t: real): (r: Arrow)
    ensures r.mousemapIndex == a.mousemapIndex && r.mesh == a.mesh && r.mousemapMesh == a.mousemapMesh
    ensures r.score == a.score && r.src == a.src && r.dst == a.dst
    ensures kind.ScoreFade? ==> r.animationPosition == a.animationPosition
    ensures kind.Enter? || kind.Exit? ==> r.animationScore == a.animationScore
    ensures t == 0.0 ==> match kind
      case Enter => r.animationPosition == 0.0
      case ReEnter(p, sc) => r.animationPosition == p && r.animationScore == sc
      case ScoreFade(sc) => r.animationScore == sc
      case Exit(p) => r.animationPosition == p
    ensures t == 1.0 ==> match kind
      case Enter => r.animationPosition == 1.0
      case ReEnter(_, _) => r.animationPosition == 1.0 && r.animationScore == a.score
      case ScoreFade(_) => r.animationScore == a.score
      case Exit(_) => r.animationPosition == 0.0
  {
    match kind
    case Enter => a.(animationPosition := t)
    case ReEnter(p, sc) => a.(animationPosition := p + t * (1.0 - p), animationScore := sc + t * (a.score - sc))
    case ScoreFade(sc) => a.(animationScore := sc + t * (a.score - sc))
    case Exit(p) => a.(animationPosition := p - t * p)
  }

  /** The step function registered under `name` runs once at `timestamp`; a finished one runs
      its `onEnd` and leaves the table. */
  function RunEntry(s: GlobeState, name: string, timestamp: real): GlobeState
    requires name in s.animations && name in s.arrows
  {
    var anim := s.animations[name];
    var o := Step(anim, timestamp);
    var arrows := if o.progress.Some? then s.arrows[name := Advance(anim.kind, s.arrows[name], o.progress.value)] else s.arrows;
    if !o.finished then
      s.(arrows := arrows, animations := s.animations[name := o.next])
    else
      var s1 := s.(arrows := arrows, animations := s.animations - {name});
      match anim.kind
      case Enter => s1.(arrowsBeingCreated := s.arrowsBeingCreated - {name})
      case ReEnter(_, _) => s1.(arrowsBeingCreated := s.arrowsBeingCreated - {name})
      case ScoreFade(_) => s1
      case Exit(_) =>
        s1.(arrows := arrows - {name},
            arrowByMousemapIndex := s.arrowByMousemapIndex - {arrows[name].mousemapIndex},
            arrowsBeingRemoved := s.arrowsBeingRemoved - {name})
  }

  // ---------------------------------------------------------------------------
  // The frame in closed form: the state after the entries named in `P` have run, in any order.

  function Finished(s: GlobeState, P: set<string>, timestamp: real): set<string>
  {
    set n | n in P && n in s.animations && Step(s.animations[n], timestamp).finished
  }

  function ExitsDone(s: GlobeState, P: set<string>, timestamp: real): set<string>
  {
    set n | n in Finished(s, P, timestamp) && s.animations[n].kind.Exit?
  }

  function EntersDone(s: GlobeState, P: set<string>, timestamp: real): set<string>
  {
    set n | n in Finished(s, P, timestamp) && (s.animations[n].kind.Enter? || s.animations[n].kind.ReEnter?)
  }

  /** The arrow `n` after its step function (if it has one) has run at `timestamp`. */
  function Advanced(s: GlobeState, n: string, timestamp: real): Arrow
    requires n in s.arrows
  {
    if n in s.animations && Step(s.animations[n], timestamp).progress.Some? then
      Advance(s.animations[n].kind, s.arrows[n], Step(s.animations[n], timestamp).progress.value)
    else s.arrows[n]
  }

  function RunEntries(s: GlobeState, P: set<string>, timestamp: real): GlobeState
    requires P <= s.animations.Keys <= s.arrows.Keys
  {
    var done := Finished(s, P, timestamp);
    var exits := ExitsDone(s, P, timestamp);
    s.(arrows := map n | n in s.arrows && n !in exits :: if n in P then Advanced(s, n, timestamp) else s.arrows[n],
       arrowByMousemapIndex := s.arrowByMousemapIndex - (set n | n in exits :: s.arrows[n].mousemapIndex),
       arrowsBeingCreated := s.arrowsBeingCreated - EntersDone(s, P, timestamp),
       arrowsBeingRemoved := s.arrowsBeingRemoved - exits,
       animations := map n | n in s.animations && n !in done :: if n in P then Step(s.animations[n], timestamp).next else s.animations[n])
  }

  /** `runAnimationFunctions(timestamp)`: every pending entry runs once. */
  function Tick(s: GlobeState, timestamp: real): GlobeState
    requires s.animations.Keys <= s.arrows.Keys
  {
    RunEntries(s, s.animations.Keys, timestamp)
  }

  /** Before any entry has run, the state is the one the frame started with. */
  lemma RunEntriesNone(s: GlobeState, timestamp: real)
    requires s.animations.Keys <= s.arrows.Keys
    ensures RunEntries(s, {}, timestamp) == s
  {
    var t := RunEntries(s, {}, timestamp);
    assert t.arrows == s.arrows;
    assert t.animations == s.animations;
  }

  /** Running one more entry extends the closed form by that entry: the order in which the
      entries run does not matter. */
  lemma RunEntriesStep(s: GlobeState, P: set<string>, k: string, timestamp: real)
    requires P <= s.animations.Keys <= s.arrows.Keys
    requires k in s.animations && k !in P
    ensures var t := RunEntries(s, P, timestamp);
      && k in t.animations && k in t.arrows
      && RunEntries(s, P + {k}, timestamp) == RunEntry(t, k, timestamp)
  {
    var t := RunEntries(s, P, timestamp);
    assert t.animations[k] == s.animations[k];
    assert t.arrows[k] == s.arrows[k];
    StepArrows(s, P, k, timestamp);
    StepReverse(s, P, k, timestamp);
    StepFlags(s, P, k, timestamp);
    StepAnimations(s, P, k, timestamp);
  }

  lemma StepArrows(s: GlobeState, P: set<string>, k: string, timestamp: real)
    requires P <= s.animations.Keys <= s.arrows.Keys
    requires k in s.animations && k !in P
    ensures var t := RunEntries(s, P, timestamp);
      && t.arrows[k] == s.arrows[k] && t.animations[k] == s.animations[k]
      && RunEntries(s, P + {k}, timestamp).arrows == RunEntry(t, k, timestamp).arrows
  {
    var t := RunEntries(s, P, timestamp);
    assert t.animations[k] == s.animations[k];
    assert t.arrows[k] == s.arrows[k];
    if Step(s.animations[k], timestamp).finished && s.animations[k].kind.Exit? {
      StepArrowsExit(s, P, k, timestamp);
    } else {
      StepArrowsStay(s, P, k, timestamp);
    }
  }

  lemma StepArrowsExit(s: GlobeState, P: set<string>, k: string, timestamp: real)
    requires P <= s.animations.Keys <= s.arrows.Keys
    requires k in s.animations && k !in P
    requires Step(s.animations[k], timestamp).finished && s.animations[k].kind.Exit?
    ensures RunEntries(s, P + {k}, timestamp).arrows == RunEntries(s, P, timestamp).arrows - {k}
  {
  }

  lemma StepArrowsStay(s: GlobeState, P: set<string>, k: string, timestamp: real)
    requires P <= s.animations.Keys <= s.arrows.Keys
    requires k in s.animations && k !in P
    requires !(Step(s.animations[k], timestamp).finished && s.animations[k].kind.Exit?)
    ensures RunEntries(s, P + {k}, timestamp).arrows
         == RunEntries(s, P, timestamp).arrows[k := Advanced(s, k, timestamp)]
  {
  }

  lemma StepReverse(s: GlobeState, P: set<string>, k: string, timestamp: real)
    requires P <= s.animations.Keys <= s.arrows.Keys
    requires k in s.animations && k !in P
    ensures var t := RunEntries(s, P, timestamp);
      && k in t.animations && k in t.arrows
      && RunEntries(s, P + {k}, timestamp).arrowByMousemapIndex == RunEntry(t, k, timestamp).arrowByMousemapIndex
  {
    var t := RunEntries(s, P, timestamp);
    assert t.animations[k] == s.animations[k];
    assert t.arrows[k] == s.arrows[k];
    if Step(s.animations[k], timestamp).finished && s.animations[k].kind.Exit? {
      StepReverseExit(s, P, k, timestamp);
    } else {
      assert ExitsDone(s, P + {k}, timestamp) == ExitsDone(s, P, timestamp);
    }
  }

  lemma StepReverseExit(s: GlobeState, P: set<string>, k: string, timestamp: real)
    requires P <= s.animations.Keys <= s.arrows.Keys
    requires k in s.animations && k !in P
    requires Step(s.animations[k], timestamp).finished && s.animations[k].kind.Exit?
    ensures RunEntries(s, P + {k}, timestamp).arrowByMousemapIndex
         == RunEntries(s, P, timestamp).arrowByMousemapIndex - {s.arrows[k].mousemapIndex}
  {
    assert ExitsDone(s, P + {k}, timestamp) == ExitsDone(s, P, timestamp) + {k};
  }

  lemma StepFlags(s: GlobeState, P: set<string>, k: string, timestamp: real)
    requires P <= s.animations.Keys <= s.arrows.Keys
    requires k in s.animations && k !in P
    ensures var t := RunEntries(s, P, timestamp);
      && k in t.animations && k in t.arrows
      && RunEntries(s, P + {k}, timestamp).arrowsBeingCreated == RunEntry(t, k, timestamp).arrowsBeingCreated
      && RunEntries(s, P + {k}, timestamp).arrowsBeingRemoved == RunEntry(t, k, timestamp).arrowsBeingRemoved
  {
    var t := RunEntries(s, P, timestamp);
    assert t.animations[k] == s.animations[k];
    assert t.arrows[k] == s.arrows[k];
    if !Step(s.animations[k], timestamp).finished {
      assert Finished(s, P + {k}, timestamp) == Finished(s, P, timestamp);
    } else {
      assert Finished(s, P + {k}, timestamp) == Finished(s, P, timestamp) + {k};
    }
  }

  lemma StepAnimations(s: GlobeState, P: set<string>, k: string, timestamp: real)
    requires P <= s.animations.Keys <= s.arrows.Keys
    requires k in s.animations && k !in P
    ensures var t := RunEntries(s, P, timestamp);
      && k in t.animations && k in t.arrows
      && RunEntries(s, P + {k}, timestamp).animations == RunEntry(t, k, timestamp).animations
  {
    var t := RunEntries(s, P, timestamp);
    assert t.animations[k] == s.animations[k];
    assert t.arrows[k] == s.arrows[k];
    if Step(s.animations[k], timestamp).finished {
      StepAnimationsFinished(s, P, k, timestamp);
    } else {
      StepAnimationsPending(s, P, k, timestamp);
    }
  }

  lemma StepAnimationsFinished(s: GlobeState, P: set<string>, k: string, timestamp: real)
    requires P <= s.animations.Keys <= s.arrows.Keys
    requires k in s.animations && k !in P
    requires Step(s.animations[k], timestamp).finished
    ensures RunEntries(s, P + {k}, timestamp).animations == RunEntries(s, P, timestamp).animations - {k}
  {
    assert Finished(s, P + {k}, timestamp) == Finished(s, P, timestamp) + {k};
  }

  lemma StepAnimationsPending(s: GlobeState, P: set<string>, k: string, timestamp: real)
    requires P <= s.animations.Keys <= s.arrows.Keys
    requires k in s.animations && k !in P
    requires !Step(s.animations[k], timestamp).finished
    ensures RunEntries(s, P + {k}, timestamp).animations
         == RunEntries(s, P, timestamp).animations[k := Step(s.animations[k], timestamp).next]
  {
    assert Finished(s, P + {k}, timestamp) == Finished(s, P, timestamp);
  }
}

module TickingProperties {
  import opened ArrowRecords
  import opened Scheduling
  import opened LifecycleState
  import opened Ticking

  lemma ScaleBetween(t: real, x: real)
    requires 0.0 <= t <= 1.0 && 0.0 <= x
    ensures 0.0 <= t * x <= x
  {
    assert x - t * x == (1.0 - t) * x;
  }

  /** Every `action` closure keeps the drawn fraction of a well-formed animation's arrow
      within [0, 1]. */
  lemma AdvanceInRange(kind: AnimationKind, a: Arrow, t: real)
    requires 0.0 <= t <= 1.0 && 0.0 <= a.animationPosition <= 1.0
    requires kind.ReEnter? ==> 0.0 <= kind.startPos <= 1.0
    requires kind.Exit? ==> 0.0 <= kind.startPos <= 1.0
    ensures 0.0 <= Advance(kind, a, t).animationPosition <= 1.0
  {
    match kind
    case Enter =>
    case ReEnter(p, _) =>
      ScaleBetween(t, 1.0 - p);
      assert t * (1.0 - p) <= 1.0 - p;
      assert p + t * (1.0 - p) <= 1.0;
      assert Advance(kind, a, t).animationPosition == p + t * (1.0 - p);
    case ScoreFade(_) =>
    case Exit(p) =>
      ScaleBetween(t, p);
      assert Advance(kind, a, t).animationPosition == p - t * p;
  }

  /** An arrow's position stays a fraction while its own step function moves it. */
  lemma AdvancedInRange(s: GlobeState, n: string, timestamp: real)
    requires n in s.arrows && 0.0 <= s.arrows[n].animationPosition <= 1.0
    requires n in s.animations ==> WellFormed(s.animations[n])
    ensures 0.0 <= Advanced(s, n, timestamp).animationPosition <= 1.0
  {
    if n in s.animations && Step(s.animations[n], timestamp).progress.Some? {
      var a := s.animations[n];
      StepProgressInUnitInterval(a, timestamp);
      AdvanceInRange(a.kind, s.arrows[n], Step(a, timestamp).progress.value);
    }
  }

  /** The reverse map still agrees with the live set after a frame: the entries removed are
      exactly those of the arrows whose exit completed. */
  lemma TickKeepsReverseAgreeing(s: GlobeState, timestamp: real)
    requires Inv(s)
    ensures ReverseAgrees(Tick(s, timestamp))
  {
    var t := Tick(s, timestamp);
    var exits := ExitsDone(s, s.animations.Keys, timestamp);
    var gone := set m | m in exits :: s.arrows[m].mousemapIndex;
    forall n | n in t.arrows
      ensures t.arrows[n].mousemapIndex in t.arrowByMousemapIndex
      ensures t.arrowByMousemapIndex[t.arrows[n].mousemapIndex] == n
    {
      assert n !in exits;
    }
    forall i | i in t.arrowByMousemapIndex
      ensures t.arrowByMousemapIndex[i] in t.arrows
      ensures t.arrows[t.arrowByMousemapIndex[i]].mousemapIndex == i
    {
      var m := s.arrowByMousemapIndex[i];
      assert m !in exits;
    }
  }

  /** A frame keeps every invariant of the lifecycle state. */
  lemma TickPreservesInv(s: GlobeState, timestamp: real)
    requires Inv(s)
    ensures Inv(Tick(s, timestamp))
  {
    TickKeepsReverseAgreeing(s, timestamp);
    TickKeepsPositionsInRange(s, timestamp);
    TickKeepsFlagsMirrored(s, timestamp);
  }

  lemma TickKeepsPositionsInRange(s: GlobeState, timestamp: real)
    requires s.animations.Keys <= s.arrows.Keys && PositionsInRange(s) && AnimationsWellFormed(s)
    ensures PositionsInRange(Tick(s, timestamp))
  {
    var t := Tick(s, timestamp);
    forall n | n in t.arrows
      ensures 0.0 <= t.arrows[n].animationPosition <= 1.0
    {
      AdvancedInRange(s, n, timestamp);
    }
  }

  lemma TickKeepsFlagsMirrored(s: GlobeState, timestamp: real)
    requires FlagsMirrorAnimations(s)
    ensures FlagsMirrorAnimations(Tick(s, timestamp))
  {
  }

  /** An arrow leaves the live set in a frame exactly when its own exit animation completes
      in that frame; an arrow with no pending animation is left untouched. */
  lemma TickRemovesOnlyCompletedExits(s: GlobeState, n: string, timestamp: real)
    requires Inv(s) && n in s.arrows
    ensures n !in Tick(s, timestamp).arrows <==>
      n in s.animations && s.animations[n].kind.Exit? && Step(s.animations[n], timestamp).finished
    ensures n !in s.animations ==> n in Tick(s, timestamp).arrows && Tick(s, timestamp).arrows[n] == s.arrows[n]
  {
  }

  /** Every animation ends exactly at its target: an enter or re-enter leaves the arrow fully
      drawn and clears its being-created flag, a re-enter or score fade leaves the displayed
      score at the arrow's score, and an exit deletes the arrow with its reverse-map entry
      and its being-removed flag. */
  lemma FinishedAnimationReachesTarget(s: GlobeState, n: string, timestamp: real)
    requires Inv(s) && n in s.animations && Step(s.animations[n], timestamp).finished
    ensures var t := Tick(s, timestamp);
      && n !in t.animations
      && (s.animations[n].kind.Enter? || s.animations[n].kind.ReEnter?  ==>
            n in t.arrows && t.arrows[n].animationPosition == 1.0 && n !in t.arrowsBeingCreated)
      && (s.animations[n].kind.ReEnter? || s.animations[n].kind.ScoreFade?  ==>
            n in t.arrows && t.arrows[n].animationScore == t.arrows[n].score)
      && (s.animations[n].kind.Exit? ==>
            n !in t.arrows && n !in t.arrowsBeingRemoved
            && s.arrows[n].mousemapIndex !in t.arrowByMousemapIndex)
  {
    StepProgressInUnitInterval(s.animations[n], timestamp);
    assert n in Finished(s, s.animations.Keys, timestamp);
    if s.animations[n].kind.Exit? {
      assert n in ExitsDone(s, s.animations.Keys, timestamp);
    }
  }
}
