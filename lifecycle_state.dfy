/**
 * The closure state of globe.js that drives the arrow lifecycle, as one value: the live
 * arrows, the picking reverse map and its counter, the two flag sets and the animation table.
 * The counter `num_animation_functions` is kept beside this state by the Globe class.
 */
module LifecycleState {
  import opened ArrowRecords
  import opened Scheduling

  /** Duration of an enter, score fade and full exit, in milliseconds. */
  const ENTER_DURATION: real := 2000.0
  /** Delay between the starts of two consecutive enter animations. */
  const STAGGER: real := 40.0

  datatype GlobeState = GlobeState(
    arrows: map<string, Arrow>,
    arrowByMousemapIndex: map<int, string>,
    nextUnusedMousemapIndex: int,
    arrowsBeingCreated: set<string>,
    arrowsBeingRemoved: set<string>,
    animations: map<string, Animation>,
    meshesCreated: nat)

  /** The state when the globe is constructed. */
  function Initial(): GlobeState
  {
    GlobeState(map[], map[], 1, {}, {}, map[], 0)
  }

  // ---------------------------------------------------------------------------
  // Invariants

  /** Every live arrow holds an index that was handed out: at least 1, below the counter. */
  ghost predicate IndicesAllocated(s: GlobeState)
  {
    && 1 <= s.nextUnusedMousemapIndex
    && forall n :: n in s.arrows ==> 1 <= s.arrows[n].mousemapIndex < s.nextUnusedMousemapIndex
  }

  /** The reverse map holds exactly one entry per live arrow, under that arrow's index. */
  ghost predicate ReverseAgrees(s: GlobeState)
  {
    && (forall n :: n in s.arrows ==>
          s.arrows[n].mousemapIndex in s.arrowByMousemapIndex
          && s.arrowByMousemapIndex[s.arrows[n].mousemapIndex] == n)
    && (forall i :: i in s.arrowByMousemapIndex ==>
          s.arrowByMousemapIndex[i] in s.arrows
          && s.arrows[s.arrowByMousemapIndex[i]].mousemapIndex == i)
  }

  /** Only live arrows are animated, and each flag set says which kind of animation is pending:
      being removed exactly when an exit is pending, being created exactly when an enter or
      re-enter is pending. */
  ghost predicate FlagsMirrorAnimations(s: GlobeState)
  {
    && s.animations.Keys <= s.arrows.Keys
    && (forall n :: n in s.arrowsBeingRemoved <==> n in s.animations && s.animations[n].kind.Exit?)
    && (forall n :: n in s.arrowsBeingCreated <==>
          n in s.animations && (s.animations[n].kind.Enter? || s.animations[n].kind.ReEnter?))
  }

  predicate WellFormed(a: Animation)
  {
    && a.duration >= 0.0
    && a.delay >= 0.0
    && match a.kind
       case ReEnter(p, _) => 0.0 <= p <= 1.0
       case Exit(p) => 0.0 <= p <= 1.0
       case _ => true
  }

  ghost predicate AnimationsWellFormed(s: GlobeState)
  {
    forall n :: n in s.animations ==> WellFormed(s.animations[n])
  }

  /** How much of each arrow is drawn stays a fraction. */
  ghost predicate PositionsInRange(s: GlobeState)
  {
    forall n :: n in s.arrows ==> 0.0 <= s.arrows[n].animationPosition <= 1.0
  }

  /** Both meshes of an arrow carry the arrow's name (picking reports `mesh.name`). */
  ghost predicate MeshesNamed(s: GlobeState)
  {
    forall n :: n in s.arrows ==> s.arrows[n].mesh.name == n && s.arrows[n].mousemapMesh.name == n
  }

  ghost predicate Inv(s: GlobeState)
  {
    && IndicesAllocated(s)
    && ReverseAgrees(s)
    && FlagsMirrorAnimations(s)
    && AnimationsWellFormed(s)
    && PositionsInRange(s)
    && MeshesNamed(s)
  }

  lemma InitialInv()
    ensures Inv(Initial())
  {
  }

  /** Two live arrows never share a picking index. */
  lemma LiveIndicesUnique(s: GlobeState, m: string, n: string)
    requires ReverseAgrees(s) && m in s.arrows && n in s.arrows && m != n
    ensures s.arrows[m].mousemapIndex != s.arrows[n].mousemapIndex
  {
  }
}
