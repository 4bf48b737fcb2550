/**
 * The animation scheduler of globe.js (`startAnimation`, `runAnimationFunctions`):
 * a table of named step functions. Each step function is modelled by the data its
 * closure captures: what it animates, its duration and delay, and the cell that
 * remembers the first timestamp it saw.
 */
module Scheduling {
  import opened ArrowRecords
  import opened Easing

  /** What a step function does with the eased progress `t` (the `action` closures of updateArrows). */
  datatype AnimationKind =
    | Enter                                   // position := t
    | ReEnter(startPos: real, startScore: real) // position and score grow back from where the exit stopped
    | ScoreFade(startScore: real)             // score moves towards the arrow's score
    | Exit(startPos: real)                    // position shrinks to 0

  datatype Animation = Animation(kind: AnimationKind, duration: real, delay: real, firstTimestamp: Option<real>)

  /** The result of running one step function once: its new closure state, the eased
      progress it passed to its action (None when still inside the delay), and whether it finished. */
  datatype StepOutcome = StepOutcome(next: Animation, progress: Option<real>, finished: bool)

  function Min(a: real, b: real): real
  {
    if a <= b then a else b
  }

  /** The timestamp from which a step function measures time once it has run at `timestamp`. */
  function FirstSeen(a: Animation, timestamp: real): real
  {
    if a.firstTimestamp.None? then timestamp else a.firstTimestamp.value
  }

  /** One call of the step function that `startAnimation` registers. */
  function Step(a: Animation, timestamp: real): (o: StepOutcome)
    ensures o.next.kind == a.kind && o.next.duration == a.duration && o.next.delay == a.delay
    ensures o.next.firstTimestamp.Some?
    ensures a.firstTimestamp.Some? ==> o.next.firstTimestamp == a.firstTimestamp
    ensures o.finished ==> o.progress.Some?
  {
    var first := if a.firstTimestamp.None? then timestamp else a.firstTimestamp.value;
    var next := a.(firstTimestamp := Some(first));
    var dt := timestamp - first;
    if dt < a.delay then StepOutcome(next, None, false)
    else
      var elapsed := dt - a.delay;
      var p := if a.duration == 0.0 then 1.0 else Min(1.0, elapsed / a.duration);
      StepOutcome(next, Some(Ease(p)), elapsed >= a.duration)
  }

  /** A step inside the delay does nothing; after it, the step finishes exactly when the
      duration has elapsed since the delay ended. */
  lemma StepTiming(a: Animation, timestamp: real)
    requires a.duration >= 0.0
    ensures var dt := timestamp - FirstSeen(a, timestamp);
      && (Step(a, timestamp).progress.None? <==> dt < a.delay)
      && (Step(a, timestamp).finished <==> dt >= a.delay + a.duration)
  {
  }

  lemma QuotientMonotone(e1: real, e2: real, d: real)
    requires 0.0 <= e1 <= e2 && d > 0.0
    ensures 0.0 <= e1 / d <= e2 / d
  {
    assert e2 / d - e1 / d == (e2 - e1) / d;
  }

  /** With a non-negative duration the eased progress stays in [0, 1], and a finished step
      reports progress exactly 1, so every animation ends at its target value. */
  lemma StepProgressInUnitInterval(a: Animation, timestamp: real)
    requires a.duration >= 0.0
    ensures Step(a, timestamp).progress.Some? ==> 0.0 <= Step(a, timestamp).progress.value <= 1.0
    ensures Step(a, timestamp).finished ==> Step(a, timestamp).progress == Some(1.0)
  {
    var first := FirstSeen(a, timestamp);
    var dt := timestamp - first;
    if dt >= a.delay {
      var elapsed := dt - a.delay;
      var p := if a.duration == 0.0 then 1.0 else Min(1.0, elapsed / a.duration);
      if a.duration != 0.0 {
        if elapsed >= a.duration {
          QuotientMonotone(a.duration, elapsed, a.duration);
          assert a.duration / a.duration == 1.0;
        } else {
          QuotientMonotone(0.0, elapsed, a.duration);
        }
      }
      EaseStaysInUnitInterval(p);
      EaseFixedPoints();
    }
  }

  /** Once a step function has seen its first timestamp, later frames never report less progress. */
  lemma StepProgressMonotone(a: Animation, t1: real, t2: real)
    requires a.duration >= 0.0 && a.firstTimestamp.Some? && t1 <= t2
    requires Step(a, t1).progress.Some?
    ensures Step(a, t2).progress.Some?
    ensures Step(a, t1).progress.value <= Step(a, t2).progress.value
  {
    var e1 := t1 - a.firstTimestamp.value - a.delay;
    var e2 := t2 - a.firstTimestamp.value - a.delay;
    if a.duration != 0.0 {
      QuotientMonotone(e1, e2, a.duration);
      EaseMonotone(Min(1.0, e1 / a.duration), Min(1.0, e2 / a.duration));
    }
  }

  // ---------------------------------------------------------------------------
  // The table of step functions together with `num_animation_functions`.

  datatype Registry = Registry(table: map<string, Animation>, count: int)

  /** `startAnimation` as written: the counter goes up on every start, even one that
      overwrites an entry already in the table. */
  function StartAsWritten(g: Registry, name: string, a: Animation): (r: Registry)
    ensures r.table == g.table[name := a] && r.count == g.count + 1
  {
    Registry(g.table[name := a], g.count + 1)
  }

  /** `startAnimation` with the counter kept equal to the number of table entries:
      overwriting an entry does not count it twice. */
  function Start(g: Registry, name: string, a: Animation): (r: Registry)
    ensures r.table == g.table[name := a]
    ensures g.count == |g.table| ==> r.count == |r.table|
  {
    Registry(g.table[name := a], if name in g.table then g.count else g.count + 1)
  }

  /** Deleting a finished entry in `runAnimationFunctions`. */
  function Finish(g: Registry, name: string): (r: Registry)
    requires name in g.table
    ensures name !in r.table && r.table.Keys == g.table.Keys - {name}
    ensures g.count == |g.table| ==> r.count == |r.table|
  {
    assert (g.table - {name}).Keys == g.table.Keys - {name};
    Registry(g.table - {name}, g.count - 1)
  }

  /** As written, overwriting a pending entry leaves the counter one above the table size,
      and no later deletion takes that surplus back. */
  lemma StartAsWrittenOverwriteOvercounts(g: Registry, name: string, a: Animation, b: Animation)
    requires g.count == |g.table| && name !in g.table
    ensures var h := StartAsWritten(StartAsWritten(g, name, a), name, b);
      h.count == |h.table| + 1
    ensures var h := StartAsWritten(StartAsWritten(g, name, a), name, b);
      Finish(h, name).count == |Finish(h, name).table| + 1
  {
    var h := StartAsWritten(StartAsWritten(g, name, a), name, b);
    assert h.table.Keys == g.table.Keys + {name};
    assert |h.table| == |g.table| + 1;
    assert Finish(h, name).table.Keys == g.table.Keys;
  }

  /** One change to the table: a start, or the deletion of a finished entry. */
  datatype TableOp = StartOp(name: string, anim: Animation) | FinishOp(name: string)

  /** The table and counter after `ops`, with every start as written. A deletion happens only
      for an entry the table holds, as `runAnimationFunctions` deletes only what it visits. */
  function ApplyAsWritten(g: Registry, ops: seq<TableOp>): Registry
    decreases |ops|
  {
    if ops == [] then g
    else
      var h := ApplyAsWritten(g, ops[..|ops| - 1]);
      match ops[|ops| - 1]
      case StartOp(n, a) => StartAsWritten(h, n, a)
      case FinishOp(n) => if n in h.table then Finish(h, n) else h
  }

  /** As written, the surplus of the counter over the table size never shrinks: a start adds
      one to the counter and at most one entry, a deletion takes one from each. */
  lemma {:induction false} AsWrittenSurplusNeverShrinks(g: Registry, ops: seq<TableOp>)
    ensures ApplyAsWritten(g, ops).count - |ApplyAsWritten(g, ops).table| >= g.count - |g.table|
    decreases |ops|
  {
    if ops != [] {
      var h := ApplyAsWritten(g, ops[..|ops| - 1]);
      AsWrittenSurplusNeverShrinks(g, ops[..|ops| - 1]);
      match ops[|ops| - 1]
      case StartOp(n, a) =>
        if n in h.table {
          assert h.table[n := a].Keys == h.table.Keys;
        } else {
          assert h.table[n := a].Keys == h.table.Keys + {n};
        }
      case FinishOp(n) =>
        if n in h.table {
          assert |Finish(h, n).table.Keys| == |h.table.Keys| - 1;
        }
    }
  }

  /** The corrected start never lets the counter drift: starting twice under one name and
      finishing that entry brings the counter back to where it was. */
  lemma StartOverwriteThenFinishRestoresCount(g: Registry, name: string, a: Animation, b: Animation)
    requires g.count == |g.table| && name !in g.table
    ensures Finish(Start(Start(g, name, a), name, b), name).count == g.count
  {
    var h := Start(Start(g, name, a), name, b);
    assert Finish(h, name).table.Keys == g.table.Keys;
  }
}
