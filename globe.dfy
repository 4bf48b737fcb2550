/**
 * The globe object (globe.js): the closure state as the fields of one class, and the
 * functions of the closure that change it as its methods. Each method is specified by the
 * value-level functions of the other modules, applied to the state the method found.
 */
module GlobeModel {
  import opened ArrowRecords
  import opened Scheduling
  import opened LifecycleState
  import Reconcile
  import ReconcileProperties
  import Ticking
  import TickingProperties
  import Picking
  import opened View
  import opened Appearance

  /** A call of `notifyStateChange(key, value)`; the handlers it reaches are not modelled. */
  datatype Notification = Notification(key: string, value: real)

  /** A callback passed to `whenTextureLoaded`, by identity. */
  type Callback = nat

  /** Splits the replacement into new names, updated names and the live names it leaves out,
      as the first two loops of updateArrows do. */
  method SplitNames(r: seq<Entry>, live: set<string>)
    returns (news: seq<Entry>, ups: seq<Entry>, removed: set<string>)
    ensures news == Reconcile.NewEntries(r, live)
    ensures ups == Reconcile.UpdatedEntries(r, live)
    ensures removed == live - Names(r)
  {
    removed := live;
    news := [];
    ups := [];
    var k := 0;
    while k < |r|
      invariant 0 <= k <= |r|
      invariant news == Reconcile.NewEntries(r[..k], live)
      invariant ups == Reconcile.UpdatedEntries(r[..k], live)
      invariant removed == live - Names(r[..k])
    {
      if r[k].name in live {
        ups := ups + [r[k]];
      } else {
        news := news + [r[k]];
      }
      removed := removed - {r[k].name};
      assert r[..k + 1] == r[..k] + [r[k]];
      Reconcile.NamesSnoc(r[..k], r[k]);
      k := k + 1;
    }
    assert r[..k] == r;
  }

  class Globe {
    // The arrow lifecycle (globe.js:76-78, 588-589) and the animation table (globe.js:376-377).
    var arrows: map<string, Arrow>
    var arrowByMousemapIndex: map<int, string>
    var nextUnusedMousemapIndex: int
    var arrowsBeingCreated: set<string>
    var arrowsBeingRemoved: set<string>
    var animations: map<string, Animation>
    var meshesCreated: nat
    var numAnimationFunctions: int

    // The camera and the input flags that gate picking.
    var redraw: bool
    var rotationX: real
    var rotationY: real
    var rotationTargetX: real
    var rotationTargetY: real
    var distance: real
    var distanceTarget: real
    var dragging: bool
    var touchStarted: bool
    var notifications: seq<Notification>

    // The texture-ready queue; `invoked` records the callbacks run, in order.
    var textureHasLoaded: bool
    var runWhenTextureLoaded: seq<Callback>
    var invoked: seq<Callback>
    ghost var registered: seq<Callback>

    // Colours.
    var highlightedArrowName: Option<string>
    var arrowColor: Rgb
    var arrowHighlightColor: Rgb

    /** The lifecycle part of the object, as a value. */
    function State(): GlobeState
      reads this`arrows, this`arrowByMousemapIndex, this`nextUnusedMousemapIndex,
            this`arrowsBeingCreated, this`arrowsBeingRemoved, this`animations, this`meshesCreated
    {
      GlobeState(arrows, arrowByMousemapIndex, nextUnusedMousemapIndex,
                 arrowsBeingCreated, arrowsBeingRemoved, animations, meshesCreated)
    }

    function Cam(): Camera
      reads this`rotationX, this`rotationY, this`rotationTargetX, this`rotationTargetY,
            this`distance, this`distanceTarget
    {
      Camera(rotationX, rotationY, rotationTargetX, rotationTargetY, distance, distanceTarget)
    }

    /** The lifecycle invariant, the counter equal to the table size, the clamped targets, and
        every callback ever registered either run or still queued, in registration order. */
    ghost predicate Valid()
      reads this
    {
      LifecycleValid() && TargetsValid() && QueueValid()
    }

    ghost predicate LifecycleValid()
      reads this`arrows, this`arrowByMousemapIndex, this`nextUnusedMousemapIndex,
            this`arrowsBeingCreated, this`arrowsBeingRemoved, this`animations, this`meshesCreated,
            this`numAnimationFunctions
    {
      Inv(State()) && SchedulerConsistent()
    }

    /** What the scheduler itself relies on: every step function belongs to a live arrow, and
        the counter equals the number of step functions. */
    predicate SchedulerConsistent()
      reads this`arrows, this`animations, this`numAnimationFunctions
    {
      animations.Keys <= arrows.Keys && numAnimationFunctions == |animations|
    }

    ghost predicate TargetsValid()
      reads this`distanceTarget, this`rotationTargetY
    {
      MIN_DISTANCE <= distanceTarget <= MAX_DISTANCE && -PI_HALF <= rotationTargetY <= PI_HALF
    }

    ghost predicate QueueValid()
      reads this`invoked, this`runWhenTextureLoaded, this`registered, this`textureHasLoaded
    {
      invoked + runWhenTextureLoaded == registered && (textureHasLoaded ==> runWhenTextureLoaded == [])
    }

    constructor ()
      ensures Valid()
      ensures State() == Initial() && numAnimationFunctions == 0
      ensures Cam() == Camera(0.0, 0.0, INITIAL_ROTATION_TARGET_X, INITIAL_ROTATION_TARGET_Y,
                              INITIAL_DISTANCE, MAX_DISTANCE)
      ensures !redraw && !dragging && !touchStarted && notifications == []
      ensures !textureHasLoaded && runWhenTextureLoaded == [] && invoked == [] && registered == []
      ensures highlightedArrowName == None
      ensures arrowColor == DEFAULT_ARROW_COLOR && arrowHighlightColor == DEFAULT_HIGHLIGHT_COLOR
    {
      arrows := map[];
      arrowByMousemapIndex := map[];
      nextUnusedMousemapIndex := 1;
      arrowsBeingCreated := {};
      arrowsBeingRemoved := {};
      animations := map[];
      meshesCreated := 0;
      numAnimationFunctions := 0;
      redraw := false;
      rotationX := 0.0;
      rotationY := 0.0;
      rotationTargetX := INITIAL_ROTATION_TARGET_X;
      rotationTargetY := INITIAL_ROTATION_TARGET_Y;
      distance := INITIAL_DISTANCE;
      distanceTarget := MAX_DISTANCE;
      dragging := false;
      touchStarted := false;
      notifications := [];
      textureHasLoaded := false;
      runWhenTextureLoaded := [];
      invoked := [];
      registered := [];
      highlightedArrowName := None;
      arrowColor := DEFAULT_ARROW_COLOR;
      arrowHighlightColor := DEFAULT_HIGHLIGHT_COLOR;
      InitialInv();
    }

    // -------------------------------------------------------------------------
    // The animation scheduler

    /** `startAnimation`: registers `a` under `name`, replacing any pending entry; the counter
        counts table entries, so a replacement does not raise it. */
    method StartAnimation(name: string, a: Animation)
      modifies this`animations, this`numAnimationFunctions
      ensures Registry(animations, numAnimationFunctions)
           == Start(old(Registry(animations, numAnimationFunctions)), name, a)
    {
      if name !in animations {
        numAnimationFunctions := numAnimationFunctions + 1;
      }
      animations := animations[name := a];
    }

    /** One iteration of `runAnimationFunctions`: the step function under `name` runs; when it
        reports finished, its `onEnd` runs and the entry is deleted. */
    method RunAnimationEntry(name: string, timestamp: real)
      requires name in animations && name in arrows
      requires numAnimationFunctions == |animations|
      modifies this`arrows, this`arrowByMousemapIndex, this`arrowsBeingCreated,
               this`arrowsBeingRemoved, this`animations, this`numAnimationFunctions
      ensures State() == Ticking.RunEntry(old(State()), name, timestamp)
      ensures numAnimationFunctions == |animations|
    {
      var anim := animations[name];
      var o := Step(anim, timestamp);
      if o.progress.Some? {
        arrows := arrows[name := Ticking.Advance(anim.kind, arrows[name], o.progress.value)];
      }
      if o.finished {
        match anim.kind {
          case Enter =>
            arrowsBeingCreated := arrowsBeingCreated - {name};
          case ReEnter(_, _) =>
            arrowsBeingCreated := arrowsBeingCreated - {name};
          case ScoreFade(_) =>
          case Exit(_) =>
            arrowByMousemapIndex := arrowByMousemapIndex - {arrows[name].mousemapIndex};
            arrows := arrows - {name};
            arrowsBeingRemoved := arrowsBeingRemoved - {name};
        }
        assert (animations - {name}).Keys == animations.Keys - {name};
        animations := animations - {name};
        numAnimationFunctions := numAnimationFunctions - 1;
      } else {
        animations := animations[name := o.next];
      }
    }

    /** `runAnimationFunctions`: every entry pending at the start of the frame runs once. */
    method RunAnimationFunctions(timestamp: real)
      requires SchedulerConsistent()
      modifies this`arrows, this`arrowByMousemapIndex, this`arrowsBeingCreated,
               this`arrowsBeingRemoved, this`animations, this`numAnimationFunctions
      ensures State() == Ticking.Tick(old(State()), timestamp)
      ensures numAnimationFunctions == |animations|
    {
      ghost var s0 := State();
      var todo := animations.Keys;
      ghost var done: set<string> := {};
      Ticking.RunEntriesNone(s0, timestamp);
      while todo != {}
        invariant todo <= s0.animations.Keys && done == s0.animations.Keys - todo
        invariant State() == Ticking.RunEntries(s0, done, timestamp)
        invariant numAnimationFunctions == |animations|
        decreases todo
      {
        var k :| k in todo;
        Ticking.RunEntriesStep(s0, done, k, timestamp);
        RunAnimationEntry(k, timestamp);
        todo := todo - {k};
        done := done + {k};
      }
      assert done == s0.animations.Keys;
    }

    // -------------------------------------------------------------------------
    // Reconciliation

    /** `updateArrows`: new names are added with fresh indices and enter animations, updated
        names take the caller's data and a re-enter or score fade, and live names left out
        start their exit. */
    method UpdateArrows(r: seq<Entry>)
      requires LifecycleValid() && DistinctNames(r)
      modifies this`arrows, this`arrowByMousemapIndex, this`nextUnusedMousemapIndex,
               this`arrowsBeingCreated, this`arrowsBeingRemoved, this`animations,
               this`meshesCreated, this`numAnimationFunctions
      ensures State() == Reconcile.UpdateArrows(old(State()), r)
      ensures LifecycleValid()
    {
      ghost var s0 := State();
      var news, ups, removed := SplitNames(r, arrows.Keys);
      AddNewArrows(news);
      UpdateExistingArrows(ups, |news|);
      RemoveArrows(removed);
      ReconcileProperties.UpdateArrowsPreservesInv(s0, r);
    }

    /** The loops of updateArrows over the new names, in key order. */
    method AddNewArrows(news: seq<Entry>)
      requires numAnimationFunctions == |animations|
      modifies this`arrows, this`arrowByMousemapIndex, this`nextUnusedMousemapIndex,
               this`arrowsBeingCreated, this`animations, this`meshesCreated, this`numAnimationFunctions
      ensures State() == Reconcile.AddNewArrows(old(State()), news)
      ensures numAnimationFunctions == |animations|
    {
      ghost var s0 := State();
      var k := 0;
      while k < |news|
        invariant 0 <= k <= |news|
        invariant State() == Reconcile.AddNewArrows(s0, news[..k])
        invariant numAnimationFunctions == |animations|
      {
        AddNewArrow(news[k], k);
        assert news[..k + 1][..k] == news[..k];
        k := k + 1;
      }
      assert news[..k] == news;
    }

    /** One new arrow, the `i`-th: record, index, reverse entry, meshes, enter animation with
        stagger `i`, being-created flag. */
    method AddNewArrow(e: Entry, i: nat)
      requires numAnimationFunctions == |animations|
      modifies this`arrows, this`arrowByMousemapIndex, this`nextUnusedMousemapIndex,
               this`arrowsBeingCreated, this`animations, this`meshesCreated, this`numAnimationFunctions
      ensures State() == Reconcile.AddNewArrow(old(State()), e, i)
      ensures numAnimationFunctions == |animations|
    {
      var index := nextUnusedMousemapIndex;
      arrows := arrows[e.name := Reconcile.NewArrow(e, index, meshesCreated)];
      arrowByMousemapIndex := arrowByMousemapIndex[index := e.name];
      nextUnusedMousemapIndex := index + 1;
      meshesCreated := meshesCreated + 2;
      StartAnimation(e.name, Reconcile.EnterAnimation(i));
      arrowsBeingCreated := arrowsBeingCreated + {e.name};
    }

    /** The loops of updateArrows over the updated names, in key order; the stagger counter
        goes on from `i0`, the number of new arrows. */
    method UpdateExistingArrows(ups: seq<Entry>, i0: nat)
      requires Names(ups) <= arrows.Keys && numAnimationFunctions == |animations|
      modifies this`arrows, this`arrowsBeingCreated, this`arrowsBeingRemoved, this`animations,
               this`numAnimationFunctions
      ensures State() == Reconcile.UpdateExistingArrows(old(State()), ups, i0).state
      ensures numAnimationFunctions == |animations|
    {
      ghost var s1 := State();
      var i := i0;
      var k := 0;
      while k < |ups|
        invariant 0 <= k <= |ups|
        invariant arrows.Keys == s1.arrows.Keys
        invariant Reconcile.Progress(State(), i) == Reconcile.UpdateExistingArrows(s1, ups[..k], i0)
        invariant numAnimationFunctions == |animations|
      {
        assert ups[k] in ups;
        i := UpdateExistingArrow(ups[k], i);
        assert ups[..k + 1][..k] == ups[..k];
        k := k + 1;
      }
      assert ups[..k] == ups;
    }

    /** One updated name: the caller's data, and a re-enter (staggered by `i`) for an arrow
        being removed or a score fade for one not being created. */
    method UpdateExistingArrow(e: Entry, i: nat) returns (i': nat)
      requires e.name in arrows && numAnimationFunctions == |animations|
      modifies this`arrows, this`arrowsBeingCreated, this`arrowsBeingRemoved, this`animations,
               this`numAnimationFunctions
      ensures Reconcile.Progress(State(), i') == Reconcile.UpdateExistingArrow(old(State()), e, i)
      ensures arrows.Keys == old(arrows.Keys)
      ensures numAnimationFunctions == |animations|
    {
      var a := arrows[e.name];
      arrows := arrows[e.name := Reconcile.UpdatedRecord(a, e.spec)];
      i' := i;
      if e.name in arrowsBeingRemoved {
        StartAnimation(e.name, Reconcile.ReEnterAnimation(a, i));
        arrowsBeingRemoved := arrowsBeingRemoved - {e.name};
        arrowsBeingCreated := arrowsBeingCreated + {e.name};
        i' := i + 1;
      } else if e.name !in arrowsBeingCreated {
        StartAnimation(e.name, Reconcile.ScoreFadeAnimation(a));
      }
    }

    /** The loop of updateArrows over the removed names, in any order: a name already being
        removed is skipped, any other starts its exit. */
    method RemoveArrows(removed: set<string>)
      requires removed <= arrows.Keys && numAnimationFunctions == |animations|
      modifies this`arrowsBeingCreated, this`arrowsBeingRemoved, this`animations, this`numAnimationFunctions
      ensures State() == Reconcile.RemoveArrows(old(State()), removed)
      ensures numAnimationFunctions == |animations|
    {
      ghost var s2 := State();
      var todo := removed;
      ghost var order: seq<string> := [];
      while todo != {}
        invariant todo <= removed
        invariant forall n :: n in order ==> n in removed && n !in todo
        invariant forall n :: n in removed && n !in todo ==> n in order
        invariant forall j, k :: 0 <= j < k < |order| ==> order[j] != order[k]
        invariant State() == Reconcile.RemoveArrowsInOrder(s2, order)
        invariant numAnimationFunctions == |animations|
        decreases todo
      {
        var n :| n in todo;
        RemoveArrow(n);
        assert (order + [n])[..|order|] == order;
        order := order + [n];
        todo := todo - {n};
      }
      Reconcile.RemoveArrowsListed(s2, order, removed);
    }

    /** One iteration of that loop. */
    method RemoveArrow(n: string)
      requires n in arrows && numAnimationFunctions == |animations|
      modifies this`arrowsBeingCreated, this`arrowsBeingRemoved, this`animations, this`numAnimationFunctions
      ensures State() == Reconcile.RemoveArrow(old(State()), n)
      ensures numAnimationFunctions == |animations|
    {
      if n !in arrowsBeingRemoved {
        arrowsBeingRemoved := arrowsBeingRemoved + {n};
        arrowsBeingCreated := arrowsBeingCreated - {n};
        StartAnimation(n, Reconcile.ExitAnimation(arrows[n]));
      }
    }

    // -------------------------------------------------------------------------
    // Rendering and picking

    /** `render`, without the camera placement and the draw call: an idle frame does nothing;
        otherwise the camera closes part of its gap to the targets and, when the counter is
        positive, the animations run. */
    method Render(timestamp: real)
      requires SchedulerConsistent()
      modifies this`arrows, this`arrowByMousemapIndex, this`arrowsBeingCreated,
               this`arrowsBeingRemoved, this`animations, this`numAnimationFunctions,
               this`redraw, this`rotationX, this`rotationY, this`distance
      ensures SchedulerConsistent()
      ensures old(Inv(State())) ==> Inv(State())
      ensures RenderSkips(old(redraw), old(Cam()), old(numAnimationFunctions)) ==>
                State() == old(State()) && Cam() == old(Cam()) && redraw == old(redraw)
      ensures !RenderSkips(old(redraw), old(Cam()), old(numAnimationFunctions)) ==>
                && !redraw
                && Cam() == DampCamera(old(Cam()))
                && State() == Ticking.Tick(old(State()), timestamp)
    {
      if RenderSkips(redraw, Cam(), numAnimationFunctions) {
        return;
      }
      DrawFrame(timestamp);
    }

    /** A frame that is not skipped: the redraw request is consumed, the camera steps and the
        pending animations run. */
    method DrawFrame(timestamp: real)
      requires SchedulerConsistent()
      modifies this`arrows, this`arrowByMousemapIndex, this`arrowsBeingCreated,
               this`arrowsBeingRemoved, this`animations, this`numAnimationFunctions,
               this`redraw, this`rotationX, this`rotationY, this`distance
      ensures SchedulerConsistent()
      ensures old(Inv(State())) ==> Inv(State())
      ensures !redraw && Cam() == DampCamera(old(Cam()))
      ensures State() == Ticking.Tick(old(State()), timestamp)
    {
      ghost var s0 := State();
      ghost var c0 := Cam();
      redraw := false;
      StepCamera();
      assert State() == s0;
      ghost var c1 := Cam();
      RunPendingAnimations(timestamp);
      assert Cam() == c1 == DampCamera(c0);
    }

    /** The camera's step of `render`: rotation and distance each close a fixed share of
        their gap to the targets. */
    method StepCamera()
      modifies this`rotationX, this`rotationY, this`distance
      ensures Cam() == DampCamera(old(Cam()))
    {
      var c := DampCamera(Cam());
      rotationX, rotationY, distance := c.rotationX, c.rotationY, c.distance;
    }

    /** The last step of `render`: the animations run when the counter is positive; with the
        counter equal to the table size, skipping them at 0 changes nothing. */
    method RunPendingAnimations(timestamp: real)
      requires SchedulerConsistent()
      modifies this`arrows, this`arrowByMousemapIndex, this`arrowsBeingCreated,
               this`arrowsBeingRemoved, this`animations, this`numAnimationFunctions
      ensures State() == Ticking.Tick(old(State()), timestamp)
      ensures SchedulerConsistent()
      ensures old(Inv(State())) ==> Inv(State())
    {
      ghost var s0 := State();
      if Inv(s0) {
        TickingProperties.TickPreservesInv(s0, timestamp);
      }
      if numAnimationFunctions > 0 {
        RunAnimationFunctions(timestamp);
      } else {
        assert animations.Keys == {};
        Ticking.RunEntriesNone(s0, timestamp);
      }
    }

    /** `arrowAtCoordinate` given the pixel it samples from the picking render. */
    method ArrowAtCoordinate(pixel: Picking.Pixel) returns (o: Picking.PickOutcome)
      requires LifecycleValid()
      ensures !Picking.PickingEnabled(Picking.PickGate(distance, distanceTarget, dragging, touchStarted)) ==>
                o == Picking.NoArrow
      ensures Picking.DecodeIndex(pixel) == 0 ==> o == Picking.NoArrow
      ensures o.Hit? ==> o.name in arrows && arrows[o.name].mousemapIndex == Picking.DecodeIndex(pixel)
                         && arrows[o.name].mesh.name == o.name
      ensures o.LookupFault? ==> forall n :: n in arrows ==> arrows[n].mousemapIndex != o.index
      ensures Picking.PickingEnabled(Picking.PickGate(distance, distanceTarget, dragging, touchStarted)) ==>
                forall n :: n in arrows && arrows[n].mousemapIndex == Picking.DecodeIndex(pixel) ==>
                  o == Picking.Hit(n)
      ensures (Picking.PickingEnabled(Picking.PickGate(distance, distanceTarget, dragging, touchStarted))
               && Picking.DecodeIndex(pixel) != 0) ==> !o.NoArrow?
    {
      o := Picking.ArrowAtCoordinate(Picking.PickGate(distance, distanceTarget, dragging, touchStarted),
                                     pixel, arrowByMousemapIndex);
      if o.LookupFault? {
        assert o.index !in arrowByMousemapIndex;
      }
    }

    // -------------------------------------------------------------------------
    // Camera targets

    /** `setDistanceTarget`: the target is clamped; the notification carries the raw argument. */
    method SetDistanceTarget(d: real)
      requires TargetsValid()
      modifies this`distanceTarget, this`notifications
      ensures TargetsValid()
      ensures distanceTarget == ClampDistance(d)
      ensures notifications == old(notifications) + [Notification("distance", d)]
    {
      distanceTarget := ClampDistance(d);
      notifications := notifications + [Notification("distance", d)];
    }

    /** `zoom`: moves the distance target by `-delta`, within the clamp. */
    method Zoom(delta: real)
      requires TargetsValid()
      modifies this`distanceTarget, this`notifications
      ensures TargetsValid()
      ensures distanceTarget == ClampDistance(old(distanceTarget) - delta)
      ensures delta >= 0.0 ==> distanceTarget <= old(distanceTarget)
      ensures delta <= 0.0 ==> distanceTarget >= old(distanceTarget)
      ensures notifications == old(notifications) + [Notification("distance", old(distanceTarget) - delta)]
    {
      if delta >= 0.0 {
        ClampsAreMonotone(distanceTarget - delta, distanceTarget);
      } else {
        ClampsAreMonotone(distanceTarget, distanceTarget - delta);
      }
      SetDistanceTarget(distanceTarget - delta);
    }

    /** `setRotationTarget`: the latitude is clamped; both notifications are geographic. */
    method SetRotationTarget(x: real, y: real)
      requires TargetsValid()
      modifies this`rotationTargetX, this`rotationTargetY, this`notifications
      ensures TargetsValid()
      ensures rotationTargetX == x && rotationTargetY == ClampLatitude(y)
      ensures notifications == old(notifications)
                + [Notification("rotation_x", GeographicLongitude(x)), Notification("rotation_y", ClampLatitude(y))]
    {
      rotationTargetX := x;
      rotationTargetY := ClampLatitude(y);
      notifications := notifications + [Notification("rotation_x", GeographicLongitude(rotationTargetX))];
      notifications := notifications + [Notification("rotation_y", rotationTargetY)];
    }

    /** `rotateTo`: the geographic longitude it is given is the one reported back, by the
        notification and by `getRotation`. */
    method SetRotationTargetGeographic(lon: real, lat: real)
      requires TargetsValid()
      modifies this`rotationTargetX, this`rotationTargetY, this`notifications
      ensures TargetsValid()
      ensures GeographicLongitude(rotationTargetX) == lon && rotationTargetY == ClampLatitude(lat)
      ensures notifications == old(notifications)
                + [Notification("rotation_x", lon), Notification("rotation_y", ClampLatitude(lat))]
    {
      GeographicRoundTrip(lon, 0.0);
      SetRotationTarget(RotationFromLongitude(lon), lat);
    }

    // -------------------------------------------------------------------------
    // The texture-ready queue

    /** `whenTextureLoaded`: runs the callback at once if the texture is in, queues it otherwise. */
    method WhenTextureLoaded(cb: Callback)
      requires QueueValid()
      modifies this`invoked, this`runWhenTextureLoaded, this`registered
      ensures QueueValid()
      ensures registered == old(registered) + [cb]
      ensures textureHasLoaded ==> invoked == old(invoked) + [cb] && runWhenTextureLoaded == []
      ensures !textureHasLoaded ==>
                invoked == old(invoked) && runWhenTextureLoaded == old(runWhenTextureLoaded) + [cb]
    {
      registered := registered + [cb];
      if textureHasLoaded {
        invoked := invoked + [cb];
      } else {
        runWhenTextureLoaded := runWhenTextureLoaded + [cb];
      }
    }

    /** The texture loader's completion in `addGlobe` (the globe mesh it builds is not part of
        this model): the flag is set, then the queue is run in order and emptied. */
    method OnTextureLoaded()
      requires QueueValid()
      modifies this`textureHasLoaded, this`invoked, this`runWhenTextureLoaded
      ensures QueueValid()
      ensures textureHasLoaded && runWhenTextureLoaded == []
      ensures invoked == old(invoked) + old(runWhenTextureLoaded)
      ensures invoked == registered
    {
      textureHasLoaded := true;
      var i := 0;
      while i < |runWhenTextureLoaded|
        invariant 0 <= i <= |runWhenTextureLoaded|
        invariant textureHasLoaded && runWhenTextureLoaded == old(runWhenTextureLoaded)
        invariant invoked == old(invoked) + runWhenTextureLoaded[..i]
      {
        invoked := invoked + [runWhenTextureLoaded[i]];
        assert runWhenTextureLoaded[..i + 1] == runWhenTextureLoaded[..i] + [runWhenTextureLoaded[i]];
        i := i + 1;
      }
      assert runWhenTextureLoaded[..i] == runWhenTextureLoaded;
      runWhenTextureLoaded := [];
    }

    // -------------------------------------------------------------------------
    // Colours

    /** `highlightArrow`: records the name (None clears it), repaints and requests a redraw. */
    method HighlightArrow(name: Option<string>, scene: array<SceneChild>)
      modifies this`highlightedArrowName, this`redraw, scene
      ensures highlightedArrowName == name && redraw
      ensures forall i :: 0 <= i < scene.Length ==>
                scene[i] == Recolored(old(scene[i]), name, arrowColor, arrowHighlightColor)
    {
      highlightedArrowName := name;
      RecomputeArrowColors(scene);
      redraw := true;
    }

    /** `recomputeArrowColors`: repaints every child of the scene that has a colour uniform. */
    method RecomputeArrowColors(scene: array<SceneChild>)
      modifies scene
      ensures forall i :: 0 <= i < scene.Length ==>
                scene[i] == Recolored(old(scene[i]), highlightedArrowName, arrowColor, arrowHighlightColor)
    {
      var i := 0;
      while i < scene.Length
        invariant 0 <= i <= scene.Length
        invariant forall j :: 0 <= j < i ==>
                    scene[j] == Recolored(old(scene[j]), highlightedArrowName, arrowColor, arrowHighlightColor)
        invariant forall j :: i <= j < scene.Length ==> scene[j] == old(scene[j])
      {
        var c := scene[i];
        if c.uColor.Some? {
          scene[i] := c.(uColor := Some(if highlightedArrowName == Some(c.name) then arrowHighlightColor else arrowColor));
        }
        i := i + 1;
      }
    }
  }
}
