/**
 * The background path query of `Area::updateCreaturePath` as an explicit
 * "job completes" transition, and the system of one creature together with
 * its in-flight path queries.
 *
 * The thread pool is not modelled: a dispatched job is queued in `inFlight`
 * and later completes atomically. The job reads the creature's position when
 * it runs (the closure captures the creature by reference), queries the
 * navigation mesh (`PathQuery`, opaque) and installs the result with the
 * completion time stamp.
 */
module PathJobs {
  import opened Wrappers
  import opened Integers
  import opened Geometry
  import opened Creatures
  import opened AreaActions

  /** `_navMesh->findPath(origin, destination)`: the intermediate points of a route, possibly none. */
  type PathQuery = (Vec3, Vec3) -> seq<Vec3>

  /**
   * The job body run to completion at time `now`: the query result becomes the
   * creature's path, its cursor at the first point, and the pending flag is
   * cleared. An empty query result still installs a path, which leads straight
   * to the destination.
   */
  function CompletePathJob(c: Creature, job: PathJob, findPath: PathQuery, now: U32): (r: Creature)
    requires job.creatureId == c.id
    ensures r.Valid() && !r.pathUpdating && r.path.Some?
    ensures r.path.value.destination == job.destination && r.path.value.timeFound == now
    ensures r.path.value.points == findPath(c.position, job.destination)
    ensures r.path.value.pointIdx == 0
    ensures r.path.value.points == [] ==> SubTarget(r.path.value) == job.destination
    ensures r.id == c.id && r.position == c.position && r.actions == c.actions
    ensures r.movementType == c.movementType
  {
    c.SetPath(job.destination, findPath(c.position, job.destination), now)
  }

  /** One creature and the path queries dispatched for it that have not completed yet. */
  datatype World = World(creature: Creature, inFlight: seq<PathJob>)

  datatype Event =
    | TickEvent(hasDialogHandler: bool, dt: real, now: U32, move: MotionStep)
    | JobCompleted(findPath: PathQuery, now: U32)
    | TargetMoved(position: Vec3)

  /**
   * The pending flag is set exactly when one query is in flight, there is
   * never more than one, and it belongs to this creature.
   */
  predicate Consistent(w: World) {
    && w.creature.Valid()
    && |w.inFlight| <= 1
    && (|w.inFlight| == 1 <==> w.creature.pathUpdating)
    && (forall j :: j in w.inFlight ==> j.creatureId == w.creature.id)
  }

  /**
   * A tick of the creature's action step, the completion of the oldest
   * in-flight job, or a move of the object the top action refers to.
   */
  function Step(w: World, e: Event): (r: World)
    requires Consistent(w)
    ensures Consistent(r)
    ensures r.creature.id == w.creature.id
    ensures e.JobCompleted? && |w.inFlight| == 1 ==>
              r.inFlight == [] && !r.creature.pathUpdating && r.creature.path.Some?
              && r.creature.path.value.destination == w.inFlight[0].destination
  {
    match e
    case TickEvent(hasDialogHandler, dt, now, move) =>
      var t := UpdateCreature(w.creature, hasDialogHandler, dt, now, move);
      World(t.creature, if t.effect.PathRequested? then w.inFlight + [t.effect.job] else w.inFlight)
    case JobCompleted(findPath, now) =>
      if |w.inFlight| == 0 then w
      else World(CompletePathJob(w.creature, w.inFlight[0], findPath, now), w.inFlight[1..])
    case TargetMoved(position) =>
      World(w.creature.MoveTopTarget(position), w.inFlight)
  }

  /** A sequence of events applied in order. */
  function StepAll(w: World, events: seq<Event>): (r: World)
    requires Consistent(w)
    ensures Consistent(r)
    ensures r.creature.id == w.creature.id
    decreases |events|
  {
    if |events| == 0 then w else StepAll(Step(w, events[0]), events[1..])
  }

  /**
   * Follow tracks a moving target: after the target moves, the next tick
   * navigates towards its new position, and the action stays on the stack.
   */
  lemma FollowTracksMovedTarget(w: World, pos: Vec3, hasDialogHandler: bool, dt: real, now: U32, move: MotionStep)
    requires Consistent(w) && w.creature.HasActions()
    requires var a := w.creature.actions[0];
             a.kind.Follow? && a.target.Some? && a.target.value.spatialPosition.Some?
    ensures var w' := Step(w, TargetMoved(pos));
            var nav := NavigateCreature(w'.creature, pos, w.creature.actions[0].distance, dt, now, move);
            var w'' := Step(w', TickEvent(hasDialogHandler, dt, now, move));
            && w''.creature == nav.creature
            && w''.creature.actions == w'.creature.actions
            && w''.inFlight == (if nav.job.Some? then w.inFlight + [nav.job.value] else w.inFlight)
  {
    var w' := Step(w, TargetMoved(pos));
    assert SpatialOf(w'.creature.actions[0]) == Some(pos);
  }

  /** A tick while a query is pending never dispatches a second one. */
  lemma NoDispatchWhilePending(c: Creature, hasDialogHandler: bool, dt: real, now: U32, move: MotionStep)
    requires c.Valid() && c.pathUpdating
    ensures !UpdateCreature(c, hasDialogHandler, dt, now, move).effect.PathRequested?
    ensures UpdateCreature(c, hasDialogHandler, dt, now, move).creature.pathUpdating
  {
  }

  /**
   * The walk-through: a creature at the origin is sent to (100, 0) with
   * arrival distance 1 and the navigation mesh routes it through (50, 0).
   * The first tick only dispatches the query; once it completes the creature
   * runs to (50, 0), then to (100, 0), and the next tick retires the action.
   */
  lemma RouteThroughOneWaypoint()
    ensures
      var dest := Vec3(100.0, 0.0, 0.0);
      var ctx := ExecutionContext(0, SavedState(ScriptProgram("")));
      var action := Action(MoveToPoint, Some(ObjectRef(9, Some(dest))), dest, 1.0, ctx, "");
      var c := Creature(5, Vec3(0.0, 0.0, 0.0), [action], Option.None, false, MovementType.None);
      var move: MotionStep := (from, to, dt) => Motion(true, to);
      var findPath: PathQuery := (origin, target) => [Vec3(50.0, 0.0, 0.0)];
      var w0 := World(c, []);
      var w1 := Step(w0, TickEvent(false, 0.1, 0, move));
      var w2 := Step(w1, JobCompleted(findPath, 10));
      var w3 := Step(w2, TickEvent(false, 0.1, 20, move));
      var w4 := Step(w3, TickEvent(false, 0.1, 40, move));
      var w5 := Step(w4, TickEvent(false, 0.1, 60, move));
      && w1.inFlight == [PathJob(5, dest)] && w1.creature.position == c.position
      && w2.inFlight == [] && w2.creature.path == Some(Path(dest, [Vec3(50.0, 0.0, 0.0)], 0, 10))
      && w3.creature.position == Vec3(50.0, 0.0, 0.0) && w3.creature.movementType == Run
      && w4.creature.position == dest && w4.creature.actions == [action]
      && w5.creature.actions == [] && w5.creature.movementType == MovementType.None
  {
  }
}
