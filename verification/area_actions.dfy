/**
 * The per-tick action step of a creature and the path-following policy
 * (`Area::updateCreature`, `navigateCreature`, `advanceCreatureOnPath`,
 * `selectNextPathPoint`, `updateCreaturePath`).
 *
 * The opaque collaborators are parameters: the motion step
 * (`moveCreatureTowards`) is a `MotionStep`, the clock reading is `now`, and
 * whether a dialog callback is registered is `hasDialogHandler`. The job the
 * path update hands to the thread pool is returned as a `PathJob` value; its
 * completion is a separate transition (module PathJobs).
 */
module AreaActions {
  import opened Wrappers
  import opened Integers
  import opened Geometry
  import opened Creatures

  /** A cached path younger than this many milliseconds is reused for any destination. */
  const KeepPathDuration: U32 := 1000

  /** Squared planar distance within which a path point counts as reached. */
  const PointReachedDistance2: real := 1.0

  /** Outcome of one motion step: whether the creature moved, and its position afterwards. */
  datatype Motion = Motion(moved: bool, position: Vec3)

  /** `moveCreatureTowards(position, target, dt)`. */
  type MotionStep = (Vec3, Vec3, real) -> Motion

  /** A path query handed to the job executor: route creature `creatureId` to `destination`. */
  datatype PathJob = PathJob(creatureId: ObjectId, destination: Vec3)

  /** The visible side effect of one tick, besides the new creature state. */
  datatype Effect =
    | NoEffect
    | PathRequested(job: PathJob)
    | ScriptRun(program: ScriptProgram, context: ExecutionContext)
    | DialogStarted(creatureId: ObjectId, dialogResRef: string)
    | Warned(actionCode: int)
    | AssertionFailed

  datatype Tick = Tick(creature: Creature, effect: Effect)

  datatype Navigation = Navigation(reached: bool, creature: Creature, job: Option<PathJob>)

  datatype PathRequest = PathRequest(creature: Creature, job: Option<PathJob>)

  // ---------------------------------------------------------------------------
  // Path cursor

  /** Moves the cursor to the next point, stopping at `|points|` (the destination). */
  function SelectNextPathPoint(p: Path): (r: Path)
    ensures r.pointIdx >= p.pointIdx
    ensures r.pointIdx == p.pointIdx + 1 <==> p.pointIdx < |p.points|
    ensures p.pointIdx >= |p.points| ==> r == p
    ensures ValidPath(p) ==> ValidPath(r)
    ensures r.destination == p.destination && r.points == p.points && r.timeFound == p.timeFound
  {
    if p.pointIdx < |p.points| then p.(pointIdx := p.pointIdx + 1) else p
  }

  /** `n` successive calls of SelectNextPathPoint. */
  function SelectNextPathPoints(p: Path, n: nat): Path
    decreases n
  {
    if n == 0 then p else SelectNextPathPoints(SelectNextPathPoint(p), n - 1)
  }

  function Min(a: int, b: int): int {
    if a <= b then a else b
  }

  /**
   * Advancing the cursor n times moves it n points ahead, clamped at the
   * point count, and changes nothing else about the path.
   */
  lemma {:induction false} SelectNextPathPointsClamps(p: Path, n: nat)
    requires ValidPath(p)
    ensures SelectNextPathPoints(p, n).pointIdx == Min(p.pointIdx + n, |p.points|)
    ensures SelectNextPathPoints(p, n) == p.(pointIdx := SelectNextPathPoints(p, n).pointIdx)
    decreases n
  {
    if n > 0 {
      SelectNextPathPointsClamps(SelectNextPathPoint(p), n - 1);
    }
  }

  /** The point the creature currently heads for. */
  function SubTarget(p: Path): (t: Vec3)
    requires ValidPath(p)
    ensures p.pointIdx == |p.points| ==> t == p.destination
    ensures p.pointIdx < |p.points| ==> t == p.points[p.pointIdx]
  {
    if p.pointIdx == |p.points| then p.destination else p.points[p.pointIdx]
  }

  /**
   * With an empty point list the creature heads straight for the destination,
   * and once the cursor reaches the end it stays there, so every later
   * sub-target is the destination.
   */
  lemma ExhaustedPathTargetsDestination(p: Path, n: nat)
    requires ValidPath(p) && p.pointIdx == |p.points|
    ensures ValidPath(SelectNextPathPoints(p, n))
    ensures SubTarget(SelectNextPathPoints(p, n)) == p.destination
  {
    SelectNextPathPointsClamps(p, n);
  }

  // ---------------------------------------------------------------------------
  // Following a path

  /**
   * One step along the cached path: a sub-target already within squared
   * distance 1 is skipped; otherwise the creature steps towards it and, if
   * the step succeeds, the cursor advances and the creature runs; if the step
   * fails the creature stops and the cursor stays.
   */
  function AdvanceCreatureOnPath(c: Creature, dt: real, move: MotionStep): (r: Creature)
    requires c.Valid() && c.path.Some?
    ensures r.Valid() && r.path.Some?
    ensures r.id == c.id && r.actions == c.actions && r.pathUpdating == c.pathUpdating
    ensures r.path.value == c.path.value.(pointIdx := r.path.value.pointIdx)
    ensures r.path.value.pointIdx == c.path.value.pointIdx
         || r.path.value.pointIdx == c.path.value.pointIdx + 1
    ensures var target := SubTarget(c.path.value);
            var m := move(c.position, target, dt);
            && (PlanarDistance2(c.position, target) <= PointReachedDistance2 ==>
                  r == c.(path := Some(SelectNextPathPoint(c.path.value))))
            && (PlanarDistance2(c.position, target) > PointReachedDistance2 && m.moved ==>
                  r.path.value == SelectNextPathPoint(c.path.value)
                  && r.movementType == Run && r.position == m.position)
            && (PlanarDistance2(c.position, target) > PointReachedDistance2 && !m.moved ==>
                  r.path == c.path && r.movementType == MovementType.None && r.position == m.position)
  {
    var path := c.path.value;
    var target := SubTarget(path);
    if PlanarDistance2(c.position, target) <= PointReachedDistance2 then
      c.(path := Some(SelectNextPathPoint(path)))
    else
      var m := move(c.position, target, dt);
      if m.moved then
        c.(position := m.position, path := Some(SelectNextPathPoint(path)), movementType := Run)
      else
        c.(position := m.position, movementType := MovementType.None)
  }

  // ---------------------------------------------------------------------------
  // Requesting a new path

  /**
   * At most one path query per creature is in flight: while the pending flag
   * is set nothing happens; otherwise the flag is set and exactly one job is
   * dispatched.
   */
  function UpdateCreaturePath(c: Creature, dest: Vec3): (r: PathRequest)
    ensures r.creature.pathUpdating
    ensures r.job.Some? <==> !c.pathUpdating
    ensures r.job.Some? ==> r.job.value == PathJob(c.id, dest)
    ensures r.creature == c.(pathUpdating := true)
  {
    if c.pathUpdating then PathRequest(c, Option.None)
    else PathRequest(c.(pathUpdating := true), Some(PathJob(c.id, dest)))
  }

  /** The cache policy: a path exists and leads to `dest` or is at most one second old. */
  predicate ReusePath(c: Creature, dest: Vec3, now: U32) {
    c.path.Some?
    && (c.path.value.destination == dest
        || Elapsed(now, c.path.value.timeFound) <= KeepPathDuration)
  }

  /**
   * Decides this tick's motion towards `dest`. Arrival compares the SQUARED
   * planar distance with the unsquared `distance`, as the source does.
   */
  function NavigateCreature(c: Creature, dest: Vec3, distance: real, dt: real, now: U32, move: MotionStep)
    : (r: Navigation)
    requires c.Valid()
    ensures r.creature.Valid()
    ensures r.creature.id == c.id && r.creature.actions == c.actions
    ensures r.creature.pathUpdating == c.pathUpdating || r.job.Some?
    // arrival
    ensures r.reached <==> PlanarDistance2(c.position, dest) <= distance
    ensures r.reached ==> r.creature == c.(movementType := MovementType.None) && r.job.None?
    // reuse of the cached path: the creature follows it and no query is made
    ensures !r.reached && c.path.Some? && c.path.value.destination == dest ==>
              r.job.None? && r.creature == AdvanceCreatureOnPath(c, dt, move)
    ensures !r.reached && c.path.Some? && Elapsed(now, c.path.value.timeFound) as int <= KeepPathDuration as int ==>
              r.job.None? && r.creature == AdvanceCreatureOnPath(c, dt, move)
    // otherwise a new path is requested and the creature does not move
    ensures !r.reached && (c.path.None? || (c.path.value.destination != dest
                                            && Elapsed(now, c.path.value.timeFound) as int > KeepPathDuration as int)) ==>
              r.creature == c.(pathUpdating := true)
              && (r.job.Some? <==> !c.pathUpdating)
    ensures r.job.Some? ==> r.job.value == PathJob(c.id, dest) && !c.pathUpdating && r.creature.pathUpdating
  {
    if PlanarDistance2(c.position, dest) <= distance then
      Navigation(true, c.(movementType := MovementType.None), Option.None)
    else if ReusePath(c, dest, now) then
      Navigation(false, AdvanceCreatureOnPath(c, dt, move), Option.None)
    else
      var req := UpdateCreaturePath(c, dest);
      Navigation(false, req.creature, req.job)
  }

  /**
   * Arrival is stable: navigating again from the state arrival produced, to
   * the same destination, reports arrival again and changes nothing.
   */
  lemma ArrivalIsStable(c: Creature, dest: Vec3, distance: real, dt: real, now: U32, now': U32,
                        move: MotionStep, move': MotionStep)
    requires c.Valid()
    requires NavigateCreature(c, dest, distance, dt, now, move).reached
    ensures var c' := NavigateCreature(c, dest, distance, dt, now, move).creature;
            NavigateCreature(c', dest, distance, dt, now', move') == Navigation(true, c', Option.None)
  {
  }

  /**
   * The staleness rule: with a cached path to the same destination no query
   * is made whatever the time; with a different destination and a path older
   * than one second a query is made unless one is already in flight.
   */
  lemma StalenessRule(c: Creature, dest: Vec3, distance: real, dt: real, now: U32, move: MotionStep)
    requires c.Valid() && c.path.Some?
    requires PlanarDistance2(c.position, dest) > distance
    ensures c.path.value.destination == dest ==> NavigateCreature(c, dest, distance, dt, now, move).job.None?
    ensures c.path.value.destination != dest && Elapsed(now, c.path.value.timeFound) as int > KeepPathDuration as int ==>
              (NavigateCreature(c, dest, distance, dt, now, move).job.Some? <==> !c.pathUpdating)
  {
  }

  // ---------------------------------------------------------------------------
  // The action step

  /**
   * The spatial object of an action, `None` when the action has no object or
   * its object is not spatial.
   */
  function SpatialOf(a: Action): (p: Option<Vec3>)
    ensures p.Some? ==> a.target.Some? && p == a.target.value.spatialPosition
    ensures a.target.Some? ==> p == a.target.value.spatialPosition
  {
    if a.target.Some? then a.target.value.spatialPosition else Option.None
  }

  /**
   * Where a MoveToPoint or Follow action leads, as written: `None` when the
   * assertion that a spatial object is present fails; otherwise the object's
   * position when the action is Follow or has a target object, else the stored point.
   */
  function MovementDestination(a: Action): (d: Option<Vec3>)
    ensures d.None? <==> SpatialOf(a).None?
    ensures d.Some? ==> d == SpatialOf(a)
  {
    match SpatialOf(a)
    case None => Option.None
    case Some(pos) => Some(if a.kind.Follow? || a.target.Some? then pos else a.point)
  }

  /**
   * Because the assertion demands a spatial object, a MoveToPoint action
   * without an object never reaches the stored-point branch: it fails the
   * assertion instead.
   */
  lemma MoveToPointWithoutObjectFails(a: Action)
    requires a.kind.MoveToPoint? && a.target.None?
    ensures MovementDestination(a).None?
  {
  }

  /**
   * Where a MoveToPoint or Follow action leads in a build where the assertion
   * is compiled out: a MoveToPoint without an object takes the stored point.
   * Every other case without a spatial object dereferences a null pointer,
   * which is undefined, and is `None` here as well.
   */
  function ReleaseDestination(a: Action): (d: Option<Vec3>)
    requires a.kind.MoveToPoint? || a.kind.Follow?
    ensures SpatialOf(a).Some? ==> d == SpatialOf(a)
    ensures a.kind.MoveToPoint? && a.target.None? ==> d == Some(a.point)
    ensures d.None? <==> SpatialOf(a).None? && !(a.kind.MoveToPoint? && a.target.None?)
  {
    if a.kind.Follow? || a.target.Some? then SpatialOf(a)
    else Some(a.point)
  }

  /**
   * The two builds agree whenever the assertion holds; they differ only for a
   * MoveToPoint without an object, which aborts with assertions on and heads
   * for the stored point with them off.
   */
  lemma BuildsAgreeUnlessAssertionFails(a: Action)
    requires a.kind.MoveToPoint? || a.kind.Follow?
    ensures MovementDestination(a).Some? ==> ReleaseDestination(a) == MovementDestination(a)
    ensures MovementDestination(a) != ReleaseDestination(a) <==> a.kind.MoveToPoint? && a.target.None?
  {
  }

  /** One tick of a creature's top action. */
  function UpdateCreature(c: Creature, hasDialogHandler: bool, dt: real, now: U32, move: MotionStep)
    : (r: Tick)
    requires c.Valid()
    ensures r.creature.Valid()
    ensures r.creature.id == c.id
    // an idle creature is left untouched
    ensures !c.HasActions() ==> r == Tick(c, NoEffect)
    // at most the top action is retired
    ensures r.creature.actions == c.actions || (c.HasActions() && r.creature.actions == c.actions[1..])
    // a failed assertion changes nothing
    ensures r.effect.AssertionFailed? ==> r.creature == c
    // the pending flag changes only when a path query is dispatched, and only from clear to set
    ensures r.creature.pathUpdating == c.pathUpdating || r.effect.PathRequested?
    ensures r.effect.PathRequested? ==> !c.pathUpdating && r.creature.pathUpdating
                                         && r.effect.job.creatureId == c.id
    ensures c.HasActions() ==>
      var a := c.actions[0];
      && (a.kind.MoveToPoint? || a.kind.Follow? ==>
            && (SpatialOf(a).None? <==> r.effect.AssertionFailed?)
            && (SpatialOf(a).Some? ==>
                  r.effect.PathRequested? || r.effect.NoEffect?))
      // MoveToPoint and Follow navigate towards the spatial target; MoveToPoint is retired on arrival
      && ((a.kind.MoveToPoint? || a.kind.Follow?) && SpatialOf(a).Some? ==>
            var nav := NavigateCreature(c, SpatialOf(a).value, a.distance, dt, now, move);
            && r.effect == (if nav.job.Some? then PathRequested(nav.job.value) else NoEffect)
            && r.creature == (if a.kind.MoveToPoint? && nav.reached then nav.creature.PopCurrentAction() else nav.creature))
      // MoveToPoint is retired exactly when the creature is within the action's distance of its target
      && (a.kind.MoveToPoint? ==>
            (r.creature.actions != c.actions <==>
              SpatialOf(a).Some? && PlanarDistance2(c.position, SpatialOf(a).value) <= a.distance))
      && (a.kind.MoveToPoint? && r.creature.actions != c.actions ==>
            r.creature == c.PopCurrentAction().(movementType := MovementType.None))
      // Follow is never retired here
      && (a.kind.Follow? ==> r.creature.actions == c.actions)
      // DoCommand runs the script as the creature, and stays on the stack
      && (a.kind.DoCommand? ==>
            r == Tick(c, ScriptRun(a.context.savedState.program, a.context.(callerId := c.id))))
      // StartConversation always retires, notifying only a registered handler
      && (a.kind.StartConversation? ==>
            r.creature == c.PopCurrentAction()
            && r.effect == (if hasDialogHandler then DialogStarted(c.id, a.resRef) else NoEffect))
      // unknown kinds are warned about and retired
      && (a.kind.Other? ==> r == Tick(c.PopCurrentAction(), Warned(a.kind.code)))
  {
    if !c.HasActions() then Tick(c, NoEffect)
    else
      var a := c.CurrentAction();
      match a.kind
      case MoveToPoint =>
        (match MovementDestination(a)
         case None => Tick(c, AssertionFailed)
         case Some(dest) =>
           var nav := NavigateCreature(c, dest, a.distance, dt, now, move);
           var c' := if nav.reached then nav.creature.PopCurrentAction() else nav.creature;
           Tick(c', if nav.job.Some? then PathRequested(nav.job.value) else NoEffect))
      case Follow =>
        (match MovementDestination(a)
         case None => Tick(c, AssertionFailed)
         case Some(dest) =>
           var nav := NavigateCreature(c, dest, a.distance, dt, now, move);
           Tick(nav.creature, if nav.job.Some? then PathRequested(nav.job.value) else NoEffect))
      case DoCommand =>
        Tick(c, ScriptRun(a.context.savedState.program, a.context.(callerId := c.id)))
      case StartConversation =>
        Tick(c.PopCurrentAction(), if hasDialogHandler then DialogStarted(c.id, a.resRef) else NoEffect)
      case Other(code) =>
        Tick(c.PopCurrentAction(), Warned(code))
  }
}
