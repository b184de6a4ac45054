/**
 * The per-creature state the action engine reads and writes: the action
 * stack, the cached path, the pending-path-update flag and the movement type.
 *
 * `creature.h`/`creature.cpp` are not part of this model; the accessors below
 * (`HasActions`, `CurrentAction`, `PopCurrentAction`, `SetPath`) are written
 * from how `area_actions.cpp` uses them.
 */
module Creatures {
  import opened Wrappers
  import opened Integers
  import opened Geometry

  /** Only `None` and `Run` are written by the action engine. */
  datatype MovementType = None | Walk | Run

  /**
   * An object an action refers to. `spatialPosition` is `Some` exactly when the
   * object is a spatial object (the `dynamic_cast` succeeds), and then holds
   * its live position at the current tick.
   */
  datatype ObjectRef = ObjectRef(id: ObjectId, spatialPosition: Option<Vec3>)

  /** Action types the engine handles, plus every other type by its numeric code. */
  datatype ActionKind = MoveToPoint | Follow | DoCommand | StartConversation | Other(code: int)

  /** A compiled script; the virtual machine that runs it is not part of this model. */
  datatype ScriptProgram = ScriptProgram(resRef: string)

  datatype SavedState = SavedState(program: ScriptProgram)

  /**
   * The context a script runs in; `callerId` is the object the script acts
   * for, and `savedState` holds the program to run. The remaining fields of
   * the engine's context are not read by the action step and are not modelled.
   */
  datatype ExecutionContext = ExecutionContext(
    callerId: ObjectId,
    savedState: SavedState)

  /** One entry of the action stack; only the fields relevant to `kind` are meaningful. */
  datatype Action = Action(
    kind: ActionKind,
    target: Option<ObjectRef>,
    point: Vec3,
    distance: real,
    context: ExecutionContext,
    resRef: string)

  /**
   * A computed route: the destination it leads to, its intermediate points,
   * the cursor `pointIdx` of the next unvisited point (equal to `|points|` once
   * only the destination remains) and the tick count at which it was found.
   */
  datatype Path = Path(destination: Vec3, points: seq<Vec3>, pointIdx: nat, timeFound: U32)

  /** The cursor is within the point list, counting "past the last point". */
  predicate ValidPath(p: Path) {
    p.pointIdx <= |p.points|
  }

  /** A creature; the top of its action stack is the FIRST element of `actions`. */
  datatype Creature = Creature(
    id: ObjectId,
    position: Vec3,
    actions: seq<Action>,
    path: Option<Path>,
    pathUpdating: bool,
    movementType: MovementType)
  {
    /** The only state invariant the engine relies on: a cached path has a valid cursor. */
    predicate Valid() {
      path.Some? ==> ValidPath(path.value)
    }

    predicate HasActions() {
      |actions| > 0
    }

    function CurrentAction(): (a: Action)
      requires HasActions()
      ensures a in actions
    {
      actions[0]
    }

    /** Removes the top action, exposing the next one; nothing else changes. */
    function PopCurrentAction(): (r: Creature)
      requires HasActions()
      ensures |r.actions| == |actions| - 1
      ensures forall i :: 0 <= i < |r.actions| ==> r.actions[i] == actions[i + 1]
      ensures r == this.(actions := r.actions)
    {
      this.(actions := actions[1..])
    }

    /**
     * The spatial object of the top action has moved to `pos`; a top action
     * without a spatial object, or an empty stack, is left as it is. Nothing
     * else changes.
     */
    function MoveTopTarget(pos: Vec3): (r: Creature)
      ensures |r.actions| == |actions|
      ensures forall i :: 1 <= i < |actions| ==> r.actions[i] == actions[i]
      ensures HasActions() && actions[0].target.Some? && actions[0].target.value.spatialPosition.Some? ==>
                r.actions[0] == actions[0].(target := Some(actions[0].target.value.(spatialPosition := Some(pos))))
      ensures !(HasActions() && actions[0].target.Some? && actions[0].target.value.spatialPosition.Some?) ==>
                r == this
      ensures r == this.(actions := r.actions)
    {
      if HasActions() && actions[0].target.Some? && actions[0].target.value.spatialPosition.Some? then
        var a := actions[0];
        this.(actions := [a.(target := Some(a.target.value.(spatialPosition := Some(pos))))] + actions[1..])
      else this
    }

    /**
     * Installs a freshly computed path with its cursor at the first point and
     * clears the pending-update flag; nothing else changes.
     */
    function SetPath(dest: Vec3, points: seq<Vec3>, now: U32): (r: Creature)
      ensures r.Valid() && !r.pathUpdating
      ensures r.path.Some? && r.path.value.pointIdx == 0
      ensures r.path.value.destination == dest && r.path.value.points == points
      ensures r.path.value.timeFound == now
      ensures r == this.(path := r.path, pathUpdating := false)
    {
      this.(path := Some(Path(dest, points, 0, now)), pathUpdating := false)
    }
  }
}
