# reone action engine and helpers: a Dafny model

This project models the creature action step and path-following policy of the
reone engine, plus four small sequential components from the same repository.
Every entity is an immutable datatype and every operation is a pure function
that returns the updated state. Shared building blocks are `Wrappers`
(`Option`), `Integers` (`uint32_t` and the object id type) and `Geometry`
(points, planar distance and the wrapping millisecond clock).

- **Action step** (`AreaActions`, data in `Creatures`). `Area::updateCreature`
  looks at a creature's top action once per tick. It either navigates to a
  point, follows a target, runs a script, starts a dialog, or drops an unknown
  action. `navigateCreature` decides between arrival, reusing the cached path
  and requesting a new one. The cache rule is "same destination, or found at
  most 1000 ms ago". `advanceCreatureOnPath` and `selectNextPathPoint` move the
  waypoint cursor, which never passes the end of the point list.
  `updateCreaturePath` keeps at most one path query in flight.
- **Path jobs** (`PathJobs`). The thread-pool job is an explicit "job
  completes" transition that installs the new path and clears the pending
  flag. A `World` holds one creature and its in-flight queries. Besides ticks
  and completions, an event moves the object the top action refers to, so a
  Follow action can chase a moving target. `Step` and
  `StepAll` keep the invariant "the pending flag is set exactly when one
  query is in flight, and never more than one is".
- **List box** (`ListBoxes`). Slot count, scroll bar visibility, mouse-wheel
  scrolling, hit-testing of rows, clicks and focus. C++ truncating division
  and the `int` to `size_t` conversions are written out.
- **Game-state store** (`GameStore`). Global and local booleans and numbers,
  where a missing entry reads as `false` or 0.
- **Object factory** (`ObjectFactories`). One shared `uint32_t` id counter
  starting at 2, with its wrap-around made explicit.
- **Routine registry** (`Routines`). An append-only list with index lookup.

The opaque collaborators are parameters of the functions that use them:
- `MotionStep` stands for `moveCreatureTowards`.
- `PathQuery` stands for `_navMesh->findPath`.
- `now` stands for `SDL_GetTicks()`.
- `hasDialogHandler` says whether `_onStartDialog` is set.
- `hasCallback` says whether `_onItemClicked` is set.

Script execution and dialog start are returned as `Effect` values and are not
performed.

### Behaviour worth knowing (the model follows the code)

- DoCommand does not pop its action (`area_actions.cpp:53-59`), so its script
  runs again on every tick until something else removes the action. It is not
  a one-shot command.
- `advanceCreatureOnPath` advances the cursor on EVERY successful motion step
  (`area_actions.cpp:107-109`), whether or not the waypoint has been reached.
  There is no separate state for partial progress: the step either moved
  (cursor advances, Run) or did not (None).
- The path job reads the creature's position when it RUNS, not when it is
  submitted, because the closure captures the creature by reference.
- An empty query result is installed as it is. With no points the cursor
  already equals the point count, so the creature heads straight for the
  destination; no fallback point is added.
- Nothing discards stale job results: there is no generation counter.
- For MoveToPoint and Follow, `assert(spatial)` demands a spatial target
  object. In a build with assertions on, the destination is therefore always
  the object's position, and the stored point is used only when assertions
  are compiled out (`NDEBUG`): then a MoveToPoint without an object heads for
  its stored point (`ReleaseDestination`, `BuildsAgreeUnlessAssertionFails`).
  The action step follows the build with assertions on. The abort is shown
  as the `AssertionFailed` effect with the creature unchanged.
- `clearItems` does not reset the highlight, so after it the highlight may
  name an item that no longer exists. Mouse motion and loss of focus restore
  a valid highlight (`HighlightStaysValid`).

## Model

| member | source | states |
|---|---|---|
| Geometry.PlanarDistance2 | src/game/area_actions.cpp:75 | The squared distance on the x/y plane (z is ignored) is non-negative, and zero for points with the same x and y. |
| Geometry.Elapsed | src/game/area_actions.cpp:86-87 | `now - timeFound` in `uint32_t` is the plain difference when the clock has not wrapped, and the difference plus 2^32 when it has. |
| AreaActions.SelectNextPathPoint | src/game/area_actions.cpp:115-118 | The cursor never decreases. It grows by exactly one if and only if it is below the point count. At the count it stays put. A valid cursor stays valid. The points, destination and time stamp are untouched. |
| AreaActions.SelectNextPathPointsClamps | src/game/area_actions.cpp:115-118 | After n advances the cursor is min(cursor + n, point count), and nothing else about the path has changed. |
| AreaActions.SubTarget | src/game/area_actions.cpp:102-103 | The creature heads for the destination when the cursor equals the point count, and for the point under the cursor otherwise. |
| AreaActions.ExhaustedPathTargetsDestination | src/game/area_actions.cpp:99-118 | Once the cursor reaches the end of the point list, every later sub-target is the destination. This includes an empty point list from the start. |
| AreaActions.AdvanceCreatureOnPath | src/game/area_actions.cpp:99-113 | Within squared distance 1 of the sub-target, the cursor advances and movement and position are unchanged. After a successful motion step, the cursor advances and movement is Run. After a failed step, the cursor stays and movement is None. The path stays valid, only its cursor changes, and the stack and pending flag are untouched. |
| AreaActions.UpdateCreaturePath | src/game/area_actions.cpp:120-125 | A job for this creature and destination is dispatched if and only if no query is pending. Afterwards the pending flag is set, and nothing else changes. |
| AreaActions.NavigateCreature | src/game/area_actions.cpp:73-97 | Reports arrival if and only if the squared planar distance is at most `distance`; on arrival movement is None and no job is made. Otherwise the cached path is followed, with no job, when it exists and either leads to `dest` or is at most 1000 ms old. Otherwise a new path is requested. Only the request changes the pending flag, and the action stack is never touched. |
| AreaActions.ArrivalIsStable | src/game/area_actions.cpp:73-80 | Navigating again from the state that arrival produced reports arrival again and changes nothing. |
| AreaActions.StalenessRule | src/game/area_actions.cpp:82-94 | A path to the same destination is reused whatever its age. A path to a different destination that is older than one second causes a query, unless one is already pending. |
| AreaActions.SpatialOf | src/game/area_actions.cpp:43 | There is a spatial object exactly when the action has a target whose position is known: with a target the result is that target's spatial position (none for a non-spatial object), and without one it is none. |
| AreaActions.MovementDestination | src/game/area_actions.cpp:43-46 | The assertion fails exactly when there is no spatial target. Otherwise the destination is the target's position. |
| AreaActions.MoveToPointWithoutObjectFails | src/game/area_actions.cpp:43-46 | A MoveToPoint action with no target object fails the assertion and never reaches the stored-point branch. |
| AreaActions.ReleaseDestination | src/game/area_actions.cpp:43-46 | With assertions compiled out: the target's position whenever the target is spatial, and the stored point for a MoveToPoint without an object. |
| AreaActions.BuildsAgreeUnlessAssertionFails | src/game/area_actions.cpp:43-46 | Both builds give the same destination whenever the assertion holds, and they differ exactly for a MoveToPoint without an object. |
| AreaActions.UpdateCreature | src/game/area_actions.cpp:36-71 | An empty stack leaves the creature unchanged, and at most the top action is removed. MoveToPoint and Follow with a spatial target navigate towards that target's position: the creature is the navigation result, a path request is the effect exactly when navigation made one, and MoveToPoint is popped on arrival. MoveToPoint is popped if and only if the creature is within the action's distance of the spatial target; then it is popped with movement None. Follow is never popped. DoCommand runs the script with `callerId` set to the creature's id and stays on the stack. StartConversation is always popped, and notifies only a registered handler. Unknown kinds are warned about and popped. A failed assertion changes nothing. The pending flag only goes from clear to set, and only together with a dispatched job. |
| PathJobs.CompletePathJob | src/game/area_actions.cpp:125-142 | Completing a job installs the query's points for the job's destination, with cursor 0 and the completion time, and clears the pending flag. With an empty route the creature heads straight for the destination. |
| PathJobs.Step | src/game/area_actions.cpp:120-143 | Ticks, job completions and moves of the target keep the invariant: the pending flag is set exactly when one query is in flight, never more than one is, and it belongs to this creature. Completing the in-flight job clears the flag and installs a path to that job's destination. |
| PathJobs.StepAll | src/game/area_actions.cpp:120-143 | Under any interleaving of ticks and completions the invariant still holds, so at most one query is ever in flight for the creature. |
| PathJobs.FollowTracksMovedTarget | src/game/area_actions.cpp:42-51 | After the followed object moves, the next tick navigates towards its new position, keeps the Follow action, and queues exactly the job that navigation requested. |
| PathJobs.NoDispatchWhilePending | src/game/area_actions.cpp:121 | While a query is pending, a tick never dispatches another one and the flag stays set. |
| PathJobs.RouteThroughOneWaypoint | src/game/area_actions.cpp:36-143 | Walk-through from the origin to (100, 0) via (50, 0). The first tick only dispatches the query. After it completes, the creature runs to (50, 0), then to (100, 0), and the next tick retires the action with movement None. |
| ListBoxes.UpdateItems | src/gui/control/listbox.cpp:50-58 | Without a prototype nothing changes. With one, the slot count is the extent height divided by the row height, truncated as in C++. The scroll bar is visible exactly when the item count exceeds the slot count converted to `size_t`. |
| ListBoxes.SlotCountIsWholeRows | src/gui/control/listbox.cpp:50-57 | With a positive row height and a non-negative extent, the slot count is the number of whole rows that fit. The scroll bar shows exactly when the items outnumber the slots. |
| ListBoxes.SetExtent | src/gui/control/listbox.cpp:179-182 | The new extent is stored. With a prototype, the slot count is recomputed from it and an existing scroll bar is visible exactly when the items outnumber the new slot count. Without a prototype only the extent changes. No scroll bar is created or removed, and nothing else changes. |
| ListBoxes.ClearItems | src/gui/control/listbox.cpp:60-64 | No items are left, the offset is 0, and the layout invariant is preserved. With a prototype the slot count is recomputed and an existing scroll bar is hidden. Without one only the items and offset change. The highlight is kept. |
| ListBoxes.Add | src/gui/control/listbox.cpp:66-69 | The item is appended at the end, every earlier item keeps its index, and the layout invariant is preserved. With a prototype the slot count is recomputed and an existing scroll bar is visible exactly when the items now outnumber the slots. Without one only the items change. No scroll bar is created or removed. |
| ListBoxes.GetItemAt | src/gui/control/listbox.cpp:184-187 | The index must be in range, and the result is one of the items. |
| ListBoxes.AddThenGetItemAt | src/gui/control/listbox.cpp:66-69 | After Add, the item at the old count is the new item, and every earlier index returns what it did before. |
| ListBoxes.GetItemIndex | src/gui/control/listbox.cpp:91-98 | The result is -1 without a prototype, and is always either -1 or a valid item index. It is the truncated row number plus the offset when that lands on an item. |
| ListBoxes.HitTestFindsRow | src/gui/control/listbox.cpp:91-98 | At or below the first row, item i is hit if and only if its row spans y. |
| ListBoxes.JustAboveFirstRowHitsIt | src/gui/control/listbox.cpp:95 | Because of truncating division, a point less than one row above the first row still hits the first visible item. |
| ListBoxes.HandleMouseMotion | src/gui/control/listbox.cpp:86-89 | The highlight becomes the hit-test result for y: the item under the mouse, or -1. Nothing else changes, and the event is not consumed. |
| ListBoxes.HandleClick | src/gui/control/listbox.cpp:112-122 | A click on no item, or with no callback, notifies nothing. Otherwise it notifies the callback with the list box's tag and the tag of the hit item. |
| ListBoxes.ClickOnRowNotifiesItem | src/gui/control/listbox.cpp:91-122 | A click at or below the first row, inside the row showing item i, notifies the callback with the list box's tag and item i's tag, and is consumed. |
| ListBoxes.ClickHandled | src/gui/control/listbox.cpp:112-122 | A click is consumed if and only if a callback is registered and the click hits an item. |
| ListBoxes.HandleMouseWheel | src/gui/control/listbox.cpp:100-110 | y < 0 scrolls down by one exactly when `size - offset > slotCount` in `size_t` arithmetic. y > 0 scrolls up by one exactly when the offset is positive. Any non-zero y is consumed. y = 0 changes nothing and is not consumed. Only the offset changes. |
| ListBoxes.WheelKeepsOffsetInRange | src/gui/control/listbox.cpp:100-110 | In a well-formed list box one wheel event keeps the offset between 0 and max(0, size - slotCount). |
| ListBoxes.ScrollingStaysInRange | src/gui/control/listbox.cpp:100-110 | Over any sequence of wheel events the offset stays between 0 and max(0, size - slotCount), and the list box stays well formed. |
| ListBoxes.SetFocus | src/gui/control/listbox.cpp:172-177 | Focus is recorded. Losing focus resets the highlight to -1, gaining focus keeps it, and nothing else changes. |
| ListBoxes.HighlightStaysValid | src/gui/control/listbox.cpp:172-177 | The highlight is -1 or an existing item after mouse motion and after losing focus, and focus changes, appends and wheel events keep it so. |
| GameStore.GetGlobalBoolean | src/game/game.cpp:534-537 | Returns the stored value, or false for an absent name. |
| GameStore.GetGlobalNumber | src/game/game.cpp:539-542 | Returns the stored value, or 0 for an absent name. |
| GameStore.GetLocalBoolean | src/game/game.cpp:544-554 | Requires a non-negative index. Returns false when the object or the index is absent, and the stored value otherwise. |
| GameStore.GetLocalNumber | src/game/game.cpp:556-564 | Returns 0 when the object or the index is absent, and the stored value otherwise. The index is not checked. |
| GameStore.SetGlobalBoolean | src/game/game.cpp:566-568 | Only the given name is written. Every other name keeps its presence and value, and the other maps are untouched. |
| GameStore.SetGlobalNumber | src/game/game.cpp:570-572 | Only the given name is written. Every other name keeps its presence and value, and the other maps are untouched. |
| GameStore.SetLocalBoolean | src/game/game.cpp:574-577 | Requires a non-negative index. The (object, index) entry of the local booleans holds the value, creating the object's map if needed. Only the local booleans change. |
| GameStore.GlobalBooleanReadAfterWrite | src/game/game.cpp:534-568 | A global boolean reads back as written, and every other name reads as before. |
| GameStore.GlobalNumberReadAfterWrite | src/game/game.cpp:539-572 | A global number reads back as written, and every other name reads as before. |
| GameStore.LocalBooleanReadAfterWrite | src/game/game.cpp:544-577 | A local boolean reads back as written. Every other (object, index) pair, and every local number, reads as before. |
| GameStore.SetLocalNumber | src/game/game.cpp:579-582 | As written: the same as setting the local boolean to `value != 0`, and the local numbers are unchanged. |
| GameStore.SetLocalNumberIsLost | src/game/game.cpp:556-582 | After `setLocalNumber`, every local number reads as before, and the local boolean at that place reads `value != 0`. |
| GameStore.SetLocalNumberCounterexample | src/game/game.cpp:579-582 | On an empty store, setting local number 5 for object 7 at index 0 reads back 0. |
| GameStore.SetLocalNumberCorrected | src/game/game.cpp:579-582 | Corrected: the (object, index) entry of the local numbers holds the value, and only the local numbers change. |
| GameStore.LocalNumberReadAfterCorrectedWrite | src/game/game.cpp:556-582 | With the correction a local number reads back as written. Every other pair, and every local boolean, reads as before. |
| ObjectFactories.NewFactory | src/game/object/factory.h:54 | A new factory's counter is 2, because ids 0 and 1 are reserved. Construction does not change it. |
| ObjectFactories.NewObject | src/game/object/factory.cpp:32-58 | The object's id is the counter before the call, and the kind is the requested one. The counter grows by exactly one, and wraps to 0 after 2^32 - 1. |
| ObjectFactories.NewObjects | src/game/object/factory.cpp:32-58 | Consecutive calls of any kinds share the counter. Before a wrap, the i-th object gets counter + i, and the counter grows by the number of objects. |
| ObjectFactories.IdsAreFreshAndIncreasing | src/game/object/factory.cpp:32-58 | From a fresh factory and before the counter wraps, ids are at least 2, strictly increase across calls, and are pairwise distinct. |
| ObjectFactories.CounterWrapsToReservedId | src/game/object/factory.h:54 | The allocation after id 2^32 - 1 hands out the reserved id 0. |
| Routines.Get | src/script/routines.cpp:48-51 | Requires 0 <= index < count. The result is a registered routine. |
| Routines.Add | src/script/routines.cpp:35-37 | Appends exactly one routine with no native implementation. Every earlier routine keeps its index, and `get(count - 1)` has the given name, return type and argument types. |
| Routines.AddWithHandler | src/script/routines.cpp:39-46 | Appends exactly one routine with the given implementation. Every earlier routine keeps its index, and `get(count - 1)` has the given name, return type, argument types and implementation. |
| Routines.RegistrationOrderIsIndex | src/script/routines.cpp:35-51 | Registering a table of routines keeps earlier routines in place, and the i-th entry of the table is found at index count + i. |

## Left out

- The thread pool is not modelled, and neither are `TheJobExecutor.enqueue`, cancellation and `await`. A job is a queued value, and its completion is an atomic transition (`PathJobs.Step`). Races between the job and the simulation thread are outside the model.
- `creature.h` and `creature.cpp` are not part of this model. Two behaviours are assumptions: `setPath` installs the path with the cursor at 0 and clears the pending flag, and the top of the action stack is the first element. `MovementType` is assumed to have the values None, Walk and Run.
- `area.cpp` is not part of this model. The loop that steps every creature of an area is not modelled, so a `World` holds a single creature.
- `moveCreatureTowards`, `_navMesh->findPath`, `SDL_GetTicks`, `ScriptExecution::run` and the dialog and click callbacks are opaque parameters or returned effects. Their internals are not modelled.
- The log message for an unknown action kind is reduced to the `Warned(code)` effect.
- AreaActions.NavigateCreature: coordinates are `real`, so single-precision rounding in `glm::distance2` and in `dt` is not modelled. The `uint32_t` elapsed time is compared as an integer with 1000. This is exact, because every `uint32_t` up to 2^24 converts to `float` exactly and larger values stay above 1000.
- ListBoxes.UpdateItems: the list box's `int` fields are unbounded, so 32-bit overflow of `_itemOffset` and `_slotCount` is not modelled. The `size_t` conversions are modelled modulo 2^64.
- ListBoxes.WheelKeepsOffsetInRange: the scrolling bounds are proved for well-formed list boxes only. Well-formed means a positive row height, a non-negative extent height and an offset within the item list. The lemma also requires the offset to be at most max(0, size - slotCount) beforehand. The source does not keep that bound: `setExtent` can raise the slot count above the items left below the offset.
- AreaActions.MovementDestination: follows builds with assertions on. The abort of a failed `assert(spatial)` is shown as a tick that changes nothing, so `PathJobs.Step` repeats it on every tick instead of ending the program. The release-build destination is `AreaActions.ReleaseDestination`, but the action step does not use it.
- `ListBox::load` (GFF resource loading), `render`, `initGL`, `stretch`, `protoItem`, `scrollBar` and `itemCount` are left out. They are resource I/O, rendering or plain accessors.
- ListBoxes.GetItemAt: its contract only says the index is in range and the result is one of the items. Which item it is appears in ListBoxes.AddThenGetItemAt.
- Routines.Get: its contract only says the index is in range and the result is a registered routine. Which routine it is appears in the contracts of Routines.Add and Routines.AddWithHandler and in Routines.RegistrationOrderIsIndex.
- `Control::setFocus` and `Control::setExtent` are not part of this model. They are assumed to store the new value.
- The rest of `game.cpp` is left out: the main loop, drawing, GUI and module loading, and event signalling. It is I/O and rendering.
- `Module` and `Area` constructor arguments other than the id (game version, options) are left out of `ObjectFactories.NewObject`.
- `RoutineManager::instance()` (the process-wide singleton) is left out. A routine's native implementation is an opaque handle, and a variable type is carried by its numeric code, because `script/types.h` is not part of this model.

## Findings

| source | as written | input that shows it | evidently intended | confidence | as-written member | corrected member |
|---|---|---|---|---|---|---|
| src/game/game.cpp:579-582 | `setLocalNumber` stores `value != 0` in `_state.localBooleans` | `setLocalNumber(7, 0, 5)` on an empty store, then `getLocalNumber(7, 0)` returns 0 (and `getLocalBoolean(7, 0)` returns true) | store `value` in `_state.localNumbers[objectId][index]` | high; not executed | GameStore.SetLocalNumber | GameStore.SetLocalNumberCorrected |

`GameStore.SetLocalNumberIsLost` and `GameStore.SetLocalNumberCounterexample`
exhibit the defect. `GameStore.LocalNumberReadAfterCorrectedWrite` proves the
intended read-after-write property of the correction.
