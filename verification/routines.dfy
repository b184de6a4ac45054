/**
 * The script routine registry (`script/routines.cpp`): routines are appended
 * in registration order and looked up by their index.
 *
 * `script/types.h` and the `Routine` class are not part of this model: a
 * variable type is carried by its numeric code and a native implementation by
 * an opaque handle.
 */
module Routines {
  import opened Wrappers

  datatype VariableType = VariableType(code: int)

  /** An opaque native implementation (a `std::function`). */
  datatype Handler = Handler(id: nat)

  datatype Routine = Routine(
    name: string,
    returnType: VariableType,
    argumentTypes: seq<VariableType>,
    handler: Option<Handler>)

  datatype RoutineManager = RoutineManager(routines: seq<Routine>)

  function Count(m: RoutineManager): nat {
    |m.routines|
  }

  /** The routine with the given index, which the source asserts is in range. */
  function Get(m: RoutineManager, index: int): (r: Routine)
    requires 0 <= index < Count(m)
    ensures r in m.routines
  {
    m.routines[index]
  }

  /** Registers a routine without a native implementation after all earlier ones. */
  function Add(m: RoutineManager, name: string, returnType: VariableType, argumentTypes: seq<VariableType>)
    : (r: RoutineManager)
    ensures Count(r) == Count(m) + 1
    ensures forall i :: 0 <= i < Count(m) ==> Get(r, i) == Get(m, i)
    ensures Get(r, Count(r) - 1) == Routine(name, returnType, argumentTypes, Option.None)
  {
    RoutineManager(m.routines + [Routine(name, returnType, argumentTypes, Option.None)])
  }

  /** Registers a routine with its native implementation after all earlier ones. */
  function AddWithHandler(m: RoutineManager, name: string, returnType: VariableType,
                          argumentTypes: seq<VariableType>, fn: Handler)
    : (r: RoutineManager)
    ensures Count(r) == Count(m) + 1
    ensures forall i :: 0 <= i < Count(m) ==> Get(r, i) == Get(m, i)
    ensures Get(r, Count(r) - 1) == Routine(name, returnType, argumentTypes, Some(fn))
  {
    RoutineManager(m.routines + [Routine(name, returnType, argumentTypes, Some(fn))])
  }

  /** Registers a table of routines in order, choosing the overload each entry needs. */
  function AddAll(m: RoutineManager, table: seq<Routine>): (r: RoutineManager)
    decreases |table|
  {
    if |table| == 0 then m
    else
      var t := table[0];
      var m' := if t.handler.Some?
        then AddWithHandler(m, t.name, t.returnType, t.argumentTypes, t.handler.value)
        else Add(m, t.name, t.returnType, t.argumentTypes);
      AddAll(m', table[1..])
  }

  /**
   * Registering a table keeps every earlier routine at its index and makes the
   * i-th entry of the table retrievable at index `Count(m) + i`: a routine's
   * index is its registration order.
   */
  lemma {:induction false} RegistrationOrderIsIndex(m: RoutineManager, table: seq<Routine>)
    ensures Count(AddAll(m, table)) == Count(m) + |table|
    ensures forall i :: 0 <= i < Count(m) ==> Get(AddAll(m, table), i) == Get(m, i)
    ensures forall i :: 0 <= i < |table| ==> Get(AddAll(m, table), Count(m) + i) == table[i]
    decreases |table|
  {
    if |table| > 0 {
      var t := table[0];
      var m' := if t.handler.Some?
        then AddWithHandler(m, t.name, t.returnType, t.argumentTypes, t.handler.value)
        else Add(m, t.name, t.returnType, t.argumentTypes);
      RegistrationOrderIsIndex(m', table[1..]);
      forall i | 0 <= i < |table|
        ensures Get(AddAll(m, table), Count(m) + i) == table[i]
      {
        if i > 0 {
          assert Count(m) + i == Count(m') + (i - 1);
        }
      }
    }
  }
}
