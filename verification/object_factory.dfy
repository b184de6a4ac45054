/**
 * The object factory (`game/object/factory.cpp`): every `new*` method hands
 * out the next value of one shared `uint32_t` counter as the object's id.
 * Ids 0 and 1 are reserved, so the counter starts at 2. The counter's
 * 32-bit wrap-around is explicit.
 */
module ObjectFactories {
  import opened Integers

  /** The object kinds the factory creates, one per `new*` method. */
  datatype ObjectKind = Module | Area | Creature | Placeable | Door | Waypoint | Trigger

  datatype GameObject = GameObject(id: ObjectId, kind: ObjectKind)

  datatype Factory = Factory(counter: U32)

  /** The first id the factory hands out; 0 and 1 are reserved. */
  const FirstObjectId: U32 := 2

  /** A new factory; construction leaves the counter at its initial value. */
  function NewFactory(): (f: Factory)
    ensures f.counter == FirstObjectId
  {
    Factory(2)
  }

  datatype Created = Created(factory: Factory, created: GameObject)

  /**
   * `newModule`, `newArea`, ... `newTrigger`: the object gets the current
   * counter as its id, and the counter moves on by one (modulo 2^32).
   */
  function NewObject(f: Factory, kind: ObjectKind): (r: Created)
    ensures r.created.id == f.counter && r.created.kind == kind
    ensures f.counter as int + 1 < U32Modulus ==> r.factory.counter as int == f.counter as int + 1
    ensures f.counter as int + 1 == U32Modulus ==> r.factory.counter == 0
  {
    Created(Factory(((f.counter as int + 1) % U32Modulus) as U32), GameObject(f.counter, kind))
  }

  datatype Batch = Batch(factory: Factory, objects: seq<GameObject>)

  /** Objects of the given kinds created one after another from the same factory. */
  function NewObjects(f: Factory, kinds: seq<ObjectKind>): (r: Batch)
    ensures |r.objects| == |kinds|
    ensures forall i :: 0 <= i < |kinds| ==> r.objects[i].kind == kinds[i]
    ensures f.counter as int + |kinds| < U32Modulus ==>
              && r.factory.counter as int == f.counter as int + |kinds|
              && forall i :: 0 <= i < |kinds| ==> r.objects[i].id as int == f.counter as int + i
    decreases |kinds|
  {
    if |kinds| == 0 then Batch(f, [])
    else
      var first := NewObject(f, kinds[0]);
      var rest := NewObjects(first.factory, kinds[1..]);
      Batch(rest.factory, [first.created] + rest.objects)
  }

  /**
   * Before the counter wraps, ids from a fresh factory are never reserved,
   * strictly increase across calls of any kinds, and so are pairwise
   * distinct.
   */
  lemma IdsAreFreshAndIncreasing(kinds: seq<ObjectKind>)
    requires FirstObjectId as int + |kinds| < U32Modulus
    ensures var objs := NewObjects(NewFactory(), kinds).objects;
            && (forall i :: 0 <= i < |objs| ==> objs[i].id >= FirstObjectId)
            && (forall i, j :: 0 <= i < j < |objs| ==> objs[i].id < objs[j].id)
            && (forall i, j :: 0 <= i < |objs| && 0 <= j < |objs| && i != j ==> objs[i].id != objs[j].id)
  {
    var objs := NewObjects(NewFactory(), kinds).objects;
    assert forall i :: 0 <= i < |objs| ==> objs[i].id as int == 2 + i;
  }

  /**
   * The limit of the 32-bit counter: the allocation after id 2^32 - 1 hands
   * out the reserved id 0.
   */
  lemma CounterWrapsToReservedId(kind: ObjectKind, kind': ObjectKind)
    ensures var last := NewObject(Factory((U32Modulus - 1) as U32), kind);
            && last.created.id as int == U32Modulus - 1
            && NewObject(last.factory, kind').created.id == 0
  {
  }
}
