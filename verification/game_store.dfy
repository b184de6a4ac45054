/**
 * The game-state store accessors of `Game` (`game/game.cpp`): global booleans
 * and numbers keyed by name, and local booleans and numbers keyed by object
 * id and index. A missing entry reads as `false` or 0.
 */
module GameStore {
  import opened Integers

  datatype GameState = GameState(
    globalBooleans: map<string, bool>,
    globalNumbers: map<string, int>,
    localBooleans: map<ObjectId, map<int, bool>>,
    localNumbers: map<ObjectId, map<int, int>>)

  /** The inner map of `outer` at `key`, created empty if absent (C++'s `operator[]`). */
  function InnerOrEmpty<V>(outer: map<ObjectId, map<int, V>>, key: ObjectId): (inner: map<int, V>)
    ensures key in outer ==> inner == outer[key]
    ensures key !in outer ==> inner == map[]
  {
    if key in outer then outer[key] else map[]
  }

  // ---------------------------------------------------------------------------
  // Reads

  function GetGlobalBoolean(s: GameState, name: string): (r: bool)
    ensures name in s.globalBooleans ==> r == s.globalBooleans[name]
    ensures name !in s.globalBooleans ==> !r
  {
    if name in s.globalBooleans then s.globalBooleans[name] else false
  }

  function GetGlobalNumber(s: GameState, name: string): (r: int)
    ensures name in s.globalNumbers ==> r == s.globalNumbers[name]
    ensures name !in s.globalNumbers ==> r == 0
  {
    if name in s.globalNumbers then s.globalNumbers[name] else 0
  }

  /** Asserts a non-negative index; false when the object or the index has no entry. */
  function GetLocalBoolean(s: GameState, objectId: ObjectId, index: int): (r: bool)
    requires index >= 0
    ensures objectId !in s.localBooleans ==> !r
    ensures objectId in s.localBooleans && index !in s.localBooleans[objectId] ==> !r
    ensures objectId in s.localBooleans && index in s.localBooleans[objectId] ==>
              r == s.localBooleans[objectId][index]
  {
    if objectId !in s.localBooleans then false
    else if index !in s.localBooleans[objectId] then false
    else s.localBooleans[objectId][index]
  }

  /** 0 when the object or the index has no entry; the index is not checked. */
  function GetLocalNumber(s: GameState, objectId: ObjectId, index: int): (r: int)
    ensures objectId !in s.localNumbers ==> r == 0
    ensures objectId in s.localNumbers && index !in s.localNumbers[objectId] ==> r == 0
    ensures objectId in s.localNumbers && index in s.localNumbers[objectId] ==>
              r == s.localNumbers[objectId][index]
  {
    if objectId !in s.localNumbers then 0
    else if index !in s.localNumbers[objectId] then 0
    else s.localNumbers[objectId][index]
  }

  // ---------------------------------------------------------------------------
  // Writes

  function SetGlobalBoolean(s: GameState, name: string, value: bool): (r: GameState)
    ensures name in r.globalBooleans && r.globalBooleans[name] == value
    ensures forall n :: n != name ==> (n in r.globalBooleans <==> n in s.globalBooleans)
    ensures forall n :: n != name && n in s.globalBooleans ==> r.globalBooleans[n] == s.globalBooleans[n]
    ensures r == s.(globalBooleans := r.globalBooleans)
  {
    s.(globalBooleans := s.globalBooleans[name := value])
  }

  function SetGlobalNumber(s: GameState, name: string, value: int): (r: GameState)
    ensures name in r.globalNumbers && r.globalNumbers[name] == value
    ensures forall n :: n != name ==> (n in r.globalNumbers <==> n in s.globalNumbers)
    ensures forall n :: n != name && n in s.globalNumbers ==> r.globalNumbers[n] == s.globalNumbers[n]
    ensures r == s.(globalNumbers := r.globalNumbers)
  {
    s.(globalNumbers := s.globalNumbers[name := value])
  }

  function SetLocalBoolean(s: GameState, objectId: ObjectId, index: int, value: bool): (r: GameState)
    requires index >= 0
    ensures objectId in r.localBooleans && index in r.localBooleans[objectId]
    ensures r.localBooleans[objectId][index] == value
    ensures r == s.(localBooleans := r.localBooleans)
  {
    s.(localBooleans := s.localBooleans[objectId := InnerOrEmpty(s.localBooleans, objectId)[index := value]])
  }

  /**
   * `setLocalNumber` AS WRITTEN: it stores `value != 0` in the local BOOLEANS
   * and never touches the local numbers.
   */
  function SetLocalNumber(s: GameState, objectId: ObjectId, index: int, value: int): (r: GameState)
    requires index >= 0
    ensures r == SetLocalBoolean(s, objectId, index, value != 0)
    ensures r.localNumbers == s.localNumbers
  {
    s.(localBooleans := s.localBooleans[objectId := InnerOrEmpty(s.localBooleans, objectId)[index := value != 0]])
  }

  /** `setLocalNumber` as evidently intended: the value goes into the local numbers. */
  function SetLocalNumberCorrected(s: GameState, objectId: ObjectId, index: int, value: int): (r: GameState)
    requires index >= 0
    ensures objectId in r.localNumbers && index in r.localNumbers[objectId]
    ensures r.localNumbers[objectId][index] == value
    ensures r == s.(localNumbers := r.localNumbers)
  {
    s.(localNumbers := s.localNumbers[objectId := InnerOrEmpty(s.localNumbers, objectId)[index := value]])
  }

  // ---------------------------------------------------------------------------
  // Read-after-write

  /** A global boolean reads back as written; every other name reads as before. */
  lemma GlobalBooleanReadAfterWrite(s: GameState, name: string, value: bool, other: string)
    ensures GetGlobalBoolean(SetGlobalBoolean(s, name, value), name) == value
    ensures other != name ==>
              GetGlobalBoolean(SetGlobalBoolean(s, name, value), other) == GetGlobalBoolean(s, other)
  {
  }

  /** A global number reads back as written; every other name reads as before. */
  lemma GlobalNumberReadAfterWrite(s: GameState, name: string, value: int, other: string)
    ensures GetGlobalNumber(SetGlobalNumber(s, name, value), name) == value
    ensures other != name ==>
              GetGlobalNumber(SetGlobalNumber(s, name, value), other) == GetGlobalNumber(s, other)
  {
  }

  /**
   * A local boolean reads back as written; every other (object, index) pair,
   * and every local number, reads as before.
   */
  lemma LocalBooleanReadAfterWrite(s: GameState, objectId: ObjectId, index: int, value: bool,
                                   otherId: ObjectId, otherIndex: int)
    requires index >= 0 && otherIndex >= 0
    ensures GetLocalBoolean(SetLocalBoolean(s, objectId, index, value), objectId, index) == value
    ensures (otherId, otherIndex) != (objectId, index) ==>
              GetLocalBoolean(SetLocalBoolean(s, objectId, index, value), otherId, otherIndex)
              == GetLocalBoolean(s, otherId, otherIndex)
    ensures GetLocalNumber(SetLocalBoolean(s, objectId, index, value), otherId, otherIndex)
            == GetLocalNumber(s, otherId, otherIndex)
  {
  }

  /**
   * The defect: after `setLocalNumber` every local number reads as before,
   * while the local boolean at the same place now holds `value != 0`.
   */
  lemma SetLocalNumberIsLost(s: GameState, objectId: ObjectId, index: int, value: int,
                             otherId: ObjectId, otherIndex: int)
    requires index >= 0
    ensures GetLocalNumber(SetLocalNumber(s, objectId, index, value), otherId, otherIndex)
            == GetLocalNumber(s, otherId, otherIndex)
    ensures GetLocalBoolean(SetLocalNumber(s, objectId, index, value), objectId, index) == (value != 0)
  {
  }

  /** The concrete witness: on an empty store, setting local number 5 reads back 0. */
  lemma SetLocalNumberCounterexample()
    ensures var empty := GameState(map[], map[], map[], map[]);
            GetLocalNumber(SetLocalNumber(empty, 7, 0, 5), 7, 0) == 0
  {
    var empty := GameState(map[], map[], map[], map[]);
    SetLocalNumberIsLost(empty, 7, 0, 5, 7, 0);
  }

  /**
   * With the correction a local number reads back as written; every other
   * (object, index) pair, and every local boolean, reads as before.
   */
  lemma LocalNumberReadAfterCorrectedWrite(s: GameState, objectId: ObjectId, index: int, value: int,
                                           otherId: ObjectId, otherIndex: int)
    requires index >= 0 && otherIndex >= 0
    ensures GetLocalNumber(SetLocalNumberCorrected(s, objectId, index, value), objectId, index) == value
    ensures (otherId, otherIndex) != (objectId, index) ==>
              GetLocalNumber(SetLocalNumberCorrected(s, objectId, index, value), otherId, otherIndex)
              == GetLocalNumber(s, otherId, otherIndex)
    ensures GetLocalBoolean(SetLocalNumberCorrected(s, objectId, index, value), otherId, otherIndex)
            == GetLocalBoolean(s, otherId, otherIndex)
  {
  }
}
