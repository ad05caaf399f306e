// The bookkeeping tables of the main Lua environment (lua/scripts/lua_environment.cpp): the
// registry of combat-area objects by id and by owning script interface, the table of pending
// one-shot timer events, and the lazily created interpreter state. The interpreter itself and
// its registry references are opaque numbers here.
module LuaEnvironment {
  import opened Ints
  import opened Wrappers

  /** A script interface, by identity (the pointer that keys areaIdMap). */
  type Interface = nat

  /** LuaTimerEventDesc: the script, the registry reference of the function and those of its
      arguments. */
  datatype TimerEventDesc = TimerEventDesc(scriptId: int32, functionRef: int32, parameters: seq<int32>)

  /** EVENT_ID_USER, the first event id of user scripts. */
  const EVENT_ID_USER: uint32 := 1000

  /** Every area id some interface has registered. */
  function AreaIds(areaIdMap: map<Interface, seq<uint32>>): set<uint32> {
    set i, k | i in areaIdMap && 0 <= k < |areaIdMap[i]| :: areaIdMap[i][k]
  }

  /** The ids clearAreaObjects removes for `iface`: those it registered. */
  function OwnedIds(areaIdMap: map<Interface, seq<uint32>>, iface: Interface): set<uint32> {
    if iface in areaIdMap then set k | 0 <= k < |areaIdMap[iface]| :: areaIdMap[iface][k] else {}
  }

  /** The id list of `iface` before a new id is pushed onto it (operator[] creates it empty). */
  function IdsOf(areaIdMap: map<Interface, seq<uint32>>, iface: Interface): seq<uint32> {
    if iface in areaIdMap then areaIdMap[iface] else []
  }

  /** The ids that ++lastAreaId hands out from `last` on: consecutive modulo 2^32, so no id
      comes back within 2^32 creations. */
  lemma NoIdReusedBeforeWrap(last: uint32, a: nat, b: nat)
    requires 1 <= a < b <= 0x1_0000_0000
    ensures ToU32(last + a) != ToU32(last + b)
  {
  }

  /** Whether every stored area object belongs to some interface, so that clearing them all
      leaves none behind. */
  predicate Covered(areaMap: set<uint32>, areaIdMap: map<Interface, seq<uint32>>) {
    areaMap <= AreaIds(areaIdMap)
  }

  /** Registering a new id for an interface keeps every stored object covered. */
  lemma {:induction false} CreateKeepsCovered(areaMap: set<uint32>, areaIdMap: map<Interface, seq<uint32>>, iface: Interface, id: uint32)
    requires Covered(areaMap, areaIdMap)
    ensures Covered(areaMap + {id}, areaIdMap[iface := IdsOf(areaIdMap, iface) + [id]])
  {
    var m := areaIdMap[iface := IdsOf(areaIdMap, iface) + [id]];
    var ids := IdsOf(areaIdMap, iface) + [id];
    assert iface in m && m[iface] == ids && ids[|ids| - 1] == id;
    assert m[iface][|m[iface]| - 1] in AreaIds(m);
    forall x | x in areaMap ensures x in AreaIds(m) {
      var i, k :| i in areaIdMap && 0 <= k < |areaIdMap[i]| && areaIdMap[i][k] == x;
      if i == iface {
        assert ids[k] == x;
      } else {
        assert m[i][k] == x;
      }
    }
  }

  /** Clearing one interface's objects keeps the others covered. */
  lemma {:induction false} ClearKeepsCovered(areaMap: set<uint32>, areaIdMap: map<Interface, seq<uint32>>, iface: Interface)
    requires Covered(areaMap, areaIdMap) && iface in areaIdMap
    ensures Covered(areaMap - OwnedIds(areaIdMap, iface), areaIdMap[iface := []])
  {
    var m := areaIdMap[iface := []];
    forall x | x in areaMap - OwnedIds(areaIdMap, iface) ensures x in AreaIds(m) {
      var i, k :| i in areaIdMap && 0 <= k < |areaIdMap[i]| && areaIdMap[i][k] == x;
      assert i != iface;
      assert m[i][k] == x;
    }
  }

  /** The registry references executeTimerEvent pushes: the function, then the arguments from
      the last to the first. */
  function PushOrder(desc: TimerEventDesc): seq<int32> {
    [desc.functionRef] + Reversed(desc.parameters)
  }

  /** The registry references it releases afterwards: the function, then the arguments in order. */
  function ReleaseOrder(desc: TimerEventDesc): seq<int32> {
    [desc.functionRef] + desc.parameters
  }

  function Reversed(s: seq<int32>): (r: seq<int32>)
    ensures |r| == |s| && forall i :: 0 <= i < |s| ==> r[i] == s[|s| - 1 - i]
  {
    if s == [] then [] else Reversed(s[1..]) + [s[0]]
  }

  lemma {:induction false} ReversedMultiset(s: seq<int32>)
    ensures multiset(Reversed(s)) == multiset(s)
    decreases |s|
  {
    if s != [] {
      ReversedMultiset(s[1..]);
      assert s == [s[0]] + s[1..];
    }
  }

  /** Every reference a timer event pushes is released exactly once afterwards, and the
      arguments reach the interpreter last-first, so the first one ends on top of the stack. */
  lemma TimerReferencesBalanced(desc: TimerEventDesc)
    ensures multiset(PushOrder(desc)) == multiset(ReleaseOrder(desc))
    ensures |desc.parameters| > 0 ==> PushOrder(desc)[|desc.parameters|] == desc.parameters[0]
  {
    ReversedMultiset(desc.parameters);
  }

  class LuaEnvironment {
    var lastAreaId: uint32
    /** The ids of areaMap; each holds an AreaCombat created empty, configured elsewhere. */
    var areaMap: set<uint32>
    var areaIdMap: map<Interface, seq<uint32>>
    var timerEvents: map<uint32, TimerEventDesc>
    /** Whether luaState is not null. */
    var stateOpen: bool
    var runningEventId: uint32
    /** The static LuaEnvironment::shuttingDown. */
    var shuttingDown: bool

    ghost predicate Valid()
      reads this
    {
      Covered(areaMap, areaIdMap)
    }

    constructor ()
      ensures Valid()
      ensures lastAreaId == 0 && areaMap == {} && areaIdMap == map[] && timerEvents == map[]
      ensures !stateOpen && !shuttingDown
    {
      lastAreaId := 0;
      areaMap := {};
      areaIdMap := map[];
      timerEvents := map[];
      stateOpen := false;
      runningEventId := 0;
      shuttingDown := false;
    }

    /** getAreaObject (lua_environment.cpp:105-111): whether the id holds an object (the null
        reference otherwise). */
    predicate GetAreaObject(id: uint32)
      reads this
    {
      id in areaMap
    }

    /** createAreaObject (lua_environment.cpp:113-117): the next id, wrapping at 2^32. */
    method CreateAreaObject(iface: Interface) returns (id: uint32)
      requires Valid()
      modifies this
      ensures Valid()
      ensures id == ToU32(old(lastAreaId) + 1) && lastAreaId == id
      ensures areaMap == old(areaMap) + {id} && GetAreaObject(id)
      ensures areaIdMap == old(areaIdMap)[iface := IdsOf(old(areaIdMap), iface) + [id]]
      ensures timerEvents == old(timerEvents) && stateOpen == old(stateOpen)
      ensures runningEventId == old(runningEventId) && shuttingDown == old(shuttingDown)
    {
      CreateKeepsCovered(areaMap, areaIdMap, iface, ToU32(lastAreaId + 1));
      lastAreaId := ToU32(lastAreaId + 1);
      areaMap := areaMap + {lastAreaId};
      areaIdMap := areaIdMap[iface := IdsOf(areaIdMap, iface) + [lastAreaId]];
      id := lastAreaId;
    }

    /** clearAreaObjects (lua_environment.cpp:119-132): the interface's objects are erased and its
        list emptied; an unknown interface changes nothing. */
    method ClearAreaObjects(iface: Interface)
      requires Valid()
      modifies this
      ensures Valid()
      ensures areaMap == old(areaMap) - OwnedIds(old(areaIdMap), iface)
      ensures areaIdMap == if iface in old(areaIdMap) then old(areaIdMap)[iface := []] else old(areaIdMap)
      ensures lastAreaId == old(lastAreaId) && timerEvents == old(timerEvents) && stateOpen == old(stateOpen)
      ensures runningEventId == old(runningEventId) && shuttingDown == old(shuttingDown)
    {
      if iface !in areaIdMap {
        return;
      }
      ClearKeepsCovered(areaMap, areaIdMap, iface);
      ghost var start := areaMap;
      var ids := areaIdMap[iface];
      var i := 0;
      while i < |ids|
        invariant 0 <= i <= |ids|
        invariant areaMap == start - (set k | 0 <= k < i :: ids[k])
        invariant areaIdMap == old(areaIdMap) && lastAreaId == old(lastAreaId) && timerEvents == old(timerEvents)
        invariant stateOpen == old(stateOpen) && runningEventId == old(runningEventId) && shuttingDown == old(shuttingDown)
      {
        if ids[i] in areaMap {
          areaMap := areaMap - {ids[i]};
        }
        assert (set k | 0 <= k < i + 1 :: ids[k]) == (set k | 0 <= k < i :: ids[k]) + {ids[i]};
        i := i + 1;
      }
      areaIdMap := areaIdMap[iface := []];
    }

    /** executeTimerEvent (lua_environment.cpp:134-168): an unknown index does nothing; a known
        event is removed before it runs, its references are pushed and afterwards released, and
        the script runs only when a script environment could be reserved. */
    method ExecuteTimerEvent(eventIndex: uint32, envReserved: bool)
      returns (ran: Option<TimerEventDesc>, pushed: seq<int32>, called: bool, released: seq<int32>)
      requires Valid()
      modifies this
      ensures Valid()
      ensures eventIndex !in old(timerEvents) ==> ran == None && pushed == [] && !called && released == []
      ensures eventIndex in old(timerEvents) ==>
        ran == Some(old(timerEvents)[eventIndex]) && pushed == PushOrder(ran.value) &&
        called == envReserved && released == ReleaseOrder(ran.value)
      ensures timerEvents == old(timerEvents) - {eventIndex}
      ensures lastAreaId == old(lastAreaId) && areaMap == old(areaMap) && areaIdMap == old(areaIdMap)
      ensures stateOpen == old(stateOpen) && runningEventId == old(runningEventId) && shuttingDown == old(shuttingDown)
    {
      if eventIndex !in timerEvents {
        return None, [], false, [];
      }
      var desc := timerEvents[eventIndex];
      timerEvents := timerEvents - {eventIndex};
      pushed := [desc.functionRef];
      var i := |desc.parameters|;
      while i > 0
        invariant 0 <= i <= |desc.parameters|
        invariant pushed == [desc.functionRef] + Reversed(desc.parameters)[..|desc.parameters| - i]
      {
        i := i - 1;
        assert Reversed(desc.parameters)[..|desc.parameters| - i] ==
          Reversed(desc.parameters)[..|desc.parameters| - i - 1] + [desc.parameters[i]];
        pushed := pushed + [desc.parameters[i]];
      }
      assert Reversed(desc.parameters)[..|desc.parameters|] == Reversed(desc.parameters);
      called := envReserved;
      released := [desc.functionRef];
      for j := 0 to |desc.parameters|
        invariant released == [desc.functionRef] + desc.parameters[..j]
      {
        assert desc.parameters[..j + 1] == desc.parameters[..j] + [desc.parameters[j]];
        released := released + [desc.parameters[j]];
      }
      assert desc.parameters[..|desc.parameters|] == desc.parameters;
      ran := Some(desc);
    }

    /** initState (lua_environment.cpp:57-63). */
    method InitState() returns (ok: bool)
      modifies this
      ensures ok && stateOpen && runningEventId == EVENT_ID_USER
      ensures lastAreaId == old(lastAreaId) && areaMap == old(areaMap) && areaIdMap == old(areaIdMap)
      ensures timerEvents == old(timerEvents) && shuttingDown == old(shuttingDown)
    {
      stateOpen := true;
      runningEventId := EVENT_ID_USER;
      ok := true;
    }

    /** getLuaState (lua_environment.cpp:45-55): while shutting down the state is returned as
        it is; otherwise a missing state is created first. */
    method GetLuaState() returns (open: bool)
      modifies this
      ensures open == stateOpen
      ensures old(shuttingDown) || old(stateOpen) ==> stateOpen == old(stateOpen) && runningEventId == old(runningEventId)
      ensures !old(shuttingDown) ==> stateOpen
      ensures !old(shuttingDown) && !old(stateOpen) ==> runningEventId == EVENT_ID_USER
      ensures lastAreaId == old(lastAreaId) && areaMap == old(areaMap) && areaIdMap == old(areaIdMap)
      ensures timerEvents == old(timerEvents) && shuttingDown == old(shuttingDown)
    {
      if shuttingDown {
        return stateOpen;
      }
      if !stateOpen {
        var _ := InitState();
      }
      return stateOpen;
    }

    /** closeState (lua_environment.cpp:71-95): false without a state; otherwise every
        interface's area objects are cleared, the interface and timer tables emptied and the
        state closed. */
    method CloseState() returns (closed: bool)
      requires Valid()
      modifies this
      ensures Valid()
      ensures closed == old(stateOpen) && !stateOpen
      ensures !closed ==> areaMap == old(areaMap) && areaIdMap == old(areaIdMap) && timerEvents == old(timerEvents)
      ensures closed ==> areaMap == {} && areaIdMap == map[] && timerEvents == map[] && !stateOpen
      ensures lastAreaId == old(lastAreaId) && runningEventId == old(runningEventId) && shuttingDown == old(shuttingDown)
    {
      if !stateOpen {
        return false;
      }
      var pending := areaIdMap.Keys;
      while pending != {}
        invariant Valid()
        invariant pending <= areaIdMap.Keys && areaIdMap.Keys == old(areaIdMap).Keys
        invariant forall i :: i in areaIdMap && i !in pending ==> areaIdMap[i] == []
        invariant lastAreaId == old(lastAreaId) && timerEvents == old(timerEvents) && stateOpen
        invariant runningEventId == old(runningEventId) && shuttingDown == old(shuttingDown)
        decreases pending
      {
        var iface :| iface in pending;
        ClearAreaObjects(iface);
        pending := pending - {iface};
      }
      NoIdsWhenAllEmpty(areaIdMap);
      areaIdMap := map[];
      timerEvents := map[];
      stateOpen := false;
      closed := true;
    }

    /** reInitState (lua_environment.cpp:65-69). */
    method ReInitState() returns (ok: bool)
      requires Valid()
      modifies this
      ensures Valid() && ok && stateOpen && runningEventId == EVENT_ID_USER
      ensures old(stateOpen) ==> areaMap == {} && areaIdMap == map[] && timerEvents == map[]
      ensures lastAreaId == old(lastAreaId) && shuttingDown == old(shuttingDown)
    {
      var _ := CloseState();
      ok := InitState();
    }

    /** The destructor (lua_environment.cpp:37-43): marks the shutdown, then closes the state. */
    method Destroy()
      requires Valid()
      modifies this
      ensures Valid() && shuttingDown && !stateOpen
      ensures old(stateOpen) ==> areaMap == {} && areaIdMap == map[] && timerEvents == map[]
    {
      shuttingDown := true;
      var _ := CloseState();
    }
  }

  /** Once every list is empty no id is registered. */
  lemma NoIdsWhenAllEmpty(m: map<Interface, seq<uint32>>)
    requires forall i :: i in m ==> m[i] == []
    ensures AreaIds(m) == {}
  {
  }
}
