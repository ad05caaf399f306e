// Loading the named storage keys (creatures/players/storages/storages.cpp) from an
// already-parsed storages document: each range shifts the keys of its storages by its start,
// and every storage whose shifted key falls inside the range is stored under its name.
module Storages {
  import opened Ints
  import opened Wrappers

  /** A <storage name=".." key=".."/> node. */
  datatype StorageNode = StorageNode(name: string, key: uint32)

  /** A <range start=".." end=".."> node with its storages, in document order. */
  datatype RangeNode = RangeNode(start: uint32, end: uint32, storages: seq<StorageNode>)

  /** What the loader reports without stopping: a range that conflicts with an earlier one
      (once per earlier range), a name with an upper-case letter, a key outside its range. */
  datatype Warning = RangeConflict(start: uint32, end: uint32) | UppercaseName(name: string) | KeyOutsideRange(name: string)

  // ---------------------------------------------------------------- the key of a storage

  /** `key += start` on uint32, then the `key > end` test, as written (storages.cpp:65-71). */
  function ShiftedKeyAsWritten(key: uint32, start: uint32, end: uint32): Option<uint32> {
    var k := ToU32(key + start);
    if k > end then None else Some(k)
  }

  /** A key close to 2^32 wraps around and passes the test with a value below the range. */
  lemma WrappedKeyEscapesRange()
    ensures ShiftedKeyAsWritten(10, 4294967290, 4294967295) == Some(4)
    ensures 4 < 4294967290
  {
  }

  /** The range test the comment describes: the key shifted by the start must not pass the end. */
  function StoredKey(key: uint32, start: uint32, end: uint32): (r: Option<uint32>)
    ensures r.Some? ==> r.value == key + start
    ensures r.None? <==> key + start > end
  {
    if key + start > end then None else Some(key + start)
  }

  /** A stored key lies inside its range, and every key of the range is reachable. */
  lemma StoredKeyInRange(key: uint32, start: uint32, end: uint32)
    ensures StoredKey(key, start, end).Some? ==> start <= StoredKey(key, start, end).value <= end
    ensures start <= end && key <= end - start ==> StoredKey(key, start, end) == Some(key + start)
    ensures ShiftedKeyAsWritten(key, start, end) == StoredKey(key, start, end) || key + start >= 0x1_0000_0000
  {
  }

  // ---------------------------------------------------------------- range conflicts

  /** The conflict test as written (storages.cpp:46): the new range's start or end lies in the
      earlier range. */
  predicate OverlapsAsWritten(start: uint32, end: uint32, rangeStart: uint32, rangeEnd: uint32) {
    (start >= rangeStart && start <= rangeEnd) || (end >= rangeStart && end <= rangeEnd)
  }

  /** A new range that strictly contains an earlier one shares its keys but is not reported. */
  lemma ContainingRangeNotReported()
    ensures !OverlapsAsWritten(5, 30, 10, 20)
    ensures 5 <= 15 <= 30 && 10 <= 15 <= 20
  {
  }

  /** Whether two ranges share a key. */
  predicate Intersects(start: uint32, end: uint32, rangeStart: uint32, rangeEnd: uint32) {
    start <= rangeEnd && rangeStart <= end && start <= end && rangeStart <= rangeEnd
  }

  /** Intersects holds exactly when some key lies in both ranges, and the written test never
      reports two well-formed ranges that share no key. */
  lemma IntersectsMeansSharedKey(start: uint32, end: uint32, rangeStart: uint32, rangeEnd: uint32, k: int)
    ensures Intersects(start, end, rangeStart, rangeEnd) ==>
      var k := if start < rangeStart then rangeStart else start;
      start <= k <= end && rangeStart <= k <= rangeEnd
    ensures start <= k <= end && rangeStart <= k <= rangeEnd ==> Intersects(start, end, rangeStart, rangeEnd)
    ensures start <= end && rangeStart <= rangeEnd && OverlapsAsWritten(start, end, rangeStart, rangeEnd) ==>
      Intersects(start, end, rangeStart, rangeEnd)
  {
  }

  /** One warning per earlier range the new one intersects, in the order they were defined. */
  function ConflictWarnings(start: uint32, end: uint32, earlier: seq<(uint32, uint32)>): seq<Warning>
    decreases |earlier|
  {
    if earlier == [] then []
    else
      var last := earlier[|earlier| - 1];
      ConflictWarnings(start, end, earlier[..|earlier| - 1]) +
        (if Intersects(start, end, last.0, last.1) then [RangeConflict(start, end)] else [])
  }

  /** There is a conflict warning exactly when an earlier range intersects the new one. */
  lemma {:induction false} ConflictWarningsMeaning(start: uint32, end: uint32, earlier: seq<(uint32, uint32)>)
    ensures ConflictWarnings(start, end, earlier) != [] <==>
      exists j :: 0 <= j < |earlier| && Intersects(start, end, earlier[j].0, earlier[j].1)
    ensures forall w :: w in ConflictWarnings(start, end, earlier) ==> w == RangeConflict(start, end)
    decreases |earlier|
  {
    if earlier != [] {
      var init := earlier[..|earlier| - 1];
      ConflictWarningsMeaning(start, end, init);
      assert forall j :: 0 <= j < |init| ==> init[j] == earlier[j];
    }
  }

  // ---------------------------------------------------------------- storages of one range

  /** std::isupper in the C locale. */
  predicate HasUppercase(name: string) {
    exists i :: 0 <= i < |name| && 'A' <= name[i] <= 'Z'
  }

  /** The map after the storages `nodes` of a range, each later name overwriting earlier ones. */
  function StoreAll(m: map<string, uint32>, start: uint32, end: uint32, nodes: seq<StorageNode>): map<string, uint32>
    decreases |nodes|
  {
    if nodes == [] then m
    else
      var before := StoreAll(m, start, end, nodes[..|nodes| - 1]);
      var node := nodes[|nodes| - 1];
      match StoredKey(node.key, start, end)
      case None => before
      case Some(k) => before[node.name := k]
  }

  /** The warnings for the storages `nodes` of a range. */
  function StorageWarnings(start: uint32, end: uint32, nodes: seq<StorageNode>): seq<Warning>
    decreases |nodes|
  {
    if nodes == [] then []
    else
      var node := nodes[|nodes| - 1];
      StorageWarnings(start, end, nodes[..|nodes| - 1]) +
        (if HasUppercase(node.name) then [UppercaseName(node.name)] else []) +
        (if StoredKey(node.key, start, end).None? then [KeyOutsideRange(node.name)] else [])
  }

  /** Names a range does not store (in range) keep their entries. */
  lemma {:induction false} StoreAllUntouched(m: map<string, uint32>, start: uint32, end: uint32, nodes: seq<StorageNode>, name: string)
    requires forall i :: 0 <= i < |nodes| ==> nodes[i].name != name || StoredKey(nodes[i].key, start, end).None?
    ensures name in StoreAll(m, start, end, nodes) <==> name in m
    ensures name in m ==> StoreAll(m, start, end, nodes)[name] == m[name]
    decreases |nodes|
  {
    if nodes != [] {
      var init := nodes[..|nodes| - 1];
      assert forall i :: 0 <= i < |init| ==> init[i] == nodes[i];
      StoreAllUntouched(m, start, end, init, name);
    }
  }

  /** A name's entry after a range is its last in-range storage there, shifted by the start. */
  lemma {:induction false} StoreAllLast(m: map<string, uint32>, start: uint32, end: uint32, nodes: seq<StorageNode>, i: nat)
    requires i < |nodes| && StoredKey(nodes[i].key, start, end).Some?
    requires forall j :: i < j < |nodes| ==> nodes[j].name != nodes[i].name || StoredKey(nodes[j].key, start, end).None?
    ensures nodes[i].name in StoreAll(m, start, end, nodes)
    ensures StoreAll(m, start, end, nodes)[nodes[i].name] == nodes[i].key + start
    decreases |nodes|
  {
    if i < |nodes| - 1 {
      var init := nodes[..|nodes| - 1];
      assert forall j :: 0 <= j < |init| ==> init[j] == nodes[j];
      StoreAllLast(m, start, end, init, i);
      assert nodes[|nodes| - 1].name != nodes[i].name || StoredKey(nodes[|nodes| - 1].key, start, end).None?;
    }
  }

  // ---------------------------------------------------------------- the whole document

  /** The map after loading `ranges` on top of `m`. */
  function LoadAll(m: map<string, uint32>, ranges: seq<RangeNode>): map<string, uint32>
    decreases |ranges|
  {
    if ranges == [] then m
    else
      var r := ranges[|ranges| - 1];
      StoreAll(LoadAll(m, ranges[..|ranges| - 1]), r.start, r.end, r.storages)
  }

  /** The (start, end) pairs of the ranges, the `ranges` vector of the loader. */
  function Bounds(ranges: seq<RangeNode>): (r: seq<(uint32, uint32)>)
    ensures |r| == |ranges| && forall i :: 0 <= i < |ranges| ==> r[i] == (ranges[i].start, ranges[i].end)
  {
    if ranges == [] then [] else Bounds(ranges[..|ranges| - 1]) + [(ranges[|ranges| - 1].start, ranges[|ranges| - 1].end)]
  }

  /** The warnings of the whole document. */
  function LoadWarnings(ranges: seq<RangeNode>): seq<Warning>
    decreases |ranges|
  {
    if ranges == [] then []
    else
      var r := ranges[|ranges| - 1];
      var init := ranges[..|ranges| - 1];
      LoadWarnings(init) + ConflictWarnings(r.start, r.end, Bounds(init)) + StorageWarnings(r.start, r.end, r.storages)
  }

  /** Starting from an empty map, every stored key lies inside the range of some storage with
      that name, so no name ends up with a key outside the ranges of the document. */
  lemma {:induction false} LoadedKeysInRanges(ranges: seq<RangeNode>)
    ensures forall name :: name in LoadAll(map[], ranges) ==>
      exists i :: 0 <= i < |ranges| && ranges[i].start <= LoadAll(map[], ranges)[name] <= ranges[i].end
    decreases |ranges|
  {
    if ranges != [] {
      var init := ranges[..|ranges| - 1];
      var r := ranges[|ranges| - 1];
      LoadedKeysInRanges(init);
      var before := LoadAll(map[], init);
      forall name | name in LoadAll(map[], ranges)
        ensures exists i :: 0 <= i < |ranges| && ranges[i].start <= LoadAll(map[], ranges)[name] <= ranges[i].end
      {
        StoreAllInRange(before, r.start, r.end, r.storages, name);
        if name in before && LoadAll(map[], ranges)[name] == before[name] {
          var i :| 0 <= i < |init| && init[i].start <= before[name] <= init[i].end;
          assert ranges[i] == init[i];
        } else {
          assert ranges[|ranges| - 1] == r;
        }
      }
    }
  }

  /** A range either leaves an entry as it was or sets it to a key inside the range. */
  lemma {:induction false} StoreAllInRange(m: map<string, uint32>, start: uint32, end: uint32, nodes: seq<StorageNode>, name: string)
    requires name in StoreAll(m, start, end, nodes)
    ensures (name in m && StoreAll(m, start, end, nodes)[name] == m[name]) ||
            start <= StoreAll(m, start, end, nodes)[name] <= end
    decreases |nodes|
  {
    if nodes != [] {
      var init := nodes[..|nodes| - 1];
      var node := nodes[|nodes| - 1];
      var before := StoreAll(m, start, end, init);
      if StoredKey(node.key, start, end).Some? && node.name == name {
        StoredKeyInRange(node.key, start, end);
      } else {
        StoreAllInRange(m, start, end, init, name);
      }
    }
  }

  /** A range that conflicts with earlier ones is still loaded in full: appending a range with
      one in-range storage binds its name to the shifted key, whatever came before. */
  lemma LaterRangeWins(m: map<string, uint32>, ranges: seq<RangeNode>, start: uint32, end: uint32, name: string, key: uint32)
    requires key + start <= end
    ensures var all := ranges + [RangeNode(start, end, [StorageNode(name, key)])];
      name in LoadAll(m, all) && LoadAll(m, all)[name] == key + start
  {
    var all := ranges + [RangeNode(start, end, [StorageNode(name, key)])];
    assert all[..|all| - 1] == ranges;
    var nodes := [StorageNode(name, key)];
    assert nodes[..0] == [];
  }

  class Storages {
    var storageMap: map<string, uint32>

    constructor ()
      ensures storageMap == map[]
    {
      storageMap := map[];
    }

    /** The inner conflict loop (storages.cpp:45-50). */
    static method CheckConflicts(start: uint32, end: uint32, earlier: seq<(uint32, uint32)>) returns (warnings: seq<Warning>)
      ensures warnings == ConflictWarnings(start, end, earlier)
    {
      warnings := [];
      for j := 0 to |earlier|
        invariant warnings == ConflictWarnings(start, end, earlier[..j])
      {
        assert earlier[..j + 1][..j] == earlier[..j];
        if Intersects(start, end, earlier[j].0, earlier[j].1) {
          warnings := warnings + [RangeConflict(start, end)];
        }
      }
      assert earlier[..|earlier|] == earlier;
    }

    /** The storages of one range (storages.cpp:54-74). */
    method LoadStorages(start: uint32, end: uint32, nodes: seq<StorageNode>) returns (warnings: seq<Warning>)
      modifies this
      ensures storageMap == StoreAll(old(storageMap), start, end, nodes)
      ensures warnings == StorageWarnings(start, end, nodes)
    {
      warnings := [];
      for i := 0 to |nodes|
        invariant storageMap == StoreAll(old(storageMap), start, end, nodes[..i])
        invariant warnings == StorageWarnings(start, end, nodes[..i])
      {
        assert nodes[..i + 1][..i] == nodes[..i];
        var node := nodes[i];
        var upper := false;
        for c := 0 to |node.name|
          invariant upper <==> exists k :: 0 <= k < c && 'A' <= node.name[k] <= 'Z'
        {
          if !upper && 'A' <= node.name[c] <= 'Z' {
            upper := true;
          }
        }
        if upper {
          warnings := warnings + [UppercaseName(node.name)];
        }
        if node.key + start > end {
          warnings := warnings + [KeyOutsideRange(node.name)];
        } else {
          storageMap := storageMap[node.name := node.key + start];
        }
      }
      assert nodes[..|nodes|] == nodes;
    }

    /** loadFromXML (storages.cpp:27-78): false with the map untouched when the document did
        not parse (None); otherwise true, with the ranges loaded in order on top of the map. */
    method LoadFromXml(document: Option<seq<RangeNode>>) returns (ok: bool, warnings: seq<Warning>)
      modifies this
      ensures document.None? ==> !ok && storageMap == old(storageMap) && warnings == []
      ensures document.Some? ==>
        ok && storageMap == LoadAll(old(storageMap), document.value) && warnings == LoadWarnings(document.value)
    {
      if document.None? {
        return false, [];
      }
      var ranges := document.value;
      var seen: seq<(uint32, uint32)> := [];
      warnings := [];
      for i := 0 to |ranges|
        invariant seen == Bounds(ranges[..i])
        invariant storageMap == LoadAll(old(storageMap), ranges[..i])
        invariant warnings == LoadWarnings(ranges[..i])
      {
        assert ranges[..i + 1][..i] == ranges[..i];
        var range := ranges[i];
        var conflicts := CheckConflicts(range.start, range.end, seen);
        seen := seen + [(range.start, range.end)];
        var skipped := LoadStorages(range.start, range.end, range.storages);
        warnings := warnings + conflicts + skipped;
      }
      assert ranges[..|ranges|] == ranges;
      ok := true;
    }
  }
}
