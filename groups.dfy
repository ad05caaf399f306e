// Player groups (creatures/players/grouping/groups.cpp): the parse map of flag names, the
// numeric and named flag decoding of a <group> element, the ordered group table and its lookup
// by id. The XML document arrives already parsed. The PlayerFlags_t enumeration is not part of
// this model; it is taken as the names of its enumerators before FlagLast, in value order, so
// that FlagLast is the number of names.
module Groups {
  import opened Ints
  import opened Wrappers
  import opened Text

  /** An XML attribute: its name and its text. */
  datatype XmlAttr = XmlAttr(name: string, value: string)

  /** A <group> element as the loader reads it. The attributes converted with pugi::cast come
      converted; `access`, `outfit` and `flags` are None when the attribute is missing, and
      `flagNodes` holds, for a <flags> child, the first attribute of each of its children. */
  datatype GroupNode = GroupNode(id: uint32, name: string, access: Option<string>, maxDepotItems: uint32,
                                 maxVipEntries: uint32, outfit: Option<uint32>, flags: Option<uint32>,
                                 flagNodes: Option<seq<Option<XmlAttr>>>)

  /** A loaded group: `flags[i]` is whether flag value i is granted. */
  datatype Group = Group(id: uint32, name: string, access: bool, maxDepotItems: uint32,
                         maxVipEntries: uint32, outfit: uint32, flags: seq<bool>)

  /** pugixml's as_bool: true when the text starts with 1, t, T, y or Y; false for a missing
      attribute. */
  predicate AsBool(value: Option<string>) {
    value.Some? && |value.value| > 0 && value.value[0] in {'1', 't', 'T', 'y', 'Y'}
  }

  // ---------------------------------------------------------------- the parse map of flag names

  /** The parse map made from `names` (groups.cpp:27-40): each lower-cased name to its value, a
      later name replacing an earlier one that lower-cases alike. */
  function FlagMap(names: seq<string>): map<string, nat>
    decreases |names|
  {
    if names == [] then map[]
    else FlagMap(names[..|names| - 1])[ToLower(names[|names| - 1]) := |names| - 1]
  }

  /** A key is in the map exactly when some name lower-cases to it, and it maps to the last such
      name's value, which is a valid flag number. */
  lemma {:induction false} FlagMapMeaning(names: seq<string>, key: string)
    ensures key in FlagMap(names) <==> exists i :: 0 <= i < |names| && ToLower(names[i]) == key
    ensures key in FlagMap(names) ==>
      var v := FlagMap(names)[key];
      v < |names| && ToLower(names[v]) == key && forall j :: v < j < |names| ==> ToLower(names[j]) != key
    decreases |names|
  {
    if names != [] {
      var init := names[..|names| - 1];
      FlagMapMeaning(init, key);
      assert forall i :: 0 <= i < |init| ==> init[i] == names[i];
      if ToLower(names[|names| - 1]) != key && key in FlagMap(init) {
        var i :| 0 <= i < |init| && ToLower(init[i]) == key;
        assert ToLower(names[i]) == key;
      }
    }
  }

  /** Every value in the map is below the number of names, so it indexes the flags of a group. */
  lemma FlagMapInRange(names: seq<string>)
    ensures forall key :: key in FlagMap(names) ==> FlagMap(names)[key] < |names|
  {
    forall key | key in FlagMap(names)
      ensures FlagMap(names)[key] < |names|
    {
      FlagMapMeaning(names, key);
    }
  }

  /** initParsePlayerFlagMap (groups.cpp:27-40) over the enumerators before FlagLast. */
  method InitFlagMap(names: seq<string>) returns (m: map<string, nat>)
    ensures m == FlagMap(names)
  {
    m := map[];
    for i := 0 to |names|
      invariant m == FlagMap(names[..i])
    {
      assert names[..i + 1][..i] == names[..i];
      m := m[ToLower(names[i]) := i];
    }
    assert names[..|names|] == names;
  }

  /** As written, the loop runs over every enumerator, FlagLast included, so `last`, the name
      "FlagLast", is parsed too (as "flaglast"), to a value one past the last flag of a group. */
  lemma FlagLastEscapesFlags(names: seq<string>, last: string)
    ensures var m := FlagMap(names + [last]);
      ToLower(last) in m && m[ToLower(last)] == |names|
  {
    var all := names + [last];
    assert all[..|all| - 1] == names;
  }

  // ---------------------------------------------------------------- numeric flags

  /** Bit i of x. */
  function Bit(x: nat, i: nat): bool {
    if i == 0 then x % 2 == 1 else Bit(x / 2, i - 1)
  }

  type Positive = n: nat | n >= 1 witness 1

  /** 2^k, a divisor for the bit arithmetic. */
  function Pow2(k: nat): Positive {
    if k == 0 then 1 else 2 * Pow2(k - 1)
  }

  /** The number whose bits, lowest first, are `bits`. */
  function BitsValue(bits: seq<bool>): nat {
    if bits == [] then 0 else (if bits[0] then 1 else 0) + 2 * BitsValue(bits[1..])
  }

  /** The flags the numeric attribute grants (groups.cpp:97-102): flag i is bit i of the byte. */
  function NumericFlags(flagsInt: uint8, count: nat): (r: seq<bool>)
    ensures |r| == count
  {
    seq(count, i requires 0 <= i < count => Bit(flagsInt, i))
  }

  /** The attribute as_uint reads: 0 when it is missing. */
  function FlagsAttr(flags: Option<uint32>): uint32 {
    if flags.Some? then flags.value else 0
  }

  lemma ModDouble(x: nat, p: nat)
    requires p >= 1
    ensures x % (2 * p) == x % 2 + 2 * ((x / 2) % p)
  {
    var q := x / 2;
    var r := x % 2;
    var q2 := q / p;
    var r2 := q % p;
    assert q == p * q2 + r2;
    assert x == (2 * p) * q2 + (2 * r2 + r);
    assert 0 <= 2 * r2 + r < 2 * p;
    var m := x % (2 * p);
    var d := x / (2 * p);
    assert x == (2 * p) * d + m;
    if d < q2 {
      MulLe(2 * p, d + 1, q2);
      assert false;
    } else if d > q2 {
      MulLe(2 * p, q2 + 1, d);
      assert false;
    }
  }

  lemma MulLe(c: nat, a: int, b: int)
    ensures a <= b ==> c * a <= c * b
  {
    if a <= b {
      assert c * b - c * a == c * (b - a);
    }
  }

  /** Reading the first k bits of x back gives x modulo 2^k. */
  lemma {:induction false} BitsRoundTrip(x: nat, k: nat)
    ensures BitsValue(seq(k, i requires 0 <= i < k => Bit(x, i))) == x % Pow2(k)
    decreases k
  {
    if k > 0 {
      var bits := seq(k, i requires 0 <= i < k => Bit(x, i));
      var rest := seq(k - 1, i requires 0 <= i < k - 1 => Bit(x / 2, i));
      assert bits[1..] == rest;
      BitsRoundTrip(x / 2, k - 1);
      ModDouble(x, Pow2(k - 1));
    }
  }

  /** A value below 2^j has no bit at j or above. */
  lemma {:induction false} HighBitsClear(x: nat, j: nat, i: nat)
    requires x < Pow2(j) && j <= i
    ensures !Bit(x, i)
    decreases i
  {
    if i > 0 {
      if j > 0 {
        HighBitsClear(x / 2, j - 1, i - 1);
      } else {
        HighBitsClear(x / 2, 0, i - 1);
      }
    }
  }

  /** The numeric attribute is cut to its low byte: the first eight flags spell that byte and
      every later flag is clear. */
  lemma NumericFlagsOfByte(flags: Option<uint32>, count: nat)
    requires count >= 8
    ensures var r := NumericFlags(ToU8(FlagsAttr(flags)), count);
      BitsValue(r[..8]) == FlagsAttr(flags) % 256 &&
      forall i :: 8 <= i < count ==> !r[i]
  {
    var b := ToU8(FlagsAttr(flags));
    var r := NumericFlags(b, count);
    assert r[..8] == seq(8, i requires 0 <= i < 8 => Bit(b, i));
    BitsRoundTrip(b, 8);
    assert Pow2(8) == 256;
    forall i | 8 <= i < count
      ensures !r[i]
    {
      HighBitsClear(b, 8, i);
    }
  }

  /** decodeFlags: the loop of groups.cpp:98-102 over the bitset of the byte. */
  method DecodeFlags(flagsInt: uint8, count: nat) returns (flags: seq<bool>)
    ensures flags == NumericFlags(flagsInt, count)
  {
    flags := seq(count, _ => false);
    for i := 0 to count
      invariant |flags| == count
      invariant forall j :: 0 <= j < i ==> flags[j] == Bit(flagsInt, j)
    {
      flags := flags[i := Bit(flagsInt, i)];
    }
  }

  // ---------------------------------------------------------------- named flags

  /** Whether a child of <flags> with first attribute `attr` grants flag i. */
  predicate Grants(attr: Option<XmlAttr>, m: map<string, nat>, i: nat) {
    attr.Some? && AsBool(Some(attr.value.value)) && ToLower(attr.value.name) in m &&
    m[ToLower(attr.value.name)] == i
  }

  /** The flags after parseGroupFlags has walked `entries` (groups.cpp:59-75). */
  function ParsedFlags(flags: seq<bool>, entries: seq<Option<XmlAttr>>, m: map<string, nat>): (r: seq<bool>)
    requires forall key :: key in m ==> m[key] < |flags|
    ensures |r| == |flags|
    decreases |entries|
  {
    if entries == [] then flags
    else
      var before := ParsedFlags(flags, entries[..|entries| - 1], m);
      var attr := entries[|entries| - 1];
      if attr.Some? && AsBool(Some(attr.value.value)) && ToLower(attr.value.name) in m
      then before[m[ToLower(attr.value.name)] := true]
      else before
  }

  /** A flag is set after parsing exactly when it was set before or some child with a truthy
      first attribute names it; unknown names change nothing and nothing is ever cleared. */
  lemma {:induction false} ParsedFlagsMeaning(flags: seq<bool>, entries: seq<Option<XmlAttr>>, m: map<string, nat>, i: nat)
    requires forall key :: key in m ==> m[key] < |flags|
    requires i < |flags|
    ensures ParsedFlags(flags, entries, m)[i] <==>
      flags[i] || exists k :: 0 <= k < |entries| && Grants(entries[k], m, i)
    decreases |entries|
  {
    if entries != [] {
      var init := entries[..|entries| - 1];
      ParsedFlagsMeaning(flags, init, m, i);
      assert forall k :: 0 <= k < |init| ==> init[k] == entries[k];
      if exists k :: 0 <= k < |entries| && Grants(entries[k], m, i) {
        var k :| 0 <= k < |entries| && Grants(entries[k], m, i);
        if k < |init| {
          assert Grants(init[k], m, i);
        }
      }
    }
  }

  /** parseGroupFlags (groups.cpp:59-75): nothing without a <flags> child. */
  method ParseGroupFlags(flags: seq<bool>, flagNodes: Option<seq<Option<XmlAttr>>>, m: map<string, nat>) returns (r: seq<bool>)
    requires forall key :: key in m ==> m[key] < |flags|
    ensures flagNodes.None? ==> r == flags
    ensures flagNodes.Some? ==> r == ParsedFlags(flags, flagNodes.value, m)
  {
    r := flags;
    if flagNodes.None? {
      return;
    }
    var entries := flagNodes.value;
    for k := 0 to |entries|
      invariant r == ParsedFlags(flags, entries[..k], m)
    {
      assert entries[..k + 1][..k] == entries[..k];
      var attr := entries[k];
      if attr.None? || !AsBool(Some(attr.value.value)) {
        continue;
      }
      var name := ToLower(attr.value.name);
      if name in m {
        r := r[m[name] := true];
      }
    }
    assert entries[..|entries|] == entries;
  }

  // ---------------------------------------------------------------- groups

  /** The group a <group> element loads (groups.cpp:87-105), with `count` flags. */
  function GroupOf(node: GroupNode, m: map<string, nat>, count: nat): (g: Group)
    requires forall key :: key in m ==> m[key] < count
    ensures g.id == node.id && |g.flags| == count
  {
    var numeric := NumericFlags(ToU8(FlagsAttr(node.flags)), count);
    Group(node.id, node.name, AsBool(node.access), node.maxDepotItems, node.maxVipEntries,
          if node.outfit.Some? then node.outfit.value else 0,
          if node.flagNodes.Some? then ParsedFlags(numeric, node.flagNodes.value, m) else numeric)
  }

  /** The groups the elements load, in document order. */
  function GroupsOf(nodes: seq<GroupNode>, m: map<string, nat>, count: nat): (r: seq<Group>)
    requires forall key :: key in m ==> m[key] < count
    ensures |r| == |nodes|
  {
    seq(|nodes|, i requires 0 <= i < |nodes| => GroupOf(nodes[i], m, count))
  }

  /** A group's flag is granted exactly when its bit is set in the numeric attribute's low byte
      or a child of <flags> with a truthy first attribute names it. */
  lemma GroupFlagMeaning(node: GroupNode, m: map<string, nat>, count: nat, i: nat)
    requires forall key :: key in m ==> m[key] < count
    requires i < count
    ensures GroupOf(node, m, count).flags[i] <==>
      Bit(ToU8(FlagsAttr(node.flags)), i) ||
      (node.flagNodes.Some? && exists k :: 0 <= k < |node.flagNodes.value| && Grants(node.flagNodes.value[k], m, i))
  {
    if node.flagNodes.Some? {
      ParsedFlagsMeaning(NumericFlags(ToU8(FlagsAttr(node.flags)), count), node.flagNodes.value, m, i);
    }
  }

  /** The first group with the id, if any (the find_if of groups.cpp:114-116). */
  function FindGroup(gs: seq<Group>, id: uint16): (r: Option<nat>)
    ensures r.Some? ==> r.value < |gs| && gs[r.value].id == id && forall j :: 0 <= j < r.value ==> gs[j].id != id
    ensures r.None? <==> forall j :: 0 <= j < |gs| ==> gs[j].id != id
    decreases |gs|
  {
    if gs == [] then None
    else if gs[0].id == id then Some(0)
    else
      var rest := FindGroup(gs[1..], id);
      assert forall j :: 1 <= j < |gs| ==> gs[j] == gs[1..][j - 1];
      if rest.Some? then Some(rest.value + 1) else None
  }

  /** Loading elements and looking an id up finds the group of the first element with that id. */
  lemma FindLoadedGroup(nodes: seq<GroupNode>, m: map<string, nat>, count: nat, id: uint16)
    requires forall key :: key in m ==> m[key] < count
    ensures var r := FindGroup(GroupsOf(nodes, m, count), id);
      (r.None? <==> forall j :: 0 <= j < |nodes| ==> nodes[j].id != id) &&
      (r.Some? ==> nodes[r.value].id == id && GroupsOf(nodes, m, count)[r.value] == GroupOf(nodes[r.value], m, count) &&
                   forall j :: 0 <= j < r.value ==> nodes[j].id != id)
  {
    var gs := GroupsOf(nodes, m, count);
    assert forall j :: 0 <= j < |nodes| ==> gs[j].id == nodes[j].id;
  }

  /** The table of groups (groups.cpp), with the parse map it reads flag names through. */
  class Groups {
    const flagNames: seq<string>
    const parseFlagMap: map<string, nat>
    var groups: seq<Group>

    /** The parse map is the one the names make, so every value it holds is a flag number. */
    ghost predicate Valid() {
      parseFlagMap == FlagMap(flagNames) &&
      forall key :: key in parseFlagMap ==> parseFlagMap[key] < |flagNames|
    }

    constructor (names: seq<string>)
      ensures flagNames == names && Valid() && groups == []
    {
      flagNames := names;
      var m := InitFlagMap(names);
      parseFlagMap := m;
      FlagMapInRange(names);
      groups := [];
    }

    /** getGroup (groups.cpp:113-121): the first group with the id, None for null. */
    function GetGroup(id: uint16): (r: Option<Group>)
      reads this
      ensures r.None? <==> forall j :: 0 <= j < |groups| ==> groups[j].id != id
      ensures r.Some? ==> exists i :: 0 <= i < |groups| && groups[i] == r.value && r.value.id == id &&
                                      forall j :: 0 <= j < i ==> groups[j].id != id
    {
      var i := FindGroup(groups, id);
      if i.Some? then Some(groups[i.value]) else None
    }

    /** The group one element loads (groups.cpp:87-105). */
    method LoadGroup(node: GroupNode) returns (g: Group)
      requires Valid()
      ensures g == GroupOf(node, parseFlagMap, |flagNames|)
    {
      var flags := DecodeFlags(ToU8(FlagsAttr(node.flags)), |flagNames|);
      flags := ParseGroupFlags(flags, node.flagNodes, parseFlagMap);
      g := Group(node.id, node.name, AsBool(node.access), node.maxDepotItems, node.maxVipEntries,
                 if node.outfit.Some? then node.outfit.value else 0, flags);
    }

    /** load (groups.cpp:77-111): a document that fails to parse loads nothing; otherwise one
        group per element is appended, in document order. */
    method Load(document: Option<seq<GroupNode>>) returns (ok: bool)
      requires Valid()
      modifies this`groups
      ensures ok <==> document.Some?
      ensures !ok ==> groups == old(groups)
      ensures ok ==> groups == old(groups) + GroupsOf(document.value, parseFlagMap, |flagNames|)
    {
      if document.None? {
        return false;
      }
      var nodes := document.value;
      for i := 0 to |nodes|
        invariant groups == old(groups) + GroupsOf(nodes[..i], parseFlagMap, |flagNames|)
      {
        var g := LoadGroup(nodes[i]);
        assert GroupsOf(nodes[..i + 1], parseFlagMap, |flagNames|) == GroupsOf(nodes[..i], parseFlagMap, |flagNames|) + [g];
        groups := groups + [g];
      }
      assert nodes[..|nodes|] == nodes;
      ok := true;
    }

    /** reload (groups.cpp:53-57): the table is emptied, then loaded again. */
    method Reload(document: Option<seq<GroupNode>>) returns (ok: bool)
      requires Valid()
      modifies this`groups
      ensures ok <==> document.Some?
      ensures !ok ==> groups == []
      ensures ok ==> groups == GroupsOf(document.value, parseFlagMap, |flagNames|)
    {
      groups := [];
      ok := Load(document);
    }
  }

}
