// An item's attribute store (items/functions/item/attribute.cpp and the ItemAttribute class of
// attribute.hpp): a vector of typed slots, at most one per kind, and a map of custom
// attributes keyed by the lower-cased name.
module ItemAttributes {
  import opened Ints
  import opened Wrappers
  import opened Text
  import opened Seqs
  import opened AttributeSlots

  /** The value of a custom attribute (custom_attribute.hpp is not part of this model). */
  datatype CustomValue = CustomInteger(i: int64) | CustomString(s: string) | CustomDouble(d: real) | CustomBoolean(b: bool)

  /** A custom attribute keeps the key it was created with and its value. */
  datatype CustomAttribute = CustomAttribute(key: string, value: CustomValue)

  // ---------------------------------------------------------------- the slot vector

  /** What the vector keeps true: one slot per kind, each holding its kind's alternative. */
  ghost predicate ValidVector(v: seq<Attributes>) {
    (forall i, j :: 0 <= i < j < |v| ==> v[i].attrType != v[j].attrType) &&
    (forall i :: 0 <= i < |v| ==> WellTyped(v[i]))
  }

  /** hasAttribute (attribute.hpp:166-170). */
  predicate Has(v: seq<Attributes>, t: AttrType) {
    exists i :: 0 <= i < |v| && v[i].attrType == t
  }

  /** The first slot of kind `t`, the one getAttribute and getAttributesByType find. */
  function FindType(v: seq<Attributes>, t: AttrType): (r: Option<nat>)
    ensures r.Some? ==> r.value < |v| && v[r.value].attrType == t
    ensures r.Some? ==> forall j :: 0 <= j < r.value ==> v[j].attrType != t
    ensures r.None? <==> !Has(v, t)
  {
    if v == [] then None
    else if v[0].attrType == t then Some(0)
    else match FindType(v[1..], t)
      case None =>
        assert forall i :: 1 <= i < |v| ==> v[i] == v[1..][i - 1];
        None
      case Some(k) => Some(k + 1)
  }

  /** getAttribute (attribute.cpp:55-64): the slot of kind `t`, or null. */
  function Lookup(v: seq<Attributes>, t: AttrType): (r: Option<Attributes>)
    ensures r.Some? <==> Has(v, t)
    ensures r.Some? ==> r.value in v && r.value.attrType == t
  {
    match FindType(v, t)
    case None => None
    case Some(i) => Some(v[i])
  }

  /** getAttributeString (attribute.cpp:27-39): "" for a non-string kind or an absent slot.
      (The slot's pointer is never null under ValidVector; see StringSlotsHoldStrings.) */
  function AttributeString(v: seq<Attributes>, t: AttrType): string
  {
    if !IsAttributeString(t) then []
    else match Lookup(v, t)
      case None => []
      case Some(a) => match GetString(a) case None => [] case Some(s) => s
  }

  /** getAttributeValue (attribute.cpp:41-53): 0 for a non-integer kind or an absent slot. */
  function AttributeValue(v: seq<Attributes>, t: AttrType): int64
  {
    if !IsAttributeInteger(t) then 0
    else match Lookup(v, t)
      case None => 0
      case Some(a) => GetInteger(a)
  }

  /** getAttributesByType (attribute.cpp:66-75): the index of the slot of kind `t`, appending a
      default slot when there is none. */
  function ByTypeSpec(v: seq<Attributes>, t: AttrType): (r: (nat, seq<Attributes>))
    ensures r.0 < |r.1| && r.1[r.0].attrType == t
    ensures Has(v, t) ==> r.1 == v && r.0 == FindType(v, t).value
    ensures !Has(v, t) ==> r.1 == v + [NewAttributes(t)] && r.0 == |v|
  {
    match FindType(v, t)
    case Some(i) => (i, v)
    case None => (|v|, v + [NewAttributes(t)])
  }

  /** setAttribute(type, int64_t) (attribute.cpp:77-83). */
  function SetIntSpec(v: seq<Attributes>, t: AttrType, n: int64): seq<Attributes>
  {
    if !IsAttributeInteger(t) then v
    else
      var (i, w) := ByTypeSpec(v, t);
      w[i := SetInteger(w[i], n)]
  }

  /** setAttribute(type, const std::string &) (attribute.cpp:85-95). */
  function SetStringSpec(v: seq<Attributes>, t: AttrType, s: string): seq<Attributes>
  {
    if !IsAttributeString(t) || s == [] then v
    else
      var (i, w) := ByTypeSpec(v, t);
      w[i := SetString(w[i], s)]
  }

  /** removeAttribute (attribute.cpp:97-106): swap-and-pop of the first slot of kind `t`. */
  function RemoveSpec(v: seq<Attributes>, t: AttrType): (r: (bool, seq<Attributes>))
    ensures r.0 <==> Has(v, t)
    ensures !r.0 ==> r.1 == v
  {
    match FindType(v, t)
    case None => (false, v)
    case Some(i) => (true, SwapRemove(v, i))
  }

  // ---------------------------------------------------------------- properties

  /** Under the invariant, the slot of a string kind holds a string, so getAttributeString
      never dereferences the null pointer getString returns for an integer slot. */
  lemma StringSlotsHoldStrings(v: seq<Attributes>, t: AttrType)
    requires ValidVector(v) && IsAttributeString(t) && Has(v, t)
    ensures GetString(Lookup(v, t).value).Some?
  {
  }

  /** Under the invariant the slot of a kind is the only one, at whatever index. */
  lemma LookupUnique(v: seq<Attributes>, t: AttrType, i: nat)
    requires ValidVector(v) && i < |v| && v[i].attrType == t
    ensures Lookup(v, t) == Some(v[i])
  {
  }

  /** get-or-create keeps one slot per kind and well-typed slots. */
  lemma ByTypeKeepsValid(v: seq<Attributes>, t: AttrType)
    requires ValidVector(v)
    ensures ValidVector(ByTypeSpec(v, t).1)
  {
    SlotDiscipline(t, 0, []);
  }

  /** setAttribute(int): ignored for a non-integer kind; otherwise getAttributeValue returns the
      value afterwards, and every other kind keeps its slot. */
  lemma {:induction false} SetIntThenGet(v: seq<Attributes>, t: AttrType, n: int64)
    requires ValidVector(v)
    ensures !IsAttributeInteger(t) ==> SetIntSpec(v, t, n) == v
    ensures var w := SetIntSpec(v, t, n);
      ValidVector(w) &&
      (IsAttributeInteger(t) ==> AttributeValue(w, t) == n && Has(w, t)) &&
      (forall u :: u != t ==> Lookup(w, u) == Lookup(v, u))
  {
    if IsAttributeInteger(t) {
      KindsAreDisjoint(t);
      ByTypeKeepsValid(v, t);
      var (i, w0) := ByTypeSpec(v, t);
      var w := w0[i := SetInteger(w0[i], n)];
      SlotDiscipline(t, n, []);
      assert WellTyped(w[i]);
      assert ValidVector(w);
      LookupUnique(w, t, i);
      forall u | u != t ensures Lookup(w, u) == Lookup(v, u) {
        LookupOtherKind(v, w, i, t, u);
      }
    }
  }

  /** setAttribute(string): ignored for a non-string kind or an empty value; otherwise
      getAttributeString returns the value afterwards, and every other kind keeps its slot. */
  lemma {:induction false} SetStringThenGet(v: seq<Attributes>, t: AttrType, s: string)
    requires ValidVector(v)
    ensures !IsAttributeString(t) || s == [] ==> SetStringSpec(v, t, s) == v
    ensures var w := SetStringSpec(v, t, s);
      ValidVector(w) &&
      (IsAttributeString(t) && s != [] ==> AttributeString(w, t) == s && Has(w, t)) &&
      (forall u :: u != t ==> Lookup(w, u) == Lookup(v, u))
  {
    if IsAttributeString(t) && s != [] {
      ByTypeKeepsValid(v, t);
      var (i, w0) := ByTypeSpec(v, t);
      var w := w0[i := SetString(w0[i], s)];
      SlotDiscipline(t, 0, s);
      assert WellTyped(w[i]);
      assert ValidVector(w);
      LookupUnique(w, t, i);
      forall u | u != t ensures Lookup(w, u) == Lookup(v, u) {
        LookupOtherKind(v, w, i, t, u);
      }
    }
  }

  /** Changing the slot of kind `t` at `i` (possibly a slot just appended) leaves the slot of
      any other kind alone. */
  lemma LookupOtherKind(v: seq<Attributes>, w: seq<Attributes>, i: nat, t: AttrType, u: AttrType)
    requires u != t && i < |w| && w[i].attrType == t && (i < |v| ==> v[i].attrType == t)
    requires |w| == |v| || (|w| == |v| + 1 && i == |v|)
    requires forall j :: 0 <= j < |v| && j != i ==> w[j] == v[j]
    ensures Lookup(w, u) == Lookup(v, u)
  {
    match FindType(v, u)
    case None =>
      forall j | 0 <= j < |w| ensures w[j].attrType != u {
        if j != i {
          assert w[j] == v[j];
        }
      }
      FindTypeNone(w, u);
    case Some(k) =>
      assert k != i && w[k] == v[k];
      forall j | 0 <= j < k ensures w[j].attrType != u {
        if j != i {
          assert w[j] == v[j];
        }
      }
      FindTypeAt(w, u, k);
  }

  /** Without a slot of kind `t` there is nothing to find. */
  lemma FindTypeNone(v: seq<Attributes>, t: AttrType)
    requires forall j :: 0 <= j < |v| ==> v[j].attrType != t
    ensures FindType(v, t) == None && Lookup(v, t) == None
  {
  }

  /** The first slot of a kind is the one FindType returns. */
  lemma FindTypeAt(v: seq<Attributes>, t: AttrType, k: nat)
    requires k < |v| && v[k].attrType == t
    requires forall j :: 0 <= j < k ==> v[j].attrType != t
    ensures FindType(v, t) == Some(k)
  {
  }

  /** getAttributeValue and getAttributeString fall back to 0 and "" on a kind mismatch or an
      absent slot. */
  lemma MismatchDefaults(v: seq<Attributes>, t: AttrType)
    ensures !IsAttributeInteger(t) || !Has(v, t) ==> AttributeValue(v, t) == 0
    ensures !IsAttributeString(t) || !Has(v, t) ==> AttributeString(v, t) == []
  {
  }

  /** removeAttribute reports whether the kind was present; afterwards it is absent, every other
      kind keeps its slot (the last one moves into the gap), and the invariant holds. */
  lemma {:induction false} RemoveOutcome(v: seq<Attributes>, t: AttrType)
    requires ValidVector(v)
    ensures var (removed, w) := RemoveSpec(v, t);
      (removed <==> Has(v, t)) && !Has(w, t) && ValidVector(w) &&
      (forall u :: u != t ==> Lookup(w, u) == Lookup(v, u))
  {
    var (removed, w) := RemoveSpec(v, t);
    if removed {
      var i := FindType(v, t).value;
      assert w == SwapRemove(v, i);
      assert forall j :: 0 <= j < |w| ==> w[j] == v[j] || (j == i && w[j] == v[|v| - 1]);
      assert forall j :: 0 <= j < |w| ==> w[j].attrType != t;
      assert ValidVector(w) by {
        forall p, q | 0 <= p < q < |w| ensures w[p].attrType != w[q].attrType {
          if p == i {
            assert w[p] == v[|v| - 1] && w[q] == v[q];
          } else if q == i {
            assert w[q] == v[|v| - 1] && w[p] == v[p];
          } else {
            assert w[p] == v[p] && w[q] == v[q];
          }
        }
      }
      forall u | u != t ensures Lookup(w, u) == Lookup(v, u) {
        if Has(v, u) {
          var k := FindType(v, u).value;
          var k' := if k == |v| - 1 then i else k;
          assert w[k'] == v[k];
          LookupUnique(w, u, k');
          LookupUnique(v, u, k);
        }
      }
    }
  }

  // ---------------------------------------------------------------- custom attributes

  /** The custom-attribute setters and addCustomAttribute (attribute.cpp:129-151): store under the
      lower-cased key. */
  function SetCustomSpec(m: map<string, CustomAttribute>, key: string, attribute: CustomAttribute): (r: map<string, CustomAttribute>)
    ensures r == m[ToLower(key) := attribute]
  {
    m[ToLower(key) := attribute]
  }

  /** getCustomAttribute (attribute.cpp:122-127): lookup by the lower-cased name. */
  function GetCustomSpec(m: map<string, CustomAttribute>, name: string): (r: Option<CustomAttribute>)
    ensures r.Some? <==> ToLower(name) in m
    ensures r.Some? ==> r.value == m[ToLower(name)]
  {
    if ToLower(name) in m then Some(m[ToLower(name)]) else None
  }

  /** removeCustomAttribute (attribute.cpp:153-161). */
  function RemoveCustomSpec(m: map<string, CustomAttribute>, name: string): (r: (bool, map<string, CustomAttribute>))
    ensures r.0 <==> ToLower(name) in m
    ensures r.1 == m - {ToLower(name)}
  {
    (ToLower(name) in m, m - {ToLower(name)})
  }

  /** Setting a custom attribute makes it visible under every spelling of its name, and two
      keys that differ only in case overwrite each other. */
  lemma CustomKeysFoldCase(m: map<string, CustomAttribute>, k1: string, k2: string, a: CustomAttribute, b: CustomAttribute)
    ensures EqualsIgnoreCase(k1, k2) ==> GetCustomSpec(SetCustomSpec(m, k1, a), k2) == Some(a)
    ensures EqualsIgnoreCase(k1, k2) ==> SetCustomSpec(SetCustomSpec(m, k1, a), k2, b) == SetCustomSpec(m, k2, b)
    ensures !EqualsIgnoreCase(k1, k2) ==> GetCustomSpec(SetCustomSpec(m, k1, a), k2) == GetCustomSpec(m, k2)
  {
  }

  /** Removing reports presence under the folded name; afterwards no spelling finds it, and an
      absent name leaves the map unchanged. */
  lemma RemoveCustomOutcome(m: map<string, CustomAttribute>, name: string, other: string)
    ensures var (removed, r) := RemoveCustomSpec(m, name);
      GetCustomSpec(r, name).None? &&
      (!removed ==> r == m) &&
      (!EqualsIgnoreCase(name, other) ==> GetCustomSpec(r, other) == GetCustomSpec(m, other))
  {
  }

  // ---------------------------------------------------------------- the store object

  class ItemAttribute {
    var attributeVector: seq<Attributes>
    var customAttributeMap: map<string, CustomAttribute>

    ghost predicate Valid()
      reads this
    {
      ValidVector(attributeVector)
    }

    constructor ()
      ensures Valid()
      ensures attributeVector == [] && customAttributeMap == map[]
    {
      attributeVector := [];
      customAttributeMap := map[];
    }

    predicate HasAttribute(t: AttrType)
      reads this
    {
      Has(attributeVector, t)
    }

    method GetAttribute(t: AttrType) returns (r: Option<Attributes>)
      ensures r == Lookup(attributeVector, t)
    {
      var i := 0;
      while i < |attributeVector|
        invariant 0 <= i <= |attributeVector|
        invariant forall j :: 0 <= j < i ==> attributeVector[j].attrType != t
      {
        if attributeVector[i].attrType == t {
          FindTypeAt(attributeVector, t, i);
          return Some(attributeVector[i]);
        }
        i := i + 1;
      }
      FindTypeNone(attributeVector, t);
      return None;
    }

    method GetAttributeString(t: AttrType) returns (s: string)
      ensures s == AttributeString(attributeVector, t)
    {
      if !IsAttributeString(t) {
        return [];
      }
      var attribute := GetAttribute(t);
      if attribute.None? {
        return [];
      }
      var p := GetString(attribute.value);
      s := if p.Some? then p.value else [];
    }

    method GetAttributeValue(t: AttrType) returns (n: int64)
      ensures n == AttributeValue(attributeVector, t)
    {
      if !IsAttributeInteger(t) {
        return 0;
      }
      var attribute := GetAttribute(t);
      if attribute.None? {
        return 0;
      }
      n := GetInteger(attribute.value);
    }

    method GetAttributesByType(t: AttrType) returns (index: nat)
      requires Valid()
      modifies this
      ensures Valid()
      ensures (index, attributeVector) == ByTypeSpec(old(attributeVector), t)
      ensures customAttributeMap == old(customAttributeMap)
    {
      ByTypeKeepsValid(attributeVector, t);
      var i := 0;
      while i < |attributeVector|
        invariant 0 <= i <= |attributeVector|
        invariant forall j :: 0 <= j < i ==> attributeVector[j].attrType != t
      {
        if attributeVector[i].attrType == t {
          FindTypeAt(attributeVector, t, i);
          return i;
        }
        i := i + 1;
      }
      FindTypeNone(attributeVector, t);
      attributeVector := attributeVector + [NewAttributes(t)];
      return |attributeVector| - 1;
    }

    method SetAttributeInteger(t: AttrType, n: int64)
      requires Valid()
      modifies this
      ensures Valid()
      ensures attributeVector == SetIntSpec(old(attributeVector), t, n)
      ensures customAttributeMap == old(customAttributeMap)
    {
      if !IsAttributeInteger(t) {
        return;
      }
      SetIntThenGet(attributeVector, t, n);
      var i := GetAttributesByType(t);
      attributeVector := attributeVector[i := SetInteger(attributeVector[i], n)];
    }

    method SetAttributeString(t: AttrType, s: string)
      requires Valid()
      modifies this
      ensures Valid()
      ensures attributeVector == SetStringSpec(old(attributeVector), t, s)
      ensures customAttributeMap == old(customAttributeMap)
    {
      if !IsAttributeString(t) {
        return;
      }
      if s == [] {
        return;
      }
      SetStringThenGet(attributeVector, t, s);
      var i := GetAttributesByType(t);
      attributeVector := attributeVector[i := SetString(attributeVector[i], s)];
    }

    method RemoveAttribute(t: AttrType) returns (removed: bool)
      requires Valid()
      modifies this
      ensures Valid()
      ensures (removed, attributeVector) == RemoveSpec(old(attributeVector), t)
      ensures customAttributeMap == old(customAttributeMap)
    {
      RemoveOutcome(attributeVector, t);
      var i := 0;
      while i < |attributeVector|
        invariant 0 <= i <= |attributeVector|
        invariant forall j :: 0 <= j < i ==> attributeVector[j].attrType != t
      {
        if attributeVector[i].attrType == t {
          FindTypeAt(attributeVector, t, i);
          attributeVector := SwapRemove(attributeVector, i);
          return true;
        }
        i := i + 1;
      }
      FindTypeNone(attributeVector, t);
      return false;
    }

    method GetCustomAttribute(name: string) returns (r: Option<CustomAttribute>)
      ensures r == GetCustomSpec(customAttributeMap, name)
    {
      var key := ToLower(name);
      if key in customAttributeMap {
        return Some(customAttributeMap[key]);
      }
      return None;
    }

    /** The four setCustomAttribute overloads: the attribute keeps the key as given. */
    method SetCustomAttribute(key: string, value: CustomValue)
      modifies this
      ensures customAttributeMap == SetCustomSpec(old(customAttributeMap), key, CustomAttribute(key, value))
      ensures attributeVector == old(attributeVector)
    {
      customAttributeMap := customAttributeMap[ToLower(key) := CustomAttribute(key, value)];
    }

    method AddCustomAttribute(key: string, attribute: CustomAttribute)
      modifies this
      ensures customAttributeMap == SetCustomSpec(old(customAttributeMap), key, attribute)
      ensures attributeVector == old(attributeVector)
    {
      customAttributeMap := customAttributeMap[ToLower(key) := attribute];
    }

    method RemoveCustomAttribute(name: string) returns (removed: bool)
      modifies this
      ensures (removed, customAttributeMap) == RemoveCustomSpec(old(customAttributeMap), name)
      ensures attributeVector == old(attributeVector)
    {
      var key := ToLower(name);
      if key !in customAttributeMap {
        assert customAttributeMap - {key} == customAttributeMap;
        return false;
      }
      customAttributeMap := customAttributeMap - {key};
      return true;
    }
  }
}
