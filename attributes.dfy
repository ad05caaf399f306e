// The attribute kinds and the tagged slot of items/functions/item/attribute.hpp.
//
// `Attributes` is stored by value in a std::vector, so it is a datatype here and its two
// `setValue` overloads are functions returning the updated slot.
module AttributeSlots {
  import opened Ints
  import opened Wrappers

  /** ItemAttribute_t: the kinds the helper classifies, and every other kind by its code. */
  datatype AttrType =
    | Store | ActionId | UniqueId | Date | Weight | Attack | Defense | ExtraDefense | Armor
    | HitChance | ShootRange | Owner | Duration | DecayState | CorpseOwner | Charges | FluidType
    | DoorId | ImbuementSlot | OpenContainer | QuickLootContainer | ObtainContainer
    | DurationTimestamp | Tier | Amount
    | Description | Text | Writer | Name | Article | PluralName | Special | LootMessageSuffix
    | StoreInboxCategory
    | Other(code: nat)

  /** isAttributeInteger (attribute.hpp:25-56). */
  predicate IsAttributeInteger(t: AttrType) {
    t in {Store, ActionId, UniqueId, Date, Weight, Attack, Defense, ExtraDefense, Armor,
          HitChance, ShootRange, Owner, Duration, DecayState, CorpseOwner, Charges, FluidType,
          DoorId, ImbuementSlot, OpenContainer, QuickLootContainer, ObtainContainer,
          DurationTimestamp, Tier, Amount}
  }

  /** isAttributeString (attribute.hpp:58-73). */
  predicate IsAttributeString(t: AttrType) {
    t in {Description, Text, Writer, Name, Article, PluralName, Special, LootMessageSuffix,
          StoreInboxCategory}
  }

  /** No kind is both an integer and a string kind; kinds outside both lists are neither. */
  lemma {:induction false} KindsAreDisjoint(t: AttrType)
    ensures !(IsAttributeInteger(t) && IsAttributeString(t))
    ensures t.Other? ==> !IsAttributeInteger(t) && !IsAttributeString(t)
  {
    if IsAttributeInteger(t) {
      assert !t.Other? && !IsAttributeString(t) by {
        assert t in {Store, ActionId, UniqueId, Date, Weight, Attack, Defense, ExtraDefense, Armor,
          HitChance, ShootRange, Owner, Duration, DecayState, CorpseOwner, Charges, FluidType,
          DoorId, ImbuementSlot, OpenContainer, QuickLootContainer, ObtainContainer,
          DurationTimestamp, Tier, Amount};
      }
    }
  }

  /** The variant<int64_t, shared_ptr<string>>; the pointer it holds is never null. */
  datatype Value = Integer(i: int64) | Str(s: string)

  datatype Attributes = Attributes(attrType: AttrType, value: Value)

  /** getDefaultValueForType (attribute.hpp:97-105): a string kind starts as an empty string,
      every other kind as the integer 0 (the variant's default alternative). */
  function DefaultValue(t: AttrType): (v: Value)
    ensures IsAttributeString(t) <==> v.Str?
    ensures v.Integer? ==> v.i == 0
    ensures v.Str? ==> v.s == []
  {
    KindsAreDisjoint(t);
    if IsAttributeInteger(t) then Integer(0)
    else if IsAttributeString(t) then Str([])
    else Integer(0)
  }

  /** The constructor Attributes(type) (attribute.hpp:78-79). */
  function NewAttributes(t: AttrType): (a: Attributes)
    ensures a.attrType == t && a.value == DefaultValue(t)
  {
    Attributes(t, DefaultValue(t))
  }

  /** Whether a slot holds the alternative its kind starts with. */
  predicate WellTyped(a: Attributes) {
    a.value.Str? <==> IsAttributeString(a.attrType)
  }

  /** setValue(int64_t) (attribute.hpp:107-111): only an integer slot changes. */
  function SetInteger(a: Attributes, v: int64): (r: Attributes)
    ensures r.attrType == a.attrType && r.value.Integer? == a.value.Integer?
    ensures a.value.Integer? ==> r.value == Integer(v)
    ensures !a.value.Integer? ==> r == a
  {
    if a.value.Integer? then a.(value := Integer(v)) else a
  }

  /** setValue(const std::string &) (attribute.hpp:112-116): only a string slot changes. */
  function SetString(a: Attributes, v: string): (r: Attributes)
    ensures r.attrType == a.attrType && r.value.Str? == a.value.Str?
    ensures a.value.Str? ==> r.value == Str(v)
    ensures !a.value.Str? ==> r == a
  {
    if a.value.Str? then a.(value := Str(v)) else a
  }

  /** getInteger (attribute.hpp:117-123): 0 for a string slot. */
  function GetInteger(a: Attributes): (r: int64)
    ensures a.value.Integer? ==> r == a.value.i
    ensures a.value.Str? ==> r == 0
  {
    if a.value.Integer? then a.value.i else 0
  }

  /** getString (attribute.hpp:125-131): the null pointer (None) for an integer slot. */
  function GetString(a: Attributes): (r: Option<string>)
    ensures a.value.Str? ==> r == Some(a.value.s)
    ensures a.value.Integer? ==> r == None
  {
    if a.value.Str? then Some(a.value.s) else None
  }

  /** A fresh slot is well typed and both setters keep it so; what a setter stores the matching
      getter returns, and a setter of the other alternative is ignored. */
  lemma SlotDiscipline(t: AttrType, n: int64, s: string)
    ensures WellTyped(NewAttributes(t))
    ensures var a := NewAttributes(t);
      (IsAttributeString(t) ==> GetString(SetString(a, s)) == Some(s) && SetInteger(a, n) == a &&
                                GetInteger(a) == 0) &&
      (!IsAttributeString(t) ==> GetInteger(SetInteger(a, n)) == n && SetString(a, s) == a &&
                                 GetString(a) == None)
    ensures forall a: Attributes :: WellTyped(a) ==> WellTyped(SetInteger(a, n)) && WellTyped(SetString(a, s))
  {
  }
}
