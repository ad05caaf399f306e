// Vocations (creatures/players/vocations/vocation.cpp): the table of vocations read from the
// vocations document, the name and promotion lookups, the per-vocation damage-absorb
// percentages, and the memoised skill-try and mana requirements. Floating-point values are
// modelled as exact reals; the document arrives already parsed.
module Vocations {
  import opened Ints
  import opened Wrappers
  import opened Text
  import opened Sets

  /** The last skill id: Vocation::skillBase has SKILL_LAST + 1 entries (vocation.cpp:347). */
  const SKILL_LAST: nat := 6
  /** Vocation::skillBase (vocation.cpp:347). */
  const SKILL_BASE: seq<nat> := [50, 50, 50, 50, 30, 100, 20]
  /** minSkillLevel (vocation.cpp:348). */
  const MIN_SKILL_LEVEL: nat := 10
  /** VOCATION_NONE, from the vocation header. */
  const VOCATION_NONE: uint16 := 0

  // CombatType_t as indices into absorbPercent, from COMBAT_FIRST (0) to COMBAT_LAST (13);
  // indexToCombatType is the identity on these indices.
  const COMBAT_PHYSICALDAMAGE: nat := 0
  const COMBAT_ENERGYDAMAGE: nat := 1
  const COMBAT_EARTHDAMAGE: nat := 2
  const COMBAT_FIREDAMAGE: nat := 3
  const COMBAT_UNDEFINEDDAMAGE: nat := 4
  const COMBAT_LIFEDRAIN: nat := 5
  const COMBAT_MANADRAIN: nat := 6
  const COMBAT_HEALING: nat := 7
  const COMBAT_DROWNDAMAGE: nat := 8
  const COMBAT_ICEDAMAGE: nat := 9
  const COMBAT_HOLYDAMAGE: nat := 10
  const COMBAT_DEATHDAMAGE: nat := 11
  const COMBAT_AGONYDAMAGE: nat := 12
  const COMBAT_NEUTRALDAMAGE: nat := 13
  const COMBAT_COUNT: nat := 14

  /** The initial values of a Vocation, from the vocation header. */
  const DEFAULT_SKILL_MULTIPLIERS: seq<real> := [1.5, 2.0, 2.0, 2.0, 2.0, 1.5, 1.1]
  const DEFAULT_MANA_MULTIPLIER: real := 4.0

  // ---------------------------------------------------------------- absorb percentages

  /** An <absorb> child: percentall, percentelements, percentmagic and the per-type attributes
      percentenergy … percentneutral, keyed by their combat type. */
  datatype AbsorbNode = AbsorbNode(percentAll: Option<int32>, percentElements: Option<int32>,
                                   percentMagic: Option<int32>, percent: map<nat, int32>)

  /** The slots percentall reaches: every combat type but the undefined one. */
  predicate IsDamageSlot(c: nat) {
    c < COMBAT_COUNT && c != COMBAT_UNDEFINEDDAMAGE
  }

  /** The slots percentelements reaches (vocation.cpp:223-230). */
  predicate IsElement(c: nat) {
    c == COMBAT_ENERGYDAMAGE || c == COMBAT_FIREDAMAGE || c == COMBAT_EARTHDAMAGE || c == COMBAT_ICEDAMAGE
  }

  /** The slots percentmagic reaches (vocation.cpp:232-241). */
  predicate IsMagic(c: nat) {
    IsElement(c) || c == COMBAT_HOLYDAMAGE || c == COMBAT_DEATHDAMAGE
  }

  /** What an attribute adds to a slot it reaches: its value narrowed to the int16 parameter. */
  function Part(v: Option<int32>, reaches: bool): int {
    if reaches && v.Some? then ToI16(v.value) else 0
  }

  /** The per-type attribute of slot c, if the child carries one. */
  function PerType(a: AbsorbNode, c: nat): Option<int32> {
    if IsDamageSlot(c) && c in a.percent then Some(a.percent[c]) else None
  }

  /** The three blocks of an <absorb> child that add one attribute to a fixed set of slots. */
  datatype Block = AllBlock | ElementsBlock | MagicBlock

  predicate Reaches(b: Block, c: nat) {
    match b
    case AllBlock => IsDamageSlot(c)
    case ElementsBlock => IsElement(c)
    case MagicBlock => IsMagic(c)
  }

  /** What one <absorb> child adds to slot c before the int16 wrap. */
  function AbsorbGain(a: AbsorbNode, c: nat): int {
    Part(a.percentAll, Reaches(AllBlock, c)) + Part(a.percentElements, Reaches(ElementsBlock, c)) +
      Part(a.percentMagic, Reaches(MagicBlock, c)) + Part(PerType(a, c), true)
  }

  /** The absorb percentages after one <absorb> child: each slot grows by its gain, in int16. */
  function AbsorbAfter(p: seq<int16>, a: AbsorbNode): (r: seq<int16>)
    requires |p| == COMBAT_COUNT
    ensures |r| == COMBAT_COUNT
  {
    seq(COMBAT_COUNT, c requires 0 <= c < COMBAT_COUNT => ToI16(p[c] as int + AbsorbGain(a, c)))
  }

  /** The combat types of the per-type attributes, in the order the loader reads them:
      percentenergy, percentfire, percentearth, percentice, percentholy, percentdeath,
      percentlifedrain, percentmanadrain, percentdrown, percentphysical, percenthealing,
      percentagony and percentneutral. */
  const PER_TYPE_ORDER: seq<nat> := [COMBAT_ENERGYDAMAGE, COMBAT_FIREDAMAGE, COMBAT_EARTHDAMAGE, COMBAT_ICEDAMAGE,
                                     COMBAT_HOLYDAMAGE, COMBAT_DEATHDAMAGE, COMBAT_LIFEDRAIN, COMBAT_MANADRAIN,
                                     COMBAT_DROWNDAMAGE, COMBAT_PHYSICALDAMAGE, COMBAT_HEALING, COMBAT_AGONYDAMAGE,
                                     COMBAT_NEUTRALDAMAGE]

  /** int16 addition wraps, so a sum of wrapped additions is the wrapped sum. */
  lemma WrapAdd(x: int, y: int)
    ensures ToI16(ToI16(x) + y) == ToI16(x + y)
  {
    var q := (ToI16(x) - x) / 0x1_0000;
    assert ToI16(x) == x + 0x1_0000 * q;
    assert ToI16(x) + y == (x + y) + 0x1_0000 * q;
    assert (ToI16(x) + y) % 0x1_0000 == (x + y) % 0x1_0000;
  }

  /** Four wrapped additions in a row make one. */
  lemma FourWraps(x: int, g1: int, g2: int, g3: int, g4: int, t1: int, t2: int, t3: int, t4: int)
    requires t1 == ToI16(x + g1) && t2 == ToI16(t1 + g2) && t3 == ToI16(t2 + g3) && t4 == ToI16(t3 + g4)
    ensures t4 == ToI16(x + (g1 + g2 + g3 + g4))
  {
    WrapAdd(x + g1, g2);
    WrapAdd(x + g1 + g2, g3);
    WrapAdd(x + g1 + g2 + g3, g4);
  }

  /** The four blocks of an <absorb> child, in the document's order, add up to its gain. */
  lemma BlocksCompose(p0: seq<int16>, p1: seq<int16>, p2: seq<int16>, p3: seq<int16>, p4: seq<int16>, a: AbsorbNode)
    requires |p0| == |p1| == |p2| == |p3| == |p4| == COMBAT_COUNT
    requires forall c {:trigger p1[c]} :: 0 <= c < COMBAT_COUNT ==> p1[c] == ToI16(p0[c] as int + Part(a.percentAll, Reaches(AllBlock, c)))
    requires forall c {:trigger p2[c]} :: 0 <= c < COMBAT_COUNT ==> p2[c] == ToI16(p1[c] as int + Part(a.percentElements, Reaches(ElementsBlock, c)))
    requires forall c {:trigger p3[c]} :: 0 <= c < COMBAT_COUNT ==> p3[c] == ToI16(p2[c] as int + Part(a.percentMagic, Reaches(MagicBlock, c)))
    requires forall c {:trigger p4[c]} :: 0 <= c < COMBAT_COUNT ==> p4[c] == ToI16(p3[c] as int + Part(PerType(a, c), true))
    ensures p4 == AbsorbAfter(p0, a)
  {
    forall c | 0 <= c < COMBAT_COUNT
      ensures p4[c] == ToI16(p0[c] as int + AbsorbGain(a, c))
    {
      BlocksAtSlot(p0, p1, p2, p3, p4, a, c);
    }
  }

  /** The same for one slot. */
  lemma BlocksAtSlot(p0: seq<int16>, p1: seq<int16>, p2: seq<int16>, p3: seq<int16>, p4: seq<int16>, a: AbsorbNode, c: nat)
    requires |p0| == |p1| == |p2| == |p3| == |p4| == COMBAT_COUNT
    requires forall c {:trigger p1[c]} :: 0 <= c < COMBAT_COUNT ==> p1[c] == ToI16(p0[c] as int + Part(a.percentAll, Reaches(AllBlock, c)))
    requires forall c {:trigger p2[c]} :: 0 <= c < COMBAT_COUNT ==> p2[c] == ToI16(p1[c] as int + Part(a.percentElements, Reaches(ElementsBlock, c)))
    requires forall c {:trigger p3[c]} :: 0 <= c < COMBAT_COUNT ==> p3[c] == ToI16(p2[c] as int + Part(a.percentMagic, Reaches(MagicBlock, c)))
    requires forall c {:trigger p4[c]} :: 0 <= c < COMBAT_COUNT ==> p4[c] == ToI16(p3[c] as int + Part(PerType(a, c), true))
    requires c < COMBAT_COUNT
    ensures p4[c] == ToI16(p0[c] as int + AbsorbGain(a, c))
  {
    FourWraps(p0[c], Part(a.percentAll, Reaches(AllBlock, c)), Part(a.percentElements, Reaches(ElementsBlock, c)),
              Part(a.percentMagic, Reaches(MagicBlock, c)), Part(PerType(a, c), true), p1[c], p2[c], p3[c], p4[c]);
  }

  /** Absorb children commute: their order in the document does not change the percentages. */
  lemma {:induction false} AbsorbOrderIrrelevant(p: seq<int16>, a: AbsorbNode, b: AbsorbNode)
    requires |p| == COMBAT_COUNT
    ensures AbsorbAfter(AbsorbAfter(p, a), b) == AbsorbAfter(AbsorbAfter(p, b), a)
  {
    var pa, pb := AbsorbAfter(p, a), AbsorbAfter(p, b);
    var pab, pba := AbsorbAfter(pa, b), AbsorbAfter(pb, a);
    forall c | 0 <= c < COMBAT_COUNT
      ensures pab[c] == pba[c]
    {
      WrapsCommute(p[c], AbsorbGain(a, c), AbsorbGain(b, c), pa[c], pab[c], pb[c], pba[c]);
    }
  }

  /** Two wrapped additions in either order give the same value. */
  lemma WrapsCommute(x: int, ga: int, gb: int, ta: int, tab: int, tb: int, tba: int)
    requires ta == ToI16(x + ga) && tab == ToI16(ta + gb) && tb == ToI16(x + gb) && tba == ToI16(tb + ga)
    ensures tab == tba
  {
    WrapAdd(x + ga, gb);
    WrapAdd(x + gb, ga);
    assert x + ga + gb == x + gb + ga;
  }

  /** No attribute reaches the undefined slot; percentelements alone reaches exactly the four
      elements, and percentmagic alone those and holy and death. */
  lemma AbsorbSlots(p: seq<int16>, v: int32, c: nat)
    requires |p| == COMBAT_COUNT && c < COMBAT_COUNT
    ensures forall a: AbsorbNode :: AbsorbAfter(p, a)[COMBAT_UNDEFINEDDAMAGE] == p[COMBAT_UNDEFINEDDAMAGE]
    ensures AbsorbAfter(p, AbsorbNode(None, Some(v), None, map[]))[c] ==
              if IsElement(c) then ToI16(p[c] as int + ToI16(v)) else p[c]
    ensures AbsorbAfter(p, AbsorbNode(None, None, Some(v), map[]))[c] ==
              if IsMagic(c) then ToI16(p[c] as int + ToI16(v)) else p[c]
    ensures AbsorbAfter(p, AbsorbNode(Some(v), None, None, map[]))[c] ==
              if c != COMBAT_UNDEFINEDDAMAGE then ToI16(p[c] as int + ToI16(v)) else p[c]
  {
  }

  // ---------------------------------------------------------------- skill tries and mana

  /** x to the power n. */
  function Pow(x: real, n: nat): real {
    if n == 0 then 1.0 else x * Pow(x, n - 1)
  }

  /** static_cast<uint64_t> of a double: truncation toward zero; the values C++ leaves
      undefined (negative beyond -1, or 2^64 and above) saturate here. */
  function CastU64(x: real): (r: uint64)
    ensures 1.0 <= x < 18446744073709551616.0 ==> r as real <= x < r as real + 1.0
  {
    if x < 1.0 then 0
    else if x >= 18446744073709551616.0 then 0xFFFF_FFFF_FFFF_FFFF
    else x.Floor
  }

  /** The tries needed for one skill level (vocation.cpp:376-389 without the cache). */
  function ReqSkillTries(multipliers: seq<real>, skill: nat, level: nat): uint64
    requires |multipliers| == SKILL_LAST + 1
  {
    if skill > SKILL_LAST || level <= MIN_SKILL_LEVEL then 0
    else CastU64(SKILL_BASE[skill] as real * Pow(multipliers[skill], level - (MIN_SKILL_LEVEL + 1)))
  }

  /** The tries of the levels from MIN_SKILL_LEVEL to `level`: getTotalSkillTries as intended. */
  function TotalSkillTries(multipliers: seq<real>, skill: nat, level: nat): nat
    requires |multipliers| == SKILL_LAST + 1
  {
    if skill > SKILL_LAST || level < MIN_SKILL_LEVEL then 0
    else TotalSkillTries(multipliers, skill, level - 1) + ReqSkillTries(multipliers, skill, level)
  }

  /** The mana needed for one magic level (vocation.cpp:406-418 without the cache); the
      exponent is the level as int32 minus one, negative above 2^31. */
  function ReqMana(multiplier: real, magLevel: nat): uint64 {
    if magLevel == 0 then 0
    else
      var e := ToI32(magLevel) - 1;
      if e >= 0 then CastU64(1600.0 * Pow(multiplier, e))
      else if Pow(multiplier, -e) == 0.0 then 0xFFFF_FFFF_FFFF_FFFF
      else CastU64(1600.0 / Pow(multiplier, -e))
  }

  /** The mana of the magic levels 1 to `magLevel`: getTotalMana as intended. */
  function TotalMana(multiplier: real, magLevel: nat): nat {
    if magLevel == 0 then 0 else TotalMana(multiplier, magLevel - 1) + ReqMana(multiplier, magLevel)
  }

  /** Levels up to MIN_SKILL_LEVEL need no tries, and the total grows with the level. */
  lemma {:induction false} TotalSkillTriesMonotone(multipliers: seq<real>, skill: nat, low: nat, high: nat)
    requires |multipliers| == SKILL_LAST + 1 && low <= high
    ensures TotalSkillTries(multipliers, skill, low) <= TotalSkillTries(multipliers, skill, high)
    ensures high <= MIN_SKILL_LEVEL ==> TotalSkillTries(multipliers, skill, high) == 0
    decreases high
  {
    if low < high {
      TotalSkillTriesMonotone(multipliers, skill, low, high - 1);
    } else if high <= MIN_SKILL_LEVEL && high >= MIN_SKILL_LEVEL {
      assert ReqSkillTries(multipliers, skill, high) == 0;
    } else if MIN_SKILL_LEVEL < high {
      TotalSkillTriesMonotone(multipliers, skill, high - 1, high - 1);
    }
  }

  /** The 128-bit accumulator of getTotalSkillTries cannot overflow for a 16-bit level. */
  lemma {:induction false} TotalSkillTriesFits(multipliers: seq<real>, skill: nat, level: nat)
    requires |multipliers| == SKILL_LAST + 1
    ensures TotalSkillTries(multipliers, skill, level) <= level * 0xFFFF_FFFF_FFFF_FFFF
    ensures level < 0x1_0000 ==> TotalSkillTries(multipliers, skill, level) < 0x1_0000_0000_0000_0000_0000_0000_0000_0000
    decreases level
  {
    if level > 0 && skill <= SKILL_LAST && level >= MIN_SKILL_LEVEL {
      TotalSkillTriesFits(multipliers, skill, level - 1);
    }
  }

  /** The 128-bit accumulator of getTotalMana cannot overflow for a 32-bit magic level. */
  lemma {:induction false} TotalManaFits(multiplier: real, magLevel: nat)
    ensures TotalMana(multiplier, magLevel) <= magLevel * 0xFFFF_FFFF_FFFF_FFFF
    ensures magLevel < 0x1_0000_0000 ==> TotalMana(multiplier, magLevel) < 0x1_0000_0000_0000_0000_0000_0000_0000_0000
    decreases magLevel
  {
    if magLevel > 0 {
      TotalManaFits(multiplier, magLevel - 1);
    }
  }

  /** The counter of a `for (uintN_t i = start; i <= bound; ++i)` loop after n increments:
      each ++i wraps to 0 at `modulus` (2^N). */
  function WrappedCounter(modulus: nat, start: nat, n: nat): (r: nat)
    requires start < modulus
    ensures r < modulus
  {
    if n == 0 then start
    else
      var prev := WrappedCounter(modulus, start, n - 1);
      if prev + 1 == modulus then 0 else prev + 1
  }

  /** Before it reaches the modulus the counter just counts. */
  lemma {:induction false} WrappedCounterCounts(modulus: nat, start: nat, n: nat)
    requires start + n < modulus
    ensures WrappedCounter(modulus, start, n) == start + n
    decreases n
  {
    if n > 0 {
      WrappedCounterCounts(modulus, start, n - 1);
    }
  }

  /** Counting on from where the counter stands: a + b increments are a, then b more. */
  lemma {:induction false} WrappedCounterSplits(modulus: nat, start: nat, a: nat, b: nat)
    requires start < modulus
    ensures WrappedCounter(modulus, start, a + b) == WrappedCounter(modulus, WrappedCounter(modulus, start, a), b)
    decreases b
  {
    if b > 0 {
      WrappedCounterSplits(modulus, start, a, b - 1);
    }
  }

  /** After `modulus` increments the counter is back at its start. */
  lemma WrappedCounterPeriod(modulus: nat, start: nat)
    requires start < modulus
    ensures WrappedCounter(modulus, start, modulus) == start
  {
    WrappedCounterCounts(modulus, start, modulus - start - 1);
    assert WrappedCounter(modulus, start, modulus - start) == 0;
    WrappedCounterCounts(modulus, 0, start);
    WrappedCounterSplits(modulus, start, modulus - start, start);
  }

  /** The loop of getTotalSkillTries as written (vocation.cpp:369): at level 65535 the 16-bit
      counter satisfies `i <= level` after every increment and is back at its start after 2^16
      of them, so the loop never ends. */
  lemma SkillLoopNeverEnds(level: uint16, n: nat)
    requires level == 65535
    ensures WrappedCounter(level + 1, MIN_SKILL_LEVEL, n) <= level
    ensures WrappedCounter(level + 1, MIN_SKILL_LEVEL, level + 1) == MIN_SKILL_LEVEL
  {
    WrappedCounterPeriod(level + 1, MIN_SKILL_LEVEL);
  }

  /** The loop of getTotalMana as written (vocation.cpp:400): at magic level 2^32 - 1 the 32-bit
      counter satisfies `i <= magLevel` after every increment and comes back to 1 after 2^32. */
  lemma ManaLoopNeverEnds(magLevel: uint32, n: nat)
    requires magLevel == 0xFFFF_FFFF
    ensures WrappedCounter(magLevel + 1, 1, n) <= magLevel
    ensures WrappedCounter(magLevel + 1, 1, magLevel + 1) == 1
  {
    WrappedCounterPeriod(magLevel + 1, 1);
  }

  // ---------------------------------------------------------------- the vocations document

  /** A child of a <vocation>: a <skill> with its id (if given) and multiplier (0 when missing),
      an <absorb>, or any other child. */
  datatype VocationChild = SkillChild(skillId: Option<uint16>, multiplier: real)
                         | AbsorbChild(absorb: AbsorbNode)
                         | OtherChild

  /** A <vocation> node with the attributes this model follows. */
  datatype VocationNode = VocationNode(id: Option<uint16>, name: Option<string>, gainCap: Option<uint32>,
                                       manaMultiplier: Option<real>, fromVocation: Option<uint32>,
                                       children: seq<VocationChild>)

  /** The modelled state of a Vocation besides its id and its caches. */
  datatype VocationInfo = VocationInfo(name: string, fromVocation: uint32, gainCap: uint32, manaMultiplier: real,
                                       skillMultipliers: seq<real>, absorbPercent: seq<int16>)

  predicate WellFormed(info: VocationInfo) {
    |info.skillMultipliers| == SKILL_LAST + 1 && |info.absorbPercent| == COMBAT_COUNT
  }

  /** A freshly made Vocation. */
  function DefaultInfo(): (r: VocationInfo)
    ensures WellFormed(r)
  {
    VocationInfo("", VOCATION_NONE, 0, DEFAULT_MANA_MULTIPLIER, DEFAULT_SKILL_MULTIPLIERS,
                 seq(COMBAT_COUNT, _ => 0))
  }

  /** The stored capacity gain: the attribute times 100, in uint32 (vocation.cpp:77-79). */
  function GainCap(x: uint32): uint32 {
    ToU32(x * 100)
  }

  lemma GainCapHundredfold(x: uint32)
    ensures x <= 42949672 ==> GainCap(x) == 100 * x
    ensures x > 42949672 ==> GainCap(x) == 100 * x - 0x1_0000_0000 * ((100 * x) / 0x1_0000_0000)
  {
  }

  /** One child applied to a vocation: a skill id above SKILL_LAST is ignored (vocation.cpp:138-148). */
  function ApplyChild(info: VocationInfo, child: VocationChild): (r: VocationInfo)
    requires WellFormed(info)
    ensures WellFormed(r)
  {
    match child
    case SkillChild(id, m) =>
      if id.Some? && id.value <= SKILL_LAST then info.(skillMultipliers := info.skillMultipliers[id.value := m])
      else info
    case AbsorbChild(a) => info.(absorbPercent := AbsorbAfter(info.absorbPercent, a))
    case OtherChild => info
  }

  function ApplyChildren(info: VocationInfo, children: seq<VocationChild>): (r: VocationInfo)
    requires WellFormed(info)
    ensures WellFormed(r)
    decreases |children|
  {
    if children == [] then info
    else ApplyChild(ApplyChildren(info, children[..|children| - 1]), children[|children| - 1])
  }

  /** A node applied to the vocation of its id: each attribute it carries replaces the value. */
  function ApplyNode(info: VocationInfo, node: VocationNode): (r: VocationInfo)
    requires WellFormed(info)
    ensures WellFormed(r)
  {
    var header := info.(name := if node.name.Some? then node.name.value else info.name,
                        gainCap := if node.gainCap.Some? then GainCap(node.gainCap.value) else info.gainCap,
                        manaMultiplier := if node.manaMultiplier.Some? then node.manaMultiplier.value else info.manaMultiplier,
                        fromVocation := if node.fromVocation.Some? then node.fromVocation.value else info.fromVocation);
    ApplyChildren(header, node.children)
  }

  /** The ids of the nodes that carry one; nodes without are skipped (vocation.cpp:47-50). */
  function LoadedIds(nodes: seq<VocationNode>): set<uint16> {
    set i | 0 <= i < |nodes| && nodes[i].id.Some? :: nodes[i].id.value
  }

  /** A node adds its id, if it has one, to the ids loaded before it. */
  lemma LoadedIdsSnoc(prefix: seq<VocationNode>, node: VocationNode)
    ensures LoadedIds(prefix + [node]) == LoadedIds(prefix) + (if node.id.Some? then {node.id.value} else {})
  {
    var nodes := prefix + [node];
    var added: set<uint16> := if node.id.Some? then {node.id.value} else {};
    forall x | x in LoadedIds(nodes)
      ensures x in LoadedIds(prefix) + added
    {
      var i :| 0 <= i < |nodes| && nodes[i].id.Some? && nodes[i].id.value == x;
      if i < |prefix| {
        assert nodes[i] == prefix[i];
      }
    }
    forall x | x in LoadedIds(prefix) + added
      ensures x in LoadedIds(nodes)
    {
      if x in LoadedIds(prefix) {
        var i :| 0 <= i < |prefix| && prefix[i].id.Some? && prefix[i].id.value == x;
        assert nodes[i] == prefix[i];
      } else {
        assert nodes[|prefix|] == node;
      }
    }
  }

  /** The vocation of `id` after loading `nodes`: every node with that id applied in order to one
      entry, since emplace keeps the entry an earlier node made (vocation.cpp:54-55). */
  function LoadInfo(nodes: seq<VocationNode>, id: uint16): (r: VocationInfo)
    ensures WellFormed(r)
    decreases |nodes|
  {
    if nodes == [] then DefaultInfo()
    else
      var before := LoadInfo(nodes[..|nodes| - 1], id);
      var node := nodes[|nodes| - 1];
      if node.id == Some(id) then ApplyNode(before, node) else before
  }

  /** One more node changes only the entry of its own id. */
  lemma LoadInfoSnoc(prefix: seq<VocationNode>, node: VocationNode, id: uint16)
    ensures LoadInfo(prefix + [node], id) ==
      if node.id == Some(id) then ApplyNode(LoadInfo(prefix, id), node) else LoadInfo(prefix, id)
  {
    var nodes := prefix + [node];
    assert nodes[..|nodes| - 1] == prefix;
  }

  /** Children change only multipliers and absorb percentages, and without a skill child of a
      valid id the multipliers stay as they were. */
  lemma {:induction false} ChildrenKeepHeader(info: VocationInfo, children: seq<VocationChild>)
    requires WellFormed(info)
    ensures var r := ApplyChildren(info, children);
      r.name == info.name && r.fromVocation == info.fromVocation && r.gainCap == info.gainCap &&
      r.manaMultiplier == info.manaMultiplier
    ensures (forall k :: 0 <= k < |children| ==> !(children[k].SkillChild? && children[k].skillId.Some? &&
                                                   children[k].skillId.value <= SKILL_LAST)) ==>
      ApplyChildren(info, children).skillMultipliers == info.skillMultipliers
    decreases |children|
  {
    if children != [] {
      var init := children[..|children| - 1];
      assert forall k :: 0 <= k < |init| ==> init[k] == children[k];
      ChildrenKeepHeader(info, init);
    }
  }

  /** A vocation's name is the one of the last node with its id that gives a name; the
      header values of other nodes of that id leave it alone. */
  lemma {:induction false} LastNameWins(nodes: seq<VocationNode>, id: uint16, i: nat)
    requires i < |nodes| && nodes[i].id == Some(id) && nodes[i].name.Some?
    requires forall j :: i < j < |nodes| && nodes[j].id == Some(id) ==> nodes[j].name.None?
    ensures LoadInfo(nodes, id).name == nodes[i].name.value
    decreases |nodes|
  {
    var init := nodes[..|nodes| - 1];
    var node := nodes[|nodes| - 1];
    var before := LoadInfo(init, id);
    if i < |nodes| - 1 {
      assert forall j :: 0 <= j < |init| ==> init[j] == nodes[j];
      LastNameWins(init, id, i);
    }
    if node.id == Some(id) {
      var header := before.(name := if node.name.Some? then node.name.value else before.name,
                            gainCap := if node.gainCap.Some? then GainCap(node.gainCap.value) else before.gainCap,
                            manaMultiplier := if node.manaMultiplier.Some? then node.manaMultiplier.value else before.manaMultiplier,
                            fromVocation := if node.fromVocation.Some? then node.fromVocation.value else before.fromVocation);
      ChildrenKeepHeader(header, node.children);
    }
  }

  /** An id no node carries keeps the fresh values. */
  lemma {:induction false} AbsentIdDefault(nodes: seq<VocationNode>, id: uint16)
    requires id !in LoadedIds(nodes)
    ensures LoadInfo(nodes, id) == DefaultInfo()
    decreases |nodes|
  {
    if nodes != [] {
      var init := nodes[..|nodes| - 1];
      assert forall j :: 0 <= j < |init| ==> init[j] == nodes[j];
      assert LoadedIds(init) <= LoadedIds(nodes);
      AbsentIdDefault(init, id);
      assert nodes[|nodes| - 1].id != Some(id);
    }
  }

  /** A vocation whose nodes never give a name keeps the empty name. */
  lemma {:induction false} UnnamedKeepsDefault(nodes: seq<VocationNode>, id: uint16)
    requires forall j :: 0 <= j < |nodes| && nodes[j].id == Some(id) ==> nodes[j].name.None?
    ensures LoadInfo(nodes, id).name == ""
    decreases |nodes|
  {
    if nodes != [] {
      var init := nodes[..|nodes| - 1];
      var node := nodes[|nodes| - 1];
      assert forall j :: 0 <= j < |init| ==> init[j] == nodes[j];
      UnnamedKeepsDefault(init, id);
      var before := LoadInfo(init, id);
      if node.id == Some(id) {
        var header := before.(gainCap := if node.gainCap.Some? then GainCap(node.gainCap.value) else before.gainCap,
                              manaMultiplier := if node.manaMultiplier.Some? then node.manaMultiplier.value else before.manaMultiplier,
                              fromVocation := if node.fromVocation.Some? then node.fromVocation.value else before.fromVocation);
        ChildrenKeepHeader(header, node.children);
      }
    }
  }

  // ---------------------------------------------------------------- Vocation

  class Vocation {
    const id: uint16
    var name: string
    var fromVocation: uint32
    var gainCap: uint32
    var manaMultiplier: real
    var skillMultipliers: seq<real>
    var absorbPercent: seq<int16>
    /** cacheSkill and cacheSkillTotal, keyed by (skill, level). */
    var cacheSkill: map<(nat, nat), uint64>
    var cacheSkillTotal: map<(nat, nat), nat>
    var cacheMana: map<nat, uint64>
    var cacheManaTotal: map<nat, nat>

    function Info(): VocationInfo
      reads this
    {
      VocationInfo(name, fromVocation, gainCap, manaMultiplier, skillMultipliers, absorbPercent)
    }

    predicate CachesEmpty()
      reads this
    {
      cacheSkill == map[] && cacheSkillTotal == map[] && cacheMana == map[] && cacheManaTotal == map[]
    }

    /** Every cached value is what the formula gives now, so a lookup never changes a result. */
    ghost predicate Valid()
      reads this
    {
      WellFormed(Info()) &&
      (forall k :: k in cacheSkill ==> cacheSkill[k] == ReqSkillTries(skillMultipliers, k.0, k.1)) &&
      (forall k :: k in cacheSkillTotal ==> cacheSkillTotal[k] == TotalSkillTries(skillMultipliers, k.0, k.1)) &&
      (forall l :: l in cacheMana ==> cacheMana[l] == ReqMana(manaMultiplier, l)) &&
      (forall l :: l in cacheManaTotal ==> cacheManaTotal[l] == TotalMana(manaMultiplier, l))
    }

    constructor (id: uint16)
      ensures this.id == id && Info() == DefaultInfo() && CachesEmpty() && Valid()
    {
      this.id := id;
      name := "";
      fromVocation := VOCATION_NONE;
      gainCap := 0;
      manaMultiplier := DEFAULT_MANA_MULTIPLIER;
      skillMultipliers := DEFAULT_SKILL_MULTIPLIERS;
      absorbPercent := seq(COMBAT_COUNT, _ => 0);
      cacheSkill := map[];
      cacheSkillTotal := map[];
      cacheMana := map[];
      cacheManaTotal := map[];
    }

    /** getAbsorbPercent (vocation.cpp:524-526). */
    function GetAbsorbPercent(combat: nat): (r: int16)
      reads this
      requires WellFormed(Info()) && combat < COMBAT_COUNT
      ensures r == Info().absorbPercent[combat]
    {
      absorbPercent[combat]
    }

    /** increaseAbsorbPercent (vocation.cpp:528-530): one slot grows by `v`, wrapping in int16. */
    method IncreaseAbsorbPercent(combat: nat, v: int16)
      requires combat < |absorbPercent|
      modifies this`absorbPercent
      ensures absorbPercent == old(absorbPercent)[combat := ToI16(old(absorbPercent)[combat] as int + v)]
    {
      absorbPercent := absorbPercent[combat := ToI16(absorbPercent[combat] as int + v)];
    }

    /** One increaseAbsorbPercent call made only when the attribute is present. */
    method IncreaseIfPresent(combat: nat, v: Option<int32>)
      requires combat < |absorbPercent|
      modifies this`absorbPercent
      ensures absorbPercent == old(absorbPercent)[combat := ToI16(old(absorbPercent)[combat] as int + Part(v, true))]
    {
      if v.Some? {
        IncreaseAbsorbPercent(combat, ToI16(v.value));
      }
    }

    /** The percentall block (vocation.cpp:212-221): every slot but the undefined one. */
    method AbsorbAll(v: Option<int32>)
      requires |absorbPercent| == COMBAT_COUNT
      modifies this`absorbPercent
      ensures |absorbPercent| == COMBAT_COUNT
      ensures forall c :: 0 <= c < COMBAT_COUNT ==> absorbPercent[c] == ToI16(old(absorbPercent)[c] as int + Part(v, Reaches(AllBlock, c)))
    {
      if v.Some? {
        for i := 0 to COMBAT_COUNT
          invariant |absorbPercent| == COMBAT_COUNT
          invariant forall c :: 0 <= c < i ==> absorbPercent[c] == ToI16(old(absorbPercent)[c] as int + Part(v, Reaches(AllBlock, c)))
          invariant forall c :: i <= c < COMBAT_COUNT ==> absorbPercent[c] == old(absorbPercent)[c]
        {
          if i != COMBAT_UNDEFINEDDAMAGE {
            IncreaseAbsorbPercent(i, ToI16(v.value));
          }
        }
      }
    }

    /** The percentelements block (vocation.cpp:223-230). */
    method AbsorbElements(v: Option<int32>)
      requires |absorbPercent| == COMBAT_COUNT
      modifies this`absorbPercent
      ensures |absorbPercent| == COMBAT_COUNT
      ensures forall c :: 0 <= c < COMBAT_COUNT ==> absorbPercent[c] == ToI16(old(absorbPercent)[c] as int + Part(v, Reaches(ElementsBlock, c)))
    {
      IncreaseIfPresent(COMBAT_ENERGYDAMAGE, v);
      IncreaseIfPresent(COMBAT_FIREDAMAGE, v);
      IncreaseIfPresent(COMBAT_EARTHDAMAGE, v);
      IncreaseIfPresent(COMBAT_ICEDAMAGE, v);
    }

    /** The percentmagic block (vocation.cpp:232-241). */
    method AbsorbMagic(v: Option<int32>)
      requires |absorbPercent| == COMBAT_COUNT
      modifies this`absorbPercent
      ensures |absorbPercent| == COMBAT_COUNT
      ensures forall c :: 0 <= c < COMBAT_COUNT ==> absorbPercent[c] == ToI16(old(absorbPercent)[c] as int + Part(v, Reaches(MagicBlock, c)))
    {
      IncreaseIfPresent(COMBAT_ENERGYDAMAGE, v);
      IncreaseIfPresent(COMBAT_FIREDAMAGE, v);
      IncreaseIfPresent(COMBAT_EARTHDAMAGE, v);
      IncreaseIfPresent(COMBAT_ICEDAMAGE, v);
      IncreaseIfPresent(COMBAT_HOLYDAMAGE, v);
      IncreaseIfPresent(COMBAT_DEATHDAMAGE, v);
    }

    /** The per-type attributes (vocation.cpp:243-307), one call each, walked here as the table
        PER_TYPE_ORDER of their combat types in the document's order. */
    method AbsorbPerType(a: AbsorbNode)
      requires |absorbPercent| == COMBAT_COUNT
      modifies this`absorbPercent
      ensures |absorbPercent| == COMBAT_COUNT
      ensures forall c :: 0 <= c < COMBAT_COUNT ==> absorbPercent[c] == ToI16(old(absorbPercent)[c] as int + Part(PerType(a, c), true))
    {
      for j := 0 to |PER_TYPE_ORDER|
        invariant |absorbPercent| == COMBAT_COUNT
        invariant forall k :: 0 <= k < j ==> absorbPercent[PER_TYPE_ORDER[k]] == ToI16(old(absorbPercent)[PER_TYPE_ORDER[k]] as int + Part(PerType(a, PER_TYPE_ORDER[k]), true))
        invariant forall k :: j <= k < |PER_TYPE_ORDER| ==> absorbPercent[PER_TYPE_ORDER[k]] == old(absorbPercent)[PER_TYPE_ORDER[k]]
        invariant absorbPercent[COMBAT_UNDEFINEDDAMAGE] == old(absorbPercent)[COMBAT_UNDEFINEDDAMAGE]
      {
        IncreaseIfPresent(PER_TYPE_ORDER[j], PerType(a, PER_TYPE_ORDER[j]));
      }
      forall c | 0 <= c < COMBAT_COUNT
        ensures absorbPercent[c] == ToI16(old(absorbPercent)[c] as int + Part(PerType(a, c), true))
      {
        if c != COMBAT_UNDEFINEDDAMAGE {
          // the position of c in PER_TYPE_ORDER
          var k := if c < 4 then [9, 0, 2, 1][c] else [6, 7, 10, 8, 3, 4, 5, 11, 12][c - 5];
          assert PER_TYPE_ORDER[k] == c;
        }
      }
    }

    /** An <absorb> child (vocation.cpp:210-308). */
    method LoadAbsorb(a: AbsorbNode)
      requires |absorbPercent| == COMBAT_COUNT
      modifies this`absorbPercent
      ensures absorbPercent == AbsorbAfter(old(absorbPercent), a)
    {
      ghost var p0 := absorbPercent;
      AbsorbAll(a.percentAll);
      ghost var p1 := absorbPercent;
      AbsorbElements(a.percentElements);
      ghost var p2 := absorbPercent;
      AbsorbMagic(a.percentMagic);
      ghost var p3 := absorbPercent;
      AbsorbPerType(a);
      BlocksCompose(p0, p1, p2, p3, absorbPercent, a);
    }

    /** The body of the loader's loop for a node whose entry is this vocation
        (vocation.cpp:57-309, the modelled attributes). */
    method LoadNode(node: VocationNode)
      requires WellFormed(Info())
      modifies this`name, this`gainCap, this`manaMultiplier, this`fromVocation, this`skillMultipliers, this`absorbPercent
      ensures Info() == ApplyNode(old(Info()), node)
    {
      if node.name.Some? {
        name := node.name.value;
      }
      if node.gainCap.Some? {
        gainCap := GainCap(node.gainCap.value);
      }
      if node.manaMultiplier.Some? {
        manaMultiplier := node.manaMultiplier.value;
      }
      if node.fromVocation.Some? {
        fromVocation := node.fromVocation.value;
      }
      LoadChildren(node.children);
    }

    /** The loop over a node's children (vocation.cpp:137-309). */
    method LoadChildren(children: seq<VocationChild>)
      requires WellFormed(Info())
      modifies this`skillMultipliers, this`absorbPercent
      ensures Info() == ApplyChildren(old(Info()), children)
    {
      for i := 0 to |children|
        invariant WellFormed(Info()) && Info() == ApplyChildren(old(Info()), children[..i])
      {
        assert children[..i + 1][..i] == children[..i];
        LoadChild(children[i]);
      }
      assert children[..|children|] == children;
    }

    /** One child: a <skill> with a valid id sets that multiplier (vocation.cpp:138-153), an
        <absorb> adds to the percentages (vocation.cpp:210-308); other children are not followed. */
    method LoadChild(child: VocationChild)
      requires WellFormed(Info())
      modifies this`skillMultipliers, this`absorbPercent
      ensures Info() == ApplyChild(old(Info()), child)
    {
      match child
      case SkillChild(skillId, m) =>
        if skillId.Some? && skillId.value <= SKILL_LAST {
          skillMultipliers := skillMultipliers[skillId.value := m];
        }
      case AbsorbChild(a) =>
        LoadAbsorb(a);
      case OtherChild =>
    }

    /** getReqSkillTries (vocation.cpp:376-389): the memoised per-level requirement. */
    method GetReqSkillTries(skill: uint8, level: uint16) returns (r: uint64)
      requires Valid()
      modifies this
      ensures Valid() && Info() == old(Info())
      ensures r == ReqSkillTries(skillMultipliers, skill, level)
      ensures cacheSkillTotal == old(cacheSkillTotal) && cacheMana == old(cacheMana) && cacheManaTotal == old(cacheManaTotal)
    {
      if skill > SKILL_LAST || level <= MIN_SKILL_LEVEL {
        return 0;
      }
      if (skill, level) in cacheSkill {
        return cacheSkill[(skill, level)];
      }
      r := CastU64(SKILL_BASE[skill] as real * Pow(skillMultipliers[skill], level - (MIN_SKILL_LEVEL + 1)));
      cacheSkill := cacheSkill[(skill, level) := r];
    }

    /** getTotalSkillTries (vocation.cpp:358-374) with a counter wide enough to pass `level`. */
    method GetTotalSkillTries(skill: uint8, level: uint16) returns (r: nat)
      requires Valid()
      modifies this
      ensures Valid() && Info() == old(Info())
      ensures r == TotalSkillTries(skillMultipliers, skill, level)
      ensures cacheMana == old(cacheMana) && cacheManaTotal == old(cacheManaTotal)
    {
      if skill > SKILL_LAST {
        return 0;
      }
      if (skill, level) in cacheSkillTotal {
        return cacheSkillTotal[(skill, level)];
      }
      var total: nat := 0;
      var i: int := MIN_SKILL_LEVEL;
      while i <= level
        invariant MIN_SKILL_LEVEL <= i && (i <= level + 1 || i == MIN_SKILL_LEVEL)
        invariant Valid() && Info() == old(Info())
        invariant total == TotalSkillTries(skillMultipliers, skill, i - 1)
        invariant cacheMana == old(cacheMana) && cacheManaTotal == old(cacheManaTotal)
      {
        var t := GetReqSkillTries(skill, i as uint16);
        total := total + t as nat;
        i := i + 1;
      }
      cacheSkillTotal := cacheSkillTotal[(skill as nat, level as nat) := total];
      r := total;
    }

    /** getReqMana (vocation.cpp:406-418): the memoised per-level requirement. */
    method GetReqMana(magLevel: uint32) returns (r: uint64)
      requires Valid()
      modifies this
      ensures Valid() && Info() == old(Info())
      ensures r == ReqMana(manaMultiplier, magLevel)
      ensures cacheSkill == old(cacheSkill) && cacheSkillTotal == old(cacheSkillTotal) && cacheManaTotal == old(cacheManaTotal)
    {
      if magLevel == 0 {
        return 0;
      }
      if magLevel in cacheMana {
        return cacheMana[magLevel];
      }
      var e := ToI32(magLevel) - 1;
      if e >= 0 {
        r := CastU64(1600.0 * Pow(manaMultiplier, e));
      } else if Pow(manaMultiplier, -e) == 0.0 {
        r := 0xFFFF_FFFF_FFFF_FFFF;
      } else {
        r := CastU64(1600.0 / Pow(manaMultiplier, -e));
      }
      cacheMana := cacheMana[magLevel as nat := r];
    }

    /** getTotalMana (vocation.cpp:391-404) with a counter wide enough to pass `magLevel`; the
        total is never stored in cacheManaTotal. */
    method GetTotalMana(magLevel: uint32) returns (r: nat)
      requires Valid()
      modifies this
      ensures Valid() && Info() == old(Info())
      ensures r == TotalMana(manaMultiplier, magLevel)
      ensures cacheManaTotal == old(cacheManaTotal)
      ensures cacheSkill == old(cacheSkill) && cacheSkillTotal == old(cacheSkillTotal)
    {
      if magLevel == 0 {
        return 0;
      }
      if magLevel in cacheManaTotal {
        return cacheManaTotal[magLevel];
      }
      var total: nat := 0;
      var i: int := 1;
      while i <= magLevel
        invariant 1 <= i <= magLevel + 1
        invariant Valid() && Info() == old(Info())
        invariant total == TotalMana(manaMultiplier, i - 1)
        invariant cacheManaTotal == old(cacheManaTotal)
        invariant cacheSkill == old(cacheSkill) && cacheSkillTotal == old(cacheSkillTotal)
      {
        var m := GetReqMana(i as uint32);
        total := total + m as nat;
        i := i + 1;
      }
      r := total;
    }
  }

  // ---------------------------------------------------------------- Vocations

  class Vocations {
    var vocationsMap: map<uint16, Vocation>

    constructor ()
      ensures vocationsMap == map[]
    {
      vocationsMap := map[];
    }

    /** Whether the table holds what loading `nodes` gives: one entry per id carried, each with
        the attributes of its nodes and nothing cached yet. */
    ghost predicate Loaded(nodes: seq<VocationNode>)
      reads this, vocationsMap.Values
    {
      vocationsMap.Keys == LoadedIds(nodes) &&
      forall k :: k in vocationsMap ==>
        vocationsMap[k].id == k && vocationsMap[k].Info() == LoadInfo(nodes, k) &&
        vocationsMap[k].CachesEmpty() && vocationsMap[k].Valid()
    }

    /** getVocation (vocation.cpp:314-323): the stored entry, or none for an absent id. */
    function GetVocation(id: uint16): (r: Option<Vocation>)
      reads this
      ensures r.None? <==> id !in vocationsMap
      ensures r.Some? ==> r.value == vocationsMap[id]
    {
      if id in vocationsMap then Some(vocationsMap[id]) else None
    }

    /** getVocationId (vocation.cpp:329-336): the smallest id whose name matches ignoring case,
        VOCATION_NONE when none does. */
    method GetVocationId(name: string) returns (id: uint16)
      ensures (exists k :: k in vocationsMap && EqualsIgnoreCase(vocationsMap[k].name, name)) ==>
        id in vocationsMap && EqualsIgnoreCase(vocationsMap[id].name, name) &&
        forall k :: k in vocationsMap && k < id ==> !EqualsIgnoreCase(vocationsMap[k].name, name)
      ensures (forall k :: k in vocationsMap ==> !EqualsIgnoreCase(vocationsMap[k].name, name)) ==>
        id == VOCATION_NONE
    {
      var remaining: set<int> := vocationsMap.Keys;
      while remaining != {}
        invariant remaining <= vocationsMap.Keys
        invariant forall k :: k in vocationsMap && k !in remaining ==> !EqualsIgnoreCase(vocationsMap[k].name, name)
        invariant forall k, j :: k in vocationsMap && k !in remaining && j in remaining ==> k < j
        decreases remaining
      {
        var k := FindMin(remaining);
        if EqualsIgnoreCase(vocationsMap[k as uint16].name, name) {
          return k as uint16;
        }
        remaining := remaining - {k};
      }
      return VOCATION_NONE;
    }

    /** getPromotedVocation (vocation.cpp:338-345): the smallest other id promoted from
        `vocationId`, VOCATION_NONE when there is none. */
    method GetPromotedVocation(vocationId: uint16) returns (id: uint16)
      ensures (exists k :: k in vocationsMap && vocationsMap[k].fromVocation == vocationId && k != vocationId) ==>
        id in vocationsMap && vocationsMap[id].fromVocation == vocationId && id != vocationId &&
        forall k :: k in vocationsMap && k < id ==> vocationsMap[k].fromVocation != vocationId || k == vocationId
      ensures (forall k :: k in vocationsMap ==> vocationsMap[k].fromVocation != vocationId || k == vocationId) ==>
        id == VOCATION_NONE
    {
      var remaining: set<int> := vocationsMap.Keys;
      while remaining != {}
        invariant remaining <= vocationsMap.Keys
        invariant forall k :: k in vocationsMap && k !in remaining ==> vocationsMap[k].fromVocation != vocationId || k == vocationId
        invariant forall k, j :: k in vocationsMap && k !in remaining && j in remaining ==> k < j
        decreases remaining
      {
        var k := FindMin(remaining);
        if vocationsMap[k as uint16].fromVocation == vocationId && k != vocationId {
          return k as uint16;
        }
        remaining := remaining - {k};
      }
      return VOCATION_NONE;
    }

    /** Entry `v` of id `k` holds what loading `prefix` gives that id, with nothing cached. */
    ghost predicate Entry(v: Vocation, k: uint16, prefix: seq<VocationNode>)
      reads v
    {
      v.id == k && v.Info() == LoadInfo(prefix, k) && v.CachesEmpty()
    }

    /** The table has an entry for exactly `ids`, each its own object holding what loading
        `prefix` gives. */
    ghost predicate Table(prefix: seq<VocationNode>, ids: set<uint16>)
      reads this, vocationsMap.Values
    {
      vocationsMap.Keys == ids &&
      (forall a, b :: a in vocationsMap && b in vocationsMap && a != b ==> vocationsMap[a] != vocationsMap[b]) &&
      forall k :: k in vocationsMap ==> Entry(vocationsMap[k], k, prefix)
    }

    /** The table holds what loading `prefix` gives. */
    ghost predicate Holds(prefix: seq<VocationNode>)
      reads this, vocationsMap.Values
    {
      Table(prefix, LoadedIds(prefix))
    }

    /** The emplace of loadFromXml (vocation.cpp:54-55): the entry already stored for `id`, or a
        new default one put in the table. */
    method EntryFor(ghost prefix: seq<VocationNode>, id: uint16) returns (voc: Vocation)
      requires Holds(prefix)
      modifies this`vocationsMap
      ensures Table(prefix, LoadedIds(prefix) + {id})
      ensures id in vocationsMap && vocationsMap[id] == voc
      ensures forall k :: k in vocationsMap ==> (k in old(vocationsMap) && vocationsMap[k] == old(vocationsMap[k])) || fresh(vocationsMap[k])
    {
      if id in vocationsMap {
        voc := vocationsMap[id];
      } else {
        AbsentIdDefault(prefix, id);
        voc := new Vocation(id);
        vocationsMap := vocationsMap[id := voc];
      }
    }

    /** A node leaves the entries of the other ids as they were. */
    lemma OthersKeep(prefix: seq<VocationNode>, node: VocationNode, ids: set<uint16>)
      requires Table(prefix, ids)
      ensures forall k :: k in vocationsMap && node.id != Some(k) ==> Entry(vocationsMap[k], k, prefix + [node])
    {
      forall k | k in vocationsMap && node.id != Some(k)
        ensures Entry(vocationsMap[k], k, prefix + [node])
      {
        LoadInfoSnoc(prefix, node, k);
      }
    }

    /** One step of loadFromXml (vocation.cpp:48-55): the node is loaded into the entry of its id;
        a node without an id is skipped. */
    method LoadEntry(ghost prefix: seq<VocationNode>, node: VocationNode)
      requires Holds(prefix)
      modifies this`vocationsMap, vocationsMap.Values
      ensures Holds(prefix + [node])
      ensures forall k :: k in vocationsMap ==> (k in old(vocationsMap) && vocationsMap[k] == old(vocationsMap[k])) || fresh(vocationsMap[k])
    {
      var nodes := prefix + [node];
      LoadedIdsSnoc(prefix, node);
      if node.id.None? {
        OthersKeep(prefix, node, LoadedIds(prefix));
        return;
      }
      var id := node.id.value;
      var voc := EntryFor(prefix, id);
      OthersKeep(prefix, node, LoadedIds(prefix) + {id});
      LoadInfoSnoc(prefix, node, id);
      voc.LoadNode(node);
      assert Entry(voc, id, nodes);
      assert vocationsMap.Keys == LoadedIds(nodes);
      assert forall a, b :: a in vocationsMap && b in vocationsMap && a != b ==> vocationsMap[a] != vocationsMap[b];
      assert forall k :: k in vocationsMap && k != id ==> Entry(vocationsMap[k], k, nodes);
    }

    /** loadFromXml (vocation.cpp:36-312) on a table that starts empty, as it does at start-up
        and after reload: a document that fails to parse loads nothing. */
    method LoadFromXml(document: Option<seq<VocationNode>>) returns (ok: bool)
      requires vocationsMap == map[]
      modifies this
      ensures ok <==> document.Some?
      ensures !ok ==> vocationsMap == map[]
      ensures ok ==> Loaded(document.value)
    {
      if document.None? {
        return false;
      }
      var nodes := document.value;
      for i := 0 to |nodes|
        invariant Holds(nodes[..i])
        invariant forall k :: k in vocationsMap ==> fresh(vocationsMap[k])
      {
        assert nodes[..i + 1] == nodes[..i] + [nodes[i]];
        LoadEntry(nodes[..i], nodes[i]);
      }
      assert nodes[..|nodes|] == nodes;
      ok := true;
    }

    /** reload (vocation.cpp:27-30): the table is emptied, then loaded again. */
    method Reload(document: Option<seq<VocationNode>>) returns (ok: bool)
      modifies this
      ensures ok <==> document.Some?
      ensures !ok ==> vocationsMap == map[]
      ensures ok ==> Loaded(document.value)
    {
      vocationsMap := map[];
      ok := LoadFromXml(document);
    }
  }
}
