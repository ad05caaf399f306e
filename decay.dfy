// The decay queue of items/decay/decay.cpp: an ordered map from expiry timestamp to the
// bucket of items that expire then.
//
// Items are identified by id; the two item attributes the queue reads and writes (the decay
// state and the duration timestamp) are kept per id. The clock is a parameter `now`, and every
// dispatcher.scheduleEvent(delay, checkDecay) is recorded as its delay in `requests`.
module Decay {
  import opened Ints
  import opened Wrappers
  import opened Sets
  import opened Seqs

  /** SCHEDULER_MINTICKS, the smallest delay the dispatcher is asked for. */
  const SCHEDULER_MINTICKS: int := 50

  type ItemId = nat

  /** ItemAttribute_t::DECAYSTATE: absent, DECAYING_FALSE or DECAYING_TRUE. */
  datatype DecayFlag = Unset | DecayingFalse | DecayingTrue

  datatype ItemDecay = ItemDecay(state: DecayFlag, durationTimestamp: Option<int>)

  datatype DecayState = DecayState(decayMap: map<int, seq<ItemId>>, items: map<ItemId, ItemDecay>, requests: seq<int>)

  /** The decay attributes of an item; an item never seen carries neither. */
  function Attr(items: map<ItemId, ItemDecay>, x: ItemId): ItemDecay {
    if x in items then items[x] else ItemDecay(Unset, None)
  }

  /** What the queue keeps true: buckets are non-empty and hold each item at most once, keys
      are positive, and an item in the bucket for `k` is decaying with duration timestamp `k`
      (so no item is in two buckets). */
  ghost predicate Inv(st: DecayState) {
    (forall k :: k in st.decayMap ==> k > 0 && |st.decayMap[k]| > 0) &&
    (forall k, i :: k in st.decayMap && 0 <= i < |st.decayMap[k]| ==>
       Attr(st.items, st.decayMap[k][i]) == ItemDecay(DecayingTrue, Some(k))) &&
    (forall k, i, j :: k in st.decayMap && 0 <= i < j < |st.decayMap[k]| ==>
       st.decayMap[k][i] != st.decayMap[k][j])
  }

  // ---------------------------------------------------------------- stopDecay

  /** stopDecay (decay.cpp:57-92): removes one occurrence of the item from the bucket for
      `timestamp` and clears its decay state. */
  function StopDecaySpec(st: DecayState, item: Option<ItemId>, timestamp: int): (r: DecayState)
    ensures r.requests == st.requests
    ensures forall y: ItemId :: item != Some(y) ==> Attr(r.items, y) == Attr(st.items, y)
  {
    if item.None? || timestamp <= 0 || timestamp !in st.decayMap then st
    else
      var x := item.value;
      var b := st.decayMap[timestamp];
      var cleared := st.items[x := Attr(st.items, x).(state := Unset)];
      if |b| == 1 then
        if b[0] == x then st.(decayMap := st.decayMap - {timestamp}, items := cleared) else st
      else
        match IndexOf(b, x)
        case None => st
        case Some(i) => st.(decayMap := st.decayMap[timestamp := SwapRemove(b, i)], items := cleared)
  }

  /** stopDecay touches only the bucket for `timestamp`: it loses exactly one occurrence of the
      item when it holds one (a one-element bucket is erased) and is unchanged otherwise. */
  lemma StopDecayOutcome(st: DecayState, item: Option<ItemId>, timestamp: int)
    ensures var r := StopDecaySpec(st, item, timestamp);
      (forall k :: k != timestamp ==> (k in r.decayMap <==> k in st.decayMap)) &&
      (forall k :: k != timestamp && k in r.decayMap ==> r.decayMap[k] == st.decayMap[k]) &&
      (item.None? || timestamp <= 0 || timestamp !in st.decayMap || item.value !in st.decayMap[timestamp] ==> r == st) &&
      (item.Some? && timestamp > 0 && timestamp in st.decayMap && item.value in st.decayMap[timestamp] ==>
         var b := st.decayMap[timestamp];
         Attr(r.items, item.value).state == Unset &&
         (|b| == 1 ==> timestamp !in r.decayMap) &&
         (|b| != 1 ==> (timestamp in r.decayMap &&
            multiset(r.decayMap[timestamp]) + multiset{item.value} == multiset(b))))
  {
    if item.Some? && timestamp > 0 && timestamp in st.decayMap && item.value in st.decayMap[timestamp] {
      var b := st.decayMap[timestamp];
      SwapRemoveMultiset(b, IndexOf(b, item.value).value);
    }
  }

  /** Removing an item from a bucket of several keeps every listed item decaying at its bucket. */
  lemma StopDecayShrinksBucket(st: DecayState, x: ItemId, timestamp: int)
    requires Inv(st) && timestamp > 0 && timestamp in st.decayMap
    requires |st.decayMap[timestamp]| != 1 && x in st.decayMap[timestamp]
    ensures var r := StopDecaySpec(st, Some(x), timestamp);
      forall k, p :: k in r.decayMap && 0 <= p < |r.decayMap[k]| ==>
        Attr(r.items, r.decayMap[k][p]) == ItemDecay(DecayingTrue, Some(k))
  {
    var r := StopDecaySpec(st, Some(x), timestamp);
    var b := st.decayMap[timestamp];
    var i := IndexOf(b, x).value;
    SwapRemoveElements(b, i);
    var nb := SwapRemove(b, i);
    assert r.decayMap[timestamp] == nb;
    forall k, p | k in r.decayMap && 0 <= p < |r.decayMap[k]|
      ensures Attr(r.items, r.decayMap[k][p]) == ItemDecay(DecayingTrue, Some(k))
    {
      var y := r.decayMap[k][p];
      if k == timestamp {
        assert y in nb;
        var q := IndexOf(b, y).value;
        assert st.decayMap[k][q] == y;
      } else {
        assert st.decayMap[k][p] == y;
        assert y != x by {
          assert Attr(st.items, y) == ItemDecay(DecayingTrue, Some(k));
          assert Attr(st.items, x) == ItemDecay(DecayingTrue, Some(timestamp)) by {
            assert st.decayMap[timestamp][i] == x;
          }
        }
      }
    }
  }

  /** stopDecay keeps the queue invariant, and an item it removed is in no bucket any more. */
  lemma StopDecayKeepsInv(st: DecayState, x: ItemId, timestamp: int)
    requires Inv(st)
    ensures Inv(StopDecaySpec(st, Some(x), timestamp))
    ensures Attr(st.items, x).durationTimestamp == Some(timestamp) ==>
      var r := StopDecaySpec(st, Some(x), timestamp);
      forall k :: k in r.decayMap ==> x !in r.decayMap[k]
  {
    var r := StopDecaySpec(st, Some(x), timestamp);
    if timestamp > 0 && timestamp in st.decayMap {
      var b := st.decayMap[timestamp];
      if |b| != 1 && x in b {
        StopDecayShrinksBucket(st, x, timestamp);
      } else if |b| == 1 && b[0] == x {
        forall k, p | k in r.decayMap && 0 <= p < |r.decayMap[k]|
          ensures Attr(r.items, r.decayMap[k][p]) == ItemDecay(DecayingTrue, Some(k))
        {
          var y := r.decayMap[k][p];
          assert st.decayMap[k][p] == y;
          assert Attr(st.items, y) == ItemDecay(DecayingTrue, Some(k));
          assert Attr(st.items, x) == ItemDecay(DecayingTrue, Some(timestamp)) by {
            assert st.decayMap[timestamp][0] == x;
          }
        }
      }
    }
    if Attr(st.items, x).durationTimestamp == Some(timestamp) {
      forall k | k in r.decayMap ensures x !in r.decayMap[k] {
        if x in r.decayMap[k] {
          assert false;
        }
      }
    }
  }

  // ---------------------------------------------------------------- startDecay

  /** Whether a new expiry at `timestamp` is earlier than the queue's first key (or the queue
      is empty): then a check is scheduled for it. */
  predicate EarlierThanAll(decayMap: map<int, seq<ItemId>>, timestamp: int) {
    forall k :: k in decayMap ==> timestamp < k
  }

  /** startDecay (decay.cpp:29-55). */
  function StartDecaySpec(st: DecayState, item: Option<ItemId>, duration: int32, now: int): (r: DecayState)
  {
    if item.None? || duration <= 0 then st
    else
      var x := item.value;
      var previous := Attr(st.items, x).durationTimestamp;
      var s1 := if previous.Some? then StopDecaySpec(st, item, previous.value) else st;
      var timestamp := now + duration;
      var requests := s1.requests + (if EarlierThanAll(s1.decayMap, timestamp) then [Max(SCHEDULER_MINTICKS, duration)] else []);
      var bucket := if timestamp in s1.decayMap then s1.decayMap[timestamp] else [];
      DecayState(s1.decayMap[timestamp := bucket + [x]],
                 s1.items[x := ItemDecay(DecayingTrue, Some(timestamp))],
                 requests)
  }

  /** After startDecay the item is the last of the bucket for `now + duration`, decaying with
      that timestamp, and found in no other bucket; a check is requested exactly when the new
      key comes before every other key. A null item or a non-positive duration changes nothing. */
  lemma StartDecayOutcome(st: DecayState, x: ItemId, duration: int32, now: int)
    requires Inv(st) && now >= 0
    ensures duration <= 0 ==> StartDecaySpec(st, Some(x), duration, now) == st
    ensures StartDecaySpec(st, None, duration, now) == st
    ensures duration > 0 ==>
      var r := StartDecaySpec(st, Some(x), duration, now);
      var ts := now + duration;
      ts in r.decayMap && r.decayMap[ts][|r.decayMap[ts]| - 1] == x &&
      Attr(r.items, x) == ItemDecay(DecayingTrue, Some(ts)) &&
      (forall k :: k in r.decayMap && k != ts ==> x !in r.decayMap[k]) &&
      Inv(r)
    ensures duration > 0 ==>
      var r := StartDecaySpec(st, Some(x), duration, now);
      var ts := now + duration;
      var previous := Attr(st.items, x).durationTimestamp;
      var s1 := if previous.Some? then StopDecaySpec(st, Some(x), previous.value) else st;
      r.requests == st.requests + (if EarlierThanAll(s1.decayMap, ts) then [Max(SCHEDULER_MINTICKS, duration as int)] else []) &&
      (forall y: ItemId :: y != x ==> Attr(r.items, y) == Attr(st.items, y)) &&
      (forall k :: k != ts && previous != Some(k) ==> (k in r.decayMap <==> k in st.decayMap)) &&
      (forall k :: k != ts && previous != Some(k) && k in r.decayMap ==> r.decayMap[k] == st.decayMap[k]) &&
      (previous != Some(ts) ==> r.decayMap[ts] == (if ts in st.decayMap then st.decayMap[ts] else []) + [x])
  {
    if duration > 0 {
      StartDecayPlaces(st, x, duration, now);
      StartDecayFrame(st, x, duration, now);
    }
  }

  /** Where startDecay puts the item, with the invariant kept. */
  lemma StartDecayPlaces(st: DecayState, x: ItemId, duration: int32, now: int)
    requires Inv(st) && now >= 0 && duration > 0
    ensures var r := StartDecaySpec(st, Some(x), duration, now);
      var ts := now + duration;
      ts in r.decayMap && r.decayMap[ts][|r.decayMap[ts]| - 1] == x &&
      Attr(r.items, x) == ItemDecay(DecayingTrue, Some(ts)) &&
      (forall k :: k in r.decayMap && k != ts ==> x !in r.decayMap[k]) &&
      Inv(r)
  {
    var previous := Attr(st.items, x).durationTimestamp;
    var s1 := if previous.Some? then StopDecaySpec(st, Some(x), previous.value) else st;
    var ts := now + duration;
    assert Inv(s1) && forall k :: k in s1.decayMap ==> x !in s1.decayMap[k] by {
      if previous.Some? {
        StopDecayKeepsInv(st, x, previous.value);
      } else {
        forall k | k in st.decayMap ensures x !in st.decayMap[k] {
          if x in st.decayMap[k] {
            assert false;
          }
        }
      }
    }
    PushKeepsInv(s1, x, ts);
  }

  /** What startDecay requests and what it leaves alone: other items, and the buckets other
      than the old and the new timestamp. */
  lemma StartDecayFrame(st: DecayState, x: ItemId, duration: int32, now: int)
    requires duration > 0
    ensures var r := StartDecaySpec(st, Some(x), duration, now);
      var ts := now + duration;
      var previous := Attr(st.items, x).durationTimestamp;
      var s1 := if previous.Some? then StopDecaySpec(st, Some(x), previous.value) else st;
      r.requests == st.requests + (if EarlierThanAll(s1.decayMap, ts) then [Max(SCHEDULER_MINTICKS, duration as int)] else []) &&
      (forall y: ItemId :: y != x ==> Attr(r.items, y) == Attr(st.items, y)) &&
      (forall k :: k != ts && previous != Some(k) ==> (k in r.decayMap <==> k in st.decayMap)) &&
      (forall k :: k != ts && previous != Some(k) && k in r.decayMap ==> r.decayMap[k] == st.decayMap[k]) &&
      (previous != Some(ts) ==> r.decayMap[ts] == (if ts in st.decayMap then st.decayMap[ts] else []) + [x])
  {
    var previous := Attr(st.items, x).durationTimestamp;
    if previous.Some? {
      StopDecayOutcome(st, Some(x), previous.value);
    }
  }

  /** Appending an item that is in no bucket to the bucket for a positive key keeps the invariant. */
  lemma PushKeepsInv(s1: DecayState, x: ItemId, ts: int)
    requires Inv(s1) && ts > 0
    requires forall k :: k in s1.decayMap ==> x !in s1.decayMap[k]
    ensures var bucket := if ts in s1.decayMap then s1.decayMap[ts] else [];
      var r := DecayState(s1.decayMap[ts := bucket + [x]], s1.items[x := ItemDecay(DecayingTrue, Some(ts))], s1.requests);
      Inv(r) && forall k :: k in r.decayMap && k != ts ==> x !in r.decayMap[k]
  {
    var bucket := if ts in s1.decayMap then s1.decayMap[ts] else [];
    var r := DecayState(s1.decayMap[ts := bucket + [x]], s1.items[x := ItemDecay(DecayingTrue, Some(ts))], s1.requests);
    forall k, p | k in r.decayMap && 0 <= p < |r.decayMap[k]|
      ensures Attr(r.items, r.decayMap[k][p]) == ItemDecay(DecayingTrue, Some(k))
    {
      var y := r.decayMap[k][p];
      if y != x {
        if k == ts {
          assert p < |bucket| && bucket[p] == y;
        } else {
          assert s1.decayMap[k][p] == y;
        }
      }
    }
    forall k, p, q | k in r.decayMap && 0 <= p < q < |r.decayMap[k]|
      ensures r.decayMap[k][p] != r.decayMap[k][q]
    {
      if k == ts && q == |bucket| {
        assert r.decayMap[k][p] == bucket[p];
        if ts in s1.decayMap {
          assert bucket[p] in s1.decayMap[ts];
        }
      }
    }
  }

  // ---------------------------------------------------------------- checkDecay

  /** The items of every bucket whose key is at most `now`, bucket by bucket in ascending key
      order: what checkDecay collects before handing the items on. */
  ghost function CollectDue(m: map<int, seq<ItemId>>, now: int): seq<ItemId>
    decreases |m.Keys|
  {
    if m == map[] then []
    else
      var k := MinOf(m.Keys);
      if k > now then []
      else
        assert |(m - {k}).Keys| < |m.Keys| by {
          assert (m - {k}).Keys == m.Keys - {k};
        }
        m[k] + CollectDue(m - {k}, now)
  }

  /** An item is collected exactly when it is in a bucket whose key is at most `now`. */
  lemma {:induction false} CollectDueMembers(m: map<int, seq<ItemId>>, now: int, x: ItemId)
    ensures x in CollectDue(m, now) <==> exists k :: k in m && k <= now && x in m[k]
    decreases |m.Keys|
  {
    if m != map[] {
      var k := MinOf(m.Keys);
      if k > now {
        assert forall j :: j in m ==> j > now;
      } else {
        var rest := m - {k};
        assert rest.Keys == m.Keys - {k};
        CollectDueMembers(rest, now, x);
        assert CollectDue(m, now) == m[k] + CollectDue(rest, now);
        if exists j :: j in m && j <= now && x in m[j] {
          var j :| j in m && j <= now && x in m[j];
          if j != k {
            assert j in rest && rest[j] == m[j];
          }
        }
      }
    }
  }

  /** The buckets checkDecay keeps: those with a key after `now`. */
  function Remaining(m: map<int, seq<ItemId>>, now: int): (r: map<int, seq<ItemId>>)
    ensures forall k :: k in r <==> k in m && k > now
    ensures forall k :: k in r ==> r[k] == m[k]
  {
    map k | k in m && k > now :: m[k]
  }

  /** Taking the first bucket, when it is due, off the map. */
  lemma CollectStep(m: map<int, seq<ItemId>>, first: int, now: int)
    requires m != map[] && first == MinOf(m.Keys) && first <= now
    ensures CollectDue(m, now) == m[first] + CollectDue(m - {first}, now)
    ensures (m - {first}).Keys == m.Keys - {first}
  {
  }

  /** One round of the checkDecay loop keeps what the loop knows about the buckets it took off. */
  lemma CollectAdvance(m0: map<int, seq<ItemId>>, m: map<int, seq<ItemId>>, expired: seq<ItemId>, first: int, now: int)
    requires m != map[] && first == MinOf(m.Keys) && first <= now
    requires forall k :: k in m ==> k in m0 && m[k] == m0[k]
    requires forall k :: k in m0 && k !in m ==> k <= now
    requires expired + CollectDue(m, now) == CollectDue(m0, now)
    ensures var rest := m - {first};
      (forall k :: k in rest ==> k in m0 && rest[k] == m0[k]) &&
      (forall k :: k in m0 && k !in rest ==> k <= now) &&
      (expired + m[first]) + CollectDue(rest, now) == CollectDue(m0, now) &&
      |rest.Keys| < |m.Keys|
  {
    CollectStep(m, first, now);
    var rest := m - {first};
    assert (expired + m[first]) + CollectDue(rest, now) == expired + (m[first] + CollectDue(rest, now));
  }

  /** A sub-map that kept its buckets, lost only due ones and has nothing due left is Remaining. */
  lemma RemainingOnceDone(m0: map<int, seq<ItemId>>, m: map<int, seq<ItemId>>, now: int)
    requires forall k :: k in m ==> k in m0 && m[k] == m0[k] && k > now
    requires forall k :: k in m0 && k !in m ==> k <= now
    ensures m == Remaining(m0, now)
  {
    var r := Remaining(m0, now);
    forall k | k in r
      ensures k in m
    {
      assert k in m0 && k > now;
    }
    forall k | k in m
      ensures k in r && r[k] == m[k]
    {
      assert k in m0 && k > now;
    }
    assert m.Keys == r.Keys;
  }

  /** Every listed item marked DECAYING_FALSE, every other item unchanged. */
  function MarkNotDecaying(items: map<ItemId, ItemDecay>, xs: seq<ItemId>): (r: map<ItemId, ItemDecay>)
    ensures forall y :: y in xs ==> Attr(r, y) == Attr(items, y).(state := DecayingFalse)
    ensures forall y :: y !in xs ==> Attr(r, y) == Attr(items, y)
  {
    map y | y in items.Keys + (set z | z in xs) :: if y in xs then Attr(items, y).(state := DecayingFalse) else items[y]
  }

  /** Marking one more item is one more map update. */
  lemma MarkNotDecayingStep(items: map<ItemId, ItemDecay>, xs: seq<ItemId>, x: ItemId)
    ensures var m := MarkNotDecaying(items, xs);
      MarkNotDecaying(items, xs + [x]) == m[x := Attr(m, x).(state := DecayingFalse)]
  {
    var m := MarkNotDecaying(items, xs);
    var a := MarkNotDecaying(items, xs + [x]);
    var b := m[x := Attr(m, x).(state := DecayingFalse)];
    assert a.Keys == b.Keys;
    forall y | y in a.Keys
      ensures a[y] == b[y]
    {
      assert Attr(a, y) == Attr(b, y);
    }
  }

  /** The check delay for the new first key: at least SCHEDULER_MINTICKS, the 32-bit
      difference otherwise. */
  function RescheduleDelay(firstKey: int, now: int): (d: int)
    ensures d >= SCHEDULER_MINTICKS
    ensures 0 <= firstKey - now < 0x8000_0000 ==> d == Max(SCHEDULER_MINTICKS, firstKey - now)
  {
    Max(SCHEDULER_MINTICKS, ToI32(firstKey - now))
  }

  /** checkDecay (decay.cpp:94-127): the collected items and the new state. */
  ghost function CheckDecaySpec(st: DecayState, now: int): (r: (seq<ItemId>, DecayState))
  {
    var expired := CollectDue(st.decayMap, now);
    var remaining := Remaining(st.decayMap, now);
    var requests := st.requests + (if remaining == map[] then [] else [RescheduleDelay(MinOf(remaining.Keys), now)]);
    (expired, DecayState(remaining, MarkNotDecaying(st.items, expired), requests))
  }

  /** checkDecay keeps exactly the buckets after `now`, marks exactly the items of the other
      buckets as not decaying, asks for a new check iff buckets remain, and keeps the invariant. */
  lemma CheckDecayOutcome(st: DecayState, now: int)
    requires Inv(st)
    ensures var (expired, r) := CheckDecaySpec(st, now);
      (forall k :: k in r.decayMap <==> k in st.decayMap && k > now) &&
      (forall x :: x in expired <==> exists k :: k in st.decayMap && k <= now && x in st.decayMap[k]) &&
      (forall x :: x in expired ==> Attr(r.items, x).state == DecayingFalse) &&
      (|r.requests| == |st.requests| + 1 <==> r.decayMap != map[]) &&
      Inv(r)
  {
    var (expired, r) := CheckDecaySpec(st, now);
    forall x ensures x in expired <==> exists k :: k in st.decayMap && k <= now && x in st.decayMap[k] {
      CollectDueMembers(st.decayMap, now, x);
    }
    forall k, p | k in r.decayMap && 0 <= p < |r.decayMap[k]|
      ensures Attr(r.items, r.decayMap[k][p]) == ItemDecay(DecayingTrue, Some(k))
    {
      var y := r.decayMap[k][p];
      assert st.decayMap[k][p] == y;
      assert Attr(st.items, y) == ItemDecay(DecayingTrue, Some(k));
      if y in expired {
        CollectDueMembers(st.decayMap, now, y);
        assert false;
      }
    }
  }

  // ---------------------------------------------------------------- the queue object

  class DecayQueue {
    var decayMap: map<int, seq<ItemId>>
    var items: map<ItemId, ItemDecay>
    var requests: seq<int>

    function State(): DecayState
      reads this
    {
      DecayState(decayMap, items, requests)
    }

    constructor ()
      ensures State() == DecayState(map[], map[], [])
      ensures Inv(State())
    {
      decayMap := map[];
      items := map[];
      requests := [];
    }

    method StopDecay(item: Option<ItemId>, timestamp: int)
      modifies this
      ensures State() == StopDecaySpec(old(State()), item, timestamp)
    {
      if item.None? || timestamp <= 0 || timestamp !in decayMap {
        return;
      }
      var x := item.value;
      var decayItems := decayMap[timestamp];
      var i := 0;
      var end := |decayItems|;
      if end == 1 {
        if x == decayItems[i] {
          items := items[x := Attr(items, x).(state := Unset)];
          decayMap := decayMap - {timestamp};
        }
        return;
      }
      while i < end
        invariant 0 <= i <= end
        invariant forall j :: 0 <= j < i ==> decayItems[j] != x
      {
        if x == decayItems[i] {
          assert IndexOf(decayItems, x) == Some(i);
          items := items[x := Attr(items, x).(state := Unset)];
          decayMap := decayMap[timestamp := SwapRemove(decayItems, i)];
          return;
        }
        i := i + 1;
      }
      assert IndexOf(decayItems, x).None?;
    }

    method StartDecay(item: Option<ItemId>, duration: int32, now: int)
      modifies this
      ensures State() == StartDecaySpec(old(State()), item, duration, now)
    {
      if item.None? || duration <= 0 {
        return;
      }
      var x := item.value;
      var oldTimestamp := Attr(items, x).durationTimestamp;
      if oldTimestamp.Some? {
        StopDecay(item, oldTimestamp.value);
      }
      var timestamp := now + duration;
      if decayMap == map[] {
        requests := requests + [Max(SCHEDULER_MINTICKS, duration)];
      } else {
        var first := FindMin(decayMap.Keys);
        if timestamp < first {
          requests := requests + [Max(SCHEDULER_MINTICKS, duration)];
        } else {
          assert first in decayMap;
        }
      }
      items := items[x := ItemDecay(DecayingTrue, Some(timestamp))];
      var bucket := if timestamp in decayMap then decayMap[timestamp] else [];
      decayMap := decayMap[timestamp := bucket + [x]];
    }

    method CheckDecay(now: int) returns (expired: seq<ItemId>)
      modifies this
      ensures (expired, State()) == CheckDecaySpec(old(State()), now)
    {
      ghost var st0 := State();
      expired := CollectExpired(now);
      MarkExpired(expired);
      ghost var spec := CheckDecaySpec(st0, now);
      assert spec.0 == expired && spec.1.decayMap == decayMap && spec.1.items == items;
      if decayMap != map[] {
        var first := FindMin(decayMap.Keys);
        requests := requests + [RescheduleDelay(first, now)];
      }
      assert requests == spec.1.requests;
      assert State() == spec.1;
    }

    /** The erase loop of checkDecay: buckets are taken from the front while their key is at
        most `now`. */
    method CollectExpired(now: int) returns (expired: seq<ItemId>)
      modifies this
      ensures expired == CollectDue(old(decayMap), now)
      ensures decayMap == Remaining(old(decayMap), now)
      ensures items == old(items) && requests == old(requests)
    {
      ghost var m0 := decayMap;
      expired := [];
      while decayMap != map[]
        invariant forall k :: k in decayMap ==> k in m0 && decayMap[k] == m0[k]
        invariant forall k :: k in m0 && k !in decayMap ==> k <= now
        invariant expired + CollectDue(decayMap, now) == CollectDue(m0, now)
        invariant items == old(items) && requests == old(requests)
        decreases |decayMap.Keys|
      {
        var first := FindMin(decayMap.Keys);
        if first > now {
          assert forall k :: k in decayMap ==> k > now;
          break;
        }
        CollectAdvance(m0, decayMap, expired, first, now);
        expired := expired + decayMap[first];
        decayMap := decayMap - {first};
      }
      RemainingOnceDone(m0, decayMap, now);
    }

    /** setDecaying(DECAYING_FALSE) on every collected item. */
    method MarkExpired(expired: seq<ItemId>)
      modifies this
      ensures items == MarkNotDecaying(old(items), expired)
      ensures decayMap == old(decayMap) && requests == old(requests)
    {
      var i := 0;
      while i < |expired|
        invariant 0 <= i <= |expired|
        invariant items == MarkNotDecaying(old(items), expired[..i])
        invariant decayMap == old(decayMap) && requests == old(requests)
      {
        MarkNotDecayingStep(old(items), expired[..i], expired[i]);
        assert expired[..i + 1] == expired[..i] + [expired[i]];
        items := items[expired[i] := Attr(items, expired[i]).(state := DecayingFalse)];
        i := i + 1;
      }
      assert expired[..i] == expired;
    }
  }
}
