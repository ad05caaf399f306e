// Helpers over sequences: the first index of an element and the swap-and-pop removal that
// std::vector code uses (`v[i] = v.back(); v.pop_back()`).
module Seqs {
  import opened Wrappers

  /** The first index of `x` in `b`. */
  function IndexOf<T(==)>(b: seq<T>, x: T): (r: Option<nat>)
    ensures r.Some? ==> r.value < |b| && b[r.value] == x && forall j :: 0 <= j < r.value ==> b[j] != x
    ensures r.None? <==> x !in b
  {
    if b == [] then None
    else if b[0] == x then Some(0)
    else match IndexOf(b[1..], x)
      case None => None
      case Some(k) => Some(k + 1)
  }

  /** `b[i] = b.back(); b.pop_back()`. */
  function SwapRemove<T>(b: seq<T>, i: nat): (r: seq<T>)
    requires i < |b|
    ensures |r| == |b| - 1
    ensures forall j :: 0 <= j < |r| && j != i ==> r[j] == b[j]
    ensures i < |r| ==> r[i] == b[|b| - 1]
  {
    if i == |b| - 1 then b[..i] else b[..i] + ([b[|b| - 1]] + b[i + 1..|b| - 1])
  }

  /** Swap-and-pop loses exactly one occurrence of the removed element. */
  lemma SwapRemoveMultiset<T>(b: seq<T>, i: nat)
    requires i < |b|
    ensures multiset(SwapRemove(b, i)) + multiset{b[i]} == multiset(b)
  {
    var last := |b| - 1;
    if i == last {
      assert b == b[..i] + [b[i]];
    } else {
      var front, middle := b[..i], b[i + 1..last];
      assert b == front + ([b[i]] + (middle + [b[last]]));
      var r := SwapRemove(b, i);
      assert r == front + ([b[last]] + middle);
      var mf, mm := multiset(front), multiset(middle);
      assert multiset(b) == mf + (multiset{b[i]} + (mm + multiset{b[last]}));
      assert multiset(r) == mf + (multiset{b[last]} + mm);
      forall z ensures (multiset(r) + multiset{b[i]})[z] == multiset(b)[z] {
      }
    }
  }

  /** Swap-and-pop keeps every other element, in a different position at most. */
  lemma SwapRemoveElements<T>(b: seq<T>, i: nat)
    requires i < |b|
    requires forall p, q :: 0 <= p < q < |b| ==> b[p] != b[q]
    ensures b[i] !in SwapRemove(b, i)
    ensures forall y :: y in SwapRemove(b, i) <==> y in b && y != b[i]
    ensures forall p, q :: 0 <= p < q < |SwapRemove(b, i)| ==> SwapRemove(b, i)[p] != SwapRemove(b, i)[q]
  {
    var r := SwapRemove(b, i);
    SwapRemoveMultiset(b, i);
    assert multiset(r)[b[i]] == multiset(b)[b[i]] - 1;
    assert multiset(b)[b[i]] == 1 by {
      DistinctCount(b, i);
    }
    forall y ensures y in r <==> y in b && y != b[i] {
      assert y in r <==> multiset(r)[y] > 0;
      assert y in b <==> multiset(b)[y] > 0;
    }
    forall p, q | 0 <= p < q < |r| ensures r[p] != r[q] {
      if r[p] == r[q] {
        assert false;
      }
    }
  }

  /** In a sequence without repetition, an element occurs once. */
  lemma DistinctCount<T>(b: seq<T>, i: nat)
    requires i < |b|
    requires forall p, q :: 0 <= p < q < |b| ==> b[p] != b[q]
    ensures multiset(b)[b[i]] == 1
  {
    assert b == b[..i] + [b[i]] + b[i + 1..];
    assert forall p :: 0 <= p < |b[..i]| ==> b[..i][p] != b[i];
    assert forall p :: i < p < |b| ==> b[p] != b[i];
    assert b[i] !in b[..i] && b[i] !in b[i + 1..];
    assert multiset(b[..i])[b[i]] == 0 && multiset(b[i + 1..])[b[i]] == 0;
  }
}
