// Helpers over finite sets: choosing an element, and the smallest key of an ordered
// std::map (the element its begin() iterator designates).
module Sets {
  /** A non-empty set has an element; the returned witness lets `:|` pick one. */
  lemma Pick<T>(s: set<T>) returns (x: T)
    requires s != {}
    ensures x in s
  {
    if forall y :: y !in s {
      assert false;
    }
    x :| x in s;
  }

  /** The same fact for integer sets, usable inside ghost functions. */
  lemma NonEmptyHasInt(s: set<int>)
    requires s != {}
    ensures exists x :: x in s
  {
    if forall y :: y !in s {
      assert false;
    }
  }

  ghost function MinOf(s: set<int>): (m: int)
    requires s != {}
    ensures m in s
    ensures forall x :: x in s ==> m <= x
    decreases |s|
  {
    NonEmptyHasInt(s);
    var x :| x in s;
    if s - {x} == {} then
      assert forall y :: y in s ==> y == x by {
        forall y | y in s ensures y == x {
          assert y !in s - {x};
        }
      }
      x
    else
      var rest := MinOf(s - {x});
      var m := if x <= rest then x else rest;
      assert forall y :: y in s ==> m <= y by {
        forall y | y in s ensures m <= y {
          if y != x {
            assert y in s - {x};
          }
        }
      }
      m
  }

  /** Finds the smallest key by a scan. */
  method FindMin(s: set<int>) returns (m: int)
    requires s != {}
    ensures m == MinOf(s)
  {
    ghost var w := Pick(s);
    m :| m in s;
    var rest := s - {m};
    while rest != {}
      invariant rest <= s && m in s
      invariant forall x :: x in s - rest ==> m <= x
      decreases rest
    {
      ghost var v := Pick(rest);
      var x :| x in rest;
      ghost var done := s - rest;
      if x < m {
        m := x;
      }
      rest := rest - {x};
      assert s - rest == done + {x};
    }
    assert s - rest == s;
  }
}
