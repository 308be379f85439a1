/** The greatest element of a finite set of numbers. */
module Maxima {
  ghost predicate IsGreatest(m: nat, s: set<nat>) {
    m in s && forall x | x in s :: x <= m
  }

  /** `coalesce(max(...), 0)` over a column of ranks. */
  function MaxOrZero(s: set<nat>): (m: nat)
    ensures if s == {} then m == 0 else m in s && forall x | x in s :: x <= m
  {
    if s == {} then 0
    else
      GreatestExists(s);
      var m :| m in s && forall x | x in s :: x <= m;
      m
  }

  lemma {:induction false} Greatest(s: set<nat>) returns (m: nat)
    requires s != {}
    ensures IsGreatest(m, s)
    decreases |s|
  {
    var x :| x in s;
    var rest := s - {x};
    if rest == {} {
      m := x;
      assert s == {x};
    } else {
      var g := Greatest(rest);
      m := if x <= g then g else x;
      assert forall y | y in s :: y == x || y in rest;
    }
  }

  lemma GreatestExists(s: set<nat>)
    requires s != {}
    ensures exists m :: m in s && forall x | x in s :: x <= m
  {
    var m := Greatest(s);
    assert m in s && forall x | x in s :: x <= m;
  }
}
