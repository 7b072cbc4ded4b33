/** Facts about finite sets. */
module Sets {

  /** A non-empty set has a member. */
  lemma MemberOfNonEmpty<T>(s: set<T>)
    ensures s != {} ==> exists x :: x in s
  {
    if forall x :: x !in s {
      assert s == {};
    }
  }

  /** Picks a member of a non-empty set. */
  lemma SomeMember<T>(s: set<T>) returns (x: T)
    requires s != {}
    ensures x in s
  {
    MemberOfNonEmpty(s);
    x :| x in s;
  }

  /** Every non-empty finite set of integers has a greatest element. */
  lemma {:induction false} MaxExists(s: set<int>)
    requires s != {}
    ensures exists m :: m in s && forall t | t in s :: t <= m
    decreases |s|
  {
    var x := SomeMember(s);
    var rest := s - {x};
    if rest == {} {
      assert forall t | t in s :: t <= x by {
        forall t | t in s ensures t <= x { assert t == x || t in rest; }
      }
      assert x in s;
    } else {
      assert |rest| < |s|;
      MaxExists(rest);
      var m :| m in rest && forall t | t in rest :: t <= m;
      var top := if x <= m then m else x;
      assert forall t | t in s :: t <= top by {
        forall t | t in s ensures t <= top { assert t == x || t in rest; }
      }
      assert top in s;
    }
  }
}
