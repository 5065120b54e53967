/** Small facts about how many. */
module Counting {

  function Unit(b: bool): nat {
    if b then 1 else 0
  }

  lemma {:induction false} SubsetIsNoLarger<T>(a: set<T>, b: set<T>)
    requires a <= b
    ensures |a| <= |b|
  {
    if a != {} {
      var x :| x in a;
      SubsetIsNoLarger(a - {x}, b - {x});
    }
  }

  lemma SameSize<T>(a: set<T>, b: set<T>)
    requires a <= b && |a| == |b|
    ensures a == b
  {
    assert b == a + (b - a);
  }

  /** Distinct values of a map are no more than its keys. */
  lemma {:induction false} ValuesAreFew<K, T>(m: map<K, T>, values: set<T>)
    requires values <= m.Values
    ensures |values| <= |m|
    decreases |m|
  {
    if values != {} {
      var v :| v in values;
      var k :| k in m && m[k] == v;
      var rest := m - {k};
      forall u | u in values - {v}
        ensures u in rest.Values
      {
        var j :| j in m && m[j] == u;
        assert j in rest && rest[j] == u;
      }
      ValuesAreFew(rest, values - {v});
    }
  }
}
