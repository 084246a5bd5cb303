/** Orders in which threads have done something once each. */
module Histories {

  type Tid = nat

  predicate Precedes(hist: seq<Tid>, t: Tid, u: Tid)
  {
    exists i, j :: 0 <= i < j < |hist| && hist[i] == t && hist[j] == u
  }

  lemma LaterEntries(hist: seq<Tid>, hist': seq<Tid>, t: Tid, u: Tid)
    requires hist <= hist' && t in hist && u !in hist && u in hist'
    ensures Precedes(hist', t, u)
  {
    var i :| 0 <= i < |hist| && hist[i] == t;
    var j :| 0 <= j < |hist'| && hist'[j] == u;
    assert hist'[i] == t;
    forall k | 0 <= k < |hist| ensures hist'[k] != u {
      assert hist[k] in hist;
    }
  }
}
