/** A Python dict built by assigning `d[k] = v` for a sequence of pairs in
    order: a later assignment to the same key overwrites the earlier one. */
module Dicts {

  /** No later pair assigns the key of pair `i`. */
  predicate LastAssigned<K(==), V>(pairs: seq<(K, V)>, i: int)
    requires 0 <= i < |pairs|
  {
    forall j :: i < j < |pairs| ==> pairs[j].0 != pairs[i].0
  }

  predicate DistinctKeys<K(==), V>(pairs: seq<(K, V)>)
  {
    forall i, j :: 0 <= i < j < |pairs| ==> pairs[i].0 != pairs[j].0
  }

  function Assign<K, V>(pairs: seq<(K, V)>): map<K, V>
  {
    if pairs == [] then map[]
    else
      var last := pairs[|pairs| - 1];
      Assign(pairs[..|pairs| - 1])[last.0 := last.1]
  }

  /** The keys are exactly the assigned ones, and each key holds the value
      of its last assignment. */
  lemma {:induction false} AssignContents<K(!new), V>(pairs: seq<(K, V)>)
    ensures forall k :: k in Assign(pairs) <==> exists i :: 0 <= i < |pairs| && pairs[i].0 == k
    ensures forall i :: 0 <= i < |pairs| && LastAssigned(pairs, i) ==> Assign(pairs)[pairs[i].0] == pairs[i].1
  {
    if pairs != [] {
      var init := pairs[..|pairs| - 1];
      AssignContents(init);
      assert forall i :: 0 <= i < |init| ==> init[i] == pairs[i];
    }
  }

  /** One more assignment updates the dict built so far. */
  lemma AssignSnoc<K, V>(pairs: seq<(K, V)>, k: K, v: V)
    ensures Assign(pairs + [(k, v)]) == Assign(pairs)[k := v]
  {
    assert (pairs + [(k, v)])[..|pairs|] == pairs;
  }

  /** A dict never has more entries than assignments were made. */
  lemma {:induction false} AssignSize<K, V>(pairs: seq<(K, V)>)
    ensures |Assign(pairs)| <= |pairs|
  {
    if pairs != [] {
      var init := pairs[..|pairs| - 1];
      var last := pairs[|pairs| - 1];
      AssignSize(init);
      var m0 := Assign(init);
      assert Assign(pairs).Keys == m0.Keys + {last.0};
      assert |m0.Keys + {last.0}| <= |m0.Keys| + |{last.0}|;
    }
  }

  /** With distinct keys nothing is overwritten: one entry per pair, each
      holding its pair's value. */
  lemma {:induction false} AssignDistinct<K(!new), V>(pairs: seq<(K, V)>)
    requires DistinctKeys(pairs)
    ensures |Assign(pairs)| == |pairs|
    ensures forall i :: 0 <= i < |pairs| ==> pairs[i].0 in Assign(pairs) && Assign(pairs)[pairs[i].0] == pairs[i].1
  {
    if pairs != [] {
      var init := pairs[..|pairs| - 1];
      assert DistinctKeys(init);
      AssignDistinct(init);
      AssignContents(init);
      AssignContents(pairs);
      assert pairs[|pairs| - 1].0 !in Assign(init);
      assert forall i :: 0 <= i < |pairs| ==> LastAssigned(pairs, i);
    }
  }
}
