/**
 Tables built by writing key/value pairs one after another into an empty
 map, as a `forEach` over object entries does.
 */
module Tables {

  /** No later pair has the same key as pair `i`. */
  predicate LastFor<K(==), H>(pairs: seq<(K, H)>, i: nat)
    requires i < |pairs|
  {
    forall j :: i < j < |pairs| ==> pairs[j].0 != pairs[i].0
  }

  /** The keys of a list of pairs. */
  function KeysOf<K(==), H>(pairs: seq<(K, H)>): (ks: set<K>)
    ensures forall i :: 0 <= i < |pairs| ==> pairs[i].0 in ks
    ensures forall k :: k in ks ==> exists i :: 0 <= i < |pairs| && pairs[i].0 == k
  {
    if |pairs| == 0 then {}
    else
      var n := |pairs| - 1;
      var ks := KeysOf(pairs[..n]);
      assert forall i :: 0 <= i < n ==> pairs[..n][i] == pairs[i];
      ks + {pairs[n].0}
  }

  /** Writes every pair, in order, into an empty table; its keys are exactly the pairs' keys. */
  function Install<K(==), H>(pairs: seq<(K, H)>): (t: map<K, H>)
    ensures t.Keys == KeysOf(pairs)
  {
    if |pairs| == 0 then map[]
    else
      var n := |pairs| - 1;
      Install(pairs[..n])[pairs[n].0 := pairs[n].1]
  }

  /** Where several pairs share a key, the table holds the last one's value. */
  lemma {:induction false} InstallLastWins<K, H>(pairs: seq<(K, H)>, i: nat)
    requires i < |pairs| && LastFor(pairs, i)
    ensures Install(pairs)[pairs[i].0] == pairs[i].1
  {
    var n := |pairs| - 1;
    if i < n {
      var prefix := pairs[..n];
      var t := Install(prefix);
      assert Install(pairs) == t[pairs[n].0 := pairs[n].1];
      assert prefix[i] == pairs[i];
      forall j | i < j < n
        ensures prefix[j].0 != prefix[i].0
      {
        assert prefix[j] == pairs[j];
      }
      InstallLastWins(prefix, i);
      assert pairs[n].0 != pairs[i].0;
    }
  }


}
