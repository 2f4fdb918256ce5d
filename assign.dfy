/** Filling a dictionary from a sequence of key/value pairs, as Python's
    `d[k] = v` does in a loop: later pairs overwrite earlier ones. */
module Assign {

  /** `m` after assigning each pair of `kvs`, in order. */
  function AssignAll<K, V>(m: map<K, V>, kvs: seq<(K, V)>): map<K, V>
    decreases |kvs|
  {
    if kvs == [] then m
    else AssignAll(m, kvs[..|kvs| - 1])[kvs[|kvs| - 1].0 := kvs[|kvs| - 1].1]
  }

  /** The keys mentioned by `kvs`. */
  ghost function KeysOf<K, V>(kvs: seq<(K, V)>): set<K>
  {
    set i | 0 <= i < |kvs| :: kvs[i].0
  }

  /** The keys afterwards are the old keys and the assigned ones, no others. */
  lemma {:induction false} AssignAllKeys<K, V>(m: map<K, V>, kvs: seq<(K, V)>)
    ensures AssignAll(m, kvs).Keys == m.Keys + KeysOf(kvs)
    decreases |kvs|
  {
    if kvs != [] {
      var init := kvs[..|kvs| - 1];
      AssignAllKeys(m, init);
      assert KeysOf(kvs) == KeysOf(init) + {kvs[|kvs| - 1].0} by {
        forall k | k in KeysOf(kvs) ensures k in KeysOf(init) + {kvs[|kvs| - 1].0} {
          var i :| 0 <= i < |kvs| && kvs[i].0 == k;
          if i < |kvs| - 1 {
            assert init[i] == kvs[i];
          }
        }
        forall k | k in KeysOf(init) ensures k in KeysOf(kvs) {
          var i :| 0 <= i < |init| && init[i].0 == k;
          assert kvs[i] == init[i];
        }
      }
    }
  }

  /** The last pair for a key decides its value: the last write wins. */
  lemma {:induction false} AssignAllLastWins<K, V>(m: map<K, V>, kvs: seq<(K, V)>, i: int)
    requires 0 <= i < |kvs|
    requires forall j :: i < j < |kvs| ==> kvs[j].0 != kvs[i].0
    ensures kvs[i].0 in AssignAll(m, kvs) && AssignAll(m, kvs)[kvs[i].0] == kvs[i].1
    decreases |kvs|
  {
    if i < |kvs| - 1 {
      var init := kvs[..|kvs| - 1];
      assert init[i] == kvs[i];
      AssignAllLastWins(m, init, i);
    }
  }

  /** A key no pair mentions keeps its old entry, or stays absent. */
  lemma {:induction false} AssignAllElsewhere<K, V>(m: map<K, V>, kvs: seq<(K, V)>, k: K)
    requires forall j :: 0 <= j < |kvs| ==> kvs[j].0 != k
    ensures k in AssignAll(m, kvs) <==> k in m
    ensures k in m ==> AssignAll(m, kvs)[k] == m[k]
    decreases |kvs|
  {
    if kvs != [] {
      AssignAllElsewhere(m, kvs[..|kvs| - 1], k);
    }
  }
}
