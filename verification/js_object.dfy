/**
 * Building a keyed table from a list of entries, as both `Object.fromEntries`
 * and the `Map` constructor do: every key of the list is present, and when a
 * key repeats, the last entry carrying it wins.
 */
module JsObject {

  /** Some entry of `entries` carries key `k`. */
  ghost predicate HasKey<K, V>(entries: seq<(K, V)>, k: K) {
    exists i :: 0 <= i < |entries| && entries[i].0 == k
  }

  /** Index `i` holds the last entry of `entries` whose key is `entries[i].0`. */
  ghost predicate LastWithKey<K, V>(entries: seq<(K, V)>, i: int) {
    0 <= i < |entries| && forall j :: i < j < |entries| ==> entries[j].0 != entries[i].0
  }

  /** `m` is the table `entries` describes: exactly their keys, each with its last value. */
  ghost predicate Describes<K(!new), V>(m: map<K, V>, entries: seq<(K, V)>) {
    && (forall k :: k in m <==> HasKey(entries, k))
    && (forall i :: LastWithKey(entries, i) ==> entries[i].0 in m && m[entries[i].0] == entries[i].1)
  }

  /** `Object.fromEntries(entries)` / `new Map(entries)`. */
  function FromEntries<K(==, !new), V>(entries: seq<(K, V)>): (m: map<K, V>)
    ensures forall k :: k in m <==> HasKey(entries, k)
    ensures forall i :: LastWithKey(entries, i) ==> entries[i].0 in m && m[entries[i].0] == entries[i].1
  {
    if entries == [] then map[]
    else
      var m := FromEntries(entries[..|entries| - 1]);
      FromEntriesStep(entries, m);
      m[entries[|entries| - 1].0 := entries[|entries| - 1].1]
  }

  /** Adding the last entry on top of the table of all earlier ones gives the table of the whole list. */
  lemma FromEntriesStep<K(!new), V>(entries: seq<(K, V)>, m: map<K, V>)
    requires entries != []
    requires Describes(m, entries[..|entries| - 1])
    ensures Describes(m[entries[|entries| - 1].0 := entries[|entries| - 1].1], entries)
  {
    var n := |entries| - 1;
    var prefix := entries[..n];
    var m' := m[entries[n].0 := entries[n].1];
    forall k
      ensures k in m' <==> HasKey(entries, k)
    {
      if HasKey(entries, k) && k != entries[n].0 {
        var i :| 0 <= i < |entries| && entries[i].0 == k;
        assert prefix[i].0 == k;
      }
      if HasKey(prefix, k) {
        var i :| 0 <= i < |prefix| && prefix[i].0 == k;
        assert entries[i].0 == k;
      }
    }
    forall i | LastWithKey(entries, i)
      ensures entries[i].0 in m' && m'[entries[i].0] == entries[i].1
    {
      if i < n {
        assert prefix[i] == entries[i];
        assert LastWithKey(prefix, i);
      }
    }
  }

  /** A key's value comes from some entry carrying that key. */
  lemma FromEntriesValueOrigin<K(!new), V>(entries: seq<(K, V)>, k: K)
    requires k in FromEntries(entries)
    ensures exists i :: 0 <= i < |entries| && entries[i] == (k, FromEntries(entries)[k])
  {
    var i :| 0 <= i < |entries| && entries[i].0 == k;
    while !LastWithKey(entries, i)
      invariant 0 <= i < |entries| && entries[i].0 == k
      decreases |entries| - i
    {
      var j :| i < j < |entries| && entries[j].0 == k;
      i := j;
    }
  }

  /** The table holds exactly the keys of the pairs, each with the value of one of those pairs. */
  lemma FromEntriesPairs<K(!new), V(!new)>(entries: seq<(K, V)>)
    ensures forall k :: k in FromEntries(entries) <==> exists v :: (k, v) in entries
    ensures forall k :: k in FromEntries(entries) ==> (k, FromEntries(entries)[k]) in entries
  {
    var m := FromEntries(entries);
    forall k | k in m
      ensures (k, m[k]) in entries
    {
      FromEntriesValueOrigin(entries, k);
    }
    forall k, v | (k, v) in entries
      ensures k in m
    {
      var i :| 0 <= i < |entries| && entries[i] == (k, v);
      assert HasKey(entries, k);
    }
  }
}
