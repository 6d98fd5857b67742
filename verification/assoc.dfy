/**
 Building a map by assigning its entries one after the other, as both the
 reverse stroke table (one assignment per table entry, keyed by character) and
 the conversion script (one assignment per line, keyed by sequence) do. A later assignment to the same
 key overwrites the earlier one.
 */
module Assoc {

  /** The map left by starting from an empty map and assigning `m[k] := v` for every entry, in order. */
  function Assign<K(==), V>(entries: seq<(K, V)>): (m: map<K, V>)
    // every assigned key is present ...
    ensures forall i :: 0 <= i < |entries| ==> entries[i].0 in m
    // ... and nothing else is: each binding comes from some entry
    ensures forall k :: k in m ==> exists i :: 0 <= i < |entries| && entries[i] == (k, m[k])
    decreases |entries|
  {
    if |entries| == 0 then map[]
    else
      var last := entries[|entries| - 1];
      Assign(entries[..|entries| - 1])[last.0 := last.1]
  }

  /** Last writer wins: a key is bound to the value of the last entry that names it. */
  lemma {:induction false} LastWriterWins<K, V>(entries: seq<(K, V)>, i: nat)
    requires i < |entries|
    requires forall j :: i < j < |entries| ==> entries[j].0 != entries[i].0
    ensures Assign(entries)[entries[i].0] == entries[i].1
    decreases |entries|
  {
    if i < |entries| - 1 {
      var prefix := entries[..|entries| - 1];
      assert forall j :: i < j < |prefix| ==> prefix[j] == entries[j];
      LastWriterWins(prefix, i);
    }
  }

  /** When no key repeats, every entry survives unchanged. */
  lemma DistinctKeysSurvive<K, V>(entries: seq<(K, V)>, i: nat)
    requires i < |entries|
    requires forall j, k :: 0 <= j < k < |entries| ==> entries[j].0 != entries[k].0
    ensures Assign(entries)[entries[i].0] == entries[i].1
  {
    LastWriterWins(entries, i);
  }
}
