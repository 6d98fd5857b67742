/**
 The stroke table (input sequence -> character) and the reverse table the
 engine derives from it in `loadStrokeTable` (character -> input sequence).
 */
module StrokeTable {
  import Assoc

  /** A stroke table, or its reverse: both are string-keyed objects in the source. */
  type Table = map<string, string>

  /** `order` lists every key of `table` exactly once: the order in which the table's entries are enumerated. */
  predicate Enumerates(order: seq<string>, table: Table) {
    && (forall i, j :: 0 <= i < j < |order| ==> order[i] != order[j])
    && (forall s :: s in order ==> s in table)
    && (forall s :: s in table ==> s in order)
  }

  /** No two sequences produce the same character. */
  predicate Injective(table: Table) {
    forall s, t :: s in table && t in table && s != t ==> table[s] != table[t]
  }

  /** The `(char, stroke)` assignments the inversion loop performs, in enumeration order. */
  function Entries(table: Table, order: seq<string>): (es: seq<(string, string)>)
    requires forall s :: s in order ==> s in table
    ensures |es| == |order|
  {
    seq(|order|, i requires 0 <= i < |order| => (table[order[i]], order[i]))
  }

  /** The reverse table: each character bound to a sequence that produces it. */
  function Invert(table: Table, order: seq<string>): (rev: Table)
    requires forall s :: s in order ==> s in table
    // every enumerated character is covered
    ensures forall s :: s in order ==> table[s] in rev
    // and every reverse binding is genuine: the sequence really produces the character
    ensures forall c :: c in rev ==> rev[c] in order && table[rev[c]] == c
  {
    var es := Entries(table, order);
    var rev := Assoc.Assign(es);
    assert forall i :: 0 <= i < |order| ==> es[i].0 == table[order[i]];
    assert forall c :: c in rev ==> rev[c] in order && table[rev[c]] == c by {
      forall c | c in rev
        ensures rev[c] in order && table[rev[c]] == c
      {
        var i :| 0 <= i < |es| && es[i] == (c, rev[c]);
      }
    }
    rev
  }

  /** The reverse table's characters are exactly the table's values. */
  lemma InvertKeys(table: Table, order: seq<string>)
    requires Enumerates(order, table)
    ensures Invert(table, order).Keys == table.Values
  {
    var rev := Invert(table, order);
    forall c | c in table.Values
      ensures c in rev
    {
      var s :| s in table && table[s] == c;
    }
  }

  /** A character is bound to the LAST sequence, in enumeration order, that produces it. */
  lemma InvertLastWriter(table: Table, order: seq<string>, i: nat)
    requires forall s :: s in order ==> s in table
    requires i < |order|
    requires forall j :: i < j < |order| ==> table[order[j]] != table[order[i]]
    ensures Invert(table, order)[table[order[i]]] == order[i]
  {
    var es := Entries(table, order);
    assert forall j :: i < j < |es| ==> es[j].0 != es[i].0;
    Assoc.LastWriterWins(es, i);
  }

  /** Every character takes the sequence enumerated last among those producing it. */
  lemma InvertLastWriters(table: Table, order: seq<string>)
    requires forall s :: s in order ==> s in table
    ensures forall i :: 0 <= i < |order| && (forall j :: i < j < |order| ==> table[order[j]] != table[order[i]]) ==>
              Invert(table, order)[table[order[i]]] == order[i]
  {
    forall i | 0 <= i < |order| && (forall j :: i < j < |order| ==> table[order[j]] != table[order[i]])
      ensures Invert(table, order)[table[order[i]]] == order[i]
    {
      InvertLastWriter(table, order, i);
    }
  }

  /** For an injective table, looking up the reverse of `table[s]` gives back `s`, whatever the enumeration order. */
  lemma InvertRoundTrip(table: Table, order: seq<string>, s: string)
    requires Enumerates(order, table)
    requires Injective(table)
    requires s in table
    ensures table[s] in Invert(table, order)
    ensures Invert(table, order)[table[s]] == s
  {
  }
}
