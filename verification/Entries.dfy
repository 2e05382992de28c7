/** Sequences of keyed entries: the arrays of named slots and the linked lists hold these. */
module Entries {

  datatype Entry<K, V> = Entry(key: K, val: V)

  /** The first entry with that key, or |es|. */
  function Find<K(==), V>(es: seq<Entry<K, V>>, key: K): (i: nat)
    ensures i <= |es|
    ensures i < |es| ==> es[i].key == key
    ensures forall j :: 0 <= j < i ==> es[j].key != key
  {
    FindFrom(es, key, 0)
  }

  function FindFrom<K(==), V>(es: seq<Entry<K, V>>, key: K, from: nat): (i: nat)
    requires from <= |es|
    ensures from <= i <= |es|
    ensures i < |es| ==> es[i].key == key
    ensures forall j :: from <= j < i ==> es[j].key != key
    decreases |es| - from
  {
    if from == |es| || es[from].key == key then from else FindFrom(es, key, from + 1)
  }

  predicate Has<K(==), V>(es: seq<Entry<K, V>>, key: K) { Find(es, key) < |es| }

  /** Without the first entry that has the key. */
  function Drop<K(==), V>(es: seq<Entry<K, V>>, key: K): seq<Entry<K, V>> {
    if Has(es, key) then es[..Find(es, key)] + es[Find(es, key) + 1..] else es
  }

  ghost predicate Distinct<K, V>(es: seq<Entry<K, V>>) {
    forall i, j :: 0 <= i < j < |es| ==> es[i].key != es[j].key
  }

  lemma FindIs<K, V>(es: seq<Entry<K, V>>, key: K, i: nat)
    requires i <= |es|
    requires i < |es| ==> es[i].key == key
    requires forall j :: 0 <= j < i ==> es[j].key != key
    ensures Find(es, key) == i
  {
  }

  lemma DropKeepsDistinct<K, V>(es: seq<Entry<K, V>>, key: K)
    requires Distinct(es)
    ensures Distinct(Drop(es, key))
  {
  }
}
