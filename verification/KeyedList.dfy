/**
 The singly linked lists of `src/mainloop.c`.  Watches, timeouts and children are kept in three lists with the
 same operations: add at the head unless the key is there, and unlink the first node with a key.
 */
module KeyedList {
  import opened Entries

  function Add<K(==), V>(es: seq<Entry<K, V>>, e: Entry<K, V>): seq<Entry<K, V>> {
    if Has(es, e.key) then es else [e] + es
  }

  class Node<K, V> {
    const entry: Entry<K, V>
    var next: Node?<K, V>

    constructor (entry: Entry<K, V>, next: Node?<K, V>)
      ensures this.entry == entry && this.next == next
    {
      this.entry := entry;
      this.next := next;
    }
  }

  /** What a chain of nodes holds; a node's entry never changes. */
  function EntriesOf<K, V>(nodes: seq<Node<K, V>>): seq<Entry<K, V>> {
    seq(|nodes|, i requires 0 <= i < |nodes| => nodes[i].entry)
  }

  class List<K(==), V> {
    var head: Node?<K, V>
    ghost var spine: seq<Node<K, V>>  // the chain
    ghost var repr: set<Node<K, V>>   // the chain's nodes, and perhaps nodes unlinked from it

    ghost predicate Valid()
      reads this, repr
    {
      && (forall i :: 0 <= i < |spine| ==> spine[i] in repr)
      && head == At(0)
      && (forall i :: 0 <= i < |spine| ==> spine[i].next == At(i + 1))
      && (forall i, j :: 0 <= i < j < |spine| ==> spine[i] != spine[j])
    }

    /** The node at a place of the chain, NULL behind the last one. */
    ghost function At(i: nat): Node?<K, V>
      reads this
    {
      if i < |spine| then spine[i] else null
    }

    ghost function Entries(): seq<Entry<K, V>>
      reads this
    {
      EntriesOf(spine)
    }

    constructor ()
      ensures Valid() && Entries() == [] && repr == {}
    {
      head, spine, repr := null, [], {};
    }

    method Contains(key: K) returns (found: bool)
      requires Valid()
      ensures found <==> Has(Entries(), key)
    {
      var l := head;
      ghost var i := 0;
      while l != null
        invariant i <= |spine| && l == At(i)
        invariant forall j :: 0 <= j < i ==> spine[j].entry.key != key
        decreases |spine| - i
      {
        if l.entry.key == key {
          FindIs(Entries(), key, i);
          return true;
        }
        l := l.next;
        i := i + 1;
      }
      FindIs(Entries(), key, i);
      return false;
    }

    /** Pushes a new head unless the key is there; the chain behind it stays as it is. */
    method Insert(e: Entry<K, V>)
      requires Valid()
      modifies this
      ensures Valid() && Entries() == Add(old(Entries()), e)
      ensures spine == old(spine) || (|spine| > 0 && spine[1..] == old(spine))
      ensures fresh(repr - old(repr))
    {
      var found := Contains(e.key);
      if !found {
        head := new Node(e, head);
        spine, repr := [head] + spine, repr + {head};
      }
    }

    /** Takes node `l` out of the chain behind `pred`, NULL for the head. */
    method Skip(pred: Node?<K, V>, l: Node<K, V>, ghost i: nat)
      requires Valid() && i < |spine| && l == spine[i]
      requires pred == if i == 0 then null else spine[i - 1]
      modifies this, pred
      ensures Valid() && spine == old(spine)[..i] + old(spine)[i + 1..] && repr == old(repr)
    {
      ghost var was := spine;
      if pred == null {
        head := l.next;
      } else {
        pred.next := l.next;
      }
      spine := spine[..i] + spine[i + 1..];
      assert forall j :: 0 <= j < |spine| ==> spine[j] == was[if j < i then j else j + 1];
    }

    /** The first node with the key and the node before it; both may be NULL. */
    method Locate(key: K) returns (l: Node?<K, V>, pred: Node?<K, V>, ghost i: nat)
      requires Valid()
      ensures i == Find(Entries(), key) && i <= |spine| && l == At(i) && pred == if i == 0 then null else spine[i - 1]
    {
      l, pred, i := head, null, 0;
      while l != null
        invariant i <= |spine| && l == At(i) && pred == if i == 0 then null else spine[i - 1]
        invariant forall j :: 0 <= j < i ==> spine[j].entry.key != key
        decreases |spine| - i
      {
        if l.entry.key == key {
          break;
        }
        pred := l;
        l := l.next;
        i := i + 1;
      }
      FindIs(Entries(), key, i);
    }

    /** Unlinks the first node with the key, if there is one. */
    method Unlink(key: K)
      requires Valid()
      modifies this, repr
      ensures Valid() && Entries() == Drop(old(Entries()), key)
      ensures spine == var i := Find(old(Entries()), key);
                       if i < |old(spine)| then old(spine)[..i] + old(spine)[i + 1..] else old(spine)
      ensures repr == old(repr)
    {
      var l, pred, i := Locate(key);
      if l != null {
        Skip(pred, l, i);
      }
    }
  }
}
