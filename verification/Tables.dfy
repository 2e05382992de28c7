/**
 One level of the registry of `src/oddjob_dbus.c`: an array of named slots that grows at its end
 and closes up when a slot is removed.  The four levels differ only in what a slot holds.
 */
module Tables {
  import opened CStrings
  import opened Entries
  import Arrays

  type Table<V> = seq<Entry<string, V>>

  /** The lookup loop that every operation repeats at every level. */
  method Search<V>(t: Table<V>, name: string) returns (i: nat)
    ensures i == Find(t, name)
  {
    i := 0;
    while i < |t|
      invariant i <= |t| && FindFrom(t, name, i) == Find(t, name)
    {
      if t[i].key == name {
        return;
      }
      i := i + 1;
    }
  }

  function Get<V>(t: Table<V>, name: string): Option<V> {
    if Has(t, name) then Some(t[Find(t, name)].val) else None
  }

  function GetOr<V>(t: Table<V>, name: string, default: V): V { Get(t, name).GetOr(default) }

  function Put<V>(t: Table<V>, name: string, v: V): Table<V> {
    if Has(t, name) then t[Find(t, name) := Entry(name, v)] else t + [Entry(name, v)]
  }

  /** An emptied inner table takes its slot away with it. */
  function PutOrDrop<W>(t: Table<Table<W>>, name: string, inner: Table<W>): Table<Table<W>> {
    if inner == [] then Drop(t, name) else Put(t, name, inner)
  }

  /** Distinct names, within the resizer's limit, and every slot's value as it should be. */
  ghost predicate Sound<V>(t: Table<V>, sub: V -> bool) {
    Distinct(t) && |t| <= Arrays.LIMIT && forall i :: 0 <= i < |t| ==> sub(t[i].val)
  }

  /** There is no slot of that name and no room for one. */
  predicate Full<V>(t: Table<V>, name: string) { !Has(t, name) && |t| >= Arrays.LIMIT }

  lemma GetOfPut<V>(t: Table<V>, name: string, v: V, other: string)
    ensures Get(Put(t, name, v), other) == if other == name then Some(v) else Get(t, other)
  {
    var r := Put(t, name, v);
    if other == name {
      FindIs(r, name, Find(t, name));
    } else if Has(t, other) {
      FindIs(r, other, Find(t, other));
    } else {
      FindIs(r, other, |r|);
    }
  }

  lemma GetOfDrop<V>(t: Table<V>, name: string, other: string)
    requires Distinct(t)
    ensures Get(Drop(t, name), other) == if other == name then None else Get(t, other)
  {
    var i, r := Find(t, name), Drop(t, name);
    if i < |t| {
      assert forall j :: 0 <= j < |r| ==> r[j] == t[if j < i then j else j + 1];
      if other == name || !Has(t, other) {
        FindIs(r, other, |r|);
      } else {
        var k := Find(t, other);
        FindIs(r, other, if k < i then k else k - 1);
      }
    }
  }

  lemma SoundPut<V>(t: Table<V>, name: string, v: V, sub: V -> bool)
    requires Sound(t, sub) && sub(v) && !Full(t, name)
    ensures Sound(Put(t, name, v), sub) && Put(t, name, v) != []
  {
  }

  lemma SoundDrop<V>(t: Table<V>, name: string, sub: V -> bool)
    requires Sound(t, sub)
    ensures Sound(Drop(t, name), sub)
  {
  }

  /** Storing what is there already changes nothing. */
  lemma PutSame<V>(t: Table<V>, name: string)
    requires Has(t, name)
    ensures Put(t, name, Get(t, name).value) == t
  {
  }

  lemma PutTwice<V>(t: Table<V>, name: string, v: V, w: V)
    ensures Put(Put(t, name, v), name, w) == Put(t, name, w)
  {
    FindIs(Put(t, name, v), name, Find(t, name));
  }

  /** Dropping the slot that was added last closes the array up again as it was. */
  lemma DropOfNew<V>(t: Table<V>, name: string, v: V)
    requires !Has(t, name)
    ensures Drop(Put(t, name, v), name) == t
  {
    FindIs(Put(t, name, v), name, |t|);
  }

  /** The lookup that creates what it does not find; `ok` is false when the process exits. */
  method Slot<V>(t: Table<V>, name: string, empty: V) returns (ok: bool, r: Table<V>, i: nat)
    ensures ok <==> !Full(t, name)
    ensures ok ==> i < |r| && r[i] == Entry(name, GetOr(t, name, empty))
    ensures ok ==> forall v :: r[i := Entry(name, v)] == Put(t, name, v)
  {
    i := Search(t, name);
    r := t;
    if i >= |t| {
      if i + 1 > Arrays.LIMIT {
        return false, t, i;
      }
      r := Arrays.Resized(t, |t|, i + 1, Entry("", empty));
      r := r[i := Entry(name, empty)];
      assert r == t + [Entry(name, empty)];
    }
    ok := true;
  }

  /** `memmove` over slot `i`, then a resize to one slot less. */
  method CloseUp<V>(t: Table<V>, i: nat) returns (r: Table<V>)
    requires i < |t| <= Arrays.LIMIT
    ensures r == t[..i] + t[i + 1..]
  {
    if |t| > 1 {
      r := t[..i] + t[i + 1..] + t[|t| - 1..];
      r := Arrays.Resized(r, |t|, |t| - 1, t[0]);
    } else {
      r := Arrays.Resized(t, |t|, 0, t[0]);
    }
  }
}
