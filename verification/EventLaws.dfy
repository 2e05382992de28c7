/** What one turn of the event loop promises, whatever its callbacks push. */
module EventLaws {
  import opened CStrings
  import opened Entries
  import opened KeyedList
  import opened EventLoop

  /** The entries that are not unlinked, in their order. */
  function Kept<K, V, C>(es: seq<Entry<K, V>>, react: Reactions<K, V, C>): seq<Entry<K, V>> {
    if es == [] then []
    else (if react(es[0]).Ran? && react(es[0]).done then [] else [es[0]]) + Kept(es[1..], react)
  }

  lemma AddAllPushes<K(!new), V(!new)>(es: seq<Entry<K, V>>, adds: seq<Entry<K, V>>) returns (news: seq<Entry<K, V>>)
    ensures AddAll(es, adds) == news + es
    ensures forall n :: n in news ==> n in adds
    decreases |adds|
  {
    if adds == [] {
      news := [];
    } else {
      news := AddAllPushes(Add(es, adds[0]), adds[1..]);
      if !Has(es, adds[0].key) {
        assert news + ([adds[0]] + es) == (news + [adds[0]]) + es;
        news := news + [adds[0]];
      }
    }
  }

  /** Unlinking by its key takes out the entry in the middle and nothing else. */
  lemma MiddleOut<K(!new), V(!new)>(news: seq<Entry<K, V>>, front: seq<Entry<K, V>>, e: Entry<K, V>,
                                    rest: seq<Entry<K, V>>)
    requires Distinct(news + (front + [e] + rest))
    ensures Drop(news + (front + [e] + rest), e.key) == (news + front + []) + rest
    ensures news + (front + [e] + rest) == (news + front + [e]) + rest
  {
    var all, k := news + (front + [e] + rest), |news| + |front|;
    assert all == (news + front) + [e] + rest;
    FindIs(all, e.key, k);
  }

  /** Serving the node behind `front` leaves it there or takes exactly it away, behind whatever was pushed. */
  lemma ReactInPlace<K(!new), V(!new), C>(front: seq<Entry<K, V>>, e: Entry<K, V>, rest: seq<Entry<K, V>>,
                                       r: Reaction<K, V, C>)
    returns (news: seq<Entry<K, V>>)
    requires Distinct(front + [e] + rest)
    ensures React(front + [e] + rest, e.key, r) == (news + front + (if r.Ran? && r.done then [] else [e])) + rest
    ensures Distinct(React(front + [e] + rest, e.key, r))
    ensures news != [] ==> r.Ran? && forall n :: n in news ==> n in r.adds
  {
    var es := front + [e] + rest;
    news := [];
    if r.Ran? {
      news := AddAllPushes(es, r.adds);
      AddAllKeepsDistinct(es, r.adds);
      hide Distinct;
      DropKeepsDistinct(AddAll(es, r.adds), e.key);
      MiddleOut(news, front, e, rest);
    } else {
      assert es == ([] + front + [e]) + rest;
    }
  }

  /** Some callback of the walk pushed the entry. */
  ghost predicate Pushed<K(!new), V(!new), C>(n: Entry<K, V>, es: seq<Entry<K, V>>, react: Reactions<K, V, C>) {
    exists e :: e in es && react(e).Ran? && n in react(e).adds
  }

  /**
   A whole walk: entries pushed meanwhile come first, and of those that were there at its start exactly the finished
   ones are gone, the others still in their order.  Keys stay unique.
   */
  lemma {:induction false} WalkKeepsTheOthers<K(!new), V(!new), C>(front: seq<Entry<K, V>>, pending: seq<Entry<K, V>>,
                                                    react: Reactions<K, V, C>)
    returns (news: seq<Entry<K, V>>)
    requires Distinct(front + pending)
    ensures Serve(pending, front + pending, react) == news + front + Kept(pending, react)
    ensures Distinct(Serve(pending, front + pending, react))
    ensures forall n :: n in news ==> Pushed(n, pending, react)
    decreases |pending|
  {
    if pending == [] {
      news := [];
      assert front + pending == [] + front + [];
    } else {
      var e, rest := pending[0], pending[1..];
      var stays := if react(e).Ran? && react(e).done then [] else [e];
      assert front + pending == front + [e] + rest;
      var pushed := ReactInPlace(front, e, rest, react(e));
      var later := WalkKeepsTheOthers(pushed + front + stays, rest, react);
      news := later + pushed;
      PushedByAny(later, pushed, pending, react);
      Regroup(later, pushed, front, stays, Kept(rest, react));
    }
  }

  lemma Regroup<T>(later: seq<T>, pushed: seq<T>, front: seq<T>, stays: seq<T>, kept: seq<T>)
    ensures later + (pushed + front + stays) + kept == (later + pushed) + front + (stays + kept)
  {
  }

  lemma PushedByAny<K(!new), V(!new), C>(later: seq<Entry<K, V>>, pushed: seq<Entry<K, V>>, pending: seq<Entry<K, V>>,
                                      react: Reactions<K, V, C>)
    requires pending != []
    requires pushed != [] ==> react(pending[0]).Ran? && forall n :: n in pushed ==> n in react(pending[0]).adds
    requires forall n :: n in later ==> Pushed(n, pending[1..], react)
    ensures forall n :: n in later + pushed ==> Pushed(n, pending, react)
  {
  }

  /** One pass over the program's own watches, or over the children. */
  lemma PassKeepsTheOthers<K(!new), V(!new), C>(es: seq<Entry<K, V>>, react: Reactions<K, V, C>)
    returns (news: seq<Entry<K, V>>)
    requires Distinct(es)
    ensures Serve(es, es, react) == news + Kept(es, react) && Distinct(Serve(es, es, react))
    ensures forall n :: n in news ==> Pushed(n, es, react)
  {
    assert [] + es == es;
    news := WalkKeepsTheOthers([], es, react);
    assert news + [] == news;
  }

  /** The entries whose callback is due, in order. */
  function Due<K, V, C>(es: seq<Entry<K, V>>, react: Reactions<K, V, C>): seq<Entry<K, V>> {
    if es == [] then [] else (if react(es[0]).Ran? then [es[0]] else []) + Due(es[1..], react)
  }

  /** Every entry there at the start whose callback is due is served once and no other one is. */
  lemma {:induction false} FiredExactlyOnce<K(!new), V(!new), C>(es: seq<Entry<K, V>>, react: Reactions<K, V, C>)
    requires Distinct(es)
    ensures Distinct(Due(es, react))
    ensures forall e :: e in Due(es, react) <==> e in es && react(e).Ran?
  {
    if es != [] {
      FiredExactlyOnce(es[1..], react);
      var rest := Due(es[1..], react);
      forall i | 0 <= i < |rest| ensures rest[i].key != es[0].key {
        assert rest[i] in rest;
        var j :| 0 <= j < |es[1..]| && es[1..][j] == rest[i];
        assert es[j + 1] == rest[i];
      }
    }
  }

  /** The log holds their calls, in their order. */
  lemma {:induction false} FiredAreDue<K, V, C>(es: seq<Entry<K, V>>, react: Reactions<K, V, C>)
    ensures |Fired(es, react)| == |Due(es, react)|
    ensures forall i :: 0 <= i < |Due(es, react)| ==>
                        var r := react(Due(es, react)[i]); r.Ran? && Fired(es, react)[i] == r.call
  {
    if es != [] {
      FiredAreDue(es[1..], react);
    }
  }

  lemma HasAfterAdds<K, V>(es: seq<Entry<K, V>>, adds: seq<Entry<K, V>>, key: K)
    ensures Has(AddAll(es, adds), key) <==> Has(es, key) || exists n :: n in adds && n.key == key
    decreases |adds|
  {
    if adds != [] {
      var more := Add(es, adds[0]);
      HasAfterAdds(more, adds[1..], key);
      assert Has(more, key) <==> Has(es, key) || adds[0].key == key by {
        HasAdded(es, adds[0], key);
      }
      assert adds == [adds[0]] + adds[1..];
    }
  }

  lemma HasAdded<K, V>(es: seq<Entry<K, V>>, e: Entry<K, V>, key: K)
    ensures Has(Add(es, e), key) <==> Has(es, key) || e.key == key
  {
    if Has(es, key) {
      assert ([e] + es)[Find(es, key) + 1].key == key;
    }
  }

  lemma HasAfterDrop<K, V>(es: seq<Entry<K, V>>, gone: K, key: K)
    requires key != gone
    ensures Has(Drop(es, gone), key) <==> Has(es, key)
  {
    var i, k, r := Find(es, gone), Find(es, key), Drop(es, gone);
    if i < |es| {
      assert forall j :: 0 <= j < |r| ==> r[j] == es[if j < i then j else j + 1];
      if k < |es| {
        assert r[if k < i then k else k - 1].key == key;
      }
    }
  }

  /** What a callback of the walk pushes is there at its end, unless its key was there when the walk began. */
  lemma {:induction false} WalkKeepsThePushed<K, V, C>(pending: seq<Entry<K, V>>, es: seq<Entry<K, V>>,
                                                       react: Reactions<K, V, C>, key: K)
    requires forall e :: e in pending ==> e.key != key
    requires Has(es, key) || exists e, n :: e in pending && react(e).Ran? && n in react(e).adds && n.key == key
    ensures Has(Serve(pending, es, react), key)
    decreases |pending|
  {
    if pending != [] {
      var e, rest := pending[0], pending[1..];
      var now := React(es, e.key, react(e));
      assert pending == [e] + rest;
      if react(e).Ran? {
        HasAfterAdds(es, react(e).adds, key);
        HasAfterDrop(AddAll(es, react(e).adds), e.key, key);
      }
      hide React, AddAll, Drop;
      WalkKeepsThePushed(rest, now, react, key);
    }
  }

  /** The flags are the bits that the sets have for the descriptor, and no others. */
  ghost predicate Reports(flags: Flags, fd: nat, sets: Sets) {
    && (flags.readable <==> fd in sets.r) && (flags.writable <==> fd in sets.w) && (flags.error <==> fd in sets.e)
    && !flags.hangup
  }

  predicate InSome(fd: nat, sets: Sets) { fd in sets.r || fd in sets.w || fd in sets.e }

  /** One call for each of the program's own watches with a ready descriptor, with the bits ready and its data. */
  ghost predicate WatchLog(calls: seq<WatchCall>, es: seq<WatchEntry>, sets: Sets) {
    && (forall i, j :: 0 <= i < j < |calls| ==> calls[i].fd != calls[j].fd)
    && forall c :: c in calls <==>
         && InSome(c.fd, sets) && Reports(c.flags, c.fd, sets)
         && exists e :: e in es && e.key == Descriptor(c.fd) && e.val.data == c.data
  }

  /** One call for each exited child, with its pid, its status and its data. */
  ghost predicate ChildLog(calls: seq<ChildCall>, es: seq<ChildEntry>, status: nat -> Option<int>) {
    && (forall i, j :: 0 <= i < j < |calls| ==> calls[i].pid != calls[j].pid)
    && forall c :: c in calls <==>
         status(c.pid) == Some(c.status) && exists e :: e in es && e.key == c.pid && e.val.data == c.data
  }

  /** The D-Bus watches gathered: each ready one once, with all its ready bits. */
  ghost predicate GatheredOnce(ds: seq<(nat, Flags)>, es: seq<WatchEntry>, bus: Bus, sets: Sets) {
    && (forall i, j :: 0 <= i < j < |ds| ==> ds[i].0 != ds[j].0)
    && (forall id: nat, flags :: (id, flags) in ds <==>
          InSome(bus.fd(id), sets) && Reports(flags, bus.fd(id), sets) && bus.enabled(id)
          && exists e :: e in es && e.key == Dbus(id))
  }

  lemma GatherOneMore(ds: seq<(nat, Flags)>, es: seq<WatchEntry>, e: WatchEntry, bus: Bus, sets: Sets)
    requires GatheredOnce(ds, es, bus, sets)
    requires forall x :: x in es ==> x.key != e.key
    ensures GatheredOnce(Gather(ds, e, bus, sets), es + [e], bus, sets)
  {
    var r := Gather(ds, e, bus, sets);
    if ReadyWatch(e, bus, sets) {
      var id := e.key.id;
      forall i | 0 <= i < |ds| ensures ds[i].0 != id {
        assert (ds[i].0, ds[i].1) in ds;
      }
      assert r == ds + [(id, Ready(sets, bus.fd(id)))];
    }
    forall id: nat, flags
      ensures (id, flags) in r <==> InSome(bus.fd(id), sets) && Reports(flags, bus.fd(id), sets) && bus.enabled(id)
                                    && exists x :: x in es + [e] && x.key == Dbus(id)
    {
      assert Reports(flags, bus.fd(id), sets) <==> flags == Ready(sets, bus.fd(id));
      assert (exists x :: x in es + [e] && x.key == Dbus(id)) <==>
             ((exists x :: x in es && x.key == Dbus(id)) || e.key == Dbus(id)) by {
        assert e in es + [e];
        assert forall x :: x in es ==> x in es + [e];
      }
    }
  }

  lemma {:induction false} GatherAllOnce(done: seq<WatchEntry>, pending: seq<WatchEntry>, ds: seq<(nat, Flags)>,
                                         bus: Bus, sets: Sets)
    requires Distinct(done + pending) && GatheredOnce(ds, done, bus, sets)
    ensures GatheredOnce(GatherAll(pending, bus, sets, ds), done + pending, bus, sets)
    decreases |pending|
  {
    if pending == [] {
      assert done + pending == done;
    } else {
      var e := pending[0];
      assert done + pending == (done + [e]) + pending[1..];
      forall x | x in done ensures x.key != e.key {
        var i :| 0 <= i < |done| && done[i] == x;
        assert (done + pending)[i] == x && (done + pending)[|done|] == e;
      }
      GatherOneMore(ds, done, e, bus, sets);
      GatherAllOnce(done + [e], pending[1..], Gather(ds, e, bus, sets), bus, sets);
    }
  }

  lemma {:induction false} KeptAre<K(!new), V(!new), C>(es: seq<Entry<K, V>>, react: Reactions<K, V, C>)
    ensures forall e :: e in Kept(es, react) <==> e in es && !(react(e).Ran? && react(e).done)
  {
    if es != [] {
      KeptAre(es[1..], react);
    }
  }

  lemma WatchesAreLogged(es: seq<WatchEntry>, sets: Sets, fn: WatchFn)
    requires Distinct(es)
    ensures WatchLog(Fired(es, WatchReact(sets, fn)), es, sets)
  {
    var react := WatchReact(sets, fn);
    var calls, due := Fired(es, react), Due(es, react);
    FiredExactlyOnce(es, react);
    FiredAreDue(es, react);
    forall i | 0 <= i < |calls|
      ensures due[i].key == Descriptor(calls[i].fd) && due[i].val.data == calls[i].data
      ensures due[i] in es && InSome(calls[i].fd, sets) && Reports(calls[i].flags, calls[i].fd, sets)
    {
      assert due[i] in due;
    }
    forall c: WatchCall, e | e in es && e.key == Descriptor(c.fd) && e.val.data == c.data && InSome(c.fd, sets)
                  && Reports(c.flags, c.fd, sets)
      ensures c in calls
    {
      assert c.flags == Ready(sets, c.fd) && react(e).Ran?;
      var i :| 0 <= i < |due| && due[i] == e;
      assert calls[i] == c;
    }
  }

  lemma ChildrenAreLogged(es: seq<ChildEntry>, status: nat -> Option<int>, fn: ChildFn)
    requires Distinct(es)
    ensures ChildLog(Fired(es, ChildReact(status, fn)), es, status)
  {
    var react := ChildReact(status, fn);
    var calls, due := Fired(es, react), Due(es, react);
    FiredExactlyOnce(es, react);
    FiredAreDue(es, react);
    forall i | 0 <= i < |calls|
      ensures due[i].key == calls[i].pid && due[i].val.data == calls[i].data
      ensures due[i] in es && status(calls[i].pid) == Some(calls[i].status)
    {
      assert due[i] in due;
    }
    forall c: ChildCall, e | e in es && e.key == c.pid && e.val.data == c.data && status(c.pid) == Some(c.status)
      ensures c in calls
    {
      assert react(e).Ran?;
      var i :| 0 <= i < |due| && due[i] == e;
      assert calls[i] == c;
    }
  }

  /**
   One pass over the watches: every ready one of the program's own was called once with its ready bits and its data,
   every ready D-Bus one was gathered once with its ready bits, exactly those are gone whose call said so, and what
   calls pushed is there.
   */
  lemma WatchPass(es: seq<WatchEntry>, bus: Bus, sets: Sets, fn: WatchFn) returns (news: seq<WatchEntry>)
    requires Distinct(es)
    ensures var react := WatchReact(sets, fn);
            var calls, now := Fired(es, react), Serve(es, es, react);
            && WatchLog(calls, es, sets) && Distinct(now) && now == news + Kept(es, react)
            && (forall e :: e in Kept(es, react) <==>
                  e in es && !exists c :: c in calls && e.key == Descriptor(c.fd) && fn(c).0)
            && (forall n :: n in news ==> exists c :: c in calls && n in fn(c).1)
            && forall c, n :: c in calls && n in fn(c).1 && !Has(es, n.key) ==> Has(now, n.key)
    ensures GatheredOnce(GatherAll(es, bus, sets, []), es, bus, sets)
  {
    var react := WatchReact(sets, fn);
    var calls := Fired(es, react);
    WatchesAreLogged(es, sets, fn);
    assert [] + es == es;
    GatherAllOnce([], es, [], bus, sets);
    news := PassKeepsTheOthers(es, react);
    KeptAre(es, react);
    PushedStay(es, react);
    WatchCallsAre(es, sets, fn);
    hide Fired, Serve, GatheredOnce, WatchLog, WatchReact;
  }

  /** Calls and the entries they are for. */
  lemma WatchCallsAre(es: seq<WatchEntry>, sets: Sets, fn: WatchFn)
    requires Distinct(es)
    ensures var react := WatchReact(sets, fn);
            var calls := Fired(es, react);
            && (forall e :: e in es && react(e).Ran? ==>
                  var c := react(e).call;
                  c in calls && e.key == Descriptor(c.fd) && react(e) == Ran(c, fn(c).0, fn(c).1))
            && (forall c :: c in calls ==> exists e :: e in es && react(e).Ran? && react(e).call == c)
            && (forall c, e :: c in calls && e in es && e.key == Descriptor(c.fd) ==>
                  react(e).Ran? && react(e).call == c)
  {
    var react := WatchReact(sets, fn);
    var calls := Fired(es, react);
    forall e | e in es && react(e).Ran? ensures react(e).call in calls {
      FiredHolds(es, react, e);
    }
    forall c | c in calls ensures exists e :: e in es && react(e).Ran? && react(e).call == c {
      var e := FiredComesFrom(es, react, c);
    }
    forall c, e | c in calls && e in es && e.key == Descriptor(c.fd) ensures react(e).Ran? && react(e).call == c {
      var x := FiredComesFrom(es, react, c);
      var i :| 0 <= i < |es| && es[i] == x;
      var j :| 0 <= j < |es| && es[j] == e;
      assert x.key == e.key;
    }
  }

  lemma PushedStay<K(!new), V(!new), C>(es: seq<Entry<K, V>>, react: Reactions<K, V, C>)
    ensures forall e, n :: e in es && react(e).Ran? && n in react(e).adds && !Has(es, n.key) ==>
                           Has(Serve(es, es, react), n.key)
  {
    forall e, n | e in es && react(e).Ran? && n in react(e).adds && !Has(es, n.key)
      ensures Has(Serve(es, es, react), n.key)
    {
      forall x | x in es ensures x.key != n.key {
        var i :| 0 <= i < |es| && es[i] == x;
      }
      WalkKeepsThePushed(es, es, react, n.key);
    }
  }

  lemma {:induction false} FiredHolds<K, V, C>(es: seq<Entry<K, V>>, react: Reactions<K, V, C>, e: Entry<K, V>)
    requires e in es && react(e).Ran?
    ensures react(e).call in Fired(es, react)
  {
    if es[0] != e {
      FiredHolds(es[1..], react, e);
    }
  }

  lemma {:induction false} FiredComesFrom<K, V, C>(es: seq<Entry<K, V>>, react: Reactions<K, V, C>, c: C)
    returns (e: Entry<K, V>)
    requires c in Fired(es, react)
    ensures e in es && react(e).Ran? && react(e).call == c
  {
    if react(es[0]).Ran? && react(es[0]).call == c {
      e := es[0];
    } else {
      e := FiredComesFrom(es[1..], react, c);
    }
  }

  /** One pass over the children: exactly the exited were called, once, and are gone; what calls pushed is there. */
  lemma ChildPass(es: seq<ChildEntry>, status: nat -> Option<int>, fn: ChildFn) returns (news: seq<ChildEntry>)
    requires Distinct(es)
    ensures var react := ChildReact(status, fn);
            var calls, now := Fired(es, react), Serve(es, es, react);
            && ChildLog(calls, es, status) && Distinct(now) && now == news + Kept(es, react)
            && (forall e :: e in Kept(es, react) <==> e in es && status(e.key).None?)
            && (forall n :: n in news ==> exists c :: c in calls && n in fn(c))
            && forall c, n :: c in calls && n in fn(c) && !Has(es, n.key) ==> Has(now, n.key)
  {
    var react := ChildReact(status, fn);
    var calls := Fired(es, react);
    ChildrenAreLogged(es, status, fn);
    news := PassKeepsTheOthers(es, react);
    KeptAre(es, react);
    PushedStay(es, react);
    forall e | e in es && react(e).Ran? ensures react(e).call in calls && react(e).adds == fn(react(e).call) {
      FiredHolds(es, react, e);
    }
    forall c | c in calls ensures exists e :: e in es && react(e).Ran? && react(e).adds == fn(c) {
      var e := FiredComesFrom(es, react, c);
      assert react(e).adds == fn(c);
    }
    hide Fired, Serve, ChildLog;
  }

  /** Handing over the gathered watches: what their callbacks push comes in front of what was there. */
  lemma {:induction false} DbusPushes(es: seq<WatchEntry>, ds: seq<(nat, Flags)>, fn: DbusFn)
    returns (news: seq<WatchEntry>)
    ensures ServeDbus(es, ds, fn) == news + es
    ensures forall n :: n in news ==> exists d :: d in ds && n in fn(d.0, d.1)
    decreases |ds|
  {
    if ds == [] {
      news := [];
    } else {
      var more := fn(ds[0].0, ds[0].1);
      var pushed := AddAllPushes(es, more);
      var later := DbusPushes(AddAll(es, more), ds[1..], fn);
      news := later + pushed;
      assert news + es == later + (pushed + es);
      hide AddAll, ServeDbus;
      assert ds[0] in ds && forall d :: d in ds[1..] ==> d in ds;
    }
  }

  /** And all of it is there afterwards. */
  lemma {:induction false} DbusPushesStay(es: seq<WatchEntry>, ds: seq<(nat, Flags)>, fn: DbusFn, d: (nat, Flags),
                                          n: WatchEntry)
    requires d in ds && n in fn(d.0, d.1)
    ensures Has(ServeDbus(es, ds, fn), n.key)
    decreases |ds|
  {
    var more := fn(ds[0].0, ds[0].1);
    if d == ds[0] {
      HasAfterAdds(es, more, n.key);
      var later := DbusPushes(AddAll(es, more), ds[1..], fn);
      HasBehind(later, AddAll(es, more), n.key);
    } else {
      DbusPushesStay(AddAll(es, more), ds[1..], fn, d, n);
    }
  }

  lemma HasBehind<K, V>(front: seq<Entry<K, V>>, es: seq<Entry<K, V>>, key: K)
    requires Has(es, key)
    ensures Has(front + es, key)
  {
    assert (front + es)[|front| + Find(es, key)].key == key;
  }

  // ---- Any number of turns, and the calls between them.

  /** A turn here is one that the process comes out of. */
  datatype Event = Turn(a: Answers)
                 | AddWatch(watch: WatchEntry) | RemoveWatch(key: WatchKey)
                 | AddChild(child: ChildEntry) | RemoveChild(pid: nat)

  datatype Lists = Lists(watches: seq<WatchEntry>, children: seq<ChildEntry>) {
    ghost function After(event: Event): Lists {
      match event
      case Turn(a) => Lists(WatchesAfter(watches, a), ChildrenAfter(children, a))
      case AddWatch(watch) => this.(watches := Add(watches, watch))
      case RemoveWatch(key) => this.(watches := Drop(watches, key))
      case AddChild(child) => this.(children := Add(children, child))
      case RemoveChild(pid) => this.(children := Drop(children, pid))
    }

    ghost function AfterAll(events: seq<Event>): Lists
      decreases |events|
    {
      if events == [] then this else After(events[0]).AfterAll(events[1..])
    }

    ghost predicate Unique() { Distinct(watches) && Distinct(children) }
  }

  lemma EventKeepsUnique(ls: Lists, event: Event)
    requires ls.Unique()
    ensures ls.After(event).Unique()
  {
    match event
    case Turn(a) =>
      var _ := WatchPass(ls.watches, a.bus, a.sets, a.fn);
      ServeDbusKeepsDistinct(Serve(ls.watches, ls.watches, WatchReact(a.sets, a.fn)),
                             GatherAll(ls.watches, a.bus, a.sets, []), a.dfn);
      var _ := ChildPass(ls.children, a.status, a.cfn);
    case AddWatch(watch) =>
    case RemoveWatch(key) => DropKeepsDistinct(ls.watches, key);
    case AddChild(child) =>
    case RemoveChild(pid) => DropKeepsDistinct(ls.children, pid);
  }

  /** Over every sequence of turns, pushes and removals, keys stay unique in both lists. */
  lemma {:induction false} KeysStayUnique(ls: Lists, events: seq<Event>)
    requires ls.Unique()
    ensures ls.AfterAll(events).Unique()
    decreases |events|
  {
    if events != [] {
      EventKeepsUnique(ls, events[0]);
      KeysStayUnique(ls.After(events[0]), events[1..]);
    }
  }

  /** Everything that is ready is called once, with what is its own, and nothing else is. */
  ghost predicate ServesOnce(log: seq<Call>, ls: Lists, a: Answers) {
    exists own, gathered, exited ::
      && log == OwnCalls(own) + BusCalls(gathered) + ChildCalls(exited)
      && WatchLog(own, ls.watches, a.sets) && GatheredOnce(gathered, ls.watches, a.bus, a.sets)
      && ChildLog(exited, ls.children, a.status)
  }

  /**
   So every turn, whatever came before it, serves each ready watch and each exited child exactly once: the program's own
   watches first, then those of D-Bus, then the children.
   */
  lemma EveryTurnServesOnce(events: seq<Event>, a: Answers)
    ensures var ls := Lists([], []).AfterAll(events); ServesOnce(TurnLog(ls.watches, ls.children, a), ls, a)
  {
    KeysStayUnique(Lists([], []), events);
    var ls := Lists([], []).AfterAll(events);
    var own, gathered := Fired(ls.watches, WatchReact(a.sets, a.fn)), GatherAll(ls.watches, a.bus, a.sets, []);
    var exited := Fired(ls.children, ChildReact(a.status, a.cfn));
    var _ := WatchPass(ls.watches, a.bus, a.sets, a.fn);
    var _ := ChildPass(ls.children, a.status, a.cfn);
    assert TurnLog(ls.watches, ls.children, a) == OwnCalls(own) + BusCalls(gathered) + ChildCalls(exited);
    hide WatchLog, ChildLog, GatheredOnce, Fired, GatherAll, OwnCalls, BusCalls, ChildCalls;
  }
}
