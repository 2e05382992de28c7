/**
 One turn of the event loop of `src/mainloop.c`: collecting the descriptors for `select`, and serving what
 became ready while callbacks push new entries onto the very lists being walked.
 */
module EventLoop {
  import opened CStrings
  import opened Entries
  import Arrays
  import opened KeyedList

  datatype Flags = Flags(readable: bool, writable: bool, error: bool, hangup: bool) {
    predicate Any() { readable || writable || error || hangup }

    function Or(other: Flags): Flags {
      Flags(readable || other.readable, writable || other.writable, error || other.error, hangup || other.hangup)
    }
  }

  /** D-Bus watches are told apart by their address, the program's own ones by their descriptor. */
  datatype WatchKey = Dbus(id: nat) | Descriptor(fd: nat)

  /** `flags` and `data` matter for the program's own watches only. */
  datatype Watch = Watch(flags: Flags, data: nat)

  type WatchEntry = Entry<WatchKey, Watch>

  /** What D-Bus answers about its watches. */
  datatype Bus = Bus(enabled: nat -> bool, fd: nat -> nat, flags: nat -> Flags)

  datatype Sets = Sets(r: set<nat>, w: set<nat>, e: set<nat>)

  // ---- Before select.

  /** The descriptor an entry wants watched and for what; no flag is set when it wants nothing. */
  function Wanted(e: WatchEntry, bus: Bus): (nat, Flags) {
    match e.key
    case Dbus(id) => (bus.fd(id), if bus.enabled(id) then bus.flags(id) else Flags(false, false, false, false))
    case Descriptor(fd) => (fd, e.val.flags)
  }

  /** An entry that is in force for the descriptor has flags as `f` says: an enabled D-Bus watch, or one of our own. */
  ghost predicate Wants(es: seq<WatchEntry>, bus: Bus, fd: nat, f: Flags -> bool) {
    exists i :: 0 <= i < |es| && match es[i].key
                                 case Dbus(id) => bus.enabled(id) && bus.fd(id) == fd && f(bus.flags(id))
                                 case Descriptor(own) => own == fd && f(es[i].val.flags)
  }

  /** The sets hold exactly what the entries want. */
  ghost predicate SetsAre(es: seq<WatchEntry>, bus: Bus, s: Sets) {
    && (forall fd: nat :: fd in s.r <==> Wants(es, bus, fd, (f: Flags) => f.readable || f.hangup))
    && (forall fd: nat :: fd in s.w <==> Wants(es, bus, fd, (f: Flags) => f.writable))
    && (forall fd: nat :: fd in s.e <==> Wants(es, bus, fd, (f: Flags) => f.error))
  }

  /** The greatest descriptor of the sets, or -1. */
  ghost predicate IsMax(s: Sets, maxfd: int) {
    var all := s.r + s.w + s.e;
    if all == {} then maxfd == -1 else maxfd >= 0 && maxfd in all && forall fd :: fd in all ==> fd <= maxfd
  }

  function Set(s: Sets, fd: nat, f: Flags): Sets {
    Sets(if f.readable || f.hangup then s.r + {fd} else s.r,
         if f.writable then s.w + {fd} else s.w,
         if f.error then s.e + {fd} else s.e)
  }

  lemma WantsOfOneMore(es: seq<WatchEntry>, e: WatchEntry, bus: Bus, fd: nat, f: Flags -> bool)
    requires !f(Flags(false, false, false, false))
    ensures Wants(es + [e], bus, fd, f) <==>
            Wants(es, bus, fd, f) || (Wanted(e, bus).0 == fd && f(Wanted(e, bus).1))
  {
    var more := es + [e];
    assert more[|es|] == e;
    assert forall i :: 0 <= i < |es| ==> more[i] == es[i];
  }

  lemma SetsOfOneMore(es: seq<WatchEntry>, bus: Bus, s: Sets, i: nat)
    requires i < |es| && SetsAre(es[..i], bus, s)
    ensures SetsAre(es[..i + 1], bus, Set(s, Wanted(es[i], bus).0, Wanted(es[i], bus).1))
  {
    forall fd: nat, f: Flags -> bool | !f(Flags(false, false, false, false))
      ensures Wants(es[..i + 1], bus, fd, f) <==>
              Wants(es[..i], bus, fd, f) || (Wanted(es[i], bus).0 == fd && f(Wanted(es[i], bus).1))
    {
      WantsOfOneMore(es[..i], es[i], bus, fd, f);
      assert es[..i + 1] == es[..i] + [es[i]];
    }
  }

  lemma MaxOfOneMore(s: Sets, maxfd: int, fd: nat, f: Flags)
    requires IsMax(s, maxfd)
    ensures IsMax(Set(s, fd, f), if !f.Any() then maxfd else if maxfd > fd then maxfd else fd)
  {
  }

  method Prepare(list: List<WatchKey, Watch>, bus: Bus) returns (maxfd: int, sets: Sets)
    requires list.Valid()
    ensures SetsAre(list.Entries(), bus, sets) && IsMax(sets, maxfd)
  {
    maxfd, sets := -1, Sets({}, {}, {});
    var wl := list.head;
    ghost var i, es := 0, list.Entries();
    assert es[..0] == [];
    while wl != null
      invariant i <= |list.spine| && wl == list.At(i)
      invariant SetsAre(es[..i], bus, sets) && IsMax(sets, maxfd)
      decreases |list.spine| - i
    {
      assert wl.entry == es[i];
      SetsOfOneMore(es, bus, sets, i);
      MaxOfOneMore(sets, maxfd, Wanted(es[i], bus).0, Wanted(es[i], bus).1);
      hide SetsAre, IsMax, Set, Wanted;
      var (fd, flags) := Wanted(wl.entry, bus);
      sets := Set(sets, fd, flags);
      if flags.Any() {
        maxfd := if maxfd > fd then maxfd else fd;
      }
      wl := wl.next;
      i := i + 1;
    }
    assert es[..i] == es;
  }

  // ---- After select.

  function Ready(s: Sets, fd: nat): Flags { Flags(fd in s.r, fd in s.w, fd in s.e, false) }

  /**
   What serving an entry comes to: nothing, or its callback ran with the arguments of `call`, pushed `adds`, and
   said whether the entry is to be unlinked.
   */
  datatype Reaction<K, V, C> = Idle | Ran(call: C, done: bool, adds: seq<Entry<K, V>>)

  type Reactions<!K, !V, !C> = Entry<K, V> -> Reaction<K, V, C>

  function AddAll<K(==), V>(es: seq<Entry<K, V>>, adds: seq<Entry<K, V>>): seq<Entry<K, V>>
    decreases |adds|
  {
    if adds == [] then es else AddAll(Add(es, adds[0]), adds[1..])
  }

  function React<K(==), V, C>(es: seq<Entry<K, V>>, key: K, r: Reaction<K, V, C>): seq<Entry<K, V>> {
    match r
    case Idle => es
    case Ran(_, done, adds) => if done then Drop(AddAll(es, adds), key) else AddAll(es, adds)
  }

  /** A walk that serves `pending`, in order, on a list that holds `es` to begin with. */
  function Serve<K(==), V, C>(pending: seq<Entry<K, V>>, es: seq<Entry<K, V>>, react: Reactions<K, V, C>)
    : seq<Entry<K, V>>
    decreases |pending|
  {
    if pending == [] then es
    else Serve(pending[1..], React(es, pending[0].key, react(pending[0])), react)
  }

  /** The calls made, in order. */
  function Fired<K, V, C>(es: seq<Entry<K, V>>, react: Reactions<K, V, C>): seq<C> {
    if es == [] then [] else (if react(es[0]).Ran? then [react(es[0]).call] else []) + Fired(es[1..], react)
  }

  function IndexOfWatch(ds: seq<(nat, Flags)>, id: nat): (i: nat)
    ensures i <= |ds| && (i < |ds| ==> ds[i].0 == id)
    ensures forall j :: 0 <= j < i ==> ds[j].0 != id
  {
    if ds == [] || ds[0].0 == id then 0 else 1 + IndexOfWatch(ds[1..], id)
  }

  /** A watch gathered again only gets more bits. */
  function Merge(ds: seq<(nat, Flags)>, id: nat, flags: Flags): seq<(nat, Flags)> {
    var i := IndexOfWatch(ds, id);
    if i < |ds| then ds[i := (id, ds[i].1.Or(flags))] else ds + [(id, flags)]
  }

  lemma MergeKeepsAllBits(ds: seq<(nat, Flags)>, id: nat, flags: Flags)
    ensures var r, i := Merge(ds, id, flags), IndexOfWatch(ds, id);
            && i < |r| && r[i].0 == id && (forall j :: 0 <= j < |ds| && j != i ==> r[j] == ds[j])
            && (r[i].1.readable <==> flags.readable || (i < |ds| && ds[i].1.readable))
            && (r[i].1.writable <==> flags.writable || (i < |ds| && ds[i].1.writable))
            && (r[i].1.error <==> flags.error || (i < |ds| && ds[i].1.error))
  {
  }

  /** An enabled D-Bus watch with a ready descriptor is gathered. */
  predicate ReadyWatch(e: WatchEntry, bus: Bus, sets: Sets) {
    e.key.Dbus? && bus.enabled(e.key.id) && Ready(sets, bus.fd(e.key.id)).Any()
  }

  function Gather(ds: seq<(nat, Flags)>, e: WatchEntry, bus: Bus, sets: Sets): seq<(nat, Flags)> {
    if ReadyWatch(e, bus, sets) then Merge(ds, e.key.id, Ready(sets, bus.fd(e.key.id))) else ds
  }

  function GatherAll(pending: seq<WatchEntry>, bus: Bus, sets: Sets, ds: seq<(nat, Flags)>): seq<(nat, Flags)>
    decreases |pending|
  {
    if pending == [] then ds else GatherAll(pending[1..], bus, sets, Gather(ds, pending[0], bus, sets))
  }

  /** The callbacks of watches get the descriptor, the bits ready, and the data; they say whether they are done. */
  datatype WatchCall = WatchCall(fd: nat, flags: Flags, data: nat)

  type WatchFn = WatchCall -> (bool, seq<WatchEntry>)

  type WatchReaction = Reaction<WatchKey, Watch, WatchCall>

  function ServeWatch(e: WatchEntry, sets: Sets, fn: WatchFn): WatchReaction {
    match e.key
    case Dbus(_) => Idle
    case Descriptor(fd) =>
      if !Ready(sets, fd).Any() then Idle
      else
        var call := WatchCall(fd, Ready(sets, fd), e.val.data);
        Ran(call, fn(call).0, fn(call).1)
  }

  /** A child's callback and data; the status comes from `waitpid`. */
  datatype Child = Child(data: nat)

  type ChildEntry = Entry<nat, Child>

  /** The callbacks of children get the pid, the status, and the data. */
  datatype ChildCall = ChildCall(pid: nat, status: int, data: nat)

  type ChildFn = ChildCall -> seq<ChildEntry>

  type ChildReaction = Reaction<nat, Child, ChildCall>

  function ServeChild(e: ChildEntry, status: nat -> Option<int>, fn: ChildFn): ChildReaction {
    if status(e.key).None? then Idle
    else
      var call := ChildCall(e.key, status(e.key).value, e.val.data);
      Ran(call, true, fn(call))
  }

  ghost function WatchReact(sets: Sets, fn: WatchFn): WatchEntry -> WatchReaction { e => ServeWatch(e, sets, fn) }

  ghost function ChildReact(status: nat -> Option<int>, fn: ChildFn): ChildEntry -> ChildReaction {
    e => ServeChild(e, status, fn)
  }

  /** A callback's pushes, one after the other. */
  method Push<K(==), V>(list: List<K, V>, adds: seq<Entry<K, V>>)
    requires list.Valid()
    modifies list
    ensures list.Valid() && list.Entries() == AddAll(old(list.Entries()), adds)
    ensures Tail(list.spine, old(list.spine))
    ensures fresh(list.repr - old(list.repr))
  {
    ghost var es, n := list.Entries(), |list.spine|;
    for i := 0 to |adds|
      invariant list.Valid() && AddAll(list.Entries(), adds[i..]) == AddAll(es, adds)
      invariant |list.spine| >= n && list.spine[|list.spine| - n..] == old(list.spine)
      invariant fresh(list.repr - old(list.repr))
    {
      list.Insert(adds[i]);
    }
  }

  /** `rest` is how `whole` ends. */
  ghost predicate Tail<T>(whole: seq<T>, rest: seq<T>) {
    |rest| <= |whole| && whole[|whole| - |rest|..] == rest
  }

  lemma TailOfTail<T>(a: seq<T>, b: seq<T>, c: seq<T>)
    requires Tail(a, b) && Tail(b, c)
    ensures Tail(a, c)
  {
  }

  /** Without its `k`-th element, where the tail began, a sequence ends like the tail without its first. */
  lemma TailWithoutFirst<T>(whole: seq<T>, rest: seq<T>, k: nat)
    requires Tail(whole, rest) && rest != [] && k == |whole| - |rest|
    ensures whole[k] == rest[0] && Tail(whole, rest[1..]) && Tail(whole[..k] + whole[k + 1..], rest[1..])
  {
  }

  /** Where the unlinking finds the node just visited. */
  lemma VisitedIndex<K, V>(nodes: seq<Node<K, V>>, rest: seq<Node<K, V>>)
    requires Distinct(EntriesOf(nodes)) && Tail(nodes, rest) && rest != []
    ensures Find(EntriesOf(nodes), rest[0].entry.key) == |nodes| - |rest|
  {
    var k := |nodes| - |rest|;
    assert nodes[k] == nodes[k..][0];
    FindIs(EntriesOf(nodes), rest[0].entry.key, k);
  }

  /** The saved next pointer leads to the next node to be visited, which is still how the chain ends. */
  lemma NextAhead<K, V>(list: List<K, V>, rest: seq<Node<K, V>>)
    requires list.Valid() && Tail(list.spine, rest) && rest != []
    ensures rest[0].next == if |rest| == 1 then null else rest[1]
    ensures Tail(list.spine, rest[1..])
  {
  }

  /** What has happened at the node just visited: callback, pushes, and unlinking by its key. */
  method Visit<K(==), V>(list: List<K, V>, ghost rest: seq<Node<K, V>>, l: Node<K, V>, done: bool,
                         adds: seq<Entry<K, V>>)
    requires list.Valid() && Distinct(list.Entries())
    requires rest != [] && Tail(list.spine, rest) && l == rest[0]
    modifies list, list.repr
    ensures list.Valid() && Distinct(list.Entries())
    ensures var pushed := AddAll(old(list.Entries()), adds);
            list.Entries() == if done then Drop(pushed, l.entry.key) else pushed
    ensures Tail(list.spine, rest[1..])
    ensures fresh(list.repr - old(list.repr))
  {
    hide Distinct, Tail, AddAll, Drop, EntriesOf;
    AddAllKeepsDistinct(list.Entries(), adds);
    Push(list, adds);
    TailOfTail(list.spine, old(list.spine), rest);
    VisitedIndex(list.spine, rest);
    TailWithoutFirst(list.spine, rest, |list.spine| - |rest|);
    if done {
      DropKeepsDistinct(list.Entries(), l.entry.key);
      list.Unlink(l.entry.key);
    }
  }

  lemma AddAllKeepsDistinct<K, V>(es: seq<Entry<K, V>>, adds: seq<Entry<K, V>>)
    requires Distinct(es)
    ensures Distinct(AddAll(es, adds))
    decreases |adds|
  {
    if adds != [] {
      AddAllKeepsDistinct(Add(es, adds[0]), adds[1..]);
    }
  }

  lemma EntriesOfTail<K, V>(nodes: seq<Node<K, V>>)
    requires nodes != []
    ensures EntriesOf(nodes) != [] && EntriesOf(nodes)[0] == nodes[0].entry
    ensures EntriesOf(nodes)[1..] == EntriesOf(nodes[1..])
  {
  }

  // ---- Any walk.

  /** The outcome of a whole walk over the entries that were there at its start. */
  ghost predicate Walked<K, V, C>(es: seq<Entry<K, V>>, now: seq<Entry<K, V>>, fired: seq<C>,
                               react: Reactions<K, V, C>)
  {
    now == Serve(es, es, react) && fired == Fired(es, react)
  }

  /** What is still to come at `rest` completes what has come about so far to the outcome of the whole walk. */
  ghost predicate Halfway<K, V, C>(es: seq<Entry<K, V>>, rest: seq<Node<K, V>>, now: seq<Entry<K, V>>,
                                fired: seq<C>, react: Reactions<K, V, C>)
  {
    && Serve(EntriesOf(rest), now, react) == Serve(es, es, react)
    && fired + Fired(EntriesOf(rest), react) == Fired(es, react)
  }

  lemma OneTurn<K, V, C>(es: seq<Entry<K, V>>, rest: seq<Node<K, V>>, now: seq<Entry<K, V>>, fired: seq<C>,
                      react: Reactions<K, V, C>)
    requires rest != [] && Halfway(es, rest, now, fired, react)
    ensures var e := rest[0].entry;
            var calls := if react(e).Ran? then fired + [react(e).call] else fired;
            Halfway(es, rest[1..], React(now, e.key, react(e)), calls, react)
  {
    EntriesOfTail(rest);
    FiredTurn(EntriesOf(rest), fired, react);
    hide Fired, EntriesOf;
  }

  lemma FiredTurn<K, V, C>(pending: seq<Entry<K, V>>, fired: seq<C>, react: Reactions<K, V, C>)
    requires pending != []
    ensures fired + Fired(pending, react) ==
            (if react(pending[0]).Ran? then fired + [react(pending[0]).call] else fired) + Fired(pending[1..], react)
  {
  }

  /** The state of a walk when `l` is the node to be visited next. */
  ghost predicate AtNode<K, V, C>(list: List<K, V>, es: seq<Entry<K, V>>, rest: seq<Node<K, V>>, l: Node?<K, V>,
                               fired: seq<C>, react: Reactions<K, V, C>)
    reads list, list.repr
  {
    && list.Valid() && Distinct(list.Entries()) && Tail(list.spine, rest)
    && l == (if rest == [] then null else rest[0])
    && Halfway(es, rest, list.Entries(), fired, react)
  }

  lemma WalkStart<K, V, C>(list: List<K, V>, react: Reactions<K, V, C>)
    requires list.Valid() && Distinct(list.Entries())
    ensures AtNode(list, list.Entries(), list.spine, list.head, [], react)
  {
  }

  lemma AtNodeRest<K, V, C>(list: List<K, V>, es: seq<Entry<K, V>>, rest: seq<Node<K, V>>, l: Node?<K, V>,
                         fired: seq<C>, react: Reactions<K, V, C>)
    requires AtNode(list, es, rest, l, fired, react)
    ensures if l == null then rest == [] else rest != [] && l == rest[0]
  {
  }

  lemma WalkEnd<K, V, C>(list: List<K, V>, es: seq<Entry<K, V>>, rest: seq<Node<K, V>>, fired: seq<C>,
                      react: Reactions<K, V, C>)
    requires AtNode(list, es, rest, null, fired, react)
    ensures list.Valid() && Distinct(list.Entries()) && Walked(es, list.Entries(), fired, react)
  {
  }

  /** One node served: nothing, or its callback ran and did as `r` says. */
  method ServeNode<K(==), V, C>(list: List<K, V>, ghost rest: seq<Node<K, V>>, l: Node<K, V>, r: Reaction<K, V, C>,
                             before: seq<C>) returns (fired: seq<C>)
    requires list.Valid() && Distinct(list.Entries())
    requires rest != [] && Tail(list.spine, rest) && l == rest[0]
    modifies list, list.repr
    ensures list.Valid() && Distinct(list.Entries()) && Tail(list.spine, rest[1..])
    ensures list.Entries() == React(old(list.Entries()), l.entry.key, r)
    ensures fired == if r.Ran? then before + [r.call] else before
    ensures fresh(list.repr - old(list.repr))
  {
    fired := before;
    NextAhead(list, rest);
    if r.Ran? {
      fired := fired + [r.call];
      hide Distinct, Tail, Drop, AddAll, EntriesOf;
      Visit(list, rest, l, r.done, r.adds);
    }
  }

  /** The body of a walk; the next pointer is saved before what the callback does comes about. */
  method WalkTurn<K(==), V, C>(list: List<K, V>, ghost es: seq<Entry<K, V>>, ghost rest: seq<Node<K, V>>, l: Node<K, V>,
                            fired0: seq<C>, r: Reaction<K, V, C>, ghost react: Reactions<K, V, C>)
    returns (next: Node?<K, V>, fired: seq<C>)
    requires rest != [] && AtNode(list, es, rest, l, fired0, react) && r == react(l.entry)
    modifies list, list.repr
    ensures AtNode(list, es, rest[1..], next, fired, react)
    ensures fresh(list.repr - old(list.repr))
  {
    OneTurn(es, rest, list.Entries(), fired0, react);
    NextAhead(list, rest);
    next := l.next;
    hide Halfway, EntriesOf, Distinct, React, Tail, List.Valid;
    fired := ServeNode(list, rest, l, r, fired0);
  }

  // ---- The watches.

  /** `ok` is false when the gathered watches outgrow the resizer's limit and the process exits. */
  method GatherWatch(e: WatchEntry, bus: Bus, sets: Sets, dwatches: seq<(nat, Flags)>)
    returns (ok: bool, r: seq<(nat, Flags)>)
    requires |dwatches| <= Arrays.LIMIT
    ensures ok <==> |Gather(dwatches, e, bus, sets)| <= Arrays.LIMIT
    ensures ok ==> r == Gather(dwatches, e, bus, sets)
  {
    ok, r := true, dwatches;
    if e.key.Dbus? && bus.enabled(e.key.id) {
      var flags := Ready(sets, bus.fd(e.key.id));
      if flags.Any() {
        var i := 0;
        while i < |r|
          invariant i <= IndexOfWatch(dwatches, e.key.id) && r == dwatches
        {
          if r[i].0 == e.key.id {
            r := r[i := (e.key.id, r[i].1.Or(flags))];
            return;
          }
          i := i + 1;
        }
        if i + 1 > Arrays.LIMIT {
          return false, r;
        }
        r := Arrays.Resized(r, i, i + 1, (e.key.id, flags));
        assert r == dwatches + [(e.key.id, flags)];
      }
    }
  }

  lemma {:induction false} GatherAllGrows(es: seq<WatchEntry>, bus: Bus, sets: Sets, ds: seq<(nat, Flags)>)
    ensures |GatherAll(es, bus, sets, ds)| >= |ds|
    decreases |es|
  {
    if es != [] {
      GatherAllGrows(es[1..], bus, sets, Gather(ds, es[0], bus, sets));
    }
  }

  lemma GatherTurn(rest: seq<Node<WatchKey, Watch>>, bus: Bus, sets: Sets, ds: seq<(nat, Flags)>)
    ensures rest == [] ==> GatherAll(EntriesOf(rest), bus, sets, ds) == ds
    ensures rest != [] ==> GatherAll(EntriesOf(rest), bus, sets, ds) ==
                           GatherAll(EntriesOf(rest[1..]), bus, sets, Gather(ds, rest[0].entry, bus, sets))
  {
    if rest != [] {
      EntriesOfTail(rest);
    }
  }

  /**
   The walk over the watches: the program's own ones are served on the spot, those of D-Bus are
   gathered for later.  `ok` is false when the process exits over their number.
   */
  method HandleWatches(list: List<WatchKey, Watch>, bus: Bus, sets: Sets, fn: WatchFn)
    returns (ok: bool, fired: seq<WatchCall>, dwatches: seq<(nat, Flags)>)
    requires list.Valid() && Distinct(list.Entries())
    modifies list, list.repr
    ensures ok <==> |GatherAll(old(list.Entries()), bus, sets, [])| <= Arrays.LIMIT
    ensures ok ==> list.Valid() && Distinct(list.Entries())
    ensures ok ==> Walked(old(list.Entries()), list.Entries(), fired, WatchReact(sets, fn))
    ensures ok ==> dwatches == GatherAll(old(list.Entries()), bus, sets, [])
    ensures fresh(list.repr - old(list.repr))
  {
    ghost var es, rest, react := list.Entries(), list.spine, WatchReact(sets, fn);
    ok, fired, dwatches := true, [], [];
    var wl := list.head;
    WalkStart(list, react);
    hide AtNode, Walked, GatherAll, Gather, EntriesOf, Distinct, List.Valid;
    while wl != null
      invariant AtNode(list, es, rest, wl, fired, react)
      invariant GatherAll(EntriesOf(rest), bus, sets, dwatches) == GatherAll(es, bus, sets, [])
      invariant ok && |dwatches| <= Arrays.LIMIT
      invariant fresh(list.repr - old(list.repr))
      decreases |rest|
    {
      AtNodeRest(list, es, rest, wl, fired, react);
      GatherTurn(rest, bus, sets, dwatches);
      GatherAllGrows(EntriesOf(rest[1..]), bus, sets, Gather(dwatches, rest[0].entry, bus, sets));
      ok, dwatches := GatherWatch(wl.entry, bus, sets, dwatches);
      if !ok {
        return;
      }
      wl, fired := WalkTurn(list, es, rest, wl, fired, ServeWatch(wl.entry, sets, fn), react);
      rest := rest[1..];
    }
    AtNodeRest(list, es, rest, null, fired, react);
    GatherTurn(rest, bus, sets, dwatches);
    WalkEnd(list, es, rest, fired, react);
  }

  type DbusFn = (nat, Flags) -> seq<WatchEntry>

  function ServeDbus(es: seq<WatchEntry>, dwatches: seq<(nat, Flags)>, fn: DbusFn): seq<WatchEntry>
    decreases |dwatches|
  {
    if dwatches == [] then es
    else ServeDbus(AddAll(es, fn(dwatches[0].0, dwatches[0].1)), dwatches[1..], fn)
  }

  lemma {:induction false} ServeDbusKeepsDistinct(es: seq<WatchEntry>, dwatches: seq<(nat, Flags)>, fn: DbusFn)
    requires Distinct(es)
    ensures Distinct(ServeDbus(es, dwatches, fn))
    decreases |dwatches|
  {
    if dwatches != [] {
      AddAllKeepsDistinct(es, fn(dwatches[0].0, dwatches[0].1));
      ServeDbusKeepsDistinct(AddAll(es, fn(dwatches[0].0, dwatches[0].1)), dwatches[1..], fn);
    }
  }

  /** The D-Bus watches gathered are handed over once each, in their order, with the bits gathered for them. */
  method HandleDbus(list: List<WatchKey, Watch>, dwatches: seq<(nat, Flags)>, fn: DbusFn)
    returns (handed: seq<(nat, Flags)>)
    requires list.Valid() && Distinct(list.Entries())
    modifies list
    ensures list.Valid() && list.Entries() == ServeDbus(old(list.Entries()), dwatches, fn)
    ensures Distinct(list.Entries())
    ensures handed == dwatches
    ensures fresh(list.repr - old(list.repr))
  {
    handed := [];
    ghost var es := list.Entries();
    assert dwatches[0..] == dwatches;
    ServeDbusKeepsDistinct(es, dwatches, fn);
    hide AddAll, Tail, EntriesOf, Distinct;
    for i := 0 to |dwatches|
      invariant list.Valid() && ServeDbus(list.Entries(), dwatches[i..], fn) == ServeDbus(es, dwatches, fn)
      invariant handed == dwatches[..i]
      invariant fresh(list.repr - old(list.repr))
    {
      assert dwatches[i..][0] == dwatches[i] && dwatches[i..][1..] == dwatches[i + 1..];
      handed := handed + [dwatches[i]];
      Push(list, fn(dwatches[i].0, dwatches[i].1));
    }
    assert dwatches[|dwatches|..] == [];
  }

  // ---- The children.

  /** The walk over the children: each one that has exited gets its callback and is then unlinked by its pid. */
  method HandleChildren(list: List<nat, Child>, status: nat -> Option<int>, fn: ChildFn)
    returns (fired: seq<ChildCall>)
    requires list.Valid() && Distinct(list.Entries())
    modifies list, list.repr
    ensures list.Valid() && Distinct(list.Entries())
    ensures Walked(old(list.Entries()), list.Entries(), fired, ChildReact(status, fn))
    ensures fresh(list.repr - old(list.repr))
  {
    ghost var es, rest, react := list.Entries(), list.spine, ChildReact(status, fn);
    fired := [];
    var pl := list.head;
    WalkStart(list, react);
    hide AtNode, Walked, EntriesOf, Distinct, List.Valid;
    while pl != null
      invariant AtNode(list, es, rest, pl, fired, react)
      invariant fresh(list.repr - old(list.repr))
      decreases |rest|
    {
      AtNodeRest(list, es, rest, pl, fired, react);
      pl, fired := WalkTurn(list, es, rest, pl, fired, ServeChild(pl.entry, status, fn), react);
      rest := rest[1..];
    }
    WalkEnd(list, es, rest, fired, react);
  }

  // ---- A whole turn.

  /** What one return from `select` finds: ready descriptors, exited children, and what the callbacks will do. */
  datatype Answers = Answers(bus: Bus, sets: Sets, fn: WatchFn, dfn: DbusFn, status: nat -> Option<int>, cfn: ChildFn)

  /** Whom a turn calls: one of the program's own watches, D-Bus with a watch of its own, or for a child. */
  datatype Call = OfWatch(own: WatchCall) | OfBus(id: nat, flags: Flags) | OfChild(child: ChildCall)

  function OwnCalls(calls: seq<WatchCall>): seq<Call> {
    seq(|calls|, i requires 0 <= i < |calls| => OfWatch(calls[i]))
  }

  function BusCalls(calls: seq<(nat, Flags)>): seq<Call> {
    seq(|calls|, i requires 0 <= i < |calls| => OfBus(calls[i].0, calls[i].1))
  }

  function ChildCalls(calls: seq<ChildCall>): seq<Call> {
    seq(|calls|, i requires 0 <= i < |calls| => OfChild(calls[i]))
  }

  ghost function TurnLog(watches: seq<WatchEntry>, children: seq<ChildEntry>, a: Answers): seq<Call> {
    OwnCalls(Fired(watches, WatchReact(a.sets, a.fn))) + BusCalls(GatherAll(watches, a.bus, a.sets, [])) +
    ChildCalls(Fired(children, ChildReact(a.status, a.cfn)))
  }

  ghost function WatchesAfter(es: seq<WatchEntry>, a: Answers): seq<WatchEntry> {
    ServeDbus(Serve(es, es, WatchReact(a.sets, a.fn)), GatherAll(es, a.bus, a.sets, []), a.dfn)
  }

  ghost function ChildrenAfter(es: seq<ChildEntry>, a: Answers): seq<ChildEntry> {
    Serve(es, es, ChildReact(a.status, a.cfn))
  }

  /**
   One turn after `select`: the program's own watches, then D-Bus, then the children; the log says who was called, with
   what and in which order.  `ok` is false when the process exits because it gathered too many D-Bus watches.
   */
  method Handle(watches: List<WatchKey, Watch>, children: List<nat, Child>, a: Answers)
    returns (ok: bool, log: seq<Call>)
    requires watches.Valid() && Distinct(watches.Entries())
    requires children.Valid() && Distinct(children.Entries())
    requires {children} + children.repr !! {watches} + watches.repr
    modifies watches, watches.repr, children, children.repr
    ensures ok <==> |GatherAll(old(watches.Entries()), a.bus, a.sets, [])| <= Arrays.LIMIT
    ensures ok ==> watches.Valid() && Distinct(watches.Entries())
    ensures ok ==> children.Valid() && Distinct(children.Entries())
    ensures ok ==> watches.Entries() == WatchesAfter(old(watches.Entries()), a)
    ensures ok ==> children.Entries() == ChildrenAfter(old(children.Entries()), a)
    ensures ok ==> log == TurnLog(old(watches.Entries()), old(children.Entries()), a)
    ensures fresh(watches.repr - old(watches.repr)) && fresh(children.repr - old(children.repr))
    ensures {children} + children.repr !! {watches} + watches.repr
  {
    hide ServeDbus, EntriesOf, Serve, Fired, GatherAll, Distinct, List.Valid, WatchReact, ChildReact;
    var fired, dwatches;
    ok, fired, dwatches := HandleWatches(watches, a.bus, a.sets, a.fn);
    log := OwnCalls(fired);
    if !ok {
      return;
    }
    var handed := HandleDbus(watches, dwatches, a.dfn);
    log := log + BusCalls(handed);
    var exited := HandleChildren(children, a.status, a.cfn);
    log := log + ChildCalls(exited);
  }
}
