/** The registry as one finite map from (service, path, interface, method) to methods, over whole runs. */
module RegistryLaws {
  import opened CStrings
  import Arrays
  import opened Entries
  import opened Tables
  import opened Registry

  // ---- Adding is map update, removing is map delete.

  lemma PutThenLookupIn(os: Objects, k: Key, m: Method, other: Key)
    ensures LookupIn(PutObject(os, k, m), other) ==
            if (other.path, other.interface_, other.method_) == (k.path, k.interface_, k.method_) then Some(m)
            else LookupIn(os, other)
  {
    var o := GetOr(os, k.path, []);
    var f := GetOr(o, k.interface_, []);
    GetOfPut(os, k.path, PutInterface(o, k, m), other.path);
    GetOfPut(o, k.interface_, Put(f, k.method_, m), other.interface_);
    GetOfPut(f, k.method_, m, other.method_);
  }

  lemma ObjectsOfPut(t: Services, service: string, s: Service, other: string)
    ensures ObjectsOf(Put(t, service, s), other) == if other == service then s.objects else ObjectsOf(t, other)
  {
    GetOfPut(t, service, s, other);
  }

  lemma AddIsMapUpdate(t: Services, k: Key, m: Method, conn: nat, other: Key)
    ensures Lookup(PutService(t, k, m, conn), other) == if other == k then Some(m) else Lookup(t, other)
  {
    var os := ObjectsOf(t, k.service);
    var c := if Has(t, k.service) then t[Find(t, k.service)].val.conn else conn;
    ObjectsOfPut(t, k.service, Service(c, PutObject(os, k, m)), other.service);
    PutThenLookupIn(os, k, m, other);
  }

  lemma GetOfPutOrDrop<W>(t: Table<Table<W>>, name: string, inner: Table<W>, other: string)
    requires Distinct(t)
    ensures GetOr(PutOrDrop(t, name, inner), other, []) == if other == name then inner else GetOr(t, other, [])
  {
    GetOfPut(t, name, inner, other);
    GetOfDrop(t, name, other);
  }

  lemma DropThenLookupIn(os: Objects, k: Key, other: Key)
    requires SoundObjects(os)
    ensures LookupIn(DropObject(os, k), other) ==
            if (other.path, other.interface_, other.method_) == (k.path, k.interface_, k.method_) then None
            else LookupIn(os, other)
  {
    var o := GetOr(os, k.path, []);
    assert o == [] || SoundObject(o);
    var f := GetOr(o, k.interface_, []);
    assert f == [] || SoundInterface(f);
    GetOfPutOrDrop(os, k.path, DropInterface(o, k), other.path);
    GetOfPutOrDrop(o, k.interface_, Drop(f, k.method_), other.interface_);
    GetOfDrop(f, k.method_, other.method_);
  }

  lemma RemoveIsMapDelete(t: Services, k: Key, other: Key)
    requires SoundServices(t)
    ensures Lookup(DropService(t, k), other) == if other == k then None else Lookup(t, other)
  {
    if Has(t, k.service) {
      var s := t[Find(t, k.service)].val;
      assert SoundObjects(s.objects);
      DropThenLookupIn(s.objects, k, other);
      if DropObject(s.objects, k) == [] {
        GetOfDrop(t, k.service, other.service);
      } else {
        ObjectsOfPut(t, k.service, Service(s.conn, DropObject(s.objects, k)), other.service);
      }
    }
  }

  // ---- Runs.

  datatype Op = Add(k: Key, m: Method, conn: Option<nat>) | Remove(k: Key)

  /** One call on the live registry; None when it ends the process or leaves what C leaves undefined. */
  function Step(t: Services, op: Op): Option<Services> {
    match op
    case Add(k, m, conn) =>
      (match AddOutcome(t, k, conn)
       case Returned => Some(PutService(t, k, m, conn.GetOr(0)))
       case ConnectFailed => Some(t)
       case _ => None)
    case Remove(k) => if RemoveOutcome(t, k) == Returned then Some(DropService(t, k)) else None
  }

  function Run(t: Services, ops: seq<Op>): Option<Services>
    decreases |ops|
  {
    if ops == [] then Some(t)
    else match Step(t, ops[0])
      case None => None
      case Some(next) => Run(next, ops[1..])
  }

  ghost predicate Offers(m: map<Key, Method>, service: string) { exists k :: k in m && k.service == service }

  /** The same call on the map alone: only a service not offered yet needs a connection. */
  ghost function MapStep(m: map<Key, Method>, op: Op): map<Key, Method> {
    match op
    case Add(k, v, conn) => if conn.None? && !Offers(m, k.service) then m else m[k := v]
    case Remove(k) => m - {k}
  }

  ghost function MapRun(m: map<Key, Method>, ops: seq<Op>): map<Key, Method>
    decreases |ops|
  {
    if ops == [] then m else MapRun(MapStep(m, ops[0]), ops[1..])
  }

  ghost predicate Represents(t: Services, m: map<Key, Method>) {
    forall k: Key :: Lookup(t, k) == if k in m then Some(m[k]) else None
  }

  /** A service has a slot exactly when some method of it is registered: no slot is ever left over. */
  lemma ServiceSlotIffOffered(t: Services, m: map<Key, Method>, service: string)
    requires SoundServices(t) && Represents(t, m)
    ensures Has(t, service) <==> Offers(m, service)
  {
    if Has(t, service) {
      var os := ObjectsOf(t, service);
      assert SoundObjects(os) && SoundObject(os[0].val) && SoundInterface(os[0].val[0].val);
      var k := Key(service, os[0].key, os[0].val[0].key, os[0].val[0].val[0].key);
      FindIs(os, k.path, 0);
      FindIs(os[0].val, k.interface_, 0);
      FindIs(os[0].val[0].val, k.method_, 0);
      assert Lookup(t, k).Some?;
    }
    if Offers(m, service) {
      var k :| k in m && k.service == service;
      assert Lookup(t, k) == Some(m[k]);
    }
  }

  ghost predicate OffersObject(m: map<Key, Method>, service: string, path: string) {
    exists k :: k in m && k.service == service && k.path == path
  }

  ghost predicate OffersInterface(m: map<Key, Method>, service: string, path: string, interface_: string) {
    exists k :: k in m && k.service == service && k.path == path && k.interface_ == interface_
  }

  /** The first method of a sound interface, under the names that lead to it. */
  lemma FirstMethod(t: Services, service: string, path: string, interface_: string)
    requires SoundServices(t) && Has(GetOr(ObjectsOf(t, service), path, []), interface_)
    ensures var f := InterfaceOf(ObjectsOf(t, service), Key(service, path, interface_, ""));
            f != [] && Lookup(t, Key(service, path, interface_, f[0].key)).Some?
  {
    var os := ObjectsOf(t, service);
    var o := GetOr(os, path, []);
    assert SoundObjects(os) && SoundObject(o);
    var f := o[Find(o, interface_)].val;
    assert SoundInterface(f);
    FindIs(f, f[0].key, 0);
  }

  /** The interfaces with a slot are the interfaces of the map. */
  lemma InterfaceSlotIffOffered(t: Services, m: map<Key, Method>, service: string, path: string, interface_: string)
    requires SoundServices(t) && Represents(t, m)
    ensures Has(GetOr(ObjectsOf(t, service), path, []), interface_) <==> OffersInterface(m, service, path, interface_)
  {
    if Has(GetOr(ObjectsOf(t, service), path, []), interface_) {
      FirstMethod(t, service, path, interface_);
    }
    if OffersInterface(m, service, path, interface_) {
      var k :| k in m && k.service == service && k.path == path && k.interface_ == interface_;
      assert Lookup(t, k) == Some(m[k]);
    }
  }

  /** The objects with a slot are the objects of the map. */
  lemma ObjectSlotIffOffered(t: Services, m: map<Key, Method>, service: string, path: string)
    requires SoundServices(t) && Represents(t, m)
    ensures Has(ObjectsOf(t, service), path) <==> OffersObject(m, service, path)
  {
    var os := ObjectsOf(t, service);
    if Has(os, path) {
      var o := os[Find(os, path)].val;
      assert SoundObjects(os) && SoundObject(o);
      FindIs(o, o[0].key, 0);
      FirstMethod(t, service, path, o[0].key);
    }
    if OffersObject(m, service, path) {
      var k :| k in m && k.service == service && k.path == path;
      assert Lookup(t, k) == Some(m[k]);
    }
  }

  lemma AddRefinesMap(t: Services, m: map<Key, Method>, k: Key, v: Method, conn: nat)
    requires SoundServices(t) && Represents(t, m)
    ensures Represents(PutService(t, k, v, conn), m[k := v])
  {
    hide Lookup, PutService, SoundServices;
    forall other: Key
      ensures Lookup(PutService(t, k, v, conn), other) == if other in m[k := v] then Some(m[k := v][other]) else None
    {
      AddIsMapUpdate(t, k, v, conn, other);
    }
  }

  lemma RemoveRefinesMap(t: Services, m: map<Key, Method>, k: Key)
    requires SoundServices(t) && Represents(t, m)
    ensures Represents(DropService(t, k), m - {k})
  {
    hide Lookup, DropService, SoundServices;
    forall other: Key
      ensures Lookup(DropService(t, k), other) == if other in m - {k} then Some((m - {k})[other]) else None
    {
      RemoveIsMapDelete(t, k, other);
    }
  }

  lemma StepRefinesMap(t: Services, m: map<Key, Method>, op: Op)
    requires SoundServices(t) && Represents(t, m) && Step(t, op).Some?
    ensures SoundServices(Step(t, op).value) && Represents(Step(t, op).value, MapStep(m, op))
  {
    match op {
      case Add(k, v, conn) =>
        ServiceSlotIffOffered(t, m, k.service);
        assert AddOutcome(t, k, conn) == ConnectFailed ==> conn.None? && !Has(t, k.service);
        assert AddOutcome(t, k, conn) == Returned ==> conn.Some? || Has(t, k.service);
        hide Represents, SoundServices, PutService, AddOutcome, Offers;
        if AddOutcome(t, k, conn) == Returned {
          AddKeepsSound(t, k, v, conn);
          AddRefinesMap(t, m, k, v, conn.GetOr(0));
        }
      case Remove(k) =>
        hide Represents, SoundServices, DropService, RemoveOutcome;
        RemoveKeepsSound(t, k);
        RemoveRefinesMap(t, m, k);
    }
  }

  // ---- When removal really deletes.

  /** Only the last method of the last interface of the last object takes the service away. */
  lemma LastMethodExactlyWhen(t: Services, k: Key)
    requires SoundServices(t)
    ensures OnlyMethodOfService(t, k) <==>
            && Lookup(t, k).Some?
            && forall other: Key :: Lookup(t, other).Some? && other.service == k.service ==> other == k
  {
    if Lookup(t, k).Some? {
      var os := ObjectsOf(t, k.service);
      assert SoundObjects(os);
      if OnlyMethodOfService(t, k) {
        forall other: Key | Lookup(t, other).Some? && other.service == k.service ensures other == k {
          DropThenLookupIn(os, k, other);
        }
      } else {
        var left := DropObject(os, k);
        DropKeepsSound(os, k);
        assert SoundObject(left[0].val) && SoundInterface(left[0].val[0].val);
        var other := Key(k.service, left[0].key, left[0].val[0].key, left[0].val[0].val[0].key);
        FindIs(left, other.path, 0);
        FindIs(left[0].val, other.interface_, 0);
        FindIs(left[0].val[0].val, other.method_, 0);
        DropThenLookupIn(os, k, other);
        assert Lookup(t, other).Some? && other != k;
      }
    }
  }

  /** The key is its service's only one, and another service has keys. */
  ghost predicate TakesServiceAway(m: map<Key, Method>, k: Key) {
    && k in m
    && (forall other :: other in m && other.service == k.service ==> other == k)
    && exists other :: other in m && other.service != k.service
  }

  /**
   A removal deletes its key and returns exactly when it does not take the only method of a service
   while another service is registered; otherwise the process does not come out of it.
   */
  lemma RemoveDeletesExactlyWhen(t: Services, m: map<Key, Method>, k: Key)
    requires SoundServices(t) && Represents(t, m)
    ensures Step(t, Remove(k)).Some? <==> !TakesServiceAway(m, k)
    ensures Step(t, Remove(k)).Some? ==> Represents(Step(t, Remove(k)).value, m - {k})
  {
    LastMethodExactlyWhen(t, k);
    assert Lookup(t, k).Some? <==> k in m;
    assert forall other: Key :: Lookup(t, other).Some? <==> other in m;
    if k in m {
      OtherServices(t, m, k);
    }
    hide Lookup, SoundServices, DropService, OnlyMethodOfService;
    if Step(t, Remove(k)).Some? {
      RemoveRefinesMap(t, m, k);
    }
  }

  lemma OtherServices(t: Services, m: map<Key, Method>, k: Key)
    requires SoundServices(t) && Represents(t, m) && k in m
    ensures |t| > 1 <==> exists other :: other in m && other.service != k.service
  {
    ServiceSlotIffOffered(t, m, k.service);
    var i := Find(t, k.service);
    if |t| > 1 {
      var j := if i == 0 then 1 else 0;
      assert t[j].key != t[i].key;
      FindIs(t, t[j].key, j);
      ServiceSlotIffOffered(t, m, t[j].key);
    } else {
      forall other | other in m ensures other.service == k.service {
        ServiceSlotIffOffered(t, m, other.service);
      }
    }
  }

  // ---- When adding finds room, and which runs survive.

  ghost function NamesIn<V>(t: Table<V>): set<string> { set i | 0 <= i < |t| :: t[i].key }

  lemma {:induction false} CountOfNames<V>(t: Table<V>)
    requires Distinct(t)
    ensures |NamesIn(t)| == |t|
  {
    if t != [] {
      var up, last := t[..|t| - 1], t[|t| - 1].key;
      CountOfNames(up);
      assert last !in NamesIn(up);
      assert NamesIn(t) == NamesIn(up) + {last};
    }
  }

  /** A name is needed that is not there, and there are as many as an array can hold. */
  ghost predicate FullSet(names: set<string>, name: string) { name !in names && |names| >= 65535 }

  lemma FullIsFullSet<V>(t: Table<V>, names: set<string>, name: string)
    requires Distinct(t) && forall n: string :: Has(t, n) <==> n in names
    ensures Full(t, name) <==> FullSet(names, name)
  {
    CountOfNames(t);
    forall n ensures n in NamesIn(t) <==> n in names {
      if n in NamesIn(t) {
        var i :| 0 <= i < |t| && t[i].key == n;
        FindIs(t, n, i);
      }
    }
    assert NamesIn(t) == names;
  }

  ghost function ServicesOn(m: map<Key, Method>): set<string> { set k | k in m :: k.service }

  ghost function PathsOn(m: map<Key, Method>, service: string): set<string> {
    set k | k in m && k.service == service :: k.path
  }

  ghost function InterfacesOn(m: map<Key, Method>, service: string, path: string): set<string> {
    set k | k in m && k.service == service && k.path == path :: k.interface_
  }

  ghost function MethodsOn(m: map<Key, Method>, service: string, path: string, interface_: string): set<string> {
    set k | k in m && k.service == service && k.path == path && k.interface_ == interface_ :: k.method_
  }

  /** Some level has no name of the key and as many names as an array can hold. */
  ghost predicate NoRoomOn(m: map<Key, Method>, k: Key) {
    || FullSet(ServicesOn(m), k.service)
    || FullSet(PathsOn(m, k.service), k.path)
    || FullSet(InterfacesOn(m, k.service, k.path), k.interface_)
    || FullSet(MethodsOn(m, k.service, k.path, k.interface_), k.method_)
  }

  lemma LevelsAreSound(t: Services, k: Key)
    requires SoundServices(t)
    ensures Distinct(ObjectsOf(t, k.service))
    ensures Distinct(GetOr(ObjectsOf(t, k.service), k.path, []))
    ensures Distinct(InterfaceOf(ObjectsOf(t, k.service), k))
  {
    var os := ObjectsOf(t, k.service);
    assert os == [] || SoundObjects(os);
    var o := GetOr(os, k.path, []);
    assert o == [] || SoundObject(o);
    var f := GetOr(o, k.interface_, []);
    assert f == [] || SoundInterface(f);
  }

  /** The levels below the services are full on the arrays when they are full on the map. */
  lemma NoRoomBelow(t: Services, m: map<Key, Method>, k: Key)
    requires SoundServices(t) && Represents(t, m)
    ensures NoRoom(ObjectsOf(t, k.service), k) <==>
            || FullSet(PathsOn(m, k.service), k.path)
            || FullSet(InterfacesOn(m, k.service, k.path), k.interface_)
            || FullSet(MethodsOn(m, k.service, k.path, k.interface_), k.method_)
  {
    LevelsAreSound(t, k);
    var os := ObjectsOf(t, k.service);
    forall n: string ensures Has(os, n) <==> n in PathsOn(m, k.service) {
      ObjectSlotIffOffered(t, m, k.service, n);
    }
    FullIsFullSet(os, PathsOn(m, k.service), k.path);
    forall n: string ensures Has(GetOr(os, k.path, []), n) <==> n in InterfacesOn(m, k.service, k.path) {
      InterfaceSlotIffOffered(t, m, k.service, k.path, n);
    }
    FullIsFullSet(GetOr(os, k.path, []), InterfacesOn(m, k.service, k.path), k.interface_);
    forall n: string ensures Has(InterfaceOf(os, k), n) <==> n in MethodsOn(m, k.service, k.path, k.interface_) {
      MethodSlot(t, m, Key(k.service, k.path, k.interface_, n));
    }
    FullIsFullSet(InterfaceOf(os, k), MethodsOn(m, k.service, k.path, k.interface_), k.method_);
  }

  lemma MethodSlot(t: Services, m: map<Key, Method>, k: Key)
    requires Represents(t, m)
    ensures Has(InterfaceOf(ObjectsOf(t, k.service), k), k.method_) <==>
            k.method_ in MethodsOn(m, k.service, k.path, k.interface_)
  {
    assert Lookup(t, k) == if k in m then Some(m[k]) else None;
    assert k.method_ in MethodsOn(m, k.service, k.path, k.interface_) <==> k in m by {
      if k.method_ in MethodsOn(m, k.service, k.path, k.interface_) {
        var other :| other in m && other.service == k.service && other.path == k.path
                     && other.interface_ == k.interface_ && other.method_ == k.method_;
        assert other == k;
      }
    }
  }

  /** An add comes back, with or without its connection, exactly when no level it needs a name in is full. */
  lemma AddReturnsExactlyWhen(t: Services, m: map<Key, Method>, k: Key, v: Method, conn: Option<nat>)
    requires SoundServices(t) && Represents(t, m)
    ensures Step(t, Add(k, v, conn)).Some? <==> !NoRoomOn(m, k)
  {
    hide SoundServices, Represents, FullSet, ServicesOn, PathsOn, InterfacesOn, MethodsOn;
    hide PutService, NoRoom, Full, ObjectsOf;
    assert Full(t, k.service) <==> FullSet(ServicesOn(m), k.service) by {
      NoRoomAtTop(t, m, k.service);
    }
    assert NoRoom(ObjectsOf(t, k.service), k) <==>
           || FullSet(PathsOn(m, k.service), k.path)
           || FullSet(InterfacesOn(m, k.service, k.path), k.interface_)
           || FullSet(MethodsOn(m, k.service, k.path, k.interface_), k.method_) by {
      NoRoomBelow(t, m, k);
    }
    if !Has(t, k.service) {
      NewServiceHasRoom(t, k);
    }
  }

  lemma NoRoomAtTop(t: Services, m: map<Key, Method>, service: string)
    requires SoundServices(t) && Represents(t, m)
    ensures Full(t, service) <==> FullSet(ServicesOn(m), service)
  {
    forall n: string ensures Has(t, n) <==> n in ServicesOn(m) {
      ServiceSlotIffOffered(t, m, n);
    }
    FullIsFullSet(t, ServicesOn(m), service);
  }

  lemma NewServiceHasRoom(t: Services, k: Key)
    requires !Has(t, k.service)
    ensures !NoRoom(ObjectsOf(t, k.service), k)
  {
  }

  /**
   Along the run on the map, no removal takes a service away beside others and no add needs a name where there is no
   room.
   */
  ghost predicate Survives(m: map<Key, Method>, ops: seq<Op>)
    decreases |ops|
  {
    ops == [] ||
    (&& (match ops[0]
         case Add(k, _, _) => !NoRoomOn(m, k)
         case Remove(k) => !TakesServiceAway(m, k))
     && Survives(MapStep(m, ops[0]), ops[1..]))
  }

  lemma {:induction false} RunRefinesMapFrom(t: Services, m: map<Key, Method>, ops: seq<Op>)
    requires SoundServices(t) && Represents(t, m)
    ensures Run(t, ops).Some? <==> Survives(m, ops)
    ensures Run(t, ops).Some? ==> SoundServices(Run(t, ops).value) && Represents(Run(t, ops).value, MapRun(m, ops))
    decreases |ops|
  {
    if ops != [] {
      var op := ops[0];
      match op {
        case Add(k, v, conn) => AddReturnsExactlyWhen(t, m, k, v, conn);
        case Remove(k) => RemoveDeletesExactlyWhen(t, m, k);
      }
      hide Step, MapStep, SoundServices, Represents, NoRoomOn, TakesServiceAway;
      if Step(t, op).Some? {
        StepRefinesMap(t, m, op);
        RunRefinesMapFrom(Step(t, op).value, MapStep(m, op), ops[1..]);
      }
    }
  }

  /**
   A run from an empty registry is survived exactly when the run on the map says so, and then it ends in arrays that
   represent the run on the map.
   */
  lemma RunRefinesMap(ops: seq<Op>)
    ensures Run([], ops).Some? <==> Survives(map[], ops)
    ensures Run([], ops).Some? ==>
              SoundServices(Run([], ops).value) && Represents(Run([], ops).value, MapRun(map[], ops))
  {
    RunRefinesMapFrom([], map[], ops);
  }

  // ---- The order of slots.

  /** The names of a level, slot by slot. */
  function Names<V>(t: Table<V>): seq<string> { seq(|t|, i requires 0 <= i < |t| => t[i].key) }

  function Appended(names: seq<string>, name: string): seq<string> { if name in names then names else names + [name] }

  function Without(names: seq<string>, name: string): seq<string> {
    if names == [] then [] else (if names[0] == name then [] else [names[0]]) + Without(names[1..], name)
  }

  lemma HasIsNamed<V>(t: Table<V>, name: string)
    ensures Has(t, name) <==> name in Names(t)
  {
    assert Has(t, name) ==> Names(t)[Find(t, name)] == name;
  }

  lemma {:induction false} WithoutAbsent(names: seq<string>, name: string)
    requires name !in names
    ensures Without(names, name) == names
  {
    if names != [] {
      WithoutAbsent(names[1..], name);
    }
  }

  lemma {:induction false} WithoutOne(names: seq<string>, name: string, i: nat)
    requires i < |names| && names[i] == name && forall j :: 0 <= j < |names| && names[j] == name ==> j == i
    ensures Without(names, name) == names[..i] + names[i + 1..]
  {
    if i == 0 {
      WithoutAbsent(names[1..], name);
    } else {
      WithoutOne(names[1..], name, i - 1);
      assert names[..i] == [names[0]] + names[1..][..i - 1];
    }
  }

  /** A new name comes last; storing under one that is there moves nothing. */
  lemma PutAppends<V>(t: Table<V>, name: string, v: V)
    ensures Names(Put(t, name, v)) == Appended(Names(t), name)
  {
    HasIsNamed(t, name);
  }

  /** Taking a name out moves the others up, in their order. */
  lemma DropTakesOut<V>(t: Table<V>, name: string)
    requires Distinct(t)
    ensures Names(Drop(t, name)) == Without(Names(t), name)
  {
    HasIsNamed(t, name);
    if Has(t, name) {
      var i := Find(t, name);
      WithoutOne(Names(t), name, i);
      assert Names(Drop(t, name)) == Names(t)[..i] + Names(t)[i + 1..];
    } else {
      WithoutAbsent(Names(t), name);
    }
  }

  lemma PutOrDropNames<W>(t: Table<Table<W>>, name: string, inner: Table<W>)
    requires Distinct(t)
    ensures Names(PutOrDrop(t, name, inner)) ==
            if inner == [] then Without(Names(t), name) else Appended(Names(t), name)
  {
    if inner == [] {
      DropTakesOut(t, name);
    } else {
      PutAppends(t, name, inner);
    }
  }

  function ObjectOf(t: Services, service: string, path: string): Object { GetOr(ObjectsOf(t, service), path, []) }

  function MethodsOf(t: Services, service: string, path: string, interface_: string): Interface {
    GetOr(ObjectOf(t, service, path), interface_, [])
  }

  /** At each level an add puts a name that is new there behind all others, and leaves every other order alone. */
  lemma AddKeepsOrder(t: Services, k: Key, m: Method, conn: nat, s: string, p: string, i: string)
    ensures var r := PutService(t, k, m, conn);
            && Names(r) == Appended(Names(t), k.service)
            && Names(ObjectsOf(r, s)) ==
               (if s == k.service then Appended(Names(ObjectsOf(t, s)), k.path) else Names(ObjectsOf(t, s)))
            && Names(ObjectOf(r, s, p)) ==
               (if (s, p) == (k.service, k.path) then Appended(Names(ObjectOf(t, s, p)), k.interface_)
                else Names(ObjectOf(t, s, p)))
            && Names(MethodsOf(r, s, p, i)) ==
               (if (s, p, i) == (k.service, k.path, k.interface_) then Appended(Names(MethodsOf(t, s, p, i)), k.method_)
                else Names(MethodsOf(t, s, p, i)))
  {
    var os := ObjectsOf(t, k.service);
    var o := GetOr(os, k.path, []);
    var f := GetOr(o, k.interface_, []);
    var c := if Has(t, k.service) then t[Find(t, k.service)].val.conn else conn;
    PutAppends(t, k.service, Service(c, PutObject(os, k, m)));
    PutAppends(os, k.path, PutInterface(o, k, m));
    PutAppends(o, k.interface_, Put(f, k.method_, m));
    PutAppends(f, k.method_, m);
    ObjectsOfPut(t, k.service, Service(c, PutObject(os, k, m)), s);
    GetOfPut(os, k.path, PutInterface(o, k, m), p);
    GetOfPut(o, k.interface_, Put(f, k.method_, m), i);
    hide Put, Names, Appended, Find, Get;
  }

  /** At each level a removal takes the names out that nothing is left under, and leaves the others in their order. */
  lemma RemoveKeepsOrder(t: Services, m: map<Key, Method>, k: Key, s: string)
    requires SoundServices(t) && Represents(t, m)
    ensures var r := DropService(t, k);
            && Names(r) == (if Offers(m - {k}, k.service) then Names(t) else Without(Names(t), k.service))
            && Names(ObjectsOf(r, s)) ==
               (if s != k.service || OffersObject(m - {k}, s, k.path) then Names(ObjectsOf(t, s))
                else Without(Names(ObjectsOf(t, s)), k.path))
  {
    var r := DropService(t, k);
    RemoveKeepsSound(t, k);
    RemoveRefinesMap(t, m, k);
    ServiceSlotIffOffered(r, m - {k}, k.service);
    ObjectSlotIffOffered(r, m - {k}, k.service, k.path);
    hide Represents, Offers, OffersObject;
    ServiceNamesAfter(t, k);
    ObjectNamesAfter(t, k, s);
  }

  lemma ServiceNamesAfter(t: Services, k: Key)
    requires SoundServices(t)
    ensures var r := DropService(t, k);
            Names(r) == if Has(r, k.service) then Names(t) else Without(Names(t), k.service)
  {
    HasIsNamed(t, k.service);
    if Has(t, k.service) {
      var s := t[Find(t, k.service)].val;
      DropTakesOut(t, k.service);
      PutAppends(t, k.service, Service(s.conn, DropObject(s.objects, k)));
      GetOfPut(t, k.service, Service(s.conn, DropObject(s.objects, k)), k.service);
      GetOfDrop(t, k.service, k.service);
    } else {
      WithoutAbsent(Names(t), k.service);
    }
  }

  lemma ObjectNamesAfter(t: Services, k: Key, s: string)
    requires SoundServices(t)
    ensures var r := DropService(t, k);
            Names(ObjectsOf(r, s)) ==
            if s != k.service || Has(ObjectsOf(r, s), k.path) then Names(ObjectsOf(t, s))
            else Without(Names(ObjectsOf(t, s)), k.path)
  {
    var r, os := DropService(t, k), ObjectsOf(t, k.service);
    if Has(t, k.service) {
      var was := t[Find(t, k.service)].val;
      assert SoundObjects(os);
      GetOfDrop(t, k.service, s);
      ObjectsOfPut(t, k.service, Service(was.conn, DropObject(os, k)), s);
      assert ObjectsOf(r, s) == if s == k.service then DropObject(os, k) else ObjectsOf(t, s);
      var inner := DropInterface(GetOr(os, k.path, []), k);
      PutOrDropNames(os, k.path, inner);
      GetOfPutOrDrop(os, k.path, inner, k.path);
      HasIsNamed(os, k.path);
      AbsentPathStays(os, k);
    } else {
      WithoutAbsent([], k.path);
    }
  }

  /** Where the path is not there to begin with nothing is taken out. */
  lemma AbsentPathStays(os: Objects, k: Key)
    requires SoundObjects(os)
    ensures !Has(os, k.path) ==> DropInterface(GetOr(os, k.path, []), k) == []
    ensures Has(DropObject(os, k), k.path) <==> DropInterface(GetOr(os, k.path, []), k) != []
  {
    var inner := DropInterface(GetOr(os, k.path, []), k);
    GetOfPut(os, k.path, inner, k.path);
    GetOfDrop(os, k.path, k.path);
  }

  /** The order of first registration of what is still offered, for the services and for the paths of one of them. */
  ghost function ServicesInOrder(order: seq<string>, m: map<Key, Method>, ops: seq<Op>): seq<string>
    decreases |ops|
  {
    if ops == [] then order
    else ServicesInOrder(ServiceOrderStep(order, m, ops[0]), MapStep(m, ops[0]), ops[1..])
  }

  ghost function ServiceOrderStep(order: seq<string>, m: map<Key, Method>, op: Op): seq<string> {
    match op
    case Add(k, _, conn) => if conn.None? && !Offers(m, k.service) then order else Appended(order, k.service)
    case Remove(k) => if Offers(m - {k}, k.service) then order else Without(order, k.service)
  }

  ghost function PathsInOrder(order: seq<string>, service: string, m: map<Key, Method>, ops: seq<Op>): seq<string>
    decreases |ops|
  {
    if ops == [] then order
    else PathsInOrder(PathOrderStep(order, service, m, ops[0]), service, MapStep(m, ops[0]), ops[1..])
  }

  ghost function PathOrderStep(order: seq<string>, service: string, m: map<Key, Method>, op: Op): seq<string> {
    if op.k.service != service then order
    else match op
      case Add(k, _, conn) => if conn.None? && !Offers(m, service) then order else Appended(order, k.path)
      case Remove(k) => if OffersObject(m - {k}, service, k.path) then order else Without(order, k.path)
  }

  lemma StepKeepsOrder(t: Services, m: map<Key, Method>, op: Op, service: string)
    requires SoundServices(t) && Represents(t, m) && Step(t, op).Some?
    ensures var r := Step(t, op).value;
            && Names(r) == ServiceOrderStep(Names(t), m, op)
            && Names(ObjectsOf(r, service)) == PathOrderStep(Names(ObjectsOf(t, service)), service, m, op)
  {
    match op {
      case Add(k, v, conn) =>
        AddStepIs(t, m, k, v, conn);
        hide Represents, Offers, Step, Appended, Names, ObjectsOf, PutService, SoundServices;
        AddKeepsOrder(t, k, v, conn.GetOr(0), service, "", "");
      case Remove(k) =>
        RemoveKeepsOrder(t, m, k, service);
        hide Represents, Offers, OffersObject, Without, Names, ObjectsOf, DropService, SoundServices, RemoveOutcome;
    }
  }

  lemma AddStepIs(t: Services, m: map<Key, Method>, k: Key, v: Method, conn: Option<nat>)
    requires SoundServices(t) && Represents(t, m) && Step(t, Add(k, v, conn)).Some?
    ensures Step(t, Add(k, v, conn)).value ==
            if conn.None? && !Offers(m, k.service) then t else PutService(t, k, v, conn.GetOr(0))
  {
    ServiceSlotIffOffered(t, m, k.service);
    hide Represents, SoundServices, Offers, PutService;
  }

  lemma {:induction false} RunKeepsOrderFrom(t: Services, m: map<Key, Method>, ops: seq<Op>, service: string)
    requires SoundServices(t) && Represents(t, m) && Run(t, ops).Some?
    ensures Names(Run(t, ops).value) == ServicesInOrder(Names(t), m, ops)
    ensures Names(ObjectsOf(Run(t, ops).value, service)) ==
            PathsInOrder(Names(ObjectsOf(t, service)), service, m, ops)
    decreases |ops|
  {
    if ops != [] {
      StepRefinesMap(t, m, ops[0]);
      StepKeepsOrder(t, m, ops[0], service);
      hide Step, MapStep, SoundServices, Represents, Names, ObjectsOf, ServiceOrderStep, PathOrderStep;
      RunKeepsOrderFrom(Step(t, ops[0]).value, MapStep(m, ops[0]), ops[1..], service);
    }
  }

  /** Over every run that is survived, services and the paths of each stand in the order of their registration. */
  lemma RunKeepsOrder(ops: seq<Op>, service: string)
    requires Survives(map[], ops)
    ensures Run([], ops).Some?
    ensures Names(Run([], ops).value) == ServicesInOrder([], map[], ops)
    ensures Names(ObjectsOf(Run([], ops).value, service)) == PathsInOrder([], service, map[], ops)
  {
    RunRefinesMap(ops);
    RunKeepsOrderFrom([], map[], ops, service);
  }

  // ---- Adding and then removing.

  lemma AddThenRemoveBelow(os: Objects, k: Key, m: Method)
    requires os == [] || SoundObjects(os)
    requires LookupIn(os, k).None?
    ensures DropObject(PutObject(os, k, m), k) == os
  {
    var o := GetOr(os, k.path, []);
    assert o == [] || SoundObject(o);
    var f := GetOr(o, k.interface_, []);
    assert f == [] || SoundInterface(f);
    DropOfNew(f, k.method_, m);
    RestoreLevel(o, k.interface_, Put(f, k.method_, m));
    RestoreLevel(os, k.path, PutInterface(o, k, m));
  }

  /** Storing a changed inner table and then the one that was there before restores the level. */
  lemma RestoreLevel<W>(t: Table<Table<W>>, name: string, inner: Table<W>)
    requires Has(t, name) ==> Get(t, name).value != []
    ensures GetOr(Put(t, name, inner), name, []) == inner
    ensures PutOrDrop(Put(t, name, inner), name, GetOr(t, name, [])) == t
  {
    GetOfPut(t, name, inner, name);
    if Has(t, name) {
      PutTwice(t, name, inner, Get(t, name).value);
      PutSame(t, name);
    } else {
      DropOfNew(t, name, inner);
    }
  }

  /**
   Adding an absent key and removing it restores every array, order included, whether one method or
   a whole new chain was created; the removal comes back exactly when the service was there before or
   no other service was.
   */
  lemma AddThenRemoveRestores(t: Services, k: Key, m: Method, conn: Option<nat>)
    requires SoundServices(t) && Lookup(t, k).None? && AddOutcome(t, k, conn) == Returned
    ensures DropService(PutService(t, k, m, conn.GetOr(0)), k) == t
    ensures RemoveOutcome(PutService(t, k, m, conn.GetOr(0)), k) == Returned <==> Has(t, k.service) || t == []
  {
    var os := ObjectsOf(t, k.service);
    assert os == [] || SoundObjects(os);
    var c := if Has(t, k.service) then t[Find(t, k.service)].val.conn else conn.GetOr(0);
    var s := Service(c, PutObject(os, k, m));
    var added := PutService(t, k, m, conn.GetOr(0));
    GetOfPut(t, k.service, s, k.service);
    AddThenRemoveBelow(os, k, m);
    AddIsMapUpdate(t, k, m, conn.GetOr(0), k);
    if Has(t, k.service) {
      PutTwice(t, k.service, s, Service(c, os));
      PutSame(t, k.service);
    } else {
      DropOfNew(t, k.service, s);
    }
  }
}
