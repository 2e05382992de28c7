/**
 The method registry of `src/oddjob_dbus.c`: services hold objects, objects hold interfaces,
 interfaces hold methods, each level an array of structs.

 The functions say what adding and removing mean on the nested arrays; the methods of `Context`
 are the program's in-place operations, including how they end when a resize runs into its limit
 and what the service-level removal really does.
 */
module Registry {
  import opened CStrings
  import Arrays
  import opened Entries
  import opened Tables

  /** `handler` is None for a NULL function pointer; `data` is passed through untouched. */
  datatype Method = Method(nArguments: int, handler: Option<nat>, data: nat)

  type Interface = Table<Method>
  type Object = Table<Interface>
  type Objects = Table<Object>

  datatype Service = Service(conn: nat, objects: Objects)

  type Services = Table<Service>

  datatype Key = Key(service: string, path: string, interface_: string, method_: string)

  /**
   How a call ends: it returns, a service's connection cannot be made, the process exits, or the
   program writes to memory it has given back, which C leaves undefined.
   */
  datatype Outcome = Returned | ConnectFailed | Exited | Undefined

  function InterfaceOf(os: Objects, k: Key): Interface { GetOr(GetOr(os, k.path, []), k.interface_, []) }

  function LookupIn(os: Objects, k: Key): Option<Method> { Get(InterfaceOf(os, k), k.method_) }

  function ObjectsOf(t: Services, service: string): Objects {
    if Has(t, service) then t[Find(t, service)].val.objects else []
  }

  function Lookup(t: Services, k: Key): Option<Method> { LookupIn(ObjectsOf(t, k.service), k) }

  // ---- What adding and removing mean, level by level.

  function PutInterface(o: Object, k: Key, m: Method): Object {
    Put(o, k.interface_, Put(GetOr(o, k.interface_, []), k.method_, m))
  }

  function PutObject(os: Objects, k: Key, m: Method): Objects {
    Put(os, k.path, PutInterface(GetOr(os, k.path, []), k, m))
  }

  function PutService(t: Services, k: Key, m: Method, conn: nat): Services {
    Put(t, k.service, Service(if Has(t, k.service) then t[Find(t, k.service)].val.conn else conn,
                              PutObject(ObjectsOf(t, k.service), k, m)))
  }

  function DropInterface(o: Object, k: Key): Object {
    PutOrDrop(o, k.interface_, Drop(GetOr(o, k.interface_, []), k.method_))
  }

  function DropObject(os: Objects, k: Key): Objects {
    PutOrDrop(os, k.path, DropInterface(GetOr(os, k.path, []), k))
  }

  function DropService(t: Services, k: Key): Services {
    if !Has(t, k.service) then t
    else
      var s := t[Find(t, k.service)].val;
      if DropObject(s.objects, k) == [] then Drop(t, k.service)
      else Put(t, k.service, Service(s.conn, DropObject(s.objects, k)))
  }

  // ---- When the program's calls return.

  predicate NoRoom(os: Objects, k: Key) {
    Full(os, k.path) || Full(GetOr(os, k.path, []), k.interface_) || Full(InterfaceOf(os, k), k.method_)
  }

  function AddOutcome(t: Services, k: Key, conn: Option<nat>): Outcome {
    if Full(t, k.service) then Exited
    else if !Has(t, k.service) && conn.None? then ConnectFailed
    else if NoRoom(ObjectsOf(t, k.service), k) then Exited
    else Returned
  }

  /** The method is the only one of its service. */
  predicate OnlyMethodOfService(t: Services, k: Key) {
    Lookup(t, k).Some? && DropObject(ObjectsOf(t, k.service), k) == []
  }

  /**
   Taking away a service while others remain resizes the array of services by the count of
   objects found in the removed service's slot, not by the count of services.  In the last slot that
   count is 0, so the new size wraps around and the resizer exits; in any other slot it belongs to
   the next service, and it is counted down after the array that holds it was given back.
   */
  function RemoveOutcome(t: Services, k: Key): Outcome {
    if OnlyMethodOfService(t, k) && |t| > 1 then
      if Find(t, k.service) == |t| - 1 then Exited else Undefined
    else Returned
  }

  // ---- The invariant.

  ghost predicate SoundInterface(f: Interface) { f != [] && Sound(f, (m: Method) => true) }

  ghost predicate SoundObject(o: Object) { o != [] && Sound(o, f => SoundInterface(f)) }

  ghost predicate SoundObjects(os: Objects) { os != [] && Sound(os, o => SoundObject(o)) }

  /** Names are unique at every level, no level below the registry itself is empty, and no array is over the limit. */
  ghost predicate SoundServices(t: Services) { Sound(t, (s: Service) => SoundObjects(s.objects)) }

  // ---- The program.

  class Context {
    var services: Services  // the block in use; a failed add leaves it one slot longer than counted
    var nServices: nat

    ghost predicate Valid()
      reads this
    {
      nServices <= |services| && SoundServices(Live())
    }

    ghost function Live(): Services
      reads this
      requires nServices <= |services|
    {
      services[..nServices]
    }

    constructor ()
      ensures Valid() && Live() == []
    {
      services, nServices := [], 0;
    }

    /** `conn` is what connecting to the bus under the service's name yields, should it be tried. */
    method AddMethod(k: Key, nArguments: int, handler: Option<nat>, data: nat, conn: Option<nat>)
      returns (outcome: Outcome)
      requires Valid()
      modifies this
      ensures outcome == AddOutcome(old(Live()), k, conn)
      ensures outcome == Returned ==>
                Valid() && Live() == PutService(old(Live()), k, Method(nArguments, handler, data), conn.GetOr(0))
      ensures outcome == ConnectFailed ==> Valid() && Live() == old(Live())
      ensures outcome == ConnectFailed <==>
                conn.None? && |old(Live())| < 65535 && forall s :: s in old(Live()) ==> s.key != k.service
    {
      ghost var was := Live();
      var i := Search(services[..nServices], k.service);
      if i >= nServices {
        if i + 1 > Arrays.LIMIT {
          return Exited;
        }
        services := Arrays.Resized(services, nServices, i + 1, Entry("", Service(0, [])));
        services := services[i := Entry(k.service, Service(0, []))];
        assert Live() == was;
        if conn.None? {
          return ConnectFailed;
        }
        services := services[i := Entry(k.service, Service(conn.value, []))];
        nServices := i + 1;
      }
      var s := services[i].val;
      assert s.objects == ObjectsOf(was, k.service);
      ghost var before := Live();
      var ok, objects := AddToObjects(s.objects, k, Method(nArguments, handler, data));
      if !ok {
        return Exited;
      }
      services := services[i := Entry(k.service, Service(s.conn, objects))];
      assert Live() == before[i := Entry(k.service, Service(s.conn, objects))];
      assert Live() == PutService(was, k, Method(nArguments, handler, data), conn.GetOr(0));
      AddKeepsSound(was, k, Method(nArguments, handler, data), conn);
      return Returned;
    }

    method RemoveMethod(k: Key) returns (outcome: Outcome)
      requires Valid()
      modifies this
      ensures outcome == RemoveOutcome(old(Live()), k)
      ensures outcome == Returned ==> Valid() && Live() == DropService(old(Live()), k)
    {
      ghost var was := Live();
      RemoveKeepsSound(was, k);
      var i := Search(services[..nServices], k.service);
      if i >= nServices {
        return Returned;
      }
      var s := services[i].val;
      var found, objects := RemoveFromObjects(s.objects, k);
      if !found {
        AbsentDropsNothing(was, k);
        return Returned;
      }
      services := services[i := Entry(k.service, Service(s.conn, objects))];
      if objects != [] {
        assert Live() == was[i := Entry(k.service, Service(s.conn, objects))];
        return Returned;
      }
      assert forall j :: 0 <= j < |was| ==> SoundObjects(was[j].val.objects);
      hide SoundServices, SoundObjects;
      outcome := TakeOutService(i);
    }

    /** The service in slot `i` has no objects left. */
    method TakeOutService(i: nat) returns (outcome: Outcome)
      requires i < nServices <= |services|
      requires forall j :: 0 <= j < nServices ==> (services[j].val.objects == [] <==> j == i)
      modifies this
      ensures outcome == if old(nServices) == 1 then Returned else if i == old(nServices) - 1 then Exited else Undefined
      ensures outcome == Returned ==> nServices == 0
    {
      if nServices > 1 {
        var n := nServices;
        services := services[..i] + services[i + 1..n] + services[n - 1..];
        // `srv` still points at slot i
        if |services[i].val.objects| == 0 {
          return Exited;  // the wanted size is (size_t) -1
        }
        return Undefined;
      }
      services := Arrays.Resized(services, |services[i].val.objects|, 0, services[0]);
      nServices := 0;
      return Returned;
    }
  }

  /** Below a service: find or create object, interface and method, then set the method's pointers. */
  method AddToObjects(os: Objects, k: Key, m: Method) returns (ok: bool, r: Objects)
    ensures ok <==> !NoRoom(os, k)
    ensures ok ==> r == PutObject(os, k, m)
  {
    var objects, j;
    ok, objects, j := Slot(os, k.path, []);
    if !ok {
      return false, os;
    }
    var interfaces, i;
    ok, interfaces, i := Slot(objects[j].val, k.interface_, []);
    if !ok {
      return false, os;
    }
    var methods, l;
    ok, methods, l := Slot(interfaces[i].val, k.method_, Method(0, None, 0));
    if !ok {
      return false, os;
    }
    methods := methods[l := Entry(k.method_, m)];
    interfaces := interfaces[i := Entry(k.interface_, methods)];
    r := objects[j := Entry(k.path, interfaces)];
  }

  /** Below a service: find the method, close up its array, and take emptied levels away with it. */
  method RemoveFromObjects(os: Objects, k: Key) returns (found: bool, r: Objects)
    requires SoundObjects(os)
    ensures found <==> LookupIn(os, k).Some?
    ensures found ==> r == DropObject(os, k)
  {
    r := os;
    var j := Search(os, k.path);
    if j == |os| {
      return false, os;
    }
    var obj := os[j].val;
    var i := Search(obj, k.interface_);
    if i == |obj| {
      return false, os;
    }
    var interf := obj[i].val;
    var l := Search(interf, k.method_);
    if l == |interf| {
      return false, os;
    }
    found := true;
    interf := CloseUp(interf, l);
    if |interf| > 0 {
      obj := obj[i := Entry(k.interface_, interf)];
      r := os[j := Entry(k.path, obj)];
      return;
    }
    obj := CloseUp(obj, i);
    if |obj| > 0 {
      r := os[j := Entry(k.path, obj)];
      return;
    }
    r := CloseUp(os, j);
  }

  // ---- The invariant is kept.

  lemma PutKeepsSound(os: Objects, k: Key, m: Method)
    requires os == [] || SoundObjects(os)
    requires !NoRoom(os, k)
    ensures SoundObjects(PutObject(os, k, m))
  {
    var o := GetOr(os, k.path, []);
    assert o == [] || SoundObject(o);
    var f := GetOr(o, k.interface_, []);
    assert f == [] || SoundInterface(f);
    SoundPut(f, k.method_, m, (m: Method) => true);
    SoundPut(o, k.interface_, Put(f, k.method_, m), f => SoundInterface(f));
    SoundPut(os, k.path, PutInterface(o, k, m), o => SoundObject(o));
  }

  lemma AddKeepsSound(t: Services, k: Key, m: Method, conn: Option<nat>)
    requires SoundServices(t) && AddOutcome(t, k, conn) == Returned
    ensures SoundServices(PutService(t, k, m, conn.GetOr(0)))
  {
    var os := ObjectsOf(t, k.service);
    assert os == [] || SoundObjects(os);
    PutKeepsSound(os, k, m);
  }

  lemma DropKeepsSound(os: Objects, k: Key)
    requires SoundObjects(os)
    ensures DropObject(os, k) == [] || SoundObjects(DropObject(os, k))
  {
    var o := GetOr(os, k.path, []);
    assert o == [] || SoundObject(o);
    var f := GetOr(o, k.interface_, []);
    assert f == [] || SoundInterface(f);
    SoundDrop(f, k.method_, (m: Method) => true);
    SoundDrop(o, k.interface_, f => SoundInterface(f));
    SoundDrop(os, k.path, o => SoundObject(o));
  }

  lemma RemoveKeepsSound(t: Services, k: Key)
    requires SoundServices(t)
    ensures SoundServices(DropService(t, k))
  {
    if Has(t, k.service) {
      DropKeepsSound(ObjectsOf(t, k.service), k);
      SoundDrop(t, k.service, (s: Service) => SoundObjects(s.objects));
    }
  }

  lemma DropOfAbsent(os: Objects, k: Key)
    requires SoundObjects(os) && LookupIn(os, k).None?
    ensures DropObject(os, k) == os
  {
    var o := GetOr(os, k.path, []);
    assert o == [] || SoundObject(o);
    var f := GetOr(o, k.interface_, []);
    assert Drop(f, k.method_) == f;
    assert DropInterface(o, k) == o by {
      if Has(o, k.interface_) {
        assert SoundInterface(f);
        PutSame(o, k.interface_);
      }
    }
    if Has(os, k.path) {
      PutSame(os, k.path);
    }
  }

  /** Removing a method that is not there changes nothing. */
  lemma AbsentDropsNothing(t: Services, k: Key)
    requires SoundServices(t) && Lookup(t, k).None?
    ensures DropService(t, k) == t
  {
    if Has(t, k.service) {
      DropOfAbsent(ObjectsOf(t, k.service), k);
    }
  }
}
