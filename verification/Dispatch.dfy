/**
 The message filter of `src/oddjob_dbus.c`: it finds the service, object, interface and method a
 message is for, and either calls the handler or answers with one error.
 */
module Dispatch {
  import opened CStrings
  import Arrays
  import opened Entries
  import opened Tables
  import opened Registry
  import opened Messages

  datatype Kind = MethodCall | Signal | OtherKind

  datatype Incoming = Incoming(kind: Kind, sender: Option<string>, destination: Option<string>, path: Option<string>,
                               interface_: Option<string>, member: Option<string>, body: seq<Value>)

  datatype Passwd = Passwd(name: string, uid: nat)

  /** The answers of `fnmatch`, of the bus and of the user database. */
  datatype World = World(matches: (string, string) -> bool, uidOf: string -> nat, passwd: nat -> Option<Passwd>)

  datatype ErrorName = UnknownSender | NoObject | NoInterface | NoMethod | UnimplementedMethod | UnknownUser
                     | InvalidCall

  /** The text that goes with an error; the one for an unknown sender is an array nobody wrote to. */
  datatype Detail = Unwritten | Text(s: string) | Uid(uid: nat) | WrongCount(expected: int, got: nat)

  datatype Event = Replied(error: ErrorName, detail: Detail)
                 | Called(handler: nat, service: string, path: string, interface_: string, member: string,
                          user: string, uid: nat, data: nat)

  const DBUS_SERVICE := "org.freedesktop.DBus"
  const DBUS_PATH := "/org/freedesktop/DBus"
  const DBUS_INTERFACE := "org.freedesktop.DBus"
  const LOCAL_PATH := "/org/freedesktop/DBus/Local"
  const LOCAL_INTERFACE := "org.freedesktop.DBus.Local"

  predicate IsSignal(msg: Incoming, interface_: string, member: string) {
    msg.kind == Signal && msg.interface_ == Some(interface_) && msg.member == Some(member)
  }

  predicate Disconnected(msg: Incoming) {
    || (msg.sender == Some(DBUS_SERVICE) && msg.path == Some(DBUS_PATH)
        && IsSignal(msg, DBUS_INTERFACE, "Disconnected"))
    || (msg.path == Some(LOCAL_PATH) && IsSignal(msg, LOCAL_INTERFACE, "Disconnected"))
  }

  /** A message the filter looks at: addressed, with path and member, and a method call if it names an interface. */
  predicate IsCall(reconnectTimeout: int, msg: Incoming) {
    && !(reconnectTimeout > 0 && Disconnected(msg))
    && msg.destination.Some? && msg.path.Some? && msg.member.Some?
    && (msg.interface_.Some? ==> msg.kind == MethodCall)
  }

  predicate HasLineEnd(args: seq<string>) { exists i :: 0 <= i < |args| && IndexOf(args[i], LINE_ENDS) < |args[i]| }

  // ---- Guessing the interface.

  /** Interface `i` is the only one of the object that provides the method. */
  ghost predicate OnlyProvider(obj: Object, method_: string, i: nat) {
    i < |obj| && Has(obj[i].val, method_) && forall j :: 0 <= j < |obj| && Has(obj[j].val, method_) ==> j == i
  }

  ghost function Guess(obj: Object, method_: string): Option<nat> {
    if exists i :: OnlyProvider(obj, method_, i) then
      var i :| OnlyProvider(obj, method_, i);
      Some(i)
    else None
  }

  /** An interface is found exactly when it is the object's only provider of the method. */
  method GuessInterface(obj: Object, method_: string) returns (found: Option<nat>)
    requires SoundObject(obj)
    ensures forall i: nat :: found == Some(i) <==> OnlyProvider(obj, method_, i)
    ensures found == Guess(obj, method_)
  {
    found := None;
    for i := 0 to |obj|
      invariant found.None? ==> forall j :: 0 <= j < i ==> !Has(obj[j].val, method_)
      invariant found.Some? ==> found.value < i && Has(obj[found.value].val, method_)
      invariant found.Some? ==> forall j :: 0 <= j < i && Has(obj[j].val, method_) ==> j == found.value
    {
      var f := obj[i].val;
      ghost var before := found;
      assert SoundInterface(f);
      for j := 0 to |f|
        invariant found == if Find(f, method_) < j then Some(i) else before
        invariant Find(f, method_) < j ==> before.None?
      {
        if f[j].key == method_ {
          FindIs(f, method_, j);
          if found.Some? {
            assert found.value != i && Has(f, method_);
            return None;
          }
          found := Some(i);
        }
      }
    }
  }

  // ---- Deciding.

  /** The first object whose pattern matches the path, or |os|. */
  function FindObject(os: Objects, path: string, w: World, from: nat): (i: nat)
    requires from <= |os|
    ensures from <= i <= |os|
    ensures i < |os| ==> w.matches(os[i].key, path)
    ensures forall j :: from <= j < i ==> !w.matches(os[j].key, path)
    decreases |os| - from
  {
    if from == |os| || w.matches(os[from].key, path) then from else FindObject(os, path, w, from + 1)
  }

  ghost function FindInterface(obj: Object, called: Option<string>, member: string): Option<nat> {
    match called
    case None => Guess(obj, member)
    case Some(name) => if Has(obj, name) then Some(Find(obj, name)) else None
  }

  /** The checks that come after the method was found, in their order. */
  function Checked(m: Method, service: string, path: string, interface_: string, member: string, sender: string,
                   args: seq<string>, w: World): Event
  {
    if m.handler.None? then Replied(UnimplementedMethod, Text(member))
    else
      var uid := w.uidOf(sender);
      var pwd := w.passwd(uid);
      if pwd.None? || pwd.value.uid != uid then Replied(UnknownUser, Uid(uid))
      else if HasLineEnd(args) then Replied(InvalidCall, Text("invalid invocation"))
      else if |args| != m.nArguments then Replied(InvalidCall, WrongCount(m.nArguments, |args|))
      else Called(m.handler.value, service, path, interface_, member, pwd.value.name, uid, m.data)
  }

  /** What one object's arrays make of a call. */
  ghost function DecideIn(obj: Object, service: string, msg: Incoming, w: World): Event
    requires msg.sender.Some? && msg.path.Some? && msg.member.Some?
  {
    var member := msg.member.value;
    var i := FindInterface(obj, msg.interface_, member);
    if i.None? || i.value >= |obj| then Replied(NoInterface, Text(msg.interface_.GetOr("")))
    else
      var f := obj[i.value];
      if !Has(f.val, member) then Replied(NoMethod, Text(member))
      else Checked(f.val[Find(f.val, member)].val, service, msg.path.value, f.key, member, msg.sender.value,
                   Strings(msg.body), w)
  }

  /** What a service's arrays make of a call. */
  ghost function Decide(s: Entry<string, Service>, msg: Incoming, w: World): Event
    requires msg.path.Some? && msg.member.Some?
  {
    var os := s.val.objects;
    var j := FindObject(os, msg.path.value, w, 0);
    if msg.sender.None? then Replied(UnknownSender, Unwritten)
    else if j == |os| then Replied(NoObject, Text(msg.path.value))
    else DecideIn(os[j].val, s.key, msg, w)
  }

  /** The first service on the connection, or |t|. */
  function FindConnection(t: Services, conn: nat, from: nat): (i: nat)
    requires from <= |t|
    ensures from <= i <= |t|
    ensures i < |t| ==> t[i].val.conn == conn
    ensures forall j :: from <= j < i ==> t[j].val.conn != conn
    decreases |t| - from
  {
    if from == |t| || t[from].val.conn == conn then from else FindConnection(t, conn, from + 1)
  }

  /**
   How the filter ends: message left alone, message handled, process exited over the argument limit,
   or a NULL service dereferenced.
   */
  datatype Ending = NotYetHandled | Handled | ProcessExits | NullService

  datatype Verdict = Verdict(ending: Ending, events: seq<Event>)

  /**
   A connection that no service has is not turned away (the test for it can never hold): the loop
   leaves the last service selected, or none at all when there are no services.
   */
  ghost function Filtered(t: Services, reconnectTimeout: int, conn: nat, msg: Incoming, w: World): Verdict {
    if !IsCall(reconnectTimeout, msg) then Verdict(NotYetHandled, [])
    else if |Strings(msg.body)| > Arrays.LIMIT then Verdict(ProcessExits, [])
    else
      var i := FindConnection(t, conn, 0);
      if i < |t| then Verdict(Handled, [Decide(t[i], msg, w)])
      else if msg.sender.None? then Verdict(Handled, [Replied(UnknownSender, Unwritten)])
      else if t == [] then Verdict(NullService, [])
      else Verdict(Handled, [Decide(t[|t| - 1], msg, w)])
  }

  method Filter(ctx: Context, reconnectTimeout: int, conn: nat, msg: Incoming, w: World)
    returns (ending: Ending, events: seq<Event>)
    requires ctx.Valid()
    ensures Verdict(ending, events) == Filtered(ctx.Live(), reconnectTimeout, conn, msg, w)
  {
    events := [];
    ghost var t := ctx.Live();
    var srv: Option<Entry<string, Service>> := None;
    var i := 0;
    while i < ctx.nServices
      invariant i <= ctx.nServices && FindConnection(t, conn, i) == FindConnection(t, conn, 0)
      invariant srv == if i == 0 then None else Some(t[i - 1])
    {
      srv := Some(ctx.services[i]);
      if ctx.services[i].val.conn == conn {
        break;
      }
      i := i + 1;
    }
    if i > ctx.nServices {
      assert false;  // never: the loop stops at nServices
    }
    if reconnectTimeout > 0 {
      if Disconnected(msg) {
        return NotYetHandled, events;
      }
    }
    if msg.destination.None? || msg.path.None? || msg.member.None? {
      return NotYetHandled, events;
    }
    if msg.interface_.Some? {
      if msg.kind != MethodCall {
        return NotYetHandled, events;
      }
    }
    var ok, message := FromMessage(Some(msg.body), false);
    if !ok {
      return ProcessExits, events;
    }
    if msg.sender.None? {
      events := events + [Replied(UnknownSender, Unwritten)];
      return Handled, events;
    }
    if srv.None? {
      return NullService, events;
    }
    events := Handle(srv.value, msg, message.args, w, events);
    return Handled, events;
  }

  /** The part of the filter behind the choice of the service: every path through it adds one event to the log. */
  method Handle(srv: Entry<string, Service>, msg: Incoming, args: seq<string>, w: World, log: seq<Event>)
    returns (events: seq<Event>)
    requires SoundObjects(srv.val.objects)
    requires msg.sender.Some? && msg.path.Some? && msg.member.Some? && args == Strings(msg.body)
    ensures events == log + [Decide(srv, msg, w)]
  {
    events := log;
    var path, member := msg.path.value, msg.member.value;
    var os := srv.val.objects;
    var i := 0;
    while i < |os|
      invariant i <= |os| && FindObject(os, path, w, i) == FindObject(os, path, w, 0)
    {
      if w.matches(os[i].key, path) {
        break;
      }
      i := i + 1;
    }
    if i >= |os| {
      events := events + [Replied(NoObject, Text(path))];
      return;
    }
    var obj := os[i].val;
    assert SoundObject(obj);
    var found: Option<nat>;
    if msg.interface_.None? {
      found := GuessInterface(obj, member);
    } else {
      i := Search(obj, msg.interface_.value);
      found := if i >= |obj| then None else Some(i);
    }
    if found.None? {
      events := events + [Replied(NoInterface, Text(msg.interface_.GetOr("")))];
      return;
    }
    var interface_ := obj[found.value];
    i := Search(interface_.val, member);
    if i >= |interface_.val| {
      events := events + [Replied(NoMethod, Text(member))];
      return;
    }
    var method_ := interface_.val[i].val;
    if method_.handler.None? {
      events := events + [Replied(UnimplementedMethod, Text(member))];
      return;
    }
    var uid := w.uidOf(msg.sender.value);
    var pwd := w.passwd(uid);
    if pwd.None? || pwd.value.uid != uid {
      events := events + [Replied(UnknownUser, Uid(uid))];
      return;
    }
    var j := 0;
    while j < |args|
      invariant j <= |args| && forall k :: 0 <= k < j ==> IndexOf(args[k], LINE_ENDS) == |args[k]|
    {
      if IndexOf(args[j], LINE_ENDS) < |args[j]| {
        break;
      }
      j := j + 1;
    }
    if j < |args| {
      events := events + [Replied(InvalidCall, Text("invalid invocation"))];
      return;
    }
    if |args| != method_.nArguments {
      events := events + [Replied(InvalidCall, WrongCount(method_.nArguments, |args|))];
      return;
    }
    events := events +
      [Called(method_.handler.value, srv.key, path, interface_.key, member, pwd.value.name, uid, method_.data)];
  }
}
