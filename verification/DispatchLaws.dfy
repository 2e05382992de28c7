/** Dispatch seen from the registry map: arrays and their order no longer matter. */
module DispatchLaws {
  import opened CStrings
  import Arrays
  import opened Entries
  import opened Tables
  import opened Registry
  import opened RegistryLaws
  import opened Messages
  import opened Dispatch

  type MethodMap = map<Key, Method>

  /** `pattern` is the service's one object pattern that matches the path, or None when none does. */
  ghost predicate IsPattern(m: MethodMap, service: string, path: string, w: World, pattern: Option<string>) {
    && (pattern.Some? ==> OffersObject(m, service, pattern.value) && w.matches(pattern.value, path))
    && forall p :: OffersObject(m, service, p) && w.matches(p, path) ==> pattern == Some(p)
  }

  /** The earliest of the patterns that matches the path. */
  function FirstMatch(patterns: seq<string>, path: string, w: World): Option<string> {
    if patterns == [] then None
    else if w.matches(patterns[0], path) then Some(patterns[0])
    else FirstMatch(patterns[1..], path, w)
  }

  /** A pattern of the list is the first match exactly when it matches and none before it does. */
  lemma {:induction false} FirstMatchExactlyWhen(patterns: seq<string>, path: string, w: World, i: nat)
    requires i < |patterns| && forall j :: 0 <= j < i ==> patterns[j] != patterns[i]
    ensures FirstMatch(patterns, path, w) == Some(patterns[i]) <==>
            w.matches(patterns[i], path) && forall j :: 0 <= j < i ==> !w.matches(patterns[j], path)
  {
    FirstMatchMatches(patterns, path, w);
    if i > 0 {
      FirstMatchExactlyWhen(patterns[1..], path, w, i - 1);
      assert patterns[1..][i - 1] == patterns[i];
      assert forall j :: 0 <= j < i - 1 ==> patterns[1..][j] == patterns[j + 1];
      assert forall j :: 0 < j < i ==> patterns[j] == patterns[1..][j - 1];
    }
  }

  lemma {:induction false} FirstMatchMatches(patterns: seq<string>, path: string, w: World)
    ensures match FirstMatch(patterns, path, w)
            case None => forall p :: p in patterns ==> !w.matches(p, path)
            case Some(p) => p in patterns && w.matches(p, path)
  {
    if patterns != [] {
      FirstMatchMatches(patterns[1..], path, w);
    }
  }

  ghost predicate OnlyOnMap(m: MethodMap, service: string, path: string, member: string, interface_: string) {
    && Key(service, path, interface_, member) in m
    && forall i: string :: Key(service, path, i, member) in m ==> i == interface_
  }

  ghost function InterfaceOnMap(m: MethodMap, service: string, path: string, called: Option<string>, member: string)
    : (r: Option<string>)
    ensures called.None? ==> forall i: string :: r == Some(i) <==> OnlyOnMap(m, service, path, member, i)
  {
    match called
    case Some(name) => if OffersInterface(m, service, path, name) then Some(name) else None
    case None =>
      if i: string :| OnlyOnMap(m, service, path, member, i) then Some(i) else None
  }

  /** The reference, once the object is known. */
  ghost function EventIn(m: MethodMap, service: string, pattern: string, msg: Incoming, w: World): Event
    requires msg.sender.Some? && msg.path.Some? && msg.member.Some?
  {
    var member := msg.member.value;
    var i := InterfaceOnMap(m, service, pattern, msg.interface_, member);
    if i.None? then Replied(NoInterface, Text(msg.interface_.GetOr("")))
    else
      var k := Key(service, pattern, i.value, member);
      if k !in m then Replied(NoMethod, Text(member))
      else Checked(m[k], service, msg.path.value, i.value, member, msg.sender.value, Strings(msg.body), w)
  }

  /** The reference: what a call to a service comes to, read off the map. */
  ghost function EventOnMap(m: MethodMap, service: string, pattern: Option<string>, msg: Incoming, w: World): Event
    requires msg.path.Some? && msg.member.Some?
  {
    if msg.sender.None? then Replied(UnknownSender, Unwritten)
    else if pattern.None? then Replied(NoObject, Text(msg.path.value))
    else EventIn(m, service, pattern.value, msg, w)
  }

  // ---- From slots to keys.

  lemma ObjectsAt(t: Services, i: nat)
    requires SoundServices(t) && i < |t|
    ensures ObjectsOf(t, t[i].key) == t[i].val.objects && SoundObjects(t[i].val.objects)
  {
  }

  /** The keys under one interface slot are its methods. */
  lemma KeysAt(t: Services, m: MethodMap, i: nat, j: nat, x: nat, member: string)
    requires SoundServices(t) && Represents(t, m) && i < |t|
    requires j < |t[i].val.objects| && x < |t[i].val.objects[j].val|
    ensures SoundObject(t[i].val.objects[j].val)
    ensures var f := t[i].val.objects[j].val[x];
            var k := Key(t[i].key, t[i].val.objects[j].key, f.key, member);
            (k in m <==> Has(f.val, member)) && (k in m ==> m[k] == f.val[Find(f.val, member)].val)
  {
    ObjectsAt(t, i);
    var os := t[i].val.objects;
    assert SoundObject(os[j].val);
    FindIs(os, os[j].key, j);
    FindIs(os[j].val, os[j].val[x].key, x);
    var k := Key(t[i].key, os[j].key, os[j].val[x].key, member);
    assert Lookup(t, k) == if k in m then Some(m[k]) else None;
  }

  /** The slots of one service are what the map offers under its name. */
  lemma SlotsAt(t: Services, m: MethodMap, i: nat, path: string, interface_: string)
    requires SoundServices(t) && Represents(t, m) && i < |t|
    ensures OffersObject(m, t[i].key, path) <==> Has(t[i].val.objects, path)
    ensures OffersInterface(m, t[i].key, path, interface_) <==> Has(GetOr(t[i].val.objects, path, []), interface_)
  {
    ObjectsAt(t, i);
    ObjectSlotIffOffered(t, m, t[i].key, path);
    InterfaceSlotIffOffered(t, m, t[i].key, path, interface_);
  }

  /** The loop over the objects stops at the earliest pattern that matches. */
  lemma {:induction false} StopsAtFirstMatch(os: Objects, path: string, w: World, i: nat)
    requires i <= |os|
    ensures var j := FindObject(os, path, w, i);
            FirstMatch(Names(os)[i..], path, w) == if j < |os| then Some(os[j].key) else None
    decreases |os| - i
  {
    if i < |os| {
      StopsAtFirstMatch(os, path, w, i + 1);
      assert Names(os)[i..][0] == os[i].key && Names(os)[i..][1..] == Names(os)[i + 1..];
    }
  }

  /** Where one pattern at most matches, the order of the patterns makes no difference. */
  lemma OnlyPatternIsFirst(t: Services, m: MethodMap, service: string, path: string, w: World, pattern: Option<string>)
    requires SoundServices(t) && Represents(t, m) && IsPattern(m, service, path, w, pattern)
    ensures FirstMatch(Names(ObjectsOf(t, service)), path, w) == pattern
  {
    var names := Names(ObjectsOf(t, service));
    var first := FirstMatch(names, path, w);
    FirstMatchMatches(names, path, w);
    if first.Some? {
      HasIsNamed(ObjectsOf(t, service), first.value);
      ObjectSlotIffOffered(t, m, service, first.value);
    } else if pattern.Some? {
      HasIsNamed(ObjectsOf(t, service), pattern.value);
      ObjectSlotIffOffered(t, m, service, pattern.value);
    }
  }

  /** Guessing on the arrays and on the map names the same interface. */
  lemma GuessAgrees(t: Services, m: MethodMap, i: nat, j: nat, member: string)
    requires SoundServices(t) && Represents(t, m) && i < |t| && j < |t[i].val.objects|
    ensures var o := t[i].val.objects[j];
            var g := Guess(o.val, member);
            && (g.Some? ==> g.value < |o.val|)
            && InterfaceOnMap(m, t[i].key, o.key, None, member) == if g.None? then None else Some(o.val[g.value].key)
  {
    ObjectsAt(t, i);
    var o := t[i].val.objects[j];
    assert SoundObject(o.val);
    FindIs(t[i].val.objects, o.key, j);
    forall x: nat | x < |o.val|
      ensures OnlyProvider(o.val, member, x) <==> OnlyOnMap(m, t[i].key, o.key, member, o.val[x].key)
    {
      OnlyAgrees(t, m, i, j, x, member);
    }
    var r := InterfaceOnMap(m, t[i].key, o.key, None, member);
    if r.Some? {
      var k := Key(t[i].key, o.key, r.value, member);
      assert Lookup(t, k) == Some(m[k]);
      assert OnlyProvider(o.val, member, Find(o.val, r.value));
    }
  }

  lemma OnlyAgrees(t: Services, m: MethodMap, i: nat, j: nat, x: nat, member: string)
    requires SoundServices(t) && Represents(t, m) && i < |t| && j < |t[i].val.objects|
    requires x < |t[i].val.objects[j].val|
    ensures var o := t[i].val.objects[j];
            OnlyProvider(o.val, member, x) <==> OnlyOnMap(m, t[i].key, o.key, member, o.val[x].key)
  {
    hide SoundServices, Represents;
    var o := t[i].val.objects[j];
    forall y: nat | y < |o.val|
      ensures Key(t[i].key, o.key, o.val[y].key, member) in m <==> Has(o.val[y].val, member)
      ensures o.val[y].key == o.val[x].key <==> y == x
    {
      KeysAt(t, m, i, j, y, member);
    }
    forall n: string | Key(t[i].key, o.key, n, member) in m
      ensures exists y: nat :: y < |o.val| && o.val[y].key == n
    {
      OnMapHasSlot(t, m, i, j, n, member);
      assert o.val[Find(o.val, n)].key == n;
    }
  }

  lemma OnMapHasSlot(t: Services, m: MethodMap, i: nat, j: nat, n: string, member: string)
    requires SoundServices(t) && Represents(t, m) && i < |t| && j < |t[i].val.objects|
    requires Key(t[i].key, t[i].val.objects[j].key, n, member) in m
    ensures Has(t[i].val.objects[j].val, n)
  {
  }

  // ---- Dispatch agrees with the map.

  lemma ObjectAgreesWithMap(t: Services, m: MethodMap, i: nat, j: nat, msg: Incoming, w: World)
    requires SoundServices(t) && Represents(t, m) && i < |t| && j < |t[i].val.objects|
    requires msg.sender.Some? && msg.path.Some? && msg.member.Some?
    ensures var o := t[i].val.objects[j];
            DecideIn(o.val, t[i].key, msg, w) == EventIn(m, t[i].key, o.key, msg, w)
  {
    var o, member := t[i].val.objects[j], msg.member.value;
    ObjectsAt(t, i);
    FindIs(t[i].val.objects, o.key, j);
    if msg.interface_.None? {
      GuessAgrees(t, m, i, j, member);
    } else {
      SlotsAt(t, m, i, o.key, msg.interface_.value);
    }
    var x := FindInterface(o.val, msg.interface_, member);
    if x.Some? && x.value < |o.val| {
      KeysAt(t, m, i, j, x.value, member);
    }
    hide Represents, SoundServices, Checked, Strings, Guess, OffersInterface;
  }

  /** The arrays decide every call as the map does, under the earliest pattern that matches. */
  lemma DispatchAgreesWithMap(t: Services, m: MethodMap, i: nat, msg: Incoming, w: World)
    requires SoundServices(t) && Represents(t, m) && i < |t|
    requires msg.path.Some? && msg.member.Some?
    ensures Decide(t[i], msg, w) ==
            EventOnMap(m, t[i].key, FirstMatch(Names(t[i].val.objects), msg.path.value, w), msg, w)
  {
    hide Represents, SoundServices, DecideIn, EventIn;
    var os := t[i].val.objects;
    StopsAtFirstMatch(os, msg.path.value, w, 0);
    assert Names(os)[0..] == Names(os);
    var j := FindObject(os, msg.path.value, w, 0);
    if msg.sender.Some? && j < |os| {
      ObjectAgreesWithMap(t, m, i, j, msg, w);
    }
  }

  /** The earliest of the service's patterns that matches. */
  function PatternFor(t: Services, service: string, path: string, w: World): Option<string> {
    FirstMatch(Names(ObjectsOf(t, service)), path, w)
  }

  /** On a registered connection every call is answered exactly once, as the map says. */
  lemma CallIsAnsweredOnce(t: Services, m: MethodMap, timeout: int, conn: nat, msg: Incoming, w: World)
    requires SoundServices(t) && Represents(t, m) && IsCall(timeout, msg)
    requires FindConnection(t, conn, 0) < |t| && |Strings(msg.body)| <= Arrays.LIMIT
    ensures var service := t[FindConnection(t, conn, 0)].key;
            Filtered(t, timeout, conn, msg, w) ==
            Verdict(Handled, [EventOnMap(m, service, PatternFor(t, service, msg.path.value, w), msg, w)])
  {
    DispatchAgreesWithMap(t, m, FindConnection(t, conn, 0), msg, w);
    ObjectsAt(t, FindConnection(t, conn, 0));
  }

  /** The user database has an entry for the sender's uid, under that uid. */
  predicate Resolves(w: World, sender: string) {
    w.passwd(w.uidOf(sender)).Some? && w.passwd(w.uidOf(sender)).value.uid == w.uidOf(sender)
  }

  /** The interface a call goes to: the one it names, or the only one of the map that provides the method. */
  ghost predicate Chosen(m: MethodMap, service: string, path: string, called: Option<string>, member: string, i: string)
  {
    match called
    case Some(name) => i == name
    case None => OnlyOnMap(m, service, path, member, i)
  }

  /** All checks that come before the handler pass. */
  ghost predicate Passes(m: MethodMap, k: Key, msg: Incoming, w: World) {
    && k in m && m[k].handler.Some?
    && msg.sender.Some? && Resolves(w, msg.sender.value)
    && !HasLineEnd(Strings(msg.body)) && |Strings(msg.body)| == m[k].nArguments
  }

  /**
   The handler runs, with exactly these arguments, exactly when the map has one under the interface named or
   guessed and all checks pass.
   */
  lemma HandlerRunsExactlyWhen(t: Services, m: MethodMap, timeout: int, conn: nat, msg: Incoming, w: World,
                               pattern: string)
    requires SoundServices(t) && Represents(t, m) && IsCall(timeout, msg)
    requires FindConnection(t, conn, 0) < |t| && |Strings(msg.body)| <= Arrays.LIMIT
    requires PatternFor(t, t[FindConnection(t, conn, 0)].key, msg.path.value, w) == Some(pattern)
    ensures var service, member := t[FindConnection(t, conn, 0)].key, msg.member.value;
            var events := Filtered(t, timeout, conn, msg, w).events;
            && |events| == 1
            && (events[0].Called? <==>
                exists i :: Chosen(m, service, pattern, msg.interface_, member, i)
                            && Passes(m, Key(service, pattern, i, member), msg, w))
            && forall i :: events[0].Called? && Chosen(m, service, pattern, msg.interface_, member, i) ==>
                 var k := Key(service, pattern, i, member);
                 k in m && m[k].handler.Some? && msg.sender.Some? && Resolves(w, msg.sender.value)
                 && events[0] == Called(m[k].handler.value, service, msg.path.value, i, member,
                                        w.passwd(w.uidOf(msg.sender.value)).value.name, w.uidOf(msg.sender.value),
                                        m[k].data)
  {
    CallIsAnsweredOnce(t, m, timeout, conn, msg, w);
    var service, member := t[FindConnection(t, conn, 0)].key, msg.member.value;
    EventRunsExactlyWhen(m, service, pattern, msg, w);
    hide Filtered, PatternFor, FindConnection, SoundServices, Represents, Chosen, Passes, EventOnMap;
  }

  lemma EventRunsExactlyWhen(m: MethodMap, service: string, pattern: string, msg: Incoming, w: World)
    requires msg.path.Some? && msg.member.Some?
    ensures var member, event := msg.member.value, EventOnMap(m, service, Some(pattern), msg, w);
            && (event.Called? <==>
                exists i :: Chosen(m, service, pattern, msg.interface_, member, i)
                            && Passes(m, Key(service, pattern, i, member), msg, w))
            && forall i :: event.Called? && Chosen(m, service, pattern, msg.interface_, member, i) ==>
                 var k := Key(service, pattern, i, member);
                 k in m && m[k].handler.Some? && msg.sender.Some? && Resolves(w, msg.sender.value)
                 && event == Called(m[k].handler.value, service, msg.path.value, i, member,
                                    w.passwd(w.uidOf(msg.sender.value)).value.name, w.uidOf(msg.sender.value),
                                    m[k].data)
  {
    hide HasLineEnd, Strings;
    var member, event := msg.member.value, EventOnMap(m, service, Some(pattern), msg, w);
    var i := InterfaceOnMap(m, service, pattern, msg.interface_, member);
    if i.Some? {
      assert Chosen(m, service, pattern, msg.interface_, member, i.value);
      assert event.Called? <==> Passes(m, Key(service, pattern, i.value, member), msg, w);
    }
    forall x | Chosen(m, service, pattern, msg.interface_, member, x) && Key(service, pattern, x, member) in m
      ensures i == Some(x)
    {
      if msg.interface_.Some? {
        assert OffersInterface(m, service, pattern, x);
      }
    }
  }

  /** An answer carries a text nobody wrote exactly for a call without sender that is not over the limit. */
  lemma UnwrittenExactlyWhen(t: Services, timeout: int, conn: nat, msg: Incoming, w: World)
    ensures var events := Filtered(t, timeout, conn, msg, w).events;
            && ((exists e :: e in events && e.Replied? && e.detail == Unwritten) <==>
                IsCall(timeout, msg) && msg.sender.None? && |Strings(msg.body)| <= Arrays.LIMIT)
            && (IsCall(timeout, msg) && msg.sender.None? && |Strings(msg.body)| <= Arrays.LIMIT ==>
                events == [Replied(UnknownSender, Unwritten)])
  {
    hide IsCall, Strings, HasLineEnd;
    assert |Filtered(t, timeout, conn, msg, w).events| <= 1;
    assert Replied(UnknownSender, Unwritten) in [Replied(UnknownSender, Unwritten)];
  }

  // ---- Which messages are calls, and how the filter ends.

  /** The bus, or the library on its own behalf, says that the connection is gone. */
  predicate SaysDisconnected(msg: Incoming) {
    && msg.kind == Signal && msg.member == Some("Disconnected")
    && ((msg.sender == Some("org.freedesktop.DBus") && msg.path == Some("/org/freedesktop/DBus")
         && msg.interface_ == Some("org.freedesktop.DBus"))
        || (msg.path == Some("/org/freedesktop/DBus/Local") && msg.interface_ == Some("org.freedesktop.DBus.Local")))
  }

  /**
   A message is left alone exactly when it is not addressed in full, names an interface without being a method call, or
   says that the connection is gone while the program watches for that.
   */
  lemma IgnoredExactlyWhen(t: Services, timeout: int, conn: nat, msg: Incoming, w: World)
    ensures Filtered(t, timeout, conn, msg, w) == Verdict(NotYetHandled, []) <==>
            || msg.destination.None? || msg.path.None? || msg.member.None?
            || (msg.interface_.Some? && msg.kind != MethodCall)
            || (timeout > 0 && SaysDisconnected(msg))
    ensures Filtered(t, timeout, conn, msg, w).ending == NotYetHandled ==>
            Filtered(t, timeout, conn, msg, w) == Verdict(NotYetHandled, [])
  {
    hide Decide, Strings;
  }

  /** What is not left alone is answered once, or ends the process: over too many strings, or without any service. */
  lemma EndsExactlyWhen(t: Services, timeout: int, conn: nat, msg: Incoming, w: World)
    requires Filtered(t, timeout, conn, msg, w).ending != NotYetHandled
    ensures var v := Filtered(t, timeout, conn, msg, w);
            && (v.ending == ProcessExits <==> |Strings(msg.body)| > 65535)
            && (v.ending == NullService <==> |Strings(msg.body)| <= 65535 && msg.sender.Some? && t == [])
            && |v.events| == if v.ending == Handled then 1 else 0
  {
    hide Decide, Strings;
  }

  /** A handler that runs was called by a method call, wherever the message names an interface. */
  lemma CalledByMethodCall(t: Services, timeout: int, conn: nat, msg: Incoming, w: World)
    requires exists e :: e in Filtered(t, timeout, conn, msg, w).events && e.Called?
    ensures msg.interface_.Some? ==> msg.kind == MethodCall
    ensures msg.sender.Some? && msg.destination.Some? && msg.path.Some? && msg.member.Some?
  {
    hide DecideIn, Strings;
  }

  /** The first check that fails names the answer; when none does, the handler runs. */
  lemma FirstFailingCheckAnswers(m: MethodMap, service: string, pattern: Option<string>, msg: Incoming, w: World,
                                 i: string)
    requires msg.path.Some? && msg.member.Some?
    ensures var event, member, args := EventOnMap(m, service, pattern, msg, w), msg.member.value, Strings(msg.body);
            if msg.sender.None? then event == Replied(UnknownSender, Unwritten)
            else if pattern.None? then event == Replied(NoObject, Text(msg.path.value))
            else
              && (msg.interface_.Some? && !OffersInterface(m, service, pattern.value, msg.interface_.value) ==>
                  event == Replied(NoInterface, Text(msg.interface_.value)))
              && (msg.interface_.None? && (forall n: string :: !OnlyOnMap(m, service, pattern.value, member, n)) ==>
                  event == Replied(NoInterface, Text("")))
              && (Chosen(m, service, pattern.value, msg.interface_, member, i)
                  && OffersInterface(m, service, pattern.value, i) ==>
                  var k, uid := Key(service, pattern.value, i, member), w.uidOf(msg.sender.value);
                  if k !in m then event == Replied(NoMethod, Text(member))
                  else if m[k].handler.None? then event == Replied(UnimplementedMethod, Text(member))
                  else if !Resolves(w, msg.sender.value) then event == Replied(UnknownUser, Uid(uid))
                  else if exists a :: a in args && ('\r' in a || '\n' in a) then
                    event == Replied(InvalidCall, Text("invalid invocation"))
                  else if |args| != m[k].nArguments then
                    event == Replied(InvalidCall, WrongCount(m[k].nArguments, |args|))
                  else
                    event == Called(m[k].handler.value, service, msg.path.value, i, member, w.passwd(uid).value.name,
                                    uid, m[k].data))
  {
    hide Strings;
    LineEndIn(Strings(msg.body));
  }

  lemma LineEndIn(args: seq<string>)
    ensures HasLineEnd(args) <==> exists a :: a in args && ('\r' in a || '\n' in a)
  {
    if HasLineEnd(args) {
      var i :| 0 <= i < |args| && IndexOf(args[i], LINE_ENDS) < |args[i]|;
      assert args[i] in args && args[i][IndexOf(args[i], LINE_ENDS)] in args[i];
    }
    if a :| a in args && ('\r' in a || '\n' in a) {
      var i :| 0 <= i < |args| && args[i] == a;
      assert IndexOf(args[i], LINE_ENDS) < |args[i]|;
    }
  }

  // ---- Which service a connection stands for.

  /** The connection each offered service obtained. */
  type Conns = map<string, nat>

  /**
   The same call on the services' connections: only a service not offered yet obtains one, and the removal of its last
   method gives it up.
   */
  ghost function ConnStep(c: Conns, m: MethodMap, op: Op): Conns {
    match op
    case Add(k, _, conn) => if k.service in c || conn.None? then c else c[k.service := conn.value]
    case Remove(k) => if Offers(m - {k}, k.service) then c else c - {k.service}
  }

  ghost function ConnRun(c: Conns, m: MethodMap, ops: seq<Op>): Conns
    decreases |ops|
  {
    if ops == [] then c else ConnRun(ConnStep(c, m, ops[0]), MapStep(m, ops[0]), ops[1..])
  }

  /** A connection that is obtained is private: no service has it yet. */
  ghost predicate ObtainsPrivate(c: Conns, op: Op) {
    op.Add? && op.conn.Some? && op.k.service !in c ==> op.conn.value !in c.Values
  }

  ghost predicate AllPrivate(c: Conns, m: MethodMap, ops: seq<Op>)
    decreases |ops|
  {
    ops == [] || (ObtainsPrivate(c, ops[0]) && AllPrivate(ConnStep(c, m, ops[0]), MapStep(m, ops[0]), ops[1..]))
  }

  function ConnOf(t: Services, service: string): Option<nat> {
    match Get(t, service)
    case None => None
    case Some(s) => Some(s.conn)
  }

  ghost predicate OwnConnections(t: Services) {
    forall i, j :: 0 <= i < j < |t| ==> t[i].val.conn != t[j].val.conn
  }

  /** The services with a slot and their connections. */
  ghost predicate Connected(t: Services, c: Conns) {
    forall s: string :: ConnOf(t, s) == if s in c then Some(c[s]) else None
  }

  ghost predicate NoneShared(c: Conns) { forall s, other :: s in c && other in c && c[s] == c[other] ==> s == other }

  lemma AddKeepsTheirs(t: Services, k: Key, v: Method, conn: nat, s: string)
    ensures ConnOf(PutService(t, k, v, conn), s) ==
            if s == k.service && ConnOf(t, s).None? then Some(conn) else ConnOf(t, s)
  {
    var c := if Has(t, k.service) then t[Find(t, k.service)].val.conn else conn;
    GetOfPut(t, k.service, Service(c, PutObject(ObjectsOf(t, k.service), k, v)), s);
  }

  lemma RemoveKeepsTheirs(t: Services, k: Key, s: string)
    requires SoundServices(t)
    ensures ConnOf(DropService(t, k), s) ==
            if s == k.service && !Has(DropService(t, k), s) then None else ConnOf(t, s)
  {
    if Has(t, k.service) {
      var was := t[Find(t, k.service)].val;
      GetOfDrop(t, k.service, s);
      GetOfPut(t, k.service, Service(was.conn, DropObject(was.objects, k)), s);
    }
  }

  /** Each call that returns is one step of the services' connections; private ones are never shared. */
  lemma StepKeepsConnections(t: Services, m: MethodMap, c: Conns, op: Op)
    requires SoundServices(t) && Represents(t, m) && Connected(t, c)
    requires Step(t, op).Some?
    ensures Connected(Step(t, op).value, ConnStep(c, m, op))
    ensures NoneShared(c) && ObtainsPrivate(c, op) ==> NoneShared(ConnStep(c, m, op))
  {
    hide Connected, SoundServices, Represents, Offers, AddOutcome, RemoveOutcome, PutService, DropService;
    match op {
      case Add(k, v, conn) => AddKeepsConnections(t, m, c, op);
      case Remove(k) => RemoveKeepsConnections(t, m, c, k);
    }
  }

  lemma AddKeepsConnections(t: Services, m: MethodMap, c: Conns, op: Op)
    requires op.Add? && Connected(t, c) && Step(t, op).Some?
    ensures Connected(Step(t, op).value, ConnStep(c, m, op))
  {
    var k := op.k;
    assert ConnOf(t, k.service).Some? <==> k.service in c;
    hide PutService, NoRoom, Full;
    forall s: string
      ensures ConnOf(Step(t, op).value, s) == if s in ConnStep(c, m, op) then Some(ConnStep(c, m, op)[s]) else None
    {
      AddKeepsTheirs(t, k, op.m, op.conn.GetOr(0), s);
    }
  }

  lemma RemoveKeepsConnections(t: Services, m: MethodMap, c: Conns, k: Key)
    requires SoundServices(t) && Represents(t, m) && Connected(t, c)
    requires Step(t, Remove(k)).Some?
    ensures Connected(DropService(t, k), ConnStep(c, m, Remove(k)))
  {
    var r := DropService(t, k);
    RemoveKeepsSound(t, k);
    RemoveRefinesMap(t, m, k);
    ServiceSlotIffOffered(r, m - {k}, k.service);
    hide SoundServices, Represents, DropService, Offers, RemoveOutcome;
    forall s: string
      ensures ConnOf(r, s) == if s in ConnStep(c, m, Remove(k)) then Some(ConnStep(c, m, Remove(k))[s]) else None
    {
      RemoveKeepsTheirs(t, k, s);
    }
  }

  /** A connection that services obtained selects one of these, the only one if it is not shared; others select none. */
  lemma ConnectionFindsItsService(t: Services, c: Conns, conn: nat)
    requires SoundServices(t) && Connected(t, c)
    ensures NoneShared(c) ==> OwnConnections(t)
    ensures var i := FindConnection(t, conn, 0);
            if conn in c.Values then i < |t| && t[i].key in c && c[t[i].key] == conn else i == |t|
  {
    forall i: nat | i < |t| ensures t[i].key in c && c[t[i].key] == t[i].val.conn {
      FindIs(t, t[i].key, i);
      assert ConnOf(t, t[i].key) == Some(t[i].val.conn);
    }
    if conn in c.Values {
      var service :| service in c && c[service] == conn;
      assert ConnOf(t, service) == Some(conn);
    }
  }

  lemma {:induction false} RunKeepsConnections(t: Services, m: MethodMap, c: Conns, ops: seq<Op>)
    requires SoundServices(t) && Represents(t, m) && Connected(t, c)
    requires Run(t, ops).Some?
    ensures Connected(Run(t, ops).value, ConnRun(c, m, ops))
    ensures NoneShared(c) && AllPrivate(c, m, ops) ==> NoneShared(ConnRun(c, m, ops))
    decreases |ops|
  {
    if ops != [] {
      hide SoundServices, Represents, Connected, NoneShared, Step, ConnStep, MapStep, ObtainsPrivate;
      StepRefinesMap(t, m, ops[0]);
      StepKeepsConnections(t, m, c, ops[0]);
      RunKeepsConnections(Step(t, ops[0]).value, MapStep(m, ops[0]), ConnStep(c, m, ops[0]), ops[1..]);
    }
  }

  /** After a run from empty that is survived the services with a connection are those that the map offers. */
  lemma ConnectedAfter(ops: seq<Op>, service: string)
    requires Survives(map[], ops)
    ensures Run([], ops).Some?
    ensures var c, t := ConnRun(map[], map[], ops), Run([], ops).value;
            && SoundServices(t) && Represents(t, MapRun(map[], ops)) && Connected(t, c)
            && (AllPrivate(map[], map[], ops) ==> NoneShared(c))
            && (service in c <==> Offers(MapRun(map[], ops), service))
  {
    RunRefinesMap(ops);
    RunKeepsConnections([], map[], map[], ops);
    var c, t := ConnRun(map[], map[], ops), Run([], ops).value;
    assert ConnOf(t, service) == if service in c then Some(c[service]) else None;
    hide SoundServices, Represents, MapRun, ConnRun, AllPrivate, NoneShared;
    ServiceSlotIffOffered(t, MapRun(map[], ops), service);
  }

  /** The earliest of the services that has the connection. */
  function FirstWith(services: seq<string>, c: Conns, conn: nat): Option<string> {
    if services == [] then None
    else if services[0] in c && c[services[0]] == conn then Some(services[0])
    else FirstWith(services[1..], c, conn)
  }

  lemma {:induction false} StopsAtFirstWith(t: Services, c: Conns, conn: nat, i: nat)
    requires SoundServices(t) && Connected(t, c) && i <= |t|
    ensures var j := FindConnection(t, conn, i);
            FirstWith(Names(t)[i..], c, conn) == if j < |t| then Some(t[j].key) else None
    decreases |t| - i
  {
    if i < |t| {
      FindIs(t, t[i].key, i);
      assert ConnOf(t, t[i].key) == Some(t[i].val.conn);
      hide Connected;
      StopsAtFirstWith(t, c, conn, i + 1);
      assert Names(t)[i..][0] == t[i].key && Names(t)[i..][1..] == Names(t)[i + 1..];
    }
  }

  lemma OnlyOneWith(services: seq<string>, c: Conns, service: string)
    requires NoneShared(c) && service in c && FirstWith(services, c, c[service]).Some?
    ensures FirstWith(services, c, c[service]) == Some(service)
  {
  }

  /**
   Over every run of adding and removing that the process survives: a call on a connection is answered as the run on the
   map says, for the earliest registered of the services that obtained the connection, and under the earliest
   registered of its patterns that match.
   */
  lemma SharedAfterEveryRun(ops: seq<Op>, timeout: int, conn: nat, msg: Incoming, w: World)
    requires Survives(map[], ops) && conn in ConnRun(map[], map[], ops).Values
    requires IsCall(timeout, msg) && |Strings(msg.body)| <= Arrays.LIMIT
    ensures Run([], ops).Some?
    ensures var service := FirstWith(ServicesInOrder([], map[], ops), ConnRun(map[], map[], ops), conn);
            && service.Some?
            && var pattern := FirstMatch(PathsInOrder([], service.value, map[], ops), msg.path.value, w);
               Filtered(Run([], ops).value, timeout, conn, msg, w) ==
               Verdict(Handled, [EventOnMap(MapRun(map[], ops), service.value, pattern, msg, w)])
  {
    var c, m := ConnRun(map[], map[], ops), MapRun(map[], ops);
    hide Filtered, IsCall, MapRun, Survives, SoundServices, Represents, ConnRun, AllPrivate, Connected;
    ConnectedAfter(ops, "");
    var t := Run([], ops).value;
    ConnectionFindsItsService(t, c, conn);
    StopsAtFirstWith(t, c, conn, 0);
    RunKeepsOrder(ops, t[FindConnection(t, conn, 0)].key);
    assert Names(t)[0..] == Names(t);
    hide FindConnection, Names, FirstMatch, FirstWith;
    CallIsAnsweredOnce(t, m, timeout, conn, msg, w);
  }

  /**
   Over every such run, connections being private: exactly the offered services have one, and a call on it is answered
   as the run on the map says for that service, under the earliest registered of its patterns that match.
   */
  lemma DispatchAfterEveryRun(ops: seq<Op>, timeout: int, service: string, msg: Incoming, w: World)
    requires Survives(map[], ops) && AllPrivate(map[], map[], ops)
    requires IsCall(timeout, msg) && |Strings(msg.body)| <= Arrays.LIMIT
    ensures Run([], ops).Some?
    ensures var c, m := ConnRun(map[], map[], ops), MapRun(map[], ops);
            var pattern := FirstMatch(PathsInOrder([], service, map[], ops), msg.path.value, w);
            && (service in c <==> Offers(m, service))
            && (service in c ==>
                Filtered(Run([], ops).value, timeout, c[service], msg, w) ==
                Verdict(Handled, [EventOnMap(m, service, pattern, msg, w)]))
  {
    hide Filtered, IsCall, MapRun, Survives, SoundServices, Represents, ConnRun, AllPrivate, Connected;
    hide ServicesInOrder, PathsInOrder, FirstMatch;
    ConnectedAfter(ops, service);
    var c := ConnRun(map[], map[], ops);
    if service in c {
      SharedAfterEveryRun(ops, timeout, c[service], msg, w);
      OnlyOneWith(ServicesInOrder([], map[], ops), c, service);
    }
  }

  /**
   A message on a connection of no service is left alone exactly when it is not a call: a call is
   taken up by the last service, or trips over the missing one.
   */
  lemma StrayConnectionIgnoredExactlyWhen(t: Services, timeout: int, conn: nat, msg: Incoming, w: World)
    requires FindConnection(t, conn, 0) == |t|
    ensures Filtered(t, timeout, conn, msg, w) == Verdict(NotYetHandled, []) <==> !IsCall(timeout, msg)
    ensures IsCall(timeout, msg) && t != [] && OwnConnections(t) ==>
              Filtered(t, timeout, conn, msg, w) == Filtered(t, timeout, t[|t| - 1].val.conn, msg, w)
    ensures IsCall(timeout, msg) && t == [] && msg.sender.Some? && |Strings(msg.body)| <= Arrays.LIMIT ==>
              Filtered(t, timeout, conn, msg, w) == Verdict(NullService, [])
  {
  }
}
