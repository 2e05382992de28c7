/** One concrete input for each place where the code does not do what it seems meant to do. */
module Deviations {
  import opened CStrings
  import ArgParser
  import ArgLaws
  import ArgEscapes
  import LineCollector
  import LineLaws
  import GapBuffer
  import BufferLaws
  import Entries
  import Registry
  import MakePath
  import Paths
  import Timeouts
  import Messages
  import Dispatch
  import DispatchLaws

  /** "abc" appended to a new buffer, "ab" consumed, "x" prepended: the "c" is gone. */
  lemma PrependLosesTheEnd(junk: string)
    ensures var b := BufferLaws.Run(GapBuffer.New(0, junk), [BufferLaws.Append("abc", ""), BufferLaws.Consume(2)]);
            b.Contents() == "c" && b.Prepend("x", "").Contents() == "x"
  {
    var new_ := GapBuffer.New(0, junk);
    BufferLaws.AppendAddsBehind(new_, "abc", "");
    var b := new_.Append("abc", "").Consume(2);
    assert BufferLaws.Run(new_, [BufferLaws.Append("abc", ""), BufferLaws.Consume(2)]) ==
           BufferLaws.Run(b, []);
    assert "abc"[2..] == "c" && "x" + b.Contents() == "xc";
    BufferLaws.PrependAddsInFrontExactlyWhen(b, "x", "");
  }

  /** One prepend to a new buffer trips the guard of the reply, for some memory `malloc` may hand out. */
  lemma PrependCanTripTheGuard()
    ensures exists junk :: var b := GapBuffer.New(0, junk).Prepend("a", ""); b.used > 0 && !b.Terminated()
  {
    var junk := seq(GapBuffer.UNIT, _ => 'x');
    var b := GapBuffer.New(0, junk);
    assert b.Prepend("a", "").mem[1] == b.mem[1] == 'x';
  }

  /** The same as the error buffer trips no guard: a reply is sent that carries a byte more than "a". */
  lemma ErrorBufferHasNoGuard(result: Messages.Int32)
    ensures exists junk :: var err := GapBuffer.New(0, junk).Prepend("a", "");
            && err.Contents() == "a" && !err.Terminated()
            && Messages.SuccessReply(result, GapBuffer.New(0, ""), err) ==
               Messages.Sent([Messages.Integer(result), Messages.Str(""), Messages.Str("ax")])
  {
    var junk := seq(GapBuffer.UNIT, i => if i == 1 then 'x' else NUL);
    var out, err := GapBuffer.New(0, ""), GapBuffer.New(0, junk).Prepend("a", "");
    assert err.mem[0] == 'a' && err.mem[1] == 'x' && err.mem[2] == NUL;
    assert err.mem[0..1] == "a" && err.mem[0..2] == "ax" && out.mem[0..0] == "";
    IndexFromIs(err.mem, 0, 2);
    IndexFromIs(out.mem, 0, 0);
  }

  lemma IndexFromIs(mem: string, from: nat, end: nat)
    requires from <= end < |mem| && mem[end] == NUL
    requires forall i :: from <= i < end ==> mem[i] != NUL
    ensures IndexFrom(mem, {NUL}, from) == end
  {
  }

  function OneMethod(conn: nat): Registry.Service {
    var interface_ := [Entries.Entry("m", Registry.Method(0, None, 0))];
    Registry.Service(conn, [Entries.Entry("/p", [Entries.Entry("i", interface_)])])
  }

  /** Two services with one method each: neither can be taken away. */
  lemma TakingAServiceAwayFails()
    ensures var t := [Entries.Entry("s", OneMethod(1)), Entries.Entry("t", OneMethod(2))];
            && Registry.RemoveOutcome(t, Registry.Key("s", "/p", "i", "m")) == Registry.Undefined
            && Registry.RemoveOutcome(t, Registry.Key("t", "/p", "i", "m")) == Registry.Exited
  {
    var t := [Entries.Entry("s", OneMethod(1)), Entries.Entry("t", OneMethod(2))];
    Entries.FindIs(t, "s", 0);
    Entries.FindIs(t, "t", 1);
    EmptiesItsService(1);
    EmptiesItsService(2);
  }

  lemma EmptiesItsService(conn: nat)
    ensures forall service :: Registry.LookupIn(OneMethod(conn).objects, Registry.Key(service, "/p", "i", "m")).Some?
    ensures forall service :: Registry.DropObject(OneMethod(conn).objects, Registry.Key(service, "/p", "i", "m")) == []
  {
    var os := OneMethod(conn).objects;
    Entries.FindIs(os, "/p", 0);
    Entries.FindIs(os[0].val, "i", 0);
    Entries.FindIs(os[0].val[0].val, "m", 0);
  }

  /** A carriage return inside the stream: the lines depend on the size of the read buffer. */
  lemma BufferSizeShows()
    ensures LineCollector.Collect("a\rb", None, 3) != LineCollector.Collect("a\rb", None, 1)
  {
    assert "a\rb"[1] == '\r';
    LineLaws.ReadWhole("a\rb", 1);
    LineLaws.BigChunksHideText("a\rb", None, 3);
  }

  /** Text behind a NUL inside the stream: here too. */
  lemma BufferSizeShowsBehindNul()
    ensures LineCollector.Collect(['a', NUL, 'b'], None, 3) != LineCollector.Collect(['a', NUL, 'b'], None, 1)
  {
    var s := ['a', NUL, 'b'];
    LineLaws.ReadWhole(s, 1);
    LineLaws.BigChunksHideText(s, None, 3);
    assert s[1] == NUL && s[2] != NUL;
  }

  /** Two lines, the last one unfinished: no NULL closes the vector. */
  lemma NoClosingNull()
    ensures var slots := LineCollector.Slots(LineCollector.Collect("a\nb", None, 9));
            |slots| > 0 && slots[|slots| - 1] != None
  {
    IndexOfIs("a\nb", LINE_ENDS, 1);
    LineLaws.ClosedByNullExactlyWhen("a\nb", 9);
  }

  /** An escaped space does not stand for itself alone: the line is refused. */
  lemma EscapedSpaceIsRefused()
    ensures ArgParser.Parse("a" + "\\" + " b") == ArgParser.Error("Attempt to escape end-of-command")
    ensures ArgEscapes.ParseOnce("a" + "\\" + " b") == ArgParser.Words(["a b"])
  {
    ArgLaws.FailsExactlyWhenNotPlain("a", ArgParser.Plain, "");
    ArgLaws.UnclosedEscapeFails("a", " b");
    assert "a" + "\\" + " b" == "a" + "\\ b" && ("a" + "\\ b")[1..] == "\\ b";
    assert "\\ b"[1..] == " b" && " b"[1..] == "b" && "b"[1..] == "";
    assert "a" + [' '] == "a " && "a " + ['b'] == "a b" && "" + ['a'] == "a";
    var read := (s, mode, word) => ArgEscapes.TokenizeBy(ArgEscapes.StepOnce, s, mode, word);
    assert read("", ArgParser.Plain, "a b") == ArgParser.Words(["a b"]);
    assert read("b", ArgParser.Plain, "a ") == read("", ArgParser.Plain, "a b");
    assert read(" b", ArgParser.Escaped, "a") == read("b", ArgParser.Plain, "a ");
    assert read("\\ b", ArgParser.Plain, "a") == read(" b", ArgParser.Escaped, "a");
  }

  /** A directory that was there is gone after its owner was refused. */
  lemma OldDirectoryGone()
    ensures var fs := map["d" := MakePath.Directory];
            var kernel := MakePath.Kernel((fs, p) => if p in fs then MakePath.Exists else MakePath.Refused,
                                          (fs, p, o) => false, (fs, p) => true, None);
            MakePath.Honest(kernel)
            && "d" !in MakePath.MakeDirectory(MakePath.State(fs, 0, None, []), kernel, "d", 0, Some((0, 0))).1.fs
  {
    assert Paths.Normal("d") == "d";
    assert MakePath.Leading("d", 1) == [];
  }

  /** The creation context that the caller had set is gone. */
  lemma CallersContextIsLost()
    ensures var policy := (path, mode) => MakePath.Label("home");
            var kernel := MakePath.Kernel((fs, p) => if p in fs then MakePath.Exists
                                                     else if p == "" then MakePath.Refused else MakePath.Made,
                                          (fs, p, o) => true, (fs, p) => false, Some(policy));
            var start := MakePath.State(map[], 18, Some("caller"), []);
            var (ret, s) := MakePath.MakeDirectory(start, kernel, "d", 0, None);
            MakePath.Honest(kernel) && ret == 0 && s.context == None
  {
    assert Paths.Normal("d") == "d";
    assert MakePath.Leading("d", 1) == [];
  }

  /** A block device in the place of a leading directory is taken for one, and a regular file for the path itself. */
  lemma FilesPassForDirectories(kernel: MakePath.Kernel)
    ensures var s := MakePath.State(map["b" := MakePath.BlockDevice], 0, None, []);
            s.Lead(kernel, "b") == (true, s)
    ensures var fs := map["f" := MakePath.OtherFile];
            kernel.mkdir(fs, "f") == MakePath.Exists ==>
              MakePath.MakeDirectory(MakePath.State(fs, 0, None, []), kernel, "f", 0, None).0 == 0
  {
    assert Paths.Normal("f") == "f";
    assert MakePath.Leading("f", 1) == [];
  }

  /** A disabled head, and seven seconds left of the next timeout: the fold does not sleep at all. */
  lemma DisabledHeadNeverSleeps()
    ensures var ts := [Timeouts.Timeout(false, 0, 0), Timeouts.Timeout(true, 7000, 0)];
            var clock := [Some(0), Some(0)];
            Timeouts.Least(ts, false, clock, 0, 2, 0) && Timeouts.LeastEnabled(ts, clock, 0, 7000)
  {
    var ts := [Timeouts.Timeout(false, 0, 0), Timeouts.Timeout(true, 7000, 0)];
    assert Timeouts.Left(ts, [Some(0), Some(0)], 0, 1) == 7000;
    assert Timeouts.Left(ts, [Some(0), Some(0)], 0, 0) == 0;
  }

  /** "a" appended to a new buffer, which is then cleared: a reply would still carry the "a". */
  lemma ClearedBufferStillSends(junk: string)
    ensures var b := BufferLaws.Run(GapBuffer.New(0, junk), [BufferLaws.Append("a", ""), BufferLaws.Clear]);
            b.Contents() == "" && Messages.CStringAt(b.mem, b.spare) == Some("a")
  {
    var new_ := GapBuffer.New(0, junk);
    var b := new_.Append("a", "").Clear();
    assert BufferLaws.Run(new_, [BufferLaws.Append("a", ""), BufferLaws.Clear]) == BufferLaws.Run(b, []);
    assert b.mem[0] == 'a' && b.mem[1] == NUL && b.mem[0..1] == "a";
    IndexFromIs(b.mem, 0, 1);
  }

  /** A message of any kind that names no interface is taken for a call. */
  lemma OtherKindIsTakenForACall(t: Registry.Services, conn: nat, w: Dispatch.World, kind: Dispatch.Kind)
    ensures var msg := Dispatch.Incoming(kind, None, Some("s"), Some("/p"), None, Some("m"), []);
            Dispatch.Filtered(t, 0, conn, msg, w).ending == Dispatch.Handled
  {
    var msg := Dispatch.Incoming(kind, None, Some("s"), Some("/p"), None, Some("m"), []);
    DispatchLaws.IgnoredExactlyWhen(t, 0, conn, msg, w);
    DispatchLaws.EndsExactlyWhen(t, 0, conn, msg, w);
  }

  /** A call without sender is answered with a text nobody wrote. */
  lemma SenderlessCallGetsUnwrittenText(t: Registry.Services, conn: nat, w: Dispatch.World)
    ensures var msg := Dispatch.Incoming(Dispatch.MethodCall, None, Some("s"), Some("/p"), Some("i"), Some("m"), []);
            Dispatch.Filtered(t, 0, conn, msg, w) ==
            Dispatch.Verdict(Dispatch.Handled, [Dispatch.Replied(Dispatch.UnknownSender, Dispatch.Unwritten)])
  {
    var msg := Dispatch.Incoming(Dispatch.MethodCall, None, Some("s"), Some("/p"), Some("i"), Some("m"), []);
    DispatchLaws.UnwrittenExactlyWhen(t, 0, conn, msg, w);
  }

  /** No services at all: a call is not left alone, it follows a NULL pointer. */
  lemma StrayCallFollowsNull(w: Dispatch.World)
    ensures var msg := Dispatch.Incoming(Dispatch.MethodCall, Some(":1.1"), Some("s"), Some("/p"), Some("i"), Some("m"),
                                         []);
            Dispatch.Filtered([], 0, 1, msg, w) == Dispatch.Verdict(Dispatch.NullService, [])
  {
    var msg := Dispatch.Incoming(Dispatch.MethodCall, Some(":1.1"), Some("s"), Some("/p"), Some("i"), Some("m"), []);
    DispatchLaws.StrayConnectionIgnoredExactlyWhen([], 0, 1, msg, w);
  }
}
