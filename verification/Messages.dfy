/**
 Reading the arguments of a message, building the reply of a finished job, and reading that reply
 back on the calling side, from `src/oddjob_dbus.c`.  A message body is a sequence of typed values.
 */
module Messages {
  import opened CStrings
  import Arrays
  import opened GapBuffer
  import opened BufferLaws

  type Int32 = n: int | -0x8000_0000 <= n < 0x8000_0000

  datatype Value = Integer(n: Int32) | Str(s: CString) | Other

  datatype Message = Message(result: Int32, args: seq<string>)

  function Strings(body: seq<Value>): seq<string> {
    if body == [] then [] else (if body[0].Str? then [body[0].s] else []) + Strings(body[1..])
  }

  lemma {:induction false} StringsOfConcat(a: seq<Value>, b: seq<Value>)
    ensures Strings(a + b) == Strings(a) + Strings(b)
  {
    if a == [] {
      assert a + b == b;
    } else {
      assert (a + b)[1..] == a[1..] + b;
      StringsOfConcat(a[1..], b);
    }
  }

  lemma StringsNext(body: seq<Value>, i: nat)
    requires i < |body|
    ensures Strings(body[..i + 1]) == Strings(body[..i]) + if body[i].Str? then [body[i].s] else []
    ensures |Strings(body[..i + 1])| <= |Strings(body)|
  {
    assert body[..i + 1] == body[..i] + [body[i]] && body == body[..i + 1] + body[i + 1..];
    StringsOfConcat(body[..i], [body[i]]);
    StringsOfConcat(body[..i + 1], body[i + 1..]);
  }

  /** What is read from a message: its strings in order, and the leading integer if one is asked for. */
  function Read(message: Option<seq<Value>>, expectAnInt: bool): Message {
    var body := message.GetOr([]);
    Message(if !expectAnInt || body == [] then 0 else if body[0].Integer? then body[0].n else -1, Strings(body))
  }

  /** The strings are all of them and nothing else, in their order. */
  lemma StringsAre(a: seq<Value>, v: Value, b: seq<Value>)
    ensures Strings([]) == []
    ensures Strings(a + [v] + b) == Strings(a) + (match v case Str(s) => [s] case _ => []) + Strings(b)
  {
    StringsOfConcat(a + [v], b);
    StringsOfConcat(a, [v]);
  }

  /** What a caller that asks for a result is told. */
  lemma ResultIs(body: seq<Value>)
    ensures Read(None, true).result == 0 && Read(Some([]), true).result == 0
    ensures forall n: Int32 :: Read(Some([Integer(n)] + body), true).result == n
    ensures forall v: Value :: !v.Integer? ==> Read(Some([v] + body), true).result == -1
    ensures forall m :: Read(m, false).result == 0
  {
  }

  method AddArgument(args: array?<string>, count: nat, s: string) returns (ok: bool, grown: array?<string>)
    requires count == if args == null then 0 else args.Length
    modifies if args == null then {} else {args}
    ensures ok <==> count < Arrays.LIMIT
    ensures ok ==> grown != null && fresh(grown) && grown[..] == (if args == null then [] else old(args[..])) + [s]
  {
    ok, grown := Arrays.ResizeArray(args, 8, count, count + 1, "");
    if ok {
      grown[count] := s;
    }
  }

  /** `ok` is false when the argument vector outgrows the resizer's limit and the process exits. */
  method FromMessage(message: Option<seq<Value>>, expectAnInt: bool) returns (ok: bool, msg: Message)
    ensures ok <==> |Strings(message.GetOr([]))| <= Arrays.LIMIT
    ensures ok ==> msg == Read(message, expectAnInt)
  {
    var result: Int32 := 0;
    var args: array?<string> := null;
    var count := 0;
    msg := Message(0, []);
    if message.Some? && message.value != [] {
      var body := message.value;
      if expectAnInt {
        result := if body[0].Integer? then body[0].n else -1;
      }
      var i, more := 0, true;
      while more
        invariant i <= |body| && (more <==> i < |body|)
        invariant args != null ==> fresh(args)
        invariant count == |Strings(body[..i])| <= Arrays.LIMIT
        invariant (if args == null then [] else args[..]) == Strings(body[..i])
        decreases |body| - i
      {
        StringsNext(body, i);
        if body[i].Str? {
          ok, args := AddArgument(args, count, body[i].s);
          if !ok {
            return;
          }
          count := count + 1;
        }
        i := i + 1;
        more := i < |body|;  // has_next and next
      }
      assert body[..i] == body;
    }
    return true, Message(result, if args == null then [] else args[..]);
  }

  // ---- The reply.

  /** The C string that starts at `from`, unless the block ends before any NUL. */
  function CStringAt(mem: string, from: nat): Option<CString>
    requires from <= |mem|
  {
    var end := IndexFrom(mem, {NUL}, from);
    if end == |mem| then None else Some(mem[from..end])
  }

  /** The program aborts, reads past a block (which C leaves undefined), or sends a body. */
  datatype Reply = Aborted | Overrun | Sent(body: seq<Value>)

  function SuccessReply(result: Int32, out: Buf, err: Buf): Reply
    requires out.Valid() && err.Valid()
  {
    if out.used > 0 && !out.Terminated() then Aborted
    else match (CStringAt(out.mem, out.spare), CStringAt(err.mem, err.spare))
      case (Some(o), Some(e)) => Sent([Integer(result), Str(o), Str(e)])
      case _ => Overrun
  }

  /** A C string starts at the buffer's first visible byte: a NUL follows in the block. */
  ghost predicate HoldsCString(b: Buf) {
    exists i :: b.spare <= i < |b.mem| && b.mem[i] == NUL
  }

  /**
   The program aborts exactly when there is output and no NUL right behind it; otherwise it reads past a block exactly
   when one of the two has no NUL from its first visible byte on.
   */
  lemma ReplyEndsExactlyWhen(result: Int32, out: Buf, err: Buf)
    requires out.Valid() && err.Valid()
    ensures var reply := SuccessReply(result, out, err);
            && (reply == Aborted <==> out.Contents() != "" && out.mem[out.spare + |out.Contents()|] != NUL)
            && (reply == Overrun <==> reply != Aborted && !(HoldsCString(out) && HoldsCString(err)))
  {
    assert CStringAt(out.mem, out.spare).Some? <==> HoldsCString(out);
    assert CStringAt(err.mem, err.spare).Some? <==> HoldsCString(err);
  }

  method SendSuccess(result: Int32, outc: Buffer, errc: Buffer) returns (reply: Reply)
    requires outc.Valid() && errc.Valid()
    ensures reply == SuccessReply(result, outc.Value(), errc.Value())
  {
    var body := [Integer(result)];
    if outc.used > 0 && outc.data[outc.spare + outc.used] != NUL {
      return Aborted;
    }
    var o := CStringAt(outc.data[..], outc.spare);
    if o.None? {
      return Overrun;
    }
    body := body + [Str(o.value)];
    var e := CStringAt(errc.data[..], errc.spare);
    if e.None? {
      return Overrun;
    }
    body := body + [Str(e.value)];
    return Sent(body);
  }

  /** What a reader of the buffer as a C string sees is what the buffer holds. */
  predicate Faithful(b: Buf)
    requires b.Valid()
  {
    b.Terminated() && NUL !in b.Contents()
  }

  lemma ReadsContentsExactlyWhen(b: Buf)
    requires b.Valid()
    ensures Closed(b) ==> CStringAt(b.mem, b.spare).Some?
    ensures CStringAt(b.mem, b.spare) == Some(b.Contents()) <==> Faithful(b)
  {
  }

  lemma StringsOfTwo(result: Int32, out: CString, err: CString)
    ensures Read(Some([Integer(result), Str(out), Str(err)]), true) == Message(result, [out, err])
  {
    var body := [Integer(result), Str(out), Str(err)];
    assert body == [body[0]] + ([body[1]] + [body[2]]);
    StringsOfConcat([body[0]], [body[1]] + [body[2]]);
    StringsOfConcat([body[1]], [body[2]]);
  }

  /**
   For all buffers: the reply is sent and read back as the result and the two buffers' contents exactly when both are
   faithful.  Closed buffers are always sent, and of whatever is sent the result is right and each string is its
   buffer's contents exactly when that buffer is faithful.
   */
  lemma ReplyRoundTrip(result: Int32, out: Buf, err: Buf)
    requires out.Valid() && err.Valid()
    ensures var reply := SuccessReply(result, out, err);
            && ((reply.Sent? && Read(Some(reply.body), true) == Message(result, [out.Contents(), err.Contents()])) <==>
                Faithful(out) && Faithful(err))
            && (Closed(out) && Closed(err) ==> reply.Sent?)
            && (reply.Sent? ==>
                var msg := Read(Some(reply.body), true);
                && msg.result == result && |msg.args| == 2
                && (msg.args[0] == out.Contents() <==> Faithful(out))
                && (msg.args[1] == err.Contents() <==> Faithful(err)))
  {
    ReadsContentsExactlyWhen(out);
    ReadsContentsExactlyWhen(err);
    var reply := SuccessReply(result, out, err);
    if reply.Sent? {
      StringsOfTwo(result, reply.body[1].s, reply.body[2].s);
    }
  }

  /** Over every run without prepends the reply neither aborts nor reads past a block. */
  lemma GuardNeverFires(result: Int32, outSize: nat, errSize: nat, outJunk: string, errJunk: string,
                       outOps: seq<Op>, errOps: seq<Op>)
    requires PrependFree(outOps) && PrependFree(errOps)
    ensures SuccessReply(result, Run(New(outSize, outJunk), outOps), Run(New(errSize, errJunk), errOps)).Sent?
  {
    NewIsClosed(outSize, outJunk);
    NewIsClosed(errSize, errJunk);
    RunStaysClosed(New(outSize, outJunk), outOps);
    RunStaysClosed(New(errSize, errJunk), errOps);
    ReplyRoundTrip(result, Run(New(outSize, outJunk), outOps), Run(New(errSize, errJunk), errOps));
  }

  lemma NewIsClosed(size: nat, junk: string)
    ensures Closed(New(size, junk))
  {
  }

  lemma {:induction false} NoPrepends(b: Buf, ops: seq<Op>)
    requires b.Valid() && PrependFree(ops)
    ensures NoFastPrepend(b, ops)
    decreases |ops|
  {
    if ops != [] {
      assert ops[0] in ops;
      NoPrepends(ops[0].Apply(b), ops[1..]);
    }
  }

  lemma {:induction false} AppendsStayFaithful(b: Buf, ops: seq<Op>)
    requires b.Valid() && Faithful(b)
    requires forall op :: op in ops ==> op.Append? && NUL !in op.bytes
    ensures Faithful(Run(b, ops))
    decreases |ops|
  {
    if ops != [] {
      assert ops[0] in ops;
      AppendAddsBehind(b, ops[0].bytes, ops[0].junk);
      AppendsStayFaithful(ops[0].Apply(b), ops[1..]);
    }
  }

  /** A new buffer filled by appends alone, free of NULs, holds their bytes and is ready for a reply. */
  lemma AppendsAreReady(size: nat, junk: string, ops: seq<Op>)
    requires forall op :: op in ops ==> op.Append? && NUL !in op.bytes
    ensures var b := Run(New(size, junk), ops);
            b.Contents() == MeantRun("", ops) && Faithful(b) && Closed(b)
  {
    var b := Run(New(size, junk), ops);
    AppendsStayFaithful(New(size, junk), ops);
    assert b.mem[b.spare + b.used] == NUL;
    NoPrepends(New(size, junk), ops);
    RunRefinesExactlyWhen(New(size, junk), ops);
  }

  /** So the bytes appended to a job's two buffers are the two strings its caller reads. */
  lemma RepliesOfAppends(result: Int32, outSize: nat, errSize: nat, outJunk: string, errJunk: string,
                       outOps: seq<Op>, errOps: seq<Op>)
    requires forall op :: op in outOps ==> op.Append? && NUL !in op.bytes
    requires forall op :: op in errOps ==> op.Append? && NUL !in op.bytes
    ensures var reply := SuccessReply(result, Run(New(outSize, outJunk), outOps), Run(New(errSize, errJunk), errOps));
            && reply.Sent?
            && Read(Some(reply.body), true) == Message(result, [MeantRun("", outOps), MeantRun("", errOps)])
  {
    AppendsAreReady(outSize, outJunk, outOps);
    AppendsAreReady(errSize, errJunk, errOps);
    ReplyRoundTrip(result, Run(New(outSize, outJunk), outOps), Run(New(errSize, errJunk), errOps));
  }

  /** Emptying a buffer that held a visible byte leaves it unfaithful: a reply would still carry old bytes. */
  lemma EmptiedIsUnfaithful(b: Buf)
    requires b.Valid() && b.used > 0 && b.mem[b.spare] != NUL
    ensures !Faithful(b.Clear()) && b.Clear().Contents() == ""
    ensures forall n: nat :: n >= b.used ==> !Faithful(b.Consume(n)) && b.Consume(n).Contents() == ""
  {
  }

  // ---- The calling side.

  datatype BusError = BusError(name: string, message: string)

  function ErrorText(e: BusError): string { e.name + ": " + e.message }

  /**
   Reads a reply: `wantOutput` and `wantError` say whether the caller passed places for the text and
   its length.  `ok` is false when the process exits while reading the reply.
   */
  method DecodeReply(reply: Option<seq<Value>>, err: Option<BusError>, wantOutput: bool, wantError: bool)
    returns (ok: bool, ret: int, result: Int32, output: Option<string>, error: Option<string>)
    ensures ok <==> |Strings(reply.GetOr([]))| <= Arrays.LIMIT
    ensures ok ==> ret == if err.Some? then -1 else 0
    ensures ok ==> var body := reply.GetOr([]);
                   result == if body == [] then 0 else if body[0].Integer? then body[0].n else -1
    ensures ok ==> var args := Strings(reply.GetOr([]));
                   && output == (if !wantOutput then None
                                 else if err.Some? then Some(err.value.name + ": " + err.value.message)
                                 else if |args| > 0 then Some(args[0]) else None)
                   && error == (if !wantError then None
                                else if err.Some? then Some(err.value.name + ": " + err.value.message)
                                else if |args| > 1 then Some(args[1]) else None)
  {
    var msg;
    ok, msg := FromMessage(reply, true);
    ret, result, output, error := 0, msg.result, None, None;
    if !ok {
      return;
    }
    if wantOutput && |msg.args| > 0 {
      output := Some(msg.args[0]);
    }
    if wantError && |msg.args| > 1 {
      error := Some(msg.args[1]);
    }
    if err.Some? {
      if wantOutput {
        output := Some(ErrorText(err.value));
      }
      if wantError {
        error := Some(ErrorText(err.value));
      }
      ret := -1;
    }
  }
}
