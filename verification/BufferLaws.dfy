/** What the buffer promises about single calls and whole runs. */
module BufferLaws {
  import opened CStrings
  import opened GapBuffer

  /** The calls a user makes; `junk` is what `malloc` would hand back if the call needs a new block. */
  datatype Op = Append(bytes: string, junk: string)
              | Prepend(bytes: string, junk: string)
              | Consume(length: nat)
              | Clear
  {
    function Apply(b: Buf): (r: Buf)
      requires b.Valid()
      ensures r.Valid()
    {
      match this
      case Append(bytes, junk) => b.Append(bytes, junk)
      case Prepend(bytes, junk) => b.Prepend(bytes, junk)
      case Consume(length) => b.Consume(length)
      case Clear => b.Clear()
    }

    /** The byte sequence the call is meant to leave. */
    function Meant(s: string): string {
      match this
      case Append(bytes, _) => s + bytes
      case Prepend(bytes, _) => bytes + s
      case Consume(length) => if length < |s| then s[length..] else ""
      case Clear => ""
    }

    function Added(): nat {
      if Append? || Prepend? then |bytes| else 0
    }

    predicate Reallocates(b: Buf) { (Append? || (Prepend? && b.spare <= |bytes|)) && b.Grows(|bytes| + 1) }

    /** A non-empty prepend that finds more spare bytes in front than it needs. */
    predicate FastPrepend(b: Buf) { Prepend? && bytes != "" && b.spare > |bytes| }
  }

  lemma OverlayAt(mem: string, at: nat, bytes: string)
    requires at + |bytes| <= |mem|
    ensures Overlay(mem, at, bytes)[at..at + |bytes|] == bytes
    ensures Overlay(mem, at, bytes)[..at] == mem[..at]
    ensures forall i :: at + |bytes| <= i < |mem| ==> Overlay(mem, at, bytes)[i] == mem[i]
  {
  }

  /** An append adds its bytes behind the contents and closes them with a NUL, across reallocation too. */
  lemma AppendAddsBehind(b: Buf, bytes: string, junk: string)
    requires b.Valid()
    ensures b.Append(bytes, junk).Contents() == b.Contents() + bytes
    ensures b.Append(bytes, junk).Terminated()
  {
  }

  lemma MoveUpAddsInFront(b: Buf, bytes: string)
    requires b.Valid() && b.spare + b.used + |bytes| < |b.mem|
    ensures b.MoveUp(bytes).Contents() == bytes + b.Contents()
    ensures b.MoveUp(bytes).Terminated() <==> b.mem[b.spare + b.used + |bytes|] == NUL
  {
  }

  /**
   A prepend puts its bytes in front of the contents exactly when it is not a fast one: the fast
   path moves the start down but leaves the count, so the last bytes fall off the end.
   */
  lemma PrependAddsInFrontExactlyWhen(b: Buf, bytes: string, junk: string)
    requires b.Valid()
    ensures b.Prepend(bytes, junk).Contents() == bytes + b.Contents() <==> bytes == "" || b.spare <= |bytes|
    ensures b.spare > |bytes| ==> b.Prepend(bytes, junk).Contents() == (bytes + b.Contents())[..b.used]
  {
    if b.spare > |bytes| {
      var at := b.spare - |bytes|;
      var m := Overlay(b.mem, at, bytes);
      OverlayAt(b.mem, at, bytes);
      assert m[b.spare..b.spare + b.used] == b.Contents();
      assert m[at..b.spare + b.used] == m[at..b.spare] + m[b.spare..b.spare + b.used] == bytes + b.Contents();
      assert m[at..at + b.used] == m[at..b.spare + b.used][..b.used];
    } else {
      MoveUpAddsInFront(b.AssureAvail(|bytes| + 1, junk), bytes);
    }
  }

  /** Every call leaves the bytes it is meant to leave, exactly when it is not a fast prepend. */
  lemma StepRefinesExactlyWhen(b: Buf, op: Op)
    requires b.Valid()
    ensures op.Apply(b).Contents() == op.Meant(b.Contents()) <==> !op.FastPrepend(b)
  {
    match op
    case Append(bytes, junk) => AppendAddsBehind(b, bytes, junk);
    case Prepend(bytes, junk) => PrependAddsInFrontExactlyWhen(b, bytes, junk);
    case Consume(length) =>
    case Clear =>
  }

  // ---- Runs.

  function Run(b: Buf, ops: seq<Op>): (r: Buf)
    requires b.Valid()
    ensures r.Valid()
    decreases |ops|
  {
    if ops == [] then b else Run(ops[0].Apply(b), ops[1..])
  }

  function MeantRun(s: string, ops: seq<Op>): string
    decreases |ops|
  {
    if ops == [] then s else MeantRun(ops[0].Meant(s), ops[1..])
  }

  predicate NoFastPrepend(b: Buf, ops: seq<Op>)
    requires b.Valid()
    decreases |ops|
  {
    ops == [] || (!ops[0].FastPrepend(b) && NoFastPrepend(ops[0].Apply(b), ops[1..]))
  }

  /** After every call of the run, the buffer holds the bytes that the calls so far were meant to leave. */
  ghost predicate Agrees(b: Buf, s: string, ops: seq<Op>)
    requires b.Valid()
    decreases |ops|
  {
    b.Contents() == s && (ops == [] || Agrees(ops[0].Apply(b), ops[0].Meant(s), ops[1..]))
  }

  /** A run follows the run on byte sequences call by call exactly when it has no fast prepend. */
  lemma {:induction false} RunRefinesExactlyWhen(b: Buf, ops: seq<Op>)
    requires b.Valid()
    ensures Agrees(b, b.Contents(), ops) <==> NoFastPrepend(b, ops)
    ensures NoFastPrepend(b, ops) ==> Run(b, ops).Contents() == MeantRun(b.Contents(), ops)
    decreases |ops|
  {
    if ops != [] {
      StepRefinesExactlyWhen(b, ops[0]);
      RunRefinesExactlyWhen(ops[0].Apply(b), ops[1..]);
    }
  }

  // ---- The terminating NUL.

  /** Some NUL stands at or behind the end of the contents, and right at the end unless they are empty. */
  ghost predicate Closed(b: Buf)
    requires b.Valid()
  {
    exists t :: b.spare + b.used <= t < |b.mem| && b.mem[t] == NUL && (b.used > 0 ==> t == b.spare + b.used)
  }

  predicate PrependFree(ops: seq<Op>) { forall op :: op in ops ==> !op.Prepend? }

  lemma StepStaysClosed(b: Buf, op: Op)
    requires b.Valid() && Closed(b) && !op.Prepend?
    ensures Closed(op.Apply(b))
  {
    var next := op.Apply(b);
    if op.Append? {
      AppendAddsBehind(b, op.bytes, op.junk);
      assert next.mem[next.spare + next.used] == NUL;
    } else {
      var t :| b.spare + b.used <= t < |b.mem| && b.mem[t] == NUL && (b.used > 0 ==> t == b.spare + b.used);
      assert next.mem[t] == NUL;
    }
  }

  /** Without prepends the contents stay closed, so the reply builder's abort guard never fires. */
  lemma {:induction false} RunStaysClosed(b: Buf, ops: seq<Op>)
    requires b.Valid() && Closed(b) && PrependFree(ops)
    ensures Closed(Run(b, ops))
    ensures Run(b, ops).used > 0 ==> Run(b, ops).Terminated()
    decreases |ops|
  {
    if ops != [] {
      assert ops[0] in ops;
      StepStaysClosed(b, ops[0]);
      RunStaysClosed(ops[0].Apply(b), ops[1..]);
    }
  }

  /**
   A prepend writes no NUL of its own.  Whatever `malloc` hands out, its contents are terminated exactly when: on the
   fast path, the byte is NUL that the count now ends before; on the slow one, no new block is needed and the byte is
   NUL that the contents move up to.
   */
  lemma PrependTerminatesExactlyWhen(b: Buf, bytes: string)
    requires b.Valid()
    ensures (forall junk :: b.Prepend(bytes, junk).Terminated()) <==>
            if b.spare > |bytes| then (bytes + b.Contents() + [b.mem[b.spare + b.used]])[b.used] == NUL
            else !b.Grows(|bytes| + 1) && b.mem[b.spare + b.used + |bytes|] == NUL
  {
    if b.spare <= |bytes| {
      if b.Grows(|bytes| + 1) {
        NewBlockCanLackNul(b, bytes);
      } else {
        MoveUpAddsInFront(b, bytes);
      }
    } else {
      assert b.Prepend(bytes, "").Terminated() <==>
             (bytes + b.Contents() + [b.mem[b.spare + b.used]])[b.used] == NUL;
    }
  }

  /** A block of `n` bytes without any NUL, as `malloc` may well hand it out. */
  function NoNulBlock(n: nat): (junk: string)
    ensures |junk| == n && NUL !in junk
  {
    seq(n, _ => 'x')
  }

  lemma NewBlockCanLackNul(b: Buf, bytes: string)
    requires b.Valid() && b.spare <= |bytes| && b.Grows(|bytes| + 1)
    ensures !b.Prepend(bytes, NoNulBlock(NiceSize(b.spare + b.used + |bytes| + 1))).Terminated()
  {
    var junk := NoNulBlock(NiceSize(b.spare + b.used + |bytes| + 1));
    var room := b.AssureAvail(|bytes| + 1, junk);
    MoveUpAddsInFront(room, bytes);
    assert room.mem[b.spare + b.used + |bytes|] == junk[b.spare + b.used + |bytes|];
  }

  // ---- Growth.

  function Reallocations(b: Buf, ops: seq<Op>): nat
    requires b.Valid()
    decreases |ops|
  {
    if ops == [] then 0
    else (if ops[0].Reallocates(b) then 1 else 0) + Reallocations(ops[0].Apply(b), ops[1..])
  }

  function BytesAdded(ops: seq<Op>): nat {
    if ops == [] then 0 else ops[0].Added() + BytesAdded(ops[1..])
  }

  /** How much of the next reallocation has been paid for: the bytes missing to a whole free unit. */
  function Paid(b: Buf): (n: nat)
    requires b.Valid()
    ensures n < UNIT
  {
    if b.Free() < UNIT then UNIT - b.Free() else 0
  }

  lemma StepPays(b: Buf, op: Op)
    requires b.Valid()
    ensures UNIT * (if op.Reallocates(b) then 1 else 0) + Paid(op.Apply(b)) <= op.Added() + Paid(b)
  {
  }

  /** Each reallocation is paid for by 1024 bytes added, over every run. */
  lemma {:induction false} GrowthIsPaid(b: Buf, ops: seq<Op>)
    requires b.Valid()
    ensures UNIT * Reallocations(b, ops) + Paid(Run(b, ops)) <= BytesAdded(ops) + Paid(b)
    decreases |ops|
  {
    if ops != [] {
      StepPays(b, ops[0]);
      GrowthIsPaid(ops[0].Apply(b), ops[1..]);
    }
  }

  /** From a new buffer on: 1024 times the reallocations never exceed the bytes ever added. */
  lemma AmortisedGrowth(initialSize: nat, junk: string, ops: seq<Op>)
    ensures 1024 * Reallocations(New(initialSize, junk), ops) <= BytesAdded(ops)
  {
    GrowthIsPaid(New(initialSize, junk), ops);
  }
}
