/**
 The byte buffer of `src/buffer.c`: live bytes between a spare front and a free tail.

 `Buf` is the buffer as a value, with one function for each operation; `Buffer` is the object that
 the program updates in place.  Memory fresh from `malloc` holds arbitrary bytes, which the
 functions take as `junk`.
 */
module GapBuffer {
  import opened CStrings

  const UNIT := 1024

  datatype Buf = Buf(mem: string, spare: nat, used: nat) {

    /** There is always at least one free byte behind the live ones. */
    predicate Valid() { spare + used < |mem| }

    function Contents(): (s: string)
      requires Valid()
      ensures |s| == used
    {
      mem[spare..spare + used]
    }

    function Free(): nat
      requires Valid()
    {
      |mem| - (spare + used)
    }

    /** The byte that a reader of the contents as a C string meets right behind them. */
    predicate Terminated()
      requires Valid()
    {
      mem[spare + used] == NUL
    }

    /** Whether making room for `minimum` bytes needs a new block. */
    predicate Grows(minimum: nat) { spare + used + minimum > |mem| }

    function AssureAvail(minimum: nat, junk: string): (b: Buf)
      requires Valid()
      ensures b.spare == spare && b.used == used && |b.mem| >= spare + used + minimum
      ensures b.Valid() && b.Contents() == Contents()
      ensures Grows(minimum) ==> |b.mem| >= spare + used + minimum + UNIT
    {
      if !Grows(minimum) then this
      else Buf(mem[..spare + used] + Malloc(NiceSize(spare + used + minimum), junk)[spare + used..], spare, used)
    }

    /** Bytes put into the spare front; the count of live bytes stays as it is. */
    function FillFront(bytes: string): (b: Buf)
      requires Valid() && spare > |bytes|
      ensures b.Valid()
    {
      Buf(Overlay(mem, spare - |bytes|, bytes), spare - |bytes|, used)
    }

    /** Bytes put in front of the live ones, which move up. */
    function MoveUp(bytes: string): (b: Buf)
      requires Valid() && spare + used + |bytes| < |mem|
      ensures b.Valid()
    {
      Buf(Overlay(Overlay(mem, spare + |bytes|, Contents()), spare, bytes), spare, used + |bytes|)
    }

    /** Bytes and a NUL put behind the live ones. */
    function Extend(bytes: string): (b: Buf)
      requires Valid() && spare + used + |bytes| < |mem|
      ensures b.Valid()
    {
      Buf(Overlay(mem, spare + used, bytes + [NUL]), spare, used + |bytes|)
    }

    function Prepend(bytes: string, junk: string): (b: Buf)
      requires Valid()
      ensures b.Valid()
    {
      if spare > |bytes| then FillFront(bytes)
      else AssureAvail(|bytes| + 1, junk).MoveUp(bytes)
    }

    function Append(bytes: string, junk: string): (b: Buf)
      requires Valid()
      ensures b.Valid()
    {
      AssureAvail(|bytes| + 1, junk).Extend(bytes)
    }

    function Consume(length: nat): (b: Buf)
      requires Valid()
      ensures b.Valid()
    {
      if length < used then Buf(mem, spare + length, used - length) else Buf(mem, spare, 0)
    }

    function Clear(): (b: Buf)
      requires Valid()
      ensures b.Valid()
    {
      Buf(mem, spare, 0)
    }
  }

  /** Memory after `bytes` were copied to position `at`. */
  function Overlay(mem: string, at: nat, bytes: string): (m: string)
    requires at + |bytes| <= |mem|
    ensures |m| == |mem|
  {
    mem[..at] + bytes + mem[at + |bytes|..]
  }

  function HowMany(x: nat, y: nat): nat
    requires y > 0
  {
    (x + (y - 1)) / y
  }

  function NiceSize(n: nat): (size: nat)
    ensures n + 1024 <= size < n + 2 * 1024
  {
    (HowMany(n, UNIT) + 1) * UNIT
  }

  /** Blocks grow to whole units. */
  lemma NiceSizeIsWhole(n: nat)
    ensures NiceSize(n) % 1024 == 0
  {
  }

  /** A block of `n` bytes as `malloc` leaves it. */
  function Malloc(n: nat, junk: string): (block: string)
    ensures |block| == n
    ensures |junk| == n ==> block == junk
  {
    seq(n, i requires 0 <= i < n => if i < |junk| then junk[i] else NUL)
  }

  function New(initialSize: nat, junk: string): (b: Buf)
    ensures b.Valid() && b.Contents() == "" && b.Terminated() && b.spare == 0
    ensures b.Free() == if initialSize < 1024 then 1024 else initialSize
  {
    var size := if initialSize < UNIT then UNIT else initialSize;
    Buf([NUL] + Malloc(size, junk)[1..], 0, 0)
  }

  /** The bytes an argument pair stands for: `length` None is the `(size_t) -1` that means `strlen`. */
  function Argument(bytes: string, length: Option<nat>): string
    requires length.Some? ==> length.value <= |bytes|
    requires length.None? ==> NUL in bytes
  {
    match length
    case None => Until(bytes)
    case Some(n) => bytes[..n]
  }

  method Length(bytes: string, length: Option<nat>) returns (n: nat)
    requires if length.Some? then length.value <= |bytes| else NUL in bytes
    ensures n <= |bytes| && Argument(bytes, length) == bytes[..n]
  {
    n := if length.None? then IndexOf(bytes, {NUL}) else length.value;
  }

  /** `memcpy`, and `memmove` too since the bytes are taken before any is written. */
  method Copy(target: array<char>, at: nat, bytes: string)
    requires at + |bytes| <= target.Length
    modifies target
    ensures target[..] == Overlay(old(target[..]), at, bytes)
  {
    forall i | 0 <= i < |bytes| {
      target[at + i] := bytes[i];
    }
  }

  class Buffer {
    var data: array<char>
    var size: nat
    var spare: nat
    var used: nat

    ghost predicate Valid()
      reads this, data
    {
      size == data.Length && spare + used < size
    }

    ghost function Value(): (b: Buf)
      reads this, data
    {
      Buf(data[..], spare, used)
    }

    constructor (initialSize: nat)
      ensures Valid() && fresh(data)
      ensures exists junk :: Value() == New(initialSize, junk)
    {
      var n := if initialSize < UNIT then UNIT else initialSize;
      data := new char[n];
      size, spare, used := n, 0, 0;
      new;
      ghost var junk := data[..];
      data[spare + used] := NUL;
      assert Value() == New(initialSize, junk);
    }

    method AssureAvail(minimum: nat) returns (ghost junk: string)
      requires Valid()
      modifies this
      ensures Valid() && (data == old(data) || fresh(data))
      ensures Value() == old(Value()).AssureAvail(minimum, junk)
      ensures unchanged(`spare, `used) && unchanged(old(data))
    {
      junk := "";
      if spare + used + minimum > size {
        var wouldBeNice := (HowMany(spare + used + minimum, UNIT) + 1) * UNIT;
        assert wouldBeNice == NiceSize(spare + used + minimum);
        var block := new char[wouldBeNice];
        junk := block[..];
        forall i | 0 <= i < spare + used {
          block[i] := data[i];
        }
        assert block[..] == data[..spare + used] + junk[spare + used..];
        assert Malloc(wouldBeNice, junk) == junk;
        hide Malloc, NiceSize, HowMany;
        data := block;
        size := wouldBeNice;
      }
    }

    method Prepend(bytes: string, length: Option<nat>) returns (ghost junk: string)
      requires Valid()
      requires if length.Some? then length.value <= |bytes| else NUL in bytes
      modifies this, data
      ensures Valid() && (data == old(data) || fresh(data))
      ensures Value() == old(Value()).Prepend(Argument(bytes, length), junk)
    {
      var n := Length(bytes, length);
      hide Overlay, Argument, Buf.FillFront, Buf.MoveUp, Buf.AssureAvail, Malloc;
      junk := "";
      if spare > n {
        FillFront(bytes[..n]);
      } else {
        junk := AssureAvail(n + 1);
        MoveUp(bytes[..n]);
      }
    }

    method FillFront(bytes: string)
      requires Valid() && spare > |bytes|
      modifies `spare, data
      ensures Valid() && Value() == old(Value()).FillFront(bytes)
    {
      hide Overlay;
      Copy(data, spare - |bytes|, bytes);
      spare := spare - |bytes|;
    }

    method MoveUp(bytes: string)
      requires Valid() && spare + used + |bytes| < size
      modifies `used, data
      ensures Valid() && Value() == old(Value()).MoveUp(bytes)
    {
      hide Overlay;
      assert data[spare..spare + used] == Value().Contents();
      Copy(data, spare + |bytes|, data[spare..spare + used]);
      Copy(data, spare, bytes);
      used := used + |bytes|;
    }

    method Append(bytes: string, length: Option<nat>) returns (ghost junk: string)
      requires Valid()
      requires if length.Some? then length.value <= |bytes| else NUL in bytes
      modifies this, data
      ensures Valid() && (data == old(data) || fresh(data))
      ensures Value() == old(Value()).Append(Argument(bytes, length), junk)
    {
      var n := Length(bytes, length);
      hide Overlay, Argument, Buf.Extend, Buf.AssureAvail, Malloc;
      junk := AssureAvail(n + 1);
      Extend(bytes[..n]);
    }

    method Extend(bytes: string)
      requires Valid() && spare + used + |bytes| < size
      modifies `used, data
      ensures Valid() && Value() == old(Value()).Extend(bytes)
    {
      Copy(data, spare + used, bytes);
      used := used + |bytes|;
      data[spare + used] := NUL;
    }

    method Consume(length: nat)
      requires Valid()
      modifies this`spare, this`used
      ensures Valid() && Value() == old(Value()).Consume(length)
    {
      if length < used {
        spare := spare + length;
        used := used - length;
      } else {
        used := 0;
      }
    }

    method Clear()
      requires Valid()
      modifies this`used
      ensures Valid() && Value() == old(Value()).Clear()
    {
      used := 0;
    }
  }
}
