/**
 The reader of argument lines of `src/util.c`: `fgets` hands over the stream in chunks, lines that
 span several chunks are glued together, and each finished line gets a slot in a growing vector.
 */
module LineCollector {
  import opened CStrings
  import Arrays

  /** How many characters `fgets` takes from the stream with room for `k` of them besides the NUL. */
  function ChunkLength(s: string, k: nat): (n: nat)
    ensures n <= |s| && n <= k
    ensures s != "" && k > 0 ==> n > 0
    ensures n < |s| && n < k ==> n > 0 && s[n - 1] == '\n'
    ensures forall i :: 0 <= i < n - 1 ==> s[i] != '\n'
  {
    var eol := IndexOf(s, {'\n'});
    Arrays.Min(if eol < |s| then eol + 1 else |s|, k)
  }

  /** What is collected, and whether the last line is one that no line end finished. */
  datatype Collected = Collected(lines: seq<string>, pending: bool) {
    function After(line: string): Collected { Collected([line] + lines, pending) }

    /** How many lines were finished by a line end. */
    function Finished(): (n: nat)
      requires pending ==> lines != []
      ensures n <= |lines|
    {
      if pending then |lines| - 1 else |lines|
    }
  }

  /** The line so far after one more chunk; a NUL in the chunk hides the rest of it. */
  function Glue(line: Option<string>, chunk: string): string { Before(line, Until(chunk)) }

  /** The unfinished line, if there is one, in front of more text. */
  function Before(line: Option<string>, text: string): string {
    match line
    case None => text
    case Some(l) => l + text
  }

  /** Chunk by chunk, with `line` the unfinished line and `k + 1` the size of the read buffer. */
  function Collect(rest: string, line: Option<string>, k: nat): (c: Collected)
    requires k > 0
    ensures c.pending ==> c.lines != []
    decreases |rest|
  {
    if rest == "" then
      match line
      case None => Collected([], false)
      case Some(l) => Collected([l], true)
    else
      var n := ChunkLength(rest, k);
      var l := Glue(line, rest[..n]);
      var p := IndexOf(l, LINE_ENDS);
      if p < |l| then Collect(rest[n..], None, k).After(l[..p])
      else Collect(rest[n..], Some(l), k)
  }

  /**
   The slots handed to the caller.  Only a vector whose last line was finished, or whose only line
   was not, has room for the closing NULL.
   */
  function Slots(c: Collected): seq<Option<string>>
    requires c.pending ==> c.lines != []
  {
    seq(|c.lines|, i requires 0 <= i < |c.lines| => Some(c.lines[i])) +
    if c.pending && |c.lines| > 1 then [] else [None]
  }

  /** `all` is what is `done` followed by what is still `left`. */
  ghost predicate Splits(all: Collected, done: seq<string>, left: Collected) {
    all == Collected(done + left.lines, left.pending)
  }

  lemma SplitsAfter(all: Collected, done: seq<string>, line: string, left: Collected)
    requires Splits(all, done, left.After(line))
    ensures Splits(all, done + [line], left)
  {
  }

  /** Makes room for one more line and `slack` slots behind it, and stores the line. */
  method StoreLine(ret: array?<Option<string>>, count: nat, slack: nat, line: string, ghost done: seq<string>)
    returns (ok: bool, grown: array?<Option<string>>)
    requires count == |done| && slack <= 1 && (slack == 0 ==> done != [])
    requires if ret == null then done == [] else ret[..] == Slots(Collected(done, false))
    modifies if ret == null then {} else {ret}
    ensures ok <==> count + 1 + slack <= Arrays.LIMIT
    ensures !ok <==> grown == null
    ensures ok ==> fresh(grown) && grown[..] == Slots(Collected(done + [line], slack == 0))
  {
    ok, grown := Arrays.ResizeArray(ret, 8, count, count + 1 + slack, None);
    if ok {
      grown[count] := Some(line);
    }
  }

  /** `ok` is false when the vector outgrows the resizer's limit and the process exits. */
  method CollectArgs(stream: string, bufsiz: nat) returns (ok: bool, ret: array?<Option<string>>)
    requires bufsiz >= 2
    ensures ok <==> Collect(stream, None, bufsiz - 1).Finished() <= Arrays.LIMIT - 1
    ensures ok ==> (ret == null <==> Collect(stream, None, bufsiz - 1).lines == [])
    ensures ret != null ==> ret[..] == Slots(Collect(stream, None, bufsiz - 1))
  {
    ret := null;
    var thisline: Option<string> := None;
    var rest := stream;
    var arraysize := 0;
    ghost var k, all := bufsiz - 1, Collect(stream, None, bufsiz - 1);
    ghost var done: seq<string> := [];
    assert Splits(all, done, all);
    while rest != ""
      invariant arraysize == |done| <= Arrays.LIMIT - 1
      invariant if ret == null then done == [] else fresh(ret) && done != [] && ret[..] == Slots(Collected(done, false))
      invariant Splits(all, done, Collect(rest, thisline, k))
      decreases |rest|
    {
      var n := ChunkLength(rest, bufsiz - 1);
      var l := Glue(thisline, rest[..n]);
      rest := rest[n..];
      var p := IndexOf(l, LINE_ENDS);
      hide Collect, Slots, Glue, ChunkLength;
      if p < |l| {
        SplitsAfter(all, done, l[..p], Collect(rest, None, k));
        ok, ret := StoreLine(ret, arraysize, 1, l[..p], done);
        if !ok {
          return;
        }
        done := done + [l[..p]];
        arraysize := arraysize + 1;
        thisline := None;
      } else {
        thisline := Some(l);
      }
    }
    ok := true;
    if thisline.Some? {
      ok, ret := StoreLine(ret, arraysize, if arraysize > 0 then 0 else 1, thisline.value, done);
    }
  }
}
