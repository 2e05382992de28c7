/**
 The command-line tokenizer of `src/util.c`.

 `Parse` is the reference: one recursive pass over the line with four modes. `ParseArgs` is
 the program: three integer flags, a NUL-separated flat buffer, and two scans of that buffer.
 The quirk that a backslash stays in force across ordinary characters and white space, until
 a quote or a backslash ends it, is the program's own and is kept; ArgEscapes says when it shows.
 */
module ArgParser {
  import opened CStrings

  const UNMATCHED_DOUBLE := "Unmatched \""
  const UNMATCHED_SINGLE := "Unmatched '"
  const ESCAPED_END := "Attempt to escape end-of-command"

  datatype Mode = Plain | Escaped | InSingle | InDouble

  /** What one input character contributes: nothing, itself, or the end of a word. */
  datatype Emit = Nothing | Literal | Break

  datatype Result = Words(words: seq<string>) | Error(message: string) {
    /** Puts words already finished in front of those still to come. */
    function After(done: seq<string>): Result {
      match this
      case Words(ws) => Words(done + ws)
      case Error(_) => this
    }
  }

  predicate IsSpace(c: char) { c in {'\r', '\n', '\t', ' '} }

  predicate IsSpecial(c: char) { c in {'\\', '\'', '"'} }

  function Step(mode: Mode, c: char): (Mode, Emit) {
    match mode
    case Plain =>
      if c == '\\' then (Escaped, Nothing)
      else if c == '\'' then (InSingle, Nothing)
      else if c == '"' then (InDouble, Nothing)
      else if IsSpace(c) then (Plain, Break)
      else (Plain, Literal)
    case Escaped => (if IsSpecial(c) then Plain else Escaped, Literal)
    case InSingle => if c == '\'' then (Plain, Nothing) else (InSingle, Literal)
    case InDouble => if c == '"' then (Plain, Nothing) else (InDouble, Literal)
  }

  function Finish(mode: Mode, word: string): Result {
    match mode
    case Plain => Words(Flush(word))
    case Escaped => Error(ESCAPED_END)
    case InSingle => Error(UNMATCHED_SINGLE)
    case InDouble => Error(UNMATCHED_DOUBLE)
  }

  function Tokenize(s: string, mode: Mode, word: string): Result {
    if s == "" then Finish(mode, word)
    else
      var (next, emit) := Step(mode, s[0]);
      match emit
      case Nothing => Tokenize(s[1..], next, word)
      case Literal => Tokenize(s[1..], next, word + [s[0]])
      case Break => Tokenize(s[1..], next, "").After(Flush(word))
  }

  /** The reference meaning of a command line. */
  function Parse(s: string): Result { Tokenize(s, Plain, "") }

  function EndMode(s: string, mode: Mode): Mode {
    if s == "" then mode else EndMode(s[1..], Step(mode, s[0]).0)
  }

  // ---- The program's intermediate form: a flat buffer with NUL between words.

  function EmitText(emit: Emit, c: char): string {
    match emit
    case Nothing => ""
    case Literal => [c]
    case Break => [NUL]
  }

  function Flatten(s: string, mode: Mode): string {
    if s == "" then "" else
      var (next, emit) := Step(mode, s[0]);
      EmitText(emit, s[0]) + Flatten(s[1..], next)
  }

  /** Tokenizing is flattening followed by splitting, with the end mode deciding the error. */
  lemma {:induction false} TokenizeIsSplitOfFlat(s: string, mode: Mode, word: string)
    requires NUL !in s
    ensures Tokenize(s, mode, word) ==
            (if EndMode(s, mode) == Plain then Words(Split(Flatten(s, mode), NUL, word))
             else Finish(EndMode(s, mode), word))
  {
    if s != "" {
      var (next, emit) := Step(mode, s[0]);
      var rest := Flatten(s[1..], next);
      match emit {
        case Nothing =>
          assert Flatten(s, mode) == rest;
          TokenizeIsSplitOfFlat(s[1..], next, word);
        case Literal =>
          assert ([s[0]] + rest)[1..] == rest;
          TokenizeIsSplitOfFlat(s[1..], next, word + [s[0]]);
        case Break =>
          assert ([NUL] + rest)[1..] == rest;
          TokenizeIsSplitOfFlat(s[1..], next, "");
      }
    }
  }

  /** The zeroed tail of the buffer adds no word: it only ends the last one. */
  lemma {:induction false} SplitIgnoresZeroTail(flat: string, zeros: string, word: string)
    requires forall i :: 0 <= i < |zeros| ==> zeros[i] == NUL
    ensures Split(flat + zeros, NUL, word) == Split(flat, NUL, word)
    decreases |flat| + |zeros|
  {
    if flat != "" {
      assert (flat + zeros)[1..] == flat[1..] + zeros;
      SplitIgnoresZeroTail(flat[1..], zeros, if flat[0] == NUL then "" else word + [flat[0]]);
    } else if zeros != "" {
      assert flat + zeros == zeros && "" + zeros[1..] == zeros[1..];
      SplitIgnoresZeroTail("", zeros[1..], "");
    }
  }

  /** Flattening never writes more than it reads. */
  lemma {:induction false} FlattenShrinks(s: string, mode: Mode)
    ensures |Flatten(s, mode)| <= |s|
  {
    if s != "" {
      FlattenShrinks(s[1..], Step(mode, s[0]).0);
    }
  }

  // ---- The program.

  /** The vector returned to the caller: the words, then one NULL. */
  function Slots(words: seq<string>): (slots: seq<Option<string>>)
    ensures |slots| == |words| + 1
    ensures forall i :: 0 <= i < |words| ==> slots[i] == Some(words[i])
    ensures slots[|words|] == None
  {
    seq(|words|, i requires 0 <= i < |words| => Some(words[i])) + [None]
  }

  /** The mode that the three flags stand for. */
  ghost predicate Represents(sqlevel: int, dqlevel: int, escape: int, mode: Mode) {
    && sqlevel == (if mode == InSingle then 1 else 0)
    && dqlevel == (if mode == InDouble then 1 else 0)
    && escape == (if mode == Escaped then 1 else 0)
  }

  method ParseArgs(cmdline: CString) returns (argv: array?<Option<string>>, error: Option<string>)
    ensures Parse(cmdline).Words? ==>
              error == None && argv != null && argv[..] == Slots(Parse(cmdline).words)
    ensures Parse(cmdline).Error? ==> argv == null && error == Some(Parse(cmdline).message)
  {
    var bigbuf := new char[|cmdline| * 3](_ => NUL);
    var sqlevel, dqlevel, escape := FlattenInto(cmdline, bigbuf);
    TokenizeIsSplitOfFlat(cmdline, Plain, "");
    FlattenShrinks(cmdline, Plain);
    if dqlevel > 0 {
      return null, Some(UNMATCHED_DOUBLE);
    }
    if sqlevel > 0 {
      return null, Some(UNMATCHED_SINGLE);
    }
    if escape != 0 {
      return null, Some(ESCAPED_END);
    }
    ghost var flat := Flatten(cmdline, Plain);
    assert bigbuf[..] == flat + bigbuf[|flat|..];
    SplitIgnoresZeroTail(flat, bigbuf[|flat|..], "");
    var count := CountWords(bigbuf);
    argv := FillWords(bigbuf, count);
    error := None;
  }

  /** The state machine: unquotes the line into the zeroed buffer and reports the flags it ends with. */
  method FlattenInto(cmdline: CString, bigbuf: array<char>) returns (sqlevel: int, dqlevel: int, escape: int)
    requires bigbuf.Length == |cmdline| * 3
    requires forall i :: 0 <= i < bigbuf.Length ==> bigbuf[i] == NUL
    modifies bigbuf
    ensures Represents(sqlevel, dqlevel, escape, EndMode(cmdline, Plain))
    ensures |Flatten(cmdline, Plain)| <= |cmdline|
    ensures bigbuf[..|Flatten(cmdline, Plain)|] == Flatten(cmdline, Plain)
    ensures forall i :: |Flatten(cmdline, Plain)| <= i < bigbuf.Length ==> bigbuf[i] == NUL
  {
    sqlevel, dqlevel, escape := 0, 0, 0;
    var p, q := 0, 0;
    ghost var mode, out := Plain, "";
    assert cmdline[0..] == cmdline;
    hide Flatten, EndMode;
    while p < |cmdline|
      invariant 0 <= q <= p <= |cmdline|
      invariant Represents(sqlevel, dqlevel, escape, mode)
      invariant |out| == q && bigbuf[..q] == out
      invariant forall i :: q <= i < bigbuf.Length ==> bigbuf[i] == NUL
      invariant Flatten(cmdline, Plain) == out + Flatten(cmdline[p..], mode)
      invariant EndMode(cmdline, Plain) == EndMode(cmdline[p..], mode)
      decreases |cmdline| - p
    {
      var c := cmdline[p];
      ghost var next := FlattenStep(cmdline, p, mode, out);
      var keep := None;  // what is written to the buffer
      if c == '\\' {
        if dqlevel != 0 || sqlevel != 0 || escape != 0 {
          keep := Some(c);
          escape := 0;
        } else {
          escape := 1;
        }
      } else if c == '\'' {
        if sqlevel == 0 {
          if escape != 0 || dqlevel > 0 {
            keep := Some(c);
            escape := 0;
          } else {
            sqlevel := 1;
          }
        } else if sqlevel == 1 {
          sqlevel := 0;
        } else {
          assert false;  // the arm that would not advance
        }
      } else if c == '"' {
        if dqlevel == 0 {
          if escape != 0 || sqlevel > 0 {
            keep := Some(c);
            escape := 0;
          } else {
            dqlevel := 1;
          }
        } else if dqlevel == 1 {
          dqlevel := 0;
        } else {
          assert false;  // the arm that would not advance
        }
      } else if IsSpace(c) {
        keep := Some(if escape != 0 || dqlevel > 0 || sqlevel > 0 then c else NUL);
      } else {
        keep := Some(c);
      }
      out := out + EmitText(Step(mode, c).1, c);
      mode := next;
      p := p + 1;
      if keep.Some? {
        bigbuf[q] := keep.value;
        q := q + 1;
      }
    }
    AtEnd(mode);
    assert cmdline[p..] == "";
  }

  lemma AtEnd(mode: Mode)
    ensures Flatten("", mode) == "" && EndMode("", mode) == mode
  {
  }

  /** One turn of the machine moves one step's text from what is left to what is written. */
  lemma FlattenStep(s: string, p: nat, mode: Mode, out: string) returns (next: Mode)
    requires p < |s|
    ensures next == Step(mode, s[p]).0
    ensures out + Flatten(s[p..], mode) == (out + EmitText(Step(mode, s[p]).1, s[p])) + Flatten(s[p + 1..], next)
    ensures EndMode(s[p..], mode) == EndMode(s[p + 1..], next)
  {
    next := Step(mode, s[p]).0;
    assert s[p..][0] == s[p] && s[p..][1..] == s[p + 1..];
  }

  /** The word that a scan is inside of: the bytes from `p` on, or none when `p` is NULL (-1). */
  ghost function Pending(flat: string, p: int, q: nat): string
    requires -1 <= p <= q <= |flat|
  {
    if p == -1 then "" else flat[p..q]
  }

  /** A scan is outside of words, or `p` is where the word it is inside of began. */
  ghost predicate InWord(flat: string, p: int, q: nat) {
    -1 <= p <= q <= |flat| && (p != -1 ==> p < q && forall i :: p <= i < q ==> flat[i] != NUL)
  }

  /** One turn of either scan. */
  lemma ScanStep(flat: string, p: int, q: nat)
    requires InWord(flat, p, q) && q < |flat|
    ensures flat[q] != NUL ==> InWord(flat, if p == -1 then q else p, q + 1)
    ensures flat[q] == NUL ==> InWord(flat, -1, q + 1)
    ensures flat[q] != NUL ==>
              Split(flat[q..], NUL, Pending(flat, p, q)) ==
              Split(flat[q + 1..], NUL, Pending(flat, if p == -1 then q else p, q + 1))
    ensures flat[q] == NUL ==>
              Split(flat[q..], NUL, Pending(flat, p, q)) == Flush(Pending(flat, p, q)) + Split(flat[q + 1..], NUL, "")
  {
    assert flat[q..][0] == flat[q] && flat[q..][1..] == flat[q + 1..];
    assert Pending(flat, p, q) + [flat[q]] == Pending(flat, if p == -1 then q else p, q + 1);
  }

  lemma UntilEnd(flat: string, p: nat, q: nat)
    requires InWord(flat, p, q) && q < |flat| && flat[q] == NUL
    ensures Until(flat[p..]) == flat[p..q]
  {
  }

  /** The first scan: how many words the buffer holds. */
  method CountWords(bigbuf: array<char>) returns (words: nat)
    requires bigbuf.Length > 0 ==> bigbuf[bigbuf.Length - 1] == NUL
    ensures words == |Split(bigbuf[..], NUL, "")|
  {
    ghost var flat := bigbuf[..];
    var p := -1;
    words := 0;
    for q := 0 to bigbuf.Length
      invariant -1 <= p < q && InWord(flat, p, q)
      invariant words + |Split(flat[q..], NUL, Pending(flat, p, q))| == |Split(flat, NUL, "")|
    {
      ScanStep(flat, p, q);
      if bigbuf[q] != NUL {
        if p == -1 {
          p := q;
        }
      } else if p != -1 {
        words := words + 1;
        p := -1;
      }
    }
    assert p == -1;
  }

  /** The vector while it is being filled. */
  function Partial(done: seq<string>, count: nat): seq<Option<string>> {
    seq(count + 1, i requires 0 <= i => if i < |done| then Some(done[i]) else None)
  }

  /** The second scan: copy each word out, leaving the last slot NULL. */
  method FillWords(bigbuf: array<char>, count: nat) returns (argv: array<Option<string>>)
    requires bigbuf.Length > 0 ==> bigbuf[bigbuf.Length - 1] == NUL
    requires count == |Split(bigbuf[..], NUL, "")|
    ensures argv[..] == Slots(Split(bigbuf[..], NUL, ""))
  {
    ghost var flat := bigbuf[..];
    ghost var done := [];
    argv := new Option<string>[count + 1](_ => None);
    assert argv[..] == Partial([], count);
    var p, words := -1, 0;
    for q := 0 to bigbuf.Length
      invariant bigbuf[..] == flat
      invariant -1 <= p < q && words == |done| && InWord(flat, p, q)
      invariant Split(flat, NUL, "") == done + Split(flat[q..], NUL, Pending(flat, p, q))
      invariant argv[..] == Partial(done, count)
    {
      ScanStep(flat, p, q);
      hide Split, Until, Partial, InWord;
      if bigbuf[q] != NUL {
        if p == -1 {
          p := q;
        }
      } else if p != -1 {
        UntilEnd(flat, p, q);
        PartialNext(done, flat[p..q], count);
        argv[words] := Some(Until(bigbuf[..][p..]));
        done := done + [flat[p..q]];
        words := words + 1;
        p := -1;
      }
    }
    assert p == -1;
    assert done == Split(flat, NUL, "");
  }

  lemma PartialNext(done: seq<string>, word: string, count: nat)
    requires |done| < count
    ensures |Partial(done, count)| == count + 1
    ensures Partial(done + [word], count) == Partial(done, count)[|done| := Some(word)]
  {
  }
}
