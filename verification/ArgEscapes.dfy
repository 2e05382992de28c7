/**
 What a backslash outside quotes is meant to do, and for which command lines the tokenizer of `src/util.c` does it:
 a machine whose escape covers one character is run beside the program's, whose escape lasts until a quote or a
 backslash.
 */
module ArgEscapes {
  import opened CStrings
  import opened ArgParser
  import opened ArgLaws

  type Machine = (Mode, char) -> (Mode, Emit)

  /** As meant: an escape takes one character literally, whichever it is. */
  function StepOnce(mode: Mode, c: char): (Mode, Emit) {
    if mode == Escaped then (Plain, Literal) else Step(mode, c)
  }

  function TokenizeBy(step: Machine, s: string, mode: Mode, word: string): Result {
    if s == "" then Finish(mode, word)
    else
      var (next, emit) := step(mode, s[0]);
      match emit
      case Nothing => TokenizeBy(step, s[1..], next, word)
      case Literal => TokenizeBy(step, s[1..], next, word + [s[0]])
      case Break => TokenizeBy(step, s[1..], next, "").After(Flush(word))
  }

  /** The meaning a command line would have if every escape covered one character. */
  function ParseOnce(s: string): Result { TokenizeBy(StepOnce, s, Plain, "") }

  /** Every backslash that opens an escape stands directly before a quote or a backslash, or ends the line. */
  predicate EscapesDirectly(s: string, mode: Mode) {
    s == "" || ((mode == Escaped ==> Special(s[0])) && EscapesDirectly(s[1..], Step(mode, s[0]).0))
  }

  lemma {:induction false} TokenizeIsByStep(s: string, mode: Mode, word: string)
    ensures Tokenize(s, mode, word) == TokenizeBy(Step, s, mode, word)
  {
    if s != "" {
      var (next, emit) := Step(mode, s[0]);
      TokenizeIsByStep(s[1..], next, match emit case Nothing => word case Literal => word + [s[0]] case Break => "");
    }
  }

  /** One character: an escape covers it alone exactly when it is a quote or a backslash. */
  lemma EscapeCoversOneExactlyWhen(c: char)
    ensures (forall rest: string, word: string ::
               Tokenize([c] + rest, Escaped, word) == Tokenize(rest, Plain, word + [c])) <==> Special(c)
  {
    if Special(c) {
      forall rest: string, word: string
        ensures Tokenize([c] + rest, Escaped, word) == Tokenize(rest, Plain, word + [c])
      {
        assert "" + [c] + rest == [c] + rest && word + "" + [c] == word + [c];
        EscapeRunsToNextSpecial("", c, rest, word);
      }
    } else {
      assert Tokenize([c] + "", Escaped, "") == Tokenize("", Escaped, "" + [c]);
      assert Tokenize([c] + "", Escaped, "") != Tokenize("", Plain, "" + [c]);
    }
  }

  lemma {:induction false} DirectEscapesAgree(s: string, mode: Mode, word: string)
    requires EscapesDirectly(s, mode)
    ensures TokenizeBy(Step, s, mode, word) == TokenizeBy(StepOnce, s, mode, word)
  {
    if s != "" {
      var (next, emit) := Step(mode, s[0]);
      DirectEscapesAgree(s[1..], next, match emit case Nothing => word case Literal => word + [s[0]] case Break => "");
    }
  }

  // ---- The characters that end up in words.

  function EndBy(step: Machine, s: string, mode: Mode): Mode {
    if s == "" then mode else EndBy(step, s[1..], step(mode, s[0]).0)
  }

  function Shown(emit: Emit, c: char): string { if emit == Literal then [c] else "" }

  function Literals(step: Machine, s: string, mode: Mode): string {
    if s == "" then "" else Shown(step(mode, s[0]).1, s[0]) + Literals(step, s[1..], step(mode, s[0]).0)
  }

  function Joined(words: seq<string>): string {
    if words == [] then "" else words[0] + Joined(words[1..])
  }

  lemma JoinedAfter(done: seq<string>, words: seq<string>)
    requires |done| <= 1
    ensures Joined(done + words) == (if done == [] then "" else done[0]) + Joined(words)
  {
    assert done == [] ==> done + words == words;
    assert done != [] ==> (done + words)[1..] == words;
  }

  /** Whichever machine reads it, an accepted line's words hold its literal characters in order. */
  lemma {:induction false} WordsHoldLiterals(step: Machine, s: string, mode: Mode, word: string)
    ensures TokenizeBy(step, s, mode, word).Words? <==> EndBy(step, s, mode) == Plain
    ensures TokenizeBy(step, s, mode, word).Error? ==>
              TokenizeBy(step, s, mode, word) == Finish(EndBy(step, s, mode), "")
    ensures TokenizeBy(step, s, mode, word).Words? ==>
              Joined(TokenizeBy(step, s, mode, word).words) == word + Literals(step, s, mode)
  {
    if s != "" {
      var (next, emit) := step(mode, s[0]);
      var later := match emit case Nothing => word case Literal => word + [s[0]] case Break => "";
      WordsHoldLiterals(step, s[1..], next, later);
      var r := TokenizeBy(step, s[1..], next, later);
      if emit == Break && r.Words? {
        JoinedAfter(Flush(word), r.words);
      }
      assert word + [s[0]] + Literals(step, s[1..], next) == word + ([s[0]] + Literals(step, s[1..], next));
    }
  }

  // ---- Once an escape has gone on, the literal characters never agree again.

  /** The character occurs an odd number of times. */
  function Odd(q: string, c: char): bool { q != "" && (q[0] == c) != Odd(q[1..], c) }

  lemma {:induction false} OddOfMore(q: string, d: char, c: char)
    ensures Odd(q + [d], c) == (Odd(q, c) != (d == c))
  {
    if q != "" {
      assert (q + [d])[1..] == q[1..] + [d];
      OddOfMore(q[1..], d, c);
    } else {
      assert (q + [d])[1..] == "";
    }
  }

  /**
   What the program, in mode `a`, has shown beyond the meant machine, in mode `m`.  Each quote of the line is shown or
   turns quoting on or off, so the quotes in excess tell how the modes differ; and an escape that the meant machine
   alone has opened was shown by the program.
   */
  ghost predicate Ahead(a: Mode, m: Mode, excess: string) {
    && Odd(excess, '\'') == ((a == InSingle) != (m == InSingle))
    && Odd(excess, '"') == ((a == InDouble) != (m == InDouble))
    && (m == Escaped && a != Escaped ==> '\\' in excess)
    && (excess == "" ==> a == Escaped && m == Plain)
  }

  /** One character more: the program stays ahead, unless the meant machine shows another character than it did. */
  lemma StaysAhead(a: Mode, m: Mode, excess: string, c: char)
    requires Ahead(a, m, excess)
    ensures var (nextA, emitA) := Step(a, c);
            var (nextM, emitM) := StepOnce(m, c);
            var more := excess + Shown(emitA, c);
            if emitM == Literal then more != "" && (more[0] == c ==> Ahead(nextA, nextM, more[1..]))
            else Ahead(nextA, nextM, more)
  {
    OddOfMore(excess, c, '\'');
    OddOfMore(excess, c, '"');
    assert excess + "" == excess;
  }

  lemma {:induction false} AheadForever(s: string, a: Mode, m: Mode, excess: string)
    requires Ahead(a, m, excess)
    requires EndBy(Step, s, a) == Plain && EndBy(StepOnce, s, m) == Plain
    ensures excess + Literals(Step, s, a) != Literals(StepOnce, s, m)
    decreases |s|
  {
    if s != "" {
      var c := s[0];
      var (nextA, emitA) := Step(a, c);
      var (nextM, emitM) := StepOnce(m, c);
      var more := excess + Shown(emitA, c);
      var restA, restM := Literals(Step, s[1..], nextA), Literals(StepOnce, s[1..], nextM);
      assert excess + Literals(Step, s, a) == more + restA;
      StaysAhead(a, m, excess, c);
      if emitM != Literal {
        AheadForever(s[1..], nextA, nextM, more);
        assert Literals(StepOnce, s, m) == restM;
      } else {
        assert Literals(StepOnce, s, m)[0] == c && (more + restA)[0] == more[0];
        if more[0] == c {
          AheadForever(s[1..], nextA, nextM, more[1..]);
          assert (more + restA)[1..] == more[1..] + restA && Literals(StepOnce, s, m)[1..] == restM;
        }
      }
    }
  }

  lemma {:induction false} FirstLongEscape(s: string, mode: Mode)
    requires !EscapesDirectly(s, mode)
    requires EndBy(Step, s, mode) == Plain && EndBy(StepOnce, s, mode) == Plain
    ensures Literals(Step, s, mode) != Literals(StepOnce, s, mode)
  {
    var (next, emit) := Step(mode, s[0]);
    var shown := Shown(emit, s[0]);
    if mode == Escaped && !Special(s[0]) {
      AheadForever(s[1..], Escaped, Plain, "");
      assert "" + Literals(Step, s[1..], Escaped) == Literals(Step, s[1..], Escaped);
      assert Literals(Step, s, mode)[1..] == Literals(Step, s[1..], Escaped);
      assert Literals(StepOnce, s, mode)[1..] == Literals(StepOnce, s[1..], Plain);
    } else {
      FirstLongEscape(s[1..], next);
      assert Literals(Step, s, mode)[|shown|..] == Literals(Step, s[1..], next);
      assert Literals(StepOnce, s, mode)[|shown|..] == Literals(StepOnce, s[1..], next);
    }
  }

  /**
   The program reads a line as meant when every escape it opens is closed by the next character, and an accepted line
   only then.  A refused line is refused as meant exactly when both scans end alike.
   */
  lemma ReadsAsMeantExactlyWhen(s: string)
    ensures EscapesDirectly(s, Plain) ==> Parse(s) == ParseOnce(s)
    ensures Parse(s).Words? ==> (Parse(s) == ParseOnce(s) <==> EscapesDirectly(s, Plain))
    ensures Parse(s).Error? ==> (Parse(s) == ParseOnce(s) <==> EndMode(s, Plain) == EndBy(StepOnce, s, Plain))
  {
    TokenizeIsByStep(s, Plain, "");
    EndIsByStep(s, Plain);
    WordsHoldLiterals(Step, s, Plain, "");
    WordsHoldLiterals(StepOnce, s, Plain, "");
    if EscapesDirectly(s, Plain) {
      DirectEscapesAgree(s, Plain, "");
    } else if Parse(s).Words? && ParseOnce(s).Words? {
      FirstLongEscape(s, Plain);
      assert "" + Literals(Step, s, Plain) == Literals(Step, s, Plain);
      assert "" + Literals(StepOnce, s, Plain) == Literals(StepOnce, s, Plain);
    }
  }

  lemma {:induction false} EndIsByStep(s: string, mode: Mode)
    ensures EndMode(s, mode) == EndBy(Step, s, mode)
  {
    if s != "" {
      EndIsByStep(s[1..], Step(mode, s[0]).0);
    }
  }
}
