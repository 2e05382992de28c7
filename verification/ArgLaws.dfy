/** What the tokenizer promises about whole command lines. */
module ArgLaws {
  import opened CStrings
  import opened ArgParser

  /** A line is rejected exactly when its scan does not end outside quotes and escapes; the mode names the error. */
  lemma {:induction false} FailsExactlyWhenNotPlain(s: string, mode: Mode, word: string)
    ensures Tokenize(s, mode, word).Words? <==> EndMode(s, mode) == Plain
    ensures Tokenize(s, mode, word).Error? ==> Tokenize(s, mode, word) == Finish(EndMode(s, mode), "")
  {
    if s != "" {
      var (next, emit) := Step(mode, s[0]);
      FailsExactlyWhenNotPlain(s[1..], next,
                               match emit case Nothing => word case Literal => word + [s[0]] case Break => "");
    }
  }

  /** No word of a successful parse is empty. */
  lemma {:induction false} WordsAreNonEmpty(s: string, mode: Mode, word: string)
    ensures Tokenize(s, mode, word).Words? ==> "" !in Tokenize(s, mode, word).words
  {
    if s != "" {
      var (next, emit) := Step(mode, s[0]);
      WordsAreNonEmpty(s[1..], next, match emit case Nothing => word case Literal => word + [s[0]] case Break => "");
    }
  }

  /** Reading a prefix leaves the tokenizer in the prefix's end mode. */
  lemma {:induction false} EndModeOfConcat(s: string, t: string, mode: Mode)
    ensures EndMode(s + t, mode) == EndMode(t, EndMode(s, mode))
  {
    if s == "" {
      assert s + t == t;
    } else {
      assert (s + t)[1..] == s[1..] + t;
      EndModeOfConcat(s[1..], t, Step(mode, s[0]).0);
    }
  }

  lemma {:induction false} TokenizeAcrossBreak(s: string, c: char, t: string, mode: Mode, word: string)
    requires EndMode(s, mode) == Plain && IsSpace(c)
    ensures Tokenize(s, mode, word).Words?
    ensures Tokenize(s + [c] + t, mode, word) == Parse(t).After(Tokenize(s, mode, word).words)
  {
    FailsExactlyWhenNotPlain(s, mode, word);
    var line := s + [c] + t;
    if s == "" {
      assert line[1..] == t;
    } else {
      assert line[1..] == s[1..] + [c] + t;
      var (next, emit) := Step(mode, s[0]);
      match emit {
        case Nothing => TokenizeAcrossBreak(s[1..], c, t, next, word);
        case Literal => TokenizeAcrossBreak(s[1..], c, t, next, word + [s[0]]);
        case Break =>
          TokenizeAcrossBreak(s[1..], c, t, next, "");
          var head, mid := Flush(word), Tokenize(s[1..], next, "").words;
          if Parse(t).Words? {
            assert head + (mid + Parse(t).words) == (head + mid) + Parse(t).words;
          }
      }
    }
  }

  /** White space after a complete line separates it from what follows: the words simply concatenate. */
  lemma ParseAcrossBreak(s: string, c: char, t: string)
    requires Parse(s).Words? && IsSpace(c)
    ensures Parse(s + [c] + t) == Parse(t).After(Parse(s).words)
  {
    FailsExactlyWhenNotPlain(s, Plain, "");
    TokenizeAcrossBreak(s, c, t, Plain, "");
  }

  // ---- Text, quotes and white space.

  /** A quote or a backslash. */
  predicate Special(c: char) { c == '\\' || c == '\'' || c == '"' }

  predicate Ordinary(t: string) { forall i :: 0 <= i < |t| ==> !Special(t[i]) }

  /** What separates words. */
  predicate Blank(c: char) { c == '\r' || c == '\n' || c == '\t' || c == ' ' }

  predicate Letters(t: string) { forall i :: 0 <= i < |t| ==> !Special(t[i]) && !Blank(t[i]) }

  /** Outside quotes and escapes, all other text stands for itself. */
  lemma {:induction false} LettersStandForThemselves(t: string, rest: string, word: string)
    requires Letters(t)
    ensures Tokenize(t + rest, Plain, word) == Tokenize(rest, Plain, word + t)
  {
    if t == "" {
      assert t + rest == rest && word + t == word;
    } else {
      assert (t + rest)[1..] == t[1..] + rest && word + [t[0]] + t[1..] == word + t;
      LettersStandForThemselves(t[1..], rest, word + [t[0]]);
    }
  }

  function Quoting(q: char): Mode { if q == '"' then InDouble else InSingle }

  lemma {:induction false} QuotedText(q: char, t: string, rest: string, word: string)
    requires (q == '\'' || q == '"') && q !in t
    ensures Tokenize(t + [q] + rest, Quoting(q), word) == Tokenize(rest, Plain, word + t)
    ensures EndMode(t, Quoting(q)) == Quoting(q)
  {
    var line := t + [q] + rest;
    if t == "" {
      assert line[1..] == rest && word + t == word;
    } else {
      assert line[1..] == t[1..] + [q] + rest && word + [t[0]] + t[1..] == word + t;
      QuotedText(q, t[1..], rest, word + [t[0]]);
    }
  }

  /** Between quotes of one kind all text is kept as it is: white space, backslashes and the other kind of quotes. */
  lemma QuotesKeepText(q: char, t: string, rest: string, word: string)
    requires (q == '\'' || q == '"') && q !in t
    ensures Tokenize([q] + t + [q] + rest, Plain, word) == Tokenize(rest, Plain, word + t)
  {
    assert ([q] + t + [q] + rest)[1..] == t + [q] + rest;
    QuotedText(q, t, rest, word);
  }

  /** A quote that no other of its kind follows refuses the line, and is named. */
  lemma UnclosedQuoteFails(s: string, q: char, t: string)
    requires Parse(s).Words? && (q == '\'' || q == '"') && q !in t
    ensures Parse(s + [q] + t) == Error(if q == '"' then "Unmatched \"" else "Unmatched '")
  {
    FailsExactlyWhenNotPlain(s, Plain, "");
    QuotedText(q, t, "", "");
    assert s + [q] + t == s + ([q] + t) && ([q] + t)[1..] == t;
    EndModeOfConcat(s, [q] + t, Plain);
    FailsExactlyWhenNotPlain(s + ([q] + t), Plain, "");
  }

  lemma WordOfLetters(t: string)
    requires Letters(t) && t != ""
    ensures Parse(t) == Words([t])
  {
    LettersStandForThemselves(t, "", "");
    assert t + "" == t && "" + t == t;
  }

  /** A character between two texts makes two words of them exactly when it is one of the four blanks. */
  lemma SeparatesExactlyWhen(s: string, c: char, t: string)
    requires Letters(s) && Letters(t) && s != "" && t != ""
    ensures Parse(s + [c] + t) == Words([s, t]) <==> Blank(c)
  {
    WordOfLetters(s);
    WordOfLetters(t);
    if Blank(c) {
      ParseAcrossBreak(s, c, t);
      assert [s] + [t] == [s, t];
    } else if c == '\\' {
      UnclosedEscapeFails(s, t);
      assert "\\" == [c];
    } else if Special(c) {
      UnclosedQuoteFails(s, c, t);
    } else {
      WordOfLetters(s + [c] + t);
    }
  }

  // ---- Escapes.

  /** In force, an escape copies text, white space included, up to and including the next special character. */
  lemma {:induction false} EscapeRunsToNextSpecial(t: string, x: char, rest: string, word: string)
    requires Ordinary(t) && Special(x)
    ensures Tokenize(t + [x] + rest, Escaped, word) == Tokenize(rest, Plain, word + t + [x])
  {
    var line := t + [x] + rest;
    if t == "" {
      assert line[1..] == rest && word + t + [x] == word + [x];
    } else {
      assert line[1..] == t[1..] + [x] + rest;
      assert word + [t[0]] + t[1..] == word + t;
      EscapeRunsToNextSpecial(t[1..], x, rest, word + [t[0]]);
    }
  }

  lemma {:induction false} OrdinaryKeepsEscape(t: string)
    requires Ordinary(t)
    ensures EndMode(t, Escaped) == Escaped
  {
    if t != "" {
      OrdinaryKeepsEscape(t[1..]);
    }
  }

  /** An escape that no quote or backslash follows is never closed, however much text comes after it. */
  lemma UnclosedEscapeFails(s: string, t: string)
    requires Parse(s).Words? && Ordinary(t)
    ensures Parse(s + "\\" + t) == Error("Attempt to escape end-of-command")
  {
    FailsExactlyWhenNotPlain(s, Plain, "");
    var line := "\\" + t;
    assert s + "\\" + t == s + line && line[1..] == t;
    EndModeOfConcat(s, line, Plain);
    OrdinaryKeepsEscape(t);
    FailsExactlyWhenNotPlain(s + line, Plain, "");
  }

  // ---- Printing words so that the tokenizer reads them back.

  /** The inside of a single-quoted word: a quote is written by leaving the quotes and escaping it. */
  function QuoteBody(word: string): string {
    if word == "" then ""
    else (if word[0] == '\'' then "'\\''" else [word[0]]) + QuoteBody(word[1..])
  }

  function Quote(word: string): string { "'" + QuoteBody(word) + "'" }

  function Print(words: seq<string>): string {
    if words == [] then ""
    else if |words| == 1 then Quote(words[0])
    else Quote(words[0]) + " " + Print(words[1..])
  }

  function NonEmpty(words: seq<string>): seq<string> {
    if words == [] then [] else Flush(words[0]) + NonEmpty(words[1..])
  }

  /** Four steps of the machine over the four characters that stand for one quote. */
  lemma QuotedQuote(rest: string, word: string)
    ensures Tokenize("'\\''" + rest, InSingle, word) == Tokenize(rest, InSingle, word + "'")
  {
    var line := "'\\''" + rest;
    assert line[1..] == "\\''" + rest && line[1..][1..] == "''" + rest;
    assert line[1..][1..][1..] == "'" + rest && line[1..][1..][1..][1..] == rest;
    assert Tokenize(line, InSingle, word) == Tokenize(line[1..], Plain, word);
    assert Tokenize(line[1..], Plain, word) == Tokenize(line[1..][1..], Escaped, word);
  }

  lemma {:induction false} BodyReadsBack(word: string, prefix: string)
    ensures Tokenize(QuoteBody(word) + "'", InSingle, prefix) == Words(Flush(prefix + word))
  {
    var line := QuoteBody(word) + "'";
    if word == "" {
      assert line == "'" && line[1..] == "" && prefix + word == prefix;
    } else {
      var rest := QuoteBody(word[1..]) + "'";
      assert prefix + [word[0]] + word[1..] == prefix + word;
      BodyReadsBack(word[1..], prefix + [word[0]]);
      if word[0] == '\'' {
        assert line == "'\\''" + rest;
        QuotedQuote(rest, prefix);
      } else {
        assert line == [word[0]] + rest && line[1..] == rest;
      }
    }
  }

  lemma QuoteReadsBack(word: string)
    ensures Parse(Quote(word)) == Words(Flush(word))
  {
    assert Quote(word)[1..] == QuoteBody(word) + "'";
    BodyReadsBack(word, "");
    assert "" + word == word;
  }

  /** Printing then parsing drops the empty words and changes nothing else. */
  lemma {:induction false} PrintThenParse(words: seq<string>)
    ensures Parse(Print(words)) == Words(NonEmpty(words))
  {
    if |words| == 1 {
      QuoteReadsBack(words[0]);
    } else if words != [] {
      QuoteReadsBack(words[0]);
      assert Print(words) == Quote(words[0]) + [' '] + Print(words[1..]);
      ParseAcrossBreak(Quote(words[0]), ' ', Print(words[1..]));
      PrintThenParse(words[1..]);
    }
  }

  lemma {:induction false} NonEmptyIsIdentity(words: seq<string>)
    ensures "" !in NonEmpty(words)
    ensures "" !in words ==> NonEmpty(words) == words
  {
    if words != [] {
      NonEmptyIsIdentity(words[1..]);
    }
  }

  /** The round trip: exact precisely for lists without an empty word. */
  lemma RoundTrip(words: seq<string>)
    ensures Parse(Print(words)) == Words(words) <==> "" !in words
  {
    PrintThenParse(words);
    NonEmptyIsIdentity(words);
  }

  /** Whatever the tokenizer accepts, printing its words and parsing again gives the same words. */
  lemma ParsePrintParse(s: string)
    requires Parse(s).Words?
    ensures Parse(Print(Parse(s).words)) == Parse(s)
  {
    WordsAreNonEmpty(s, Plain, "");
    RoundTrip(Parse(s).words);
  }
}
