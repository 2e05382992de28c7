/** What the line collector promises about whole streams. */
module LineLaws {
  import opened CStrings
  import opened LineCollector

  /** The reference: cut at every line end; only a non-empty rest is left pending. */
  function Lines(s: string): (c: Collected)
    ensures c.pending ==> c.lines != []
    ensures s != "" ==> c.lines != []
  {
    var p := IndexOf(s, LINE_ENDS);
    if s == "" then Collected([], false)
    else if p == |s| then Collected([s], true)
    else Lines(s[p + 1..]).After(s[..p])
  }

  /** The text without its NULs. */
  function NoNuls(s: string): string {
    if s == "" then "" else (if s[0] == NUL then "" else [s[0]]) + NoNuls(s[1..])
  }

  /** What is left of lines that hold NULs. */
  function Shown(c: Collected): Collected {
    Collected(seq(|c.lines|, i requires 0 <= i < |c.lines| => NoNuls(c.lines[i])), c.pending)
  }

  /** A carriage return may only be the stream's last character. */
  predicate ReturnOnlyLast(s: string) {
    forall i :: 0 <= i < |s| - 1 ==> s[i] != '\r'
  }

  /** Behind a NUL there are only NULs. */
  predicate NulsOnlyLast(s: string) {
    forall i, j :: 0 <= i < j < |s| && s[i] == NUL ==> s[j] == NUL
  }

  lemma {:induction false} NoNulsOfSum(s: string, t: string)
    ensures NoNuls(s + t) == NoNuls(s) + NoNuls(t)
  {
    if s == "" {
      assert s + t == t;
    } else {
      assert (s + t)[1..] == s[1..] + t;
      NoNulsOfSum(s[1..], t);
    }
  }

  lemma {:induction false} NoNulsKeepsTheRest(s: string)
    ensures forall c :: c in NoNuls(s) <==> c in s && c != NUL
    ensures NUL !in s ==> NoNuls(s) == s
  {
    if s != "" {
      NoNulsKeepsTheRest(s[1..]);
      assert s == [s[0]] + s[1..];
    }
  }

  /** What a C string shows of a text is what it has before its first NUL: all the rest, if only NULs follow. */
  lemma {:induction false} UntilShows(s: string)
    ensures |Until(s)| <= |NoNuls(s)|
    ensures Until(s) == NoNuls(s) <==> NulsOnlyLast(s)
    ensures |Until(s)| == |NoNuls(s)| ==> Until(s) == NoNuls(s)
  {
    var v := Until(s);
    NoNulsOfSum(v, s[|v|..]);
    assert s == v + s[|v|..];
    NoNulsKeepsTheRest(v);
    NoNulsKeepsTheRest(s[|v|..]);
    var hidden := NoNuls(s[|v|..]);
    if hidden != "" {
      assert hidden[0] in s[|v|..];
      var j :| 0 <= j < |s| - |v| && s[|v|..][j] == hidden[0];
      assert s[|v|] == NUL && s[|v| + j] != NUL;
    } else {
      forall j | |v| <= j < |s| ensures s[j] == NUL {
        assert s[j] == s[|v|..][j - |v|] && s[j] !in hidden;
      }
    }
  }

  /** A glued line whose line end is its last character is the first line of the whole text. */
  lemma FirstLineOfGlued(l: string, rest: string)
    requires l != "" && IndexOf(l, LINE_ENDS) == |l| - 1
    ensures Lines(l + rest) == Lines(rest).After(l[..|l| - 1])
  {
    var p := |l| - 1;
    IndexOfIs(l + rest, LINE_ENDS, p);
    assert (l + rest)[p + 1..] == rest && (l + rest)[..p] == l[..p];
  }

  lemma ShownAfter(c: Collected, line: string)
    ensures Shown(c.After(line)) == Shown(c).After(NoNuls(line))
  {
  }

  /** The collector's unfinished line when `raw` was read of it. */
  function Unfinished(raw: string): Option<string> { if raw == "" then None else Some(NoNuls(raw)) }

  /** Nothing of a chunk is hidden behind a line end or a NUL. */
  predicate HidesNothing(s: string, k: nat) { k == 1 || (ReturnOnlyLast(s) && NulsOnlyLast(s)) }

  /** Only its last character can end the line a chunk belongs to. */
  lemma EndOfChunk(rest: string, k: nat)
    requires rest != "" && k > 0 && HidesNothing(rest, k)
    ensures IndexOf(rest[..ChunkLength(rest, k)], LINE_ENDS) >= ChunkLength(rest, k) - 1
    ensures NulsOnlyLast(rest[..ChunkLength(rest, k)])
    ensures HidesNothing(rest[ChunkLength(rest, k)..], k)
  {
  }

  lemma EndOfSum(s: string, t: string)
    requires IndexOf(s, LINE_ENDS) == |s|
    ensures IndexOf(s + t, LINE_ENDS) == |s| + IndexOf(t, LINE_ENDS)
  {
    IndexOfIs(s + t, LINE_ENDS, |s| + IndexOf(t, LINE_ENDS));
  }

  /** What is glued ends where the text that was read ends. */
  lemma GlueShows(raw: string, chunk: string)
    requires IndexOf(raw, LINE_ENDS) == |raw|
    requires chunk != "" && NulsOnlyLast(chunk) && IndexOf(chunk, LINE_ENDS) >= |chunk| - 1
    ensures var more, l := raw + chunk, Glue(Unfinished(raw), chunk);
            && l == NoNuls(more)
            && IndexOf(more, LINE_ENDS) >= |more| - 1
            && (IndexOf(more, LINE_ENDS) == |more| ==> IndexOf(l, LINE_ENDS) == |l|)
            && (IndexOf(more, LINE_ENDS) < |more| ==>
                IndexOf(l, LINE_ENDS) < |l| && l[..IndexOf(l, LINE_ENDS)] == NoNuls(more[..|more| - 1]))
  {
    var more, l := raw + chunk, Glue(Unfinished(raw), chunk);
    assert NoNuls("") == "";
    hide Until, NoNuls, NulsOnlyLast;
    UntilShows(chunk);
    NoNulsOfSum(raw, chunk);
    EndOfSum(raw, chunk);
    EndIsShown(more);
  }

  lemma EndIsShown(more: string)
    requires more != "" && IndexOf(more, LINE_ENDS) >= |more| - 1
    ensures var l, front := NoNuls(more), NoNuls(more[..|more| - 1]);
            if IndexOf(more, LINE_ENDS) == |more| then IndexOf(l, LINE_ENDS) == |l|
            else IndexOf(l, LINE_ENDS) == |front| < |l| && l[..|front|] == front
  {
    var raw, last := more[..|more| - 1], more[|more| - 1];
    var l, front := NoNuls(more), NoNuls(raw);
    NoNulsKeepsTheRest(raw);
    NoNulsOfSum(raw, [last]);
    assert more == raw + [last];
    assert NoNuls([last]) == if last == NUL then "" else [last];
    assert forall d :: d in raw ==> d !in LINE_ENDS;
    hide NoNuls;
    IndexOfIs(l, LINE_ENDS, if last in LINE_ENDS then |front| else |l|);
  }

  /** The text of one turn of the collector ends the line, at its last character, or goes on. */
  lemma Turn(raw: string, rest: string, k: nat) returns (more: string, later: string)
    requires k > 0 && rest != "" && IndexOf(raw, LINE_ENDS) == |raw| && HidesNothing(rest, k)
    ensures more + later == raw + rest && |later| < |rest| && more != "" && HidesNothing(later, k)
    ensures if IndexOf(more, LINE_ENDS) == |more| then
              Collect(rest, Unfinished(raw), k) == Collect(later, Unfinished(more), k)
            else
              && IndexOf(more, LINE_ENDS) == |more| - 1
              && Collect(rest, Unfinished(raw), k) == Collect(later, None, k).After(NoNuls(more[..|more| - 1]))
  {
    hide NulsOnlyLast, HidesNothing, IndexOf, Until;
    var n := ChunkLength(rest, k);
    more, later := raw + rest[..n], rest[n..];
    EndOfChunk(rest, k);
    GlueShows(raw, rest[..n]);
    hide NoNuls, Glue;
  }

  /** One character at a time, or when no chunk hides text, the lines are those of the reference. */
  lemma {:induction false} CollectIsLines(raw: string, rest: string, k: nat)
    requires k > 0 && IndexOf(raw, LINE_ENDS) == |raw| && HidesNothing(rest, k)
    ensures Collect(rest, Unfinished(raw), k) == Shown(Lines(raw + rest))
    decreases |rest|
  {
    if rest == "" {
      assert raw + rest == raw;
    } else {
      hide Lines, Collect, HidesNothing, NoNuls, Shown;
      var more, later := Turn(raw, rest, k);
      if IndexOf(more, LINE_ENDS) == |more| {
        CollectIsLines(more, later, k);
      } else {
        FirstLineOfGlued(more, later);
        ShownAfter(Lines(later), more[..|more| - 1]);
        assert "" + later == later;
        CollectIsLines("", later, k);
      }
    }
  }

  lemma ReadWhole(s: string, k: nat)
    requires k > 0 && HidesNothing(s, k)
    ensures Collect(s, None, k) == Shown(Lines(s))
    ensures NUL !in s ==> Collect(s, None, k) == Lines(s)
  {
    assert "" + s == s;
    CollectIsLines("", s, k);
    if NUL !in s {
      NothingToHide(s);
    }
  }

  lemma {:induction false} NothingToHide(s: string)
    requires NUL !in s
    ensures Shown(Lines(s)) == Lines(s)
  {
    var p := IndexOf(s, LINE_ENDS);
    if s != "" && p < |s| {
      NothingToHide(s[p + 1..]);
      ShownAfter(Lines(s[p + 1..]), s[..p]);
      NoNulsKeepsTheRest(s[..p]);
    } else {
      NoNulsKeepsTheRest(s);
    }
  }

  // ---- What chunks hide when they hold whole lines.

  function Unlines(c: Collected): string
    requires c.pending ==> c.lines != []
    decreases c.lines
  {
    if c.lines == [] then ""
    else if |c.lines| == 1 && c.pending then c.lines[0]
    else c.lines[0] + "\n" + Unlines(Collected(c.lines[1..], c.pending))
  }

  /** A line end comes before any NUL of the chunk. */
  predicate ShowsEnd(chunk: string) { IndexOf(Until(chunk), LINE_ENDS) < |Until(chunk)| }

  lemma GlueShowsEnd(line: Option<string>, chunk: string)
    requires line.Some? ==> IndexOf(line.value, LINE_ENDS) == |line.value|
    ensures |Glue(line, chunk)| == |line.GetOr("")| + |Until(chunk)|
    ensures IndexOf(Glue(line, chunk), LINE_ENDS) == |line.GetOr("")| + IndexOf(Until(chunk), LINE_ENDS)
  {
    var l, shown := line.GetOr(""), Until(chunk);
    assert Glue(line, chunk) == l + shown;
    EndOfSum(l, shown);
  }

  /** All characters and line feeds written out, and one more a line. */
  function Weight(c: Collected): nat
    requires c.pending ==> c.lines != []
  {
    |Unlines(c)| + |c.lines|
  }

  function FullWeight(s: string): nat { Weight(Shown(Lines(s))) }

  /** What can come of an unfinished line and the text behind it. */
  function WithLine(line: Option<string>, rest: string): nat {
    if rest == "" && line.Some? then |line.value| + 1 else |line.GetOr("")| + FullWeight(rest)
  }

  lemma WeightAfter(c: Collected, line: string)
    requires c.pending ==> c.lines != []
    ensures Weight(c.After(line)) == |line| + 2 + Weight(c)
  {
    assert c.After(line).lines[1..] == c.lines;
  }

  lemma FullWeightStep(s: string)
    requires IndexOf(s, LINE_ENDS) < |s|
    ensures var p := IndexOf(s, LINE_ENDS);
            FullWeight(s) == |NoNuls(s[..p])| + 2 + FullWeight(s[p + 1..])
  {
    var p := IndexOf(s, LINE_ENDS);
    ShownAfter(Lines(s[p + 1..]), s[..p]);
    WeightAfter(Shown(Lines(s[p + 1..])), NoNuls(s[..p]));
  }

  /** Nothing of a text but its NULs is without weight. */
  lemma {:induction false} WeightOfText(s: string)
    requires s != ""
    ensures FullWeight(s) >= |NoNuls(s)| + 1
  {
    var p := IndexOf(s, LINE_ENDS);
    if p < |s| {
      FullWeightStep(s);
      assert s == s[..p] + [s[p]] + s[p + 1..];
      NoNulsOfSum(s[..p] + [s[p]], s[p + 1..]);
      NoNulsOfSum(s[..p], [s[p]]);
      if s[p + 1..] != "" {
        WeightOfText(s[p + 1..]);
      }
    }
  }

  /** The weights of two texts add up when the first ends in a line feed. */
  lemma {:induction false} WeightsAddUp(block: string, rest: string)
    requires rest == "" || (block != "" && block[|block| - 1] == '\n')
    ensures FullWeight(block + rest) == FullWeight(block) + FullWeight(rest)
  {
    var s := block + rest;
    if rest == "" {
      assert s == block;
    } else {
      var p := IndexOf(block, LINE_ENDS);
      assert block[|block| - 1] in LINE_ENDS;
      IndexOfIs(s, LINE_ENDS, p);
      FullWeightStep(s);
      FullWeightStep(block);
      assert s[..p] == block[..p] && s[p + 1..] == block[p + 1..] + rest;
      if block[p + 1..] == "" {
        assert s[p + 1..] == rest;
      } else {
        WeightsAddUp(block[p + 1..], rest);
      }
    }
  }

  /** What a line of text weighs of which a chunk shows only a part. */
  lemma HiddenWeight(block: string)
    requires block != ""
    ensures var v := Until(block);
            if ShowsEnd(block) then
              FullWeight(block) >= IndexOf(v, LINE_ENDS) + 2 + (if IndexOf(v, LINE_ENDS) + 1 < |block| then 1 else 0)
            else
              FullWeight(block) >= |v| + 1 + (if NulsOnlyLast(block) then 0 else 1)
  {
    var v := Until(block);
    var p := IndexOf(v, LINE_ENDS);
    if p < |v| {
      IndexOfIs(block, LINE_ENDS, p);
      assert block[..p] == v[..p];
      NoNulsKeepsTheRest(block[..p]);
      FullWeightStep(block);
      if p + 1 < |block| {
        WeightOfText(block[p + 1..]);
      }
    } else {
      WeightOfText(block);
      UntilShows(block);
    }
  }

  /** When text is hidden, and not behind the chunk, it is hidden in the chunk. */
  lemma ShownWholeUnless(s: string, n: nat)
    requires 0 < n <= |s| && (n < |s| ==> s[n - 1] == '\n')
    requires HidesNothing(s[n..], 2) && !HidesNothing(s, 2)
    ensures if ShowsEnd(s[..n]) then IndexOf(Until(s[..n]), LINE_ENDS) + 1 < n else !NulsOnlyLast(s[..n])
  {
    var block := s[..n];
    assert forall i :: 0 <= i < n ==> s[i] == block[i];
    assert forall i :: n <= i < |s| ==> s[i] == s[n..][i - n];
  }

  /** A line feed at the end of a chunk that shows no line end is hidden by a NUL. */
  lemma EndIsHidden(block: string)
    requires block != "" && !ShowsEnd(block)
    ensures IndexOf(Until(block), LINE_ENDS) == |Until(block)|
    ensures block[|block| - 1] == '\n' ==> !NulsOnlyLast(block)
  {
    assert block[|block| - 1] == '\n' ==> block[|block| - 1] in LINE_ENDS;
  }

  lemma BigTurn(rest: string, line: Option<string>, k: nat)
    requires rest != "" && k >= |rest| && (line.Some? ==> IndexOf(line.value, LINE_ENDS) == |line.value|)
    ensures var n := ChunkLength(rest, k);
            var block, later := rest[..n], rest[n..];
            var l := Glue(line, block);
            && (later != "" ==> block[n - 1] == '\n')
            && |l| == |line.GetOr("")| + |Until(block)|
            && IndexOf(l, LINE_ENDS) == |line.GetOr("")| + IndexOf(Until(block), LINE_ENDS)
            && Collect(rest, line, k) ==
               if ShowsEnd(block) then Collect(later, None, k).After(l[..IndexOf(l, LINE_ENDS)])
               else Collect(later, Some(l), k)
  {
    hide Glue, Until, IndexOf;
    GlueShowsEnd(line, rest[..ChunkLength(rest, k)]);
  }

  /** A buffer that holds whole lines hides what follows a carriage return or a NUL inside one. */
  lemma {:induction false} BigChunksHideText(rest: string, line: Option<string>, k: nat)
    requires k > 0 && k >= |rest| && (line.Some? ==> IndexOf(line.value, LINE_ENDS) == |line.value|)
    ensures Weight(Collect(rest, line, k)) + (if HidesNothing(rest, 2) then 0 else 1) <= WithLine(line, rest)
    decreases |rest|
  {
    if rest != "" {
      hide Collect, Weight, FullWeight, ShowsEnd, HidesNothing, NulsOnlyLast, Until, Glue, IndexOf;
      var n := ChunkLength(rest, k);
      var block, later := rest[..n], rest[n..];
      assert rest == block + later;
      BigTurn(rest, line, k);
      WeightsAddUp(block, later);
      HiddenWeight(block);
      var l := Glue(line, block);
      if ShowsEnd(block) {
        WeightAfter(Collect(later, None, k), l[..IndexOf(l, LINE_ENDS)]);
        BigChunksHideText(later, None, k);
      } else {
        EndIsHidden(block);
        BigChunksHideText(later, Some(l), k);
      }
      if HidesNothing(later, 2) && !HidesNothing(rest, 2) {
        ShownWholeUnless(rest, n);
      }
    }
  }

  /** The buffer size never shows, exactly when nothing follows a carriage return and only NULs follow a NUL. */
  lemma ChunkIndependence(s: string)
    ensures ReturnOnlyLast(s) && NulsOnlyLast(s) <==>
            forall k: nat :: k > 0 ==> Collect(s, None, k) == Shown(Lines(s))
  {
    if ReturnOnlyLast(s) && NulsOnlyLast(s) {
      forall k: nat | k > 0 ensures Collect(s, None, k) == Shown(Lines(s)) {
        ReadWhole(s, k);
      }
    } else {
      BigChunksHideText(s, None, |s|);
    }
  }

  /** A buffer of two bytes, one character a time, treats a carriage return like a line feed and passes over NULs. */
  lemma SmallestBufferSplitsAtBoth(s: string)
    ensures Collect(s, None, 1) == Shown(Lines(s))
  {
    ReadWhole(s, 1);
  }

  // ---- The closing NULL of the vector.

  lemma {:induction false} PendingMeansUnfinished(s: string)
    ensures Lines(s).pending <==> s != "" && s[|s| - 1] !in LINE_ENDS
    ensures |Lines(s).lines| > 1 && Lines(s).pending ==> IndexOf(s, LINE_ENDS) < |s|
    ensures |Lines(s).lines| <= 1 && Lines(s).pending ==> IndexOf(s, LINE_ENDS) == |s|
  {
    var p := IndexOf(s, LINE_ENDS);
    if p < |s| {
      PendingMeansUnfinished(s[p + 1..]);
    }
  }

  /** What `fgets` hands over, chunk by chunk. */
  function Chunks(s: string, k: nat): seq<string>
    requires k > 0
  {
    if s == "" then [] else [s[..ChunkLength(s, k)]] + Chunks(s[ChunkLength(s, k)..], k)
  }

  ghost predicate OneShowsEnd(chunks: seq<string>) { exists chunk :: chunk in chunks && ShowsEnd(chunk) }

  lemma OneOfMore(chunk: string, chunks: seq<string>)
    ensures OneShowsEnd([chunk] + chunks) <==> ShowsEnd(chunk) || OneShowsEnd(chunks)
  {
    assert chunk in [chunk] + chunks;
  }

  lemma {:induction false} FinishedByChunks(rest: string, line: Option<string>, k: nat)
    requires k > 0 && (line.Some? ==> IndexOf(line.value, LINE_ENDS) == |line.value|)
    ensures var c, chunks := Collect(rest, line, k), Chunks(rest, k);
            && (c.pending <==> if chunks == [] then line.Some? else !ShowsEnd(chunks[|chunks| - 1]))
            && (c.Finished() > 0 <==> OneShowsEnd(chunks))
    decreases |rest|
  {
    if rest != "" {
      var chunk, later := rest[..ChunkLength(rest, k)], rest[ChunkLength(rest, k)..];
      var l := Glue(line, chunk);
      var next := if ShowsEnd(chunk) then None else Some(l);
      GlueShowsEnd(line, chunk);
      assert Chunks(rest, k) == [chunk] + Chunks(later, k);
      assert Collect(rest, line, k) ==
             if ShowsEnd(chunk) then Collect(later, next, k).After(l[..IndexOf(l, LINE_ENDS)])
             else Collect(later, next, k);
      hide Collect, Chunks, ShowsEnd, IndexOf, Glue, OneShowsEnd;
      FinishedByChunks(later, next, k);
      OneOfMore(chunk, Chunks(later, k));
    }
  }

  /**
   The vector is closed by NULL exactly when the last chunk shows a line end or none does: a last line that no line end
   finishes, after earlier lines, takes the last slot.  When no chunk hides text that is whether the stream ends in a
   line end or has none.
   */
  lemma ClosedByNullExactlyWhen(s: string, k: nat)
    requires k > 0 && s != ""
    ensures var slots, chunks := Slots(Collect(s, None, k)), Chunks(s, k);
            && slots != [] && chunks != []
            && (slots[|slots| - 1] == None <==> ShowsEnd(chunks[|chunks| - 1]) || !OneShowsEnd(chunks))
    ensures HidesNothing(s, k) ==>
              var slots := Slots(Collect(s, None, k));
              && |slots| >= |Lines(s).lines| > 0
              && (forall i :: 0 <= i < |Lines(s).lines| ==> slots[i] == Some(NoNuls(Lines(s).lines[i])))
              && (slots[|slots| - 1] == None <==> s[|s| - 1] in LINE_ENDS || IndexOf(s, LINE_ENDS) == |s|)
  {
    hide Collect, ShowsEnd, OneShowsEnd, IndexOf, Lines, NoNuls, HidesNothing;
    FinishedByChunks(s, None, k);
    if HidesNothing(s, k) {
      ReadWhole(s, k);
      PendingMeansUnfinished(s);
    }
  }

  // ---- Writing lines out and collecting them again.

  lemma {:induction false} LinesAreTheText(s: string)
    requires '\r' !in s
    ensures Unlines(Lines(s)) == s
  {
    var p := IndexOf(s, LINE_ENDS);
    if s != "" && p < |s| {
      var rest := Lines(s[p + 1..]);
      assert Lines(s) == rest.After(s[..p]);
      assert s[p] == '\n' && s == s[..p] + "\n" + s[p + 1..];
      hide Lines, IndexOf;
      LinesAreTheText(s[p + 1..]);
      assert Lines(s).lines[1..] == rest.lines;
    }
  }

  predicate Plain(line: string) { NUL !in line && '\r' !in line && '\n' !in line }

  /** Whatever the stream and the buffer size, no line holds a NUL or a line end. */
  lemma {:induction false} CollectedLinesArePlain(rest: string, line: Option<string>, k: nat)
    requires k > 0 && (line.Some? ==> Plain(line.value))
    ensures forall l :: l in Collect(rest, line, k).lines ==> Plain(l)
    decreases |rest|
  {
    if rest != "" {
      var n := ChunkLength(rest, k);
      var l := Glue(line, rest[..n]);
      var p := IndexOf(l, LINE_ENDS);
      if p < |l| {
        CollectedLinesArePlain(rest[n..], None, k);
      } else {
        CollectedLinesArePlain(rest[n..], Some(l), k);
      }
    }
  }

  lemma {:induction false} PlainWrittenOut(c: Collected)
    requires c.pending ==> c.lines != []
    requires forall l :: l in c.lines ==> Plain(l)
    ensures NUL !in Unlines(c) && '\r' !in Unlines(c)
    decreases c.lines
  {
    assert c.lines != [] ==> c.lines[0] in c.lines;
    if c.lines != [] && !(|c.lines| == 1 && c.pending) {
      PlainWrittenOut(Collected(c.lines[1..], c.pending));
    }
  }

  /** The collected lines, written out again, are the stream exactly when it has neither NULs nor carriage returns. */
  lemma CollectedTextIsTheStream(s: string, k: nat)
    requires k > 0
    ensures Unlines(Collect(s, None, k)) == s <==> NUL !in s && '\r' !in s
  {
    CollectedLinesArePlain(s, None, k);
    PlainWrittenOut(Collect(s, None, k));
    if NUL !in s && '\r' !in s {
      PlainIsWhole(s, k);
      LinesAreTheText(s);
    }
  }

  lemma WrittenLine(line: string, rest: string)
    requires '\r' !in line && '\n' !in line
    ensures Lines(line + "\n" + rest) == Lines(rest).After(line)
  {
    var s := line + "\n" + rest;
    IndexOfIs(s, LINE_ENDS, |line|);
    assert s[..|line|] == line && s[|line| + 1..] == rest;
  }

  lemma PlainIsWhole(s: string, k: nat)
    requires k > 0 && NUL !in s && '\r' !in s
    ensures Collect(s, None, k) == Lines(s)
  {
    ReadWhole(s, k);
  }

  lemma {:induction false} PlainLinesComeBack(lines: seq<string>, k: nat)
    requires k > 0 && forall l :: l in lines ==> Plain(l)
    ensures Collect(Unlines(Collected(lines, false)), None, k) == Collected(lines, false)
  {
    if lines != [] {
      PlainLinesComeBack(lines[1..], k);
      var rest := Unlines(Collected(lines[1..], false));
      assert lines[0] in lines;
      PlainWrittenOut(Collected(lines, false));
      PlainWrittenOut(Collected(lines[1..], false));
      hide Lines, Collect, HidesNothing;
      PlainIsWhole(rest, k);
      WrittenLine(lines[0], rest);
      assert [lines[0]] + lines[1..] == lines;
      PlainIsWhole(lines[0] + "\n" + rest, k);
    }
  }

  /** For every buffer size, lines written out are collected back exactly when none holds a NUL or a line end. */
  lemma WrittenLinesComeBack(lines: seq<string>, k: nat)
    requires k > 0
    ensures Collect(Unlines(Collected(lines, false)), None, k) == Collected(lines, false) <==>
            forall l :: l in lines ==> Plain(l)
  {
    CollectedLinesArePlain(Unlines(Collected(lines, false)), None, k);
    if forall l :: l in lines ==> Plain(l) {
      PlainLinesComeBack(lines, k);
    }
  }
}
