/** What collapsing slashes means: the components stay, and nothing else is left of the path. */
module PathLaws {
  import opened CStrings
  import opened Paths

  function Components(s: string): seq<string> { Split(s, '/', "") }

  predicate Absolute(s: string) { s != "" && s[0] == '/' }

  /** Each component behind one slash. */
  function Slashed(cs: seq<string>): (s: string)
    ensures cs != [] ==> s != "" && s[0] == '/'
  {
    if cs == [] then "" else "/" + cs[0] + Slashed(cs[1..])
  }

  /** The one way to write components down as an absolute or a relative path. */
  function Render(absolute: bool, cs: seq<string>): string {
    if cs == [] then "" else if absolute then Slashed(cs) else Slashed(cs)[1..]
  }

  lemma SlashedCons(c: string, cs: seq<string>)
    ensures Slashed([c] + cs)[1..] == c + Slashed(cs)
  {
  }

  lemma {:induction false} NormalInsideComponent(s: string, word: string)
    requires word != ""
    ensures word + Normal(s) == Slashed(Split(s, '/', word))[1..]
    decreases |s|, 1
  {
    if s == "" {
      SlashedCons(word, []);
      assert word + "" == word;
    } else if s[0] == '/' {
      NormalAtSlash(s);
      var rest := Split(s[1..], '/', "");
      assert Split(s, '/', "") == [] + rest == rest;
      SlashedCons(word, rest);
    } else {
      NormalInsideComponent(s[1..], word + [s[0]]);
      assert (word + [s[0]]) + Normal(s[1..]) == word + ([s[0]] + Normal(s[1..]));
    }
  }

  lemma {:induction false} NormalAtSlash(s: string)
    requires Absolute(s)
    ensures Normal(s) == Slashed(Components(s))
    decreases |s|, 0
  {
    var t := s[1..];
    assert Components(s) == [] + Components(t) == Components(t);
    if t == "" {
    } else if t[0] == '/' {
      NormalAtSlash(t);
      assert Normal(s) == "" + Normal(t) == Normal(t);
    } else {
      NormalInsideComponent(t[1..], [t[0]]);
      assert "" + [t[0]] == [t[0]];
      var r := Slashed(Components(t));
      assert Normal(s) == ['/'] + ([t[0]] + Normal(t[1..])) == ['/'] + r[1..] == r;
    }
  }

  /** Collapsing rewrites a path from its components, keeping only whether it began with a slash. */
  lemma NormalIsRender(s: string)
    ensures Normal(s) == Render(Absolute(s), Components(s))
  {
    if Absolute(s) {
      NormalAtSlash(s);
    } else if s != "" {
      assert "" + [s[0]] == [s[0]];
      NormalInsideComponent(s[1..], [s[0]]);
    }
  }

  ghost predicate ValidComponents(cs: seq<string>) {
    forall c :: c in cs ==> c != "" && '/' !in c
  }

  lemma {:induction false} SplitIsValid(s: string, word: string)
    requires '/' !in word
    ensures ValidComponents(Split(s, '/', word))
  {
    if s != "" {
      SplitIsValid(s[1..], if s[0] == '/' then "" else word + [s[0]]);
    }
  }

  lemma {:induction false} SplitOfComponent(c: string, rest: string, word: string)
    requires '/' !in c
    ensures Split(c + rest, '/', word) == Split(rest, '/', word + c)
  {
    if c == "" {
      assert c + rest == rest && word + c == word;
    } else {
      assert (c + rest)[1..] == c[1..] + rest && word + [c[0]] + c[1..] == word + c;
      SplitOfComponent(c[1..], rest, word + [c[0]]);
    }
  }

  lemma {:induction false} SplitOfSlashed(cs: seq<string>, word: string)
    requires ValidComponents(cs)
    ensures Split(Slashed(cs), '/', word) == Flush(word) + cs
  {
    if cs != [] {
      assert cs[0] in cs && forall c :: c in cs[1..] ==> c in cs;
      var rest := Slashed(cs[1..]);
      assert Slashed(cs)[1..] == cs[0] + rest;
      assert Split(Slashed(cs), '/', word) == Flush(word) + Split(cs[0] + rest, '/', "");
      hide Slashed, Split;
      SplitOfComponent(cs[0], rest, "");
      assert "" + cs[0] == cs[0];
      SplitOfSlashed(cs[1..], cs[0]);
      assert [cs[0]] + cs[1..] == cs;
    }
  }

  /** Rendered components are read back as they were. */
  lemma ComponentsOfRender(absolute: bool, cs: seq<string>)
    requires ValidComponents(cs)
    ensures Components(Render(absolute, cs)) == cs
    ensures cs != [] ==> (Absolute(Render(absolute, cs)) <==> absolute)
  {
    if cs != [] {
      SplitOfSlashed(cs, "");
      assert [] + cs == cs;
      var s := Slashed(cs);
      assert s[1..][0] == cs[0][0] by { assert cs[0] in cs; assert s[1] == cs[0][0]; }
      assert cs[0] in cs && cs[0][0] in cs[0];
      assert Split(s, '/', "") == [] + Split(s[1..], '/', "");
    }
  }

  predicate Collapsed(s: string) {
    && (forall i :: 0 <= i < |s| - 1 ==> !(s[i] == '/' && s[i + 1] == '/'))
    && (s != "" ==> s[|s| - 1] != '/')
  }

  lemma CollapsedStep(s: string)
    requires s != ""
    ensures Collapsed(s) <==> !Superfluous(s) && Collapsed(s[1..])
  {
  }

  lemma {:induction false} FixedExactlyWhenCollapsed(s: string)
    ensures Normal(s) == s <==> Collapsed(s)
  {
    if s != "" {
      CollapsedStep(s);
      FixedExactlyWhenCollapsed(s[1..]);
      assert [s[0]] + s[1..] == s;
      assert Normal(s) == if Superfluous(s) then "" + Normal(s[1..]) else [s[0]] + Normal(s[1..]);
      if Normal(s) == s {
        assert Normal(s)[1..] == s[1..];
      }
    }
  }

  /** Collapsing keeps the components in order, leaves no slash doubled or last, and done again changes nothing. */
  lemma NormalKeepsComponents(s: string)
    ensures Components(Normal(s)) == Components(s)
    ensures Components(s) != [] ==> (Absolute(Normal(s)) <==> Absolute(s))
    ensures Normal(Normal(s)) == Normal(s) && Collapsed(Normal(s))
  {
    SplitIsValid(s, "");
    NormalIsRender(s);
    NormalIsRender(Normal(s));
    ComponentsOfRender(Absolute(s), Components(s));
    FixedExactlyWhenCollapsed(Normal(s));
  }

  /** Two paths collapse to the same one exactly when they have the same components and begin alike. */
  lemma SameNormalExactlyWhen(s: string, t: string)
    ensures Normal(s) == Normal(t) <==>
            Components(s) == Components(t) && (Components(s) == [] || Absolute(s) == Absolute(t))
  {
    NormalKeepsComponents(s);
    NormalKeepsComponents(t);
    NormalIsRender(s);
    NormalIsRender(t);
  }
}
