/** What the directory maker promises over all paths, file systems and kernels. */
module MakePathLaws {
  import opened CStrings
  import opened Paths
  import opened PathLaws
  import opened MakePath

  // ---- The leading directories are the ancestors, parents first.

  /** Below its last slash a path has no further leading directory. */
  lemma {:induction false} LeadingBelow(parent: string, c: string, n: nat)
    requires n <= |parent + "/" + c| && '/' !in c
    ensures Leading(parent + "/" + c, n) ==
            if n <= |parent| then Leading(parent, n)
            else Leading(parent, |parent|) + if parent == "" then [] else [parent]
  {
    var path := parent + "/" + c;
    if n > 0 {
      LeadingBelow(parent, c, n - 1);
      if n <= |parent| {
        assert path[..n - 1] == parent[..n - 1];
      } else if n == |parent| + 1 {
        assert path[..n - 1] == parent;
      } else {
        assert path[n - 1] == c[n - 2 - |parent|];
      }
    }
  }

  lemma {:induction false} SlashedSnoc(cs: seq<string>, c: string)
    ensures Slashed(cs + [c]) == Slashed(cs) + ("/" + c)
  {
    if cs == [] {
      assert [] + [c] == [c] && Slashed([c]) == "/" + c + "" == "/" + c && "" + ("/" + c) == "/" + c;
    } else {
      assert (cs + [c])[1..] == cs[1..] + [c];
      SlashedSnoc(cs[1..], c);
    }
  }

  /** One more component means one more leading directory: the path so far. */
  lemma OneMoreComponent(absolute: bool, up: seq<string>, c: string)
    requires up != [] && ValidComponents(up) && '/' !in c
    ensures var parent := Render(absolute, up);
            var path := Render(absolute, up + [c]);
            Leading(path, |path|) == Leading(parent, |parent|) + [parent]
  {
    var parent := Render(absolute, up);
    assert up[0] in up && |Slashed(up)| > 1;
    SlashedSnoc(up, c);
    assert Slashed(up) + ("/" + c) == Slashed(up) + "/" + c;
    assert (Slashed(up) + "/" + c)[1..] == Slashed(up)[1..] + "/" + c;
    LeadingBelow(parent, c, |parent + "/" + c|);
  }

  lemma OneComponent(absolute: bool, c: string)
    requires '/' !in c
    ensures var path := Render(absolute, [c]);
            Leading(path, |path|) == []
  {
    assert Slashed([c]) == "/" + c + "" == "/" + c && ("/" + c)[1..] == c;
    if absolute {
      assert "" + "/" + c == "/" + c;
      LeadingBelow("", c, 1 + |c|);
    } else {
      LeadingOfComponent(c, |c|);
    }
  }

  ghost predicate AreAncestors(ls: seq<string>, absolute: bool, cs: seq<string>) {
    |ls| == |cs| - 1 && forall i :: 0 <= i < |ls| ==> ls[i] == Render(absolute, cs[..i + 1])
  }

  /** The leading directories of a collapsed path are its ancestors, the outermost first. */
  lemma {:induction false} LeadingAreAncestors(absolute: bool, cs: seq<string>)
    requires cs != [] && ValidComponents(cs)
    ensures var path := Render(absolute, cs);
            AreAncestors(Leading(path, |path|), absolute, cs)
  {
    var c, up := cs[|cs| - 1], cs[..|cs| - 1];
    assert cs == up + [c] && c in cs;
    if up == [] {
      OneComponent(absolute, c);
    } else {
      assert forall d :: d in up ==> d in cs;
      LeadingAreAncestors(absolute, up);
      OneMoreComponent(absolute, up, c);
      hide Leading, Render, Slashed;
      var ls := Leading(Render(absolute, up), |Render(absolute, up)|);
      forall i | 0 <= i < |ls| + 1 ensures (ls + [Render(absolute, up)])[i] == Render(absolute, cs[..i + 1]) {
        assert cs[..i + 1] == up[..i + 1];
      }
    }
  }

  lemma {:induction false} LeadingOfComponent(c: string, n: nat)
    requires '/' !in c && n <= |c|
    ensures Leading(c, n) == []
  {
    if n > 0 {
      LeadingOfComponent(c, n - 1);
    }
  }

  // ---- The walk.

  /** Each path is a proper prefix of every later one. */
  ghost predicate Growing(ps: seq<string>) {
    forall i, j :: 0 <= i < j < |ps| ==> ps[i] < ps[j]
  }

  lemma {:induction false} LeadingGrows(path: string, n: nat)
    requires n <= |path|
    ensures Growing(Leading(path, n))
    ensures forall l :: l in Leading(path, n) ==> l != "" && l < path && |l| < n
  {
    if n > 0 {
      LeadingGrows(path, n - 1);
      var up, last := Leading(path, n - 1), path[..n - 1];
      forall i | 0 <= i < |up| ensures up[i] < last {
        assert up[i] in up && up[i] == path[..|up[i]|];
      }
    }
  }

  /** The calls of mkdir that were added between two states. */
  function Added(s: State, r: State): seq<Attempt>
    requires |s.attempts| <= |r.attempts|
  {
    r.attempts[|s.attempts|..]
  }

  /** Files only come, as directories at the given paths, and none of those there changes. */
  ghost predicate OnlyAdds(s: State, r: State, paths: seq<string>) {
    && (forall q :: q in s.fs ==> q in r.fs && r.fs[q] == s.fs[q])
    && (forall q :: q in r.fs && q !in s.fs ==> q in paths && r.fs[q] == Directory)
  }

  /** The creation context that `n` attempts leave of the caller's. */
  function LeftAfter(kernel: Kernel, context: Option<string>, n: nat): Option<string> {
    if n == 0 || kernel.policy.None? then context else None
  }

  /**
   Each attempt is made under the label the policy has for its path and a directory's mode; under none if there is
   none; and, where SELinux is not in use or the policy does not answer, under what was left by those before it.
   */
  ghost predicate OwnContexts(kernel: Kernel, context: Option<string>, added: seq<Attempt>) {
    forall i :: 0 <= i < |added| ==>
      var a := added[i];
      if kernel.policy.None? then a.context == context
      else match kernel.policy.value(a.path, OfDirectory(a.mode))
        case NoAnswer => a.context == LeftAfter(kernel, context, i)
        case NoLabel => a.context == None
        case Label(label_) => a.context == Some(label_)
  }

  /** The mode asked about has the bit of a directory and the rights asked for. */
  lemma AsksAboutDirectory(mode: nat)
    ensures OfDirectory(mode) / 0x4000 % 2 == 1
    ensures OfDirectory(mode) % 0x4000 == mode % 0x4000 && OfDirectory(mode) / 0x8000 == mode / 0x8000
  {
  }

  /** A leading directory is attempted with rights 0711, under a mask of 0066. */
  ghost predicate LeadingAttempt(a: Attempt) { a.mode == 7 * 64 + 1 * 8 + 1 && a.umask == 6 * 8 + 6 }

  /** The rights that `mode` comes to under a mask. */
  function Rights(mode: nat, umask: nat): nat
    requires mode < 4096 && umask < 4096
  {
    (mode as bv12 & !(umask as bv12)) as nat
  }

  /** So every leading directory made can be searched by all, and read and written by its owner alone. */
  lemma LeadingRights(a: Attempt)
    requires LeadingAttempt(a)
    ensures Rights(a.mode, a.umask) == 7 * 64 + 1 * 8 + 1
  {
  }

  ghost predicate WalkPost(s: State, r: State, ok: bool, paths: seq<string>) {
    && r.umask == s.umask
    && OnlyAdds(s, r, paths) && (ok ==> forall p :: p in paths ==> p in r.fs)
    && s.attempts <= r.attempts
    && (forall i, j :: 0 <= i < j < |Added(s, r)| ==> Added(s, r)[i].path < Added(s, r)[j].path)
    && forall i :: 0 <= i < |Added(s, r)| ==>
         var a := Added(s, r)[i];
         LeadingAttempt(a) && a.path in paths && !(a.path in s.fs && s.fs[a.path].HasDirectoryBit())
  }

  /** What a walk, or a walk and the last step, do to the creation context. */
  ghost predicate ContextPost(kernel: Kernel, s: State, r: State) {
    && s.attempts <= r.attempts
    && OwnContexts(kernel, s.context, Added(s, r))
    && r.context == LeftAfter(kernel, s.context, |Added(s, r)|)
  }

  lemma LeadKeepsContext(s: State, m: State, kernel: Kernel, p: string)
    requires ContextPost(kernel, s, m)
    ensures ContextPost(kernel, s, m.Lead(kernel, p).1)
    ensures !m.Lead(kernel, p).0 ==> s.attempts != m.Lead(kernel, p).1.attempts
  {
    var (ok, r) := m.Lead(kernel, p);
    if r.attempts != m.attempts {
      assert Added(s, r) == Added(s, m) + [r.attempts[|m.attempts|]];
    }
  }

  lemma {:induction false} WalkKeepsContext(s: State, kernel: Kernel, paths: seq<string>)
    ensures ContextPost(kernel, s, s.LeadAll(kernel, paths).1)
    ensures !s.LeadAll(kernel, paths).0 ==> s.attempts != s.LeadAll(kernel, paths).1.attempts
    decreases |paths|
  {
    if paths != [] {
      WalkKeepsContext(s, kernel, paths[..|paths| - 1]);
      var (ok, m) := s.LeadAll(kernel, paths[..|paths| - 1]);
      if ok {
        LeadKeepsContext(s, m, kernel, paths[|paths| - 1]);
      }
    }
  }

  lemma MakeAllKeepsContext(s0: State, kernel: Kernel, newpath: string, mode: nat, owner: Option<(nat, nat)>)
    ensures var s := MakeAll(s0, kernel, newpath, mode, owner).1;
            ContextPost(kernel, s0, s) && s0.attempts != s.attempts
  {
    var path := Normal(newpath);
    var ls := Leading(path, |path|);
    var s := MakeAll(s0, kernel, newpath, mode, owner).1;
    hide Normal, Leading, ContextPost, State.LeadAll;
    WalkKeepsContext(s0, kernel, ls);
    var (ok, led) := s0.LeadAll(kernel, ls);
    if ok {
      LastKeepsContext(s0, led, kernel, path, mode, owner);
    }
  }

  lemma LastKeepsContext(s: State, led: State, kernel: Kernel, path: string, mode: nat, owner: Option<(nat, nat)>)
    requires ContextPost(kernel, s, led)
    ensures var r := led.Last(kernel, path, mode, owner).1;
            ContextPost(kernel, s, r) && s.attempts != r.attempts
  {
    var r := led.Last(kernel, path, mode, owner).1;
    assert Added(s, r) == Added(s, led) + [r.attempts[|led.attempts|]];
  }

  lemma LeadKeeps(s: State, m: State, kernel: Kernel, paths: seq<string>, p: string)
    requires Honest(kernel) && WalkPost(s, m, true, paths)
    requires forall q :: q in paths ==> q < p
    ensures var (ok, r) := m.Lead(kernel, p);
            WalkPost(s, r, ok, paths + [p])
  {
    var (ok, r) := m.Lead(kernel, p);
    if r.attempts != m.attempts {
      assert Added(s, r) == Added(s, m) + [r.attempts[|m.attempts|]];
    }
    assert p in paths + [p];
  }

  lemma WalkPostOfMore(s: State, r: State, paths: seq<string>, p: string)
    requires WalkPost(s, r, false, paths)
    ensures WalkPost(s, r, false, paths + [p])
  {
  }

  lemma {:induction false} WalkKeeps(s: State, kernel: Kernel, paths: seq<string>)
    requires Honest(kernel) && Growing(paths)
    ensures var (ok, r) := s.LeadAll(kernel, paths);
            WalkPost(s, r, ok, paths)
    decreases |paths|
  {
    if paths != [] {
      var up, p := paths[..|paths| - 1], paths[|paths| - 1];
      assert up + [p] == paths;
      WalkKeeps(s, kernel, up);
      var (ok, m) := s.LeadAll(kernel, up);
      if ok {
        LeadKeeps(s, m, kernel, up, p);
      } else {
        WalkPostOfMore(s, m, up, p);
      }
    }
  }

  // ---- What the kernel answered, and what came of it.

  /** The files after attempts that were answered as the log says. */
  function Replayed(fs: FileSystem, added: seq<Attempt>): FileSystem
    decreases |added|
  {
    if added == [] then fs
    else
      var before, a := Replayed(fs, added[..|added| - 1]), added[|added| - 1];
      if a.answer == Made then before[a.path := Directory] else before
  }

  /** The log holds the kernel's own answers, each about the files as they stood; a refusal is the last one. */
  ghost predicate TrueLog(kernel: Kernel, fs: FileSystem, added: seq<Attempt>) {
    && (forall i :: 0 <= i < |added| ==> added[i].answer == kernel.mkdir(Replayed(fs, added[..i]), added[i].path))
    && forall i :: 0 <= i < |added| - 1 ==> added[i].answer != Refused
  }

  ghost predicate SomeRefused(added: seq<Attempt>) { exists i :: 0 <= i < |added| && added[i].answer == Refused }

  ghost predicate LogPost(kernel: Kernel, s: State, r: State, ok: bool) {
    && s.attempts <= r.attempts && TrueLog(kernel, s.fs, Added(s, r)) && (ok <==> !SomeRefused(Added(s, r)))
  }

  lemma LogOfOneMore(kernel: Kernel, s: State, m: State, a: Attempt)
    requires LogPost(kernel, s, m, true) && a.answer == kernel.mkdir(Replayed(s.fs, Added(s, m)), a.path)
    ensures var more := Added(s, m) + [a];
            && TrueLog(kernel, s.fs, more) && (SomeRefused(more) <==> a.answer == Refused)
            && Replayed(s.fs, more) ==
               if a.answer == Made then Replayed(s.fs, Added(s, m))[a.path := Directory]
               else Replayed(s.fs, Added(s, m))
  {
    var more := Added(s, m) + [a];
    hide Replayed;
    assert forall i :: 0 <= i <= |Added(s, m)| ==> more[..i] == Added(s, m)[..i];
    assert Added(s, m)[..|Added(s, m)|] == Added(s, m);
    assert more[|Added(s, m)|].answer == a.answer;
    ReplayedMore(s.fs, Added(s, m), a);
  }

  lemma ReplayedMore(fs: FileSystem, added: seq<Attempt>, a: Attempt)
    ensures Replayed(fs, added + [a]) ==
            if a.answer == Made then Replayed(fs, added)[a.path := Directory] else Replayed(fs, added)
  {
    assert (added + [a])[..|added|] == added;
  }

  lemma LeadKeepsLog(s: State, m: State, kernel: Kernel, p: string)
    requires LogPost(kernel, s, m, true) && m.fs == Replayed(s.fs, Added(s, m))
    ensures var (ok, r) := m.Lead(kernel, p);
            LogPost(kernel, s, r, ok) && r.fs == Replayed(s.fs, Added(s, r))
  {
    var (ok, r) := m.Lead(kernel, p);
    if r.attempts != m.attempts {
      var a := r.attempts[|m.attempts|];
      assert Added(s, r) == Added(s, m) + [a];
      LogOfOneMore(kernel, s, m, a);
      hide TrueLog, SomeRefused, Replayed;
    }
  }

  lemma {:induction false} WalkKeepsLog(s: State, kernel: Kernel, paths: seq<string>)
    ensures var (ok, r) := s.LeadAll(kernel, paths);
            LogPost(kernel, s, r, ok) && r.fs == Replayed(s.fs, Added(s, r))
    decreases |paths|
  {
    if paths != [] {
      WalkKeepsLog(s, kernel, paths[..|paths| - 1]);
      var (ok, m) := s.LeadAll(kernel, paths[..|paths| - 1]);
      if ok {
        LeadKeepsLog(s, m, kernel, paths[|paths| - 1]);
      }
    }
  }

  // ---- Which leading directories are attempted.

  /** Nothing is there that the program takes for a directory. */
  predicate Missing(fs: FileSystem, path: string) { !(path in fs && fs[path].HasDirectoryBit()) }

  /**
   A leading path is attempted exactly when it is missing; that is whenever it is no directory, exactly when it is
   not a block device or a socket.
   */
  lemma LeadAttemptsExactlyWhen(s: State, kernel: Kernel, path: string)
    ensures s.Lead(kernel, path).1.attempts != s.attempts <==> Missing(s.fs, path)
    ensures (Missing(s.fs, path) <==> !(path in s.fs && s.fs[path].Directory?)) <==>
            !(path in s.fs && (s.fs[path].BlockDevice? || s.fs[path].Socket?))
  {
    var (_, r) := s.Lead(kernel, path);
    assert Missing(s.fs, path) ==> |r.attempts| == |s.attempts| + 1;
  }

  function MissingOf(fs: FileSystem, paths: seq<string>): seq<string>
    decreases |paths|
  {
    if paths == [] then []
    else
      var up, p := paths[..|paths| - 1], paths[|paths| - 1];
      MissingOf(fs, up) + if Missing(fs, p) then [p] else []
  }

  function PathsOf(attempts: seq<Attempt>): seq<string> {
    seq(|attempts|, i requires 0 <= i < |attempts| => attempts[i].path)
  }

  /** A walk attempts the paths that were missing at its start, in their order: all of them unless it is stopped. */
  lemma {:induction false} WalkAttemptsTheMissing(s: State, kernel: Kernel, paths: seq<string>)
    requires Honest(kernel) && Growing(paths)
    ensures var (ok, r) := s.LeadAll(kernel, paths);
            && s.attempts <= r.attempts && PathsOf(Added(s, r)) <= MissingOf(s.fs, paths)
            && (ok ==> PathsOf(Added(s, r)) == MissingOf(s.fs, paths))
    decreases |paths|
  {
    WalkKeeps(s, kernel, paths);
    if paths != [] {
      var up, p := paths[..|paths| - 1], paths[|paths| - 1];
      WalkKeeps(s, kernel, up);
      WalkAttemptsTheMissing(s, kernel, up);
      var (ok, m) := s.LeadAll(kernel, up);
      if ok {
        assert p !in up;
        hide State.LeadAll, Growing;
        OneMoreAttempt(s, m, kernel, up, p);
      }
    }
  }

  lemma OneMoreAttempt(s: State, m: State, kernel: Kernel, up: seq<string>, p: string)
    requires WalkPost(s, m, true, up) && p !in up && PathsOf(Added(s, m)) == MissingOf(s.fs, up)
    ensures var r := m.Lead(kernel, p).1;
            && s.attempts <= r.attempts
            && PathsOf(Added(s, r)) == MissingOf(s.fs, up) + if Missing(s.fs, p) then [p] else []
  {
    var r := m.Lead(kernel, p).1;
    assert Missing(m.fs, p) <==> Missing(s.fs, p);
    if Missing(s.fs, p) {
      assert Added(s, r) == Added(s, m) + [r.attempts[|m.attempts|]];
    }
  }

  // ---- File systems that are trees.

  /** Every ancestor of the path is a directory. */
  ghost predicate Rooted(fs: FileSystem, path: string) {
    forall l :: l in Leading(path, |path|) ==> l in fs && fs[l] == Directory
  }

  ghost predicate Tree(fs: FileSystem) { forall p :: p in fs ==> Rooted(fs, p) }

  /** Nothing is made below what is no directory. */
  ghost predicate MakesRooted(kernel: Kernel) {
    forall fs: FileSystem, p: string :: kernel.mkdir(fs, p) == Made ==> Rooted(fs, p)
  }

  lemma MadeKeepsTree(fs: FileSystem, p: string)
    requires Tree(fs) && p !in fs && Rooted(fs, p)
    ensures Tree(fs[p := Directory])
  {
    hide Leading;
  }

  lemma {:induction false} WalkKeepsTree(s: State, kernel: Kernel, paths: seq<string>)
    requires Honest(kernel) && MakesRooted(kernel) && Tree(s.fs)
    ensures Tree(s.LeadAll(kernel, paths).1.fs)
    decreases |paths|
  {
    if paths != [] {
      var up, p := paths[..|paths| - 1], paths[|paths| - 1];
      WalkKeepsTree(s, kernel, up);
      var (ok, m) := s.LeadAll(kernel, up);
      if ok && kernel.mkdir(m.fs, p) == Made {
        MadeKeepsTree(m.fs, p);
      }
    }
  }

  /** Among directories the walk has nothing to do. */
  lemma {:induction false} WalkAmongDirectories(s: State, kernel: Kernel, paths: seq<string>)
    requires forall l :: l in paths ==> l in s.fs && s.fs[l] == Directory
    ensures s.LeadAll(kernel, paths) == (true, s)
    decreases |paths|
  {
    if paths != [] {
      WalkAmongDirectories(s, kernel, paths[..|paths| - 1]);
      assert paths[|paths| - 1] in paths;
    }
  }

  // ---- The whole operation.

  /** What the last step adds to a walk. */
  ghost predicate LastPost(led: State, s: State, ret: int, path: string, mode: nat) {
    && s.umask == led.umask
    && |s.attempts| == |led.attempts| + 1 && led.attempts <= s.attempts
    && (var a := s.attempts[|led.attempts|]; (a.path, a.mode, a.umask) == (path, mode, led.umask))
    && (forall q :: q in led.fs && q != path ==> q in s.fs && s.fs[q] == led.fs[q])
    && (forall q :: q in s.fs && q !in led.fs ==> q == path && s.fs[q] == Directory)
    && (ret == 0 ==> path in s.fs && (path in led.fs ==> s.fs[path] == led.fs[path]))
    && (path in led.fs && path in s.fs ==> s.fs[path] == led.fs[path])
  }

  lemma LastDoes(led: State, kernel: Kernel, path: string, mode: nat, owner: Option<(nat, nat)>)
    requires Honest(kernel)
    ensures var (ret, s) := led.Last(kernel, path, mode, owner);
            LastPost(led, s, ret, path, mode) && (ret == 0 ==> path != "" || path in led.fs)
  {
  }

  /** The operation is a walk that failed, or a walk and a last step. */
  lemma MakeAllDoes(s0: State, kernel: Kernel, newpath: string, mode: nat, owner: Option<(nat, nat)>)
    returns (ok: bool, led: State, ls: seq<string>)
    requires Honest(kernel)
    ensures var path := Normal(newpath);
            && ls == Leading(path, |path|) && (ok, led) == s0.LeadAll(kernel, ls)
            && (forall l :: l in ls ==> l != "" && l < path)
            && WalkPost(s0, led, ok, ls)
            && var (ret, s) := MakeAll(s0, kernel, newpath, mode, owner);
               if ok then LastPost(led, s, ret, path, mode) && (ret == 0 ==> path != "" || path in led.fs)
               else ret == HANDLER_FAILURE && s == led
  {
    var path := Normal(newpath);
    ls := Leading(path, |path|);
    LeadingGrows(path, |path|);
    hide Leading, Normal;
    WalkKeeps(s0, kernel, ls);
    var r := s0.LeadAll(kernel, ls);
    ok, led := r.0, r.1;
    if ok {
      LastDoes(led, kernel, path, mode, owner);
    }
  }

  /**
   Success means that the path has a component and that every one of its ancestors exists, and it
   itself does too.
   */
  lemma SuccessMakesEveryAncestor(s0: State, kernel: Kernel, newpath: string, mode: nat, owner: Option<(nat, nat)>)
    requires Honest(kernel) && "" !in s0.fs
    ensures var (ret, s) := MakeAll(s0, kernel, newpath, mode, owner);
            var absolute, cs := Absolute(newpath), Components(newpath);
            ret == 0 ==> cs != [] && forall i :: 0 < i <= |cs| ==> Render(absolute, cs[..i]) in s.fs
  {
    var path, absolute, cs := Normal(newpath), Absolute(newpath), Components(newpath);
    NormalIsRender(newpath);
    SplitIsValid(newpath, "");
    var ok, led, ls := MakeAllDoes(s0, kernel, newpath, mode, owner);
    var (ret, s) := MakeAll(s0, kernel, newpath, mode, owner);
    if ret == 0 {
      assert cs != [];
      LeadingAreAncestors(absolute, cs);
      assert AreAncestors(ls, absolute, cs);
      hide Leading, Normal, Render, Components, MakeAll;
      forall i | 0 < i <= |cs| ensures Render(absolute, cs[..i]) in s.fs {
        if i == |cs| {
          assert cs[..i] == cs;
        } else {
          assert ls[i - 1] in ls;
        }
      }
    }
  }

  /** The calls of mkdir that one operation makes. */
  ghost predicate GoodAttempts(added: seq<Attempt>, s0: State, path: string, mode: nat, ls: seq<string>) {
    && (forall i, j :: 0 <= i < j < |added| ==> added[i].path < added[j].path)
    && (forall i :: 0 <= i < |added| ==>
          var a := added[i];
          if a.path == path then a.mode == mode && a.umask == s0.umask
          else LeadingAttempt(a) && a.path in ls && !(a.path in s0.fs && s0.fs[a.path].HasDirectoryBit()))
  }

  /**
   On every way out the file creation mask is the caller's; the creation context is, exactly when there was none, or
   SELinux is not in use, or the path does not fit.  Every mkdir ran under the context the policy has for it, parents
   strictly before children, no leading one where a directory was, and only the last one with the caller's mode and
   mask.
   */
  lemma EveryExitRestores(s0: State, kernel: Kernel, newpath: string, mode: nat, owner: Option<(nat, nat)>)
    requires Honest(kernel)
    ensures var (ret, s) := MakeDirectory(s0, kernel, newpath, mode, owner);
            var path := Normal(newpath);
            && s.umask == s0.umask
            && (s.context == s0.context <==> s0.context == None || kernel.policy.None? || |newpath| > PATH_MAX)
            && (s.context != s0.context ==> s.context == None)
            && s0.attempts <= s.attempts
            && OwnContexts(kernel, s0.context, Added(s0, s))
            && GoodAttempts(Added(s0, s), s0, path, mode, Leading(path, |path|))
            && (ret == 0 ==> s.attempts != [] && s.attempts[|s.attempts| - 1].path == path)
  {
    var path := Normal(newpath);
    var ok, led, ls := MakeAllDoes(s0, kernel, newpath, mode, owner);
    MakeAllKeepsContext(s0, kernel, newpath, mode, owner);
    var (ret, s) := MakeAll(s0, kernel, newpath, mode, owner);
    hide Leading, Normal, MakeAll, OwnContexts;
    WalkAttempts(s0, led, ok, ls, path, mode);
    if ok {
      LastAttempt(s0, led, s, ret, path, mode, ls);
    }
    assert |newpath| > PATH_MAX ==> OwnContexts(kernel, s0.context, []) by {
      NoAttempts(kernel, s0.context);
    }
  }

  lemma NoAttempts(kernel: Kernel, context: Option<string>)
    ensures OwnContexts(kernel, context, [])
  {
  }

  lemma LastAttempt(s0: State, led: State, s: State, ret: int, path: string, mode: nat, ls: seq<string>)
    requires s0.attempts <= led.attempts && s0.umask == led.umask && LastPost(led, s, ret, path, mode)
    requires GoodAttempts(Added(s0, led), s0, path, mode, ls)
    requires forall i :: 0 <= i < |Added(s0, led)| ==> Added(s0, led)[i].path < path
    ensures s0.attempts <= s.attempts && GoodAttempts(Added(s0, s), s0, path, mode, ls)
  {
  }

  lemma WalkAttempts(s0: State, led: State, ok: bool, ls: seq<string>, path: string, mode: nat)
    requires WalkPost(s0, led, ok, ls) && forall l :: l in ls ==> l < path
    ensures GoodAttempts(Added(s0, led), s0, path, mode, ls)
    ensures forall i :: 0 <= i < |Added(s0, led)| ==> Added(s0, led)[i].path < path
  {
  }

  /** The last step: what it logs, returns and does. */
  lemma LastKeepsLog(s: State, led: State, kernel: Kernel, path: string, mode: nat, owner: Option<(nat, nat)>)
    requires LogPost(kernel, s, led, true) && led.fs == Replayed(s.fs, Added(s, led))
    ensures var (ret, r) := led.Last(kernel, path, mode, owner);
            && s.attempts <= r.attempts && PathsOf(Added(s, r)) == PathsOf(Added(s, led)) + [path]
            && TrueLog(kernel, s.fs, Added(s, r)) && EndsAs(kernel, s, r, ret, path, owner)
  {
    hide TrueLog, SomeRefused, Replayed;
    var (ret, r) := led.Last(kernel, path, mode, owner);
    var a := r.attempts[|led.attempts|];
    assert Added(s, r) == Added(s, led) + [a];
    LogOfOneMore(kernel, s, led, a);
  }

  /** The owner is refused, on the files as they stood after the last mkdir. */
  ghost predicate Denied(kernel: Kernel, s0: State, s: State, path: string, owner: Option<(nat, nat)>)
    requires s0.attempts <= s.attempts
  {
    owner.Some? && !kernel.chown(Replayed(s0.fs, Added(s0, s)), path, owner.value)
  }

  /** The return value and the files, from the log and the owner's answer. */
  ghost predicate EndsAs(kernel: Kernel, s0: State, s: State, ret: int, path: string, owner: Option<(nat, nat)>)
    requires s0.attempts <= s.attempts
  {
    var after, refused := Replayed(s0.fs, Added(s0, s)), SomeRefused(Added(s0, s));
    var denied := Denied(kernel, s0, s, path, owner);
    && ret == (if refused || denied then 1 else 0)
    && s.fs == if !refused && denied && kernel.rmdir(after, path) then after - {path} else after
  }

  /**
   The call returns 0 exactly when the path fits, no attempt is refused, and the owner, if one is given, is accepted on
   the files as they stand after the last mkdir.  Attempted are the leading paths that are missing and then the path
   itself, up to the first refusal.  An owner refused means that the path is gone exactly when rmdir takes it, whether
   or not it was there before.
   */
  lemma SucceedsExactlyWhen(s0: State, kernel: Kernel, newpath: string, mode: nat, owner: Option<(nat, nat)>)
    requires Honest(kernel)
    ensures var (ret, s) := MakeDirectory(s0, kernel, newpath, mode, owner);
            if |newpath| > 4096 then ret == 2 && s == s0
            else
              var path := Normal(newpath);
              && s0.attempts <= s.attempts
              && var added := Added(s0, s);
                 && TrueLog(kernel, s0.fs, added) && EndsAs(kernel, s0, s, ret, path, owner)
                 && PathsOf(added) <= MissingOf(s0.fs, Leading(path, |path|)) + [path]
                 && (!SomeRefused(added) ==> PathsOf(added) == MissingOf(s0.fs, Leading(path, |path|)) + [path])
                 && (!SomeRefused(added) && Denied(kernel, s0, s, path, owner) ==>
                     (path !in s.fs <==> kernel.rmdir(Replayed(s0.fs, added), path)))
  {
    if |newpath| <= 4096 {
      var path := Normal(newpath);
      var ls := Leading(path, |path|);
      LeadingGrows(path, |path|);
      hide Leading, Normal;
      WalkKeepsLog(s0, kernel, ls);
      WalkAttemptsTheMissing(s0, kernel, ls);
      var (ok, led) := s0.LeadAll(kernel, ls);
      var (ret, s) := MakeAll(s0, kernel, newpath, mode, owner);
      if ok {
        LastKeepsLog(s0, led, kernel, path, mode, owner);
        LastAnswer(kernel, s0, led, s, path, mode, owner);
      }
      hide State.LeadAll, TrueLog, Replayed;
    }
  }

  /** What was attempted last and not refused is there afterwards. */
  lemma LastAnswer(kernel: Kernel, s0: State, led: State, s: State, path: string, mode: nat, owner: Option<(nat, nat)>)
    requires Honest(kernel) && LogPost(kernel, s0, led, true) && led.fs == Replayed(s0.fs, Added(s0, led))
    requires s == led.Last(kernel, path, mode, owner).1
    ensures s0.attempts <= s.attempts
    ensures !SomeRefused(Added(s0, s)) ==> path in Replayed(s0.fs, Added(s0, s))
  {
    hide TrueLog, SomeRefused, Replayed;
    var a := s.attempts[|led.attempts|];
    assert Added(s0, s) == Added(s0, led) + [a];
    LogOfOneMore(kernel, s0, led, a);
  }

  /** Directories only come, at the path and its ancestors; only the path itself can go, when its owner is refused. */
  lemma FilesOnlyCome(s0: State, kernel: Kernel, newpath: string, mode: nat, owner: Option<(nat, nat)>)
    requires Honest(kernel)
    ensures var (ret, s) := MakeAll(s0, kernel, newpath, mode, owner);
            var path := Normal(newpath);
            && (forall q :: q in s0.fs && (q != path || ret == 0) ==> q in s.fs && s.fs[q] == s0.fs[q])
            && (forall q :: q in s.fs && q !in s0.fs ==>
                  s.fs[q] == Directory && (q == path || q in Leading(path, |path|)))
  {
    var ok, led, ls := MakeAllDoes(s0, kernel, newpath, mode, owner);
    hide Leading, Normal, MakeAll;
  }

  /** A path without components, such as the root, is never made. */
  lemma NoComponentsFails(s0: State, kernel: Kernel, newpath: string, mode: nat, owner: Option<(nat, nat)>)
    requires Honest(kernel) && "" !in s0.fs && Components(newpath) == []
    ensures var (ret, s) := MakeAll(s0, kernel, newpath, mode, owner);
            ret == HANDLER_FAILURE && s.fs == s0.fs
  {
    NormalIsRender(newpath);
  }

  /**
   In a tree, success means that every proper ancestor is a directory; the path itself is one exactly when nothing
   else was there before.
   */
  lemma SuccessMakesDirectories(s0: State, kernel: Kernel, newpath: string, mode: nat, owner: Option<(nat, nat)>)
    requires Honest(kernel) && MakesRooted(kernel) && Tree(s0.fs) && "" !in s0.fs
    ensures var (ret, s) := MakeAll(s0, kernel, newpath, mode, owner);
            var absolute, cs, path := Absolute(newpath), Components(newpath), Normal(newpath);
            ret == 0 ==>
              && (forall i :: 0 < i < |cs| ==>
                    Render(absolute, cs[..i]) in s.fs && s.fs[Render(absolute, cs[..i])] == Directory)
              && path in s.fs && (s.fs[path] == Directory <==> path !in s0.fs || s0.fs[path] == Directory)
              && Tree(s.fs)
  {
    var path, absolute, cs := Normal(newpath), Absolute(newpath), Components(newpath);
    SuccessMakesEveryAncestor(s0, kernel, newpath, mode, owner);
    NormalIsRender(newpath);
    SplitIsValid(newpath, "");
    var ok, led, ls := MakeAllDoes(s0, kernel, newpath, mode, owner);
    WalkKeepsTree(s0, kernel, ls);
    if MakeAll(s0, kernel, newpath, mode, owner).0 == 0 {
      LeadingAreAncestors(absolute, cs);
      hide Normal, Render, Components, State.LeadAll, Leading, Tree, AreAncestors;
      LastKeepsTree(led, kernel, path, mode, owner);
      assert path !in ls;
      AncestorsInTree(MakeAll(s0, kernel, newpath, mode, owner).1.fs, absolute, cs, path);
    }
  }

  lemma LastKeepsTree(led: State, kernel: Kernel, path: string, mode: nat, owner: Option<(nat, nat)>)
    requires Honest(kernel) && MakesRooted(kernel) && Tree(led.fs)
    ensures var (ret, s) := led.Last(kernel, path, mode, owner);
            ret == 0 ==> Tree(s.fs)
  {
    hide Tree;
    if kernel.mkdir(led.fs, path) == Made {
      MadeKeepsTree(led.fs, path);
    }
  }

  lemma AncestorsInTree(fs: FileSystem, absolute: bool, cs: seq<string>, path: string)
    requires Tree(fs) && path in fs && cs != [] && path == Render(absolute, cs)
    requires AreAncestors(Leading(path, |path|), absolute, cs)
    ensures forall i :: 0 < i < |cs| ==> Render(absolute, cs[..i]) in fs && fs[Render(absolute, cs[..i])] == Directory
  {
    var ls := Leading(path, |path|);
    assert Rooted(fs, path);
    hide Leading, Render;
    forall i | 0 < i < |cs| ensures Render(absolute, cs[..i]) in fs && fs[Render(absolute, cs[..i])] == Directory {
      assert ls[i - 1] in ls;
    }
  }

  /**
   When the owner is refused the program takes the path away without asking whether it made it: what was there before
   the call survives exactly when that does not come to pass.  In a tree the walk changes nothing before it, so the
   condition is about the caller's own file system.
   */
  lemma OldDirectorySurvivesExactlyWhen(s0: State, kernel: Kernel, newpath: string, mode: nat,
                                        owner: Option<(nat, nat)>)
    requires Honest(kernel) && Normal(newpath) in s0.fs
    ensures var path := Normal(newpath);
            var s := MakeAll(s0, kernel, newpath, mode, owner).1;
            var (ok, led) := s0.LeadAll(kernel, Leading(path, |path|));
            && (path in s.fs <==>
                !(ok && kernel.mkdir(led.fs, path) == Exists && owner.Some?
                  && !kernel.chown(led.fs, path, owner.value) && kernel.rmdir(led.fs, path)))
            && (Tree(s0.fs) ==> ok && led == s0)
  {
    var path := Normal(newpath);
    var ok, led, ls := MakeAllDoes(s0, kernel, newpath, mode, owner);
    if Tree(s0.fs) {
      assert Rooted(s0.fs, path);
      WalkAmongDirectories(s0, kernel, ls);
    }
    hide Leading, Normal, State.LeadAll, Tree;
  }
}
