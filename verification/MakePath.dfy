/**
 The directory maker of `src/selinux.c`: collapse the path, then walk it and make each missing
 leading directory before the next, and at last the directory itself.
 */
module MakePath {
  import opened CStrings
  import opened Paths

  const HANDLER_FAILURE := 1
  const HANDLER_INVALID_INVOCATION := 2

  const S_IFDIR: nat := 0x4000  // 0040000
  const LEADING: nat := 457     // 0711: S_IRWXU | S_IXGRP | S_IXOTH
  const LEADING_MASK: nat := 54 // 0066: what umask(~0711) puts in force

  /** `mode | S_IFDIR`. */
  function OfDirectory(mode: nat): nat { if mode / S_IFDIR % 2 == 1 then mode else mode + S_IFDIR }

  /** What `stat` can find at a path. */
  datatype FileKind = Directory | BlockDevice | Socket | OtherFile {
    /** The program tests a bit of the mode that block devices and sockets have too. */
    predicate HasDirectoryBit() { !OtherFile? }
  }

  type FileSystem = map<string, FileKind>

  datatype Answer = Made | Exists | Refused

  /** What the policy says of a path and a mode: nothing, because asking failed; that there is no label; or a label. */
  datatype Label = NoAnswer | NoLabel | Label(context: string)

  /** The kernel's answers, and the policy's where SELinux is in use. */
  datatype Kernel = Kernel(mkdir: (FileSystem, string) -> Answer, chown: (FileSystem, string, (nat, nat)) -> bool,
                           rmdir: (FileSystem, string) -> bool, policy: Option<(string, nat) -> Label>)
  {
    /** The creation context in force after one was asked for. */
    function ContextFor(before: Option<string>, path: string, mode: nat): Option<string> {
      match policy
      case None => before
      case Some(ask) =>
        match ask(path, mode)
        case NoAnswer => before
        case NoLabel => None
        case Label(context) => Some(context)
    }

    /** The creation context after it was taken back. */
    function NoContext(before: Option<string>): Option<string> { if policy.None? then before else None }
  }

  /** A directory is made only where nothing is, EEXIST is said only of what exists, and the empty path is neither. */
  ghost predicate Honest(kernel: Kernel) {
    && (forall fs: FileSystem, p: string :: kernel.mkdir(fs, p) == Made ==> p !in fs && p != "")
    && (forall fs: FileSystem, p: string :: kernel.mkdir(fs, p) == Exists ==> p in fs)
  }

  /** One call of `mkdir` with everything in force at the time, and what the kernel answered. */
  datatype Attempt = Attempt(path: string, mode: nat, umask: nat, context: Option<string>, answer: Answer)

  /** The process and the files it sees. */
  datatype State = State(fs: FileSystem, umask: nat, context: Option<string>, attempts: seq<Attempt>) {

    function SetContext(kernel: Kernel, path: string, mode: nat): State {
      this.(context := kernel.ContextFor(context, path, mode))
    }

    function UnsetContext(kernel: Kernel): State { this.(context := kernel.NoContext(context)) }

    function Mkdir(kernel: Kernel, path: string, mode: nat): (Answer, State) {
      var answer := kernel.mkdir(fs, path);
      (answer, this.(fs := if answer == Made then fs[path := Directory] else fs,
                     attempts := attempts + [Attempt(path, mode, umask, context, answer)]))
    }

    /** Makes one leading directory unless it is there; false when the walk must stop. */
    function Lead(kernel: Kernel, path: string): (bool, State) {
      if path in fs && fs[path].HasDirectoryBit() then (true, this)
      else
        var ready := SetContext(kernel, path, OfDirectory(LEADING)).(umask := LEADING_MASK);
        var (answer, s) := ready.Mkdir(kernel, path, LEADING);
        (answer != Refused, s.(umask := umask).UnsetContext(kernel))
    }

    function LeadAll(kernel: Kernel, paths: seq<string>): (bool, State)
      decreases |paths|
    {
      if paths == [] then (true, this)
      else
        var (ok, s) := LeadAll(kernel, paths[..|paths| - 1]);
        if ok then s.Lead(kernel, paths[|paths| - 1]) else (false, s)
    }

    /** The directory itself, made under the caller's umask, and then given to its owner. */
    function Last(kernel: Kernel, path: string, mode: nat, owner: Option<(nat, nat)>): (int, State) {
      var (answer, s0) := SetContext(kernel, path, OfDirectory(mode)).Mkdir(kernel, path, mode);
      var s := s0.UnsetContext(kernel);
      if answer == Refused then (HANDLER_FAILURE, s)
      else if owner.Some? && !kernel.chown(s.fs, path, owner.value) then
        (HANDLER_FAILURE, if kernel.rmdir(s.fs, path) then s.(fs := s.fs - {path}) else s)
      else (0, s)
    }
  }

  /** The prefixes of `path` that end before one of its first `n` characters, that one being a slash. */
  function Leading(path: string, n: nat): seq<string>
    requires n <= |path|
  {
    if n == 0 then [] else Leading(path, n - 1) + if n > 1 && path[n - 1] == '/' then [path[..n - 1]] else []
  }

  /** What is done with a path that fits. */
  function MakeAll(s: State, kernel: Kernel, newpath: string, mode: nat, owner: Option<(nat, nat)>): (int, State) {
    var path := Normal(newpath);
    var (ok, led) := s.LeadAll(kernel, Leading(path, |path|));
    if !ok then (HANDLER_FAILURE, led) else led.Last(kernel, path, mode, owner)
  }

  /** The whole operation: a path that does not fit is refused before anything is done. */
  function MakeDirectory(s: State, kernel: Kernel, newpath: string, mode: nat, owner: Option<(nat, nat)>): (int, State)
  {
    if |newpath| > PATH_MAX then (HANDLER_INVALID_INVOCATION, s) else MakeAll(s, kernel, newpath, mode, owner)
  }

  /** `uid` or `gid` None is the value -1 that means: leave the owner alone. */
  method Mkdir(newpath: CString, mode: nat, uid: Option<nat>, gid: Option<nat>, kernel: Kernel, s0: State)
    returns (ret: int, s: State)
    ensures (ret, s) == MakeDirectory(s0, kernel, newpath, mode,
                                      if uid.Some? && gid.Some? then Some((uid.value, gid.value)) else None)
  {
    s := s0;
    if |newpath| > PATH_MAX {
      return HANDLER_INVALID_INVOCATION, s;
    }
    var tmp := new char[PATH_MAX + 1];
    forall i | 0 <= i <= |newpath| {
      tmp[i] := if i < |newpath| then newpath[i] else NUL;
    }
    assert tmp[0..0 + |newpath|] == newpath;
    Collapse(tmp, newpath);
    var normal := Until(tmp[..]);
    assert normal == Normal(newpath) by {
      HeldString(tmp[..], Normal(newpath), |newpath|);
    }
    var ok;
    ok, s := Walk(normal, kernel, s);
    if !ok {
      return HANDLER_FAILURE, s;
    }
    ret, s := Finish(normal, mode, if uid.Some? && gid.Some? then Some((uid.value, gid.value)) else None, kernel, s);
  }

  lemma HeldString(tmp: seq<char>, t: string, last: nat)
    requires Holds(tmp, 0, t, last)
    ensures Until(tmp) == t
  {
    assert tmp[0..0 + |t|] == tmp[..|t|] == t;
    IndexOfIs(tmp, {NUL}, |t|);
  }

  /** The walk: the path is copied byte by byte, and at each slash what was copied so far is a leading directory. */
  method Walk(newpath: CString, kernel: Kernel, s0: State) returns (ok: bool, s: State)
    requires |newpath| <= PATH_MAX
    ensures (ok, s) == s0.LeadAll(kernel, Leading(newpath, |newpath|))
  {
    s := s0;
    var path := new char[PATH_MAX + 1](_ => NUL);
    for p := 0 to |newpath|
      invariant Holds(path[..], 0, newpath[..p], PATH_MAX)
      invariant s0.LeadAll(kernel, Leading(newpath, p)) == (true, s)
    {
      HeldString(path[..], newpath[..p], PATH_MAX);
      ghost var before := Leading(newpath, p);
      if p > 0 && newpath[p] == '/' {
        var lead := Until(path[..]);
        assert Leading(newpath, p + 1) == before + [lead];
        assert (before + [lead])[..|before|] == before;
        if !(lead in s.fs && s.fs[lead].HasDirectoryBit()) {
          s := s.SetContext(kernel, lead, OfDirectory(LEADING));
          var storedUmask := s.umask;
          s := s.(umask := LEADING_MASK);
          var (answer, made) := s.Mkdir(kernel, lead, LEADING);
          s := made.(umask := storedUmask);
          s := s.UnsetContext(kernel);
          if answer == Refused {
            LeadAllStops(s0, kernel, newpath, p + 1, s);
            return false, s;
          }
        }
      } else {
        assert Leading(newpath, p + 1) == before + [] == before;
      }
      path[p] := newpath[p];
      assert path[0..0 + (p + 1)] == newpath[..p + 1];
    }
    assert newpath[..|newpath|] == newpath;
    return true, s;
  }

  /** Once the walk has stopped, the prefixes not reached make no difference. */
  lemma {:induction false} LeadAllStops(s0: State, kernel: Kernel, path: string, n: nat, s: State)
    requires n <= |path| && s0.LeadAll(kernel, Leading(path, n)) == (false, s)
    ensures s0.LeadAll(kernel, Leading(path, |path|)) == (false, s)
    decreases |path| - n
  {
    if n < |path| {
      var ls := Leading(path, n);
      var more := Leading(path, n + 1);
      assert more == ls || (|more| == |ls| + 1 && more[..|ls|] == ls);
      LeadAllStops(s0, kernel, path, n + 1, s);
    }
  }

  method Finish(path: string, mode: nat, owner: Option<(nat, nat)>, kernel: Kernel, s0: State)
    returns (ret: int, s: State)
    ensures (ret, s) == s0.Last(kernel, path, mode, owner)
  {
    s := s0.SetContext(kernel, path, OfDirectory(mode));
    var (answer, made) := s.Mkdir(kernel, path, mode);
    s := made.UnsetContext(kernel);
    if answer == Refused {
      return HANDLER_FAILURE, s;
    }
    if owner.Some? {
      if !kernel.chown(s.fs, path, owner.value) {
        if kernel.rmdir(s.fs, path) {
          s := s.(fs := s.fs - {path});
        }
        return HANDLER_FAILURE, s;
      }
    }
    return 0, s;
  }
}
