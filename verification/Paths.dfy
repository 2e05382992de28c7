/** The slash collapsing of `src/selinux.c`, in place on a C string, and what it means for a path's components. */
module Paths {
  import opened CStrings

  const PATH_MAX := 4096

  /** A slash goes when another slash or the end follows it. */
  predicate Superfluous(s: string)
    requires s != ""
  {
    s[0] == '/' && (|s| == 1 || s[1] == '/')
  }

  function Normal(s: string): (r: string)
    ensures |r| <= |s|
    ensures NUL !in s ==> NUL !in r
  {
    if s == "" then "" else (if Superfluous(s) then "" else [s[0]]) + Normal(s[1..])
  }

  /** The block holds the string `s` at `from`, then NULs up to and including position `last`. */
  ghost predicate Holds(tmp: seq<char>, from: nat, s: string, last: nat) {
    && from + |s| <= last < |tmp|
    && tmp[from..from + |s|] == s && NUL !in s
    && forall i :: from + |s| <= i <= last ==> tmp[i] == NUL
  }

  /** `memmove(q, q + 1, strlen(q))`: one character goes, and the NUL behind the string moves down with it. */
  method DeleteAt(tmp: array<char>, q: nat, ghost s: string, ghost last: nat)
    requires s != "" && Holds(tmp[..], q, s, last)
    modifies tmp
    ensures Holds(tmp[..], q, s[1..], last)
    ensures tmp[..q] == old(tmp[..q]) && tmp[last..] == old(tmp[last..])
  {
    var end := IndexFrom(tmp[..], {NUL}, q);
    assert forall i :: q <= i < q + |s| ==> tmp[i] == tmp[q..q + |s|][i - q] == s[i - q];
    assert tmp[q + |s|] == NUL;
    assert !(end < q + |s|) && !(q + |s| < end);
    forall i | q <= i < end {
      tmp[i] := tmp[i + 1];
    }
  }

  /** The inner loop: at one place, slashes go for as long as they are superfluous. */
  method CollapseAt(tmp: array<char>, q: nat, ghost s: string, ghost last: nat) returns (ghost r: string)
    requires q < last && Holds(tmp[..], q, s, last)
    modifies tmp
    ensures Holds(tmp[..], q, r, last) && Normal(r) == Normal(s) && |r| <= |s|
    ensures r != "" ==> !Superfluous(r)
    ensures tmp[..q] == old(tmp[..q]) && tmp[last..] == old(tmp[last..])
  {
    r := s;
    HoldsFirst(tmp[..], q, r, last, q);
    while tmp[q] == '/' && (tmp[q + 1] == '/' || tmp[q + 1] == NUL)
      invariant Holds(tmp[..], q, r, last) && Normal(r) == Normal(s) && |r| <= |s|
      invariant tmp[..q] == old(tmp[..q]) && tmp[last..] == old(tmp[last..])
      decreases |r|
    {
      HoldsFirst(tmp[..], q, r, last, q);
      DeleteAt(tmp, q, r, last);
      assert "" + Normal(r[1..]) == Normal(r[1..]);
      r := r[1..];
    }
    HoldsFirst(tmp[..], q, r, last, q);
  }

  /**
   The scan.  It may step one place past the end it has moved, never past the end it started with,
   and it leaves NUL in every place it has vacated.
   */
  method Collapse(tmp: array<char>, ghost path: CString)
    requires Holds(tmp[..], 0, path, |path|)
    modifies tmp
    ensures Holds(tmp[..], 0, Normal(path), |path|)
    ensures tmp[|path|..] == old(tmp[|path|..])
  {
    var q := 0;
    ghost var done, rest := "", path;  // what is settled before q, what is left from q on
    HoldsFirst(tmp[..], 0, path, |path|, 0);
    while tmp[q] != NUL
      invariant q <= |path| && (q == |done| || (q == |done| + 1 && rest == ""))
      invariant Normal(path) == done + Normal(rest)
      invariant Settled(tmp[..], done) && Holds(tmp[..], |done|, rest, |path|)
      invariant tmp[|path|..] == old(tmp[|path|..])
      decreases |rest|
    {
      HoldsFirst(tmp[..], |done|, rest, |path|, q);
      ghost var before := tmp[..];
      rest := CollapseAt(tmp, q, rest, |path|);
      assert tmp[..q] == before[..q] == tmp[..][..q];
      if rest != "" {
        HoldsNext(tmp[..], done, rest, |path|);
        NormalNext(done, rest);
        done, rest := done + [rest[0]], rest[1..];
      }
      q := q + 1;
    }
    HoldsFirst(tmp[..], |done|, rest, |path|, q);
    assert Normal(path) == done;
  }

  /** The block begins with `done`. */
  ghost predicate Settled(tmp: seq<char>, done: string) {
    |done| <= |tmp| && tmp[..|done|] == done && NUL !in done
  }

  lemma HoldsNext(tmp: seq<char>, done: string, s: string, last: nat)
    requires Settled(tmp, done) && Holds(tmp, |done|, s, last) && s != "" && !Superfluous(s)
    ensures Settled(tmp, done + [s[0]]) && Holds(tmp, |done| + 1, s[1..], last)
  {
  }

  lemma NormalNext(done: string, s: string)
    requires s != "" && !Superfluous(s)
    ensures done + Normal(s) == (done + [s[0]]) + Normal(s[1..])
  {
  }

  /** What the scan reads at q. */
  lemma HoldsFirst(tmp: seq<char>, from: nat, s: string, last: nat, q: nat)
    requires Holds(tmp, from, s, last) && q <= last
    requires q == from || (q == from + 1 && s == "")
    ensures s == "" <==> tmp[q] == NUL
    ensures s != "" ==> q < last && tmp[q] == s[0] && tmp[q + 1] == if |s| == 1 then NUL else s[1]
  {
  }
}
