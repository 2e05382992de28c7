/** How long `select` may sleep: the fold over the timeout list in `prepare` of `src/mainloop.c`. */
module Timeouts {
  import opened CStrings

  /** Seconds are whole; the interval is in milliseconds. */
  datatype Timeout = Timeout(enabled: bool, interval: int, start: int)

  /** C's division by 1000 and its remainder, which truncate toward zero. */
  function Quot(a: int): int { if a >= 0 then a / 1000 else -(-a / 1000) }

  function Rem(a: int): int { a - 1000 * Quot(a) }

  datatype Timeval = Timeval(sec: int, usec: int) {
    /** The milliseconds that the loop reads out of a `timeval`. */
    function Milliseconds(): int { sec * 1000 + Quot(usec) }
  }

  /** The `timeval` that the loop writes for a number of milliseconds. */
  function FromMilliseconds(ms: int): Timeval { Timeval(Quot(ms), Rem(ms) * 1000) }

  /** A `timeval` written for milliseconds is that time exactly, its microseconds under a second and of its sign. */
  lemma SplitIsExact(ms: int)
    ensures var tv := FromMilliseconds(ms);
            && tv.sec * 1000000 + tv.usec == ms * 1000 && -1000000 < tv.usec < 1000000
            && (ms >= 0 ==> tv.sec >= 0 && tv.usec >= 0) && (ms <= 0 ==> tv.sec <= 0 && tv.usec <= 0)
  {
  }

  /** Splitting milliseconds into a `timeval` and reading them back loses nothing, whatever the sign. */
  lemma SplitReadsBack(ms: int)
    ensures FromMilliseconds(ms).Milliseconds() == ms
  {
  }

  /** The time the loop knows after `n` turns: a failed reading leaves the last one, or `junk`, in place. */
  function Now(clock: seq<Option<int>>, junk: int, n: nat): int
    requires n <= |clock|
  {
    if n == 0 then junk else if clock[n - 1].Some? then clock[n - 1].value else Now(clock, junk, n - 1)
  }

  /** It is the latest reading that did not fail. */
  lemma {:induction false} NowIsLatestReading(clock: seq<Option<int>>, junk: int, n: nat)
    requires n <= |clock|
    ensures (forall i :: 0 <= i < n ==> clock[i].None?) ==> Now(clock, junk, n) == junk
    ensures forall i :: 0 <= i < n && clock[i].Some? && (forall j :: i < j < n ==> clock[j].None?) ==>
                        Now(clock, junk, n) == clock[i].value
  {
    if n > 0 {
      NowIsLatestReading(clock, junk, n - 1);
    }
  }

  /** What is left of the `i`-th timeout. */
  function Left(ts: seq<Timeout>, clock: seq<Option<int>>, junk: int, i: nat): int
    requires i < |ts| == |clock|
  {
    ts[i].interval - 1000 * (Now(clock, junk, i + 1) - ts[i].start)
  }

  /** A timeout started at `start` runs out when as many milliseconds as its interval have passed. */
  lemma RunsOutExactlyWhen(ts: seq<Timeout>, clock: seq<Option<int>>, junk: int, i: nat, now: int)
    requires i < |ts| == |clock| && clock[i] == Some(now)
    ensures Left(ts, clock, junk, i) <= 0 <==> now * 1000 >= ts[i].start * 1000 + ts[i].interval
  {
  }

  /** With children to wait for, the fold starts from one second. */
  function Base(pids: bool): int { if pids then 1000 else 0 }

  /** With no children and no clock, the loop stops at once. */
  predicate Blind(ts: seq<Timeout>, pids: bool, clock: seq<Option<int>>)
    requires |ts| == |clock|
  {
    !pids && ts != [] && clock[0].None?
  }

  /** `ms` is the least of what is left of the first `n` timeouts' enabled ones and, unless the head is, of the base. */
  ghost predicate Least(ts: seq<Timeout>, pids: bool, clock: seq<Option<int>>, junk: int, n: nat, ms: int)
    requires n <= |ts| == |clock|
  {
    var fromBase := n == 0 || !ts[0].enabled;
    && (fromBase ==> ms <= Base(pids))
    && (forall i :: 0 <= i < n && ts[i].enabled ==> ms <= Left(ts, clock, junk, i))
    && ((fromBase && ms == Base(pids)) || exists i :: 0 <= i < n && ts[i].enabled && ms == Left(ts, clock, junk, i))
  }

  lemma LeastOfOneMore(ts: seq<Timeout>, pids: bool, clock: seq<Option<int>>, junk: int, i: nat, ms: int)
    requires i < |ts| == |clock| && Least(ts, pids, clock, junk, i, ms)
    ensures var left := Left(ts, clock, junk, i);
            Least(ts, pids, clock, junk, i + 1, if ts[i].enabled && (i == 0 || left < ms) then left else ms)
  {
  }

  lemma StartsFromBase(pids: bool)
    ensures FromMilliseconds(Base(pids)) == Timeval(if pids then 1 else 0, 0)
  {
  }

  /** One turn of the fold: keep the `timeval`, or replace it by what is left of the `i`-th timeout. */
  method Turn(ts: seq<Timeout>, ghost pids: bool, ghost clock: seq<Option<int>>, ghost junk: int, i: nat, now: int,
              tv0: Timeval, ghost ms0: int) returns (tv: Timeval, ghost ms: int)
    requires i < |ts| == |clock| && now == Now(clock, junk, i + 1)
    requires tv0 == FromMilliseconds(ms0) && Least(ts, pids, clock, junk, i, ms0)
    ensures tv == FromMilliseconds(ms) && Least(ts, pids, clock, junk, i + 1, ms)
  {
    tv, ms := tv0, ms0;
    LeastOfOneMore(ts, pids, clock, junk, i, ms);
    SplitReadsBack(ms);
    if ts[i].enabled {
      var left := ts[i].interval;
      left := left - 1000 * (now - ts[i].start);
      assert left == Left(ts, clock, junk, i);
      hide Quot, Rem, FromMilliseconds, Timeval.Milliseconds, Least, Left, Now;
      var current := tv.Milliseconds();
      if i == 0 || left < current {
        tv, ms := FromMilliseconds(left), left;
      }
    }
  }

  /** `clock` holds what each turn's `gettimeofday` gives; `useTv` false lets `select` sleep without limit. */
  method Sleep(ts: seq<Timeout>, pids: bool, clock: seq<Option<int>>, junk: int) returns (useTv: bool, tv: Timeval)
    requires |ts| == |clock|
    ensures useTv <==> pids || (ts != [] && clock[0].Some?)
    ensures ts == [] ==> tv == Timeval(if pids then 1 else 0, 0)
    ensures !Blind(ts, pids, clock) ==>
              exists ms :: tv == FromMilliseconds(ms) && Least(ts, pids, clock, junk, |ts|, ms)
  {
    StartsFromBase(pids);
    ghost var ms := Base(pids);
    assert Least(ts, pids, clock, junk, 0, ms);
    hide FromMilliseconds, Base, Least, Now;
    useTv, tv := false, Timeval(0, 0);
    if pids {
      useTv := true;
      tv := Timeval(1, 0);
    }
    var now := junk;
    NowNext(clock, junk, 0);
    for i := 0 to |ts|
      invariant useTv <==> pids || i > 0
      invariant i > 0 ==> !Blind(ts, pids, clock)
      invariant now == Now(clock, junk, i)
      invariant tv == FromMilliseconds(ms) && Least(ts, pids, clock, junk, i, ms)
    {
      NowNext(clock, junk, i + 1);
      var reading := clock[i];
      if reading.Some? {
        now := reading.value;
        useTv := true;
      }
      if !useTv {
        break;
      }
      tv, ms := Turn(ts, pids, clock, junk, i, now, tv, ms);
    }
  }

  lemma NowNext(clock: seq<Option<int>>, junk: int, n: nat)
    requires n <= |clock|
    ensures n == 0 ==> Now(clock, junk, n) == junk
    ensures n > 0 ==> Now(clock, junk, n) == if clock[n - 1].Some? then clock[n - 1].value else Now(clock, junk, n - 1)
  {
  }

  ghost predicate LeastEnabled(ts: seq<Timeout>, clock: seq<Option<int>>, junk: int, ms: int)
    requires |ts| == |clock|
  {
    && (forall i :: 0 <= i < |ts| && ts[i].enabled ==> ms <= Left(ts, clock, junk, i))
    && (exists i :: 0 <= i < |ts| && ts[i].enabled && ms == Left(ts, clock, junk, i))
  }

  /**
   The sleep is the least of what is left of the enabled timeouts exactly when the list's head is enabled or
   that least is not above the base the fold starts from; negative ones included.
   */
  lemma SleepsUntilFirstTimeoutExactlyWhen(ts: seq<Timeout>, pids: bool, clock: seq<Option<int>>, junk: int, ms: int,
                                           least: int)
    requires |ts| == |clock| && Least(ts, pids, clock, junk, |ts|, ms)
    requires LeastEnabled(ts, clock, junk, least)
    ensures ms == least <==> ts[0].enabled || least <= if pids then 1000 else 0
    ensures ms != least ==> ms == if pids then 1000 else 0
  {
  }
}
