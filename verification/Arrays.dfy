/**
 The array resizer of `src/util.c`.  Running into its limit ends the process (`_exit`); callers
 see that as a flag and stop.
 */
module Arrays {

  const LIMIT := 0xffff

  function Min(a: nat, b: nat): nat { if a < b then a else b }

  /** The contents after a resize: the old prefix that still fits, then zeros. */
  function Resized<T>(old_: seq<T>, current: nat, want: nat, zero: T): (new_: seq<T>)
    requires Min(current, want) <= |old_|
    ensures |new_| == want
    ensures forall i :: 0 <= i < Min(current, want) ==> new_[i] == old_[i]
    ensures forall i :: Min(current, want) <= i < want ==> new_[i] == zero
  {
    old_[..Min(current, want)] + seq(want - Min(current, want), _ => zero)
  }

  /**
   `ok` is false when the process exits.  The old block is wiped as far as it was copied before it
   is given back.
   */
  method ResizeArray<T>(a: array?<T>, elementSize: nat, current: nat, want: nat, zero: T)
    returns (ok: bool, p: array?<T>)
    requires current <= if a == null then 0 else a.Length
    modifies if a == null then {} else {a}
    ensures ok <==> want <= 65535 && elementSize <= 65535
    ensures ok ==> (p == null <==> want == 0 || elementSize == 0)
    ensures p != null ==> ok && fresh(p) && p[..] == Resized(if a == null then [] else old(a[..]), current, want, zero)
    ensures ok && a != null ==>
              forall i :: 0 <= i < a.Length ==>
                            a[i] == if elementSize > 0 && i < Min(current, want) then zero else old(a[i])
  {
    p := null;
    if want > LIMIT {
      return false, null;
    }
    if elementSize > LIMIT {
      return false, null;
    }
    if elementSize > 0 && want > 0 {
      p := new T[want](_ => zero);
    }
    var save := if current < want then current else want;
    if save > 0 {
      if p != null {
        forall i | 0 <= i < save {
          p[i] := a[i];
        }
      }
      if elementSize > 0 {
        forall i | 0 <= i < save {
          a[i] := zero;
        }
      }
    }
    ok := true;
  }
}
