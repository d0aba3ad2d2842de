/** The two shapes of linear scan the resolver uses over a C array indexed
    `0 .. n - 1`: "keep overwriting on every hit" (the last hit wins) and
    "stop at the first hit". Each is given by a recursive definition and an
    independent characterisation in its contract. `LastBelow` recurses from
    the top index down, the reverse of the loop's order; `LastBelowStep`
    states the loop's own step from `n` to `n + 1`. */
module Scan {

  datatype Option<T> = None | Some(value: T)

  /** No index below `n` satisfies `p`. */
  ghost predicate NoneBelow(n: nat, p: nat -> bool)
  {
    forall i | 0 <= i < n :: !p(i)
  }

  /** `i` is the highest index below `n` that satisfies `p`. */
  ghost predicate IsLast(n: nat, p: nat -> bool, i: nat)
  {
    i < n && p(i) && forall k | i < k < n :: !p(k)
  }

  /** `i` is the lowest index below `n` that satisfies `p`. */
  ghost predicate IsFirst(n: nat, p: nat -> bool, i: nat)
  {
    i < n && p(i) && forall k | 0 <= k < i :: !p(k)
  }

  /** The index a loop `for i in 0 .. n: if p(i) then x := i` leaves in `x`:
      each hit overwrites the one before, so the highest hit wins. */
  function LastBelow(n: nat, p: nat -> bool): (r: Option<nat>)
    ensures r.None? <==> NoneBelow(n, p)
    ensures r.Some? ==> IsLast(n, p, r.value)
  {
    if n == 0 then None
    else if p(n - 1) then Some(n - 1)
    else LastBelow(n - 1, p)
  }

  /** The index at which a loop `for i in 0 .. n: if p(i) then stop` stops. */
  function FirstBelow(n: nat, p: nat -> bool): (r: Option<nat>)
    ensures r.None? <==> NoneBelow(n, p)
    ensures r.Some? ==> IsFirst(n, p, r.value)
  {
    if n == 0 then None
    else match FirstBelow(n - 1, p)
      case Some(i) => Some(i)
      case None => if p(n - 1) then Some(n - 1) else None
  }

  /** The characterisation pins the scan down: the lowest hit is the one
      the first-hit loop stops at ... */
  lemma FirstBelowIs(n: nat, p: nat -> bool, i: nat)
    requires IsFirst(n, p, i)
    ensures FirstBelow(n, p) == Some(i)
  {
    assert !NoneBelow(n, p);
  }

  /** ... and the highest hit the one the last-hit loop keeps. */
  lemma LastBelowIs(n: nat, p: nat -> bool, i: nat)
    requires IsLast(n, p, i)
    ensures LastBelow(n, p) == Some(i)
  {
    assert !NoneBelow(n, p);
  }

  /** Scanning one more index: a hit there becomes the answer, otherwise
      the answer for the shorter prefix stands. */
  lemma LastBelowStep(n: nat, p: nat -> bool)
    ensures LastBelow(n + 1, p) == if p(n) then Some(n) else LastBelow(n, p)
  {
  }
}
