/**
 * The index arithmetic of the main loop of pngpet.py: which state a jump
 * request may target, and which state becomes active at the end of a cycle.
 * Indices are Python list indices, so a negative index counts from the end
 * and an index below `-len(states)` raises `IndexError`.
 */
module Playlist {
  import opened Wrappers

  /** The position `states[i]` denotes in a list of `n` states; `None` when
      the subscript raises `IndexError`. */
  function PyIndex(i: int, n: nat): (r: Option<nat>)
    ensures r.Some? <==> 0 <= i + n && i < n
    ensures r.Some? ==> r.value < n && r.value % n == i % n
  {
    if 0 <= i < n then Some(i)
    else if 0 <= i + n && i < 0 then Some(i + n)
    else None
  }

  /** The range check a `state:<t>` request must pass: only an upper bound,
      and not the active index itself.  Every index from 0 up other than the
      active one passes; a target that passes is a valid subscript or lies
      below `-n`. */
  predicate Accepts(t: int, i: int, n: nat): (ok: bool)
    ensures 0 <= t < n && t != i ==> ok
    ensures ok ==> t != i && (PyIndex(t, n).Some? || t + n < 0)
  {
    t < n && t != i
  }

  /** The pending jump after a `state:<t>` request: the target when accepted;
      otherwise none, even if an earlier request was pending. */
  function AfterRequest(t: int, i: int, n: nat): (pending: Option<int>)
    ensures pending.Some? <==> Accepts(t, i, n)
    ensures pending.Some? ==> pending.value == t
  {
    if Accepts(t, i, n) then Some(t) else None
  }

  /** The active index and pending jump after a finished cycle: the pending
      target if there is one and it is not the active index, and then no jump
      is pending; otherwise the next index, wrapping to 0 at `n`, with the
      pending jump left as it was. */
  function Advance(i: int, pending: Option<int>, n: nat): (r: (int, Option<int>))
    ensures pending.Some? && pending.value != i ==> r == (pending.value, None)
    ensures pending.None? || pending.value == i ==>
      r.1 == pending && (i + 1 == n ==> r.0 == 0) && (i + 1 != n ==> r.0 == i + 1)
  {
    if pending.None? || pending.value == i then
      (if i + 1 == n then 0 else i + 1, pending)
    else
      (pending.value, None)
  }

  /** With no jump pending, a cycle boundary moves to the next state in
      order, wrapping around at the end, and stays a valid index. */
  lemma NaturalAdvance(i: int, n: nat)
    requires 0 <= i + n && i < n
    ensures PyIndex(Advance(i, None, n).0, n).Some?
    ensures PyIndex(Advance(i, None, n).0, n).value == (PyIndex(i, n).value + 1) % n
    ensures Advance(i, None, n).1 == None
  {
    var j := PyIndex(i, n).value;
    if j + 1 == n {
      ModUnique(j + 1, n, 1, 0);
    } else {
      ModUnique(j + 1, n, 0, j + 1);
    }
  }

  /** A pending jump is taken at the next cycle boundary and then forgotten. */
  lemma JumpTaken(i: int, t: int, n: nat)
    requires Accepts(t, i, n)
    ensures Advance(i, AfterRequest(t, i, n), n) == (t, None)
  {
  }

  /** The `pending == i` test of the advance is dead: while the pending jump
      is never the active index, advancing with a pending jump always jumps,
      and no jump is left pending afterwards. */
  lemma PendingNeverActive(i: int, pending: Option<int>, n: nat)
    requires pending.None? || pending.value != i
    ensures pending.Some? ==> Advance(i, pending, n).0 == pending.value
    ensures Advance(i, pending, n).1 == None
  {
  }

  /** `x` written as `q*n + r` with `0 <= r < n` has remainder `r`. */
  lemma ModUnique(x: int, n: int, q: int, r: int)
    requires n >= 1 && 0 <= r < n && x == q * n + r
    ensures x % n == r
  {
    var q', r' := x / n, x % n;
    assert (q - q') * n == r' - r;
    if q - q' >= 1 {
      assert false;
    } else if q - q' <= -1 {
      assert false;
    }
  }

  /** Adding one moves the remainder on by one, wrapping at `n`. */
  lemma ModNext(a: int, n: int)
    requires n >= 1
    ensures (a + 1) % n == if a % n + 1 == n then 0 else a % n + 1
  {
    var q, r := a / n, a % n;
    if r + 1 == n {
      ModUnique(a + 1, n, q + 1, 0);
    } else {
      ModUnique(a + 1, n, q, r + 1);
    }
  }

  /** The active index after `k` cycles with no request. */
  function Cycles(i: int, n: nat, k: nat): int
  {
    if k == 0 then i else Advance(Cycles(i, n, k - 1), None, n).0
  }

  /** With no requests, the states are played in order, round and round:
      after `k` cycles from state 0, state `k mod n` is active. */
  lemma {:induction false} PlaysInOrder(n: nat, k: nat)
    requires n >= 1
    ensures Cycles(0, n, k) == k % n
  {
    if k > 0 {
      PlaysInOrder(n, k - 1);
      ModNext(k - 1, n);
    }
  }

  /** With two states and no requests the active state goes 0, 1, 0. */
  lemma TwoStatesAlternate()
    ensures Cycles(0, 2, 1) == 1 && Cycles(0, 2, 2) == 0
  {
    PlaysInOrder(2, 1);
    PlaysInOrder(2, 2);
  }

  /** A request for the active index is rejected and discards any pending jump. */
  lemma ActiveIndexRejected(i: int, n: nat)
    ensures AfterRequest(i, i, n) == None
  {
  }

  /** Negative targets pass the range check.  One that names the active
      state through Python's negative indexing is accepted, so the active
      state is cut short and replayed. */
  lemma NegativeAliasAccepted(i: int, n: nat)
    requires 0 <= i < n
    ensures Accepts(i - n, i, n)
    ensures PyIndex(i - n, n) == PyIndex(i, n)
  {
  }

  /** A target below `-n` passes the range check, but at the next cycle
      boundary the subscript `states[t]` raises `IndexError`. */
  lemma TooNegativeTargetFails(i: int, t: int, n: nat)
    requires 0 <= i + n && i < n && t + n < 0
    ensures Accepts(t, i, n)
    ensures PyIndex(Advance(i, AfterRequest(t, i, n), n).0, n) == None
  {
  }

  /** A target in `-n..n` that is accepted is a valid index at the boundary. */
  lemma AcceptedTargetInRange(i: int, t: int, n: nat)
    requires 0 <= t + n && Accepts(t, i, n)
    ensures PyIndex(Advance(i, AfterRequest(t, i, n), n).0, n).Some?
  {
  }
}
