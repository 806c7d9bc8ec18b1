/**
  An outgoing edge of a graph node: the target's id (final) and a flag that
  records whether the edge has been followed in the current exploration.
  Equality and hashing look only at the target.
 */
module Arcs {

  /** Java's 32-bit `int`. */
  newtype Int32 = x: int | -0x8000_0000 <= x < 0x8000_0000

  /** Two's-complement wrap-around of an unbounded integer into an `int`. */
  function Wrap32(x: int): (r: Int32)
    ensures (r as int - x) % 0x1_0000_0000 == 0
    ensures -0x8000_0000 <= x < 0x8000_0000 ==> r as int == x
  {
    ((x + 0x8000_0000) % 0x1_0000_0000 - 0x8000_0000) as Int32
  }

  datatype Arc = Arc(to: Int32, traversed: bool)

  /** `new Arc(to)`: the field initialiser leaves the arc untraversed. */
  function NewArc(to: Int32): (a: Arc)
    ensures GetTo(a) == to && !IsTraversed(a)
  {
    Arc(to, false)
  }

  /** `isTraversed()`: the flag is set exactly when marking the arc again would change nothing. */
  function IsTraversed(a: Arc): (r: bool)
    ensures r <==> a.(traversed := true) == a
  {
    a.traversed
  }

  /** `getTo()`: the target; every arc is the new arc to its target, marked or not. */
  function GetTo(a: Arc): (r: Int32)
    ensures a == Arc(r, false) || a == Arc(r, true)
  {
    a.to
  }

  /** Marks the arc traversed; the target is final and stays as it was. */
  function SetTraversed(a: Arc): (r: Arc)
    ensures IsTraversed(r)
    ensures GetTo(r) == GetTo(a)
  {
    a.(traversed := true)
  }

  /** Equality on the target only: two arcs are equal when marking both makes them the same value. */
  function Equals(a: Arc, b: Arc): (r: bool)
    ensures r <==> a.(traversed := true) == b.(traversed := true)
  {
    a.to == b.to
  }

  /** `31 * 1 + to`, computed in 32-bit arithmetic. */
  function HashCode(a: Arc): (h: Int32)
    ensures (h as int - (31 + a.to as int)) % 0x1_0000_0000 == 0
    ensures a.to < 0x7FFF_FFFF - 30 ==> h as int == 31 + a.to as int
  {
    Wrap32(31 * 1 + a.to as int)
  }

  /** Equality is an equivalence relation. */
  lemma EqualsIsEquivalence(a: Arc, b: Arc, c: Arc)
    ensures Equals(a, a)
    ensures Equals(a, b) <==> Equals(b, a)
    ensures Equals(a, b) && Equals(b, c) ==> Equals(a, c)
  {
  }

  /** Arcs that differ only in their traversed flag are equal. */
  lemma EqualsIgnoresTraversed(a: Arc, flag: bool)
    ensures Equals(a, a.(traversed := flag))
    ensures Equals(a, SetTraversed(a))
    ensures Equals(a, Arc(a.to, !a.traversed)) && a != Arc(a.to, !a.traversed)
  {
  }

  /** Equal arcs have equal hashes. */
  lemma EqualArcsHashEqually(a: Arc, b: Arc)
    requires Equals(a, b)
    ensures HashCode(a) == HashCode(b)
  {
  }

  /** The hash wraps around at the top of the `int` range. */
  lemma HashCodeWrapsAtMaxInt()
    ensures HashCode(NewArc(0x7FFF_FFFF)) == -0x7FFF_FFE2
    ensures HashCode(NewArc(0x7FFF_FFE0)) == 0x7FFF_FFFF
  {
  }

  /** Marking twice is marking once, and nothing else about the arc changes. */
  lemma SetTraversedIdempotent(a: Arc)
    ensures SetTraversed(SetTraversed(a)) == SetTraversed(a)
    ensures SetTraversed(a) == NewArc(GetTo(a)).(traversed := true)
  {
  }

  /**
    The flag only ever goes from false to true: after any sequence of the
    arc's operations (true: `setTraversed`, false: a read) the target is the
    constructor's argument and the flag is set exactly when some step set it.
   */
  function Replay(a: Arc, ops: seq<bool>): (r: Arc)
    ensures GetTo(r) == GetTo(a)
    ensures IsTraversed(r) <==> (IsTraversed(a) || true in ops)
    decreases |ops|
  {
    if ops == [] then a
    else Replay(if ops[0] then SetTraversed(a) else a, ops[1..])
  }

  lemma {:induction false} TraversedNeverResets(to: Int32, ops: seq<bool>, k: nat)
    requires k <= |ops|
    ensures GetTo(Replay(NewArc(to), ops[..k])) == to
    ensures IsTraversed(Replay(NewArc(to), ops[..k])) ==> IsTraversed(Replay(NewArc(to), ops))
  {
    assert true in ops[..k] ==> true in ops;
  }
}
