/**
  The union-find forest of the engine: a state is the sequence of node
  records indexed by id, `find` resolves a representative with path
  compression and `sameSet` compares representatives.
 */
module Forest {
  import opened UFNodes

  /** The engine's node array: index 0 is the sentinel, ids 1..N are graph nodes. */
  type State = seq<UFNode>

  /**
    Well-formed state: every parent pointer is 0 or points to a strictly
    larger id, and every list successor is an id of the state. The order on
    parents is what makes `find` terminate.
   */
  predicate Valid(s: State)
  {
    && |s| >= 1
    && (forall x :: 0 <= x < |s| ==> s[x].parent == 0 || x < s[x].parent < |s|)
    && (forall x :: 0 <= x < |s| ==> s[x].listNext < |s|)
  }

  /** The initial state: N graph nodes plus the sentinel, all fresh. */
  function Init(n: nat): (s: State)
    ensures |s| == n + 1
    ensures forall x :: 0 <= x < |s| ==> s[x] == Fresh()
  {
    seq(n + 1, _ => Fresh())
  }

  /** The representative of `x`, following parents without compressing. */
  function Rep(s: State, x: Id): (r: Id)
    requires Valid(s) && x < |s|
    ensures x <= r < |s| && s[r].parent == 0
    ensures r == x <==> s[x].parent == 0
    decreases |s| - x
  {
    if s[x].parent == 0 then x else Rep(s, s[x].parent)
  }

  /** Two valid states of the same size partition the ids identically. */
  ghost predicate SameReps(s: State, t: State)
    requires Valid(s) && Valid(t) && |s| == |t|
  {
    forall y :: 0 <= y < |s| ==> Rep(t, y) == Rep(s, y)
  }

  /** Every parent pointer that differs from `s` to `t` now points at the representative. */
  ghost predicate ParentsCompressed(s: State, t: State)
    requires Valid(s)
  {
    && |t| == |s|
    && forall y :: 0 <= y < |s| && t[y].parent != s[y].parent ==> t[y].parent == Rep(s, y)
  }

  /**
    `t` is `s` after path compression: only parent pointers differ, and a
    parent that changed now points directly at the representative.
   */
  ghost predicate Compressed(s: State, t: State)
    requires Valid(s)
  {
    && ParentsCompressed(s, t)
    && forall y :: 0 <= y < |s| ==> t[y] == s[y].(parent := t[y].parent)
  }

  /** Redirecting a non-root to its representative keeps validity and every representative. */
  lemma {:induction false} RedirectKeepsRep(s: State, x: Id, y: Id)
    requires Valid(s) && x < |s| && s[x].parent != 0 && y < |s|
    ensures Valid(s[x := s[x].(parent := Rep(s, x))])
    ensures Rep(s[x := s[x].(parent := Rep(s, x))], y) == Rep(s, y)
    decreases |s| - y
  {
    var t := s[x := s[x].(parent := Rep(s, x))];
    assert Valid(t) by {
      forall z | 0 <= z < |t| ensures t[z].parent == 0 || z < t[z].parent < |t| {
        if z == x {
          assert Rep(s, x) != x;
        }
      }
    }
    if s[y].parent == 0 {
      assert y != x;
    } else if y == x {
      assert t[Rep(s, x)].parent == 0;
    } else {
      RedirectKeepsRep(s, x, s[y].parent);
    }
  }

  lemma RedirectKeepsAllReps(s: State, x: Id)
    requires Valid(s) && x < |s| && s[x].parent != 0
    ensures Valid(s[x := s[x].(parent := Rep(s, x))])
    ensures SameReps(s, s[x := s[x].(parent := Rep(s, x))])
  {
    RedirectKeepsRep(s, x, x);
    forall y | 0 <= y < |s|
      ensures Rep(s[x := s[x].(parent := Rep(s, x))], y) == Rep(s, y)
    {
      RedirectKeepsRep(s, x, y);
    }
  }

  /**
    `find`: the representative of `x`, plus the state after compressing the
    path from `x`. Every node still resolves to the same representative, and
    a call on a root changes nothing.
   */
  function Find(s: State, x: Id): (res: (Id, State))
    requires Valid(s) && x < |s|
    ensures res.0 == Rep(s, x)
    ensures Valid(res.1) && |res.1| == |s| && SameReps(s, res.1)
    ensures Compressed(s, res.1)
    ensures res.1[x].parent == 0 || res.1[x].parent == res.0
    ensures forall y :: 0 <= y < x ==> res.1[y] == s[y]
    ensures s[x].parent == 0 ==> res.1 == s
    decreases |s| - x
  {
    var p := s[x].parent;
    if p == 0 then (x, s)
    else
      var (root, s1) := Find(s, p);
      if root != p then
        RedirectKeepsAllReps(s1, x);
        (root, s1[x := s1[x].(parent := root)])
      else (root, s1)
  }

  /** Compressing twice is compressing once, and compression keeps representatives. */
  lemma {:induction false} CompressedTransitive(s: State, t: State, u: State)
    requires Valid(s) && Valid(t) && Valid(u) && |t| == |s|
    requires Compressed(s, t) && SameReps(s, t) && Compressed(t, u)
    ensures Compressed(s, u)
  {
    forall y | 0 <= y < |s|
      ensures u[y] == s[y].(parent := u[y].parent)
      ensures u[y].parent != s[y].parent ==> u[y].parent == Rep(s, y)
    {
      assert u[y] == t[y].(parent := u[y].parent);
    }
  }

  /**
    `sameSet(a, b)`: whether `a` and `b` have the same representative, and
    the state after the finds it performs. The source only relies on it for
    a root `a`; the order of parents makes it exact for every `a`.
   */
  function SameSet(s: State, a: Id, b: Id): (res: (bool, State))
    requires Valid(s) && a < |s| && b < |s|
    ensures res.0 <==> Rep(s, a) == Rep(s, b)
    ensures Valid(res.1) && Compressed(s, res.1) && SameReps(s, res.1)
    decreases if Rep(s, a) == a then 0 else 1
  {
    if a == b then (true, s)
    else
      var (rb, s1) := Find(s, b);
      if a == rb then (true, s1)
      else if rb < a && s1[rb].parent == 0 then (false, s1)
      else if s1[a].parent == 0 then (false, s1)
      else
        var (ra, s2) := Find(s1, a);
        CompressedTransitive(s, s1, s2);
        var (same, s3) := SameSet(s2, ra, rb);
        CompressedTransitive(s, s2, s3);
        (same, s3)
  }

  /** Every node of the initial state is a root and resolves to itself. */
  lemma InitIsForestOfSingletons(n: nat)
    ensures Valid(Init(n))
    ensures forall x :: 0 <= x < n + 1 ==> Rep(Init(n), x) == x
  {
  }
}
