/**
  Operations on the union-find status and worker mask of a component's
  root: the union-find slot lock, claiming a component for a worker, and
  finalising a component.
 */
module Claims {
  import opened UFNodes
  import opened Forest

  /** Outcome of a worker's claim on the component of a node. */
  datatype ClaimStatus =
    | claimSuccess  // not dead and not yet visited by this worker
    | claimFound    // not dead and visited by this worker before
    | claimDead     // dead: the component's SCC was found

  /** Representatives depend on parent pointers only. */
  lemma SameParentsSameReps(s: State, t: State)
    requires Valid(s) && |t| == |s|
    requires forall z :: 0 <= z < |s| ==> t[z].parent == s[z].parent && t[z].listNext < |s|
    ensures Valid(t) && SameReps(s, t)
  {
    forall z | 0 <= z < |s| ensures Rep(t, z) == Rep(s, z) {
      SameParentsSameRep(s, t, z);
    }
  }

  lemma {:induction false} SameParentsSameRep(s: State, t: State, z: Id)
    requires Valid(s) && Valid(t) && |t| == |s| && z < |s|
    requires forall y :: 0 <= y < |s| ==> t[y].parent == s[y].parent
    ensures Rep(t, z) == Rep(s, z)
    decreases |s| - z
  {
    if s[z].parent != 0 {
      SameParentsSameRep(s, t, s[z].parent);
    }
  }

  /** Replaces the union-find status of `y`; the forest is unaffected. */
  function SetUFStatus(s: State, y: Id, st: UFStatus): (t: State)
    requires Valid(s) && y < |s|
    ensures Valid(t) && |t| == |s| && SameReps(s, t)
    ensures t[y].ufStatus == st
    ensures forall z :: 0 <= z < |s| ==> t[z] == s[z].(ufStatus := t[z].ufStatus)
    ensures forall z :: 0 <= z < |s| && z != y ==> t[z] == s[z]
  {
    var t := s[y := s[y].(ufStatus := st)];
    SameParentsSameReps(s, t);
    t
  }

  /** Adds the workers `bits` to the mask of node `y`; the forest is unaffected. */
  function OrBits(s: State, y: Id, bits: WorkerMask): (t: State)
    requires Valid(s) && y < |s|
    ensures Valid(t) && |t| == |s| && SameReps(s, t)
    ensures t[y].workerSet == s[y].workerSet + bits
    ensures forall z :: 0 <= z < |s| ==> t[z] == s[z].(workerSet := t[z].workerSet)
    ensures forall z :: 0 <= z < |s| && z != y ==> t[z] == s[z]
  {
    var t := s[y := s[y].(workerSet := s[y].workerSet + bits)];
    SameParentsSameReps(s, t);
    t
  }

  /**
    `t` is `s` with some paths compressed and `bits` added to some worker
    masks; the list and status fields are as they were.
   */
  ghost predicate CompressesOrAdds(s: State, t: State, bits: WorkerMask)
    requires Valid(s)
  {
    && ParentsCompressed(s, t)
    && (forall y :: 0 <= y < |s| ==> t[y] == s[y].(parent := t[y].parent, workerSet := t[y].workerSet))
    && (forall y :: 0 <= y < |s| ==> t[y].workerSet == s[y].workerSet || t[y].workerSet == s[y].workerSet + bits)
  }

  /** No worker is removed from any mask from `s` to `t`. */
  ghost predicate BitsOnlyGrow(s: State, t: State)
  {
    |t| == |s| && forall y :: 0 <= y < |s| ==> s[y].workerSet <= t[y].workerSet
  }

  /**
    Adds `bits` to the mask of `r` and, while `r` turns out not to be a
    root, to the mask of its representative (the loops at the end of
    `unite` and `makeClaim`). On a root this updates that root's mask and
    nothing else.
   */
  function PropagateBits(s: State, r: Id, bits: WorkerMask): (t: State)
    requires Valid(s) && r < |s|
    ensures Valid(t) && |t| == |s| && SameReps(s, t)
    ensures CompressesOrAdds(s, t, bits)
    ensures bits <= t[Rep(s, r)].workerSet
    ensures s[r].parent == 0 ==> t == OrBits(s, r, bits)
    decreases |s| - r
  {
    var s1 := OrBits(s, r, bits);
    if s1[r].parent == 0 then s1
    else
      var (r2, s2) := Find(s1, r);
      var t := PropagateBits(s2, r2, bits);
      PropagateAtRep(s, r, bits);
      t
  }

  /** Past a non-root, propagation adds the bits at the representative that `find` returns, after compressing. */
  lemma PropagateAtRep(s: State, r: Id, bits: WorkerMask)
    requires Valid(s) && r < |s| && s[r].parent != 0
    ensures var s1 := OrBits(s, r, bits);
      var s2 := Find(s1, r).1;
      var t := OrBits(s2, Rep(s, r), bits);
      && Valid(t) && |t| == |s| && SameReps(s, t)
      && Find(s1, r).0 == Rep(s, r) && s2[Rep(s, r)].parent == 0
      && CompressesOrAdds(s, t, bits)
      && bits <= t[Rep(s, r)].workerSet
  {
    var s1 := OrBits(s, r, bits);
    var s2 := Find(s1, r).1;
    var q := Rep(s, r);
    var t := OrBits(s2, q, bits);
    assert Rep(s2, q) == q;
    OrBitsCompressesOrAdds(s, r, bits);
    OrBitsCompressesOrAdds(s2, q, bits);
    CompressAddChain(s, s1, s2, t, bits);
  }

  /** Adding bits to one mask is a (trivial) compress-or-add step. */
  lemma OrBitsCompressesOrAdds(s: State, y: Id, bits: WorkerMask)
    requires Valid(s) && y < |s|
    ensures CompressesOrAdds(s, OrBits(s, y, bits), bits)
  {
  }

  /** A compress-or-add step, a compression and another compress-or-add step make one compress-or-add step. */
  lemma CompressAddChain(s: State, s1: State, s2: State, t: State, bits: WorkerMask)
    requires Valid(s) && Valid(s1) && Valid(s2) && Valid(t) && |s1| == |s| && |s2| == |s| && |t| == |s|
    requires SameReps(s, s1) && SameReps(s1, s2) && SameReps(s2, t)
    requires CompressesOrAdds(s, s1, bits) && Compressed(s1, s2) && CompressesOrAdds(s2, t, bits)
    ensures SameReps(s, t) && CompressesOrAdds(s, t, bits)
  {
    forall y | 0 <= y < |s| && t[y].parent != s[y].parent ensures t[y].parent == Rep(s, y) {
      assert Rep(s1, y) == Rep(s, y) && Rep(s2, y) == Rep(s, y);
    }
    forall y | 0 <= y < |s|
      ensures t[y] == s[y].(parent := t[y].parent, workerSet := t[y].workerSet)
      ensures t[y].workerSet == s[y].workerSet || t[y].workerSet == s[y].workerSet + bits
    {
      assert s2[y].workerSet == s1[y].workerSet;
    }
  }

  /** Propagation never removes a worker from a mask. */
  lemma PropagateBitsOnlyGrows(s: State, r: Id, bits: WorkerMask)
    requires Valid(s) && r < |s|
    ensures BitsOnlyGrow(s, PropagateBits(s, r, bits))
  {
  }

  /*************** the union-find slot lock ***************/

  /**
    `lockUF(a)`: succeeds exactly on a live root and then holds its lock.
    A live non-root is locked and released again at once, so a failed
    attempt leaves the state as it was.
   */
  function LockUF(s: State, a: Id): (res: (bool, State))
    requires Valid(s) && a < |s|
    ensures res.0 <==> s[a].ufStatus == UFlive && s[a].parent == 0
    ensures res.0 ==> res.1 == SetUFStatus(s, a, UFlock)
    ensures !res.0 ==> res.1 == s
  {
    if s[a].ufStatus == UFlive then
      var locked := SetUFStatus(s, a, UFlock);
      if locked[a].parent == 0 then (true, locked)
      else (false, SetUFStatus(locked, a, UFlive))
    else (false, s)
  }

  /** `unlockUF(a)`: the node is live again. */
  function UnlockUF(s: State, a: Id): (t: State)
    requires Valid(s) && a < |s|
    ensures Valid(t) && |t| == |s| && SameReps(s, t) && t[a].ufStatus == UFlive
    ensures t[a] == s[a].(ufStatus := UFlive)
    ensures forall z :: 0 <= z < |s| && z != a ==> t[z] == s[z]
  {
    SetUFStatus(s, a, UFlive)
  }

  /** Unlocking after a successful lock gives back the state before it. */
  lemma UnlockUndoesLock(s: State, a: Id)
    requires Valid(s) && a < |s| && LockUF(s, a).0
    ensures UnlockUF(LockUF(s, a).1, a) == s
  {
    var t := UnlockUF(LockUF(s, a).1, a);
    assert forall z :: 0 <= z < |s| ==> t[z] == s[z];
  }

  /** A held lock makes every further attempt fail. */
  lemma LockIsExclusive(s: State, a: Id)
    requires Valid(s) && a < |s| && LockUF(s, a).0
    ensures !LockUF(LockUF(s, a).1, a).0
  {
  }

  /*************** claims ***************/

  /**
    `makeClaim(x, w)`: resolves the root of `x`; dead if the root is dead,
    found if worker `w` is already in the root's mask, otherwise `w` is
    added to the mask and the claim succeeds.
   */
  function MakeClaim(s: State, x: Id, w: WorkerId): (res: (ClaimStatus, State))
    requires Valid(s) && x < |s|
    ensures res.0 == claimDead <==> s[Rep(s, x)].ufStatus == UFdead
    ensures res.0 == claimFound <==> s[Rep(s, x)].ufStatus != UFdead && w in s[Rep(s, x)].workerSet
    ensures Valid(res.1) && |res.1| == |s| && SameReps(s, res.1)
    ensures CompressesOrAdds(s, res.1, {w})
    ensures res.0 == claimSuccess ==> res.1[Rep(s, x)].workerSet == s[Rep(s, x)].workerSet + {w}
    ensures res.0 == claimSuccess ==> forall y :: 0 <= y < |s| && y != Rep(s, x) ==> res.1[y].workerSet == s[y].workerSet
    ensures res.0 != claimSuccess ==> Compressed(s, res.1)
  {
    var (root, s1) := Find(s, x);
    if s1[root].ufStatus == UFdead then (claimDead, s1)
    else if w in s1[root].workerSet then (claimFound, s1)
    else
      var t := PropagateBits(s1, root, {w});
      CompressedTransitiveBits(s, s1, t, {w});
      (claimSuccess, t)
  }

  lemma CompressedTransitiveBits(s: State, t: State, u: State, bits: WorkerMask)
    requires Valid(s) && Valid(t) && |t| == |s|
    requires Compressed(s, t) && SameReps(s, t) && CompressesOrAdds(t, u, bits)
    ensures CompressesOrAdds(s, u, bits)
  {
    forall y | 0 <= y < |s|
      ensures u[y] == s[y].(parent := u[y].parent, workerSet := u[y].workerSet)
      ensures u[y].parent != s[y].parent ==> u[y].parent == Rep(s, y)
    {
      assert u[y] == t[y].(parent := u[y].parent, workerSet := u[y].workerSet);
    }
  }

  /** A worker that claimed a component finds it claimed on its next visit, through any member. */
  lemma ClaimThenFound(s: State, x: Id, y: Id, w: WorkerId)
    requires Valid(s) && x < |s| && y < |s| && Rep(s, x) == Rep(s, y)
    requires MakeClaim(s, x, w).0 == claimSuccess
    ensures MakeClaim(MakeClaim(s, x, w).1, y, w).0 == claimFound
  {
    var t := MakeClaim(s, x, w).1;
    assert Rep(t, y) == Rep(s, x);
  }

  /*************** finalising a component ***************/

  /** `isDead(a)`: whether the component of `a` has been finalised. */
  function IsDead(s: State, a: Id): (res: (bool, State))
    requires Valid(s) && a < |s|
    ensures res.0 <==> s[Rep(s, a)].ufStatus == UFdead
    ensures Valid(res.1) && Compressed(s, res.1) && SameReps(s, res.1)
  {
    var (ra, s1) := Find(s, a);
    (s1[ra].ufStatus == UFdead, s1)
  }

  /** `markDead` returns only when the root of `a` is not held by a `lockUF`. */
  predicate MarkDeadReady(s: State, a: Id)
    requires Valid(s) && a < |s|
  {
    s[Rep(s, a)].ufStatus != UFlock
  }

  /**
    `markDead(a)`: the root of `a` becomes dead; the result is true exactly
    for the call that performed the live-to-dead transition.
   */
  function MarkDead(s: State, a: Id): (res: (bool, State))
    requires Valid(s) && a < |s| && MarkDeadReady(s, a)
    ensures res.0 <==> s[Rep(s, a)].ufStatus == UFlive
    ensures Valid(res.1) && |res.1| == |s| && SameReps(s, res.1) && ParentsCompressed(s, res.1)
    ensures res.1[Rep(s, a)].ufStatus == UFdead
    ensures forall y :: 0 <= y < |s| ==> res.1[y] == s[y].(parent := res.1[y].parent, ufStatus := res.1[y].ufStatus)
    ensures forall y :: 0 <= y < |s| && y != Rep(s, a) ==> res.1[y].ufStatus == s[y].ufStatus
  {
    var (ra, s1) := Find(s, a);
    if s1[ra].ufStatus == UFlive then (true, SetUFStatus(s1, ra, UFdead))
    else (false, s1)
  }

  /** Only the first of two finalisations reports the transition, and the component is dead after it. */
  lemma MarkDeadOnce(s: State, a: Id, b: Id)
    requires Valid(s) && a < |s| && b < |s| && Rep(s, a) == Rep(s, b)
    requires MarkDeadReady(s, a)
    ensures MarkDeadReady(MarkDead(s, a).1, b)
    ensures !MarkDead(MarkDead(s, a).1, b).0
    ensures IsDead(MarkDead(s, a).1, b).0
  {
  }
}
