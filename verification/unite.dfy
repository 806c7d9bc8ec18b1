/**
  `unite(a, b)`: merges the union-find sets of `a` and `b`. The root with
  the smaller id is locked and linked under the root with the larger id,
  the two cyclic lists are spliced at a live member of each, and the worker
  mask of the new root receives the workers of the old one.
 */
module Unite {
  import opened UFNodes
  import opened Forest
  import opened Claims
  import opened Lists

  /** How a call to `unite` that returns ends. */
  datatype Union =
    | AlreadySame(s: State)                // the two nodes already had one root
    | Linked(s: State, la: Id, lb: Id)     // the sets were merged; la, lb are the spliced list nodes
    | Abandoned(s: State)                  // a list turned out dead; nothing was merged

  /**
    Makes root `q` a child of root `r`. Every node that resolved to `q`
    now resolves to `r`; every other node keeps its representative.
   */
  function Link(s: State, q: Id, r: Id): (t: State)
    requires Valid(s) && q < r < |s| && s[q].parent == 0 && s[r].parent == 0
    ensures Valid(t) && |t| == |s|
    ensures forall y :: 0 <= y < |s| ==> Rep(t, y) == if Rep(s, y) == q then r else Rep(s, y)
    ensures forall y :: 0 <= y < |s| && y != q ==> t[y] == s[y]
    ensures t[q] == s[q].(parent := r)
  {
    var t := s[q := s[q].(parent := r)];
    forall y | 0 <= y < |s|
      ensures Rep(t, y) == if Rep(s, y) == q then r else Rep(s, y)
    {
      LinkRep(s, q, r, y);
    }
    t
  }

  lemma {:induction false} LinkRep(s: State, q: Id, r: Id, y: Id)
    requires Valid(s) && q < r < |s| && s[q].parent == 0 && s[r].parent == 0 && y < |s|
    ensures Valid(s[q := s[q].(parent := r)])
    ensures Rep(s[q := s[q].(parent := r)], y) == if Rep(s, y) == q then r else Rep(s, y)
    decreases |s| - y
  {
    var t := s[q := s[q].(parent := r)];
    if y == q {
      assert t[r].parent == 0;
    } else if s[y].parent != 0 {
      LinkRep(s, q, r, s[y].parent);
    }
  }

  /**
    The end of `unite`: the new root `r` receives the workers of `q`, by
    the same propagation `makeClaim` uses; if it already holds them all,
    nothing is written.
   */
  function MergeWorkers(s: State, q: Id, r: Id): (t: State)
    requires Valid(s) && q < |s| && r < |s| && s[r].parent == 0
    ensures Valid(t) && |t| == |s| && SameReps(s, t)
    ensures t[r].workerSet == s[r].workerSet + s[q].workerSet
    ensures forall y :: 0 <= y < |s| && y != r ==> t[y] == s[y]
    ensures forall y :: 0 <= y < |s| ==> t[y] == s[y].(workerSet := t[y].workerSet)
  {
    var wq, wr := s[q].workerSet, s[r].workerSet;
    if wq + wr != wr then PropagateBits(s, r, wq)
    else
      assert wr + wq == wr;
      s
  }

  /**
    The part of `unite` after both list slots are locked: splice the lists
    at `la` and `lb`, link `q` under `r`, merge the worker masks and
    release the three locks.
   */
  function Merge(s: State, q: Id, r: Id, la: Id, lb: Id): (t: State)
    requires Valid(s) && q < r < |s| && s[q].parent == 0 && s[r].parent == 0
    requires la < |s| && lb < |s|
    ensures Valid(t) && |t| == |s|
  {
    var s1 := Splice(s, la, lb);
    var s2 := Link(s1, q, r);
    var s3 := MergeWorkers(s2, q, r);
    UnlockUF(UnlockList(UnlockList(s3, la), lb), q)
  }

  /**
    `unite(a, b)`. The first loop of the source retries only when `lockUF`
    fails; in a sequential run the root it retries on is the same, so the
    failure is a wait that never ends at that root.
   */
  function Unite(s: State, a: Id, b: Id): (r: Run<Union>)
    requires Valid(s) && a < |s| && b < |s|
    ensures r.Done? ==> Valid(r.value.s) && |r.value.s| == |s|
  {
    var (ra, s1) := Find(s, a);
    var (rb, s2) := Find(s1, b);
    if ra == rb then Done(AlreadySame(s2))
    else
      var q := if ra < rb then ra else rb;
      var rr := if ra < rb then rb else ra;
      var (locked, s3) := LockUF(s2, q);
      if !locked then Spins(q)
      else LockedUnite(s3, a, b, q, rr)
  }

  /** `unite` from the point where the root `q` is locked. */
  function LockedUnite(s: State, a: Id, b: Id, q: Id, r: Id): (res: Run<Union>)
    requires Valid(s) && a < |s| && b < |s|
    requires q < r < |s| && Rep(s, q) == q && Rep(s, r) == r
    ensures res.Done? ==> Valid(res.value.s) && |res.value.s| == |s|
  {
    match LockList(s, a)
    case Spins(x) => Spins(x)
    case Exhausted => Exhausted
    case Done((la, s4)) =>
      LockListFrame(s, a);
      if la < 0 then Done(Abandoned(UnlockUF(s4, q)))
      else
        match LockList(s4, b)
        case Spins(x) => Spins(x)
        case Exhausted => Exhausted
        case Done((lb, s5)) =>
          LockListFrame(s4, b);
          if lb < 0 then Done(Abandoned(UnlockUF(UnlockList(s5, la), q)))
          else Done(Linked(Merge(s5, q, r, la, lb), la, lb))
  }

  /*************** what a merge does ***************/

  /** A merge joins `q`'s set to `r`'s and moves no other node. */
  lemma MergeReps(s: State, q: Id, r: Id, la: Id, lb: Id)
    requires Valid(s) && q < r < |s| && s[q].parent == 0 && s[r].parent == 0
    requires la < |s| && lb < |s|
    ensures var t := Merge(s, q, r, la, lb);
      forall y :: 0 <= y < |s| ==> Rep(t, y) == if Rep(s, y) == q then r else Rep(s, y)
  {
    var s1 := Splice(s, la, lb);
    var s2 := Link(s1, q, r);
    var s3 := MergeWorkers(s2, q, r);
    var s4 := UnlockList(s3, la);
    var s5 := UnlockList(s4, lb);
    assert SameReps(s2, s5);
  }

  /** A merge gives `r` the workers of `q` and changes no other mask. */
  lemma MergeMasks(s: State, q: Id, r: Id, la: Id, lb: Id)
    requires Valid(s) && q < r < |s| && s[q].parent == 0 && s[r].parent == 0
    requires la < |s| && lb < |s|
    ensures var t := Merge(s, q, r, la, lb);
      && t[r].workerSet == s[r].workerSet + s[q].workerSet
      && forall y :: 0 <= y < |s| && y != r ==> t[y].workerSet == s[y].workerSet
  {
  }

  /** A merge leaves `q`'s slot and the two list slots live and changes no other status. */
  lemma MergeStatuses(s: State, q: Id, r: Id, la: Id, lb: Id)
    requires Valid(s) && q < r < |s| && s[q].parent == 0 && s[r].parent == 0
    requires la < |s| && lb < |s|
    ensures var t := Merge(s, q, r, la, lb);
      && (forall y :: 0 <= y < |s| ==> t[y].ufStatus == if y == q then UFlive else s[y].ufStatus)
      && (forall y :: 0 <= y < |s| ==>
            t[y].listStatus == if y == la || y == lb then listLive else s[y].listStatus)
  {
  }

  /** The list successors after a merge are those of the splice. */
  lemma MergeLists(s: State, q: Id, r: Id, la: Id, lb: Id)
    requires Valid(s) && q < r < |s| && s[q].parent == 0 && s[r].parent == 0
    requires la < |s| && lb < |s|
    ensures var t := Merge(s, q, r, la, lb);
      forall y :: 0 <= y < |s| ==> t[y].listNext == Splice(s, la, lb)[y].listNext
  {
  }

  /*************** properties of unite ***************/

  /** Once `q` is locked, the rest of `unite` never reports the sets as already joined. */
  lemma LockedUniteNeverSame(s: State, a: Id, b: Id, q: Id, r: Id)
    requires Valid(s) && a < |s| && b < |s|
    requires q < r < |s| && Rep(s, q) == q && Rep(s, r) == r
    ensures !(LockedUnite(s, a, b, q, r).Done? && LockedUnite(s, a, b, q, r).value.AlreadySame?)
  {
  }

  /**
    `unite` is a no-op exactly when the two nodes already share a root:
    it then only compresses paths.
   */
  lemma UniteNoOpIffSameSet(s: State, a: Id, b: Id)
    requires Valid(s) && a < |s| && b < |s|
    ensures Unite(s, a, b).Done? && Unite(s, a, b).value.AlreadySame? <==> Rep(s, a) == Rep(s, b)
    ensures Rep(s, a) == Rep(s, b) ==>
      Compressed(s, Unite(s, a, b).value.s) && SameReps(s, Unite(s, a, b).value.s)
  {
    var (ra, s1) := Find(s, a);
    var (rb, s2) := Find(s1, b);
    if ra == rb {
      CompressedTransitive(s, s1, s2);
    } else {
      var q := if ra < rb then ra else rb;
      var rr := if ra < rb then rb else ra;
      var (locked, s3) := LockUF(s2, q);
      if locked {
        LockedUniteNeverSame(s3, a, b, q, rr);
      }
    }
  }

  /**
    When the rest of `unite` after locking `q` merges, it is the merge at
    the two nodes the list locks picked, in the state they left.
   */
  lemma LockedUniteLinkedShape(s: State, a: Id, b: Id, q: Id, r: Id)
    requires Valid(s) && a < |s| && b < |s|
    requires q < r < |s| && Rep(s, q) == q && Rep(s, r) == r
    requires LockedUnite(s, a, b, q, r).Done? && LockedUnite(s, a, b, q, r).value.Linked?
    ensures LockList(s, a).Done? && LockList(s, a).value.0 >= 0
    ensures var (la, s4) := LockList(s, a).value;
      && LockList(s4, b).Done? && LockList(s4, b).value.0 >= 0
      && var (lb, s5) := LockList(s4, b).value;
      && Valid(s5) && |s5| == |s| && SameReps(s, s5) && Rep(s5, q) == q && Rep(s5, r) == r
      && la < |s| && lb < |s|
      && LockedUnite(s, a, b, q, r).value.s == Merge(s5, q, r, la, lb)
  {
    LockListForest(s, a);
    var (la, s4) := LockList(s, a).value;
    LockListForest(s4, b);
    var s5 := LockList(s4, b).value.1;
    SameRepsTrans(s, s4, s5);
  }

  /** After the merge in `unite`, `q`'s set has joined `r`'s and no other node has moved. */
  lemma LockedUniteLinksSets(s: State, a: Id, b: Id, q: Id, r: Id)
    requires Valid(s) && a < |s| && b < |s|
    requires q < r < |s| && Rep(s, q) == q && Rep(s, r) == r
    requires LockedUnite(s, a, b, q, r).Done? && LockedUnite(s, a, b, q, r).value.Linked?
    ensures var t := LockedUnite(s, a, b, q, r).value.s;
      forall y :: 0 <= y < |s| ==> Rep(t, y) == if Rep(s, y) == q then r else Rep(s, y)
  {
    LockedUniteLinkedShape(s, a, b, q, r);
    var (la, s4) := LockList(s, a).value;
    var (lb, s5) := LockList(s4, b).value;
    MergeReps(s5, q, r, la, lb);
  }

  /** After the merge in `unite`, `r`'s mask has gained `q`'s workers and no other mask has changed. */
  lemma LockedUniteLinksMasks(s: State, a: Id, b: Id, q: Id, r: Id)
    requires Valid(s) && a < |s| && b < |s|
    requires q < r < |s| && Rep(s, q) == q && Rep(s, r) == r
    requires LockedUnite(s, a, b, q, r).Done? && LockedUnite(s, a, b, q, r).value.Linked?
    ensures var t := LockedUnite(s, a, b, q, r).value.s;
      && t[r].workerSet == s[r].workerSet + s[q].workerSet
      && forall y :: 0 <= y < |s| && y != r ==> t[y].workerSet == s[y].workerSet
  {
    LockedUniteLinkedShape(s, a, b, q, r);
    var (la, s4) := LockList(s, a).value;
    var (lb, s5) := LockList(s4, b).value;
    LockListForest(s, a);
    LockListForest(s4, b);
    MergeMasks(s5, q, r, la, lb);
  }

  /** After the merge in `unite`, `q` is live again and every list status is as before the list locks. */
  lemma LockedUniteLinksStatuses(s: State, a: Id, b: Id, q: Id, r: Id)
    requires Valid(s) && a < |s| && b < |s|
    requires q < r < |s| && Rep(s, q) == q && Rep(s, r) == r
    requires LockedUnite(s, a, b, q, r).Done? && LockedUnite(s, a, b, q, r).value.Linked?
    ensures var t := LockedUnite(s, a, b, q, r).value.s;
      && (forall y :: 0 <= y < |s| ==> t[y].ufStatus == if y == q then UFlive else s[y].ufStatus)
      && (forall y :: 0 <= y < |s| ==> t[y].listStatus == s[y].listStatus)
  {
    LockedUniteLinkedShape(s, a, b, q, r);
    var (la, s4) := LockList(s, a).value;
    var (lb, s5) := LockList(s4, b).value;
    LockListPicked(s, a);
    LockListPicked(s4, b);
    MergeStatuses(s5, q, r, la, lb);
    var t := Merge(s5, q, r, la, lb);
    forall y | 0 <= y < |s| ensures t[y].listStatus == s[y].listStatus {
      if y == la || y == lb {
        assert s[y].listStatus == listLive;
      } else {
        assert s5[y].listStatus == s4[y].listStatus == s[y].listStatus;
      }
    }
    forall y | 0 <= y < |s| ensures t[y].ufStatus == if y == q then UFlive else s[y].ufStatus {
      assert s5[y].ufStatus == s4[y].ufStatus == s[y].ufStatus;
    }
  }

  /** The smaller and the larger of the roots of `a` and `b`. */
  function Lo(s: State, a: Id, b: Id): Id
    requires Valid(s) && a < |s| && b < |s|
  {
    if Rep(s, a) < Rep(s, b) then Rep(s, a) else Rep(s, b)
  }

  function Hi(s: State, a: Id, b: Id): Id
    requires Valid(s) && a < |s| && b < |s|
  {
    if Rep(s, a) < Rep(s, b) then Rep(s, b) else Rep(s, a)
  }

  /** The state after the two finds of `unite`. */
  function Found(s: State, a: Id, b: Id): (t: State)
    requires Valid(s) && a < |s| && b < |s|
    ensures Valid(t) && |t| == |s| && SameReps(s, t)
    ensures forall y :: 0 <= y < |s| ==> t[y] == s[y].(parent := t[y].parent)
  {
    var s1 := Find(s, a).1;
    var t := Find(s1, b).1;
    assert forall y :: 0 <= y < |s| ==> t[y] == s1[y].(parent := t[y].parent);
    t
  }

  /**
    On two different sets, `unite` waits forever at the smaller root unless
    that root is live, and otherwise continues with it locked.
   */
  lemma UniteShape(s: State, a: Id, b: Id)
    requires Valid(s) && a < |s| && b < |s| && Rep(s, a) != Rep(s, b)
    ensures var s2 := Found(s, a, b);
      && Lo(s, a, b) < Hi(s, a, b) < |s|
      && Rep(s2, Lo(s, a, b)) == Lo(s, a, b) && Rep(s2, Hi(s, a, b)) == Hi(s, a, b)
      && (s[Lo(s, a, b)].ufStatus != UFlive ==> Unite(s, a, b) == Spins(Lo(s, a, b)))
      && (s[Lo(s, a, b)].ufStatus == UFlive ==>
            Unite(s, a, b) == LockedUnite(SetUFStatus(s2, Lo(s, a, b), UFlock), a, b, Lo(s, a, b), Hi(s, a, b)))
  {
  }

  /** The state once `unite` holds the lock on the smaller root: only that root's status differs from `s`, besides compressed paths. */
  lemma LockedFrame(s: State, a: Id, b: Id)
    requires Valid(s) && a < |s| && b < |s|
    ensures var s3 := SetUFStatus(Found(s, a, b), Lo(s, a, b), UFlock);
      && Valid(s3) && |s3| == |s| && SameReps(s, s3)
      && (forall y :: 0 <= y < |s| ==> s3[y].workerSet == s[y].workerSet && s3[y].listStatus == s[y].listStatus)
      && (forall y :: 0 <= y < |s| && y != Lo(s, a, b) ==> s3[y].ufStatus == s[y].ufStatus)
  {
  }

  /** A `unite` that merges saw two sets, found the smaller root live and went on with it locked. */
  lemma UniteLinkedShape(s: State, a: Id, b: Id)
    requires Valid(s) && a < |s| && b < |s|
    requires Unite(s, a, b).Done? && Unite(s, a, b).value.Linked?
    ensures Rep(s, a) != Rep(s, b) && s[Lo(s, a, b)].ufStatus == UFlive
    ensures var s3 := SetUFStatus(Found(s, a, b), Lo(s, a, b), UFlock);
      && Lo(s, a, b) < Hi(s, a, b) < |s|
      && Rep(s3, Lo(s, a, b)) == Lo(s, a, b) && Rep(s3, Hi(s, a, b)) == Hi(s, a, b)
      && Unite(s, a, b) == LockedUnite(s3, a, b, Lo(s, a, b), Hi(s, a, b))
  {
    UniteNoOpIffSameSet(s, a, b);
    UniteShape(s, a, b);
  }

  /**
    When `unite` merges, both nodes end up under the larger of the two old
    roots, every node of the two sets follows, and no other node changes
    set; the forest stays ordered (every parent above its child).
   */
  lemma UniteLinksSets(s: State, a: Id, b: Id)
    requires Valid(s) && a < |s| && b < |s|
    requires Unite(s, a, b).Done? && Unite(s, a, b).value.Linked?
    ensures var t := Unite(s, a, b).value.s;
      && Valid(t) && |t| == |s|
      && Lo(s, a, b) < Hi(s, a, b)
      && Rep(t, a) == Hi(s, a, b) && Rep(t, b) == Hi(s, a, b)
      && forall y :: 0 <= y < |s| ==> Rep(t, y) == if Rep(s, y) == Lo(s, a, b) then Hi(s, a, b) else Rep(s, y)
  {
    UniteLinkedShape(s, a, b);
    var s3 := SetUFStatus(Found(s, a, b), Lo(s, a, b), UFlock);
    LockedUniteLinksSets(s3, a, b, Lo(s, a, b), Hi(s, a, b));
  }

  /** When `unite` merges, the new root's mask is the union of the two old roots' masks and no other mask changes. */
  lemma UniteLinksMasks(s: State, a: Id, b: Id)
    requires Valid(s) && a < |s| && b < |s|
    requires Unite(s, a, b).Done? && Unite(s, a, b).value.Linked?
    ensures var t := Unite(s, a, b).value.s;
      && t[Hi(s, a, b)].workerSet == s[Rep(s, a)].workerSet + s[Rep(s, b)].workerSet
      && forall y :: 0 <= y < |s| && y != Hi(s, a, b) ==> t[y].workerSet == s[y].workerSet
  {
    UniteLinkedShape(s, a, b);
    var s3 := SetUFStatus(Found(s, a, b), Lo(s, a, b), UFlock);
    LockedFrame(s, a, b);
    LockedUniteLinksMasks(s3, a, b, Lo(s, a, b), Hi(s, a, b));
    assert s[Hi(s, a, b)].workerSet + s[Lo(s, a, b)].workerSet == s[Rep(s, a)].workerSet + s[Rep(s, b)].workerSet;
  }

  /** When `unite` merges, every lock it took is released: all statuses are as before the call. */
  lemma UniteLinksStatuses(s: State, a: Id, b: Id)
    requires Valid(s) && a < |s| && b < |s|
    requires Unite(s, a, b).Done? && Unite(s, a, b).value.Linked?
    ensures var t := Unite(s, a, b).value.s;
      forall y :: 0 <= y < |s| ==> t[y].ufStatus == s[y].ufStatus && t[y].listStatus == s[y].listStatus
  {
    UniteLinkedShape(s, a, b);
    var q := Lo(s, a, b);
    var s3 := SetUFStatus(Found(s, a, b), q, UFlock);
    LockedFrame(s, a, b);
    LockedUniteLinksStatuses(s3, a, b, q, Hi(s, a, b));
    var t := Unite(s, a, b).value.s;
    forall y | 0 <= y < |s| ensures t[y].ufStatus == s[y].ufStatus && t[y].listStatus == s[y].listStatus {
      assert s3[y].listStatus == s[y].listStatus;
    }
  }

  /**
    What the rest of `unite` does once `q` is locked, when it abandons the
    union: no set changes, no mask changes, `q` is live again, every list
    status is back to what it was, and other union-find statuses change at
    most from live to dead (the `markDead` inside the walk).
   */
  lemma LockedUniteAbandons(s: State, a: Id, b: Id, q: Id, r: Id)
    requires Valid(s) && a < |s| && b < |s|
    requires q < r < |s| && Rep(s, q) == q && Rep(s, r) == r && s[q].ufStatus == UFlock
    requires LockedUnite(s, a, b, q, r).Done? && LockedUnite(s, a, b, q, r).value.Abandoned?
    ensures var t := LockedUnite(s, a, b, q, r).value.s;
      && SameReps(s, t)
      && (forall y :: 0 <= y < |s| ==> t[y].workerSet == s[y].workerSet)
      && t[q].ufStatus == UFlive
      && (forall y :: 0 <= y < |s| && y != q ==> KeptOrKilled(s[y].ufStatus, t[y].ufStatus))
      && (forall y :: 0 <= y < |s| && y != q && t[y].ufStatus != s[y].ufStatus ==> Rep(s, y) == y)
      && (forall y :: 0 <= y < |s| ==> t[y].listStatus == s[y].listStatus)
  {
    LockListFrame(s, a);
    if LockList(s, a).value.0 < 0 {
      AbandonedAtFirstList(s, a, q);
    } else {
      AbandonedAtSecondList(s, a, b, q);
    }
  }

  /** Abandoning because `a`'s list is dead: only `q`'s lock is released, besides what the walk did. */
  lemma AbandonedAtFirstList(s: State, a: Id, q: Id)
    requires Valid(s) && a < |s| && q < |s| && s[q].ufStatus == UFlock
    requires LockList(s, a).Done? && LockList(s, a).value.0 < 0
    ensures var t := UnlockUF(LockList(s, a).value.1, q);
      && SameReps(s, t)
      && (forall y :: 0 <= y < |s| ==> t[y].workerSet == s[y].workerSet)
      && t[q].ufStatus == UFlive
      && (forall y :: 0 <= y < |s| && y != q ==> KeptOrKilled(s[y].ufStatus, t[y].ufStatus))
      && (forall y :: 0 <= y < |s| && y != q && t[y].ufStatus != s[y].ufStatus ==> Rep(s, y) == y)
      && (forall y :: 0 <= y < |s| ==> t[y].listStatus == s[y].listStatus)
  {
    var s4 := LockList(s, a).value.1;
    LockListForest(s, a);
    LockListDead(s, a);
    var t := UnlockUF(s4, q);
    forall y | 0 <= y < |s| && y != q
      ensures t[y] == s4[y]
      ensures KeptOrKilled(s[y].ufStatus, t[y].ufStatus)
      ensures t[y].ufStatus != s[y].ufStatus ==> Rep(s, y) == y
    {
    }
    forall y | 0 <= y < |s| ensures t[y].listStatus == s[y].listStatus {
      assert t[y].listStatus == s4[y].listStatus;
    }
  }

  /** Abandoning because `b`'s list is dead: the lock on `a`'s list node and on `q` are released. */
  lemma AbandonedAtSecondList(s: State, a: Id, b: Id, q: Id)
    requires Valid(s) && a < |s| && b < |s| && q < |s| && s[q].ufStatus == UFlock
    requires LockList(s, a).Done? && LockList(s, a).value.0 >= 0
    requires LockList(LockList(s, a).value.1, b).Done? && LockList(LockList(s, a).value.1, b).value.0 < 0
    ensures var (la, s4) := LockList(s, a).value;
      var t := UnlockUF(UnlockList(LockList(s4, b).value.1, la), q);
      && SameReps(s, t)
      && (forall y :: 0 <= y < |s| ==> t[y].workerSet == s[y].workerSet)
      && t[q].ufStatus == UFlive
      && (forall y :: 0 <= y < |s| && y != q ==> KeptOrKilled(s[y].ufStatus, t[y].ufStatus))
      && (forall y :: 0 <= y < |s| && y != q && t[y].ufStatus != s[y].ufStatus ==> Rep(s, y) == y)
      && (forall y :: 0 <= y < |s| ==> t[y].listStatus == s[y].listStatus)
  {
    var (la, s4) := LockList(s, a).value;
    LockListForest(s, a);
    LockListPicked(s, a);
    ReleaseAfterDeadList(s4, b, la, q);
    var t := UnlockUF(UnlockList(LockList(s4, b).value.1, la), q);
    SameRepsTrans(s, s4, t);
    forall y | 0 <= y < |s| ensures t[y].workerSet == s[y].workerSet {
      assert t[y].workerSet == s4[y].workerSet;
    }
    forall y | 0 <= y < |s| ensures t[y].listStatus == s[y].listStatus {
      assert t[y].listStatus == if y == la then listLive else s4[y].listStatus;
    }
    forall y | 0 <= y < |s| && y != q
      ensures KeptOrKilled(s[y].ufStatus, t[y].ufStatus)
      ensures t[y].ufStatus != s[y].ufStatus ==> Rep(s, y) == y
    {
      assert s4[y].ufStatus == s[y].ufStatus && Rep(s4, y) == Rep(s, y);
    }
  }

  /** Releasing the list slot `la` and the root `q` after `b`'s list proved dead. */
  lemma ReleaseAfterDeadList(s: State, b: Id, la: Id, q: Id)
    requires Valid(s) && b < |s| && la < |s| && q < |s|
    requires LockList(s, b).Done? && LockList(s, b).value.0 < 0
    ensures var t := UnlockUF(UnlockList(LockList(s, b).value.1, la), q);
      && Valid(t) && |t| == |s| && SameReps(s, t)
      && (forall y :: 0 <= y < |s| ==> t[y].workerSet == s[y].workerSet)
      && t[q].ufStatus == UFlive
      && (forall y :: 0 <= y < |s| && y != q ==> KeptOrKilled(s[y].ufStatus, t[y].ufStatus))
      && (forall y :: 0 <= y < |s| && y != q && t[y].ufStatus != s[y].ufStatus ==> Rep(s, y) == y)
      && (forall y :: 0 <= y < |s| ==> t[y].listStatus == if y == la then listLive else s[y].listStatus)
  {
    var s5 := LockList(s, b).value.1;
    LockListForest(s, b);
    LockListDead(s, b);
    var s6 := UnlockList(s5, la);
    var t := UnlockUF(s6, q);
    SameRepsTrans(s, s5, s6);
    SameRepsTrans(s, s6, t);
    forall y | 0 <= y < |s| ensures t[y].listStatus == s6[y].listStatus {
    }
    forall y | 0 <= y < |s| && y != q ensures t[y].ufStatus == s5[y].ufStatus {
      assert s6[y].ufStatus == s5[y].ufStatus;
    }
  }

  /**
    When `unite` abandons the union because a list was dead, no set and no
    mask changes and every status is back to what it was, except that a
    root may have gone from live to dead.
   */
  lemma UniteAbandons(s: State, a: Id, b: Id)
    requires Valid(s) && a < |s| && b < |s|
    requires Unite(s, a, b).Done? && Unite(s, a, b).value.Abandoned?
    ensures var t := Unite(s, a, b).value.s;
      && Valid(t) && |t| == |s| && SameReps(s, t)
      && (forall y :: 0 <= y < |s| ==> t[y].workerSet == s[y].workerSet)
      && (forall y :: 0 <= y < |s| ==> KeptOrKilled(s[y].ufStatus, t[y].ufStatus))
      && (forall y :: 0 <= y < |s| && t[y].ufStatus != s[y].ufStatus ==> s[y].parent == 0)
      && (forall y :: 0 <= y < |s| ==> t[y].listStatus == s[y].listStatus)
  {
    UniteNoOpIffSameSet(s, a, b);
    UniteShape(s, a, b);
    var q := Lo(s, a, b);
    assert s[q].ufStatus == UFlive;
    var s3 := SetUFStatus(Found(s, a, b), q, UFlock);
    LockedFrame(s, a, b);
    LockedUniteAbandons(s3, a, b, q, Hi(s, a, b));
    var t := Unite(s, a, b).value.s;
    assert t == LockedUnite(s3, a, b, q, Hi(s, a, b)).value.s;
    forall y | 0 <= y < |s| ensures Rep(t, y) == Rep(s, y) {
      assert Rep(t, y) == Rep(s3, y);
    }
    forall y | 0 <= y < |s| ensures t[y].workerSet == s[y].workerSet && t[y].listStatus == s[y].listStatus {
      assert t[y].workerSet == s3[y].workerSet && t[y].listStatus == s3[y].listStatus;
    }
    forall y | 0 <= y < |s|
      ensures KeptOrKilled(s[y].ufStatus, t[y].ufStatus)
      ensures t[y].ufStatus != s[y].ufStatus ==> s[y].parent == 0
    {
      if y != q {
        assert s3[y].ufStatus == s[y].ufStatus && Rep(s3, y) == Rep(s, y);
      }
    }
  }

  /*************** the lists and the hazard ***************/

  /** The state in which `unite` splices when both arguments are live: the smaller root and both arguments locked. */
  function HeadsLocked(s: State, a: Id, b: Id): (t: State)
    requires Valid(s) && a < |s| && b < |s|
    ensures Valid(t) && |t| == |s| && SameReps(s, t)
  {
    var s3 := SetUFStatus(Found(s, a, b), Lo(s, a, b), UFlock);
    var s4 := SetListStatus(s3, a, listLock);
    var t := SetListStatus(s4, b, listLock);
    SameRepsTrans(s, s3, s4);
    SameRepsTrans(s, s4, t);
    t
  }

  lemma SameRepsTrans(s: State, t: State, u: State)
    requires Valid(s) && Valid(t) && Valid(u) && |t| == |s| && |u| == |s|
    requires SameReps(s, t) && SameReps(t, u)
    ensures SameReps(s, u)
  {
  }

  /** With both arguments live, the list locks pick the arguments themselves and no list successor changes before the splice. */
  lemma UniteAtLiveHeads(s: State, a: Id, b: Id)
    requires Valid(s) && a < |s| && b < |s| && a != b
    requires s[a].listStatus == listLive && s[b].listStatus == listLive
    requires Rep(s, a) != Rep(s, b) && s[Lo(s, a, b)].ufStatus == UFlive
    ensures Lo(s, a, b) < Hi(s, a, b) < |s|
    ensures HeadsLocked(s, a, b)[Lo(s, a, b)].parent == 0 && HeadsLocked(s, a, b)[Hi(s, a, b)].parent == 0
    ensures Unite(s, a, b) == Done(Linked(Merge(HeadsLocked(s, a, b), Lo(s, a, b), Hi(s, a, b), a, b), a, b))
    ensures forall y :: 0 <= y < |s| ==> HeadsLocked(s, a, b)[y].listNext == s[y].listNext
  {
    var q, r := Lo(s, a, b), Hi(s, a, b);
    UniteShape(s, a, b);
    var s3 := SetUFStatus(Found(s, a, b), q, UFlock);
    HeadsLockedFrame(s, a, b);
    LockedUniteAtLiveHeads(s3, a, b, q, r);
  }

  /** The state `unite` reaches with both list heads locked keeps the roots and the list links. */
  lemma HeadsLockedFrame(s: State, a: Id, b: Id)
    requires Valid(s) && a < |s| && b < |s| && Rep(s, a) != Rep(s, b)
    ensures var s3 := SetUFStatus(Found(s, a, b), Lo(s, a, b), UFlock);
      && Rep(s3, Lo(s, a, b)) == Lo(s, a, b) && Rep(s3, Hi(s, a, b)) == Hi(s, a, b)
      && HeadsLocked(s, a, b) == SetListStatus(SetListStatus(s3, a, listLock), b, listLock)
    ensures HeadsLocked(s, a, b)[Lo(s, a, b)].parent == 0 && HeadsLocked(s, a, b)[Hi(s, a, b)].parent == 0
    ensures forall y :: 0 <= y < |s| ==> HeadsLocked(s, a, b)[y].listNext == s[y].listNext
  {
    var q, r := Lo(s, a, b), Hi(s, a, b);
    var s2 := Found(s, a, b);
    var s3 := SetUFStatus(s2, q, UFlock);
    var s4 := SetListStatus(s3, a, listLock);
    var t := SetListStatus(s4, b, listLock);
    assert HeadsLocked(s, a, b) == t;
    assert Rep(s3, q) == q && Rep(s3, r) == r;
    assert Rep(t, q) == q && Rep(t, r) == r;
    forall y | 0 <= y < |s| ensures t[y].listNext == s[y].listNext {
      assert s2[y].listNext == s[y].listNext;
      assert s3[y].listNext == s2[y].listNext;
      ListStatusKeepsNext(s3, a, listLock, y);
      ListStatusKeepsNext(s4, b, listLock, y);
    }
  }

  /** Setting a list status keeps every successor. */
  lemma ListStatusKeepsNext(s: State, x: Id, st: ListStatus, y: Id)
    requires Valid(s) && x < |s| && y < |s|
    ensures SetListStatus(s, x, st)[y].listNext == s[y].listNext
  {
  }

  lemma LockedUniteAtLiveHeads(s: State, a: Id, b: Id, q: Id, r: Id)
    requires Valid(s) && a < |s| && b < |s| && a != b
    requires q < r < |s| && Rep(s, q) == q && Rep(s, r) == r
    requires s[a].listStatus == listLive && s[b].listStatus == listLive
    ensures var s5 := SetListStatus(SetListStatus(s, a, listLock), b, listLock);
      && s5[q].parent == 0 && s5[r].parent == 0
      && LockedUnite(s, a, b, q, r) == Done(Linked(Merge(s5, q, r, a, b), a, b))
  {
    UnlockListUndoesLock(s, a);
    var s4 := SetListStatus(s, a, listLock);
    assert s4[b].listStatus == listLive;
    UnlockListUndoesLock(s4, b);
  }

  /**
    When both arguments are live heads of two disjoint lists and the
    smaller root is free, `unite` merges at exactly those two nodes and the
    two lists become one, holding the members of both.
   */
  lemma UniteJoinsLists(s: State, a: Id, b: Id, la: seq<Id>, lb: seq<Id>)
    requires Valid(s) && a < |s| && b < |s|
    requires IsCycle(s, la) && IsCycle(s, lb) && la[0] == a && lb[0] == b
    requires forall i, j :: 0 <= i < |la| && 0 <= j < |lb| ==> la[i] != lb[j]
    requires s[a].listStatus == listLive && s[b].listStatus == listLive
    requires Rep(s, a) != Rep(s, b) && s[Lo(s, a, b)].ufStatus == UFlive
    ensures Unite(s, a, b).Done? && Unite(s, a, b).value.Linked?
    ensures Unite(s, a, b).value.la == a && Unite(s, a, b).value.lb == b
    ensures IsCycle(Unite(s, a, b).value.s, Joined(la, lb))
    ensures multiset(Joined(la, lb)) == multiset(la) + multiset(lb)
  {
    UniteAtLiveHeads(s, a, b);
    var lo, hi := Lo(s, a, b), Hi(s, a, b);
    var s5 := HeadsLocked(s, a, b);
    CycleDependsOnSuccessors(s, s5, la);
    CycleDependsOnSuccessors(s, s5, lb);
    SpliceJoinsCycles(s5, la, lb);
    MergeLists(s5, lo, hi, a, b);
    CycleDependsOnSuccessors(Splice(s5, a, b), Merge(s5, lo, hi, a, b), Joined(la, lb));
  }

  /**
    The self-deadlock of `unite`: once it holds the lock on the smaller
    root, a list lock on a node whose list is a lone tombstone calls
    `markDead` on that same root, which waits for the lock forever.
   */
  lemma UniteWaitsOnItsOwnLock(s: State, a: Id, b: Id)
    requires Valid(s) && a < |s| && b < |s|
    requires Rep(s, a) < Rep(s, b) && s[Rep(s, a)].ufStatus == UFlive
    requires s[a].listStatus == listTomb && (s[a].listNext == a || s[a].listNext == 0)
    ensures Unite(s, a, b) == Spins(Rep(s, a))
  {
    UniteShape(s, a, b);
    LockedFrame(s, a, b);
    var q := Lo(s, a, b);
    var s3 := SetUFStatus(Found(s, a, b), q, UFlock);
    assert s3[a].listNext == s[a].listNext && s3[a].listStatus == listTomb;
    assert Rep(s3, a) == q && s3[q].ufStatus == UFlock;
    WalkWaitsAtSelfLoop(s3, a, |s3|);
    assert Unite(s, a, b) == LockedUnite(s3, a, b, q, Hi(s, a, b));
  }

  /** Two graph nodes, the first a lone tombstone: `markDead` alone finishes, `unite` of the two never does. */
  lemma UniteDeadlockExample()
    ensures var s := [Fresh(), Fresh().(listStatus := listTomb), Fresh()];
      && Valid(s)
      && MarkDeadReady(s, 1) && MarkDead(s, 1).0
      && Unite(s, 1, 2) == Spins(1)
  {
    var s := [Fresh(), Fresh().(listStatus := listTomb), Fresh()];
    UniteWaitsOnItsOwnLock(s, 1, 2);
  }
}
