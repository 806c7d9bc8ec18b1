/**
  The invariant that ties the cyclic membership lists to the union-find
  sets. Following `Succ` from a graph node never leaves its set. A node
  whose successor is written points at a node whose successor is written,
  so a list walk never steps from a graph node onto the sentinel 0.

  The invariant speaks about successors, not about disjoint cycles: the
  compaction in `pickFromList` rewrites only the first of two tombstones
  (UF.java:211-214), so the bypassed tombstone still points into the cycle
  and the literal "the lists are disjoint cycles" form does not survive a
  walk. Each successor still points inside its own set, and that is what is
  kept here, one operation at a time.
 */
module ListInvariant {
  import opened UFNodes
  import opened Forest
  import opened Claims
  import opened Lists
  import opened Unite

  /** Every graph node's successor lies in the node's own set. */
  ghost predicate SuccInSet(s: State)
    requires Valid(s)
  {
    forall x :: 0 < x < |s| ==> Rep(s, Succ(s, x)) == Rep(s, x)
  }

  /** A written successor of a graph node is a node whose own successor is written. */
  ghost predicate NoStepToZero(s: State)
    requires Valid(s)
  {
    forall x :: 0 < x < |s| && s[x].listNext != 0 ==> s[s[x].listNext].listNext != 0
  }

  ghost predicate ListsFollowSets(s: State)
    requires Valid(s)
  {
    SuccInSet(s) && NoStepToZero(s)
  }

  /** The initial state satisfies the invariant: every node is a one-node list in its own set. */
  lemma InitEstablishesLists(n: nat)
    ensures Valid(Init(n)) && ListsFollowSets(Init(n))
  {
    InitIsForestOfSingletons(n);
  }

  /** The invariant depends only on representatives and successors. */
  lemma ListsTransfer(s: State, t: State)
    requires Valid(s) && Valid(t) && |t| == |s| && SameReps(s, t)
    requires forall y :: 0 <= y < |s| ==> t[y].listNext == s[y].listNext
    requires ListsFollowSets(s)
    ensures ListsFollowSets(t)
  {
    forall x | 0 < x < |s| ensures Rep(t, Succ(t, x)) == Rep(t, x) {
      assert Succ(t, x) == Succ(s, x);
    }
  }

  /** Under the invariant a list never leaves its set: every node reached from a graph node has that node's representative. */
  lemma {:induction false} FollowStaysInSet(s: State, x: Id, k: nat)
    requires Valid(s) && 0 < x < |s| && ListsFollowSets(s)
    ensures 0 < Follow(s, x, k) && Rep(s, Follow(s, x, k)) == Rep(s, x)
  {
    if k > 0 {
      FollowStaysInSet(s, x, k - 1);
    }
  }

  /** The members of a cycle of lists all share one set. */
  lemma {:induction false} CycleInOneSet(s: State, c: seq<Id>, i: nat)
    requires Valid(s) && IsCycle(s, c) && ListsFollowSets(s) && i < |c|
    ensures Rep(s, c[i]) == Rep(s, c[0])
  {
    if i > 0 {
      CycleInOneSet(s, c, i - 1);
    }
  }

  /** Under the invariant, the cycles of two different sets share no node. */
  lemma CyclesOfDifferentSetsAreDisjoint(s: State, la: seq<Id>, lb: seq<Id>)
    requires Valid(s) && ListsFollowSets(s) && IsCycle(s, la) && IsCycle(s, lb)
    requires Rep(s, la[0]) != Rep(s, lb[0])
    ensures forall i, j :: 0 <= i < |la| && 0 <= j < |lb| ==> la[i] != lb[j]
  {
    forall i, j | 0 <= i < |la| && 0 <= j < |lb| ensures la[i] != lb[j] {
      CycleInOneSet(s, la, i);
      CycleInOneSet(s, lb, j);
    }
  }

  /** The walk's bypass at `a` rewrites `a`'s successor to its successor's successor and nothing else. */
  lemma BypassShape(s: State, a: Id)
    requires Valid(s) && a < |s|
    ensures Bypass(s, a) == s[a := s[a].(listNext := s[s[a].listNext].listNext)]
    ensures SameReps(s, Bypass(s, a))
  {
    assert Iter(s, a, 1) == s[a].listNext;
    SameParentsSameReps(s, Bypass(s, a));
  }

  /**
    One compaction step of the walk keeps the invariant, and the node the
    walk moves to is a graph node of the same set.
   */
  lemma BypassKeepsLists(s: State, a: Id)
    requires Valid(s) && 0 < a < |s| && ListsFollowSets(s)
    requires s[a].listNext != 0 && s[a].listNext != a
    ensures s[s[a].listNext].listNext != 0
    ensures Rep(s, s[s[a].listNext].listNext) == Rep(s, a)
    ensures SameReps(s, Bypass(s, a)) && ListsFollowSets(Bypass(s, a))
  {
    var b := s[a].listNext;
    assert Succ(s, a) == b;
    assert Succ(s, b) == s[b].listNext;
    BypassShape(s, a);
    BypassSuccInSet(s, a);
    BypassNoStepToZero(s, a);
  }

  lemma BypassSuccInSet(s: State, a: Id)
    requires Valid(s) && 0 < a < |s| && SuccInSet(s) && NoStepToZero(s)
    requires s[a].listNext != 0 && s[a].listNext != a
    ensures SuccInSet(Bypass(s, a))
  {
    var s1 := Bypass(s, a);
    BypassShape(s, a);
    var b := s[a].listNext;
    var c := s[b].listNext;
    assert Succ(s, a) == b && Succ(s, b) == c;
    assert Succ(s1, a) == c;
    forall x | 0 < x < |s| ensures Rep(s1, Succ(s1, x)) == Rep(s1, x) {
      if x != a {
        assert s1[x] == s[x];
        assert Succ(s1, x) == Succ(s, x);
      }
    }
  }

  lemma BypassNoStepToZero(s: State, a: Id)
    requires Valid(s) && 0 < a < |s| && NoStepToZero(s)
    requires s[a].listNext != 0 && s[a].listNext != a
    ensures NoStepToZero(Bypass(s, a))
  {
    var s1 := Bypass(s, a);
    BypassShape(s, a);
    forall x | 0 < x < |s| && s1[x].listNext != 0 ensures s1[s1[x].listNext].listNext != 0 {
      if x != a {
        assert s1[x] == s[x];
      }
    }
  }

  /**
    The walk of `pickFromList` keeps the invariant, and the node it stops
    at, picked or found dead, is a graph node of the start's set.
   */
  lemma {:induction false} WalkKeepsLists(s: State, a: Id, fuel: nat)
    requires Valid(s) && 0 < a < |s| && ListsFollowSets(s)
    requires Walk(s, a, fuel).Done?
    ensures ListsFollowSets(Walk(s, a, fuel).value.s)
    ensures var p := Walk(s, a, fuel).value;
      0 < p.stop && Rep(s, p.stop) == Rep(s, a)
    decreases fuel
  {
    var b := s[a].listNext;
    if s[a].listStatus == listLive {
    } else if a == b || b == 0 {
      ListsTransfer(s, MarkDead(s, a).1);
    } else if s[b].listStatus == listLive {
      assert Succ(s, a) == b;
    } else {
      var c := s[b].listNext;
      var s1 := Bypass(s, a);
      BypassKeepsLists(s, a);
      assert Iter(s, a, 2) == c by {
        assert Iter(s, a, 1) == b;
      }
      WalkPastTombs(s, a, fuel);
      WalkKeepsLists(s1, c, fuel - 1);
    }
  }

  /** `lockList` on a graph node keeps the invariant and locks a node of that node's set. */
  lemma LockListKeepsLists(s: State, a: Id)
    requires Valid(s) && 0 < a < |s| && ListsFollowSets(s)
    requires LockList(s, a).Done?
    ensures ListsFollowSets(LockList(s, a).value.1)
    ensures var la := LockList(s, a).value.0;
      la >= 0 ==> 0 < la < |s| && Rep(s, la) == Rep(s, a)
  {
    var p := Walk(s, a, |s|).value;
    WalkKeepsLists(s, a, |s|);
    if p.status == pickSuccess {
      ListsTransfer(p.s, SetListStatus(p.s, p.stop, listLock));
    }
  }

  /** `markDead` keeps the invariant. */
  lemma MarkDeadKeepsLists(s: State, a: Id)
    requires Valid(s) && a < |s| && MarkDeadReady(s, a) && ListsFollowSets(s)
    ensures ListsFollowSets(MarkDead(s, a).1)
  {
    ListsTransfer(s, MarkDead(s, a).1);
  }

  /** `removeFromList` keeps the invariant. */
  lemma RemoveKeepsLists(s: State, a: Id)
    requires Valid(s) && a < |s| && s[a].listStatus != listLock && ListsFollowSets(s)
    ensures ListsFollowSets(RemoveFromList(s, a).1)
  {
    ListsTransfer(s, RemoveFromList(s, a).1);
  }

  /** The splice of two distinct nodes exchanges their successors and touches nothing else. */
  lemma SpliceShape(s: State, la: Id, lb: Id)
    requires Valid(s) && la < |s| && lb < |s| && la != lb
    ensures Splice(s, la, lb)
      == s[la := s[la].(listNext := Succ(s, lb))][lb := s[lb].(listNext := Succ(s, la))]
  {
  }

  /** Splicing two graph nodes keeps written successors pointing at written successors. */
  lemma SpliceNoStepToZero(s: State, la: Id, lb: Id)
    requires Valid(s) && 0 < la < |s| && 0 < lb < |s| && la != lb && NoStepToZero(s)
    ensures NoStepToZero(Splice(s, la, lb))
  {
    var s1 := Splice(s, la, lb);
    SpliceShape(s, la, lb);
    forall x | 0 < x < |s| && s1[x].listNext != 0 ensures s1[s1[x].listNext].listNext != 0 {
      var y := s1[x].listNext;
      if y != la && y != lb {
        assert s1[y] == s[y];
        if x == la {
          assert y == s[lb].listNext;
        } else if x == lb {
          assert y == s[la].listNext;
        } else {
          assert s1[x] == s[x];
        }
      }
    }
  }

  /**
    Splicing two list nodes of the sets of roots `q` and `r`, then linking
    `q` under `r`, keeps every successor inside its set.
   */
  lemma SpliceLinkSuccInSet(s: State, q: Id, r: Id, la: Id, lb: Id)
    requires Valid(s) && q < r < |s| && s[q].parent == 0 && s[r].parent == 0
    requires 0 < la < |s| && 0 < lb < |s| && la != lb
    requires (Rep(s, la) == q || Rep(s, la) == r) && (Rep(s, lb) == q || Rep(s, lb) == r)
    requires SuccInSet(s)
    ensures SuccInSet(Link(Splice(s, la, lb), q, r))
  {
    forall x | 0 < x < |s|
      ensures Rep(Link(Splice(s, la, lb), q, r), Succ(Link(Splice(s, la, lb), q, r), x))
           == Rep(Link(Splice(s, la, lb), q, r), x)
    {
      SpliceLinkSuccAt(s, q, r, la, lb, x);
    }
  }

  lemma SpliceLinkSuccAt(s: State, q: Id, r: Id, la: Id, lb: Id, x: Id)
    requires Valid(s) && q < r < |s| && s[q].parent == 0 && s[r].parent == 0
    requires 0 < la < |s| && 0 < lb < |s| && la != lb && 0 < x < |s|
    requires (Rep(s, la) == q || Rep(s, la) == r) && (Rep(s, lb) == q || Rep(s, lb) == r)
    requires SuccInSet(s)
    ensures var s2 := Link(Splice(s, la, lb), q, r);
      Rep(s2, Succ(s2, x)) == Rep(s2, x)
  {
    var s1 := Splice(s, la, lb);
    var u := Succ(s1, x);
    SpliceSuccAtInSets(s, q, r, la, lb, x);
    assert s1[q].parent == 0 && s1[r].parent == 0;
    var s2 := Link(s1, q, r);
    assert s2[x].listNext == s1[x].listNext;
    assert Succ(s2, x) == u;
    assert Rep(s1, u) == Rep(s, u) && Rep(s1, x) == Rep(s, x);
  }

  /** After the splice a successor stays in its node's set, or both lie in the two sets about to be linked. */
  lemma SpliceSuccAtInSets(s: State, q: Id, r: Id, la: Id, lb: Id, x: Id)
    requires Valid(s) && 0 < la < |s| && 0 < lb < |s| && la != lb && 0 < x < |s|
    requires (Rep(s, la) == q || Rep(s, la) == r) && (Rep(s, lb) == q || Rep(s, lb) == r)
    requires SuccInSet(s)
    ensures var u := Succ(Splice(s, la, lb), x);
      || Rep(s, u) == Rep(s, x)
      || ((Rep(s, u) == q || Rep(s, u) == r) && (Rep(s, x) == q || Rep(s, x) == r))
  {
    var s1 := Splice(s, la, lb);
    var u := Succ(s1, x);
    if x == la {
      assert u == Succ(s, lb);
      assert Rep(s, u) == Rep(s, lb);
    } else if x == lb {
      assert u == Succ(s, la);
      assert Rep(s, u) == Rep(s, la);
    } else {
      assert s1[x] == s[x];
      assert u == Succ(s, x);
    }
  }

  /** Everything `Merge` does after the link changes neither a representative nor a successor. */
  lemma MergeAfterLink(s: State, q: Id, r: Id, la: Id, lb: Id)
    requires Valid(s) && q < r < |s| && s[q].parent == 0 && s[r].parent == 0
    requires la < |s| && lb < |s|
    ensures var s2 := Link(Splice(s, la, lb), q, r);
      var t := Merge(s, q, r, la, lb);
      && SameReps(s2, t)
      && forall y :: 0 <= y < |s| ==> t[y].listNext == s2[y].listNext
  {
    var s2 := Link(Splice(s, la, lb), q, r);
    var s3 := MergeWorkers(s2, q, r);
    var s4 := SetListStatus(s3, la, listLive);
    var s5 := SetListStatus(s4, lb, listLive);
    var t := SetUFStatus(s5, q, UFlive);
    assert t == Merge(s, q, r, la, lb);
    forall y | 0 <= y < |s| ensures t[y].listNext == s2[y].listNext {
      assert s3[y].listNext == s2[y].listNext;
      assert s4[y].listNext == s3[y].listNext;
      assert s5[y].listNext == s4[y].listNext;
    }
    forall y | 0 <= y < |s| ensures Rep(t, y) == Rep(s2, y) {
      assert Rep(s3, y) == Rep(s2, y);
      assert Rep(s4, y) == Rep(s3, y);
      assert Rep(s5, y) == Rep(s4, y);
    }
  }

  /** The merge of `unite` keeps the invariant. */
  lemma MergeKeepsLists(s: State, q: Id, r: Id, la: Id, lb: Id)
    requires Valid(s) && q < r < |s| && s[q].parent == 0 && s[r].parent == 0
    requires 0 < la < |s| && 0 < lb < |s| && la != lb
    requires (Rep(s, la) == q || Rep(s, la) == r) && (Rep(s, lb) == q || Rep(s, lb) == r)
    requires ListsFollowSets(s)
    ensures ListsFollowSets(Merge(s, q, r, la, lb))
  {
    var s1 := Splice(s, la, lb);
    var s2 := Link(s1, q, r);
    SpliceLinkSuccInSet(s, q, r, la, lb);
    SpliceNoStepToZero(s, la, lb);
    LinkNoStepToZero(s1, q, r);
    MergeAfterLink(s, q, r, la, lb);
    ListsTransfer(s2, Merge(s, q, r, la, lb));
  }

  /** Linking changes no successor. */
  lemma LinkNoStepToZero(s: State, q: Id, r: Id)
    requires Valid(s) && q < r < |s| && s[q].parent == 0 && s[r].parent == 0 && NoStepToZero(s)
    ensures NoStepToZero(Link(s, q, r))
  {
    var t := Link(s, q, r);
    forall x | 0 <= x < |s| ensures t[x].listNext == s[x].listNext {
    }
  }

  /** A `unite` abandoned at either list keeps the invariant. */
  lemma AbandonedKeepsLists(s: State, a: Id, b: Id, q: Id, r: Id)
    requires Valid(s) && 0 < a < |s| && 0 < b < |s|
    requires q < r < |s| && Rep(s, q) == q && Rep(s, r) == r
    requires ListsFollowSets(s)
    requires LockedUnite(s, a, b, q, r).Done? && LockedUnite(s, a, b, q, r).value.Abandoned?
    ensures ListsFollowSets(LockedUnite(s, a, b, q, r).value.s)
  {
    var (la, s4) := LockList(s, a).value;
    LockListKeepsLists(s, a);
    if la < 0 {
      UnlockKeepsLists(s4, q, 0);
    } else {
      LockListKeepsLists(s4, b);
      UnlockKeepsLists(LockList(s4, b).value.1, q, la);
    }
  }

  /** Releasing the root lock, alone or after a list slot, keeps the invariant. */
  lemma UnlockKeepsLists(s: State, q: Id, la: Id)
    requires Valid(s) && q < |s| && la < |s| && ListsFollowSets(s)
    ensures ListsFollowSets(UnlockUF(s, q)) && ListsFollowSets(UnlockUF(UnlockList(s, la), q))
  {
    var s6 := UnlockList(s, la);
    ListsTransfer(s, UnlockUF(s, q));
    ListsTransfer(s, s6);
    ListsTransfer(s6, UnlockUF(s6, q));
  }

  /** A `unite` that links keeps the invariant: the two locked list nodes lie in the two sets being joined. */
  lemma LinkedKeepsLists(s: State, a: Id, b: Id, q: Id, r: Id)
    requires Valid(s) && 0 < a < |s| && 0 < b < |s|
    requires q < r < |s| && Rep(s, q) == q && Rep(s, r) == r
    requires (Rep(s, a) == q || Rep(s, a) == r) && (Rep(s, b) == q || Rep(s, b) == r)
    requires ListsFollowSets(s)
    requires LockedUnite(s, a, b, q, r).Done? && LockedUnite(s, a, b, q, r).value.Linked?
    ensures ListsFollowSets(LockedUnite(s, a, b, q, r).value.s)
  {
    LockedUniteLinkedShape(s, a, b, q, r);
    var (la, s4) := LockList(s, a).value;
    var (lb, s5) := LockList(s4, b).value;
    LockListKeepsLists(s, a);
    LockListForest(s, a);
    LockListKeepsLists(s4, b);
    LockListPicked(s4, b);
    assert la != lb by {
      assert s4[la].listStatus == listLock && s4[lb].listStatus == listLive;
    }
    assert Rep(s5, la) == Rep(s4, la) == Rep(s, a);
    assert Rep(s5, lb) == Rep(s4, b) == Rep(s, b);
    assert s5[q].parent == 0 && s5[r].parent == 0;
    MergeKeepsLists(s5, q, r, la, lb);
  }

  /** From the root lock on, `unite` of two graph nodes keeps the invariant, whichever way it ends. */
  lemma LockedUniteKeepsLists(s: State, a: Id, b: Id, q: Id, r: Id)
    requires Valid(s) && 0 < a < |s| && 0 < b < |s|
    requires q < r < |s| && Rep(s, q) == q && Rep(s, r) == r
    requires (Rep(s, a) == q || Rep(s, a) == r) && (Rep(s, b) == q || Rep(s, b) == r)
    requires ListsFollowSets(s)
    requires LockedUnite(s, a, b, q, r).Done?
    ensures ListsFollowSets(LockedUnite(s, a, b, q, r).value.s)
  {
    LockedUniteNeverSame(s, a, b, q, r);
    if LockedUnite(s, a, b, q, r).value.Linked? {
      LinkedKeepsLists(s, a, b, q, r);
    } else {
      AbandonedKeepsLists(s, a, b, q, r);
    }
  }

  /** `unite` of two graph nodes keeps the invariant, whichever way it ends. */
  lemma UniteKeepsLists(s: State, a: Id, b: Id)
    requires Valid(s) && 0 < a < |s| && 0 < b < |s| && ListsFollowSets(s)
    requires Unite.Unite(s, a, b).Done?
    ensures ListsFollowSets(Unite.Unite(s, a, b).value.s)
  {
    if Rep(s, a) == Rep(s, b) {
      UniteSameKeepsLists(s, a, b);
    } else {
      UniteShape(s, a, b);
      var q, r := Lo(s, a, b), Hi(s, a, b);
      var s3 := SetUFStatus(Found(s, a, b), q, UFlock);
      RootLockedKeepsLists(s, a, b);
      LockedUniteKeepsLists(s3, a, b, q, r);
    }
  }

  /** Resolving both roots and taking the lock of the smaller keeps the invariant and every representative. */
  lemma RootLockedKeepsLists(s: State, a: Id, b: Id)
    requires Valid(s) && a < |s| && b < |s| && ListsFollowSets(s)
    ensures var s3 := SetUFStatus(Found(s, a, b), Lo(s, a, b), UFlock);
      && ListsFollowSets(s3) && Rep(s3, a) == Rep(s, a) && Rep(s3, b) == Rep(s, b)
      && Rep(s3, Lo(s, a, b)) == Lo(s, a, b) && Rep(s3, Hi(s, a, b)) == Hi(s, a, b)
  {
    var s2 := Found(s, a, b);
    var s3 := SetUFStatus(s2, Lo(s, a, b), UFlock);
    ListsTransfer(s, s2);
    ListsTransfer(s2, s3);
  }

  /** A `unite` within one set only compresses paths and so keeps the invariant. */
  lemma UniteSameKeepsLists(s: State, a: Id, b: Id)
    requires Valid(s) && a < |s| && b < |s| && ListsFollowSets(s) && Rep(s, a) == Rep(s, b)
    ensures Unite.Unite(s, a, b).Done? && ListsFollowSets(Unite.Unite(s, a, b).value.s)
  {
    UniteNoOpIffSameSet(s, a, b);
    ListsTransfer(s, Unite.Unite(s, a, b).value.s);
  }

  /**
    The self-deadlock of `unite` in general: whenever `lockList` on `a`
    alone would find `a`'s list dead and `a`'s root is the smaller, live
    root, `unite(a, b)` holds that root's lock when the walk reaches
    `markDead` on it, and waits forever.
   */
  lemma UniteWaitsOnDeadList(s: State, a: Id, b: Id)
    requires Valid(s) && 0 < a < |s| && b < |s| && ListsFollowSets(s)
    requires Rep(s, a) < Rep(s, b) && s[Rep(s, a)].ufStatus == UFlive
    requires PickFromList(s, a).Done? && PickFromList(s, a).value.status == pickDead
    ensures Unite.Unite(s, a, b) == Spins(Rep(s, a))
  {
    UniteShape(s, a, b);
    var q := Lo(s, a, b);
    var s2 := Found(s, a, b);
    var s3 := SetUFStatus(s2, q, UFlock);
    LockedFrame(s, a, b);
    forall y | 0 <= y < |s| ensures s3[y].listNext == s[y].listNext && s3[y].listStatus == s[y].listStatus {
      assert s2[y].listNext == s[y].listNext;
    }
    WalkKeepsLists(s, a, |s|);
    assert Rep(s3, PickFromList(s, a).value.stop) == q;
    WalkWaitsAtLockedRoot(s, s3, a, |s|);
    assert LockList(s3, a) == Spins(q);
  }

  /**
    Under the invariant the lists of two different sets are disjoint, so
    `unite` at two live list heads joins their cycles into one.
   */
  lemma UniteJoinsListsOfSets(s: State, a: Id, b: Id, la: seq<Id>, lb: seq<Id>)
    requires Valid(s) && a < |s| && b < |s| && ListsFollowSets(s)
    requires IsCycle(s, la) && IsCycle(s, lb) && la[0] == a && lb[0] == b
    requires s[a].listStatus == listLive && s[b].listStatus == listLive
    requires Rep(s, a) != Rep(s, b) && s[Lo(s, a, b)].ufStatus == UFlive
    ensures Unite.Unite(s, a, b).Done? && Unite.Unite(s, a, b).value.Linked?
    ensures IsCycle(Unite.Unite(s, a, b).value.s, Joined(la, lb))
    ensures multiset(Joined(la, lb)) == multiset(la) + multiset(lb)
  {
    CyclesOfDifferentSetsAreDisjoint(s, la, lb);
    UniteJoinsLists(s, a, b, la, lb);
  }
}
