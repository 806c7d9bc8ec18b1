/**
  The cyclic membership lists threaded through `listNext`: picking a live
  member while compacting past tombstoned ones, the list slot lock,
  tombstoning, and the O(1) splice that `unite` uses to merge two lists.
 */
module Lists {
  import opened UFNodes
  import opened Forest
  import opened Claims

  /** Result of `pickFromList`. */
  datatype PickStatus = pickSuccess | pickDead

  /**
    What a call that can busy-wait does in a sequential execution: it
    returns a value, or it spins forever at node `at` (a slot that nobody
    else can release), or, for the list walk only, it needs more rounds
    than the bound the model allows.
   */
  datatype Run<T> = Done(value: T) | Spins(at: Id) | Exhausted

  /**
    A pick: the status and node id the source returns (-1 when dead), the
    state afterwards, and the node at which the walk stopped.
   */
  datatype Picked = Picked(status: PickStatus, node: int, s: State, stop: Id)

  /*************** raw successor chains ***************/

  /** The node reached from `x` after `k` steps along `listNext`, taken literally. */
  function Iter(s: State, x: Id, k: nat): (y: Id)
    requires Valid(s) && x < |s|
    ensures y < |s|
  {
    if k == 0 then x else s[Iter(s, x, k - 1)].listNext
  }

  ghost predicate Reaches(s: State, x: Id, y: Id)
    requires Valid(s) && x < |s|
  {
    exists k: nat :: Iter(s, x, k) == y
  }

  lemma {:induction false} IterAdd(s: State, x: Id, m: nat, n: nat)
    requires Valid(s) && x < |s|
    ensures Iter(s, x, m + n) == Iter(s, Iter(s, x, m), n)
  {
    if n > 0 {
      IterAdd(s, x, m, n - 1);
    }
  }

  lemma ReachesTrans(s: State, x: Id, y: Id, z: Id)
    requires Valid(s) && x < |s| && y < |s|
    requires Reaches(s, x, y) && Reaches(s, y, z)
    ensures Reaches(s, x, z)
  {
    var m: nat :| Iter(s, x, m) == y;
    var n: nat :| Iter(s, y, n) == z;
    IterAdd(s, x, m, n);
  }

  /** `x` is reached from `a` along `listNext` and every node passed before it is a tombstone. */
  ghost predicate ReachedPastTombstones(s: State, a: Id, x: Id)
    requires Valid(s) && a < |s|
  {
    exists m: nat :: Iter(s, a, m) == x && forall j :: 0 <= j < m ==> s[Iter(s, a, j)].listStatus == listTomb
  }

  /** The state after the walk shortens `a`'s successor past one node. */
  function Bypass(s: State, a: Id): (t: State)
    requires Valid(s) && a < |s|
    ensures Valid(t) && |t| == |s|
  {
    s[a := s[a].(listNext := Iter(s, a, 2))]
  }

  /** Shortening a successor pointer makes nothing new reachable. */
  lemma {:induction false} BypassReachesNothingNew(s: State, a: Id, x: Id, k: nat)
    requires Valid(s) && a < |s| && x < |s|
    ensures Reaches(s, x, Iter(Bypass(s, a), x, k))
  {
    var t := Bypass(s, a);
    if k == 0 {
      assert Iter(s, x, 0) == x;
    } else {
      BypassReachesNothingNew(s, a, x, k - 1);
      var z := Iter(t, x, k - 1);
      var m: nat :| Iter(s, x, m) == z;
      if z == a {
        IterAdd(s, x, m, 2);
        assert Iter(s, x, m + 2) == Iter(t, x, k);
      } else {
        assert Iter(s, x, m + 1) == Iter(t, x, k);
      }
    }
  }

  lemma BypassReaches(s: State, a: Id, x: Id, y: Id)
    requires Valid(s) && a < |s| && x < |s|
    requires Reaches(Bypass(s, a), x, y)
    ensures Reaches(s, x, y)
  {
    var k: nat :| Iter(Bypass(s, a), x, k) == y;
    BypassReachesNothingNew(s, a, x, k);
  }

  /*************** picking a live member ***************/

  /**
    The walk of `pickFromList` from `a`, with at most `fuel` more rounds.
    A live node is picked; a tombstoned node whose successor is itself or
    0 ends the walk with `markDead`; otherwise two tombstoned nodes in a
    row are compacted by pointing the first past the second. A locked list
    slot, or a locked root under `markDead`, is waited on forever.
   */
  function Walk(s: State, a: Id, fuel: nat): (r: Run<Picked>)
    requires Valid(s) && a < |s|
    ensures r.Done? ==> Valid(r.value.s) && |r.value.s| == |s| && r.value.stop < |s|
    ensures r.Done? ==> r.value.node == if r.value.status == pickDead then -1 else r.value.stop
    ensures r.Spins? ==> r.at < |s|
    decreases fuel
  {
    if fuel == 0 then Exhausted
    else if s[a].listStatus == listLock then Spins(a)
    else if s[a].listStatus == listLive then Done(Picked(pickSuccess, a, s, a))
    else
      var b := s[a].listNext;
      if a == b || b == 0 then
        if MarkDeadReady(s, a) then Done(Picked(pickDead, -1, MarkDead(s, a).1, a))
        else Spins(Rep(s, a))
      else if s[b].listStatus == listLock then Spins(b)
      else if s[b].listStatus == listLive then Done(Picked(pickSuccess, b, s, b))
      else
        var c := s[b].listNext;
        assert Iter(s, a, 1) == b;
        assert c == Iter(s, a, 2);
        Walk(Bypass(s, a), c, fuel - 1)
  }

  /** The number of rounds the model grants one `pickFromList`: one per node. */
  function PickFromList(s: State, start: Id): (r: Run<Picked>)
    requires Valid(s) && start < |s|
    ensures r.Done? ==> Valid(r.value.s) && |r.value.s| == |s| && r.value.stop < |s|
    ensures r.Done? && r.value.status == pickSuccess ==>
      && r.value.node == r.value.stop
      && s[r.value.stop].listStatus == listLive
      && Reaches(s, start, r.value.stop)
      && ReachedPastTombstones(s, start, r.value.stop)
      && forall y :: 0 <= y < |s| ==> r.value.s[y] == s[y].(listNext := r.value.s[y].listNext)
    ensures r.Done? && r.value.status == pickDead ==>
      && r.value.node == -1
      && s[Rep(s, r.value.stop)].ufStatus != UFlock
      && r.value.s[Rep(s, r.value.stop)].ufStatus == UFdead
      && forall k: nat :: s[Follow(s, start, k)].listStatus == listTomb
    ensures r.Spins? ==> r.at < |s|
  {
    var r := Walk(s, start, |s|);
    if r.Done? && r.value.status == pickSuccess then
      WalkPicksLiveReachable(s, start, |s|);
      r
    else if r.Done? then
      WalkDeadKillsStop(s, start, |s|);
      WalkDeadListIsTomb(s, start, |s|);
      r
    else r
  }

  /**
    A successful pick returns a live node reachable from where the walk
    started, the first node on the way that is not a tombstone, and changes
    no status and no parent.
   */
  lemma {:induction false} WalkPicksLiveReachable(s: State, a: Id, fuel: nat)
    requires Valid(s) && a < |s|
    requires Walk(s, a, fuel).Done? && Walk(s, a, fuel).value.status == pickSuccess
    ensures var p := Walk(s, a, fuel).value;
      && p.node == p.stop
      && s[p.stop].listStatus == listLive
      && Reaches(s, a, p.stop)
      && ReachedPastTombstones(s, a, p.stop)
      && forall y :: 0 <= y < |s| ==> p.s[y] == s[y].(listNext := p.s[y].listNext)
    decreases fuel
  {
    var m := WalkPicksFirstLive(s, a, fuel);
    WalkPicksLiveChangesSuccessors(s, a, fuel);
  }

  /**
    The node a successful walk picks is the first one on the raw successor
    path from the start that is not a tombstone: `m` steps reach it and
    every earlier step is a tombstone.
   */
  lemma {:induction false} WalkPicksFirstLive(s: State, a: Id, fuel: nat) returns (m: nat)
    requires Valid(s) && a < |s|
    requires Walk(s, a, fuel).Done? && Walk(s, a, fuel).value.status == pickSuccess
    ensures Iter(s, a, m) == Walk(s, a, fuel).value.stop
    ensures forall j :: 0 <= j < m ==> s[Iter(s, a, j)].listStatus == listTomb
    decreases fuel
  {
    var p := Walk(s, a, fuel).value;
    if s[a].listStatus == listLive {
      m := 0;
    } else {
      var b := s[a].listNext;
      assert Iter(s, a, 1) == b;
      if s[b].listStatus == listLive {
        m := 1;
      } else {
        var c := s[b].listNext;
        var m1 := WalkPicksFirstLive(Bypass(s, a), c, fuel - 1);
        m := FirstLivePastBypass(s, a, m1, p.stop);
      }
    }
  }

  /** A first live node found after bypassing the tombstone after `a` is the first live node from `a`. */
  lemma FirstLivePastBypass(s: State, a: Id, m1: nat, z: Id) returns (m: nat)
    requires Valid(s) && a < |s|
    requires s[a].listStatus == listTomb && s[s[a].listNext].listStatus == listTomb
    requires Iter(Bypass(s, a), s[s[a].listNext].listNext, m1) == z
    requires forall j :: 0 <= j < m1 ==>
      Bypass(s, a)[Iter(Bypass(s, a), s[s[a].listNext].listNext, j)].listStatus == listTomb
    ensures Iter(s, a, m) == z
    ensures forall j :: 0 <= j < m ==> s[Iter(s, a, j)].listStatus == listTomb
  {
    var b := s[a].listNext;
    var c := s[b].listNext;
    assert Iter(s, a, 1) == b;
    assert Iter(s, a, 2) == c;
    var m2 := ExpandBypass(s, a, c, m1);
    m := m2 + 2;
    IterAdd(s, a, 2, m2);
    forall j | 0 <= j < m ensures s[Iter(s, a, j)].listStatus == listTomb {
      if j >= 2 {
        IterAdd(s, a, 2, j - 2);
      }
    }
  }

  /**
    A path through the bypassed state that passes only tombstones is, in
    the state before, a path to the same node that passes only tombstones:
    the step from `a` becomes the two steps through the bypassed tombstone.
   */
  lemma {:induction false} ExpandBypass(s: State, a: Id, x: Id, k: nat) returns (m: nat)
    requires Valid(s) && a < |s| && x < |s|
    requires s[s[a].listNext].listStatus == listTomb
    requires forall j :: 0 <= j < k ==> s[Iter(Bypass(s, a), x, j)].listStatus == listTomb
    ensures Iter(s, x, m) == Iter(Bypass(s, a), x, k)
    ensures forall j :: 0 <= j < m ==> s[Iter(s, x, j)].listStatus == listTomb
    decreases k
  {
    var t := Bypass(s, a);
    if k == 0 {
      m := 0;
    } else {
      var m1 := ExpandBypass(s, a, x, k - 1);
      var z := Iter(t, x, k - 1);
      assert s[z].listStatus == listTomb;
      if z == a {
        m := m1 + 2;
        assert Iter(s, x, m1 + 1) == s[a].listNext;
        assert Iter(s, a, 1) == s[a].listNext;
        assert t[a].listNext == s[s[a].listNext].listNext;
        assert Iter(s, x, m1 + 2) == Iter(t, x, k);
      } else {
        m := m1 + 1;
        assert t[z] == s[z];
      }
    }
  }

  lemma {:induction false} WalkPicksLiveChangesSuccessors(s: State, a: Id, fuel: nat)
    requires Valid(s) && a < |s|
    requires Walk(s, a, fuel).Done? && Walk(s, a, fuel).value.status == pickSuccess
    ensures var p := Walk(s, a, fuel).value;
      && p.node == p.stop
      && s[p.stop].listStatus == listLive
      && Reaches(s, a, p.stop)
      && forall y :: 0 <= y < |s| ==> p.s[y] == s[y].(listNext := p.s[y].listNext)
    decreases fuel
  {
    var p := Walk(s, a, fuel).value;
    if s[a].listStatus == listLive {
      assert Iter(s, a, 0) == a;
    } else {
      var b := s[a].listNext;
      if s[b].listStatus == listLive {
        assert Iter(s, a, 1) == b;
      } else {
        var c := s[b].listNext;
        var s1 := Bypass(s, a);
        WalkPastTombs(s, a, fuel);
        WalkPicksLiveChangesSuccessors(s1, c, fuel - 1);
        BypassReaches(s, a, c, p.stop);
        assert Iter(s, a, 1) == b;
        assert Iter(s, a, 2) == c;
        ReachesTrans(s, a, c, p.stop);
      }
    }
  }

  /**
    A dead pick happens only at a tombstoned node reachable from the start
    whose successor is itself or 0; that node's component is then dead and
    no other status changes.
   */
  lemma WalkDeadOnlyAtSelfLoop(s: State, a: Id, fuel: nat)
    requires Valid(s) && a < |s|
    requires Walk(s, a, fuel).Done? && Walk(s, a, fuel).value.status == pickDead
    ensures var p := Walk(s, a, fuel).value;
      && p.node == -1
      && s[p.stop].listStatus == listTomb
      && (p.s[p.stop].listNext == p.stop || p.s[p.stop].listNext == 0)
      && Reaches(s, a, p.stop)
      && s[Rep(s, p.stop)].ufStatus != UFlock
      && p.s[Rep(s, p.stop)].ufStatus == UFdead
      && (forall y :: 0 <= y < |s| && y != Rep(s, p.stop) ==> p.s[y].ufStatus == s[y].ufStatus)
      && forall k: nat :: s[Follow(s, a, k)].listStatus == listTomb
  {
    WalkDeadStopsAtSelfLoop(s, a, fuel);
    WalkDeadKillsStop(s, a, fuel);
    WalkDeadListIsTomb(s, a, fuel);
  }

  /** A dead pick stops at a reachable tombstone whose successor is itself or 0. */
  lemma {:induction false} WalkDeadStopsAtSelfLoop(s: State, a: Id, fuel: nat)
    requires Valid(s) && a < |s|
    requires Walk(s, a, fuel).Done? && Walk(s, a, fuel).value.status == pickDead
    ensures var p := Walk(s, a, fuel).value;
      && s[p.stop].listStatus == listTomb
      && (p.s[p.stop].listNext == p.stop || p.s[p.stop].listNext == 0)
      && Reaches(s, a, p.stop)
    decreases fuel
  {
    var p := Walk(s, a, fuel).value;
    var b := s[a].listNext;
    if a == b || b == 0 {
      assert Iter(s, a, 0) == a;
    } else {
      var c := s[b].listNext;
      var s1 := Bypass(s, a);
      WalkDeadStopsAtSelfLoop(s1, c, fuel - 1);
      BypassReaches(s, a, c, p.stop);
      assert Iter(s, a, 1) == b;
      assert Iter(s, a, 2) == c;
      ReachesTrans(s, a, c, p.stop);
    }
  }

  /** A dead pick finalises the component of the node it stopped at, whose root was not locked, and no other. */
  lemma {:induction false} WalkDeadKillsStop(s: State, a: Id, fuel: nat)
    requires Valid(s) && a < |s|
    requires Walk(s, a, fuel).Done? && Walk(s, a, fuel).value.status == pickDead
    ensures var p := Walk(s, a, fuel).value;
      && s[Rep(s, p.stop)].ufStatus != UFlock
      && p.s[Rep(s, p.stop)].ufStatus == UFdead
      && forall y :: 0 <= y < |s| && y != Rep(s, p.stop) ==> p.s[y].ufStatus == s[y].ufStatus
    decreases fuel
  {
    WalkDeadStep(s, a, fuel);
    var b := s[a].listNext;
    if a != b && b != 0 {
      var c := s[b].listNext;
      var s1 := Bypass(s, a);
      WalkDeadKillsStop(s1, c, fuel - 1);
      SameParentsSameReps(s, s1);
    }
  }

  /**
    A dead pick means the whole list is tombstoned: every node reached from
    the start along `Succ` (0 read as the node itself) is a tombstone.
   */
  lemma {:induction false} WalkDeadListIsTomb(s: State, a: Id, fuel: nat)
    requires Valid(s) && a < |s|
    requires Walk(s, a, fuel).Done? && Walk(s, a, fuel).value.status == pickDead
    ensures forall k: nat :: s[Follow(s, a, k)].listStatus == listTomb
    decreases fuel
  {
    var b := s[a].listNext;
    if a == b || b == 0 {
      forall k: nat ensures s[Follow(s, a, k)].listStatus == listTomb {
        FollowSelfLoop(s, a, k);
      }
    } else {
      var c := s[b].listNext;
      var s1 := Bypass(s, a);
      WalkDeadListIsTomb(s1, c, fuel - 1);
      forall k: nat ensures s[Follow(s, a, k)].listStatus == listTomb {
        var m := FollowThroughBypass(s, a, k);
        assert s1[Follow(s1, c, m)].listStatus == listTomb;
      }
    }
  }

  /** A node that is its own successor is all that `Follow` ever reaches from it. */
  lemma {:induction false} FollowSelfLoop(s: State, a: Id, k: nat)
    requires Valid(s) && a < |s| && Succ(s, a) == a
    ensures Follow(s, a, k) == a
  {
    if k > 0 {
      FollowSelfLoop(s, a, k - 1);
    }
  }

  /**
    After the walk's bypass of `b` at `a`, every node reached from `a` is
    `a`, `b`, or reached from `b`'s old successor in the bypassed state.
   */
  lemma {:induction false} FollowThroughBypass(s: State, a: Id, k: nat) returns (m: nat)
    requires Valid(s) && a < |s| && s[a].listNext != 0 && s[a].listNext != a
    ensures var x := Follow(s, a, k);
      x == a || x == s[a].listNext || x == Follow(Bypass(s, a), s[s[a].listNext].listNext, m)
  {
    var b, s1 := s[a].listNext, Bypass(s, a);
    var c := s[b].listNext;
    if k == 0 {
      m := 0;
    } else {
      var m' := FollowThroughBypass(s, a, k - 1);
      var x' := Follow(s, a, k - 1);
      if x' == a || x' == b {
        m := 0;
      } else {
        assert s1[x'] == s[x'];
        m := m' + 1;
      }
    }
  }

  /** The walk changes no list status and no worker mask, and changes parents only by compression. */
  lemma WalkKeepsStatusesAndForest(s: State, a: Id, fuel: nat)
    requires Valid(s) && a < |s|
    requires Walk(s, a, fuel).Done?
    ensures var t := Walk(s, a, fuel).value.s;
      && SameReps(s, t)
      && ParentsCompressed(s, t)
      && (forall y :: 0 <= y < |s| ==> t[y].listStatus == s[y].listStatus && t[y].workerSet == s[y].workerSet)
  {
    WalkKeepsForest(s, a, fuel);
    WalkKeepsStatuses(s, a, fuel);
  }

  lemma {:induction false} WalkKeepsForest(s: State, a: Id, fuel: nat)
    requires Valid(s) && a < |s|
    requires Walk(s, a, fuel).Done?
    ensures var t := Walk(s, a, fuel).value.s;
      SameReps(s, t) && ParentsCompressed(s, t)
    decreases fuel
  {
    var b := s[a].listNext;
    if s[a].listStatus == listLive || a == b || b == 0 || s[b].listStatus == listLive {
    } else {
      var s1 := Bypass(s, a);
      WalkPastTombs(s, a, fuel);
      WalkKeepsForest(s1, s[b].listNext, fuel - 1);
      SameParentsSameReps(s, s1);
    }
  }

  lemma {:induction false} WalkKeepsStatuses(s: State, a: Id, fuel: nat)
    requires Valid(s) && a < |s|
    requires Walk(s, a, fuel).Done?
    ensures var t := Walk(s, a, fuel).value.s;
      forall y :: 0 <= y < |s| ==> t[y].listStatus == s[y].listStatus && t[y].workerSet == s[y].workerSet
    decreases fuel
  {
    var b := s[a].listNext;
    if s[a].listStatus == listLive || a == b || b == 0 || s[b].listStatus == listLive {
    } else {
      WalkPastTombs(s, a, fuel);
      WalkKeepsStatuses(Bypass(s, a), s[b].listNext, fuel - 1);
    }
  }

  /**
    The walk rewrites a successor only on a tombstoned node whose successor
    was tombstoned, and only to a node reachable from it: it compacts the
    list and adds no member.
   */
  lemma {:induction false} WalkOnlyCompacts(s: State, a: Id, fuel: nat)
    requires Valid(s) && a < |s|
    requires Walk(s, a, fuel).Done?
    ensures var t := Walk(s, a, fuel).value.s;
      forall y :: 0 <= y < |s| && t[y].listNext != s[y].listNext ==>
        && s[y].listStatus == listTomb
        && s[s[y].listNext].listStatus == listTomb
        && Reaches(s, y, t[y].listNext)
    decreases fuel
  {
    var t := Walk(s, a, fuel).value.s;
    var b := s[a].listNext;
    if s[a].listStatus == listLive || s[b].listStatus == listLive {
    } else if a == b || b == 0 {
      assert forall y :: 0 <= y < |s| ==> t[y].listNext == s[y].listNext;
    } else {
      var c := s[b].listNext;
      var s1 := Bypass(s, a);
      assert Iter(s, a, 1) == b;
      assert Iter(s, a, 2) == c;
      WalkOnlyCompacts(s1, c, fuel - 1);
      forall y | 0 <= y < |s| && t[y].listNext != s[y].listNext
        ensures s[y].listStatus == listTomb
        ensures s[s[y].listNext].listStatus == listTomb
        ensures Reaches(s, y, t[y].listNext)
      {
        if y == a {
          if t[y].listNext != s1[y].listNext {
            BypassReaches(s, a, y, t[y].listNext);
          }
        } else {
          BypassReaches(s, a, y, t[y].listNext);
        }
      }
    }
  }

  /** The walk spins only at a locked list slot reachable from the start or at a locked root. */
  lemma {:induction false} WalkSpinsOnlyOnLocks(s: State, a: Id, fuel: nat)
    requires Valid(s) && a < |s|
    requires Walk(s, a, fuel).Spins?
    ensures var x := Walk(s, a, fuel).at;
      || (s[x].listStatus == listLock && Reaches(s, a, x))
      || s[x].ufStatus == UFlock
    decreases fuel
  {
    var x := Walk(s, a, fuel).at;
    var b := s[a].listNext;
    if s[a].listStatus == listLock {
      assert Iter(s, a, 0) == a;
    } else if a == b || b == 0 {
    } else if s[b].listStatus == listLock {
      assert Iter(s, a, 1) == b;
    } else {
      var c := s[b].listNext;
      var s1 := Bypass(s, a);
      WalkSpinsOnlyOnLocks(s1, c, fuel - 1);
      if s1[x].listStatus == listLock && Reaches(s1, c, x) {
        BypassReaches(s, a, c, x);
        assert Iter(s, a, 1) == b;
      assert Iter(s, a, 2) == c;
        ReachesTrans(s, a, c, x);
      }
    }
  }

  /**
    A walk that ends in a dead pick waits forever instead in a state with
    the same lists whose root of the node the walk stopped at is locked:
    `markDead` waits for it.
   */
  lemma {:induction false} WalkWaitsAtLockedRoot(s: State, u: State, a: Id, fuel: nat)
    requires Valid(s) && Valid(u) && |u| == |s| && a < |s|
    requires forall y :: 0 <= y < |s| ==> u[y].listNext == s[y].listNext && u[y].listStatus == s[y].listStatus
    requires Walk(s, a, fuel).Done? && Walk(s, a, fuel).value.status == pickDead
    requires u[Rep(u, Walk(s, a, fuel).value.stop)].ufStatus == UFlock
    ensures Walk(u, a, fuel) == Spins(Rep(u, Walk(s, a, fuel).value.stop))
    decreases fuel
  {
    WalkDeadStep(s, a, fuel);
    var b := s[a].listNext;
    if a == b || b == 0 {
      assert !MarkDeadReady(u, a);
    } else {
      var c := s[b].listNext;
      var stop := Walk(s, a, fuel).value.stop;
      WalkPastTombs(u, a, fuel);
      BypassAgrees(s, u, a, stop);
      WalkWaitsAtLockedRoot(Bypass(s, a), Bypass(u, a), c, fuel - 1);
    }
  }

  /** At a tombstone without a successor under a locked root, the walk waits for the root. */
  lemma WalkWaitsAtSelfLoop(s: State, a: Id, fuel: nat)
    requires Valid(s) && a < |s| && fuel > 0
    requires s[a].listStatus == listTomb && (s[a].listNext == a || s[a].listNext == 0)
    requires s[Rep(s, a)].ufStatus == UFlock
    ensures Walk(s, a, fuel) == Spins(Rep(s, a))
  {
  }

  /** A dead pick starts at a tombstone: it stops there at a self-loop, and otherwise steps past a second tombstone. */
  lemma WalkDeadStep(s: State, a: Id, fuel: nat)
    requires Valid(s) && a < |s|
    requires Walk(s, a, fuel).Done? && Walk(s, a, fuel).value.status == pickDead
    ensures fuel > 0 && s[a].listStatus == listTomb
    ensures s[a].listNext == a || s[a].listNext == 0 ==> Walk(s, a, fuel).value.stop == a
    ensures s[a].listNext != a && s[a].listNext != 0 ==>
      && s[s[a].listNext].listStatus == listTomb
      && Walk(s, a, fuel) == Walk(Bypass(s, a), s[s[a].listNext].listNext, fuel - 1)
  {
  }

  /** Past two tombstones the walk continues from the bypassed state. */
  lemma WalkPastTombs(s: State, a: Id, fuel: nat)
    requires Valid(s) && a < |s| && fuel > 0
    requires s[a].listStatus == listTomb && s[a].listNext != a && s[a].listNext != 0
    requires s[s[a].listNext].listStatus == listTomb
    ensures Walk(s, a, fuel) == Walk(Bypass(s, a), s[s[a].listNext].listNext, fuel - 1)
  {
  }

  /**
    Two states that agree on the lists still agree after the same bypass,
    which moves no node between sets and changes no union-find status.
   */
  lemma BypassAgrees(s: State, u: State, a: Id, z: Id)
    requires Valid(s) && Valid(u) && |u| == |s| && a < |s| && z < |s|
    requires forall y :: 0 <= y < |s| ==> u[y].listNext == s[y].listNext && u[y].listStatus == s[y].listStatus
    ensures forall y :: 0 <= y < |s| ==>
      Bypass(u, a)[y].listNext == Bypass(s, a)[y].listNext && Bypass(u, a)[y].listStatus == Bypass(s, a)[y].listStatus
    ensures Rep(Bypass(u, a), z) == Rep(u, z) && Bypass(u, a)[Rep(u, z)].ufStatus == u[Rep(u, z)].ufStatus
  {
    var s1, u1 := Bypass(s, a), Bypass(u, a);
    assert Iter(s, a, 1) == s[a].listNext && Iter(u, a, 1) == s[a].listNext;
    assert u1[a].listNext == s1[a].listNext;
    SameParentsSameRep(u, u1, z);
  }

  /*************** the list slot lock and tombstones ***************/

  /** Replaces the list status of `y`; nothing else changes. */
  function SetListStatus(s: State, y: Id, st: ListStatus): (t: State)
    requires Valid(s) && y < |s|
    ensures Valid(t) && |t| == |s| && SameReps(s, t)
    ensures t[y].listStatus == st
    ensures forall z :: 0 <= z < |s| && z != y ==> t[z] == s[z]
    ensures t[y] == s[y].(listStatus := st)
  {
    var t := s[y := s[y].(listStatus := st)];
    SameParentsSameReps(s, t);
    t
  }

  /**
    `lockList(a)`: picks a live member of `a`'s list and locks it, or
    answers -1 when the list turned out to be dead.
   */
  function LockList(s: State, a: Id): (r: Run<(int, State)>)
    requires Valid(s) && a < |s|
    ensures r.Done? ==> Valid(r.value.1) && |r.value.1| == |s|
    ensures r.Done? ==> -1 <= r.value.0 < |s|
    ensures r.Done? && r.value.0 >= 0 ==> r.value.1[r.value.0].listStatus == listLock
  {
    match PickFromList(s, a)
    case Done(p) =>
      if p.status == pickDead then Done((-1, p.s))
      else
        WalkPicksLiveReachable(s, a, |s|);
        Done((p.node, SetListStatus(p.s, p.stop, listLock)))
    case Spins(x) => Spins(x)
    case Exhausted => Exhausted
  }

  /** A union-find status either stays as it was or goes from live to dead. */
  predicate KeptOrKilled(before: UFStatus, after: UFStatus)
  {
    after == before || (before == UFlive && after == UFdead)
  }

  /**
    What `lockList` changes: on success only the picked node's list status
    (from live to locked) and list successors of tombstones; on -1 only the
    union-find status of a root, from live to dead. Parents change only by
    compression and no worker mask changes.
   */
  lemma LockListFrame(s: State, a: Id)
    requires Valid(s) && a < |s| && LockList(s, a).Done?
    ensures var (la, t) := LockList(s, a).value;
      && Valid(t) && |t| == |s| && SameReps(s, t) && ParentsCompressed(s, t)
      && (forall y :: 0 <= y < |s| ==> t[y].workerSet == s[y].workerSet)
      && (la >= 0 ==>
            && s[la].listStatus == listLive && t[la].listStatus == listLock && Reaches(s, a, la)
            && (forall y :: 0 <= y < |s| ==> t[y].ufStatus == s[y].ufStatus)
            && (forall y :: 0 <= y < |s| && y != la ==> t[y].listStatus == s[y].listStatus))
      && (la < 0 ==>
            && (forall y :: 0 <= y < |s| ==> t[y].listStatus == s[y].listStatus)
            && (forall y :: 0 <= y < |s| ==> KeptOrKilled(s[y].ufStatus, t[y].ufStatus)))
  {
    LockListForest(s, a);
    if LockList(s, a).value.0 >= 0 {
      LockListPicked(s, a);
    } else {
      LockListDead(s, a);
    }
  }

  /** `lockList` keeps every representative and every mask. */
  lemma LockListForest(s: State, a: Id)
    requires Valid(s) && a < |s| && LockList(s, a).Done?
    ensures var t := LockList(s, a).value.1;
      && Valid(t) && |t| == |s| && SameReps(s, t) && ParentsCompressed(s, t)
      && (forall y :: 0 <= y < |s| ==> t[y].workerSet == s[y].workerSet)
  {
    WalkKeepsForest(s, a, |s|);
    WalkKeepsStatuses(s, a, |s|);
  }

  /** A successful `lockList` moves one reachable node from live to locked and changes no other status. */
  lemma LockListPicked(s: State, a: Id)
    requires Valid(s) && a < |s| && LockList(s, a).Done? && LockList(s, a).value.0 >= 0
    ensures var (la, t) := LockList(s, a).value;
      && s[la].listStatus == listLive && Reaches(s, a, la)
      && (forall y :: 0 <= y < |s| ==> t[y].ufStatus == s[y].ufStatus)
      && (forall y :: 0 <= y < |s| ==> t[y].listStatus == if y == la then listLock else s[y].listStatus)
  {
    WalkPicksLiveReachable(s, a, |s|);
  }

  /** A `lockList` that answers -1 changes no list status and kills at most a live root. */
  lemma LockListDead(s: State, a: Id)
    requires Valid(s) && a < |s| && LockList(s, a).Done? && LockList(s, a).value.0 < 0
    ensures var t := LockList(s, a).value.1;
      && (forall y :: 0 <= y < |s| ==> t[y].listStatus == s[y].listStatus)
      && (forall y :: 0 <= y < |s| ==> KeptOrKilled(s[y].ufStatus, t[y].ufStatus))
      && (forall y :: 0 <= y < |s| && t[y].ufStatus != s[y].ufStatus ==> Rep(s, y) == y)
  {
    assert Walk(s, a, |s|).Done? && Walk(s, a, |s|).value.status == pickDead;
    WalkKeepsStatuses(s, a, |s|);
    WalkDeadOnlyAtSelfLoop(s, a, |s|);
  }

  /** `unlockList(la)`: the slot is live again. */
  function UnlockList(s: State, la: Id): (t: State)
    requires Valid(s) && la < |s|
    ensures Valid(t) && |t| == |s| && SameReps(s, t) && t[la].listStatus == listLive
    ensures t[la] == s[la].(listStatus := listLive)
    ensures forall z :: 0 <= z < |s| && z != la ==> t[z] == s[z]
  {
    SetListStatus(s, la, listLive)
  }

  /** Locking a live node and unlocking it gives back the state before. */
  lemma UnlockListUndoesLock(s: State, a: Id)
    requires Valid(s) && a < |s| && s[a].listStatus == listLive
    ensures LockList(s, a) == Done((a as int, SetListStatus(s, a, listLock)))
    ensures UnlockList(SetListStatus(s, a, listLock), a) == s
  {
    var t := UnlockList(SetListStatus(s, a, listLock), a);
    assert forall z :: 0 <= z < |s| ==> t[z] == s[z];
  }

  /** `inList(a)`: the node has not been tombstoned. */
  function InList(s: State, a: Id): (r: bool)
    requires a < |s|
    ensures r <==> s[a].listStatus == listLive || s[a].listStatus == listLock
  {
    s[a].listStatus != listTomb
  }

  /**
    `removeFromList(a)`: tombstones a live node and answers true; on a node
    already tombstoned it answers false. It spins on a locked slot, so it
    returns only when `a` is not locked.
   */
  function RemoveFromList(s: State, a: Id): (res: (bool, State))
    requires Valid(s) && a < |s| && s[a].listStatus != listLock
    ensures Valid(res.1) && |res.1| == |s| && SameReps(s, res.1)
    ensures res.0 <==> InList(s, a)
    ensures !InList(res.1, a)
    ensures forall z :: 0 <= z < |s| ==> res.1[z] == s[z].(listStatus := res.1[z].listStatus)
    ensures forall z :: 0 <= z < |s| && z != a ==> res.1[z] == s[z]
  {
    if s[a].listStatus == listLive then (true, SetListStatus(s, a, listTomb))
    else (false, s)
  }

  /** The node `lockList` picks and locks is still a member of a list, before and after the lock. */
  lemma LockedNodeIsInList(s: State, a: Id)
    requires Valid(s) && a < |s| && LockList(s, a).Done? && LockList(s, a).value.0 >= 0
    ensures InList(s, LockList(s, a).value.0) && InList(LockList(s, a).value.1, LockList(s, a).value.0)
  {
    LockListFrame(s, a);
  }

  /** Removing twice is removing once. */
  lemma RemoveIdempotent(s: State, a: Id)
    requires Valid(s) && a < |s| && s[a].listStatus != listLock
    ensures !RemoveFromList(RemoveFromList(s, a).1, a).0
    ensures RemoveFromList(RemoveFromList(s, a).1, a).1 == RemoveFromList(s, a).1
  {
  }

  /*************** cycles and the splice ***************/

  /** The successor in the cyclic list: 0 stands for the node itself. */
  function Succ(s: State, x: Id): (y: Id)
    requires Valid(s) && x < |s|
    ensures y < |s|
  {
    if s[x].listNext == 0 then x else s[x].listNext
  }

  /** The node reached from `x` after `k` steps along `Succ`. */
  function Follow(s: State, x: Id, k: nat): (y: Id)
    requires Valid(s) && x < |s|
    ensures y < |s|
  {
    if k == 0 then x else Succ(s, Follow(s, x, k - 1))
  }

  /** `c` lists, without repetition, one whole cycle of graph nodes under the successor relation. */
  ghost predicate IsCycle(s: State, c: seq<Id>)
    requires Valid(s)
  {
    && |c| >= 1
    && (forall i :: 0 <= i < |c| ==> 0 < c[i] < |s|)
    && (forall i, j :: 0 <= i < j < |c| ==> c[i] != c[j])
    && (forall i :: 0 <= i < |c| - 1 ==> Succ(s, c[i]) == c[i + 1])
    && Succ(s, c[|c| - 1]) == c[0]
  }

  /**
    The splice in `unite`: the successors of `la` and `lb` are exchanged,
    with a successor of 0 read as the node itself.
   */
  function Splice(s: State, la: Id, lb: Id): (t: State)
    requires Valid(s) && la < |s| && lb < |s|
    ensures Valid(t) && |t| == |s| && SameReps(s, t)
    ensures forall z :: 0 <= z < |s| && z != la && z != lb ==> t[z] == s[z]
    ensures forall z :: 0 <= z < |s| ==> t[z] == s[z].(listNext := t[z].listNext)
    ensures la != lb ==> t[la].listNext == Succ(s, lb) && t[lb].listNext == Succ(s, la)
  {
    var na := Succ(s, la);
    var nb := Succ(s, lb);
    var s1 := s[la := s[la].(listNext := nb)];
    var t := s1[lb := s1[lb].(listNext := na)];
    SameParentsSameReps(s, t);
    t
  }

  /** The cycle that splicing the heads of two cycles produces. */
  function Joined(a: seq<Id>, b: seq<Id>): seq<Id>
    requires |a| >= 1 && |b| >= 1
  {
    [a[0]] + b[1..] + [b[0]] + a[1..]
  }

  /**
    Splicing the first nodes of two disjoint cycles yields one cycle, and
    its members are exactly the members of the two.
   */
  lemma SpliceJoinsCycles(s: State, a: seq<Id>, b: seq<Id>)
    requires Valid(s) && IsCycle(s, a) && IsCycle(s, b)
    requires forall i, j :: 0 <= i < |a| && 0 <= j < |b| ==> a[i] != b[j]
    ensures IsCycle(Splice(s, a[0], b[0]), Joined(a, b))
    ensures multiset(Joined(a, b)) == multiset(a) + multiset(b)
  {
    var t := Splice(s, a[0], b[0]);
    var m := Joined(a, b);
    forall i | 0 <= i < |m| - 1 ensures Succ(t, m[i]) == m[i + 1] {
      SpliceSuccAt(s, a, b, i);
    }
    SpliceSuccAt(s, a, b, |m| - 1);
    JoinedDistinct(a, b);
    JoinedMembers(a, b);
  }

  lemma JoinedMembers(a: seq<Id>, b: seq<Id>)
    requires |a| >= 1 && |b| >= 1
    ensures multiset(Joined(a, b)) == multiset(a) + multiset(b)
  {
    calc {
      multiset(Joined(a, b));
      multiset([a[0]]) + multiset(b[1..]) + multiset([b[0]]) + multiset(a[1..]);
      { assert a == [a[0]] + a[1..]; assert b == [b[0]] + b[1..]; }
      multiset(a) + multiset(b);
    }
  }

  /** The splice's successor at one position of the joined cycle. */
  lemma SpliceSuccAt(s: State, a: seq<Id>, b: seq<Id>, i: nat)
    requires Valid(s) && IsCycle(s, a) && IsCycle(s, b)
    requires forall i, j :: 0 <= i < |a| && 0 <= j < |b| ==> a[i] != b[j]
    requires i < |a| + |b|
    ensures 0 < Joined(a, b)[i] < |s|
    ensures Succ(Splice(s, a[0], b[0]), Joined(a, b)[i])
      == if i + 1 < |a| + |b| then Joined(a, b)[i + 1] else Joined(a, b)[0]
  {
    var t := Splice(s, a[0], b[0]);
    var m := Joined(a, b);
    var p, q := |a|, |b|;
    assert |m| == p + q;
    if i == 0 {
      assert m[0] == a[0];
      assert Succ(t, a[0]) == Succ(s, b[0]);
      if q == 1 {
        assert m[1] == b[0];
      } else {
        assert m[1] == b[1];
      }
    } else if i < q {
      assert m[i] == b[i] && b[i] != a[0] && b[i] != b[0];
      assert Succ(t, m[i]) == Succ(s, b[i]);
      if i + 1 < q {
        assert m[i + 1] == b[i + 1];
      } else {
        assert m[i + 1] == b[0];
      }
    } else if i == q {
      assert m[q] == b[0];
      assert Succ(t, b[0]) == Succ(s, a[0]);
      if p == 1 {
        assert m[0] == a[0];
      } else {
        assert m[q + 1] == a[1];
      }
    } else {
      var j := i - q;
      assert m[i] == a[j] && a[j] != a[0] && a[j] != b[0];
      assert Succ(t, m[i]) == Succ(s, a[j]);
      if j + 1 < p {
        assert m[i + 1] == a[j + 1];
      } else {
        assert m[0] == a[0];
      }
    }
  }

  /** The joined sequence repeats no node. */
  lemma JoinedDistinct(a: seq<Id>, b: seq<Id>)
    requires |a| >= 1 && |b| >= 1
    requires forall i, j :: 0 <= i < j < |a| ==> a[i] != a[j]
    requires forall i, j :: 0 <= i < j < |b| ==> b[i] != b[j]
    requires forall i, j :: 0 <= i < |a| && 0 <= j < |b| ==> a[i] != b[j]
    ensures forall i, j :: 0 <= i < j < |Joined(a, b)| ==> Joined(a, b)[i] != Joined(a, b)[j]
  {
    var m := Joined(a, b);
    var p, q := |a|, |b|;
    assert |m| == p + q;
    assert m[0] == a[0] && m[q] == b[0];
    assert forall i :: 1 <= i < q ==> m[i] == b[i];
    assert forall j :: 1 <= j < p ==> m[q + j] == a[j];
    forall i, j | 0 <= i < j < |m| ensures m[i] != m[j] {
      if j < q {
      } else if j == q {
      } else if i > q {
        assert m[i] == a[i - q] && m[j] == a[j - q];
      } else if i == q {
        assert m[j] == a[j - q];
      } else {
        assert m[j] == a[j - q];
      }
    }
  }

  /** Whether a sequence is a cycle depends on the list successors alone. */
  lemma CycleDependsOnSuccessors(s: State, t: State, c: seq<Id>)
    requires Valid(s) && Valid(t) && |t| == |s|
    requires forall y :: 0 <= y < |s| ==> t[y].listNext == s[y].listNext
    requires IsCycle(s, c)
    ensures IsCycle(t, c)
  {
    assert forall i :: 0 <= i < |c| ==> Succ(t, c[i]) == Succ(s, c[i]);
  }

  /** In the initial state every node is a one-node cycle. */
  lemma InitIsSingletonCycles(n: nat, x: Id)
    requires 1 <= x <= n
    ensures Valid(Init(n)) && IsCycle(Init(n), [x])
  {
    InitIsForestOfSingletons(n);
    assert Init(n)[x].listNext == 0;
    assert Succ(Init(n), x) == x;
  }
}
