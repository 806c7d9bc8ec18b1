/**
  The converse of the list invariant: every member of a set that is not a
  tombstone lies on the list of every node of that set, along `Succ`. It
  holds initially and every operation keeps it. The walk only bypasses
  tombstones, and the splice of `unite` joins the lists of two sets at a
  node of each that is not a tombstone. With it, a dead pick means that the
  whole set has been removed from the lists, which is what a worker relies
  on when it finalises a component.
 */
module ListMembers {
  import opened UFNodes
  import opened Forest
  import opened Claims
  import opened Lists
  import opened Unite
  import opened ListInvariant

  /** `x` is on the list of `y`: some number of `Succ` steps lead from `y` to `x`. */
  ghost predicate OnList(s: State, y: Id, x: Id)
    requires Valid(s) && y < |s|
  {
    exists k: nat :: Follow(s, y, k) == x
  }

  /** Every graph node of a set that is not a tombstone is on the list of every graph node of that set. */
  ghost predicate MembersOnList(s: State)
    requires Valid(s)
  {
    forall x, y {:trigger OnList(s, y, x)} ::
      0 < x < |s| && 0 < y < |s| && Rep(s, x) == Rep(s, y) && s[x].listStatus != listTomb ==> OnList(s, y, x)
  }

  /** Both directions: the lists follow the sets, and the sets' remaining members are on the lists. */
  ghost predicate ListsMatchSets(s: State)
    requires Valid(s)
  {
    ListsFollowSets(s) && MembersOnList(s)
  }

  /*************** paths along `Succ` ***************/

  lemma {:induction false} FollowAdd(s: State, x: Id, m: nat, n: nat)
    requires Valid(s) && x < |s|
    ensures Follow(s, x, m + n) == Follow(s, Follow(s, x, m), n)
  {
    if n > 0 {
      FollowAdd(s, x, m, n - 1);
    }
  }

  /** A path of `k + 1` steps is one step followed by a path of `k` steps. */
  lemma FollowFront(s: State, x: Id, k: nat)
    requires Valid(s) && x < |s|
    ensures Follow(s, x, k + 1) == Follow(s, Succ(s, x), k)
  {
    FollowAdd(s, x, 1, k);
    assert Follow(s, x, 1) == Succ(s, x);
  }

  /** Two paths end to end make one. */
  lemma FollowJoin(s: State, x: Id, m: nat, y: Id, n: nat, z: Id)
    requires Valid(s) && x < |s| && y < |s|
    requires Follow(s, x, m) == y && Follow(s, y, n) == z
    ensures Follow(s, x, m + n) == z
  {
    FollowAdd(s, x, m, n);
  }

  /** Paths depend on the successors alone. */
  lemma {:induction false} FollowSameNext(s: State, t: State, x: Id, k: nat)
    requires Valid(s) && Valid(t) && |t| == |s| && x < |s|
    requires forall y :: 0 <= y < |s| ==> t[y].listNext == s[y].listNext
    ensures Follow(t, x, k) == Follow(s, x, k)
  {
    if k > 0 {
      FollowSameNext(s, t, x, k - 1);
      var z := Follow(s, x, k - 1);
      assert t[z].listNext == s[z].listNext;
    }
  }

  /**
    The membership invariant survives any step that keeps the sets and the
    successors and turns no tombstone back into a member.
   */
  lemma MembersTransfer(s: State, t: State)
    requires Valid(s) && Valid(t) && |t| == |s| && SameReps(s, t)
    requires forall y :: 0 <= y < |s| ==> t[y].listNext == s[y].listNext
    requires forall y :: 0 <= y < |s| && t[y].listStatus != listTomb ==> s[y].listStatus != listTomb
    requires MembersOnList(s)
    ensures MembersOnList(t)
  {
    forall x, y | 0 < x < |s| && 0 < y < |s| && Rep(t, x) == Rep(t, y) && t[x].listStatus != listTomb
      ensures OnList(t, y, x)
    {
      assert OnList(s, y, x);
      var k: nat :| Follow(s, y, k) == x;
      FollowSameNext(s, t, y, k);
    }
  }

  /** Initially every set is one node, on its own one-node list. */
  lemma InitEstablishesMembers(n: nat)
    ensures Valid(Init(n)) && ListsMatchSets(Init(n))
  {
    InitEstablishesLists(n);
    InitIsForestOfSingletons(n);
    var s := Init(n);
    forall x, y | 0 < x < |s| && 0 < y < |s| && Rep(s, x) == Rep(s, y) && s[x].listStatus != listTomb
      ensures OnList(s, y, x)
    {
      assert Follow(s, y, 0) == x;
    }
  }

  /*************** the walk ***************/

  /**
    A path to a node other than the bypassed tombstone survives the bypass:
    the two steps through the tombstone become one.
   */
  lemma {:induction false} ReachAfterBypass(s: State, a: Id, y: Id, x: Id, k: nat) returns (k': nat)
    requires Valid(s) && a < |s| && y < |s|
    requires s[a].listNext != 0 && s[a].listNext != a && s[s[a].listNext].listNext != 0
    requires Follow(s, y, k) == x && x != s[a].listNext
    ensures Follow(Bypass(s, a), y, k') == x
    decreases k
  {
    if k == 0 {
      k' := 0;
    } else {
      var w := Succ(s, y);
      FollowFront(s, y, k - 1);
      if y == a {
        var c := s[s[a].listNext].listNext;
        FollowFront(s, w, k - 2);
        var k2 := ReachAfterBypass(s, a, c, x, k - 2);
        BypassStep(s, a, y);
        FollowJoin(Bypass(s, a), y, 1, c, k2, x);
        k' := k2 + 1;
      } else {
        var k2 := ReachAfterBypass(s, a, w, x, k - 1);
        BypassStep(s, a, y);
        FollowJoin(Bypass(s, a), y, 1, w, k2, x);
        k' := k2 + 1;
      }
    }
  }

  /** One step after the bypass: from `a` straight past the tombstone, from any other node as before. */
  lemma BypassStep(s: State, a: Id, y: Id)
    requires Valid(s) && a < |s| && y < |s|
    requires s[a].listNext != 0 && s[a].listNext != a && s[s[a].listNext].listNext != 0
    ensures Follow(Bypass(s, a), y, 1) == if y == a then s[s[a].listNext].listNext else Succ(s, y)
  {
    BypassShape(s, a);
    assert Follow(Bypass(s, a), y, 1) == Succ(Bypass(s, a), y);
  }

  /** One compaction step of the walk keeps every member on its set's lists. */
  lemma BypassKeepsMembers(s: State, a: Id)
    requires Valid(s) && 0 < a < |s| && ListsMatchSets(s)
    requires s[a].listNext != 0 && s[a].listNext != a && s[s[a].listNext].listStatus == listTomb
    ensures ListsMatchSets(Bypass(s, a))
  {
    var s1 := Bypass(s, a);
    BypassKeepsLists(s, a);
    forall x, y | 0 < x < |s| && 0 < y < |s| && Rep(s1, x) == Rep(s1, y) && s1[x].listStatus != listTomb
      ensures OnList(s1, y, x)
    {
      assert s1[x].listStatus == s[x].listStatus;
      assert OnList(s, y, x);
      var k: nat :| Follow(s, y, k) == x;
      var k' := ReachAfterBypass(s, a, y, x, k);
    }
  }

  /** The walk of `pickFromList` keeps both invariants. */
  lemma {:induction false} WalkKeepsMembers(s: State, a: Id, fuel: nat)
    requires Valid(s) && 0 < a < |s| && ListsMatchSets(s)
    requires Walk(s, a, fuel).Done?
    ensures ListsMatchSets(Walk(s, a, fuel).value.s)
    decreases fuel
  {
    var b := s[a].listNext;
    if s[a].listStatus == listLive {
    } else if a == b || b == 0 {
      WalkKeepsLists(s, a, fuel);
      MembersTransfer(s, MarkDead(s, a).1);
    } else if s[b].listStatus == listLive {
    } else {
      var c := s[b].listNext;
      BypassKeepsMembers(s, a);
      WalkPastTombs(s, a, fuel);
      WalkKeepsMembers(Bypass(s, a), c, fuel - 1);
    }
  }

  /**
    A dead pick means the set is exhausted: `pickFromList` from a graph node
    answers dead exactly when every member of that node's set is a
    tombstone.
   */
  lemma DeadPickIffSetExhausted(s: State, a: Id)
    requires Valid(s) && 0 < a < |s| && ListsMatchSets(s)
    requires PickFromList(s, a).Done?
    ensures PickFromList(s, a).value.status == pickDead <==>
      forall x :: 0 < x < |s| && Rep(s, x) == Rep(s, a) ==> s[x].listStatus == listTomb
  {
    var p := PickFromList(s, a).value;
    WalkKeepsLists(s, a, |s|);
    if p.status == pickDead {
      assert forall k: nat :: s[Follow(s, a, k)].listStatus == listTomb;
      forall x | 0 < x < |s| && Rep(s, x) == Rep(s, a) ensures s[x].listStatus == listTomb {
        assert s[x].listStatus != listTomb ==> OnList(s, a, x);
        DeadListHasNoMember(s, a, x);
      }
    } else {
      assert s[p.stop].listStatus == listLive && 0 < p.stop && Rep(s, p.stop) == Rep(s, a);
    }
  }

  /** A node on a list that is tombstoned all along is a tombstone. */
  lemma DeadListHasNoMember(s: State, a: Id, x: Id)
    requires Valid(s) && a < |s| && x < |s|
    requires forall k: nat :: s[Follow(s, a, k)].listStatus == listTomb
    ensures OnList(s, a, x) ==> s[x].listStatus == listTomb
  {
    if OnList(s, a, x) {
      var k: nat :| Follow(s, a, k) == x;
    }
  }

  /** `lockList` keeps both invariants. */
  lemma LockListKeepsMembers(s: State, a: Id)
    requires Valid(s) && 0 < a < |s| && ListsMatchSets(s) && LockList(s, a).Done?
    ensures ListsMatchSets(LockList(s, a).value.1)
  {
    LockListKeepsLists(s, a);
    var p := Walk(s, a, |s|).value;
    WalkKeepsMembers(s, a, |s|);
    if p.status == pickSuccess {
      WalkPicksLiveReachable(s, a, |s|);
      assert p.s[p.stop].listStatus == listLive;
      MembersTransfer(p.s, SetListStatus(p.s, p.stop, listLock));
    }
  }

  /** `markDead` keeps both invariants. */
  lemma MarkDeadKeepsMembers(s: State, a: Id)
    requires Valid(s) && a < |s| && MarkDeadReady(s, a) && ListsMatchSets(s)
    ensures ListsMatchSets(MarkDead(s, a).1)
  {
    MarkDeadKeepsLists(s, a);
    MembersTransfer(s, MarkDead(s, a).1);
  }

  /** `removeFromList` keeps both invariants: a removed node no longer needs to be on a list. */
  lemma RemoveKeepsMembers(s: State, a: Id)
    requires Valid(s) && a < |s| && s[a].listStatus != listLock && ListsMatchSets(s)
    ensures ListsMatchSets(RemoveFromList(s, a).1)
  {
    RemoveKeepsLists(s, a);
    MembersTransfer(s, RemoveFromList(s, a).1);
  }

  /*************** the splice ***************/

  /**
    The proofs about the splice name each node's set by a label, `lab[y]`,
    which is `Rep(s, y)` where they are used: successors keep the label,
    and a member that is not a tombstone is on the list of every node with
    its label.
   */
  ghost predicate LabelsFollowLists(s: State, lab: seq<Id>)
    requires Valid(s)
  {
    && |lab| == |s|
    && (forall y {:trigger lab[Succ(s, y)]} :: 0 < y < |s| ==> lab[Succ(s, y)] == lab[y])
  }

  ghost predicate LabelledMembersOnList(s: State, lab: seq<Id>)
    requires Valid(s) && |lab| == |s|
  {
    forall x, y {:trigger OnList(s, y, x)} ::
      0 < x < |s| && 0 < y < |s| && lab[x] == lab[y] && s[x].listStatus != listTomb ==> OnList(s, y, x)
  }

  /**
    The facts about a state `t` after the splice of `h` and `o` that the
    proofs below use: every other node keeps its successor, and the two
    exchange their successors, 0 read as the node itself.
   */
  ghost predicate SplicedAt(s: State, t: State, h: Id, o: Id)
    requires Valid(s) && Valid(t) && |t| == |s| && h < |s| && o < |s|
  {
    && (forall y {:trigger t[y]} :: 0 <= y < |s| && y != h && y != o ==> t[y].listNext == s[y].listNext)
    && t[h].listNext == Succ(s, o)
    && t[o].listNext == Succ(s, h)
  }

  lemma SpliceIsSplicedAt(s: State, h: Id, o: Id)
    requires Valid(s) && h < |s| && o < |s| && h != o
    ensures SplicedAt(s, Splice(s, h, o), h, o) && SplicedAt(s, Splice(s, h, o), o, h)
  {
  }

  /** The representatives label the sets under both invariants. */
  lemma RepsLabelLists(s: State) returns (lab: seq<Id>)
    requires Valid(s) && ListsMatchSets(s)
    ensures LabelsFollowLists(s, lab) && LabelledMembersOnList(s, lab)
    ensures forall y :: 0 <= y < |s| ==> lab[y] == Rep(s, y)
  {
    lab := seq(|s|, y requires 0 <= y < |s| => Rep(s, y));
    forall y | 0 < y < |s| ensures lab[Succ(s, y)] == lab[y] {
      assert Rep(s, Succ(s, y)) == Rep(s, y);
    }
  }

  /** A path that meets the spliced nodes `h` and `o` at most at its end survives the splice. */
  lemma {:induction false} SpliceReachOff(s: State, t: State, lab: seq<Id>, h: Id, o: Id, v: Id, z: Id, k: nat)
    returns (k': nat)
    requires Valid(s) && Valid(t) && |t| == |s| && 0 < h < |s| && 0 < o < |s| && 0 < v < |s|
    requires LabelsFollowLists(s, lab) && SplicedAt(s, t, h, o)
    requires Follow(s, v, k) == z
    requires lab[v] != lab[h] || z == h
    requires lab[v] != lab[o] || z == o
    ensures Follow(t, v, k') == z
    decreases k
  {
    if v == z {
      k' := 0;
    } else {
      var w := Succ(s, v);
      SpliceKeepsSucc(s, t, h, o, v);
      FollowFront(s, v, k - 1);
      var k2 := SpliceReachOff(s, t, lab, h, o, w, z, k - 1);
      FollowFront(t, v, k2);
      k' := k2 + 1;
    }
  }

  /** A node other than the two spliced ones keeps its successor. */
  lemma SpliceKeepsSucc(s: State, t: State, h: Id, o: Id, v: Id)
    requires Valid(s) && Valid(t) && |t| == |s| && h < |s| && o < |s| && v < |s| && v != h && v != o
    requires SplicedAt(s, t, h, o)
    ensures Succ(t, v) == Succ(s, v)
  {
    assert t[v].listNext == s[v].listNext;
  }

  /**
    After the splice, the spliced node `h` leads back to its old successor
    through the other list: across to `o`'s old successor, along `o`'s list
    to `o`, and from `o` to `h`'s old successor.
   */
  lemma SpliceDetour(s: State, t: State, lab: seq<Id>, h: Id, o: Id) returns (d: nat)
    requires Valid(s) && Valid(t) && |t| == |s| && 0 < h < |s| && 0 < o < |s|
    requires LabelsFollowLists(s, lab) && LabelledMembersOnList(s, lab) && SplicedAt(s, t, h, o) && lab[h] != lab[o]
    requires s[o].listStatus != listTomb
    ensures Follow(t, h, d) == Succ(s, h)
  {
    var no := Succ(s, o);
    assert Follow(t, h, 1) == no;
    assert lab[no] == lab[o];
    assert OnList(s, no, o);
    var k: nat :| Follow(s, no, k) == o;
    var k1 := SpliceReachOff(s, t, lab, h, o, no, o, k);
    FollowAdd(t, h, 1, k1);
    FollowAdd(t, h, 1 + k1, 1);
    assert Follow(t, o, 1) == Succ(s, h);
    d := k1 + 2;
  }

  /** Within the set of the spliced node `h`, every path survives the splice, with the detour at `h`. */
  lemma {:induction false} SpliceReachInSet(s: State, t: State, lab: seq<Id>, h: Id, o: Id, d: nat, v: Id, x: Id, k: nat)
    returns (k': nat)
    requires Valid(s) && Valid(t) && |t| == |s| && 0 < h < |s| && 0 < o < |s| && 0 < v < |s|
    requires LabelsFollowLists(s, lab) && SplicedAt(s, t, h, o)
    requires lab[v] == lab[h] && lab[h] != lab[o]
    requires Follow(t, h, d) == Succ(s, h)
    requires Follow(s, v, k) == x
    ensures Follow(t, v, k') == x
    decreases k
  {
    if k == 0 {
      k' := 0;
    } else {
      var w := Succ(s, v);
      FollowFront(s, v, k - 1);
      assert 0 < w && lab[w] == lab[h];
      var k2 := SpliceReachInSet(s, t, lab, h, o, d, w, x, k - 1);
      var j := SpliceStepInSet(s, t, lab, h, o, d, v);
      FollowJoin(t, v, j, w, k2, x);
      k' := j + k2;
    }
  }

  /** One step inside `h`'s set survives the splice, as the detour when it leaves `h`. */
  lemma SpliceStepInSet(s: State, t: State, lab: seq<Id>, h: Id, o: Id, d: nat, v: Id) returns (j: nat)
    requires Valid(s) && Valid(t) && |t| == |s| && 0 < h < |s| && 0 < o < |s| && 0 < v < |s|
    requires SplicedAt(s, t, h, o) && |lab| == |s| && lab[v] == lab[h] && lab[h] != lab[o]
    requires Follow(t, h, d) == Succ(s, h)
    ensures Follow(t, v, j) == Succ(s, v)
  {
    if v == h {
      j := d;
    } else {
      SpliceKeepsSucc(s, t, h, o, v);
      FollowFront(t, v, 0);
      j := 1;
    }
  }

  /** From a node of `h`'s set, after the splice a member of `h`'s set that is not a tombstone is on the list. */
  lemma SpliceReachSameSet(s: State, t: State, lab: seq<Id>, h: Id, o: Id, y: Id, x: Id)
    requires Valid(s) && Valid(t) && |t| == |s| && 0 < h < |s| && 0 < o < |s|
    requires LabelsFollowLists(s, lab) && LabelledMembersOnList(s, lab) && SplicedAt(s, t, h, o) && lab[h] != lab[o]
    requires s[o].listStatus != listTomb
    requires 0 < x < |s| && 0 < y < |s| && s[x].listStatus != listTomb
    requires lab[y] == lab[h] && lab[x] == lab[h]
    ensures OnList(t, y, x)
  {
    var dh := SpliceDetour(s, t, lab, h, o);
    assert OnList(s, y, x);
    var k: nat :| Follow(s, y, k) == x;
    var k' := SpliceReachInSet(s, t, lab, h, o, dh, y, x, k);
  }

  /** Lists compose: what is on the list of a node on `y`'s list is on `y`'s list. */
  lemma OnListTrans(s: State, y: Id, m: Id, x: Id)
    requires Valid(s) && y < |s| && m < |s|
    requires OnList(s, y, m) && OnList(s, m, x)
    ensures OnList(s, y, x)
  {
    var k1: nat :| Follow(s, y, k1) == m;
    var k2: nat :| Follow(s, m, k2) == x;
    FollowAdd(s, y, k1, k2);
  }

  /** From a node of `h`'s set, after the splice a member of `o`'s set that is not a tombstone is on the list. */
  lemma SpliceReachOtherSet(s: State, t: State, lab: seq<Id>, h: Id, o: Id, y: Id, x: Id)
    requires Valid(s) && Valid(t) && |t| == |s| && 0 < h < |s| && 0 < o < |s|
    requires LabelsFollowLists(s, lab) && LabelledMembersOnList(s, lab) && SplicedAt(s, t, h, o) && SplicedAt(s, t, o, h) && lab[h] != lab[o]
    requires s[h].listStatus != listTomb && s[o].listStatus != listTomb
    requires 0 < x < |s| && 0 < y < |s| && s[x].listStatus != listTomb
    requires lab[y] == lab[h] && lab[x] == lab[o]
    ensures OnList(t, y, x)
  {
    SpliceReachSameSet(s, t, lab, h, o, y, h);
    var no := Succ(s, o);
    assert lab[no] == lab[o];
    SpliceReachSameSet(s, t, lab, o, h, no, x);
    assert Follow(t, h, 1) == no;
    OnListTrans(t, y, h, no);
    OnListTrans(t, y, no, x);
  }

  /**
    After splicing the lists of two different sets at a member of each
    that is not a tombstone, every such member of either set is on the list
    of every node of the two, and every other set keeps its list.
   */
  lemma SpliceKeepsMembersAt(s: State, h: Id, o: Id, y: Id, x: Id)
    requires Valid(s) && 0 < h < |s| && 0 < o < |s| && Rep(s, h) != Rep(s, o) && ListsMatchSets(s)
    requires s[h].listStatus != listTomb && s[o].listStatus != listTomb
    requires 0 < x < |s| && 0 < y < |s| && s[x].listStatus != listTomb
    requires
      || Rep(s, x) == Rep(s, y)
      || ((Rep(s, x) == Rep(s, h) || Rep(s, x) == Rep(s, o)) && (Rep(s, y) == Rep(s, h) || Rep(s, y) == Rep(s, o)))
    ensures OnList(Splice(s, h, o), y, x)
  {
    var t := Splice(s, h, o);
    SpliceIsSplicedAt(s, h, o);
    var lab := RepsLabelLists(s);
    if lab[y] == lab[h] && lab[x] == lab[h] {
      SpliceReachSameSet(s, t, lab, h, o, y, x);
    } else if lab[y] == lab[o] && lab[x] == lab[o] {
      SpliceReachSameSet(s, t, lab, o, h, y, x);
    } else if lab[y] == lab[h] {
      SpliceReachOtherSet(s, t, lab, h, o, y, x);
    } else if lab[y] == lab[o] {
      SpliceReachOtherSet(s, t, lab, o, h, y, x);
    } else {
      assert OnList(s, y, x);
      var k: nat :| Follow(s, y, k) == x;
      var k' := SpliceReachOff(s, t, lab, h, o, y, x, k);
    }
  }

  /*************** unite ***************/

  /** One pair of nodes after the merge of `unite`: a remaining member is on the list of every node of its new set. */
  lemma MergeMemberAt(s: State, q: Id, r: Id, la: Id, lb: Id, x: Id, y: Id)
    requires Valid(s) && q < r < |s| && s[q].parent == 0 && s[r].parent == 0
    requires 0 < la < |s| && 0 < lb < |s|
    requires (Rep(s, la) == q && Rep(s, lb) == r) || (Rep(s, la) == r && Rep(s, lb) == q)
    requires s[la].listStatus != listTomb && s[lb].listStatus != listTomb
    requires ListsMatchSets(s)
    requires 0 < x < |s| && 0 < y < |s|
    requires Rep(Merge(s, q, r, la, lb), x) == Rep(Merge(s, q, r, la, lb), y)
    requires Merge(s, q, r, la, lb)[x].listStatus != listTomb
    ensures OnList(Merge(s, q, r, la, lb), y, x)
  {
    var t := Merge(s, q, r, la, lb);
    MergeReps(s, q, r, la, lb);
    MergeStatuses(s, q, r, la, lb);
    MergeLists(s, q, r, la, lb);
    assert s[x].listStatus != listTomb;
    assert Rep(t, x) == (if Rep(s, x) == q then r else Rep(s, x));
    assert Rep(t, y) == (if Rep(s, y) == q then r else Rep(s, y));
    SpliceKeepsMembersAt(s, la, lb, y, x);
    var s2 := Splice(s, la, lb);
    var k: nat :| Follow(s2, y, k) == x;
    FollowSameNext(s2, t, y, k);
  }

  /** The merge of `unite` keeps both invariants: the joined set has the joined list. */
  lemma MergeKeepsMembers(s: State, q: Id, r: Id, la: Id, lb: Id)
    requires Valid(s) && q < r < |s| && s[q].parent == 0 && s[r].parent == 0
    requires 0 < la < |s| && 0 < lb < |s|
    requires (Rep(s, la) == q && Rep(s, lb) == r) || (Rep(s, la) == r && Rep(s, lb) == q)
    requires s[la].listStatus != listTomb && s[lb].listStatus != listTomb
    requires ListsMatchSets(s)
    ensures ListsMatchSets(Merge(s, q, r, la, lb))
  {
    MergePutsMembersOnList(s, q, r, la, lb);
    MergeKeepsLists(s, q, r, la, lb);
  }

  /** The membership half of the merge: every remaining member is on the list of every node of its new set. */
  lemma MergePutsMembersOnList(s: State, q: Id, r: Id, la: Id, lb: Id)
    requires Valid(s) && q < r < |s| && s[q].parent == 0 && s[r].parent == 0
    requires 0 < la < |s| && 0 < lb < |s|
    requires (Rep(s, la) == q && Rep(s, lb) == r) || (Rep(s, la) == r && Rep(s, lb) == q)
    requires s[la].listStatus != listTomb && s[lb].listStatus != listTomb
    requires ListsMatchSets(s)
    ensures MembersOnList(Merge(s, q, r, la, lb))
  {
    var t := Merge(s, q, r, la, lb);
    forall x, y | 0 < x < |s| && 0 < y < |s| && Rep(t, x) == Rep(t, y) && t[x].listStatus != listTomb
      ensures OnList(t, y, x)
    {
      MergeMemberAt(s, q, r, la, lb, x, y);
    }
  }

  /** Releasing the root lock, alone or after a locked list slot, keeps both invariants. */
  lemma UnlockKeepsMembers(s: State, q: Id, la: Id)
    requires Valid(s) && q < |s| && la < |s| && ListsMatchSets(s) && s[la].listStatus == listLock
    ensures ListsMatchSets(UnlockUF(s, q)) && ListsMatchSets(UnlockUF(UnlockList(s, la), q))
  {
    UnlockKeepsLists(s, q, la);
    var s6 := UnlockList(s, la);
    MembersTransfer(s, UnlockUF(s, q));
    MembersTransfer(s, s6);
    MembersTransfer(s6, UnlockUF(s6, q));
  }

  /** A `unite` abandoned at either list keeps both invariants. */
  lemma AbandonedKeepsMembers(s: State, a: Id, b: Id, q: Id, r: Id)
    requires Valid(s) && 0 < a < |s| && 0 < b < |s|
    requires q < r < |s| && Rep(s, q) == q && Rep(s, r) == r
    requires ListsMatchSets(s)
    requires LockedUnite(s, a, b, q, r).Done? && LockedUnite(s, a, b, q, r).value.Abandoned?
    ensures ListsMatchSets(LockedUnite(s, a, b, q, r).value.s)
  {
    var (la, s4) := LockList(s, a).value;
    LockListKeepsMembers(s, a);
    if la < 0 {
      MembersTransfer(s4, UnlockUF(s4, q));
      UnlockKeepsLists(s4, q, 0);
    } else {
      var s5 := LockList(s4, b).value.1;
      LockListKeepsMembers(s4, b);
      LockListDead(s4, b);
      assert s5[la].listStatus == listLock;
      UnlockKeepsMembers(s5, q, la);
    }
  }

  /** A `unite` that links keeps both invariants. */
  lemma LinkedKeepsMembers(s: State, a: Id, b: Id, q: Id, r: Id)
    requires Valid(s) && 0 < a < |s| && 0 < b < |s|
    requires q < r < |s| && Rep(s, q) == q && Rep(s, r) == r
    requires (Rep(s, a) == q && Rep(s, b) == r) || (Rep(s, a) == r && Rep(s, b) == q)
    requires ListsMatchSets(s)
    requires LockedUnite(s, a, b, q, r).Done? && LockedUnite(s, a, b, q, r).value.Linked?
    ensures ListsMatchSets(LockedUnite(s, a, b, q, r).value.s)
  {
    LockedUniteLinkedShape(s, a, b, q, r);
    LinkedSlots(s, a, b, q, r);
    var (la, s4) := LockList(s, a).value;
    var (lb, s5) := LockList(s4, b).value;
    LockListKeepsMembers(s, a);
    LockListKeepsMembers(s4, b);
    MergeKeepsMembers(s5, q, r, la, lb);
  }

  /** The two list slots a linking `unite` locks: graph nodes of the two sets, both locked, under the untouched roots. */
  lemma LinkedSlots(s: State, a: Id, b: Id, q: Id, r: Id)
    requires Valid(s) && 0 < a < |s| && 0 < b < |s|
    requires q < r < |s| && Rep(s, q) == q && Rep(s, r) == r
    requires ListsFollowSets(s)
    requires LockedUnite(s, a, b, q, r).Done? && LockedUnite(s, a, b, q, r).value.Linked?
    ensures LockList(s, a).Done? && LockList(s, a).value.0 >= 0
    ensures var (la, s4) := LockList(s, a).value;
      && LockList(s4, b).Done? && LockList(s4, b).value.0 >= 0
      && var (lb, s5) := LockList(s4, b).value;
      && 0 < la < |s| && 0 < lb < |s| && Valid(s5) && |s5| == |s|
      && s5[la].listStatus == listLock && s5[lb].listStatus == listLock
      && Rep(s5, la) == Rep(s, a) && Rep(s5, lb) == Rep(s, b)
      && s5[q].parent == 0 && s5[r].parent == 0
  {
    LockedUniteLinkedShape(s, a, b, q, r);
    var (la, s4) := LockList(s, a).value;
    var (lb, s5) := LockList(s4, b).value;
    LockListKeepsLists(s, a);
    LockListForest(s, a);
    LockListKeepsLists(s4, b);
    LockListPicked(s4, b);
    assert la != lb by {
      assert s4[la].listStatus == listLock && s4[lb].listStatus == listLive;
    }
    assert s5[la].listStatus == listLock;
    assert Rep(s5, la) == Rep(s4, la) == Rep(s, a);
    assert Rep(s5, lb) == Rep(s4, b) == Rep(s, b);
  }

  /** The rest of `unite`, once the smaller root is locked, keeps both invariants. */
  lemma LockedKeepsMembers(s: State, a: Id, b: Id, q: Id, r: Id)
    requires Valid(s) && 0 < a < |s| && 0 < b < |s|
    requires q < r < |s| && Rep(s, q) == q && Rep(s, r) == r
    requires (Rep(s, a) == q && Rep(s, b) == r) || (Rep(s, a) == r && Rep(s, b) == q)
    requires ListsMatchSets(s)
    requires LockedUnite(s, a, b, q, r).Done?
    ensures ListsMatchSets(LockedUnite(s, a, b, q, r).value.s)
  {
    LockedUniteNeverSame(s, a, b, q, r);
    if LockedUnite(s, a, b, q, r).value.Linked? {
      LinkedKeepsMembers(s, a, b, q, r);
    } else {
      AbandonedKeepsMembers(s, a, b, q, r);
    }
  }

  /** `unite` of two graph nodes keeps both invariants, whichever way it ends. */
  lemma UniteKeepsMembers(s: State, a: Id, b: Id)
    requires Valid(s) && 0 < a < |s| && 0 < b < |s| && ListsMatchSets(s)
    requires Unite.Unite(s, a, b).Done?
    ensures ListsMatchSets(Unite.Unite(s, a, b).value.s)
  {
    if Rep(s, a) == Rep(s, b) {
      UniteSameKeepsLists(s, a, b);
      MembersTransfer(s, Unite.Unite(s, a, b).value.s);
    } else {
      UniteShape(s, a, b);
      var q, r := Lo(s, a, b), Hi(s, a, b);
      var s2 := Found(s, a, b);
      var s3 := SetUFStatus(s2, q, UFlock);
      RootLockedKeepsLists(s, a, b);
      MembersTransfer(s, s2);
      MembersTransfer(s2, s3);
      assert Unite.Unite(s, a, b) == LockedUnite(s3, a, b, q, r);
      LockedKeepsMembers(s3, a, b, q, r);
    }
  }
}
