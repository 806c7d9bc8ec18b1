/**
  The per-node record of the union-find engine: the union-find parent, the
  successor in the cyclic membership list, the two status fields that act as
  slot locks, and the bitmask of workers that have visited the node's
  component. The atomic fields of `UFNode` are plain fields here; every
  operation of the engine is one sequential step on a sequence of these
  records.
 */
module UFNodes {

  /** Status of a node in the union-find forest. */
  datatype UFStatus =
    | UFlive   // available for processing
    | UFlock   // a thread prevents others from changing the parent
    | UFdead   // the node's maximal SCC has been found

  /** Status of a node in its cyclic list. */
  datatype ListStatus =
    | listLive  // the node can be modified in the list
    | listLock  // the node is busy in a list operation
    | listTomb  // the node has been fully explored

  /** The worker bitmask is one Java `long`: at most 64 workers. */
  const MaxWorkers: nat := 64

  /** Node ids index the state; id 0 is the "no parent" / "no successor" sentinel. */
  type Id = nat

  /** A worker id: the index of one bit of the 64-bit worker mask. */
  type WorkerId = w: nat | w < MaxWorkers

  /**
    The worker mask, as the set of the indices of its one bits: bitwise or
    is union and testing bit `w` is membership of `w`.
   */
  type WorkerMask = set<WorkerId>

  datatype UFNode = UFNode(
    parent: Id,          // 0: the node is a union-find root
    listNext: Id,        // 0: the node is alone in its list
    ufStatus: UFStatus,
    listStatus: ListStatus,
    workerSet: WorkerMask)

  /** A node as the constructor builds it. */
  function Fresh(): (n: UFNode)
    ensures n.parent == 0 && n.listNext == 0
    ensures n.ufStatus == UFlive && n.listStatus == listLive
    ensures n.workerSet == {}
  {
    UFNode(0, 0, UFlive, listLive, {})
  }

  /** A mask holds at most 64 workers. */
  lemma MaskHoldsAtMost64(m: WorkerMask)
    ensures |m| <= MaxWorkers
  {
    var all := Below(MaxWorkers);
    assert m <= all by {
      forall w | w in m ensures w in all {}
    }
    SubsetSize(m, all);
  }

  /** The ids below `n`. */
  function Below(n: nat): (r: set<nat>)
    ensures forall w: nat :: w in r <==> w < n
    ensures |r| == n
  {
    if n == 0 then {} else
      var r := Below(n - 1);
      assert n - 1 !in r;
      r + {n - 1}
  }

  lemma SubsetSize<T>(a: set<T>, b: set<T>)
    requires a <= b
    ensures |a| <= |b|
  {
    assert b == a + (b - a);
  }

  /**
    Java's `1L << w` uses only the low six bits of the shift count; this is
    that operation on an arbitrary non-negative count.
   */
  function JavaLongBit(w: nat): bv64
  {
    (1 as bv64) << (w % 64)
  }

  /**
    Worker 64 would alias worker 0 (and 65 worker 1), which is why worker
    ids stay below 64; below that every worker has its own bit.
   */
  lemma WorkerBitAliasesBeyondWidth()
    ensures JavaLongBit(MaxWorkers) == JavaLongBit(0) == 1
    ensures JavaLongBit(MaxWorkers + 1) == JavaLongBit(1) == 2
    ensures forall w, v :: 0 <= w < v < MaxWorkers ==> JavaLongBit(w) != JavaLongBit(v)
  {
    forall w, v | 0 <= w < v < MaxWorkers ensures JavaLongBit(w) != JavaLongBit(v) {
      ShiftIsInjective(w, v);
    }
  }

  lemma ShiftIsInjective(w: nat, v: nat)
    requires w < v < 64
    ensures (1 as bv64) << w != (1 as bv64) << v
  {
    var bw := (1 as bv64) << w;
    var bv := (1 as bv64) << v;
    assert bv >> v == 1;
    assert bw >> v == 0;
  }
}
