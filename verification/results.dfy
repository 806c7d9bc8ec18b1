/**
  Turning the final union-find state into the answer: graph index `i` is
  union-find id `i + 1`, and every index is filed under the graph index of
  its root, `find(i + 1) - 1`. The source files graph nodes; the model
  files their indices.
 */
module Results {
  import opened Forest

  /** The key under which graph index `i` is filed: the graph index of its root. */
  function Key(s: State, i: nat): (k: int)
    requires Valid(s) && i + 1 < |s|
    ensures 0 <= k < |s| - 1
  {
    Rep(s, i + 1) - 1
  }

  /** `k` is the graph index of a union-find root. */
  predicate IsRootKey(s: State, k: int)
    requires Valid(s)
  {
    0 <= k < |s| - 1 && s[k + 1].parent == 0
  }

  /**
    `r` files the graph indices `0 .. n-1` by root: each index sits in the
    set under its root's key, every filed index is below `n` and sits under
    its own root's key only, every key is a root's graph index and no set
    is empty.
   */
  ghost predicate Grouping(s: State, n: nat, r: map<int, set<nat>>)
    requires Valid(s) && n < |s|
  {
    && (forall i: nat :: i < n ==> Key(s, i) in r && i in r[Key(s, i)])
    && (forall k :: k in r ==> r[k] != {})
    && (forall k :: k in r ==> IsRootKey(s, k))
    && (forall k, i: nat :: k in r && i in r[k] ==> i < n)
    && (forall k, i: nat :: k in r && i in r[k] && i < n ==> k == Key(s, i))
  }

  /**
    One step of the loop: the set under `key` is created if the map has
    none, and `i` is added to it. No other entry changes.
   */
  function FileUnder(r: map<int, set<nat>>, key: int, i: nat): (r': map<int, set<nat>>)
    ensures r'.Keys == r.Keys + {key}
    ensures r'[key] == (if key in r then r[key] else {}) + {i}
    ensures forall k :: k in r && k != key ==> r'[k] == r[k]
  {
    var r1 := if key in r then r else r[key := {}];
    r1[key := r1[key] + {i}]
  }

  /** Filing index `i` under its key extends a grouping of the indices below `i` to one of the indices up to `i`. */
  lemma FilingExtendsGrouping(s: State, i: nat, r: map<int, set<nat>>)
    requires Valid(s) && i + 1 < |s| && Grouping(s, i, r)
    ensures Grouping(s, i + 1, FileUnder(r, Key(s, i), i))
  {
    var r' := FileUnder(r, Key(s, i), i);
    var key := Key(s, i);
    assert IsRootKey(s, key);
    forall k, j: nat | k in r' && j in r'[k] ensures j < i + 1 {
      if k != key || key in r {
        assert j == i || j in r[k];
      }
    }
    forall k, j: nat | k in r' && j in r'[k] && j < i + 1 ensures k == Key(s, j) {
      if k != key || key in r {
        assert j == i || j in r[k];
      }
    }
    forall j: nat | j < i + 1 ensures Key(s, j) in r' && j in r'[Key(s, j)] {
      if j < i {
        assert Key(s, j) in r && j in r[Key(s, j)];
      }
    }
  }

  /**
    The result loop of `searchHelper`: each index is looked up with `find`
    (which may compress paths) and added to its root's set, creating the
    set on first use.
   */
  method GroupByRoot(s: State, n: nat) returns (result: map<int, set<nat>>, t: State)
    requires Valid(s) && n < |s|
    ensures Valid(t) && |t| == |s| && SameReps(s, t) && Compressed(s, t)
    ensures Grouping(s, n, result)
  {
    result := map[];
    t := s;
    var i := 0;
    while i < n
      invariant 0 <= i <= n
      invariant Valid(t) && |t| == |s| && SameReps(s, t) && Compressed(s, t)
      invariant Grouping(s, i, result)
    {
      var (root, t1) := Find(t, i + 1);
      CompressedTransitive(s, t, t1);
      FilingExtendsGrouping(s, i, result);
      result := FileUnder(result, root - 1, i);
      t := t1;
      i := i + 1;
    }
  }

  /**
    The grouping is a partition of `0 .. n-1` by root: an index is filed
    somewhere exactly when it is below `n`, under one key only, and two
    indices share a set exactly when they share a root.
   */
  lemma GroupingIsPartition(s: State, n: nat, r: map<int, set<nat>>)
    requires Valid(s) && n < |s| && Grouping(s, n, r)
    ensures forall k, i: nat :: k in r && i in r[k] ==> i < n
    ensures forall i: nat, k1, k2 :: k1 in r && k2 in r && i in r[k1] && i in r[k2] ==> k1 == k2
    ensures forall i: nat, j: nat :: i < n && j < n ==> (j in r[Key(s, i)] <==> Key(s, i) == Key(s, j))
  {
    forall i: nat, k1, k2 | k1 in r && k2 in r && i in r[k1] && i in r[k2] ensures k1 == k2 {
      assert k1 == Key(s, i) == k2;
    }
  }

  /** Indices and union-find ids are one apart: the key of a root's own index is that index. */
  lemma RootIndexIsItsOwnKey(s: State, n: nat, r: map<int, set<nat>>, i: nat)
    requires Valid(s) && n < |s| && Grouping(s, n, r)
    requires i < n && s[i + 1].parent == 0
    ensures i in r && i in r[i]
  {
    assert Key(s, i) == i;
  }

  /** Before any union every index is alone in its own set, filed under itself. */
  lemma InitialGroupingIsSingletons(n: nat, r: map<int, set<nat>>)
    requires Grouping(Init(n), n, r)
    ensures forall i: nat :: i < n ==> i in r && r[i] == {i}
    ensures forall k :: k in r ==> 0 <= k < n
  {
    InitIsForestOfSingletons(n);
    forall i: nat | i < n ensures i in r && r[i] == {i} {
      assert Key(Init(n), i) == i;
      forall j | j in r[i] ensures j == i {
        assert j < n;
        assert Key(Init(n), j) == j;
      }
    }
    forall k | k in r ensures 0 <= k < n {
      var j :| j in r[k];
      assert j < n;
      assert Key(Init(n), j) == j;
    }
  }
}
