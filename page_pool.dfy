/**
 * The abstract state of a tagged page pool, as values.
 *
 * A pool maps each tag to the chain of nodes allocated under it (in allocation
 * order, which is also link order), keeps a FIFO queue of nodes free for reuse,
 * and remembers the set of every node it ever created.  The node type `N` stands
 * for node identity (a pointer in the implementation); the page a node owns is
 * identified with the node.
 */
module PagePool {

  /** Tags are caller-chosen 64-bit unsigned integers. */
  newtype uint64 = x: int | 0 <= x < 0x1_0000_0000_0000_0000

  datatype Pool<N> = Pool(used: map<uint64, seq<N>>, free: seq<N>, created: set<N>)

  /** The result of one allocation: the node handed out and the pool afterwards. */
  datatype Grant<N> = Grant(node: N, pool: Pool<N>)

  /** The chains of `m` laid end to end, tag by tag in some order. */
  ghost function Gather<N>(m: map<uint64, seq<N>>): seq<N>
    decreases |m|
  {
    if m == map[] then []
    else
      var t :| t in m;
      assert (m - {t}).Keys == m.Keys - {t};
      m[t] + Gather(m - {t})
  }

  /**
   * The partition invariant.  Every chain is non-empty (a tag is a key exactly
   * when it owns a node), and counting every chain and the free queue together
   * counts each created node exactly once and nothing else.
   */
  ghost predicate Valid<N>(p: Pool<N>) {
    && (forall t :: t in p.used ==> p.used[t] != [])
    && multiset(Gather(p.used)) + multiset(p.free) == multiset(p.created)
  }

  /**
   * One allocation for tag `id`.  `newNode` is what allocating a new node would
   * return; it is used only when the free queue is empty.
   */
  function Allocate<N>(p: Pool<N>, id: uint64, newNode: N): Grant<N> {
    var node := if p.free == [] then newNode else p.free[0];
    var chain := if id in p.used then p.used[id] else [];
    Grant(node, Pool(p.used[id := chain + [node]],
                     if p.free == [] then [] else p.free[1..],
                     p.created + {node}))
  }

  /** Releases every node of tag `id` to the back of the free queue. */
  function ReleaseAll<N>(p: Pool<N>, id: uint64): Pool<N> {
    if id !in p.used then p
    else Pool(p.used - {id}, p.free + p.used[id], p.created)
  }

  /** A run of allocations that the free queue can serve without creating nodes. */
  function AllocateEach<N>(p: Pool<N>, ids: seq<uint64>): (seq<N>, Pool<N>)
    requires |ids| <= |p.free|
    decreases |ids|
  {
    if ids == [] then ([], p)
    else
      var g := Allocate(p, ids[0], p.free[0]);
      var rest := AllocateEach(g.pool, ids[1..]);
      ([g.node] + rest.0, rest.1)
  }

  // ---------------------------------------------------------------------------
  // The fold over chains

  /** Taking any one chain out of the fold leaves the fold of the others. */
  lemma {:induction false} GatherRemove<N>(m: map<uint64, seq<N>>, k: uint64)
    requires k in m
    ensures multiset(Gather(m)) == multiset(m[k]) + multiset(Gather(m - {k}))
    decreases |m|
  {
    var t :| t in m && Gather(m) == m[t] + Gather(m - {t});
    if t != k {
      assert (m - {t}).Keys == m.Keys - {t};
      assert (m - {k}).Keys == m.Keys - {k};
      GatherRemove(m - {t}, k);
      GatherRemove(m - {k}, t);
      assert m - {t} - {k} == m - {k} - {t};
    }
  }

  /** Replacing the chain of `k` changes the fold by exactly that chain. */
  lemma GatherUpdate<N>(m: map<uint64, seq<N>>, k: uint64, c: seq<N>)
    ensures multiset(Gather(m[k := c])) == multiset(Gather(m - {k})) + multiset(c)
  {
    GatherRemove(m[k := c], k);
    assert m[k := c] - {k} == m - {k};
  }

  /** Two occurrences of one value count twice. */
  lemma RepeatCounts<N>(s: seq<N>, i: nat, j: nat)
    requires i < j < |s|
    ensures s[i] == s[j] ==> multiset(s)[s[i]] >= 2
  {
    assert s == s[..j] + s[j..];
    assert s[i] in s[..j];
    assert s[j] == s[j..][0];
    assert multiset(s) == multiset(s[..j]) + multiset(s[j..]);
  }

  // ---------------------------------------------------------------------------
  // What the partition invariant means, pointwise

  /** A node counts at most once in any one chain and the free queue together. */
  lemma CountInChain<N>(p: Pool<N>, t: uint64, x: N)
    requires Valid(p) && t in p.used
    ensures multiset(p.used[t])[x] + multiset(p.free)[x] <= if x in p.created then 1 else 0
  {
    GatherRemove(p.used, t);
    assert multiset(p.used[t])[x] + multiset(p.free)[x] <= multiset(p.created)[x];
  }

  /** A node counts at most once in two different chains together. */
  lemma CountInTwoChains<N>(p: Pool<N>, t1: uint64, t2: uint64, x: N)
    requires Valid(p) && t1 in p.used && t2 in p.used && t1 != t2
    ensures multiset(p.used[t1])[x] + multiset(p.used[t2])[x] <= 1
  {
    GatherRemove(p.used, t1);
    GatherRemove(p.used - {t1}, t2);
    assert multiset(p.used[t1])[x] + multiset(p.used[t2])[x] <= multiset(p.created)[x];
  }

  /** A node counts at most once in the free queue, and only if it was created. */
  lemma CountInFree<N>(p: Pool<N>, x: N)
    requires Valid(p)
    ensures multiset(p.free)[x] <= if x in p.created then 1 else 0
  {
    assert multiset(p.free)[x] <= multiset(p.created)[x];
  }

  /**
   * Under the partition invariant no node appears twice in a chain, in two
   * chains, in a chain and the free queue, or twice in the free queue; and every
   * node in a chain or in the free queue is one the pool created.
   */
  lemma Placement<N>(p: Pool<N>)
    requires Valid(p)
    ensures forall t, i, j :: t in p.used && 0 <= i < j < |p.used[t]| ==> p.used[t][i] != p.used[t][j]
    ensures forall t1, t2, i, j ::
              t1 in p.used && t2 in p.used && t1 != t2 && 0 <= i < |p.used[t1]| && 0 <= j < |p.used[t2]|
              ==> p.used[t1][i] != p.used[t2][j]
    ensures forall t, i, j :: t in p.used && 0 <= i < |p.used[t]| && 0 <= j < |p.free| ==> p.used[t][i] != p.free[j]
    ensures forall i, j :: 0 <= i < j < |p.free| ==> p.free[i] != p.free[j]
    ensures forall t, i :: t in p.used && 0 <= i < |p.used[t]| ==> p.used[t][i] in p.created
    ensures forall j :: 0 <= j < |p.free| ==> p.free[j] in p.created
  {
    forall t, i, j | t in p.used && 0 <= i < j < |p.used[t]|
      ensures p.used[t][i] != p.used[t][j]
    {
      RepeatCounts(p.used[t], i, j);
      CountInChain(p, t, p.used[t][i]);
    }
    forall t1, t2, i, j |
      t1 in p.used && t2 in p.used && t1 != t2 && 0 <= i < |p.used[t1]| && 0 <= j < |p.used[t2]|
      ensures p.used[t1][i] != p.used[t2][j]
    {
      CountInTwoChains(p, t1, t2, p.used[t1][i]);
      assert p.used[t2][j] in multiset(p.used[t2]);
    }
    forall t, i, j | t in p.used && 0 <= i < |p.used[t]| && 0 <= j < |p.free|
      ensures p.used[t][i] != p.free[j]
    {
      CountInChain(p, t, p.used[t][i]);
      assert p.free[j] in multiset(p.free);
    }
    forall i, j | 0 <= i < j < |p.free|
      ensures p.free[i] != p.free[j]
    {
      RepeatCounts(p.free, i, j);
      CountInFree(p, p.free[i]);
    }
    forall t, i | t in p.used && 0 <= i < |p.used[t]|
      ensures p.used[t][i] in p.created
    {
      CountInChain(p, t, p.used[t][i]);
      assert p.used[t][i] in multiset(p.used[t]);
    }
    forall j | 0 <= j < |p.free|
      ensures p.free[j] in p.created
    {
      CountInFree(p, p.free[j]);
      assert p.free[j] in multiset(p.free);
    }
  }

  /** The last node of a chain occurs nowhere else in any chain. */
  lemma TailApart<N>(p: Pool<N>, id: uint64)
    requires Valid(p) && id in p.used
    ensures var c := p.used[id];
            && c[|c| - 1] !in c[..|c| - 1]
            && forall t :: t in p.used && t != id ==> c[|c| - 1] !in p.used[t]
  {
    var c := p.used[id];
    var x := c[|c| - 1];
    CountInChain(p, id, x);
    assert c == c[..|c| - 1] + [x];
    assert multiset(c) == multiset(c[..|c| - 1]) + multiset{x};
    forall t | t in p.used && t != id
      ensures x !in p.used[t]
    {
      CountInTwoChains(p, id, t, x);
    }
  }

  /** Counting nodes: the chain lengths plus the free-queue length is the number created. */
  lemma NodeCount<N>(p: Pool<N>)
    requires Valid(p)
    ensures |Gather(p.used)| + |p.free| == |p.created|
  {
    calc {
      |Gather(p.used)| + |p.free|;
      |multiset(Gather(p.used))| + |multiset(p.free)|;
      |multiset(p.created)|;
    }
  }

  // ---------------------------------------------------------------------------
  // Allocation

  /** Taking a chain out of the fold, whether or not the tag has one. */
  lemma GatherSplit<N>(m: map<uint64, seq<N>>, k: uint64)
    ensures multiset(Gather(m)) == multiset(Gather(m - {k})) + multiset(if k in m then m[k] else [])
  {
    if k in m {
      GatherRemove(m, k);
    } else {
      assert m - {k} == m;
    }
  }

  /** The nodes in chains and queue after an allocation: one more exactly when one was created. */
  lemma AllocateCensus<N>(p: Pool<N>, id: uint64, newNode: N)
    ensures var q := Allocate(p, id, newNode).pool;
            multiset(Gather(q.used)) + multiset(q.free)
            == multiset(Gather(p.used)) + multiset(p.free) + (if p.free == [] then multiset{newNode} else multiset{})
  {
    var g := Allocate(p, id, newNode);
    var chain := if id in p.used then p.used[id] else [];
    GatherSplit(p.used, id);
    GatherUpdate(p.used, id, chain + [g.node]);
    assert multiset(chain + [g.node]) == multiset(chain) + multiset{g.node};
    if p.free != [] {
      assert p.free == [g.node] + g.pool.free;
      assert multiset(p.free) == multiset{g.node} + multiset(g.pool.free);
    }
  }

  /**
   * Allocation keeps the partition invariant, provided a newly created node
   * is genuinely new.
   */
  lemma AllocatePreservesValid<N>(p: Pool<N>, id: uint64, newNode: N)
    requires Valid(p)
    requires p.free == [] ==> newNode !in p.created
    ensures Valid(Allocate(p, id, newNode).pool)
  {
    var g := Allocate(p, id, newNode);
    AllocateCensus(p, id, newNode);
    if p.free == [] {
      assert multiset(g.pool.created) == multiset(p.created) + multiset{newNode};
    } else {
      CountInFree(p, p.free[0]);
      assert p.free[0] in multiset(p.free);
      assert g.pool.created == p.created;
    }
  }

  /**
   * A pool whose parts are those an allocation produces is that allocation's
   * result, and it keeps the partition invariant.
   */
  lemma AllocateOutcome<N>(p: Pool<N>, id: uint64, node: N, q: Pool<N>)
    requires Valid(p)
    requires p.free == [] ==> node !in p.created
    requires p.free != [] ==> node == p.free[0]
    requires q.used == p.used[id := (if id in p.used then p.used[id] else []) + [node]]
    requires q.free == (if p.free == [] then [] else p.free[1..])
    requires q.created == p.created + {node}
    ensures Valid(q) && Allocate(p, id, node) == Grant(node, q)
  {
    AllocatePreservesValid(p, id, node);
  }

  /**
   * The node handed out is in no tag's chain beforehand, so two live page
   * handles never alias; it ends up at the tail of the chain of `id`.
   */
  lemma AllocateNeverAliases<N>(p: Pool<N>, id: uint64, newNode: N)
    requires Valid(p)
    requires p.free == [] ==> newNode !in p.created
    ensures forall t :: t in p.used ==> Allocate(p, id, newNode).node !in p.used[t]
  {
    if p.free != [] {
      Placement(p);
    } else {
      forall t | t in p.used
        ensures newNode !in p.used[t]
      {
        GatherRemove(p.used, t);
        assert multiset(p.used[t]) <= multiset(p.created);
        assert newNode !in multiset(p.created);
      }
    }
  }

  /** A run of allocations that the free queue can serve hands out its front nodes in order. */
  lemma {:induction false} FifoReuse<N>(p: Pool<N>, ids: seq<uint64>)
    requires |ids| <= |p.free|
    ensures AllocateEach(p, ids).0 == p.free[..|ids|]
    ensures AllocateEach(p, ids).1.free == p.free[|ids|..]
    decreases |ids|
  {
    if ids != [] {
      var g := Allocate(p, ids[0], p.free[0]);
      FifoReuse(g.pool, ids[1..]);
      assert g.pool.free == p.free[1..];
      assert p.free[..|ids|] == [p.free[0]] + g.pool.free[..|ids| - 1];
      assert p.free[|ids|..] == g.pool.free[|ids| - 1..];
    }
  }

  /**
   * Allocations the free queue can serve create no node: in a partitioned
   * pool every queued node was created before.
   */
  lemma {:induction false} ReuseCreatesNothing<N>(p: Pool<N>, ids: seq<uint64>)
    requires Valid(p) && |ids| <= |p.free|
    ensures AllocateEach(p, ids).1.created == p.created
    decreases |ids|
  {
    if ids != [] {
      var g := Allocate(p, ids[0], p.free[0]);
      AllocatePreservesValid(p, ids[0], p.free[0]);
      CountInFree(p, p.free[0]);
      assert p.free[0] in multiset(p.free);
      ReuseCreatesNothing(g.pool, ids[1..]);
    }
  }

  // ---------------------------------------------------------------------------
  // Release

  /** Releasing a tag keeps the partition invariant. */
  lemma ReleasePreservesValid<N>(p: Pool<N>, id: uint64)
    requires Valid(p)
    ensures Valid(ReleaseAll(p, id))
  {
    if id in p.used {
      GatherRemove(p.used, id);
    }
  }

  /** Releasing a tag moves nodes without creating or losing any. */
  lemma ReleaseKeepsNodes<N>(p: Pool<N>, id: uint64)
    ensures multiset(Gather(ReleaseAll(p, id).used)) + multiset(ReleaseAll(p, id).free)
            == multiset(Gather(p.used)) + multiset(p.free)
    ensures |Gather(ReleaseAll(p, id).used)| + |ReleaseAll(p, id).free| == |Gather(p.used)| + |p.free|
  {
    if id in p.used {
      GatherRemove(p.used, id);
    }
    var q := ReleaseAll(p, id);
    calc {
      |Gather(q.used)| + |q.free|;
      |multiset(Gather(q.used)) + multiset(q.free)|;
      |multiset(Gather(p.used)) + multiset(p.free)|;
      |Gather(p.used)| + |p.free|;
    }
  }

  /** Releasing an unknown tag changes nothing, and releasing a tag twice is releasing it once. */
  lemma ReleaseIsIdempotent<N>(p: Pool<N>, id: uint64)
    ensures id !in p.used ==> ReleaseAll(p, id) == p
    ensures ReleaseAll(ReleaseAll(p, id), id) == ReleaseAll(p, id)
  {
  }

  /**
   * After a tag is released, the allocations that follow hand out the nodes
   * that were already free, then the released chain in its allocation order,
   * before any node is created.
   */
  lemma ReleasedPagesReusedInOrder<N>(p: Pool<N>, tag: uint64, ids: seq<uint64>)
    requires tag in p.used
    requires |ids| == |p.free| + |p.used[tag]|
    ensures AllocateEach(ReleaseAll(p, tag), ids).0 == p.free + p.used[tag]
    ensures Valid(p) ==> AllocateEach(ReleaseAll(p, tag), ids).1.created == p.created
  {
    FifoReuse(ReleaseAll(p, tag), ids);
    if Valid(p) {
      ReleasePreservesValid(p, tag);
      ReuseCreatesNothing(ReleaseAll(p, tag), ids);
    }
  }

  // ---------------------------------------------------------------------------
  // The worked example: pages 1, 2, 3

  /** Two pages for tag 1, then one for tag 2, from an empty pool: all three are created. */
  lemma ExampleAllocations()
    ensures Allocate(Pool(map[], [], {}), 1, 1) == Grant(1, Pool(map[1 := [1]], [], {1}))
    ensures Allocate(Pool(map[1 := [1]], [], {1}), 1, 2) == Grant(2, Pool(map[1 := [1, 2]], [], {1, 2}))
    ensures Allocate(Pool(map[1 := [1, 2]], [], {1, 2}), 2, 3)
            == Grant(3, Pool(map[1 := [1, 2], 2 := [3]], [], {1, 2, 3}))
  {
    assert [] + [1] == [1] && [1] + [2] == [1, 2] && [] + [3] == [3];
  }

  /**
   * Releasing tag 1 queues pages 1 and 2; the next page, for tag 3, is page 1
   * again (4 would only be used if the queue were empty); releasing tag 2
   * queues page 3 behind page 2.
   */
  lemma ExampleReleaseAndReuse()
    ensures ReleaseAll(Pool(map[1 := [1, 2], 2 := [3]], [], {1, 2, 3}), 1) == Pool(map[2 := [3]], [1, 2], {1, 2, 3})
    ensures Allocate(Pool(map[2 := [3]], [1, 2], {1, 2, 3}), 3, 4)
            == Grant(1, Pool(map[2 := [3], 3 := [1]], [2], {1, 2, 3}))
    ensures ReleaseAll(Pool(map[2 := [3], 3 := [1]], [2], {1, 2, 3}), 2) == Pool(map[3 := [1]], [2, 3], {1, 2, 3})
  {
    assert [] + [1] == [1];
    assert map[1 := [1, 2], 2 := [3]] - {1} == map[2 := [3]];
    assert map[2 := [3], 3 := [1]] - {2} == map[3 := [1]];
  }

  /** At the end of the example each of the three pages is in exactly one place. */
  lemma ExampleEndsPartitioned()
    ensures Valid(Pool(map[3 := [1]], [2, 3], {1, 2, 3}))
  {
    GatherRemove(map[3 := [1]], 3);
    assert map[3 := [1]] - {3} == map[];
    assert multiset({1, 2, 3}) == multiset{1, 2, 3};
  }
}
