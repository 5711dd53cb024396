/**
 * The tagged heap of FiberTaskingLib: a pool of fixed-size pages handed out
 * under caller-chosen tags and released a whole tag at a time.
 *
 * Each tag maps to the head of a singly linked chain of memory nodes; freed
 * nodes wait in a FIFO queue for reuse.  The link of every node the heap has
 * created is kept in the heap's table `nextNode` (null marks the end of a
 * chain); the domain of that table is the set of nodes created so far.  The
 * ghost field `chains` lists each tag's nodes in link order, and with the free
 * queue and the node table gives the abstract pool of module PagePool that
 * the heap implements.
 *
 * The critical section is modelled only by its recursion count `lockCount`,
 * which entering raises and leaving lowers, so that every method can say
 * whether it leaves the lock as it found it.
 */
module FiberTaskingLib {
  import opened PagePool

  /** A node owns one page of `pageSize` bytes; the node stands for its page. */
  class MemoryNode {
    const pageSize: nat

    constructor (pageSize: nat)
      ensures this.pageSize == pageSize
    {
      this.pageSize := pageSize;
    }
  }

  /** Under `link`, each node of `chain` leads to the next one and the last one to null. */
  ghost predicate Linked(chain: seq<MemoryNode>, link: map<MemoryNode, MemoryNode?>)
    decreases |chain|
  {
    chain != [] ==>
      && chain[0] in link
      && link[chain[0]] == (if |chain| == 1 then null else chain[1])
      && Linked(chain[1..], link)
  }

  /** The last node of a non-empty chain. */
  function Last(chain: seq<MemoryNode>): MemoryNode
    requires chain != []
  {
    chain[|chain| - 1]
  }

  /** The `i`-th node of a linked chain is in the table and leads to the next node, or to null after the last. */
  lemma {:induction false} LinkedAt(chain: seq<MemoryNode>, link: map<MemoryNode, MemoryNode?>, i: nat)
    requires Linked(chain, link) && i < |chain|
    ensures chain[i] in link && link[chain[i]] == if i + 1 < |chain| then chain[i + 1] else null
    decreases i
  {
    if i > 0 {
      LinkedAt(chain[1..], link, i - 1);
    }
  }

  /** The node reached from `n` by following `k` links. */
  ghost function Follow(link: map<MemoryNode, MemoryNode?>, n: MemoryNode?, k: nat): MemoryNode?
    decreases k
  {
    if k == 0 || n == null || n !in link then n else Follow(link, link[n], k - 1)
  }

  /**
   * Following the links from the `j`-th node of a linked chain visits the
   * chain's nodes in order and reaches null right after the last one, so a
   * walk from the head stops after exactly as many steps as the chain is long.
   */
  lemma {:induction false} FollowChain(chain: seq<MemoryNode>, link: map<MemoryNode, MemoryNode?>, j: nat, k: nat)
    requires Linked(chain, link) && j < |chain| && j + k <= |chain|
    ensures Follow(link, chain[j], k) == if j + k < |chain| then chain[j + k] else null
    decreases k
  {
    if k > 0 {
      LinkedAt(chain, link, j);
      if j + 1 < |chain| {
        FollowChain(chain, link, j + 1, k - 1);
      }
    }
  }

  /** Changing the link of a node outside a chain keeps the chain linked. */
  lemma {:induction false} LinkedUpdate(chain: seq<MemoryNode>, link: map<MemoryNode, MemoryNode?>, n: MemoryNode, v: MemoryNode?)
    requires Linked(chain, link) && n !in chain
    ensures Linked(chain, link[n := v])
    decreases |chain|
  {
    if chain != [] {
      assert chain[0] in chain;
      assert forall m :: m in chain[1..] ==> m in chain;
      LinkedUpdate(chain[1..], link, n, v);
    }
  }

  /**
   * Linking a null-terminated node from outside the chain after the chain's
   * tail gives a linked chain one longer, provided the tail occurs only once.
   */
  lemma {:induction false} LinkedAppend(chain: seq<MemoryNode>, link: map<MemoryNode, MemoryNode?>, x: MemoryNode)
    requires Linked(chain, link) && chain != []
    requires x in link && link[x] == null && x !in chain
    requires Last(chain) !in chain[..|chain| - 1]
    ensures Linked(chain + [x], link[Last(chain) := x])
    decreases |chain|
  {
    var tail := Last(chain);
    var l := link[tail := x];
    assert x != tail;
    if |chain| == 1 {
      assert chain + [x] == [tail, x];
      assert [tail, x][1..] == [x];
      assert [x][1..] == [];
    } else {
      var rest := chain[1..];
      assert chain[0] in chain[..|chain| - 1];
      assert Last(rest) == tail;
      forall k | 0 <= k < |rest|
        ensures rest[k] != x && (k < |rest| - 1 ==> rest[k] != tail)
      {
        assert rest[k] == chain[k + 1];
        if k < |rest| - 1 {
          assert rest[k] == chain[..|chain| - 1][k + 1];
        }
      }
      LinkedAppend(rest, link, x);
      assert (chain + [x])[1..] == rest + [x];
    }
  }

  /**
   * The link structure of a heap with entry map `used`, chains `chains`, node
   * table `link` and page size `pageSize`: each tag's entry is the head of its
   * non-empty chain, whose nodes the table links in order, and every node in
   * the table owns a page of the heap's size.
   */
  ghost predicate Links(used: map<uint64, MemoryNode>, chains: map<uint64, seq<MemoryNode>>,
                        link: map<MemoryNode, MemoryNode?>, pageSize: nat)
  {
    && used.Keys == chains.Keys
    && (forall t :: t in chains ==> chains[t] != [] && used[t] == chains[t][0] && Linked(chains[t], link))
    && (forall n :: n in link ==> n.pageSize == pageSize)
  }

  /** Clearing the link of a node of the right size that lies in no chain keeps the structure. */
  lemma LinksClear(used: map<uint64, MemoryNode>, chains: map<uint64, seq<MemoryNode>>,
                   link: map<MemoryNode, MemoryNode?>, pageSize: nat, node: MemoryNode)
    requires Links(used, chains, link, pageSize) && node.pageSize == pageSize
    requires forall t :: t in chains ==> node !in chains[t]
    ensures Links(used, chains, link[node := null], pageSize)
    ensures link[node := null].Keys == link.Keys + {node}
  {
    forall t | t in chains
      ensures Linked(chains[t], link[node := null])
    {
      LinkedUpdate(chains[t], link, node, null);
    }
    assert forall n :: n in link[node := null] ==> n == node || n in link;
  }

  /** A null-terminated node under a new tag is that tag's one-node chain. */
  lemma LinksStart(used: map<uint64, MemoryNode>, chains: map<uint64, seq<MemoryNode>>,
                   link: map<MemoryNode, MemoryNode?>, pageSize: nat, id: uint64, node: MemoryNode)
    requires Links(used, chains, link, pageSize) && id !in chains
    requires node in link && link[node] == null
    ensures Links(used[id := node], chains[id := [node]], link, pageSize)
  {
    assert [node][1..] == [];
    assert Linked([node], link);
  }

  /**
   * Linking a null-terminated node that lies in no chain after the tail of
   * the chain of `id` makes it the chain's new tail and leaves every other
   * chain as it was, provided the tail occurs nowhere else.
   */
  lemma LinksAppend(used: map<uint64, MemoryNode>, chains: map<uint64, seq<MemoryNode>>,
                    link: map<MemoryNode, MemoryNode?>, pageSize: nat, id: uint64, node: MemoryNode)
    requires Links(used, chains, link, pageSize) && id in chains
    requires node in link && link[node] == null
    requires forall t :: t in chains ==> node !in chains[t]
    requires Last(chains[id]) !in chains[id][..|chains[id]| - 1]
    requires forall t :: t in chains && t != id ==> Last(chains[id]) !in chains[t]
    ensures Links(used, chains[id := chains[id] + [node]], link[Last(chains[id]) := node], pageSize)
  {
    var chain := chains[id];
    var tail := Last(chain);
    LinkedAppend(chain, link, node);
    forall t | t in chains && t != id
      ensures Linked(chains[t], link[tail := node])
    {
      LinkedUpdate(chains[t], link, tail, node);
    }
    LinkedAt(chain, link, |chain| - 1);
    assert forall n :: n in link[tail := node] ==> n in link;
    assert (chain + [node])[0] == chain[0];
  }

  /** Dropping a tag keeps the structure of the others; the node table is untouched. */
  lemma LinksRelease(used: map<uint64, MemoryNode>, chains: map<uint64, seq<MemoryNode>>,
                     link: map<MemoryNode, MemoryNode?>, pageSize: nat, id: uint64)
    requires Links(used, chains, link, pageSize) && id in chains
    ensures Links(used - {id}, chains - {id}, link, pageSize)
  {
  }

  class TaggedHeap {
    const pageSize: nat
    var usedMemory: map<uint64, MemoryNode>
    var freeMemory: seq<MemoryNode>
    var nextNode: map<MemoryNode, MemoryNode?>
    var lockCount: nat

    ghost var chains: map<uint64, seq<MemoryNode>>

    /** The pool this heap implements: the chains, the free queue and every node created so far. */
    ghost function Abstract(): Pool<MemoryNode>
      reads this`chains, this`freeMemory, this`nextNode
    {
      Pool(chains, freeMemory, nextNode.Keys)
    }

    /** The node table links the chains that the entries of `usedMemory` start. */
    ghost predicate Linking()
      reads this`usedMemory, this`chains, this`nextNode
    {
      Links(usedMemory, chains, nextNode, pageSize)
    }

    /** The heap invariant: the abstract pool is partitioned and the node table links each chain. */
    ghost predicate Valid()
      reads this`usedMemory, this`freeMemory, this`chains, this`nextNode
    {
      PagePool.Valid(Abstract()) && Linking()
    }

    constructor (pageSize: nat)
      ensures Valid() && this.pageSize == pageSize
      ensures usedMemory == map[] && freeMemory == [] && nextNode == map[] && lockCount == 0
      ensures Abstract() == Pool(map[], [], {})
    {
      this.pageSize := pageSize;
      usedMemory := map[];
      freeMemory := [];
      nextNode := map[];
      lockCount := 0;
      chains := map[];
    }

    /**
     * Hands out a page for tag `id`: the front of the free queue, or a new node
     * when the queue is empty, with its link cleared; a new tag gets it as its
     * chain's head, a known tag gets it linked after the tail of its chain.
     */
    method GetNextFreePage(id: uint64) returns (node: MemoryNode)
      requires Valid()
      modifies this
      ensures Valid()
      ensures Allocate(old(Abstract()), id, node) == Grant(node, Abstract())
      ensures old(freeMemory) == [] ==> fresh(node)
      ensures forall t :: t in old(chains) ==> node !in old(chains[t])
      ensures node in nextNode && nextNode[node] == null && node.pageSize == pageSize
      ensures usedMemory == if id in old(usedMemory) then old(usedMemory) else old(usedMemory)[id := node]
      ensures lockCount == old(lockCount)
    {
      EnterCriticalSection();
      node := AllocateLocked(id);
      LeaveCriticalSection();
    }

    /** Takes the heap's lock, counting recursive entries. */
    method EnterCriticalSection()
      modifies this`lockCount
      ensures lockCount == old(lockCount) + 1
    {
      lockCount := lockCount + 1;
    }

    /** Gives back one entry of the heap's lock; only a holder may leave. */
    method LeaveCriticalSection()
      requires lockCount > 0
      modifies this`lockCount
      ensures lockCount == old(lockCount) - 1
    {
      lockCount := lockCount - 1;
    }

    /** The allocation inside the critical section. */
    method AllocateLocked(id: uint64) returns (node: MemoryNode)
      requires Valid()
      modifies this`usedMemory, this`freeMemory, this`chains, this`nextNode
      ensures Valid()
      ensures Allocate(old(Abstract()), id, node) == Grant(node, Abstract())
      ensures old(freeMemory) == [] ==> fresh(node)
      ensures forall t :: t in old(chains) ==> node !in old(chains[t])
      ensures node in nextNode && nextNode[node] == null && node.pageSize == pageSize
      ensures id in old(usedMemory) ==> usedMemory == old(usedMemory)
      ensures id !in old(usedMemory) ==> usedMemory == old(usedMemory)[id := node]
    {
      ghost var p := Abstract();
      node := TakeNode();
      LinkNode(id, node, p);
      AllocateOutcome(p, id, node, Abstract());
    }

    /** Links a taken node into the chain of `id`. */
    method LinkNode(id: uint64, node: MemoryNode, ghost p: Pool<MemoryNode>)
      requires Linking()
      requires node in nextNode && nextNode[node] == null
      requires forall t :: t in chains ==> node !in chains[t]
      requires PagePool.Valid(p) && p.used == chains
      modifies this`usedMemory, this`chains, this`nextNode
      ensures Linking()
      ensures chains == p.used[id := (if id in p.used then p.used[id] else []) + [node]]
      ensures nextNode.Keys == old(nextNode).Keys && nextNode[node] == null
      ensures id in old(usedMemory) ==> usedMemory == old(usedMemory)
      ensures id !in old(usedMemory) ==> usedMemory == old(usedMemory)[id := node]
    {
      if id !in usedMemory {
        StartChain(id, node);
        assert [] + [node] == [node];
      } else {
        AppendToChain(id, node, p);
      }
    }

    /**
     * The first half of an allocation: pops the front of the free queue, or
     * creates a node of the heap's page size when the queue is empty, and
     * clears its link.
     */
    method TakeNode() returns (node: MemoryNode)
      requires Valid()
      modifies this`freeMemory, this`nextNode
      ensures Linking()
      ensures old(freeMemory) != [] ==> node == old(freeMemory[0]) && freeMemory == old(freeMemory[1..])
      ensures old(freeMemory) == [] ==> fresh(node) && freeMemory == [] && node !in old(nextNode)
      ensures nextNode == old(nextNode)[node := null] && node.pageSize == pageSize
      ensures nextNode.Keys == old(nextNode).Keys + {node}
      ensures forall t :: t in chains ==> node !in chains[t]
    {
      ghost var p := Abstract();
      if freeMemory == [] {
        node := new MemoryNode(pageSize);
      } else {
        node := freeMemory[0];
        freeMemory := freeMemory[1..];
        CountInFree(p, node);
        assert node in multiset(p.free);
      }
      AllocateNeverAliases(p, 0, node);
      LinksClear(usedMemory, chains, nextNode, pageSize, node);
      nextNode := nextNode[node := null];
    }

    /** A tag without pages: `node` becomes the head of its one-node chain. */
    method StartChain(id: uint64, node: MemoryNode)
      requires Linking() && id !in usedMemory
      requires node in nextNode && nextNode[node] == null
      modifies this`usedMemory, this`chains
      ensures Linking()
      ensures usedMemory == old(usedMemory)[id := node] && chains == old(chains)[id := [node]]
    {
      LinksStart(usedMemory, chains, nextNode, pageSize, id, node);
      usedMemory := usedMemory[id := node];
      chains := chains[id := [node]];
    }

    /**
     * A tag with pages: walks its chain from the head to the tail and links
     * `node` after it.  `p` is the partitioned pool the chains belong to.
     */
    method AppendToChain(id: uint64, node: MemoryNode, ghost p: Pool<MemoryNode>)
      requires Linking() && id in usedMemory
      requires node in nextNode && nextNode[node] == null
      requires forall t :: t in chains ==> node !in chains[t]
      requires PagePool.Valid(p) && p.used == chains
      modifies this`chains, this`nextNode
      ensures Linking()
      ensures chains == old(chains)[id := old(chains[id]) + [node]]
      ensures nextNode == old(nextNode)[Last(old(chains[id])) := node]
      ensures nextNode.Keys == old(nextNode).Keys && nextNode[node] == null
    {
      TailApart(p, id);
      ghost var chain := chains[id];
      assert Linked(chain, nextNode);
      var tail := usedMemory[id];
      ghost var i := 0;
      LinkedAt(chain, nextNode, 0);
      while nextNode[tail] != null
        modifies {}
        invariant 0 <= i < |chain| && tail == chain[i] && tail in nextNode
        invariant nextNode[tail] == if i < |chain| - 1 then chain[i + 1] else null
        decreases |chain| - i
      {
        tail := nextNode[tail];
        i := i + 1;
        LinkedAt(chain, nextNode, i);
      }
      assert i == |chain| - 1;
      LinksAppend(usedMemory, chains, nextNode, pageSize, id, node);
      nextNode := nextNode[tail := node];
      chains := chains[id := chain + [node]];
    }

    /** Moves the chain of `id` to the back of the free queue, in link order, and forgets `id`. */
    method ReleaseChain(id: uint64)
      requires Valid() && id in usedMemory
      modifies this`usedMemory, this`chains, this`freeMemory
      ensures Valid()
      ensures usedMemory == old(usedMemory) - {id} && chains == old(chains) - {id}
      ensures freeMemory == old(freeMemory) + old(chains[id])
      ensures Abstract() == ReleaseAll(old(Abstract()), id)
    {
      ghost var p := Abstract();
      ReleasePreservesValid(p, id);
      LinksRelease(usedMemory, chains, nextNode, pageSize, id);
      ghost var chain := chains[id];
      var head: MemoryNode? := usedMemory[id];
      ghost var i := 0;
      while head != null
        modifies this`freeMemory
        invariant 0 <= i <= |chain|
        invariant head == if i < |chain| then chain[i] else null
        invariant freeMemory == p.free + chain[..i]
        invariant Linked(chain, nextNode)
        decreases |chain| - i
      {
        LinkedAt(chain, nextNode, i);
        freeMemory := freeMemory + [head];
        head := nextNode[head];
        i := i + 1;
      }
      assert chain[..i] == chain;
      usedMemory := usedMemory - {id};
      chains := chains - {id};
      assert freeMemory == p.free + p.used[id] && chains == p.used - {id};
    }

    /**
     * Releases every page of tag `id` to the free queue; an unknown tag is a
     * no-op.  Leaves the critical section on both paths.
     */
    method FreeAllPagesWithId(id: uint64)
      requires Valid()
      modifies this
      ensures Valid()
      ensures id !in old(usedMemory) ==>
                usedMemory == old(usedMemory) && chains == old(chains) && freeMemory == old(freeMemory)
      ensures id in old(usedMemory) ==>
                && usedMemory == old(usedMemory) - {id}
                && chains == old(chains) - {id}
                && freeMemory == old(freeMemory) + old(chains[id])
      ensures nextNode == old(nextNode) && lockCount == old(lockCount)
      ensures Abstract() == ReleaseAll(old(Abstract()), id)
    {
      EnterCriticalSection();
      if id in usedMemory {
        ReleaseChain(id);
      }
      LeaveCriticalSection();
    }

    /**
     * The release as the source writes it: on an unknown tag it returns
     * without leaving the critical section, so the lock stays held.
     */
    method FreeAllPagesWithIdAsWritten(id: uint64)
      requires Valid()
      modifies this
      ensures Valid()
      ensures Abstract() == ReleaseAll(old(Abstract()), id)
      ensures lockCount == if id in old(usedMemory) then old(lockCount) else old(lockCount) + 1
    {
      EnterCriticalSection();
      if id !in usedMemory {
        return;
      }
      ReleaseChain(id);
      LeaveCriticalSection();
    }

    /** Walks a chain from its head node, collecting the nodes in link order. */
    method WalkChain(head: MemoryNode, ghost chain: seq<MemoryNode>) returns (nodes: seq<MemoryNode>)
      requires Linked(chain, nextNode) && chain != [] && head == chain[0]
      ensures nodes == chain
    {
      nodes := [];
      var current: MemoryNode? := head;
      ghost var i := 0;
      while current != null
        invariant 0 <= i <= |chain|
        invariant current == if i < |chain| then chain[i] else null
        invariant nodes == chain[..i]
        decreases |chain| - i
      {
        LinkedAt(chain, nextNode, i);
        nodes := nodes + [current];
        current := nextNode[current];
        i := i + 1;
      }
      assert chain[..i] == chain;
    }

    /**
     * Tear-down: deletes every node of every chain, tag by tag in whatever
     * order the map yields them, then every node of the free queue.  Returns
     * the nodes in the order they are deleted.
     */
    method Destroy() returns (deleted: seq<MemoryNode>)
      requires Valid()
      ensures multiset(deleted) == multiset(nextNode.Keys)
      ensures |deleted| == |nextNode.Keys|
    {
      deleted := DeleteChains();
      var queue := freeMemory;
      while queue != []
        invariant multiset(deleted) + multiset(queue) == multiset(nextNode.Keys)
      {
        deleted := deleted + [queue[0]];
        assert queue == [queue[0]] + queue[1..];
        queue := queue[1..];
      }
      assert |multiset(deleted)| == |multiset(nextNode.Keys)|;
    }

    /** The first half of the tear-down: the nodes of every chain, chain by chain. */
    method DeleteChains() returns (deleted: seq<MemoryNode>)
      requires Linking()
      ensures multiset(deleted) == multiset(Gather(chains))
    {
      deleted := [];
      var pending := usedMemory;
      ghost var rest := chains;
      while pending != map[]
        invariant Links(pending, rest, nextNode, pageSize)
        invariant multiset(deleted) + multiset(Gather(rest)) == multiset(Gather(chains))
        decreases |pending|
      {
        var t :| t in pending;
        var chain := WalkChain(pending[t], rest[t]);
        GatherRemove(rest, t);
        LinksRelease(pending, rest, nextNode, pageSize, t);
        deleted := deleted + chain;
        pending := pending - {t};
        rest := rest - {t};
      }
    }
  }

  /** The lock leak: releasing a tag nobody allocated leaves the lock held. */
  method LockLeak() returns (heap: TaggedHeap)
    ensures heap.Valid() && heap.usedMemory == map[] && heap.lockCount == 1
  {
    heap := new TaggedHeap(64);
    heap.FreeAllPagesWithIdAsWritten(7);
  }
}
