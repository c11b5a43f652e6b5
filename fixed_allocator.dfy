/**
 * One slab pool as an object whose fields are updated in place: the slab
 * count, the cursor and the free list. The ghost set `outstanding` holds the
 * chunks handed out and not yet handed back; it carries the no-double-issue
 * invariant. Every method is proved to follow the functions of `SlabPool`.
 */
module FixedAllocators {
  import opened Addresses
  import SP = SlabPool

  class FixedAllocator {
    /** The size of every chunk of this pool (the `chunkSize` template argument). */
    const chunkSize: nat
    /** Number of slabs owned (the length of the source's `pools` vector). */
    var pools: nat
    var curPos: nat
    var reused: seq<Addr>
    ghost var outstanding: set<Addr>

    /** The pool's state as a value. */
    function State(): SP.PoolState
      reads this
    {
      SP.PoolState(chunkSize, pools, curPos, reused)
    }

    ghost predicate Valid()
      reads this
    {
      SP.Inv(State(), outstanding)
    }

    /** Appends a slab and moves the cursor to its first chunk. */
    method NewPool()
      modifies this`pools, this`curPos
      ensures State() == SP.NewPool(old(State()))
    {
      pools := pools + 1;
      curPos := 0;
    }

    /** A pool starts with one slab, an empty free list and nothing handed out. */
    constructor (chunkSize: nat)
      ensures this.chunkSize == chunkSize
      ensures Valid() && outstanding == {}
      ensures State() == SP.Init(chunkSize)
    {
      this.chunkSize := chunkSize;
      pools, curPos, reused := 0, 0, [];
      outstanding := {};
      new;
      NewPool();
      SP.InitInv(chunkSize);
    }

    /**
     * Hands out a chunk that is not currently handed out: the top of the free
     * list if there is one, otherwise the chunk under the cursor.
     */
    method Allocate() returns (p: Addr)
      requires Valid()
      modifies this`pools, this`curPos, this`reused, this`outstanding
      ensures Valid()
      ensures (State(), p) == SP.Allocate(old(State()))
      ensures p !in old(outstanding) && outstanding == old(outstanding) + {p}
    {
      if reused != [] {
        p := reused[|reused| - 1];
        reused := reused[..|reused| - 1];
      } else {
        if curPos == SP.SlabSize {
          NewPool();
        }
        p := Chunk(chunkSize, pools - 1, curPos);
        curPos := curPos + 1;
      }
      SP.AllocateKeepsInv(old(State()), old(outstanding));
      outstanding := outstanding + {p};
    }

    /**
     * Pushes `p` on the free list. The pool does not check `p`; that it is a
     * chunk of this pool currently handed out is the caller's obligation.
     */
    method Deallocate(p: Addr)
      requires Valid() && p in outstanding
      modifies this`reused, this`outstanding
      ensures Valid()
      ensures State() == SP.Deallocate(old(State()), p)
      ensures outstanding == old(outstanding) - {p}
    {
      SP.DeallocateKeepsInv(State(), outstanding, p);
      reused := reused + [p];
      outstanding := outstanding - {p};
    }
  }
}
