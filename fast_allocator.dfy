/**
 * The size-class allocator: a stateless adapter that sends a request of
 * `elemSize * count` bytes to the slab pool of exactly that chunk size when
 * there is one (4, 8, 16, 20 or 24 bytes) and to a general-purpose fallback
 * otherwise.
 *
 * The per-size singleton pools become one explicitly constructed `Registry`
 * that every allocator object shares; the fallback is an opaque source of
 * fresh blocks, distinct from every pool chunk.
 */
module FastAllocators {
  import opened Addresses
  import SP = SlabPool
  import opened FixedAllocators

  datatype SizeClass = C4 | C8 | C16 | C20 | C24

  function Bytes(c: SizeClass): nat {
    match c
    case C4 => 4
    case C8 => 8
    case C16 => 16
    case C20 => 20
    case C24 => 24
  }

  /** The pool a request of `bytes` bytes goes to, or `None` for the fallback. */
  function ClassOf(bytes: nat): (r: Option<SizeClass>)
    ensures r.Some? <==> bytes in {4, 8, 16, 20, 24}
    ensures r.Some? ==> Bytes(r.value) == bytes
  {
    if bytes == 4 then Some(C4)
    else if bytes == 8 then Some(C8)
    else if bytes == 16 then Some(C16)
    else if bytes == 20 then Some(C20)
    else if bytes == 24 then Some(C24)
    else None
  }

  /** Every size class is selected by its own byte size and by no other. */
  lemma ClassOfBytes(c: SizeClass, bytes: nat)
    ensures ClassOf(bytes) == Some(c) <==> bytes == Bytes(c)
  {
  }

  /** Where an address came from: the pool whose chunk size it carries, or the fallback. */
  function Owner(p: Addr): Option<SizeClass> {
    if p.Chunk? then ClassOf(p.chunkSize) else None
  }

  /** 2^64: the source multiplies `sizeof(T) * count` in a 64-bit `size_t`. */
  const SizeMod: nat := 0x1_0000_0000_0000_0000

  /** The size class as the source selects it, from the wrapped 64-bit product. */
  function RouteAsWritten(elemSize: nat, count: nat): (r: Option<SizeClass>)
    ensures r.Some? ==> (elemSize * count) % SizeMod == Bytes(r.value)
    ensures r.None? ==> (elemSize * count) % SizeMod !in {4, 8, 16, 20, 24}
  {
    ClassOf((elemSize * count) % SizeMod)
  }

  /** The size class chosen from the exact byte count of the request. */
  function Route(elemSize: nat, count: nat): (r: Option<SizeClass>)
    ensures r.Some? ==> elemSize * count == Bytes(r.value)
    ensures r.None? ==> elemSize * count !in {4, 8, 16, 20, 24}
  {
    ClassOf(elemSize * count)
  }

  /**
   * The wrapped product lets an impossibly large request reach a pool: eight
   * bytes times 2^61 + 1 elements wraps to 8, so the request is served by one
   * 8-byte chunk, whereas its exact size matches no size class.
   */
  lemma RouteAsWrittenOverflow()
    ensures RouteAsWritten(8, 0x2000_0000_0000_0001) == Some(C8)
    ensures Route(8, 0x2000_0000_0000_0001) == None
  {
    assert 8 * 0x2000_0000_0000_0001 == SizeMod + 8;
  }

  /** For every request that fits in 64 bits, the exact and the wrapped choices agree. */
  lemma RouteAgreesWithoutOverflow(elemSize: nat, count: nat)
    requires elemSize * count < SizeMod
    ensures Route(elemSize, count) == RouteAsWritten(elemSize, count)
  {
  }

  /** The fallback allocator: hands out fresh blocks and takes them back. */
  class Fallback {
    var nextId: nat
    ghost var outstanding: set<Addr>

    ghost predicate Valid()
      reads this
    {
      forall a :: a in outstanding ==> a.Block? && a.id < nextId
    }

    constructor ()
      ensures Valid() && outstanding == {}
    {
      nextId := 0;
      outstanding := {};
    }

    /** Storage for `count` elements: a block never handed out before. */
    method Allocate(count: nat) returns (p: Addr)
      requires Valid()
      modifies this
      ensures Valid()
      ensures p.Block? && p !in old(outstanding)
      ensures outstanding == old(outstanding) + {p}
    {
      p := Block(nextId);
      nextId := nextId + 1;
      outstanding := outstanding + {p};
    }

    method Deallocate(p: Addr, count: nat)
      requires Valid() && p in outstanding
      modifies this
      ensures Valid()
      ensures outstanding == old(outstanding) - {p}
    {
      outstanding := outstanding - {p};
    }
  }

  /** One pool per size class and the fallback, shared by every allocator object. */
  class Registry {
    const pool4: FixedAllocator
    const pool8: FixedAllocator
    const pool16: FixedAllocator
    const pool20: FixedAllocator
    const pool24: FixedAllocator
    const heap: Fallback
    ghost const Repr: set<object>

    /** The pool of a size class (the source's `FixedAllocator<N>::get_instance()`). */
    function Pool(c: SizeClass): (r: FixedAllocator)
      ensures r in {pool4, pool8, pool16, pool20, pool24}
    {
      match c
      case C4 => pool4
      case C8 => pool8
      case C16 => pool16
      case C20 => pool20
      case C24 => pool24
    }

    ghost predicate Valid()
      reads Repr
    {
      Repr == {pool4, pool8, pool16, pool20, pool24, heap} &&
      pool4 != pool8 && pool4 != pool16 && pool4 != pool20 && pool4 != pool24 &&
      pool8 != pool16 && pool8 != pool20 && pool8 != pool24 &&
      pool16 != pool20 && pool16 != pool24 && pool20 != pool24 &&
      pool4.chunkSize == 4 && pool8.chunkSize == 8 && pool16.chunkSize == 16 &&
      pool20.chunkSize == 20 && pool24.chunkSize == 24 &&
      pool4.Valid() && pool8.Valid() && pool16.Valid() && pool20.Valid() && pool24.Valid() &&
      heap.Valid()
    }

    /** Everything currently handed out, by any pool or by the fallback. */
    ghost function Live(): set<Addr>
      reads Repr
      requires Valid()
    {
      pool4.outstanding + pool8.outstanding + pool16.outstanding +
      pool20.outstanding + pool24.outstanding + heap.outstanding
    }

    /** What the source a route names has handed out: a pool for a size class, the fallback otherwise. */
    ghost function LiveOn(r: Option<SizeClass>): set<Addr>
      reads Repr
      requires Valid()
    {
      if r.Some? then Pool(r.value).outstanding else heap.outstanding
    }

    /** Every pool starts with one slab; nothing is handed out. */
    constructor ()
      ensures Valid() && Live() == {}
      ensures forall c :: Pool(c).State() == SP.Init(Bytes(c))
      ensures fresh(pool4) && fresh(pool8) && fresh(pool16) && fresh(pool20) && fresh(pool24) && fresh(heap)
    {
      var p4 := new FixedAllocator(4);
      var p8 := new FixedAllocator(8);
      var p16 := new FixedAllocator(16);
      var p20 := new FixedAllocator(20);
      var p24 := new FixedAllocator(24);
      var h := new Fallback();
      pool4, pool8, pool16, pool20, pool24, heap := p4, p8, p16, p20, p24, h;
      Repr := {p4, p8, p16, p20, p24, h};
    }

    /** Each pool serves the chunk size of its class, keeps its invariant and is distinct from the others. */
    lemma PoolValid(c: SizeClass)
      requires Valid()
      ensures Pool(c) in Repr && Pool(c).chunkSize == Bytes(c) && Pool(c).Valid()
      ensures forall d :: d != c ==> Pool(d) != Pool(c)
    {
    }

    /** What each source has handed out: chunks of its own size, or fallback blocks. */
    lemma OutstandingKinds()
      requires Valid()
      ensures forall c, a :: a in Pool(c).outstanding ==> a.Chunk? && a.chunkSize == Bytes(c)
      ensures forall a :: a in heap.outstanding ==> a.Block?
      ensures Pool(C4) == pool4 && Pool(C8) == pool8 && Pool(C16) == pool16
      ensures Pool(C20) == pool20 && Pool(C24) == pool24
    {
      forall c, a | a in Pool(c).outstanding ensures a.Chunk? && a.chunkSize == Bytes(c) {
        PoolValid(c);
        assert SP.Carved(Pool(c).State(), a);
      }
    }

    /**
     * A live address is live in exactly the source its owner names: the pool
     * of its chunk size, or the fallback. So pool chunks and fallback blocks
     * are never confused, and no address is live in two pools.
     */
    lemma LiveInOwner(p: Addr)
      requires Valid() && p in Live()
      ensures forall c :: p in Pool(c).outstanding <==> Owner(p) == Some(c)
      ensures p in heap.outstanding <==> Owner(p) == None
    {
      OutstandingKinds();
    }

    /** An address live in the source a route names is live, and that route is its owner's. */
    lemma LiveOnOwner(r: Option<SizeClass>, p: Addr)
      requires Valid() && p in LiveOn(r)
      ensures p in Live() && Owner(p) == r
    {
      OutstandingKinds();
    }

    /** What one source has handed out is part of everything handed out. */
    lemma LiveOnInLive(r: Option<SizeClass>)
      requires Valid()
      ensures LiveOn(r) <= Live()
    {
    }

    /** `FixedAllocator<Bytes(c)>::get_instance().allocate()`. */
    method AllocateFrom(c: SizeClass) returns (p: Addr)
      requires Valid()
      modifies Pool(c)
      ensures Valid()
      ensures Owner(p) == Some(c)
      ensures p !in old(Live()) && Live() == old(Live()) + {p}
      ensures LiveOn(Some(c)) == old(LiveOn(Some(c))) + {p}
      ensures (Pool(c).State(), p) == SP.Allocate(old(Pool(c).State()))
      ensures forall d :: d != c ==> Pool(d).State() == old(Pool(d).State())
    {
      PoolValid(c);
      OutstandingKinds();
      ghost var rest := Live() - Pool(c).outstanding;
      assert Live() == Pool(c).outstanding + rest;
      forall a | a in rest ensures Owner(a) != Some(c) {
        LiveInOwner(a);
      }
      p := Pool(c).Allocate();
      assert SP.Carved(Pool(c).State(), p);
      assert Owner(p) == Some(c);
      assert Live() == Pool(c).outstanding + rest;
    }

    /** `FixedAllocator<Bytes(c)>::get_instance().deallocate(p)`. */
    method DeallocateTo(c: SizeClass, p: Addr)
      requires Valid() && p in Live() && Owner(p) == Some(c)
      modifies Pool(c)
      ensures Valid()
      ensures Live() == old(Live()) - {p}
      ensures LiveOn(Some(c)) == old(LiveOn(Some(c))) - {p}
      ensures Pool(c).State() == SP.Deallocate(old(Pool(c).State()), p)
      ensures forall d :: d != c ==> Pool(d).State() == old(Pool(d).State())
    {
      PoolValid(c);
      OutstandingKinds();
      LiveInOwner(p);
      ghost var rest := Live() - Pool(c).outstanding;
      assert Live() == Pool(c).outstanding + rest && p !in rest;
      Pool(c).Deallocate(p);
      assert Live() == Pool(c).outstanding + rest;
    }

    /** `std::allocator<T>().allocate(count)`. */
    method AllocateFallback(count: nat) returns (p: Addr)
      requires Valid()
      modifies heap
      ensures Valid()
      ensures Owner(p) == None
      ensures p !in old(Live()) && Live() == old(Live()) + {p}
      ensures LiveOn(None) == old(LiveOn(None)) + {p}
    {
      OutstandingKinds();
      p := heap.Allocate(count);
    }

    /** `std::allocator<T>().deallocate(p, count)`. */
    method DeallocateFallback(p: Addr, count: nat)
      requires Valid() && p in Live() && Owner(p) == None
      modifies heap
      ensures Valid()
      ensures Live() == old(Live()) - {p}
      ensures LiveOn(None) == old(LiveOn(None)) - {p}
    {
      OutstandingKinds();
      LiveInOwner(p);
      heap.Deallocate(p, count);
    }
  }

  /**
   * The allocator for elements of `elemSize` bytes. It owns no memory: every
   * object bound to the same registry shares the same pools.
   */
  class FastAllocator {
    const elemSize: nat
    const registry: Registry

    constructor (elemSize: nat, registry: Registry)
      ensures this.elemSize == elemSize && this.registry == registry
    {
      this.elemSize := elemSize;
      this.registry := registry;
    }

    /** Rebinding: an allocator for another element size with the same pools. */
    constructor Rebind(other: FastAllocator, elemSize: nat)
      ensures this.elemSize == elemSize && this.registry == other.registry
    {
      this.elemSize := elemSize;
      this.registry := other.registry;
    }

    /**
     * Storage for `count` elements, from the pool whose chunk size is exactly
     * the requested byte count, or else from the fallback. The address is not
     * live before and is tagged with the source it came from.
     */
    method Allocate(count: nat) returns (p: Addr)
      requires registry.Valid()
      modifies registry.Repr
      ensures registry.Valid()
      ensures Owner(p) == Route(elemSize, count)
      ensures p !in old(registry.Live()) && registry.Live() == old(registry.Live()) + {p}
      ensures registry.LiveOn(Route(elemSize, count)) == old(registry.LiveOn(Route(elemSize, count))) + {p}
      ensures Route(elemSize, count).Some? ==>
        var pool := registry.Pool(Route(elemSize, count).value);
        (pool.State(), p) == SP.Allocate(old(pool.State()))
      ensures forall c :: Route(elemSize, count) != Some(c) ==>
        registry.Pool(c).State() == old(registry.Pool(c).State())
    {
      var bytes := elemSize * count;
      if bytes == 4 {
        p := registry.AllocateFrom(C4);
      } else if bytes == 8 {
        p := registry.AllocateFrom(C8);
      } else if bytes == 16 {
        p := registry.AllocateFrom(C16);
      } else if bytes == 20 {
        p := registry.AllocateFrom(C20);
      } else if bytes == 24 {
        p := registry.AllocateFrom(C24);
      } else {
        p := registry.AllocateFallback(count);
      }
    }

    /**
     * Gives back storage for `count` elements, choosing the source by the same
     * rule as `Allocate`. The caller must pass a live address obtained with the
     * same `count`, so the address goes back to the source it came from.
     */
    method Deallocate(p: Addr, count: nat)
      requires registry.Valid()
      requires p in registry.Live() && Owner(p) == Route(elemSize, count)
      modifies registry.Repr
      ensures registry.Valid()
      ensures registry.Live() == old(registry.Live()) - {p}
      ensures registry.LiveOn(Route(elemSize, count)) == old(registry.LiveOn(Route(elemSize, count))) - {p}
      ensures Route(elemSize, count).Some? ==>
        var pool := registry.Pool(Route(elemSize, count).value);
        pool.State() == SP.Deallocate(old(pool.State()), p)
      ensures forall c :: Route(elemSize, count) != Some(c) ==>
        registry.Pool(c).State() == old(registry.Pool(c).State())
    {
      var bytes := elemSize * count;
      if bytes == 4 {
        registry.DeallocateTo(C4, p);
      } else if bytes == 8 {
        registry.DeallocateTo(C8, p);
      } else if bytes == 16 {
        registry.DeallocateTo(C16, p);
      } else if bytes == 20 {
        registry.DeallocateTo(C20, p);
      } else if bytes == 24 {
        registry.DeallocateTo(C24, p);
      } else {
        registry.DeallocateFallback(p, count);
      }
    }
  }
}
