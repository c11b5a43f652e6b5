# Slab-pool allocator and sentinel list, modelled in Dafny

This project models the header `list_fastallocator.h`. It has three parts.

- **`FixedAllocator<chunkSize>`**: a slab pool. It owns a grow-only run of slabs of 2048 chunks each. A cursor `cur_pos` marks the next never-used chunk of the last slab. `reused` is a free list used as a stack.
- **`FastAllocator<T>`**: a stateless allocator. It computes `sizeof(T) * count` in a 64-bit `size_t`, which wraps around. When that product is 4, 8, 16, 20 or 24, the request goes to the pool of that chunk size. Any other size goes to the general-purpose allocator.
- **`List<T, Allocator>`**: a circular doubly-linked list closed by a sentinel node `fake`. Its nodes come one at a time from the allocator.

The Dafny modules follow the same structure.

- `addresses.dfy` (module `Addresses`) defines storage addresses. A pool chunk is `Chunk(chunkSize, slab, offset)` and a fallback block is `Block(id)`, so the two can never be confused. The module also has `Option` and distinctness of sequences.
- `slab_pool.dfy` (module `SlabPool`) defines the pool as functions on a `PoolState` value: `pools` is the slab count, plus `curPos` and `reused`. The invariant `Inv(s, out)` relates a state to the set `out` of chunks handed out. Every property of the pool is a lemma about these functions:
  - LIFO reuse.
  - The fresh-chunk path.
  - Cursor bounds.
  - No double issue.
  - Fresh chunks come in increasing order.
  - Slab growth.
- `fixed_allocator.dfy` (module `FixedAllocators`) defines the pool as a class whose fields change in place. The constructor is proved to give the state `SlabPool.Init` gives. Every other method is proved to follow the `SlabPool` function of the same name. A ghost set `outstanding` carries the no-double-issue invariant.
- `fast_allocator.dfy` (module `FastAllocators`) covers the dispatch layer:
  - The size-class selector `ClassOf`.
  - The fallback allocator, as a source of fresh `Block` addresses.
  - A `Registry` holding the five pools and the fallback, which stands in for the per-size singletons.
  - The `FastAllocator` class, whose `Allocate` and `Deallocate` route a request by the same rule.
- `list.dfy` (module `Lists`) covers the list.
  - The node fields that the source updates through pointers are maps from node addresses: `next`, `prev` and `value`.
  - The ghost sequences `nodes` and `contents` give the value nodes and their elements in ring order.
  - `Ring` is the ring invariant:
    - Following `next` from the sentinel visits `nodes` in order and returns to the sentinel.
    - `prev` is the inverse of `next`.
    - Every node holds its element of `contents`.
  - `Valid` adds two requirements: `size` counts the value nodes, and every node the list owns is live in the source that the node route names. That source is a pool or the fallback.
  - Every list operation is proved against `nodes`/`contents`. Each one also states exactly which addresses become live or are handed back.

## Model

| member | source | states |
|---|---|---|
| SlabPool.NewPool | list_fastallocator.h:17-21 | one more slab, cursor back to 0, free list untouched |
| SlabPool.Init | list_fastallocator.h:23-25 | a new pool has one slab, cursor 0 and an empty free list |
| SlabPool.Allocate | list_fastallocator.h:36-49 | allocation keeps the chunk size and never removes slabs; it appends at most one |
| SlabPool.Deallocate | list_fastallocator.h:51-54 | deallocation pushes `p` on top of the free list and changes nothing else: same chunk size, slab count and cursor, and the free list below `p` is as before |
| SlabPool.DeallocateAll | list_fastallocator.h:51-54 | handing back a sequence of chunks first to last stacks them on the free list in that order and keeps the chunk size, the slab count and the cursor |
| SlabPool.InitInv | list_fastallocator.h:15-25 | the state after construction satisfies the pool invariant with nothing handed out and nothing carved |
| SlabPool.CarvedIffBelow | list_fastallocator.h:42-46 | a chunk has been carved exactly when its (slab, offset) ordinal is below the number of chunks carved so far |
| SlabPool.LifoRoundTrip | list_fastallocator.h:38-54 | allocating right after deallocating `p` returns `p` and restores the previous state, cursor and slabs included |
| SlabPool.FreshChunk | list_fastallocator.h:41-47 | with an empty free list, allocation hands out the chunk under the cursor and advances it. When the last slab is full, it first appends one slab and hands out offset 0 of that slab. The chunk was not carved before and comes after every carved chunk |
| SlabPool.AllocateKeepsInv | list_fastallocator.h:36-49 | no double issue: the chunk handed out is not currently handed out, and the invariant (at least one slab, cursor in `0..2048`, free list distinct and disjoint from what is handed out) holds with the chunk added |
| SlabPool.DeallocateKeepsInv | list_fastallocator.h:51-54 | handing back a chunk that is handed out keeps the invariant and changes neither the cursor nor the slab count |
| SlabPool.AllocateN | list_fastallocator.h:36-49 | `n` allocations in a row hand out `n` chunks and never remove a slab |
| SlabPool.FreshRun | list_fastallocator.h:41-47 | with an empty free list, the `i`-th of `n` allocations hands out the chunk with ordinal `carved + i`: fresh chunks come in strictly increasing (slab, offset) order |
| SlabPool.SlabCount | list_fastallocator.h:42-44 | the slab count is 1 while nothing is carved, and `(k - 1) / 2048 + 1` after `k` chunks are carved |
| SlabPool.GrowthFromInit | list_fastallocator.h:15-47 | `n` allocations on a new pool hand out chunks 0 to `n - 1` in order, all distinct, leaving `(n - 1) / 2048 + 1` slabs |
| SlabPool.Churn | list_fastallocator.h:36-54 | repeated allocate-then-free rounds never remove a slab |
| SlabPool.ChurnFromInit | list_fastallocator.h:36-54 | a new pool that repeatedly allocates and frees one chunk keeps one slab and reuses the first chunk forever |
| SlabPool.ChurnSteady | list_fastallocator.h:38-54 | once the free list is non-empty, an allocate-then-free round leaves the state unchanged |
| FixedAllocators.FixedAllocator.NewPool | list_fastallocator.h:17-21 | the fields change as `SlabPool.NewPool` says |
| FixedAllocators.FixedAllocator.constructor | list_fastallocator.h:23-25 | the new pool is `SlabPool.Init`, valid, with nothing handed out |
| FixedAllocators.FixedAllocator.Allocate | list_fastallocator.h:36-49 | the fields and result follow `SlabPool.Allocate`; the chunk was not handed out and now is; the invariant is kept |
| FixedAllocators.FixedAllocator.Deallocate | list_fastallocator.h:51-54 | requires a handed-out chunk; the free list gets `p` pushed and nothing else changes; the invariant is kept |
| FastAllocators.ClassOf | list_fastallocator.h:79-89 | a pool is chosen exactly when the byte count is 4, 8, 16, 20 or 24, and its chunk size equals the byte count |
| FastAllocators.ClassOfBytes | list_fastallocator.h:79-89 | each size class is selected by its own byte count and by no other |
| FastAllocators.RouteAsWritten | list_fastallocator.h:79-105 | the routing as written: a pool is chosen exactly when the product `elemSize * count` reduced modulo 2^64 is one of 4, 8, 16, 20 or 24, and its chunk size is that reduced product |
| FastAllocators.Route | list_fastallocator.h:78-92 | a request goes to the pool whose chunk size is the exact product `elemSize * count`, otherwise to the fallback |
| FastAllocators.RouteAsWrittenOverflow | list_fastallocator.h:79 | with the 64-bit product, `8 * (2^61 + 1)` elements are routed to the 8-byte pool although the exact size matches no class |
| FastAllocators.RouteAgreesWithoutOverflow | list_fastallocator.h:79-87 | for every product below 2^64 the wrapped and the exact routing agree |
| FastAllocators.Fallback.constructor | list_fastallocator.h:90 | the fallback starts with nothing handed out |
| FastAllocators.Fallback.Allocate | list_fastallocator.h:90 | the fallback hands out a block that is not currently handed out |
| FastAllocators.Fallback.Deallocate | list_fastallocator.h:106 | the block is no longer handed out |
| FastAllocators.Registry.constructor | list_fastallocator.h:31-34 | one pool per size class, each in the state `SlabPool.Init` gives for its chunk size (one slab, cursor 0, empty free list), and nothing live |
| FastAllocators.Registry.Pool | list_fastallocator.h:31-34 | `get_instance` for a size class: one of the registry's five pools (`PoolValid` adds that it is the pool of that chunk size and differs from the others) |
| FastAllocators.Registry.PoolValid | list_fastallocator.h:31-34 | each size class has its own pool, of its own chunk size, satisfying the pool invariant |
| FastAllocators.Registry.OutstandingKinds | list_fastallocator.h:80-90 | a pool hands out only chunks of its own size; the fallback hands out only blocks |
| FastAllocators.Registry.LiveInOwner | list_fastallocator.h:94-108 | a live address is live in exactly one source, namely the one its owner names |
| FastAllocators.Registry.LiveOnOwner | list_fastallocator.h:94-108 | an address live in the source a route names is live overall, and that route is its owner's |
| FastAllocators.Registry.AllocateFrom | list_fastallocator.h:80 | the pool of class `c` allocates as `SlabPool.Allocate` says; the address is fresh and owned by `c`; the other pools are unchanged |
| FastAllocators.Registry.DeallocateTo | list_fastallocator.h:96 | the pool of class `c` takes `p` back as `SlabPool.Deallocate` says; only `p` stops being live |
| FastAllocators.Registry.AllocateFallback | list_fastallocator.h:90 | the fallback hands out a fresh address owned by no pool |
| FastAllocators.Registry.DeallocateFallback | list_fastallocator.h:106 | the fallback takes `p` back; only `p` stops being live |
| FastAllocators.FastAllocator.constructor | list_fastallocator.h:69-71 | an allocator for elements of `elemSize` bytes on the shared pools |
| FastAllocators.FastAllocator.Rebind | list_fastallocator.h:73-74 | rebinding gives an allocator for another element size on the same pools |
| FastAllocators.FastAllocator.Allocate | list_fastallocator.h:78-92 | the address comes from the source `Route(elemSize, count)` names, is fresh, and only that source changes |
| FastAllocators.FastAllocator.Deallocate | list_fastallocator.h:94-108 | the same routing rule as `Allocate`: a live address owned by `Route(elemSize, count)` goes back to that source, and nothing else changes |
| Lists.EmptyRing | list_fastallocator.h:139-143 | the sentinel linked to itself is the ring of the empty list |
| Lists.Neighbours | list_fastallocator.h:247-261 | `++` and `--` on a ring node move to the next and previous positions in `nodes`, with the sentinel after the last and before the first |
| Lists.Successor | list_fastallocator.h:247-250 | `++` on the `i`-th value node leads to the next value node, or to the sentinel after the last |
| Lists.ValueAt | list_fastallocator.h:239-241 | `*` on the `i`-th value node reads the `i`-th element |
| Lists.InsertNodes | list_fastallocator.h:337-344 | splicing a fresh node keeps the nodes distinct and adds exactly that node |
| Lists.InsertNext | list_fastallocator.h:340-341 | the `next` updates of `insert` give the `next` links of the longer ring |
| Lists.InsertPrev | list_fastallocator.h:340-342 | the `prev` updates of `insert` give the `prev` links of the longer ring |
| Lists.InsertValues | list_fastallocator.h:340 | the new node holds `v` at the spliced position |
| Lists.InsertKeepsRing | list_fastallocator.h:337-344 | `insert`'s updates keep the ring, with the new element at `pos`'s position |
| Lists.ChainKeepsRing | list_fastallocator.h:153-160 | hanging a node after the last one while the ring is still open keeps the ring that closing it would give |
| Lists.EraseNodes | list_fastallocator.h:346-353 | unlinking a node keeps the others distinct and removes exactly that node |
| Lists.EraseNext | list_fastallocator.h:348 | after the predecessor's `next` is redirected, the `next` links are those of the shorter ring |
| Lists.ErasePrev | list_fastallocator.h:349 | after the successor's `prev` is redirected, the `prev` links are those of the shorter ring |
| Lists.EraseValues | list_fastallocator.h:350 | the remaining nodes keep their elements |
| Lists.EraseKeepsRing | list_fastallocator.h:346-353 | `erase`'s updates keep the ring, with `pos`'s element removed |
| Lists.List.Sentinel | list_fastallocator.h:139-143 | a fresh sentinel linked to itself: the empty ring; only it becomes live; when the node size is a size class, that pool steps by `SlabPool.Allocate`, which yields the sentinel, and every other pool keeps its state |
| Lists.List.NewNode | list_fastallocator.h:339 | one node's storage from the source the node size routes to; it was not live before and is the only new live address; when the node size is a size class, that pool steps by `SlabPool.Allocate`, which yields the node, and every other pool keeps its state |
| Lists.List.FreeNode | list_fastallocator.h:351 | a node handed out by the node route goes back to that source, and only it stops being live; when the node size is a size class, that pool steps by `SlabPool.Deallocate` of the node, and every other pool keeps its state |
| Lists.List.constructor | list_fastallocator.h:139-143 | an empty, valid list whose sentinel is its own successor and predecessor, size 0; the sentinel was not live and is the only new live address; when the node size is a size class, that pool steps by `SlabPool.Allocate`, which yields the sentinel, and every other pool keeps its state |
| Lists.List.Size | list_fastallocator.h:193-195 | `size()` is the number of elements |
| Lists.List.Begin | list_fastallocator.h:285-287 | `begin()` is the first element's node, or the sentinel (= `end()`) when the list is empty |
| Lists.List.End | list_fastallocator.h:309-311 | `end()` is the sentinel |
| Lists.List.Link | list_fastallocator.h:340-343 | the node is spliced in before `pos`, and the ring and size are kept |
| Lists.List.Insert | list_fastallocator.h:337-344 | `v` lands just before `pos`'s element (last when `pos` is the sentinel), size grows by one, and the ring is kept; the node's storage was not live and is the only new live address; when the node size is a size class, that pool steps by `SlabPool.Allocate`, which yields the node, and every other pool keeps its state |
| Lists.List.Unlink | list_fastallocator.h:347-349 | `pos` is unlinked, the ring and size are kept, and the element is removed |
| Lists.List.Erase | list_fastallocator.h:346-353 | `pos`'s element is removed, size drops by one, the ring is kept, and the node alone is handed back; when the node size is a size class, that pool steps by `SlabPool.Deallocate` of the node, and every other pool keeps its state |
| Lists.List.PushBack | list_fastallocator.h:197-199 | appends `v` in a node that was not live; when the node size is a size class, that pool steps by `SlabPool.Allocate`, which yields the node, and every other pool keeps its state |
| Lists.List.PushFront | list_fastallocator.h:201-203 | prepends `v` in a node that was not live; when the node size is a size class, that pool steps by `SlabPool.Allocate`, which yields the node, and every other pool keeps its state |
| Lists.List.PopBack | list_fastallocator.h:205-209 | on a non-empty list, removes the last element and hands back its node; when the node size is a size class, that pool steps by `SlabPool.Deallocate` of the node, and every other pool keeps its state |
| Lists.List.PopFront | list_fastallocator.h:211-213 | on a non-empty list, removes the first element and hands back its node; when the node size is a size class, that pool steps by `SlabPool.Deallocate` of the node, and every other pool keeps its state |
| Lists.List.EraseAll | list_fastallocator.h:360-365 | popping from the back `size()` times empties the list and hands back every value node; when the node size is a size class, that pool ends as `SlabPool.DeallocateAll` of the value nodes taken last to first, so its free list grows by them in that order and its slabs and cursor stay; every other pool keeps its state |
| Lists.List.EraseLast | list_fastallocator.h:361-365 | one round of the loop of `destroy()`: the last element is erased, and its node joins those handed back, both on the registry and on top of the node pool's free list; every other pool keeps its state |
| Lists.List.Destroy | list_fastallocator.h:357-367 | every node the list owned, sentinel included, is handed back and nothing else; when the node size is a size class, that pool ends as `SlabPool.DeallocateAll` of the value nodes taken last to first and then the sentinel; every other pool keeps its state |
| Lists.List.Elements | list_fastallocator.h:239-250 | walking from `begin()` with `++` and reading with `*` until `end()` yields the elements in order |
| Lists.List.ReverseElements | list_fastallocator.h:297-331 | walking from `rbegin()` to `rend()` yields the elements last first |
| Lists.List.AppendAll | list_fastallocator.h:187-189 | pushing every element of another list at the back appends its elements in order, leaves it unchanged, and takes only fresh storage; every pool other than the one the node size routes to keeps its state |
| Lists.List.Assign | list_fastallocator.h:175-191 | `operator=` leaves a list equal to `other`, built from fresh storage, after handing back all old nodes; self-assignment changes neither the list nor any pool or the fallback; every pool other than the one the node size routes to keeps its state |
| Lists.List.PushFresh | list_fastallocator.h:187-189 | one round of the copy loop: `push_back` of one element, with the nodes added since the loop began still disjoint from what was live before it and the only addresses that became live; every pool other than the one the node size routes to keeps its state |
| Lists.List.Copy | list_fastallocator.h:165-169 | the copy holds `other`'s elements in order, on an allocator sharing its pools, in storage that was not live; every pool other than the one the node size routes to keeps its state |
| Lists.List.Fill | list_fastallocator.h:145-149 | `count` copies of `v`, in storage that was not live; every pool other than the one the node size routes to keeps its state |
| Lists.List.AppendCopies | list_fastallocator.h:146-148 | the loop of `List(count, v, alloc)`: `count` copies of `v` are pushed at the back, in nodes that were not live and are the only new live addresses; every pool other than the one the node size routes to keeps its state |
| Lists.List.Hang | list_fastallocator.h:156-158 | the node is linked after the last one and becomes last; the ring is still open |
| Lists.List.Close | list_fastallocator.h:161-162 | linking the last node and the sentinel to each other gives a valid ring |
| Lists.List.HangAfter | list_fastallocator.h:154-159 | one loop round: a fresh node is allocated and hung after the last one; when the node size is a size class, that pool steps by `SlabPool.Allocate`, which yields the node, and every other pool keeps its state |
| Lists.List.Step | list_fastallocator.h:153-160 | one loop round of `List(count, alloc)`: a fresh node holding `v` is hung last, and the nodes added since the loop began remain exactly what became live; every pool other than the one the node size routes to keeps its state |
| Lists.List.Chain | list_fastallocator.h:152-162 | the loop builds `count` nodes holding the default value, then closes the ring; only those nodes become live; every pool other than the one the node size routes to keeps its state |
| Lists.List.Sized | list_fastallocator.h:151-163 | `count` default elements, in storage that was not live; every pool other than the one the node size routes to keeps its state |

## Left out

- Real memory is not modelled. `new Pool[size]`, the pool destructor's `delete[]` and byte layout (`int8_t data[chunkSize]`, `sizeof(Node)`, padding) are replaced by abstract addresses. An element or node size is a parameter, `elemSize`.
- Memory exhaustion is not modelled. Slab growth and the fallback always succeed.
- The general-purpose allocator is modelled as a source of fresh `Block` identifiers. It is not `std::allocator` itself.
- The static-local singletons `get_instance` are not modelled as such. They become one `Registry` object that every allocator shares. Initialisation order and lifetime at process exit are not modelled.
- Thread safety is not modelled. Every operation is sequential.
- The unused static `counter` and `get_allocator`/`allocc` are not modelled. The list keeps a single allocator, already rebound to nodes.
- `allocator_traits` details are not modelled. The copy constructor's `select_on_container_copy_construction` is a copy of the allocator, so both lists share the same pools. `propagate_on_container_copy_assignment` is false for this allocator, so `Assign` keeps its own allocator.
- The iterator classes are not modelled as objects. An iterator is the node address it stands on. `++`/`--`/`*` are field reads in the walks `Elements` and `ReverseElements`. `Neighbours` states where they lead. The const and non-const variants behave alike and are not duplicated.
- The destructor is not modelled as an automatic call. `Destroy` is what it runs. The `fake == nullptr` guard is not modelled, because a list always has a sentinel, so the guard never fires.
- FastAllocators.FastAllocator.Allocate and FastAllocators.FastAllocator.Deallocate route on the exact product `elemSize * count` (`Route`), the corrected routing. The source compares a 64-bit product that wraps around. That behaviour is modelled only by `RouteAsWritten`, as the finding below describes.
- Lists.List is always modelled over a `FastAllocator`, although the source's `Allocator` parameter defaults to `std::allocator<T>`. Nothing is lost in effect: a `FastAllocator` whose node size matches no size class sends every request to the fallback, which is what `std::allocator` does.
- Lists.List.Sized: the source builds its nodes with the constructor that leaves `value` default-initialised. The model takes that default value as the parameter `def`.
- Lists.List.Insert, Lists.List.PushBack, Lists.List.PushFront: the source returns nothing. The ghost result only names the new node for the contract.
- Lists.List.PopBack, Lists.List.PopFront and Lists.List.Erase require a non-empty list and a value node of this list, respectively. The source leaves those cases undefined.
- FixedAllocators.FixedAllocator.Deallocate and FastAllocators.FastAllocator.Deallocate require the address to be currently handed out by the source the route names. The source does not check this, and breaking it is undefined.
- Lists.List.Chain, Lists.List.Step, Lists.List.HangAfter, Lists.List.Hang and Lists.List.Close split up the loop that the source writes inline in the `List(count, alloc)` constructor. Lists.List.EraseAll is likewise the loop of `destroy()` (with Lists.List.EraseLast, one round), Lists.List.AppendCopies the loop of `List(count, v, alloc)`, and Lists.List.AppendAll (with Lists.List.PushFresh, one round) the loop shared by the copy constructor and `operator=`.

## Findings

| source | as written | input that shows it | evidently intended | confidence | as-written member | corrected member |
|---|---|---|---|---|---|---|
| list_fastallocator.h:79-105 | the size class is picked from `sizeof(T) * count` in 64-bit `size_t`, which wraps | `sizeof(T) == 8`, `count == 2^61 + 1`: the product wraps to 8, so the request is served by one 8-byte chunk | route by the exact request size, so a request too large to represent can never land in a small pool | not executed | FastAllocators.RouteAsWrittenOverflow | FastAllocators.RouteAgreesWithoutOverflow |
