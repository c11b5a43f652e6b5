/**
 * The behaviour of one fixed-size slab pool, as functions on its state.
 *
 * A pool owns a grow-only collection of slabs of `SlabSize` chunks each. A
 * cursor marks the next never-used chunk of the last slab, and a free list,
 * used as a stack, holds the chunks handed back by `Deallocate`. The class
 * `FixedAllocators.FixedAllocator` updates the same state in place and is
 * proved to follow these functions step by step.
 */
module SlabPool {
  import opened Addresses

  /** Number of chunks in every slab (the pool's `size` member). */
  const SlabSize: nat := 2048

  /**
   * `pools` is the number of slabs appended so far (slabs are never moved or
   * removed, so a count names them all), `curPos` the cursor inside the last
   * slab and `reused` the free list, whose last element is its top.
   */
  datatype PoolState = PoolState(chunkSize: nat, pools: nat, curPos: nat, reused: seq<Addr>)

  /** Appends one slab and resets the cursor. */
  function NewPool(s: PoolState): (t: PoolState)
    ensures t.pools == s.pools + 1 && t.curPos == 0
    ensures t.chunkSize == s.chunkSize && t.reused == s.reused
  {
    s.(pools := s.pools + 1, curPos := 0)
  }

  /** The state right after construction: one slab, nothing handed out. */
  function Init(chunkSize: nat): (s: PoolState)
    ensures s == PoolState(chunkSize, 1, 0, [])
  {
    NewPool(PoolState(chunkSize, 0, 0, []))
  }

  /**
   * Hands out one chunk: the top of the free list when there is one,
   * otherwise the chunk under the cursor, after appending a slab when the
   * last one is used up.
   */
  function Allocate(s: PoolState): (r: (PoolState, Addr))
    requires s.pools >= 1
    ensures r.0.chunkSize == s.chunkSize
    ensures r.0.pools == s.pools || r.0.pools == s.pools + 1
  {
    if s.reused != [] then
      (s.(reused := s.reused[..|s.reused| - 1]), s.reused[|s.reused| - 1])
    else
      var t := if s.curPos == SlabSize then NewPool(s) else s;
      (t.(curPos := t.curPos + 1), Chunk(t.chunkSize, t.pools - 1, t.curPos))
  }

  /** Takes a chunk back: it is pushed on the free list and nothing else changes. */
  function Deallocate(s: PoolState, p: Addr): (t: PoolState)
    ensures t.chunkSize == s.chunkSize && t.pools == s.pools && t.curPos == s.curPos
    ensures |t.reused| == |s.reused| + 1 && t.reused[..|s.reused|] == s.reused && t.reused[|s.reused|] == p
  {
    s.(reused := s.reused + [p])
  }

  /**
   * Takes back the chunks of `ps`, first to last: they end up on the free list
   * in that order, above the chunks already there, and nothing else changes.
   */
  function DeallocateAll(s: PoolState, ps: seq<Addr>): (t: PoolState)
    ensures t.chunkSize == s.chunkSize && t.pools == s.pools && t.curPos == s.curPos
    ensures t.reused == s.reused + ps
    decreases |ps|
  {
    if ps == [] then s
    else
      var init := ps[..|ps| - 1];
      assert ps == init + [ps[|ps| - 1]];
      Deallocate(DeallocateAll(s, init), ps[|ps| - 1])
  }

  /** Position of a chunk in the order in which fresh chunks are carved. */
  function Ordinal(a: Addr): nat
    requires a.Chunk?
  {
    a.slab * SlabSize + a.offset
  }

  /** Number of chunks carved so far from the slabs (used or on the free list). */
  function NumCarved(s: PoolState): nat
    requires s.pools >= 1
  {
    (s.pools - 1) * SlabSize + s.curPos
  }

  /** The `k`-th chunk carved by a pool of chunk size `chunkSize`. */
  function NthChunk(chunkSize: nat, k: nat): Addr {
    Chunk(chunkSize, k / SlabSize, k % SlabSize)
  }

  /** `a` is a chunk of this pool that the cursor has already passed. */
  ghost predicate Carved(s: PoolState, a: Addr) {
    a.Chunk? && a.chunkSize == s.chunkSize &&
    ((a.slab + 1 < s.pools && a.offset < SlabSize) ||
     (a.slab + 1 == s.pools && a.offset < s.curPos))
  }

  /**
   * The pool invariant, relative to the set `out` of chunks currently handed
   * out: at least one slab, the cursor within the last slab, a slab appended
   * only when a chunk is needed from it, every handed-out chunk carved, the
   * free list made of distinct carved chunks none of which is handed out, and
   * every carved chunk either handed out or on the free list.
   */
  ghost predicate Inv(s: PoolState, out: set<Addr>) {
    s.pools >= 1 && s.curPos <= SlabSize &&
    (s.pools > 1 ==> s.curPos >= 1) &&
    (forall a {:trigger Carved(s, a)} :: a in out ==> Carved(s, a)) &&
    (forall i :: 0 <= i < |s.reused| ==> Carved(s, s.reused[i]) && s.reused[i] !in out) &&
    Distinct(s.reused) &&
    (forall a :: Carved(s, a) ==> a in out || a in s.reused)
  }

  lemma InitInv(chunkSize: nat)
    ensures Inv(Init(chunkSize), {})
    ensures NumCarved(Init(chunkSize)) == 0
  {
  }

  /** A chunk is carved exactly when its ordinal is below the carved count. */
  lemma CarvedIffBelow(s: PoolState, a: Addr)
    requires s.pools >= 1 && s.curPos <= SlabSize
    ensures Carved(s, a) <==>
      a.Chunk? && a.chunkSize == s.chunkSize && a.offset < SlabSize && Ordinal(a) < NumCarved(s)
  {
    if a.Chunk? && a.chunkSize == s.chunkSize && a.offset < SlabSize {
      if a.slab + 1 > s.pools {
        assert a.slab * SlabSize >= s.pools * SlabSize;
      }
    }
  }

  /** LIFO reuse: a chunk handed back is the very next one handed out, and the pool returns to its former state. */
  lemma LifoRoundTrip(s: PoolState, p: Addr)
    requires s.pools >= 1
    ensures Allocate(Deallocate(s, p)) == (s, p)
  {
    var d := Deallocate(s, p);
    assert d.reused[..|d.reused| - 1] == s.reused;
  }

  /**
   * The fresh-chunk path: with an empty free list the chunk under the cursor
   * is handed out and the cursor advances; a full last slab first gets a new
   * slab, whose first chunk is handed out. The fresh chunk comes after every
   * chunk carved before it.
   */
  lemma FreshChunk(s: PoolState)
    requires s.pools >= 1 && s.curPos <= SlabSize
    requires s.reused == []
    ensures var (t, p) := Allocate(s);
      t.reused == [] &&
      (s.curPos == SlabSize ==> t.pools == s.pools + 1 && t.curPos == 1 && p == Chunk(s.chunkSize, s.pools, 0)) &&
      (s.curPos < SlabSize ==> t.pools == s.pools && t.curPos == s.curPos + 1 && p == Chunk(s.chunkSize, s.pools - 1, s.curPos)) &&
      p == NthChunk(s.chunkSize, NumCarved(s)) &&
      NumCarved(t) == NumCarved(s) + 1 &&
      !Carved(s, p) && Carved(t, p) &&
      (forall a :: Carved(s, a) ==> a.Chunk? && Ordinal(a) < Ordinal(p))
  {
    var (t, p) := Allocate(s);
    var k := NumCarved(s);
    DivModUnique(k, p.slab, p.offset);
    forall a | Carved(s, a) ensures a.Chunk? && Ordinal(a) < Ordinal(p) {
      CarvedIffBelow(s, a);
    }
  }

  /** Division by the slab size, pinned down for a known quotient and remainder. */
  lemma DivModUnique(k: nat, q: nat, r: nat)
    requires r < SlabSize && k == q * SlabSize + r
    ensures k / SlabSize == q && k % SlabSize == r
  {
  }

  /**
   * No double issue: from a consistent state, `Allocate` hands out a chunk
   * that is not currently handed out, and the state stays consistent with
   * that chunk added to the handed-out set.
   */
  lemma AllocateKeepsInv(s: PoolState, out: set<Addr>)
    requires Inv(s, out)
    ensures var (t, p) := Allocate(s);
      p !in out && p !in t.reused && Inv(t, out + {p})
  {
    var (t, p) := Allocate(s);
    forall a | a in out ensures Carved(t, a) {
      assert Carved(s, a);
    }
    if s.reused != [] {
      var n := |s.reused|;
      assert t.reused == s.reused[..n - 1];
      forall i, j | 0 <= i < j < n - 1 ensures t.reused[i] != t.reused[j] {
        DistinctAt(s.reused, i, j);
      }
      DistinctByPairs(t.reused);
      forall i | 0 <= i < n - 1 ensures t.reused[i] != p {
        DistinctAt(s.reused, i, n - 1);
      }
      forall a | Carved(t, a) ensures a in out + {p} || a in t.reused {
        assert a in out || a in s.reused;
        if a in s.reused && a !in out {
          var i :| 0 <= i < n && s.reused[i] == a;
          if i < n - 1 { assert t.reused[i] == a; }
        }
      }
    } else {
      FreshChunk(s);
      forall a | Carved(t, a) ensures a in out + {p} {
        CarvedIffBelow(s, a);
        CarvedIffBelow(t, a);
        if a != p {
          CarvedIffBelow(t, p);
          assert Ordinal(p) == NumCarved(s);
          assert Ordinal(a) != Ordinal(p) by {
            if Ordinal(a) == Ordinal(p) {
              DivModUnique(Ordinal(a), a.slab, a.offset);
            }
          }
        }
      }
    }
  }

  /** Handing back a chunk that is handed out keeps the state consistent. */
  lemma DeallocateKeepsInv(s: PoolState, out: set<Addr>, p: Addr)
    requires Inv(s, out) && p in out
    ensures Inv(Deallocate(s, p), out - {p})
    ensures Deallocate(s, p).pools == s.pools && Deallocate(s, p).curPos == s.curPos
  {
    var t := Deallocate(s, p);
    assert Carved(s, p);
    forall a | a in out - {p} ensures Carved(t, a) {
      assert Carved(s, a);
    }
    forall i | 0 <= i < |t.reused| ensures Carved(t, t.reused[i]) && t.reused[i] !in out - {p} {
      if i < |s.reused| { assert t.reused[i] == s.reused[i]; }
    }
    forall i, j | 0 <= i < j < |t.reused| ensures t.reused[i] != t.reused[j] {
      if j < |s.reused| { DistinctAt(s.reused, i, j); }
    }
    DistinctByPairs(t.reused);
  }

  /** `n` allocations in a row: the final state and the chunks handed out, in order. */
  function AllocateN(s: PoolState, n: nat): (r: (PoolState, seq<Addr>))
    requires s.pools >= 1
    ensures |r.1| == n && r.0.pools >= s.pools
    decreases n
  {
    if n == 0 then (s, [])
    else
      var (t, p) := Allocate(s);
      var (u, ps) := AllocateN(t, n - 1);
      (u, [p] + ps)
  }

  /**
   * With an empty free list, `n` allocations carve the next `n` chunks in
   * order: the `i`-th one handed out is the chunk with ordinal
   * `NumCarved(s) + i`, so fresh chunks come in strictly increasing
   * (slab, offset) order and are pairwise distinct.
   */
  lemma {:induction false} FreshRun(s: PoolState, n: nat)
    requires s.pools >= 1 && s.curPos <= SlabSize && (s.pools > 1 ==> s.curPos >= 1)
    requires s.reused == []
    ensures var (u, ps) := AllocateN(s, n);
      u.reused == [] && u.curPos <= SlabSize && (u.pools > 1 ==> u.curPos >= 1) &&
      NumCarved(u) == NumCarved(s) + n &&
      (forall i :: 0 <= i < n ==> ps[i] == NthChunk(s.chunkSize, NumCarved(s) + i))
    decreases n
  {
    if n > 0 {
      var (t, p) := Allocate(s);
      FreshChunk(s);
      FreshRun(t, n - 1);
      var (u, ps) := AllocateN(t, n - 1);
      assert AllocateN(s, n) == (u, [p] + ps);
      assert t.chunkSize == s.chunkSize && NumCarved(t) == NumCarved(s) + 1;
      forall i | 0 <= i < n ensures ([p] + ps)[i] == NthChunk(s.chunkSize, NumCarved(s) + i) {
        if i > 0 {
          assert ([p] + ps)[i] == ps[i - 1] == NthChunk(t.chunkSize, NumCarved(t) + (i - 1));
        }
      }
    }
  }

  /**
   * Slabs are appended only when needed: a pool that has carved `k` chunks
   * owns exactly one slab when `k == 0` and `(k - 1) / SlabSize + 1` slabs
   * otherwise.
   */
  lemma SlabCount(s: PoolState)
    requires s.pools >= 1 && s.curPos <= SlabSize && (s.pools > 1 ==> s.curPos >= 1)
    ensures s.pools == if NumCarved(s) == 0 then 1 else (NumCarved(s) - 1) / SlabSize + 1
  {
    if NumCarved(s) > 0 && s.curPos > 0 {
      DivModUnique(NumCarved(s) - 1, s.pools - 1, s.curPos - 1);
    }
  }

  /**
   * Growth: `n` allocations on a fresh pool hand out the chunks
   * `NthChunk(0)`, ..., `NthChunk(n - 1)`, all distinct, and leave it with
   * `(n - 1) / SlabSize + 1` slabs; the 2049th allocation is the first to
   * append a second slab.
   */
  lemma GrowthFromInit(chunkSize: nat, n: nat)
    ensures var (u, ps) := AllocateN(Init(chunkSize), n);
      (forall i :: 0 <= i < n ==> ps[i] == NthChunk(chunkSize, i)) &&
      Distinct(ps) &&
      u.pools == if n == 0 then 1 else (n - 1) / SlabSize + 1
  {
    var s := Init(chunkSize);
    FreshRun(s, n);
    var (u, ps) := AllocateN(s, n);
    SlabCount(u);
    forall i, j | 0 <= i < j < n ensures ps[i] != ps[j] {
      DivModUnique(i, i / SlabSize, i % SlabSize);
      DivModUnique(j, j / SlabSize, j % SlabSize);
    }
  }

  /** `n` rounds of handing out one chunk and handing it straight back. */
  function Churn(s: PoolState, n: nat): (t: PoolState)
    requires s.pools >= 1
    ensures t.pools >= s.pools
    decreases n
  {
    if n == 0 then s
    else
      var (t, p) := Allocate(s);
      Churn(Deallocate(t, p), n - 1)
  }

  /**
   * A fresh pool that repeatedly allocates and immediately frees one chunk
   * never grows past its first slab: after the first round the only chunk
   * ever carved is the first one, and it sits on the free list.
   */
  lemma ChurnFromInit(chunkSize: nat, n: nat)
    ensures n > 0 ==> Churn(Init(chunkSize), n) == PoolState(chunkSize, 1, 1, [Chunk(chunkSize, 0, 0)])
    ensures Churn(Init(chunkSize), n).pools == 1
  {
    if n > 0 {
      var s := Init(chunkSize);
      var one := PoolState(chunkSize, 1, 1, [Chunk(chunkSize, 0, 0)]);
      assert Allocate(s) == (PoolState(chunkSize, 1, 1, []), Chunk(chunkSize, 0, 0));
      assert Deallocate(PoolState(chunkSize, 1, 1, []), Chunk(chunkSize, 0, 0)) == one;
      ChurnSteady(one, n - 1);
    }
  }

  /** Once the free list holds the chunk, every further round leaves the state as it was. */
  lemma {:induction false} ChurnSteady(s: PoolState, n: nat)
    requires s.pools >= 1 && s.reused != []
    ensures Churn(s, n) == s
    decreases n
  {
    if n > 0 {
      var top := s.reused[|s.reused| - 1];
      var below := s.(reused := s.reused[..|s.reused| - 1]);
      assert Deallocate(below, top) == s;
      LifoRoundTrip(below, top);
      ChurnSteady(s, n - 1);
    }
  }
}
