/**
 * The doubly-linked list: a circular ring of nodes closed by a sentinel node
 * `fake` that holds no value. The empty list is the sentinel linked to
 * itself; `begin()` is the sentinel's successor and `end()` the sentinel.
 *
 * Node storage comes from a size-class allocator, one node per request, so a
 * node is named by the address the allocator handed out. The node fields the
 * source updates through pointers are maps from node addresses: `next`,
 * `prev` and `value`. The ghost sequences `nodes` and `contents` give the
 * value nodes and their values in ring order, starting after the sentinel.
 */
module Lists {
  import opened Addresses
  import opened FastAllocators
  import SP = SlabPool

  /** The sentinel and the value nodes of a ring. */
  ghost function RingNodes(fake: Addr, nodes: seq<Addr>): set<Addr> {
    {fake} + set h | h in nodes
  }

  /**
   * Following `next` from the sentinel visits `nodes` in order and comes
   * back to the sentinel; the map holds exactly the ring's nodes.
   */
  ghost predicate NextLinks(fake: Addr, nodes: seq<Addr>, next: map<Addr, Addr>) {
    next.Keys == RingNodes(fake, nodes) &&
    (nodes == [] ==> next[fake] == fake) &&
    (nodes != [] ==> next[fake] == nodes[0] && next[nodes[|nodes| - 1]] == fake) &&
    (forall i {:trigger next[nodes[i]]} :: 0 <= i < |nodes| - 1 ==> next[nodes[i]] == nodes[i + 1])
  }

  /** Following `prev` from the sentinel visits `nodes` backwards: `prev` is the inverse of `next`. */
  ghost predicate PrevLinks(fake: Addr, nodes: seq<Addr>, prev: map<Addr, Addr>) {
    prev.Keys == RingNodes(fake, nodes) &&
    (nodes == [] ==> prev[fake] == fake) &&
    (nodes != [] ==> prev[nodes[0]] == fake && prev[fake] == nodes[|nodes| - 1]) &&
    (forall i {:trigger prev[nodes[i]]} :: 0 < i < |nodes| ==> prev[nodes[i]] == nodes[i - 1])
  }

  /** Every value node holds the matching element of `contents`. */
  ghost predicate Values<T>(nodes: seq<Addr>, contents: seq<T>, value: map<Addr, T>) {
    |contents| == |nodes| &&
    value.Keys == (set h | h in nodes) &&
    (forall i :: 0 <= i < |nodes| ==> value[nodes[i]] == contents[i])
  }

  /** The ring invariant on the node fields. */
  ghost predicate Ring<T>(fake: Addr, nodes: seq<Addr>, contents: seq<T>,
                          next: map<Addr, Addr>, prev: map<Addr, Addr>, value: map<Addr, T>)
  {
    fake !in nodes && Distinct(nodes) &&
    NextLinks(fake, nodes, next) && PrevLinks(fake, nodes, prev) && Values(nodes, contents, value)
  }

  /** A ring without value nodes holds the sentinel alone. */
  lemma SentinelOnly(fake: Addr)
    ensures RingNodes(fake, []) == {fake}
  {
    assert (set h: Addr | h in []) == {};
  }

  /** The sentinel linked to itself is the ring of the empty list. */
  lemma EmptyRing<T>(fake: Addr)
    ensures Ring<T>(fake, [], [], map[fake := fake], map[fake := fake], map[])
    ensures RingNodes(fake, []) == {fake}
  {
    assert (set h: Addr | h in []) == {};
  }

  /** The neighbours of the node `pos` at position `k` (the sentinel being position `|nodes|`). */
  lemma Neighbours<T>(fake: Addr, nodes: seq<Addr>, contents: seq<T>,
                      next: map<Addr, Addr>, prev: map<Addr, Addr>, value: map<Addr, T>, pos: Addr)
    requires Ring(fake, nodes, contents, next, prev, value)
    requires pos in RingNodes(fake, nodes)
    ensures var k := IndexOf(nodes, pos);
      pos == (if k == |nodes| then fake else nodes[k]) &&
      prev[pos] == (if k == 0 then fake else nodes[k - 1]) &&
      (k < |nodes| ==> next[pos] == if k == |nodes| - 1 then fake else nodes[k + 1])
  {
    var k := IndexOf(nodes, pos);
    if pos == fake {
      assert k == |nodes|;
    } else {
      assert k < |nodes| && nodes[k] == pos;
      if k > 0 {
        assert prev[nodes[k]] == nodes[k - 1];
      }
      if k < |nodes| - 1 {
        assert next[nodes[k]] == nodes[k + 1];
      }
    }
  }

  /** Splicing a new node in at position `k` adds it to the ring's nodes and keeps them distinct. */
  lemma InsertNodes(fake: Addr, nodes: seq<Addr>, k: nat, p: Addr)
    requires fake !in nodes && Distinct(nodes) && k <= |nodes| && p !in RingNodes(fake, nodes)
    ensures var nodes' := nodes[..k] + [p] + nodes[k..];
      fake !in nodes' && Distinct(nodes') && RingNodes(fake, nodes') == RingNodes(fake, nodes) + {p}
  {
    var nodes' := nodes[..k] + [p] + nodes[k..];
    forall h ensures h in nodes' <==> h in nodes || h == p {
      if h in nodes {
        var j :| 0 <= j < |nodes| && nodes[j] == h;
        if j < k { assert nodes'[j] == h; } else { assert nodes'[j + 1] == h; }
      }
    }
    forall i, j | 0 <= i < j < |nodes'| ensures nodes'[i] != nodes'[j] {
      if i != k && j != k {
        var i0 := if i < k then i else i - 1;
        var j0 := if j < k then j else j - 1;
        assert nodes'[i] == nodes[i0] && nodes'[j] == nodes[j0];
        DistinctAt(nodes, i0, j0);
      } else if i == k {
        assert nodes'[j] == nodes[j - 1];
      } else {
        assert nodes'[i] == nodes[i];
      }
    }
    DistinctByPairs(nodes');
  }

  /** The chain of `next` links through the value nodes after `insert`'s two writes. */
  lemma InsertNextChain(fake: Addr, nodes: seq<Addr>, next: map<Addr, Addr>, k: nat, p: Addr, before: Addr, pos: Addr)
    requires NextLinks(fake, nodes, next) && fake !in nodes && Distinct(nodes)
    requires k <= |nodes| && p !in RingNodes(fake, nodes)
    requires before == (if k == 0 then fake else nodes[k - 1])
    requires pos == (if k == |nodes| then fake else nodes[k])
    ensures var nodes', next' := nodes[..k] + [p] + nodes[k..], next[p := pos][before := p];
      forall i {:trigger next'[nodes'[i]]} :: 0 <= i < |nodes'| - 1 ==> next'[nodes'[i]] == nodes'[i + 1]
  {
    var nodes' := nodes[..k] + [p] + nodes[k..];
    var next' := next[p := pos][before := p];
    forall i | 0 <= i < |nodes'| - 1 ensures next'[nodes'[i]] == nodes'[i + 1] {
      if i < k - 1 {
        assert nodes'[i] == nodes[i] && nodes'[i + 1] == nodes[i + 1];
        DistinctAt(nodes, i, k - 1);
      } else if i == k - 1 {
        assert nodes'[i] == before;
      } else if i == k {
        assert nodes'[i + 1] == pos;
      } else {
        assert nodes'[i] == nodes[i - 1] && nodes'[i + 1] == nodes[i];
        if k > 0 { DistinctAt(nodes, i - 1, k - 1); }
      }
    }
  }

  /** After `insert`'s two writes, the sentinel leads to the first value node and the last one back to it. */
  lemma InsertNextEnds(fake: Addr, nodes: seq<Addr>, next: map<Addr, Addr>, k: nat, p: Addr, before: Addr, pos: Addr)
    requires NextLinks(fake, nodes, next) && fake !in nodes && Distinct(nodes)
    requires k <= |nodes| && p !in RingNodes(fake, nodes)
    requires before == (if k == 0 then fake else nodes[k - 1])
    requires pos == (if k == |nodes| then fake else nodes[k])
    ensures var nodes', next' := nodes[..k] + [p] + nodes[k..], next[p := pos][before := p];
      |nodes'| == |nodes| + 1 && next'[fake] == nodes'[0] && next'[nodes'[|nodes'| - 1]] == fake
  {
    var nodes' := nodes[..k] + [p] + nodes[k..];
    var next' := next[p := pos][before := p];
    if k == 0 {
      assert next'[fake] == p == nodes'[0];
    } else {
      assert next'[fake] == next[fake] == nodes[0] == nodes'[0];
    }
    if k == |nodes| {
      assert next'[nodes'[|nodes'| - 1]] == next'[p] == fake;
    } else {
      var last := nodes[|nodes| - 1];
      assert nodes'[|nodes'| - 1] == nodes[k..][|nodes| - 1 - k] == last;
      assert last in nodes && last != p;
      if k > 0 { DistinctAt(nodes, k - 1, |nodes| - 1); }
      assert next'[last] == next[last] == fake;
    }
  }

  /** `insert`'s two `next` writes give the `next` links of the ring with `p` spliced in at position `k`. */
  lemma InsertNext(fake: Addr, nodes: seq<Addr>, next: map<Addr, Addr>, k: nat, p: Addr, before: Addr, pos: Addr)
    requires NextLinks(fake, nodes, next) && fake !in nodes && Distinct(nodes)
    requires k <= |nodes| && p !in RingNodes(fake, nodes)
    requires before == (if k == 0 then fake else nodes[k - 1])
    requires pos == (if k == |nodes| then fake else nodes[k])
    ensures NextLinks(fake, nodes[..k] + [p] + nodes[k..], next[p := pos][before := p])
  {
    InsertNodes(fake, nodes, k, p);
    InsertNextChain(fake, nodes, next, k, p, before, pos);
    InsertNextEnds(fake, nodes, next, k, p, before, pos);
    assert before in next.Keys;
  }

  lemma InsertPrev(fake: Addr, nodes: seq<Addr>, prev: map<Addr, Addr>, k: nat, p: Addr, before: Addr, pos: Addr)
    requires PrevLinks(fake, nodes, prev) && fake !in nodes && Distinct(nodes)
    requires k <= |nodes| && p !in RingNodes(fake, nodes)
    requires before == (if k == 0 then fake else nodes[k - 1])
    requires pos == (if k == |nodes| then fake else nodes[k])
    ensures PrevLinks(fake, nodes[..k] + [p] + nodes[k..], prev[p := before][pos := p])
  {
    var nodes' := nodes[..k] + [p] + nodes[k..];
    var prev' := prev[p := before][pos := p];
    InsertNodes(fake, nodes, k, p);
    forall i | 0 < i < |nodes'| ensures prev'[nodes'[i]] == nodes'[i - 1] {
      if i < k {
        assert nodes'[i] == nodes[i] && nodes'[i - 1] == nodes[i - 1];
        if k < |nodes| { DistinctAt(nodes, i, k); }
      } else if i == k {
        assert nodes'[i - 1] == before;
      } else if i == k + 1 {
        assert nodes'[i] == pos;
      } else {
        assert nodes'[i] == nodes[i - 1] && nodes'[i - 1] == nodes[i - 2];
        if k < |nodes| { DistinctAt(nodes, i - 1, k); }
      }
    }
  }

  lemma InsertValues<T>(fake: Addr, nodes: seq<Addr>, contents: seq<T>, value: map<Addr, T>, k: nat, p: Addr, v: T)
    requires Values(nodes, contents, value) && fake !in nodes && Distinct(nodes)
    requires k <= |nodes| && p !in RingNodes(fake, nodes)
    ensures Values(nodes[..k] + [p] + nodes[k..], contents[..k] + [v] + contents[k..], value[p := v])
  {
    var nodes' := nodes[..k] + [p] + nodes[k..];
    var contents' := contents[..k] + [v] + contents[k..];
    InsertNodes(fake, nodes, k, p);
    forall i | 0 <= i < |nodes'| ensures value[p := v][nodes'[i]] == contents'[i] {
      if i < k { assert nodes'[i] == nodes[i]; }
      else if i > k { assert nodes'[i] == nodes[i - 1]; }
    }
  }

  /** Cutting at either end of a non-empty sequence drops its first or its last element. */
  lemma CutAtEnds<U>(s: seq<U>)
    requires s != []
    ensures s[..0] + s[1..] == s[1..]
    ensures s[..|s| - 1] + s[|s|..] == s[..|s| - 1]
  {
    assert s[..0] == [] && s[|s|..] == [];
  }

  /** Handing back one more owned address extends what has been handed back by it. */
  lemma HandBackOne(live0: set<Addr>, owned0: set<Addr>, owned: set<Addr>, live: set<Addr>, x: Addr)
    requires x in owned && owned <= owned0 && live == live0 - (owned0 - owned)
    ensures live - {x} == live0 - (owned0 - (owned - {x}))
  {
  }

  /** Taking one more address that was not live extends what has been taken by it. */
  lemma TakeOne(live0: set<Addr>, owned0: set<Addr>, owned: set<Addr>, live: set<Addr>, x: Addr)
    requires owned0 <= owned <= live && x !in live
    requires live0 !! owned - owned0 && live == live0 + (owned - owned0)
    ensures live0 !! (owned + {x}) - owned0
    ensures live + {x} == live0 + ((owned + {x}) - owned0)
  {
  }

  /**
   * Taking a fresh sentinel `x` and then the rest of `owned` takes `owned`,
   * none of which was live.
   */
  lemma TakeAll(live0: set<Addr>, x: Addr, owned: set<Addr>, live: set<Addr>)
    requires x !in live0 && x in owned
    requires live0 + {x} !! owned - {x} && live == live0 + {x} + (owned - {x})
    ensures live == live0 + owned && live0 !! owned
  {
  }


  /** Handing back the last owned address completes handing back all of them. */
  lemma HandBackLast(live0: set<Addr>, owned0: set<Addr>, live: set<Addr>, x: Addr)
    requires x in owned0 && live == live0 - (owned0 - {x})
    ensures live - {x} == live0 - owned0
  {
  }

  /**
   * Handing back the node before an erased suffix extends, by that node, the
   * reversed suffix the pool has taken back.
   */
  lemma HandBackStep(s0: SP.PoolState, ns: seq<Addr>, k: nat)
    requires 0 < k <= |ns|
    ensures SP.Deallocate(SP.DeallocateAll(s0, Reversed(ns[k..])), ns[k - 1])
      == SP.DeallocateAll(s0, Reversed(ns[k - 1..]))
  {
    assert ns[k - 1..][1..] == ns[k..];
  }

  /** A prefix one shorter of a prefix is a prefix. */
  lemma ShorterPrefix<U>(s: seq<U>, n: nat)
    requires 0 < n <= |s|
    ensures s[..n][..n - 1] == s[..n - 1]
  {
  }

  /** Extending a prefix taken after `a` by the next element. */
  lemma LongerPrefix<U>(a: seq<U>, s: seq<U>, i: nat)
    requires i < |s|
    ensures a + s[..i] + [s[i]] == a + s[..i + 1]
  {
    assert s[..i] + [s[i]] == s[..i + 1];
  }

  /** `n` copies of `v`. */
  ghost function Copies<U>(n: nat, v: U): (r: seq<U>)
    ensures |r| == n && forall j :: 0 <= j < n ==> r[j] == v
  {
    if n == 0 then [] else Copies(n - 1, v) + [v]
  }

  /** A later update of a key overrides an earlier one, past an update of another key. */
  lemma Overwrite<K, V>(m: map<K, V>, a: K, b: K, x: V, y: V, z: V)
    requires a != b
    ensures m[a := x][b := y][a := z] == m[a := z][b := y] == m[b := y][a := z]
  {
  }

  /** Appending to nothing gives what is appended. */
  lemma AppendToEmpty<U>(s: seq<U>)
    ensures [] + s == s
  {
  }

  /** Splicing at either end of a sequence is prepending or appending. */
  lemma SpliceAtEnds<U>(s: seq<U>, x: U)
    ensures s[..0] + [x] + s[0..] == [x] + s
    ensures s[..|s|] + [x] + s[|s|..] == s + [x]
  {
    assert s[..0] == [] && s[0..] == s && s[..|s|] == s && s[|s|..] == [];
  }

  /** Following `next` from the `i`-th value node reaches the next one, or the sentinel after the last. */
  lemma Successor(fake: Addr, nodes: seq<Addr>, next: map<Addr, Addr>, i: nat)
    requires NextLinks(fake, nodes, next) && i < |nodes|
    ensures nodes[i] in next && next[nodes[i]] == if i + 1 < |nodes| then nodes[i + 1] else fake
  {
  }

  /** The `i`-th value node holds the `i`-th element. */
  lemma ValueAt<T>(nodes: seq<Addr>, contents: seq<T>, value: map<Addr, T>, i: nat)
    requires Values(nodes, contents, value) && i < |nodes|
    ensures nodes[i] in value && value[nodes[i]] == contents[i]
  {
  }

  /** Splicing a fresh node `p` holding `v` in before `pos` keeps the ring, with `v` at `pos`'s position. */
  lemma InsertKeepsRing<T>(fake: Addr, nodes: seq<Addr>, contents: seq<T>,
                           next: map<Addr, Addr>, prev: map<Addr, Addr>, value: map<Addr, T>,
                           pos: Addr, p: Addr, v: T, k: nat, before: Addr,
                           nodes': seq<Addr>, contents': seq<T>,
                           next': map<Addr, Addr>, prev': map<Addr, Addr>, value': map<Addr, T>)
    requires Ring(fake, nodes, contents, next, prev, value)
    requires pos in RingNodes(fake, nodes) && p !in RingNodes(fake, nodes)
    requires k == IndexOf(nodes, pos) && before == prev[pos]
    requires nodes' == nodes[..k] + [p] + nodes[k..] && contents' == contents[..k] + [v] + contents[k..]
    requires next' == next[p := pos][before := p] && prev' == prev[p := before][pos := p] && value' == value[p := v]
    ensures Ring(fake, nodes', contents', next', prev', value')
    ensures RingNodes(fake, nodes') == RingNodes(fake, nodes) + {p}
  {
    Neighbours(fake, nodes, contents, next, prev, value, pos);
    InsertNodes(fake, nodes, k, p);
    InsertNext(fake, nodes, next, k, p, before, pos);
    InsertPrev(fake, nodes, prev, k, p, before, pos);
    InsertValues(fake, nodes, contents, value, k, p, v);
  }



  /**
   * Building a chain: while the last node `last` has no successor yet and
   * the sentinel no predecessor, the fields closed by `last` and the sentinel
   * form a ring. Hanging `node` after `last` keeps it so, with `node` last.
   */
  lemma ChainKeepsRing<T>(fake: Addr, nodes: seq<Addr>, contents: seq<T>,
                          next: map<Addr, Addr>, prev: map<Addr, Addr>, value: map<Addr, T>,
                          last: Addr, node: Addr, v: T,
                          nodes': seq<Addr>, contents': seq<T>,
                          next': map<Addr, Addr>, prev': map<Addr, Addr>, value': map<Addr, T>)
    requires last == (if nodes == [] then fake else nodes[|nodes| - 1])
    requires Ring(fake, nodes, contents, next[last := fake], prev[fake := last], value)
    requires node !in RingNodes(fake, nodes)
    requires nodes' == nodes + [node] && contents' == contents + [v]
    requires next' == next[last := node] && prev' == prev[node := last] && value' == value[node := v]
    ensures Ring(fake, nodes', contents', next'[node := fake], prev'[fake := node], value')
    ensures RingNodes(fake, nodes') == RingNodes(fake, nodes) + {node}
  {
    var next0, prev0 := next[last := fake], prev[fake := last];
    var k := IndexOf(nodes, fake);
    assert k == |nodes| && prev0[fake] == last;
    SpliceAtEnds(nodes, node);
    SpliceAtEnds(contents, v);
    Overwrite(next, last, node, fake, fake, node);
    Overwrite(prev, fake, node, last, last, node);
    InsertKeepsRing(fake, nodes, contents, next0, prev0, value, fake, node, v, k, last,
                    nodes', contents', next'[node := fake], prev'[fake := node], value');
  }


  /** Taking out the node at position `k` removes it from the ring's nodes and keeps them distinct. */
  lemma EraseNodes(fake: Addr, nodes: seq<Addr>, k: nat)
    requires fake !in nodes && Distinct(nodes) && k < |nodes|
    ensures var nodes' := nodes[..k] + nodes[k + 1..];
      fake !in nodes' && Distinct(nodes') && RingNodes(fake, nodes') == RingNodes(fake, nodes) - {nodes[k]}
  {
    var nodes' := nodes[..k] + nodes[k + 1..];
    forall h ensures h in nodes' <==> h in nodes && h != nodes[k] {
      if h in nodes' {
        var j :| 0 <= j < |nodes'| && nodes'[j] == h;
        if j < k {
          assert nodes[j] == h;
          DistinctAt(nodes, j, k);
        } else {
          assert nodes[j + 1] == h;
          DistinctAt(nodes, j + 1, k);
        }
      }
      if h in nodes && h != nodes[k] {
        var j :| 0 <= j < |nodes| && nodes[j] == h;
        if j < k { assert nodes'[j] == h; } else { assert nodes'[j - 1] == h; }
      }
    }
    forall i, j | 0 <= i < j < |nodes'| ensures nodes'[i] != nodes'[j] {
      var i0 := if i < k then i else i + 1;
      var j0 := if j < k then j else j + 1;
      assert nodes'[i] == nodes[i0] && nodes'[j] == nodes[j0];
      DistinctAt(nodes, i0, j0);
    }
    DistinctByPairs(nodes');
  }

  lemma EraseNext(fake: Addr, nodes: seq<Addr>, next: map<Addr, Addr>, k: nat, before: Addr, after: Addr)
    requires NextLinks(fake, nodes, next) && fake !in nodes && Distinct(nodes) && k < |nodes|
    requires before == (if k == 0 then fake else nodes[k - 1])
    requires after == (if k == |nodes| - 1 then fake else nodes[k + 1])
    ensures NextLinks(fake, nodes[..k] + nodes[k + 1..], next[before := after] - {nodes[k]})
  {
    var nodes' := nodes[..k] + nodes[k + 1..];
    var next' := next[before := after] - {nodes[k]};
    EraseNodes(fake, nodes, k);
    forall i | 0 <= i < |nodes'| - 1 ensures next'[nodes'[i]] == nodes'[i + 1] {
      if i < k - 1 {
        assert nodes'[i] == nodes[i] && nodes'[i + 1] == nodes[i + 1];
        DistinctAt(nodes, i, k - 1);
        DistinctAt(nodes, i, k);
      } else if i == k - 1 {
        assert nodes'[i] == before && nodes'[i + 1] == after;
      } else {
        assert nodes'[i] == nodes[i + 1] && nodes'[i + 1] == nodes[i + 2];
        DistinctAt(nodes, i + 1, k);
        if k > 0 { DistinctAt(nodes, i + 1, k - 1); }
      }
    }
  }

  lemma ErasePrev(fake: Addr, nodes: seq<Addr>, prev: map<Addr, Addr>, k: nat, before: Addr, after: Addr)
    requires PrevLinks(fake, nodes, prev) && fake !in nodes && Distinct(nodes) && k < |nodes|
    requires before == (if k == 0 then fake else nodes[k - 1])
    requires after == (if k == |nodes| - 1 then fake else nodes[k + 1])
    ensures PrevLinks(fake, nodes[..k] + nodes[k + 1..], prev[after := before] - {nodes[k]})
  {
    var nodes' := nodes[..k] + nodes[k + 1..];
    var prev' := prev[after := before] - {nodes[k]};
    EraseNodes(fake, nodes, k);
    forall i | 0 < i < |nodes'| ensures prev'[nodes'[i]] == nodes'[i - 1] {
      if i < k {
        assert nodes'[i] == nodes[i] && nodes'[i - 1] == nodes[i - 1];
        DistinctAt(nodes, i, k);
        if k < |nodes| - 1 { DistinctAt(nodes, i, k + 1); }
      } else if i == k {
        assert nodes'[i] == after && nodes'[i - 1] == before;
      } else {
        assert nodes'[i] == nodes[i + 1] && nodes'[i - 1] == nodes[i];
        DistinctAt(nodes, i + 1, k);
        if k < |nodes| - 1 { DistinctAt(nodes, i + 1, k + 1); }
      }
    }
  }

  lemma EraseValues<T>(fake: Addr, nodes: seq<Addr>, contents: seq<T>, value: map<Addr, T>, k: nat)
    requires Values(nodes, contents, value) && fake !in nodes && Distinct(nodes) && k < |nodes|
    ensures Values(nodes[..k] + nodes[k + 1..], contents[..k] + contents[k + 1..], value - {nodes[k]})
  {
    var nodes' := nodes[..k] + nodes[k + 1..];
    var contents' := contents[..k] + contents[k + 1..];
    EraseNodes(fake, nodes, k);
    forall i | 0 <= i < |nodes'| ensures (value - {nodes[k]})[nodes'[i]] == contents'[i] {
      if i < k {
        assert nodes'[i] == nodes[i];
        DistinctAt(nodes, i, k);
      } else {
        assert nodes'[i] == nodes[i + 1];
        DistinctAt(nodes, i + 1, k);
      }
    }
  }

  /** Unlinking the value node `pos` keeps the ring, with `pos`'s element taken out. */
  lemma EraseKeepsRing<T>(fake: Addr, nodes: seq<Addr>, contents: seq<T>,
                          next: map<Addr, Addr>, prev: map<Addr, Addr>, value: map<Addr, T>,
                          pos: Addr, k: nat, before: Addr, after: Addr,
                          nodes': seq<Addr>, contents': seq<T>,
                          next': map<Addr, Addr>, prev': map<Addr, Addr>, value': map<Addr, T>)
    requires Ring(fake, nodes, contents, next, prev, value)
    requires pos in nodes && k == IndexOf(nodes, pos) && before == prev[pos] && after == next[pos]
    requires nodes' == nodes[..k] + nodes[k + 1..] && contents' == contents[..k] + contents[k + 1..]
    requires next' == next[before := after] - {pos} && prev' == prev[after := before] - {pos} && value' == value - {pos}
    ensures Ring(fake, nodes', contents', next', prev', value')
    ensures RingNodes(fake, nodes') == RingNodes(fake, nodes) - {pos}
  {
    Neighbours(fake, nodes, contents, next, prev, value, pos);
    assert nodes[k] == pos;
    EraseNodes(fake, nodes, k);
    EraseNext(fake, nodes, next, k, before, after);
    ErasePrev(fake, nodes, prev, k, before, after);
    EraseValues(fake, nodes, contents, value, k);
  }

  class List<T> {
    /** The list's allocator rebound to nodes: `elemSize` is the node size. */
    const allocator: FastAllocator
    var fake: Addr
    var next: map<Addr, Addr>
    var prev: map<Addr, Addr>
    var value: map<Addr, T>
    var size: nat
    ghost var nodes: seq<Addr>
    ghost var contents: seq<T>

    /** Every node the list owns: the sentinel and the value nodes. */
    ghost function Owned(): set<Addr>
      reads this
    {
      RingNodes(fake, nodes)
    }

    /** The ring holds `nodes` and `contents`, and `size` counts the value nodes. */
    ghost predicate Linked()
      reads this
    {
      Ring(fake, nodes, contents, next, prev, value) && size == |nodes|
    }

    /** The route every node request takes: one node of `allocator.elemSize` bytes. */
    function NodeRoute(): Option<SizeClass> {
      Route(allocator.elemSize, 1)
    }

    /**
     * The ring is well formed and every node it owns is storage handed out,
     * and not yet handed back, by the source the node route names.
     */
    ghost predicate Valid()
      reads this, allocator.registry.Repr
    {
      Linked() && allocator.registry.Valid() && this !in allocator.registry.Repr &&
      Owned() <= allocator.registry.LiveOn(NodeRoute())
    }

    /** Storage for one node, from the source the node route names; it was not live before. */
    method NewNode() returns (node: Addr)
      requires allocator.registry.Valid()
      modifies allocator.registry.Repr
      ensures allocator.registry.Valid()
      ensures node !in old(allocator.registry.Live())
      ensures allocator.registry.Live() == old(allocator.registry.Live()) + {node}
      ensures allocator.registry.LiveOn(NodeRoute()) == old(allocator.registry.LiveOn(NodeRoute())) + {node}
      ensures NodeRoute().Some? ==>
        var pool := allocator.registry.Pool(NodeRoute().value);
        (pool.State(), node) == SP.Allocate(old(pool.State()))
      ensures forall c :: NodeRoute() != Some(c) ==>
        allocator.registry.Pool(c).State() == old(allocator.registry.Pool(c).State())
    {
      node := allocator.Allocate(1);
    }

    /** Gives the storage of one node back to the source the node route names. */
    method FreeNode(p: Addr)
      requires allocator.registry.Valid() && p in allocator.registry.LiveOn(NodeRoute())
      modifies allocator.registry.Repr
      ensures allocator.registry.Valid()
      ensures allocator.registry.Live() == old(allocator.registry.Live()) - {p}
      ensures allocator.registry.LiveOn(NodeRoute()) == old(allocator.registry.LiveOn(NodeRoute())) - {p}
      ensures NodeRoute().Some? ==>
        var pool := allocator.registry.Pool(NodeRoute().value);
        pool.State() == SP.Deallocate(old(pool.State()), p)
      ensures forall c :: NodeRoute() != Some(c) ==>
        allocator.registry.Pool(c).State() == old(allocator.registry.Pool(c).State())
    {
      allocator.registry.LiveOnOwner(NodeRoute(), p);
      allocator.Deallocate(p, 1);
    }

    /** Position of a node in the ring: its index in `nodes`, or `|nodes|` for the sentinel. */
    ghost function Position(pos: Addr): nat
      reads this
    {
      IndexOf(nodes, pos)
    }

    /**
     * Allocates a sentinel and links it to itself: the body of `List(alloc)`,
     * which every other constructor runs first and `operator=` repeats.
     */
    method Sentinel()
      requires allocator.registry.Valid() && this !in allocator.registry.Repr
      requires nodes == [] && contents == [] && size == 0
      modifies this`fake, this`next, this`prev, this`value, allocator.registry.Repr
      ensures Valid() && nodes == [] && contents == [] && Owned() == {fake}
      ensures next[fake] == fake && prev[fake] == fake
      ensures fake !in old(allocator.registry.Live())
      ensures allocator.registry.Live() == old(allocator.registry.Live()) + {fake}
      ensures NodeRoute().Some? ==>
        var pool := allocator.registry.Pool(NodeRoute().value);
        (pool.State(), fake) == SP.Allocate(old(pool.State()))
      ensures forall c :: NodeRoute() != Some(c) ==>
        allocator.registry.Pool(c).State() == old(allocator.registry.Pool(c).State())
    {
      var f := NewNode();
      fake, next, prev, value := f, map[f := f], map[f := f], map[];
      EmptyRing<T>(f);
    }

    /** `List(alloc)`: an empty list. */
    constructor (allocator: FastAllocator)
      requires allocator.registry.Valid()
      modifies allocator.registry.Repr
      ensures Valid() && this.allocator == allocator
      ensures nodes == [] && contents == [] && size == 0
      ensures next[fake] == fake && prev[fake] == fake
      ensures fake !in old(allocator.registry.Live())
      ensures allocator.registry.Live() == old(allocator.registry.Live()) + {fake}
      ensures NodeRoute().Some? ==>
        var pool := allocator.registry.Pool(NodeRoute().value);
        (pool.State(), fake) == SP.Allocate(old(pool.State()))
      ensures forall c :: NodeRoute() != Some(c) ==>
        allocator.registry.Pool(c).State() == old(allocator.registry.Pool(c).State())
    {
      this.allocator := allocator;
      size, nodes, contents := 0, [], [];
      new;
      Sentinel();
    }

    /** `size()`: the number of elements. */
    method Size() returns (n: nat)
      requires Linked()
      ensures n == |contents|
    {
      n := size;
    }

    /** `begin()`: the first value node, or the sentinel when the list is empty. */
    method Begin() returns (it: Addr)
      requires Linked()
      ensures nodes != [] ==> it == nodes[0]
      ensures nodes == [] ==> it == fake
      ensures Position(it) == 0
    {
      it := next[fake];
    }

    /** `end()`: always the sentinel. */
    method End() returns (it: Addr)
      ensures it == fake
    {
      it := fake;
    }

    /**
     * Splices the node `p`, holding `v`, in between `pos` and its predecessor.
     * Only the node fields change; `p` must not already be in the ring.
     */
    method Link(pos: Addr, p: Addr, v: T)
      requires Linked() && pos in Owned() && p !in Owned()
      modifies this`next, this`prev, this`value, this`size, this`nodes, this`contents
      ensures Linked() && Owned() == old(Owned()) + {p}
      ensures var k := old(Position(pos));
        nodes == old(nodes)[..k] + [p] + old(nodes)[k..] &&
        contents == old(contents)[..k] + [v] + old(contents)[k..]
    {
      ghost var k := Position(pos);
      var before := prev[pos];
      next, prev, value, size, nodes, contents :=
        next[p := pos][before := p], prev[p := before][pos := p], value[p := v], size + 1,
        nodes[..k] + [p] + nodes[k..], contents[..k] + [v] + contents[k..];
      InsertKeepsRing(fake, old(nodes), old(contents), old(next), old(prev), old(value), pos, p, v, k, before,
                      nodes, contents, next, prev, value);
    }

    /**
     * `insert(pos, v)`: allocates a node and links it, holding `v`, just before
     * `pos`: the new element lands at `pos`'s position, or last when `pos` is
     * the sentinel. The node's storage was not live before.
     */
    method Insert(pos: Addr, v: T) returns (ghost p: Addr)
      requires Valid() && pos in Owned()
      modifies this`next, this`prev, this`value, this`size, this`nodes, this`contents
      modifies allocator.registry.Repr
      ensures Valid() && fake == old(fake)
      ensures var k := old(Position(pos));
        nodes == old(nodes)[..k] + [p] + old(nodes)[k..] &&
        contents == old(contents)[..k] + [v] + old(contents)[k..]
      ensures Owned() == old(Owned()) + {p}
      ensures p !in old(allocator.registry.Live())
      ensures allocator.registry.Live() == old(allocator.registry.Live()) + {p}
      ensures NodeRoute().Some? ==>
        var pool := allocator.registry.Pool(NodeRoute().value);
        (pool.State(), p) == SP.Allocate(old(pool.State()))
      ensures forall c :: NodeRoute() != Some(c) ==>
        allocator.registry.Pool(c).State() == old(allocator.registry.Pool(c).State())
    {
      ghost var live0 := allocator.registry.LiveOn(NodeRoute());
      var node := NewNode();
      Link(pos, node, v);
      assert allocator.registry.LiveOn(NodeRoute()) == live0 + {node};
      p := node;
    }

    /**
     * Takes the value node `pos` out of the ring, joining its neighbours.
     * Only the node fields change.
     */
    method Unlink(pos: Addr)
      requires Linked() && pos in nodes
      modifies this`next, this`prev, this`value, this`size, this`nodes, this`contents
      ensures Linked() && Owned() == old(Owned()) - {pos}
      ensures var k := old(Position(pos));
        nodes == old(nodes)[..k] + old(nodes)[k + 1..] &&
        contents == old(contents)[..k] + old(contents)[k + 1..]
    {
      ghost var k := Position(pos);
      var before, after := prev[pos], next[pos];
      next, prev, value, size, nodes, contents :=
        next[before := after] - {pos}, prev[after := before] - {pos}, value - {pos}, size - 1,
        nodes[..k] + nodes[k + 1..], contents[..k] + contents[k + 1..];
      EraseKeepsRing(fake, old(nodes), old(contents), old(next), old(prev), old(value), pos, k, before, after,
                     nodes, contents, next, prev, value);
    }

    /**
     * `erase(pos)`: unlinks the value node `pos` and gives its storage back to
     * the allocator. The element at `pos`'s position is removed.
     */
    method Erase(pos: Addr)
      requires Valid() && pos in nodes
      modifies this`next, this`prev, this`value, this`size, this`nodes, this`contents
      modifies allocator.registry.Repr
      ensures Valid() && fake == old(fake)
      ensures var k := old(Position(pos));
        nodes == old(nodes)[..k] + old(nodes)[k + 1..] &&
        contents == old(contents)[..k] + old(contents)[k + 1..]
      ensures Owned() == old(Owned()) - {pos}
      ensures allocator.registry.Live() == old(allocator.registry.Live()) - {pos}
      ensures NodeRoute().Some? ==>
        var pool := allocator.registry.Pool(NodeRoute().value);
        pool.State() == SP.Deallocate(old(pool.State()), pos)
      ensures forall c :: NodeRoute() != Some(c) ==>
        allocator.registry.Pool(c).State() == old(allocator.registry.Pool(c).State())
    {
      ghost var live0 := allocator.registry.LiveOn(NodeRoute());
      Unlink(pos);
      assert allocator.registry.LiveOn(NodeRoute()) == live0;
      FreeNode(pos);
      assert allocator.registry.LiveOn(NodeRoute()) == live0 - {pos};
    }

    /** `push_back(v)`: `v` becomes the last element, in a node whose storage was not live. */
    method PushBack(v: T) returns (ghost p: Addr)
      requires Valid()
      modifies this`next, this`prev, this`value, this`size, this`nodes, this`contents
      modifies allocator.registry.Repr
      ensures Valid() && fake == old(fake)
      ensures nodes == old(nodes) + [p] && contents == old(contents) + [v]
      ensures Owned() == old(Owned()) + {p}
      ensures p !in old(allocator.registry.Live())
      ensures allocator.registry.Live() == old(allocator.registry.Live()) + {p}
      ensures NodeRoute().Some? ==>
        var pool := allocator.registry.Pool(NodeRoute().value);
        (pool.State(), p) == SP.Allocate(old(pool.State()))
      ensures forall c :: NodeRoute() != Some(c) ==>
        allocator.registry.Pool(c).State() == old(allocator.registry.Pool(c).State())
    {
      var e := End();
      assert Position(e) == |nodes|;
      ghost var n0, c0 := nodes, contents;
      p := Insert(e, v);
      SpliceAtEnds(n0, p);
      SpliceAtEnds(c0, v);
    }

    /** `push_front(v)`: `v` becomes the first element, in a node whose storage was not live. */
    method PushFront(v: T) returns (ghost p: Addr)
      requires Valid()
      modifies this`next, this`prev, this`value, this`size, this`nodes, this`contents
      modifies allocator.registry.Repr
      ensures Valid() && fake == old(fake)
      ensures nodes == [p] + old(nodes) && contents == [v] + old(contents)
      ensures Owned() == old(Owned()) + {p}
      ensures p !in old(allocator.registry.Live())
      ensures allocator.registry.Live() == old(allocator.registry.Live()) + {p}
      ensures NodeRoute().Some? ==>
        var pool := allocator.registry.Pool(NodeRoute().value);
        (pool.State(), p) == SP.Allocate(old(pool.State()))
      ensures forall c :: NodeRoute() != Some(c) ==>
        allocator.registry.Pool(c).State() == old(allocator.registry.Pool(c).State())
    {
      var b := Begin();
      ghost var n0, c0 := nodes, contents;
      p := Insert(b, v);
      SpliceAtEnds(n0, p);
      SpliceAtEnds(c0, v);
    }

    /** `pop_back()`: removes the last element and gives its node back. The list must not be empty. */
    method PopBack()
      requires Valid() && nodes != []
      modifies this`next, this`prev, this`value, this`size, this`nodes, this`contents
      modifies allocator.registry.Repr
      ensures Valid() && fake == old(fake)
      ensures nodes == old(nodes)[..|old(nodes)| - 1] && contents == old(contents)[..|old(contents)| - 1]
      ensures Owned() == old(Owned()) - {old(nodes)[|old(nodes)| - 1]}
      ensures allocator.registry.Live() == old(allocator.registry.Live()) - {old(nodes)[|old(nodes)| - 1]}
      ensures NodeRoute().Some? ==>
        var pool := allocator.registry.Pool(NodeRoute().value);
        pool.State() == SP.Deallocate(old(pool.State()), old(nodes)[|old(nodes)| - 1])
      ensures forall c :: NodeRoute() != Some(c) ==>
        allocator.registry.Pool(c).State() == old(allocator.registry.Pool(c).State())
    {
      var it := End();
      it := prev[it];
      assert it == nodes[|nodes| - 1] && Position(it) == |nodes| - 1;
      CutAtEnds(nodes);
      CutAtEnds(contents);
      Erase(it);
    }

    /** `pop_front()`: removes the first element and gives its node back. The list must not be empty. */
    method PopFront()
      requires Valid() && nodes != []
      modifies this`next, this`prev, this`value, this`size, this`nodes, this`contents
      modifies allocator.registry.Repr
      ensures Valid() && fake == old(fake)
      ensures nodes == old(nodes)[1..] && contents == old(contents)[1..]
      ensures Owned() == old(Owned()) - {old(nodes)[0]}
      ensures allocator.registry.Live() == old(allocator.registry.Live()) - {old(nodes)[0]}
      ensures NodeRoute().Some? ==>
        var pool := allocator.registry.Pool(NodeRoute().value);
        pool.State() == SP.Deallocate(old(pool.State()), old(nodes)[0])
      ensures forall c :: NodeRoute() != Some(c) ==>
        allocator.registry.Pool(c).State() == old(allocator.registry.Pool(c).State())
    {
      var it := Begin();
      assert it == nodes[0] && Position(it) == 0;
      CutAtEnds(nodes);
      CutAtEnds(contents);
      Erase(it);
    }

    /**
     * The loop of `destroy()`: erases the last element as many times as the
     * list has elements. The storage of every value node is handed back.
     */
    method EraseAll()
      requires Valid()
      modifies this`next, this`prev, this`value, this`size, this`nodes, this`contents
      modifies allocator.registry.Repr
      ensures Valid() && fake == old(fake)
      ensures nodes == [] && contents == []
      ensures allocator.registry.Live() == old(allocator.registry.Live()) - (old(Owned()) - {fake})
      ensures NodeRoute().Some? ==>
        var pool := allocator.registry.Pool(NodeRoute().value);
        pool.State() == SP.DeallocateAll(old(pool.State()), Reversed(old(nodes)))
      ensures forall c :: NodeRoute() != Some(c) ==>
        allocator.registry.Pool(c).State() == old(allocator.registry.Pool(c).State())
    {
      var count := size;
      var i := 0;
      ghost var ns, cs, live0, owned0 := nodes, contents, allocator.registry.Live(), Owned();
      ghost var s0: SP.PoolState := SP.Init(0);
      if NodeRoute().Some? {
        s0 := allocator.registry.Pool(NodeRoute().value).State();
      }
      StartErasing(s0);
      while i < count
        invariant 0 <= i <= count == |ns|
        invariant ErasedDownTo(ns, cs, count - i, live0, owned0, s0) && fake == old(fake)
        invariant forall c :: NodeRoute() != Some(c) ==>
          allocator.registry.Pool(c).State() == old(allocator.registry.Pool(c).State())
      {
        EraseLast(ns, cs, count - i, live0, owned0, s0);
        i := i + 1;
      }
      DoneErasing(ns, cs, live0, owned0, s0);
    }

    /**
     * Partway through `destroy()`: the list holds the first `k` of the nodes
     * `ns` and values `cs` it started with. The others have been handed back:
     * the registry's live storage is `live0` less them, and the node pool,
     * which stood at `s0` when destroying began, has taken them back last to
     * first.
     */
    ghost predicate ErasedDownTo(ns: seq<Addr>, cs: seq<T>, k: nat,
                                 live0: set<Addr>, owned0: set<Addr>, s0: SP.PoolState)
      reads this, allocator.registry.Repr
    {
      Valid() && k <= |ns| == |cs| && nodes == ns[..k] && contents == cs[..k] &&
      Owned() <= owned0 && allocator.registry.Live() == live0 - (owned0 - Owned()) &&
      (NodeRoute().Some? ==>
        allocator.registry.Pool(NodeRoute().value).State() == SP.DeallocateAll(s0, Reversed(ns[k..])))
    }

    /** Before the first round of the loop of `destroy()`, nothing has been handed back. */
    lemma StartErasing(s0: SP.PoolState)
      requires Valid()
      requires NodeRoute().Some? ==> allocator.registry.Pool(NodeRoute().value).State() == s0
      ensures ErasedDownTo(nodes, contents, |nodes|, allocator.registry.Live(), Owned(), s0)
    {
      assert nodes[|nodes|..] == [];
    }

    /**
     * After the last round of the loop of `destroy()`, the sentinel is all the
     * list owns: every value node it started with has been handed back.
     */
    lemma DoneErasing(ns: seq<Addr>, cs: seq<T>, live0: set<Addr>, owned0: set<Addr>, s0: SP.PoolState)
      requires ErasedDownTo(ns, cs, 0, live0, owned0, s0)
      ensures Valid() && nodes == [] && contents == []
      ensures allocator.registry.Live() == live0 - (owned0 - {fake})
      ensures NodeRoute().Some? ==>
        allocator.registry.Pool(NodeRoute().value).State() == SP.DeallocateAll(s0, Reversed(ns))
    {
      assert ns[0..] == ns;
      SentinelOnly(fake);
    }

    /**
     * One round of the loop of `destroy()`: erases the last element, which
     * hands back one more of the nodes the list started with.
     */
    method EraseLast(ghost ns: seq<Addr>, ghost cs: seq<T>, ghost k: nat,
                     ghost live0: set<Addr>, ghost owned0: set<Addr>, ghost s0: SP.PoolState)
      requires ErasedDownTo(ns, cs, k, live0, owned0, s0) && 0 < k
      modifies this`next, this`prev, this`value, this`size, this`nodes, this`contents
      modifies allocator.registry.Repr
      ensures ErasedDownTo(ns, cs, k - 1, live0, owned0, s0) && fake == old(fake)
      ensures forall c :: NodeRoute() != Some(c) ==>
        allocator.registry.Pool(c).State() == old(allocator.registry.Pool(c).State())
    {
      ghost var live, owned := allocator.registry.Live(), Owned();
      HandBackStep(s0, ns, k);
      ShorterPrefix(ns, k);
      ShorterPrefix(cs, k);
      PopBack();
      HandBackOne(live0, owned0, owned, live, ns[k - 1]);
    }

    /**
     * `destroy()`, which the destructor runs: erases every element, then gives
     * the sentinel back. Every node the list owned is handed back and nothing
     * else.
     */
    method Destroy()
      requires Valid()
      modifies this`next, this`prev, this`value, this`size, this`nodes, this`contents
      modifies allocator.registry.Repr
      ensures allocator.registry.Valid() && Linked() && fake == old(fake)
      ensures nodes == [] && contents == []
      ensures allocator.registry.Live() == old(allocator.registry.Live()) - old(Owned())
      ensures NodeRoute().Some? ==>
        var pool := allocator.registry.Pool(NodeRoute().value);
        pool.State() == SP.DeallocateAll(old(pool.State()), Reversed(old(nodes)) + [fake])
      ensures forall c :: NodeRoute() != Some(c) ==>
        allocator.registry.Pool(c).State() == old(allocator.registry.Pool(c).State())
    {
      EraseAll();
      ghost var live := allocator.registry.Live();
      FreeNode(fake);
      HandBackLast(old(allocator.registry.Live()), old(Owned()), live, fake);
    }

    /**
     * Walks from `begin()` to `end()` with `++`, reading every element with
     * `*`: the elements in order.
     */
    method Elements() returns (r: seq<T>)
      requires Linked()
      ensures r == contents
    {
      r := [];
      var it := next[fake];
      ghost var i := 0;
      while it != fake
        invariant 0 <= i <= |nodes|
        invariant it == (if i < |nodes| then nodes[i] else fake)
        invariant r == contents[..i]
        decreases |nodes| - i
      {
        r := r + [value[it]];
        it := next[it];
        i := i + 1;
      }
    }

    /**
     * Walks from `rbegin()` to `rend()`: a reverse iterator stands on `base`
     * and reads the element before it, and `++` moves `base` back along
     * `prev`. The elements come out last first.
     */
    method ReverseElements() returns (r: seq<T>)
      requires Linked()
      ensures |r| == |contents|
      ensures forall j :: 0 <= j < |r| ==> r[j] == contents[|contents| - 1 - j]
    {
      r := [];
      var base := fake;
      ghost var i := 0;
      while base != next[fake]
        invariant 0 <= i <= |nodes|
        invariant base == (if i == 0 then fake else nodes[|nodes| - i])
        invariant base == next[fake] ==> i == |nodes|
        invariant |r| == i
        invariant forall j :: 0 <= j < i ==> r[j] == contents[|contents| - 1 - j]
        decreases |nodes| - i
      {
        base := prev[base];
        r := r + [value[base]];
        i := i + 1;
        if |nodes| - i != 0 {
          DistinctAt(nodes, |nodes| - i, 0);
        }
      }
    }

    /** A list is never one of the allocator's pools or its fallback. */
    lemma ApartFromRegistry(other: List<T>)
      requires allocator.registry.Valid()
      ensures other !in allocator.registry.Repr
    {
    }

    /**
     * One round of `AppendAll`: pushes `v` at the back, keeping the account of
     * the nodes added since the list owned `owned0` and `live0` was live.
     */
    method PushFresh(v: T, ghost live0: set<Addr>, ghost owned0: set<Addr>)
      requires Valid() && owned0 <= Owned()
      requires live0 !! Owned() - owned0 && allocator.registry.Live() == live0 + (Owned() - owned0)
      modifies this`next, this`prev, this`value, this`size, this`nodes, this`contents
      modifies allocator.registry.Repr
      ensures Valid() && fake == old(fake)
      ensures contents == old(contents) + [v]
      ensures owned0 <= Owned()
      ensures live0 !! Owned() - owned0 && allocator.registry.Live() == live0 + (Owned() - owned0)
      ensures forall c :: NodeRoute() != Some(c) ==>
        allocator.registry.Pool(c).State() == old(allocator.registry.Pool(c).State())
    {
      ghost var live, owned := allocator.registry.Live(), Owned();
      allocator.registry.LiveOnInLive(NodeRoute());
      ghost var p := PushBack(v);
      TakeOne(live0, owned0, owned, live, p);
    }

    /**
     * The loop shared by the copy constructor and `operator=`: walks `other`
     * from `begin()` to `end()` and pushes every element at the back. `other`
     * is only read; every node added comes from storage that was not live.
     */
    method AppendAll(other: List<T>)
      requires Valid() && other.Linked() && other != this
      modifies this`next, this`prev, this`value, this`size, this`nodes, this`contents
      modifies allocator.registry.Repr
      ensures Valid() && fake == old(fake)
      ensures contents == old(contents) + other.contents
      ensures old(Owned()) <= Owned()
      ensures old(allocator.registry.Live()) !! Owned() - old(Owned())
      ensures allocator.registry.Live() == old(allocator.registry.Live()) + (Owned() - old(Owned()))
      ensures forall c :: NodeRoute() != Some(c) ==>
        allocator.registry.Pool(c).State() == old(allocator.registry.Pool(c).State())
    {
      ghost var live0, owned0, contents0 := allocator.registry.Live(), Owned(), contents;
      ghost var ofake, onodes, ocontents := other.fake, other.nodes, other.contents;
      ghost var onext, ovalue := other.next, other.value;
      assert ofake !in onodes && NextLinks(ofake, onodes, onext) && Values(onodes, ocontents, ovalue);
      var it := other.next[other.fake];
      ghost var i := 0;
      ApartFromRegistry(other);
      while it != other.fake
        invariant other !in allocator.registry.Repr
        invariant other.fake == ofake && other.next == onext && other.value == ovalue && other.contents == ocontents
        invariant 0 <= i <= |onodes|
        invariant it == (if i < |onodes| then onodes[i] else ofake)
        invariant Valid() && fake == old(fake)
        invariant contents == contents0 + ocontents[..i]
        invariant owned0 <= Owned()
        invariant live0 !! Owned() - owned0 && allocator.registry.Live() == live0 + (Owned() - owned0)
        invariant forall c :: NodeRoute() != Some(c) ==>
          allocator.registry.Pool(c).State() == old(allocator.registry.Pool(c).State())
        decreases |onodes| - i
      {
        Successor(ofake, onodes, onext, i);
        ValueAt(onodes, ocontents, ovalue, i);
        var v, succ := other.value[it], other.next[it];
        PushFresh(v, live0, owned0);
        LongerPrefix(contents0, ocontents, i);
        it := succ;
        i := i + 1;
      }
      assert ocontents[..i] == ocontents;
    }

    /**
     * `operator=`: unless `other` is this very list, destroys the list, sets
     * up a new sentinel and copies `other`'s elements in order. The allocator
     * stays, as the allocator does not propagate on copy assignment. The
     * addresses live apart from the list's are as before.
     */
    method Assign(other: List<T>)
      requires Valid() && other.Linked()
      modifies this`fake, this`next, this`prev, this`value, this`size, this`nodes, this`contents
      modifies allocator.registry.Repr
      ensures Valid() && contents == old(other.contents)
      ensures other == this ==> unchanged(this) && unchanged(allocator.registry.Repr)
      ensures (old(allocator.registry.Live()) - old(Owned())) !! Owned()
      ensures allocator.registry.Live() == (old(allocator.registry.Live()) - old(Owned())) + Owned()
      ensures forall c :: NodeRoute() != Some(c) ==>
        allocator.registry.Pool(c).State() == old(allocator.registry.Pool(c).State())
    {
      if other == this {
        allocator.registry.LiveOnInLive(NodeRoute());
        return;
      }
      ApartFromRegistry(other);
      Destroy();
      ghost var live1 := allocator.registry.Live();
      Sentinel();
      AppendAll(other);
      TakeAll(live1, fake, Owned(), allocator.registry.Live());
    }

    /**
     * The copy constructor: a list on a copy of `other`'s allocator (which
     * shares its pools) holding `other`'s elements in order. None of its
     * nodes was live before.
     */
    constructor Copy(other: List<T>)
      requires other.Valid()
      modifies other.allocator.registry.Repr
      ensures Valid() && allocator == other.allocator && contents == other.contents
      ensures old(other.allocator.registry.Live()) !! Owned()
      ensures allocator.registry.Live() == old(other.allocator.registry.Live()) + Owned()
      ensures forall c :: NodeRoute() != Some(c) ==>
        allocator.registry.Pool(c).State() == old(other.allocator.registry.Pool(c).State())
    {
      allocator := other.allocator;
      size, nodes, contents := 0, [], [];
      new;
      ApartFromRegistry(other);
      ghost var live0 := allocator.registry.Live();
      Sentinel();
      AppendAll(other);
      AppendToEmpty(other.contents);
      TakeAll(live0, fake, Owned(), allocator.registry.Live());
    }

    /**
     * `List(count, v, alloc)`: `count` copies of `v`, pushed at the back one
     * by one. None of its nodes was live before.
     */
    constructor Fill(count: nat, v: T, allocator: FastAllocator)
      requires allocator.registry.Valid()
      modifies allocator.registry.Repr
      ensures Valid() && this.allocator == allocator
      ensures contents == Copies(count, v)
      ensures old(allocator.registry.Live()) !! Owned()
      ensures allocator.registry.Live() == old(allocator.registry.Live()) + Owned()
      ensures forall c :: NodeRoute() != Some(c) ==>
        allocator.registry.Pool(c).State() == old(allocator.registry.Pool(c).State())
    {
      this.allocator := allocator;
      size, nodes, contents := 0, [], [];
      new;
      ghost var live0 := allocator.registry.Live();
      Sentinel();
      AppendCopies(count, v);
      TakeAll(live0, fake, Owned(), allocator.registry.Live());
    }

    /**
     * The loop of `List(count, v, alloc)`: pushes `count` copies of `v` at the
     * back of an empty list. Every node added comes from storage that was not
     * live.
     */
    method AppendCopies(count: nat, v: T)
      requires Valid() && contents == []
      modifies this`next, this`prev, this`value, this`size, this`nodes, this`contents
      modifies allocator.registry.Repr
      ensures Valid() && fake == old(fake)
      ensures contents == Copies(count, v)
      ensures old(Owned()) <= Owned()
      ensures old(allocator.registry.Live()) !! Owned() - old(Owned())
      ensures allocator.registry.Live() == old(allocator.registry.Live()) + (Owned() - old(Owned()))
      ensures forall c :: NodeRoute() != Some(c) ==>
        allocator.registry.Pool(c).State() == old(allocator.registry.Pool(c).State())
    {
      ghost var live0, owned0 := allocator.registry.Live(), Owned();
      var i := 0;
      while i < count
        invariant 0 <= i <= count
        invariant Valid() && fake == old(fake) && contents == Copies(i, v)
        invariant owned0 <= Owned()
        invariant live0 !! Owned() - owned0 && allocator.registry.Live() == live0 + (Owned() - owned0)
        invariant forall c :: NodeRoute() != Some(c) ==>
          allocator.registry.Pool(c).State() == old(allocator.registry.Pool(c).State())
      {
        PushFresh(v, live0, owned0);
        i := i + 1;
      }
    }

    /**
     * The node fields while `List(count, alloc)` builds the list: `last` is
     * the last node hung so far (the sentinel at first). It has no successor
     * yet and the sentinel no predecessor; closing the two gives the ring.
     */
    ghost predicate ChainLinked(last: Addr)
      reads this
    {
      last == (if nodes == [] then fake else nodes[|nodes| - 1]) &&
      Ring(fake, nodes, contents, next[last := fake], prev[fake := last], value) &&
      size == |nodes|
    }

    /** `ChainLinked`, with every node owned being live in the source of the node route. */
    ghost predicate Chained(last: Addr)
      reads this, allocator.registry.Repr
    {
      ChainLinked(last) &&
      allocator.registry.Valid() && this !in allocator.registry.Repr &&
      Owned() <= allocator.registry.LiveOn(NodeRoute())
    }

    /** Gives `node`, holding `v`, `last` as predecessor and makes it `last`'s successor. */
    method Hang(last: Addr, node: Addr, v: T)
      requires ChainLinked(last) && node !in Owned()
      modifies this`next, this`prev, this`value, this`size, this`nodes, this`contents
      ensures ChainLinked(node)
      ensures nodes == old(nodes) + [node] && contents == old(contents) + [v]
      ensures Owned() == old(Owned()) + {node}
    {
      next, prev, value, size, nodes, contents :=
        next[last := node], prev[node := last], value[node := v], size + 1, nodes + [node], contents + [v];
      ChainKeepsRing(fake, old(nodes), old(contents), old(next), old(prev), old(value), last, node, v,
                     nodes, contents, next, prev, value);
    }

    /** Closes the chain: `last` and the sentinel become each other's neighbours. */
    method Close(last: Addr)
      requires Chained(last)
      modifies this`next, this`prev
      ensures Valid() && nodes == old(nodes) && fake == old(fake)
    {
      next, prev := next[last := fake], prev[fake := last];
    }

    /**
     * One round of the loop of `List(count, alloc)`: allocates a node and
     * hangs it, holding `v`, after `last`.
     */
    method HangAfter(last: Addr, v: T) returns (node: Addr)
      requires Chained(last)
      modifies this`next, this`prev, this`value, this`size, this`nodes, this`contents
      modifies allocator.registry.Repr
      ensures Chained(node) && fake == old(fake)
      ensures nodes == old(nodes) + [node] && contents == old(contents) + [v]
      ensures Owned() == old(Owned()) + {node}
      ensures node !in old(allocator.registry.Live())
      ensures allocator.registry.Live() == old(allocator.registry.Live()) + {node}
      ensures NodeRoute().Some? ==>
        var pool := allocator.registry.Pool(NodeRoute().value);
        (pool.State(), node) == SP.Allocate(old(pool.State()))
      ensures forall c :: NodeRoute() != Some(c) ==>
        allocator.registry.Pool(c).State() == old(allocator.registry.Pool(c).State())
    {
      ghost var live0 := allocator.registry.LiveOn(NodeRoute());
      allocator.registry.LiveOnInLive(NodeRoute());
      node := NewNode();
      Hang(last, node, v);
      assert allocator.registry.LiveOn(NodeRoute()) == live0 + {node};
    }

    /** One round of `Chain`, keeping the account of what has become live since `live0`. */
    method Step(last: Addr, v: T, ghost live0: set<Addr>) returns (node: Addr)
      requires Chained(last) && fake in Owned()
      requires live0 !! Owned() - {fake} && allocator.registry.Live() == live0 + (Owned() - {fake})
      modifies this`next, this`prev, this`value, this`size, this`nodes, this`contents
      modifies allocator.registry.Repr
      ensures Chained(node) && fake == old(fake)
      ensures contents == old(contents) + [v]
      ensures live0 !! Owned() - {fake} && allocator.registry.Live() == live0 + (Owned() - {fake})
      ensures forall c :: NodeRoute() != Some(c) ==>
        allocator.registry.Pool(c).State() == old(allocator.registry.Pool(c).State())
    {
      ghost var live, owned := allocator.registry.Live(), Owned();
      allocator.registry.LiveOnInLive(NodeRoute());
      node := HangAfter(last, v);
      TakeOne(live0, {fake}, owned, live, node);
    }

    /**
     * The loop of `List(count, alloc)`: hangs `count` new nodes holding `def`
     * one after the other behind the sentinel of an empty list, then links
     * the last one and the sentinel to each other.
     */
    method Chain(count: nat, def: T)
      requires Valid() && nodes == []
      modifies this`next, this`prev, this`value, this`size, this`nodes, this`contents
      modifies allocator.registry.Repr
      ensures Valid() && fake == old(fake)
      ensures contents == Copies(count, def)
      ensures old(allocator.registry.Live()) !! Owned() - {fake}
      ensures allocator.registry.Live() == old(allocator.registry.Live()) + (Owned() - {fake})
      ensures forall c :: NodeRoute() != Some(c) ==>
        allocator.registry.Pool(c).State() == old(allocator.registry.Pool(c).State())
    {
      ghost var live0 := allocator.registry.Live();
      var last := fake;
      var i := 0;
      while i < count
        invariant 0 <= i <= count && contents == Copies(i, def)
        invariant Chained(last) && fake == old(fake)
        invariant live0 !! Owned() - {fake}
        invariant allocator.registry.Live() == live0 + (Owned() - {fake})
        invariant forall c :: NodeRoute() != Some(c) ==>
          allocator.registry.Pool(c).State() == old(allocator.registry.Pool(c).State())
      {
        last := Step(last, def, live0);
        i := i + 1;
      }
      Close(last);
    }

    /**
     * `List(count, alloc)`: an empty list extended by `Chain` with `count`
     * nodes holding the default value `def`. None of its nodes was live before.
     */
    constructor Sized(count: nat, def: T, allocator: FastAllocator)
      requires allocator.registry.Valid()
      modifies allocator.registry.Repr
      ensures Valid() && this.allocator == allocator
      ensures contents == Copies(count, def)
      ensures old(allocator.registry.Live()) !! Owned()
      ensures allocator.registry.Live() == old(allocator.registry.Live()) + Owned()
      ensures forall c :: NodeRoute() != Some(c) ==>
        allocator.registry.Pool(c).State() == old(allocator.registry.Pool(c).State())
    {
      this.allocator := allocator;
      size, nodes, contents := 0, [], [];
      new;
      ghost var live0 := allocator.registry.Live();
      Sentinel();
      Chain(count, def);
      TakeAll(live0, fake, Owned(), allocator.registry.Live());
    }
  }
}
