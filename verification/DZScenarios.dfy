/** Runs of several operations of the shared memory manager (zero_Memory_org.c). */
module DZScenarios {
  import opened DZChains
  import opened DZLaws
  import opened DZRefs
  import opened DZRevoke
  import opened DZSplices
  import opened MemoryManager

  /** The chain of a node is unique, and so is the position. */
  lemma ChainIs(s: Shape, c: seq<nat>, k: nat, d: seq<nat>, i: nat)
    requires Structure(s) && c in s.chains && d in s.chains && k < |c| && i < |d| && c[k] == d[i]
    ensures d == c && i == k
  {
    assert c[k] in c && c[k] in d;
    assert ChainOk(s.p, c);
  }

  /** A piece in use is in no other chain than the one it was found in, and none of the first free nodes
      is one of its neighbours. */
  lemma PieceApart(s: Shape, c: seq<nat>, k: nat)
    requires Structure(s) && c in s.chains && k < |c| && |s.free| >= 5
    ensures c[k] < |s.p| && AllApart(s.p, c[k], s.free[..5])
    ensures s.p[c[k]].valid != 0 ==> s.p[c[k]].valid == 1
  {
    hide Structure, Live, Dead, Held;
    StructureParts(s);
    hide FreeOk, Partition, BlocksOk;
    FreshNodes(s, c, 5);
    assert ChainOk(s.p, c) && NodeOk(s.p, c, k);
    FreeIsValid2(s, c[k]);
    Liveness(s.p, c, k);
    forall i | 0 <= i < |c|
      ensures c[i] < |s.p| && c[i] !in s.free[..5]
    {
      assert NodeOk(s.p, c, i) && c[i] in c;
    }
  }

  /** The first of the new proxies. */
  lemma FirstProxy(p: seq<DZ>, proxies: map<nat, MemoryProxy>, next: nat, proxies': map<nat, MemoryProxy>, next': nat,
                   objs: seq<MemoryProxy>)
    requires NewProxies(p, proxies, next, proxies', next', objs) && objs != []
    ensures next in proxies' && proxies'[next] == objs[0] == ProxyOf(p, objs[0].dz)
  {
    LaterProxies(proxies[next := objs[0]], next + 1, objs[1..], next);
  }

  lemma {:induction false} LaterProxies(proxies: map<nat, MemoryProxy>, next: nat, objs: seq<MemoryProxy>, i: nat)
    requires i < next && i in proxies
    ensures i in Added(proxies, next, objs) && Added(proxies, next, objs)[i] == proxies[i]
    decreases |objs|
  {
    if objs != [] {
      LaterProxies(proxies[next := objs[0]], next + 1, objs[1..], i);
    }
  }

  /** The first piece of a split leads to the second, over a boundary of the caller. */
  lemma SplitNodes(p: seq<DZ>, p': seq<DZ>, x: nat, offset: int, len: int, domain: int, y0: nat, y1: nat, y2: nat)
    requires Split3Pieces(p, p', x, offset, len, domain, y0, y1, y2)
    ensures y0 < |p'| && p'[y0].valid == 1 && p'[y0].nextOwner == domain && p'[y0].next == y1
    ensures y1 < |p'| && p'[y1].nextOwner == domain && p'[y1].next == y2
  {
    hide NeighboursLinked;
  }

  lemma JoinedNode(p: seq<DZ>, p': seq<DZ>, x1: nat, x2: nat, y: nat)
    requires JoinPieces(p, p', x1, x2, y)
    ensures y < |p'| == |p| && x2 < |p| && p'[y].valid == 1 && p'[y].nextOwner == p[x2].nextOwner &&
            p'[y].next == p[x2].next
  {
    hide NeighboursLinked;
  }

  /** The chains after a split and two joins: those in between are gone. */
  lemma ChainsAfter(s: Shape, c: seq<nat>, k: nat, c1: seq<nat>, c2: seq<nat>, y0: nat, y1: nat, z: nat,
                    last: set<seq<nat>>)
    requires Structure(s) && c in s.chains && k < |c| && y0 in s.free && z in s.free && z != y0 && z != y1
    requires |c1| >= 3 && y0 in c1 && z in c2
    ensures s.chains - {c} + {c1, [c[k]]} - {c1} + {c2, [y0, y1]} - {c2} + last ==
            s.chains - {c} + {[c[k]], [y0, y1]} + last
  {
    StructureParts(s);
    hide Structure, FreeOk, BlocksOk;
    assert c1 !in s.chains && c2 !in s.chains;
    assert c[k] in c && c[k] != z;
    assert z !in [c[k]] && z !in [y0, y1];
  }

  /** The chain after a split in three of its piece at k, and after a join of the first two pieces. */
  function SplitChain(c: seq<nat>, k: nat, y0: nat, y1: nat, y2: nat): seq<nat>
    requires k < |c|
  {
    c[..k] + [y0, y1, y2] + c[k + 1..]
  }

  /** The state after a split in three and two joins. */
  lemma Undone(s: Shape, p1: seq<DZ>, p2: seq<DZ>, p3: seq<DZ>, c: seq<nat>, k: nat, offset: int, len: int, domain: int,
               y0: nat, y1: nat, y2: nat, z: nat, w: nat, chains1: set<seq<nat>>, chains2: set<seq<nat>>,
                 chains3: set<seq<nat>>)
    requires Structure(s) && c in s.chains && k < |c| && |s.free| >= 5 && s.free[..5] == [y0, y1, y2, z, w]
    requires c[k] < |s.p| && s.p[c[k]].valid != 0
    requires Split3Pieces(s.p, p1, c[k], offset, len, domain, y0, y1, y2) && JoinPieces(p1, p2, y0, y1, z) &&
             JoinPieces(p2, p3, z, y2, w)
    requires var c1 := SplitChain(c, k, y0, y1, y2); var c2 := c1[..k] + [z] + c1[k + 2..];
             chains1 == s.chains - {c} + {c1, [c[k]]} && chains2 == chains1 - {c1} + {c2, c1[k..k + 2]} &&
             chains3 == chains2 - {c2} + {c2[..k] + [w] + c2[k + 2..], c2[k..k + 2]}
    ensures w < |p3| == |s.p| && p3[w] == s.p[c[k]].(refcount := 1)
    ensures NeighboursLinked(s.p, p3, {c[k], y0, y1, y2, z, w}, s.p[c[k]].prev, w, s.p[c[k]].next, w)
    ensures chains3 == s.chains - {c} + {c[k := w], [c[k]], [y0, y1], [z, y2]}
  {
    hide Structure, NeighboursLinked, Split3Pieces, JoinPieces;
    var ys, c1 := [y0, y1, y2, z, w], SplitChain(c, k, y0, y1, y2);
    PieceApart(s, c, k);
    assert AllApart(s.p, c[k], ys);
    assert ys[0] == y0 && ys[1] == y1 && ys[3] == z && s.free[0] == ys[0] && s.free[3] == ys[3];
    SplitJoinJoinRestores(s.p, p1, p2, p3, c[k], offset, len, domain, y0, y1, y2, z, w);
    SplitJoinJoinPosition(c, k, y0, y1, y2, z, w);
    var c2 := c1[..k] + [z] + c1[k + 2..];
    assert c1[k..k + 2] == [y0, y1] && c2[k..k + 2] == [z, y2];
    assert c1[k] == y0 && c2[k] == z;
    ChainsAfter(s, c, k, c1, c2, y0, y1, z, {c[k := w], [z, y2]});
  }

  /** memory_split3 and two calls of memory_joinNext: one piece stands where self stood, with its range,
      its neighbours and its outer owners; what the operations used up in between is dead. */
  method SplitJoinJoin(m: Manager, self: MemoryProxy, offset: int, len: int, domain: int, ghost id: nat)
    returns (newMem: MemoryProxy, ghost c: seq<nat>, ghost k: nat)
    requires m.Valid() && m.IsProxy(id, self) && |m.spare| >= 5
    requires self.dz < m.pool.Length && m.pool[self.dz].valid != 0
    requires 0 <= offset && 0 <= len && offset + len <= m.pool[self.dz].size
    modifies m, m.pool
    ensures m.Valid() && m.Bk() == old(m.Bk())
    ensures c in old(m.chains) && k < |c| && c[k] == self.dz && newMem.dz == old(m.spare)[4] < m.pool.Length
    ensures m.pool[newMem.dz] == old(m.pool[self.dz]).(refcount := 1)
    ensures newMem == ProxyOf(m.pool[..], newMem.dz)
    ensures var ys, w := old(m.spare), newMem.dz;
            m.chains == old(m.chains) - {c} + {c[k := w], [self.dz], [ys[0], ys[1]], [ys[3], ys[2]]} &&
            NeighboursLinked(old(m.pool[..]), m.pool[..], {self.dz, ys[0], ys[1], ys[2], ys[3], w},
                             old(m.pool[self.dz]).prev, w, old(m.pool[self.dz]).next, w)
  {
    hide Structure, Owing, Balanced, NeighboursLinked, Split3Pieces, JoinPieces, AllApart, NewProxies;
    ghost var s0, i0 := m.Sh(), m.nextProxy;
    var out, mem0, mem1, mem2;
    out, mem0, mem1, mem2, c, k := m.Split3(self, offset, len, 3, domain, id);
    ghost var s1, q, i1, c1 := m.Sh(), m.proxies, m.nextProxy, SplitChain(c, k, mem0.dz, mem1.dz, mem2.dz);
    FirstProxy(s1.p, old(m.proxies), i0, q, i1, [mem0, mem1, mem2]);
    SplitNodes(s0.p, s1.p, self.dz, offset, len, domain, mem0.dz, mem1.dz, mem2.dz);
    var joined;
    ghost var d, i;
    out, joined, d, i := m.JoinNext(mem0, domain, i0);
    ChainIs(s1, c1, k, d, i);
    ghost var s2, i2, c2 := m.Sh(), m.nextProxy, c1[..k] + [joined.dz] + c1[k + 2..];
    FirstProxy(s2.p, q, i1, m.proxies, i2, [joined]);
    JoinedNode(s1.p, s2.p, mem0.dz, mem1.dz, joined.dz);
    q := m.proxies;
    out, newMem, d, i := m.JoinNext(joined, domain, i1);
    ChainIs(s2, c2, k, d, i);
    FirstProxy(m.pool[..], q, i2, m.proxies, m.nextProxy, [newMem]);
    assert s0.free[..5] == [mem0.dz, mem1.dz, mem2.dz, joined.dz, newMem.dz];
    Undone(s0, s1.p, s2.p, m.pool[..], c, k, offset, len, domain, mem0.dz, mem1.dz, mem2.dz, joined.dz, newMem.dz,
           s1.chains, s2.chains, m.chains);
  }

  // ----- create, split, revoke ---------------------------------------------------------------------------

  /** The manager after createMemoryInstance and memory_split2: a chain of two pieces whose boundary
      belongs to owner. */
  method CreateAndSplit(m: Manager, d: int, size: int, offset: int, owner: int)
    returns (mem0: MemoryProxy, mem1: MemoryProxy, ghost id: nat)
    requires m.Valid() && |m.spare| >= 3 && d > 0 && 0 <= offset <= size
    requires Block(d, size) !in m.blocks && forall b :: b in m.blocks ==> Apart(Block(d, size), b)
    modifies m, m.pool
    ensures m.Valid() && m.IsProxy(id, mem0) && m.spare == old(m.spare)[3..] && [mem0.dz, mem1.dz] in m.chains
    ensures mem0.dz < m.pool.Length && m.pool[mem0.dz].valid == 1 && m.pool[mem0.dz].nextOwner == owner
  {
    hide Structure, Owing, Balanced, Split2Pieces, NewProxies, Apart;
    ghost var i0 := m.nextProxy;
    var whole := m.CreateMemory(d, size, 1);
    ghost var s1, q, i1 := m.Sh(), m.proxies, m.nextProxy;
    var out;
    ghost var c, k;
    out, mem0, mem1, c, k := m.Split2(whole, offset, 2, owner, i0);
    ChainIs(s1, [whole.dz], 0, c, k);
    assert c[..k] + [mem0.dz, mem1.dz] + c[k + 1..] == [mem0.dz, mem1.dz];
    FirstProxy(m.pool[..], q, i1, m.proxies, m.nextProxy, [mem0, mem1]);
    FirstHalf(s1.p, m.pool[..], whole.dz, offset, owner, mem0.dz, mem1.dz);
    id := i1;
  }

  lemma FirstHalf(p: seq<DZ>, p': seq<DZ>, x: nat, offset: int, domain: int, y0: nat, y1: nat)
    requires Split2Pieces(p, p', x, offset, domain, y0, y1)
    ensures y0 < |p'| && p'[y0].valid == 1 && p'[y0].nextOwner == domain
  {
    hide NeighboursLinked;
  }

  /** A chain of two pieces, revoked by cdom.  If cdom owns the boundary, a piece is left with a count that
      no proxy accounts for; if it does not, the pool has lost its structure, whatever the unset
      dzmCurNew held. */
  method SplitAndRevoke(m: Manager, d: int, size: int, offset: int, owner: int, cdom: int, junk: int)
    requires m.Valid() && |m.spare| >= 5 && d > 0 && 0 <= offset <= size
    requires Block(d, size) !in m.blocks && forall b :: b in m.blocks ==> Apart(Block(d, size), b)
    modifies m, m.pool
    ensures owner == cdom ==> m.Valid() && exists y: nat :: Unaccounted(m.pool[..], m.proxies, y)
    ensures owner != cdom ==> !Sound(m.pool[..])
  {
    hide Structure, Owing, Balanced, Apart, Sound, Owned, Renewal, NewProxies, FreeOk, Partition, BlocksOk;
    var mem0, mem1;
    ghost var id;
    mem0, mem1, id := CreateAndSplit(m, d, size, offset, owner);
    ghost var s, pair := m.Sh(), [mem0.dz, mem1.dz];
    forall e | e in m.chains && mem0.dz in e
      ensures |e| <= |m.spare|
    {
      var i := Position(e, mem0.dz);
      ChainIs(s, pair, 0, e, i);
    }
    var out, newMem;
    ghost var c, k;
    out, newMem, c, k := m.Revoke(mem0, cdom, junk, id);
    ChainIs(s, pair, 0, c, k);
    PairOwned(s.p, pair, cdom);
    if owner == cdom {
      StructureParts(s);
      SecondUnaccounted(s, m.Sh(), pair, cdom, newMem.dz, m.proxies, m.nextProxy, s.free, m.pinned);
    }
  }

  /** A valid piece whose count is not the number of its proxies. */
  ghost predicate Unaccounted(p: seq<DZ>, proxies: map<nat, MemoryProxy>, y: nat) {
    y < |p| && p[y].valid == 1 && p[y].refcount != Refs(proxies, y)
  }

  lemma PairOwned(p: seq<DZ>, c: seq<nat>, d: int)
    requires |c| == 2 && c[0] < |p|
    ensures Owned(p, c, d) <==> p[c[0]].nextOwner == d
  {
  }

  lemma SecondUnaccounted(s: Shape, t: Shape, c: seq<nat>, d: int, y: nat, proxies: map<nat, MemoryProxy>, next: nat,
                          free: seq<nat>, pinned: set<nat>)
    requires |c| == 2 && free == s.free && Renewal(s, t, c, 0, d, y) && Owing(t.p, proxies, next, pinned, {}) &&
             Distinct(free)
    requires forall z :: z in (set x | x in Duplicates(free, 0, |c|)) - {y} ==> z in pinned
    ensures exists z: nat :: Unaccounted(t.p, proxies, z)
  {
    var ys := Duplicates(free, 0, |c|);
    assert Renewed(s.p, t.p, c, ys, d, 1);
    assert ys[0] == free[0] && ys[1] == free[1] && ys[1] in ys;
    assert Unaccounted(t.p, proxies, ys[1]);
  }
}
