/** What the walks over the old heap find after the copying: the dead memory proxies and portals
  (gc_new.c, gc_common.c). */
module Finalization {
  import opened HeapLayout
  import opened HeapGraph
  import opened ScanInvariant

  /** A call of memory_deleted: the dead proxy and the DZMemoryProxy it pointed at. */
  datatype MemoryDeleted = MemoryDeleted(proxy: nat, dz: int)

  /** A call of service_decRefcount for a dead portal. */
  datatype ServiceDecrement = ServiceDecrement(proxy: nat, domain: int, index: int)

  /** The dead memory proxies among starts, in address order. */
  ghost function DeadProxies(b: Before, starts: seq<nat>, fwd: map<nat, nat>): seq<MemoryDeleted> {
    if starts == [] then []
    else
      var p := starts[|starts| - 1];
      DeadProxies(b, starts[..|starts| - 1], fwd) +
      if At(b.m, p) == OBJFLAGS_MEMORY && p !in fwd then [MemoryDeleted(p, Field(b.m, p, MEMORY_DZ))] else []
  }

  /** A portal whose target domain is live under the recorded id and is not the portal's own. */
  ghost predicate ForeignTarget(m: seq<int>, p: nat, self: int, domainIds: map<int, int>) {
    var target := Field(m, p, 2);
    target != 0 && target in domainIds && domainIds[target] == Field(m, p, 3) && target != self
  }

  ghost function DeadPortals(b: Before, starts: seq<nat>, fwd: map<nat, nat>, self: int,
                             domainIds: map<int, int>): seq<ServiceDecrement> {
    if starts == [] then []
    else
      var p := starts[|starts| - 1];
      DeadPortals(b, starts[..|starts| - 1], fwd, self, domainIds) + DeadPortal(b, p, fwd, self, domainIds)
  }

  /** What the portal finalizer does for the object at p. */
  ghost function DeadPortal(b: Before, p: nat, fwd: map<nat, nat>, self: int,
                            domainIds: map<int, int>): seq<ServiceDecrement> {
    if At(b.m, p) == OBJFLAGS_PORTAL && p !in fwd && ForeignTarget(b.m, p, self, domainIds)
    then [ServiceDecrement(p, Field(b.m, p, 2), Field(b.m, p, 4))] else []
  }

  lemma NoDeadPortals(b: Before, fwd: map<nat, nat>, self: int, domainIds: map<int, int>)
    ensures DeadPortals(b, [], fwd, self, domainIds) == []
  {
  }

  lemma DeadPortalsNext(b: Before, starts: seq<nat>, i: nat, fwd: map<nat, nat>, self: int, domainIds: map<int, int>)
    requires i < |starts|
    ensures DeadPortals(b, starts[..i + 1], fwd, self, domainIds) ==
            DeadPortals(b, starts[..i], fwd, self, domainIds) + DeadPortal(b, starts[i], fwd, self, domainIds)
  {
    assert starts[..i + 1][..i] == starts[..i];
  }

  lemma {:induction false} DeadProxiesMembers(b: Before, starts: seq<nat>, lo: int, hi: int, fwd: map<nat, nat>,
                                              p: nat, d: int)
    requires Tiling(b.cs, b.m, starts, lo, hi)
    ensures MemoryDeleted(p, d) in DeadProxies(b, starts, fwd) <==>
            p in starts && At(b.m, p) == OBJFLAGS_MEMORY && p !in fwd && d == Field(b.m, p, MEMORY_DZ)
  {
    if starts != [] {
      var n := |starts| - 1;
      DeadProxiesMembers(b, starts[..n], lo, starts[n], fwd, p, d);
      assert p in starts <==> p in starts[..n] || p == starts[n];
    }
  }

  lemma {:induction false} DeadProxiesOnce(b: Before, starts: seq<nat>, lo: int, hi: int, fwd: map<nat, nat>, i: nat,
                                           j: nat)
    requires Tiling(b.cs, b.m, starts, lo, hi) && i < j < |DeadProxies(b, starts, fwd)|
    ensures DeadProxies(b, starts, fwd)[i].proxy < DeadProxies(b, starts, fwd)[j].proxy
  {
    var n := |starts| - 1;
    var front := DeadProxies(b, starts[..n], fwd);
    if j < |front| {
      DeadProxiesOnce(b, starts[..n], lo, starts[n], fwd, i, j);
    } else {
      var x := front[i];
      DeadProxiesMembers(b, starts[..n], lo, starts[n], fwd, x.proxy, x.dz);
      TilingMember(b.cs, b.m, starts[..n], lo, starts[n], x.proxy);
    }
  }

  lemma {:induction false} DeadPortalsMembers(b: Before, starts: seq<nat>, lo: int, hi: int, fwd: map<nat, nat>,
                                              self: int, domainIds: map<int, int>, x: ServiceDecrement)
    requires Tiling(b.cs, b.m, starts, lo, hi)
    ensures x in DeadPortals(b, starts, fwd, self, domainIds) <==>
            x.proxy in starts && At(b.m, x.proxy) == OBJFLAGS_PORTAL && x.proxy !in fwd &&
            x.domain == Field(b.m, x.proxy, 2) && x.index == Field(b.m, x.proxy, 4) &&
            x.domain != 0 && x.domain != self && x.domain in domainIds && domainIds[x.domain] == Field(b.m, x.proxy, 3)
  {
    if starts != [] {
      var n := |starts| - 1;
      DeadPortalsMembers(b, starts[..n], lo, starts[n], fwd, self, domainIds, x);
      assert x.proxy in starts <==> x.proxy in starts[..n] || x.proxy == starts[n];
    }
  }

  lemma {:induction false} DeadPortalsOnce(b: Before, starts: seq<nat>, lo: int, hi: int, fwd: map<nat, nat>,
                                           self: int, domainIds: map<int, int>, i: nat, j: nat)
    requires Tiling(b.cs, b.m, starts, lo, hi) && i < j < |DeadPortals(b, starts, fwd, self, domainIds)|
    ensures DeadPortals(b, starts, fwd, self, domainIds)[i].proxy < DeadPortals(b, starts, fwd, self,
                                                                                domainIds)[j].proxy
  {
    var n := |starts| - 1;
    var front := DeadPortals(b, starts[..n], fwd, self, domainIds);
    if j < |front| {
      DeadPortalsOnce(b, starts[..n], lo, starts[n], fwd, self, domainIds, i, j);
    } else {
      DeadPortalsMembers(b, starts[..n], lo, starts[n], fwd, self, domainIds, front[i]);
      TilingMember(b.cs, b.m, starts[..n], lo, starts[n], front[i].proxy);
    }
  }

  /** After a complete scan memory_deleted has been called exactly once for each unreachable memory
      proxy, with that proxy's DZMemoryProxy, and never for a reachable one. */
  lemma FinalizedExactlyOnce(b: Before, m: seq<int>, g: Progress, roots': seq<int>)
    requires Inv(b, m, g, g.top2) && RootsMoved(b, g, roots')
    ensures forall p: nat, d: int {:trigger MemoryDeleted(p, d)} ::
              MemoryDeleted(p, d) in DeadProxies(b, b.starts, g.fwd) <==>
              p in b.starts && At(b.m, p) == OBJFLAGS_MEMORY && !b.Reaches(p) && d == Field(b.m, p, MEMORY_DZ)
    ensures forall i, j :: 0 <= i < j < |DeadProxies(b, b.starts, g.fwd)| ==>
              DeadProxies(b, b.starts, g.fwd)[i].proxy != DeadProxies(b, b.starts, g.fwd)[j].proxy
  {
    forall p: nat, d: int
      ensures MemoryDeleted(p, d) in DeadProxies(b, b.starts, g.fwd) <==>
              p in b.starts && At(b.m, p) == OBJFLAGS_MEMORY && !b.Reaches(p) && d == Field(b.m, p, MEMORY_DZ)
    {
      DeadProxiesMembers(b, b.starts, b.sp.lo, b.top, g.fwd, p, d);
      if b.Reaches(p) {
        ScannedReachable(b, m, g, roots', p);
      }
    }
    forall i, j | 0 <= i < j < |DeadProxies(b, b.starts, g.fwd)|
      ensures DeadProxies(b, b.starts, g.fwd)[i].proxy != DeadProxies(b, b.starts, g.fwd)[j].proxy
    {
      DeadProxiesOnce(b, b.starts, b.sp.lo, b.top, g.fwd, i, j);
    }
  }

  // ----- stepping through the old heap -----------------------------------------------------------

  /** The walk is at the start of the i-th object, or at the end of the last one. */
  ghost predicate OldWalkAt(b: Before, i: nat, data: int) {
    i <= |b.starts| && data == if i < |b.starts| then b.starts[i] else b.top
  }

  lemma OldWalkFirst(b: Before, m: seq<int>, g: Progress, s: int)
    requires Inv(b, m, g, s)
    ensures OldWalkAt(b, 0, b.sp.lo)
  {
    if b.starts != [] {
      TilingPrefix(b.cs, b.m, b.starts, b.sp.lo, b.top, 0);
      assert Tiling(b.cs, b.m, b.starts[..0], b.sp.lo, b.starts[0]);
    }
  }

  lemma OldWalkStep(b: Before, m: seq<int>, g: Progress, s: int, i: nat, data: int)
    requires Inv(b, m, g, s) && OldWalkAt(b, i, data) && data < b.top
    ensures i < |b.starts| && b.starts[i] == data
    ensures OldWalkAt(b, i + 1, data + SizeAt(b.cs, b.m, data))
  {
    TilingPrefix(b.cs, b.m, b.starts, b.sp.lo, b.top, i);
  }

  lemma OldWalkLast(b: Before, m: seq<int>, g: Progress, s: int, i: nat, data: int)
    requires Inv(b, m, g, s) && OldWalkAt(b, i, data) && data >= b.top
    ensures i == |b.starts|
  {
    if i < |b.starts| {
      TilingPrefix(b.cs, b.m, b.starts, b.sp.lo, b.top, i);
    }
  }

  lemma OldObjectInMemory(b: Before, m: seq<int>, g: Progress, s: int, p: nat)
    requires Inv(b, m, g, s) && p in b.starts
    ensures p + SizeAt(b.cs, b.m, p) <= |m|
    ensures IsForward(m[p]) ==> 0 <= PtrOf(ForwardPtr(m[p])) < |m|
  {
    OriginalPlace(b, m, g, s, p);
    OldHeapParses(b, m, g, s, p);
    if p in g.fwd {
      var i :| 0 <= i < |g.order| && g.order[i] == p;
      NoOverflow(b, m, g, s);
      CopyOrder(b, m, g, s, i, i);
      ForwardingRoundTrip(g.tos[i], At(b.m, p));
    }
  }
}
