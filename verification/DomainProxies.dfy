/** The memory proxies in the heap of a domain and the shared memory manager: what a collection and the
  finalizer calls it makes do to both (gc_new.c, gc_common.c, zero_Memory_org.c). */
module DomainProxies {
  import opened HeapLayout
  import opened HeapGraph
  import opened ScanInvariant
  import opened LogicalHeap
  import opened AllocationFrame
  import opened Collector
  import opened DZRefs
  import opened MemoryManager
  import Finalization

  predicate IsMemory(w: World, p: nat) {
    p in w.starts && At(w.m, p) == OBJFLAGS_MEMORY
  }

  /** The words of the memory proxy at p are those of r; a DZMemoryProxy is named by its index. */
  predicate Says(m: seq<int>, p: nat, r: MemoryProxy) {
    Field(m, p, 2) == r.size && Field(m, p, 3) == r.mem && Field(m, p, MEMORY_DZ) == r.dz
  }

  /** of tells for every memory proxy in the heap of w, by its logical object, which proxy of the manager
      it is. */
  ghost predicate Represents(w: World, proxies: map<nat, MemoryProxy>, of: map<nat, nat>) {
    (forall p: nat :: IsMemory(w, p) ==>
       p in w.ident && w.ident[p] in of && of[w.ident[p]] in proxies && Says(w.m, p, proxies[of[w.ident[p]]])) &&
    (forall i: nat :: i in of ==> exists p: nat :: IsMemory(w, p) && p in w.ident && w.ident[p] == i) &&
    forall i: nat, j: nat :: i in of && j in of && of[i] == of[j] ==> i == j
  }

  /** The logical object i is a memory proxy in w that can be reached. */
  ghost predicate Alive(w: World, i: nat) {
    exists p: nat :: p in w.ident && w.ident[p] == i && w.Reaches(p)
  }

  /** The numbering of the proxies that can still be reached. */
  ghost function AliveOf(w: World, of: map<nat, nat>): map<nat, nat> {
    map i: nat | i in of && Alive(w, i) :: of[i]
  }

  /** The proxies of the manager whose objects cannot be reached. */
  ghost function DeadOf(w: World, of: map<nat, nat>): set<nat> {
    set i: nat | i in of && !Alive(w, i) :: of[i]
  }

  /** The proxies that a list of finalizer calls is about. */
  ghost function Numbers(w: World, of: map<nat, nat>, calls: seq<Finalization.MemoryDeleted>): (ids: seq<nat>)
    requires forall x :: x in calls ==> x.proxy in w.ident && w.ident[x.proxy] in of
    ensures |ids| == |calls| && forall i :: 0 <= i < |ids| ==> ids[i] == of[w.ident[calls[i].proxy]]
  {
    seq(|calls|, i requires 0 <= i < |calls| => of[w.ident[calls[i].proxy]])
  }

  /** The DZMemoryProxies that a list of finalizer calls names. */
  function Pieces(calls: seq<Finalization.MemoryDeleted>): (dzs: seq<int>)
    ensures |dzs| == |calls| && forall i :: 0 <= i < |dzs| ==> dzs[i] == calls[i].dz
  {
    seq(|calls|, i requires 0 <= i < |calls| => calls[i].dz)
  }

  /** A collection has made exactly the finalizer calls for the dead memory proxies. */
  ghost predicate CallsOf(w: World, calls: seq<Finalization.MemoryDeleted>) {
    (forall p: nat, d: int {:trigger Finalization.MemoryDeleted(p, d)} ::
       Finalization.MemoryDeleted(p, d) in calls <==>
         IsMemory(w, p) && !w.Reaches(p) && d == Field(w.m, p, MEMORY_DZ)) &&
    forall i, j :: 0 <= i < j < |calls| ==> calls[i].proxy != calls[j].proxy
  }

  /** The finalizer calls name every dead proxy once, with its piece. */
  lemma CallsNumbers(w: World, proxies: map<nat, MemoryProxy>, of: map<nat, nat>,
                     calls: seq<Finalization.MemoryDeleted>, next: nat)
    requires Represents(w, proxies, of) && CallsOf(w, calls) && IdentOk(w.starts, w.ident, next)
    ensures forall x :: x in calls ==> IsMemory(w, x.proxy) && x.proxy in w.ident && w.ident[x.proxy] in of
    ensures var ids := Numbers(w, of, calls);
            (forall i :: 0 <= i < |ids| ==> ids[i] in proxies && proxies[ids[i]].dz == calls[i].dz) &&
            (forall i, j :: 0 <= i < j < |ids| ==> ids[i] != ids[j]) &&
            Members(ids) == DeadOf(w, of)
  {
    forall x | x in calls
      ensures IsMemory(w, x.proxy) && !w.Reaches(x.proxy) && x.dz == Field(w.m, x.proxy, MEMORY_DZ)
    {
      assert x == Finalization.MemoryDeleted(x.proxy, x.dz);
    }
    var ids := Numbers(w, of, calls);
    forall i | 0 <= i < |ids|
      ensures ids[i] in proxies && proxies[ids[i]].dz == calls[i].dz && ids[i] in DeadOf(w, of)
    {
      assert calls[i] in calls;
      NotAlive(w, calls[i].proxy, next);
    }
    forall i, j | 0 <= i < j < |ids|
      ensures ids[i] != ids[j]
    {
      assert calls[i] in calls && calls[j] in calls;
    }
    forall q | q in DeadOf(w, of)
      ensures q in ids
    {
      var n: nat :| n in of && !Alive(w, n) && of[n] == q;
      var p: nat :| IsMemory(w, p) && p in w.ident && w.ident[p] == n;
      assert Finalization.MemoryDeleted(p, Field(w.m, p, MEMORY_DZ)) in calls;
      var i :| 0 <= i < |calls| && calls[i] == Finalization.MemoryDeleted(p, Field(w.m, p, MEMORY_DZ));
      assert ids[i] == q;
    }
  }

  lemma NotAlive(w: World, p: nat, next: nat)
    requires IdentOk(w.starts, w.ident, next) && p in w.ident
    ensures Alive(w, w.ident[p]) <==> w.Reaches(p)
  {
  }

  /** The copy of a reachable memory proxy. */
  lemma CopyOfProxy(b: Before, w: World, w': World, fwd: map<nat, nat>, q: nat)
    requires Collected(b, w, w', fwd) && b.cs == w.cs && b.m == w.m && b.starts == w.starts && b.roots == w.roots
    requires q in fwd && q in w.ident
    ensures w.Reaches(q) && q in w.starts && fwd[q] in w'.starts && fwd[q] in w'.ident && w'.ident[fwd[q]] == w.ident[q]
    ensures At(w'.m, fwd[q]) == At(w.m, q)
    ensures At(w.m, q) == OBJFLAGS_MEMORY ==> forall k :: 1 <= k <= 4 ==> Field(w'.m, fwd[q], k) == Field(w.m, q, k)
  {
    hide KeptHeap;
    assert Moved(b.cs, b.m, q, w'.m, fwd[q], fwd);
    var path :| PathTo(w.cs, w.m, w.starts, w.roots, path, q);
  }

  lemma OriginalOf(b: Before, w: World, w': World, fwd: map<nat, nat>, t: nat) returns (q: nat)
    requires Collected(b, w, w', fwd) && b.cs == w.cs && b.m == w.m && b.starts == w.starts && b.roots == w.roots &&
             t in w'.starts
    ensures q in fwd && fwd[q] == t && w.Reaches(q) && q in w.starts
  {
    hide KeptHeap;
    q :| q in fwd && fwd[q] == t;
    var path :| PathTo(w.cs, w.m, w.starts, w.roots, path, q);
  }

  lemma ReachedIsCopied(b: Before, w: World, w': World, fwd: map<nat, nat>, q: nat)
    requires Collected(b, w, w', fwd) && b.cs == w.cs && b.m == w.m && b.starts == w.starts && b.roots == w.roots &&
             w.Reaches(q)
    ensures q in fwd
  {
    hide KeptHeap;
  }

  /** After a collection the objects left in the heap are numbered as before. */
  lemma CollectedRepresents(b: Before, w: World, w': World, fwd: map<nat, nat>, proxies: map<nat, MemoryProxy>,
                            of: map<nat, nat>, next: nat)
    requires Collected(b, w, w', fwd) && b.cs == w.cs && b.m == w.m && b.starts == w.starts && b.roots == w.roots
    requires Represents(w, proxies, of) && IdentOk(w.starts, w.ident, next)
    ensures Represents(w', proxies - DeadOf(w, of), AliveOf(w, of))
  {
    hide Collected;
    var proxies', of' := proxies - DeadOf(w, of), AliveOf(w, of);
    forall t: nat | IsMemory(w', t)
      ensures t in w'.ident && w'.ident[t] in of' && of'[w'.ident[t]] in proxies' &&
              Says(w'.m, t, proxies'[of'[w'.ident[t]]])
    {
      var q := OriginalOf(b, w, w', fwd, t);
      CopyOfProxy(b, w, w', fwd, q);
      assert IsMemory(w, q) && Alive(w, w.ident[q]);
    }
    forall i: nat | i in of'
      ensures exists t: nat :: IsMemory(w', t) && t in w'.ident && w'.ident[t] == i
    {
      var p: nat :| p in w.ident && w.ident[p] == i && w.Reaches(p);
      var q: nat :| IsMemory(w, q) && q in w.ident && w.ident[q] == i;
      assert p == q;
      ReachedIsCopied(b, w, w', fwd, q);
      CopyOfProxy(b, w, w', fwd, q);
      assert IsMemory(w', fwd[q]);
    }
  }

  /** The calls that a collection lists are those for the dead memory proxies. */
  lemma ListedCalls(b: Before, w: World, w': World, fwd: map<nat, nat>, next: nat)
    requires Collected(b, w, w', fwd) && b.cs == w.cs && b.m == w.m && b.starts == w.starts && b.roots == w.roots
    requires WfHeap(b.cs, b.m, b.sp, b.starts, b.top) && IdentOk(w.starts, w.ident, next)
    ensures CallsOf(w, Finalization.DeadProxies(b, b.starts, fwd))
  {
    var calls := Finalization.DeadProxies(b, b.starts, fwd);
    hide Collected, WfRefs, Finalization.DeadProxies;
    forall p: nat, d: int
      ensures Finalization.MemoryDeleted(p, d) in calls <==>
                IsMemory(w, p) && !w.Reaches(p) && d == Field(w.m, p, MEMORY_DZ)
    {
      Finalization.DeadProxiesMembers(b, b.starts, b.sp.lo, b.top, fwd, p, d);
      FwdIsReached(b, w, w', fwd, p);
    }
    forall i, j | 0 <= i < j < |calls|
      ensures calls[i].proxy != calls[j].proxy
    {
      Finalization.DeadProxiesOnce(b, b.starts, b.sp.lo, b.top, fwd, i, j);
    }
  }

  lemma FwdIsReached(b: Before, w: World, w': World, fwd: map<nat, nat>, q: nat)
    requires Collected(b, w, w', fwd) && b.cs == w.cs && b.m == w.m && b.starts == w.starts && b.roots == w.roots
    ensures q in fwd <==> w.Reaches(q)
  {
    hide KeptHeap;
  }

  /** gc_in for a domain, with the calls of memory_deleted that it makes: the manager loses exactly the
      proxies that the domain cannot reach any more, every count is again the number of references, and
      the proxies in the heap are numbered as before. */
  method CollectDomain(d: Domain, m: Manager, ghost of: map<nat, nat>, ghost owed: set<nat>)
    requires d.Valid() && d.RoomToCollect() && m.ValidOwing(owed) && Represents(d.W(), m.proxies, of)
    modifies d, d.mem, d.roots, d.registered, m, m.pool
    ensures d.Valid() && d.RoomToCollect() && m.ValidOwing(owed)
    ensures Represents(d.W(), m.proxies, AliveOf(old(d.W()), of))
    ensures m.proxies == old(m.proxies) - DeadOf(old(d.W()), of) && m.pinned == old(m.pinned) &&
            m.granted == old(m.granted)
    ensures d.Kept(old(d.W()), -1)
  {
    hide Domain.Valid, Manager.ValidOwing, Represents, AliveOf, DeadOf, KeptHeap, Collected;
    ghost var w := d.W();
    var n := |d.memoryDeleted|;
    HeapIsWf(d);
    d.Gc();
    var calls := d.memoryDeleted[n..];
    CollectionFinalizes(d.before, w, d.W(), d.progress.fwd, m.proxies, of, d.nextIdent, calls);
    ghost var w', proxies := d.W(), m.proxies;
    m.FinalizeProxies(Pieces(calls), Numbers(w, of, calls), owed);
    assert d.W() == w';
  }

  lemma HeapIsWf(d: Domain)
    requires d.Valid()
    ensures WfHeap(d.classes, d.mem[..], d.Sp(), d.starts, d.heapTop) && IdentOk(d.starts, d.ident, d.nextIdent)
  {
  }

  /** What a collection lists for the finalizer, and what is left. */
  lemma CollectionFinalizes(b: Before, w: World, w': World, fwd: map<nat, nat>, proxies: map<nat, MemoryProxy>,
                            of: map<nat, nat>, next: nat, calls: seq<Finalization.MemoryDeleted>)
    requires Collected(b, w, w', fwd) && b.cs == w.cs && b.m == w.m && b.starts == w.starts && b.roots == w.roots
    requires WfHeap(b.cs, b.m, b.sp, b.starts, b.top) && IdentOk(w.starts, w.ident, next) && Represents(w, proxies, of)
    requires calls == Finalization.DeadProxies(b, b.starts, fwd)
    ensures forall x :: x in calls ==> x.proxy in w.ident && w.ident[x.proxy] in of
    ensures var ids := Numbers(w, of, calls);
            (forall i :: 0 <= i < |ids| ==> ids[i] in proxies && proxies[ids[i]].dz == calls[i].dz) &&
            (forall i, j :: 0 <= i < j < |ids| ==> ids[i] != ids[j]) && Members(ids) == DeadOf(w, of)
    ensures KeptHeap(w, w', -1) && Represents(w', proxies - DeadOf(w, of), AliveOf(w, of))
  {
    hide Represents, CallsOf, AliveOf, DeadOf, WfHeap, IdentOk, GraphPreserved, KeptHeap, Finalization.DeadProxies;
    ListedCalls(b, w, w', fwd, next);
    CallsNumbers(w, proxies, of, calls, next);
    CollectedRepresents(b, w, w', fwd, proxies, of, next);
  }

  /** What a possible collection before an allocation lists for the finalizer, and what is left. */
  lemma RoomFinalizes(collected: bool, d: Domain, b: Before, w: World, room: World,
                      listed: seq<Finalization.MemoryDeleted>, proxies: map<nat, MemoryProxy>,
                      of: map<nat, nat>, next: nat, calls: seq<Finalization.MemoryDeleted>)
    requires d.AfterRoom(collected, b, w, room, listed) && d.memoryDeleted == listed + calls
    requires b.cs == w.cs && b.m == w.m && b.starts == w.starts && b.roots == w.roots
    requires WfHeap(b.cs, b.m, b.sp, b.starts, b.top) && IdentOk(w.starts, w.ident, next) && Represents(w, proxies, of)
    ensures forall x :: x in calls ==> x.proxy in w.ident && w.ident[x.proxy] in of
    ensures var ids := Numbers(w, of, calls);
            (forall i :: 0 <= i < |ids| ==> ids[i] in proxies && proxies[ids[i]].dz == calls[i].dz) &&
            (forall i, j :: 0 <= i < j < |ids| ==> ids[i] != ids[j]) && Members(ids) == LostOf(collected, w, of)
    ensures Represents(room, proxies - LostOf(collected, w, of), LeftOf(collected, w, of))
  {
    hide Represents, AliveOf, DeadOf, WfHeap, IdentOk, KeptHeap, Collected, Finalization.DeadProxies;
    assert d.memoryDeleted[|listed|..] == calls;
    if collected {
      assert calls == Finalization.DeadProxies(b, b.starts, d.progress.fwd);
      CollectionFinalizes(b, w, room, d.progress.fwd, proxies, of, next, calls);
    } else {
      assert proxies - {} == proxies;
    }
  }

  ghost function LeftOf(collected: bool, w: World, of: map<nat, nat>): map<nat, nat> {
    if collected then AliveOf(w, of) else of
  }

  ghost function LostOf(collected: bool, w: World, of: map<nat, nat>): set<nat> {
    if collected then DeadOf(w, of) else {}
  }

  /** A new memory proxy with the words of obj has been put at p, the end of the heap. */
  ghost predicate ProxyAdded(w: World, w': World, p: nat, id: nat, obj: MemoryProxy) {
    IdentOk(w.starts, w.ident, id) && WfHeap(w.cs, w.m, w.sp, w.starts, p) && OnlyFreeChanged(w.m, w'.m, w.sp, p) &&
    w'.starts == w.starts + [p] && w'.ident == w.ident[p := id] && At(w'.m, p) == OBJFLAGS_MEMORY && Says(w'.m, p, obj)
  }

  lemma OldProxyStays(w: World, w': World, p: nat, id: nat, obj: MemoryProxy, q: nat)
    requires ProxyAdded(w, w', p, id, obj) && q in w.starts
    ensures q != p && q in w'.starts && At(w'.m, q) == At(w.m, q)
    ensures At(w.m, q) == OBJFLAGS_MEMORY ==> forall k :: 1 <= k <= 4 ==> Field(w'.m, q, k) == Field(w.m, q, k)
    ensures q in w.ident ==> w.ident[q] != id && q in w'.ident && w'.ident[q] == w.ident[q]
  {
    TilingMember(w.cs, w.m, w.starts, w.sp.lo, p, q);
    ObjectFrame(w.cs, w.m, w'.m, w.sp, w.starts, p, q);
  }

  lemma NumberedIsProxy(w: World, proxies: map<nat, MemoryProxy>, of: map<nat, nat>, i: nat) returns (q: nat)
    requires Represents(w, proxies, of) && i in of
    ensures of[i] in proxies && IsMemory(w, q) && q in w.ident && w.ident[q] == i
  {
    q :| IsMemory(w, q) && q in w.ident && w.ident[q] == i;
  }

  lemma NewRepresents(w: World, w': World, p: nat, id: nat, number: nat, obj: MemoryProxy,
                      proxies: map<nat, MemoryProxy>, of: map<nat, nat>)
    requires Represents(w, proxies, of) && number !in proxies && ProxyAdded(w, w', p, id, obj)
    ensures Represents(w', proxies[number := obj], of[id := number])
  {
    hide WfHeap, OnlyFreeChanged, IdentOk;
    var proxies', of' := proxies[number := obj], of[id := number];
    assert IsMemory(w', p);
    forall i: nat | i in of
      ensures of[i] in proxies && i != id && exists q: nat :: IsMemory(w', q) && q in w'.ident && w'.ident[q] == i
    {
      var q := NumberedIsProxy(w, proxies, of, i);
      OldProxyStays(w, w', p, id, obj, q);
      assert IsMemory(w', q);
    }
    forall q: nat | IsMemory(w', q)
      ensures q in w'.ident && w'.ident[q] in of' && of'[w'.ident[q]] in proxies' &&
              Says(w'.m, q, proxies'[of'[w'.ident[q]]])
    {
      if q != p {
        assert q in w.starts;
        OldProxyStays(w, w', p, id, obj, q);
        assert IsMemory(w, q);
      }
    }
  }

  lemma NewProxyAdded(d: Domain, room: World, handle: nat, id: nat, obj: MemoryProxy)
    requires handle < d.registered.Length && d.NewObject(d.registered[handle], OBJFLAGS_MEMORY, id) && d.heapTop >= 7
    requires Says(d.mem[..], PtrOf(d.registered[handle]), obj) && d.Carved(room, 7) &&
             IdentOk(room.starts, room.ident, id)
    requires d.starts == room.starts + [d.heapTop - 7] && d.ident == room.ident[d.heapTop - 7 := id]
    ensures ProxyAdded(room, d.W(), d.heapTop - 7, id, obj)
  {
    hide WfHeap, OnlyFreeChanged, IdentOk, Says;
    assert PtrOf(d.registered[handle]) == d.heapTop - 7;
  }

  lemma NextIsNew(m: Manager, owed: set<nat>)
    requires m.ValidOwing(owed)
    ensures m.nextProxy !in m.proxies
  {
  }

  /** internalallocMemoryProxyInDomain, with the collection that gc_allocDataInDomain may start: the fresh
      piece dzm gets its proxy, proxies that the collection found dead are gone, and fresh pieces that
      wait for their proxies are not given back. */
  method AllocProxyInDomain(d: Domain, m: Manager, vtable: int, dzm: nat, ghost of: map<nat, nat>, ghost owed: set<nat>)
    returns (r: AllocResult, ghost of': map<nat, nat>)
    requires d.Valid() && d.RoomToCollect() && m.ValidOwing(owed) && dzm in owed && dzm < m.pool.Length
    requires Represents(d.W(), m.proxies, of)
    modifies d, d.mem, d.roots, d.registered, m, m.pool
    ensures r.RuntimeException? <==> old(d.TooFull(7))
    ensures r.Panic? <==> !old(d.TooFull(7)) && old(d.TableFull())
    ensures d.epoch == old(d.epoch) + if old(d.heapTop) + 7 <= old(d.heapBorder) - HEAP_RESERVE then 0 else 1
    ensures r.Allocated? ==> r.handle < d.registered.Length && var p := PtrOf(d.registered[r.handle]);
              p == d.heapTop - 7 && At(d.mem[..], p) == OBJFLAGS_MEMORY && Field(d.mem[..], p, 1) == vtable &&
              Field(d.mem[..], p, 2) == old(m.pool[dzm].size) && Field(d.mem[..], p, 3) == old(m.pool[dzm].mem) &&
              Field(d.mem[..], p, MEMORY_DZ) == dzm
    ensures !r.Panic? ==> d.Valid() && d.RoomToCollect() && Represents(d.W(), m.proxies, of')
    ensures r.Allocated? ==> m.ValidOwing(owed - {dzm}) && d.Kept(old(d.W()), r.handle)
    ensures r.RuntimeException? ==> m.ValidOwing(owed) && d.Kept(old(d.W()), -1)
    ensures var left, lost := LeftOf(d.epoch > old(d.epoch), old(d.W()), of),
              LostOf(d.epoch > old(d.epoch), old(d.W()), of);
            (r.Allocated? ==> of' == left[old(d.nextIdent) := old(m.nextProxy)] &&
                              m.proxies == (old(m.proxies) - lost)[old(m.nextProxy) := ProxyOf(m.pool[..], dzm)]) &&
            (r.RuntimeException? ==> of' == left && m.proxies == old(m.proxies) - lost)
    ensures m.pinned == old(m.pinned) && m.granted == old(m.granted) && OwedKept(old(m.pool[..]), m.pool[..], owed)
  {
    hide Domain.Valid, Manager.ValidOwing, Represents, LeftOf, LostOf, KeptHeap, Domain.AfterRoom, WfHeap, IdentOk,
      OnlyFreeChanged,
      Domain.Carved, Domain.NewObject, ProxyAdded;
    ghost var b, w, calls0, next, room := d.Now(), d.W(), d.memoryDeleted, d.nextIdent, d.W();
    var n := |d.memoryDeleted|;
    HeapIsWf(d);
    r, room := d.AllocMemoryProxyInDomain(vtable, m.pool[dzm].size, m.pool[dzm].mem, dzm);
    of' := of;
    CallsGrow(d, d.epoch > old(d.epoch), b, w, room, calls0);
    var calls := d.memoryDeleted[n..];
    of' := LeftOf(d.epoch > old(d.epoch), w, of);
    RoomFinalizes(d.epoch > old(d.epoch), d, b, w, room, calls0, m.proxies, of, next, calls);
    m.FinalizeProxies(Pieces(calls), Numbers(w, of, calls), owed);
    if r.Allocated? {
      NextIsNew(m, owed);
      ghost var proxies, number := m.proxies, m.nextProxy;
      var obj := m.AllocProxy(dzm, owed);
      NewProxyAdded(d, room, r.handle, next, obj);
      NewRepresents(room, d.W(), d.heapTop - 7, next, number, obj, proxies, of');
      of' := of'[next := number];
    }
  }

  lemma CallsGrow(d: Domain, collected: bool, b: Before, w: World, room: World, calls: seq<Finalization.MemoryDeleted>)
    requires d.AfterRoom(collected, b, w, room, calls)
    ensures |calls| <= |d.memoryDeleted| && d.memoryDeleted == calls + d.memoryDeleted[|calls|..]
  {
  }
}
