/** Memory proxies and the reference counts they account for (zero_Memory_org.c). */
module DZRefs {
  import opened DZChains

  /** A memory object of some domain: a window on the piece dz. */
  datatype MemoryProxy = MemoryProxy(size: int, mem: int, dz: nat)

  /** The number of proxies that point at the piece x. */
  ghost function Refs(proxies: map<nat, MemoryProxy>, x: nat): nat {
    |Holders(proxies, x)|
  }

  ghost function Holders(proxies: map<nat, MemoryProxy>, x: nat): set<nat> {
    set q | q in proxies && proxies[q].dz == x
  }

  /** References that no proxy holds: the static dzInvalid, and the neighbours made by revoke. */
  function Pin(pinned: set<nat>, x: nat): nat {
    if x in pinned then 1 else 0
  }

  lemma RefsAdd(proxies: map<nat, MemoryProxy>, q: nat, r: MemoryProxy, x: nat)
    requires q !in proxies
    ensures Refs(proxies[q := r], x) == Refs(proxies, x) + if r.dz == x then 1 else 0
  {
    var holders := Holders(proxies, x);
    assert q !in holders;
    assert Holders(proxies[q := r], x) == if r.dz == x then holders + {q} else holders;
  }

  lemma RefsRemove(proxies: map<nat, MemoryProxy>, q: nat, x: nat)
    requires q in proxies
    ensures Refs(proxies - {q}, x) == Refs(proxies, x) - if proxies[q].dz == x then 1 else 0
  {
    var rest := proxies - {q};
    assert rest[q := proxies[q]] == proxies;
    RefsAdd(rest, q, proxies[q], x);
  }

  lemma RefsNone(proxies: map<nat, MemoryProxy>, x: nat)
    requires forall q :: q in proxies ==> proxies[q].dz != x
    ensures Refs(proxies, x) == 0
  {
    assert Holders(proxies, x) == {};
  }

  lemma RefsSome(proxies: map<nat, MemoryProxy>, q: nat)
    requires q in proxies
    ensures Refs(proxies, proxies[q].dz) > 0
  {
    assert q in Holders(proxies, proxies[q].dz);
  }

  /** Proxies point at nodes in use, and a proxy of a valid piece knows its range. */
  ghost predicate ProxiesOk(p: seq<DZ>, proxies: map<nat, MemoryProxy>, next: nat) {
    forall q :: q in proxies ==> q < next && ProxyOk(p, proxies[q])
  }

  predicate ProxyOk(p: seq<DZ>, r: MemoryProxy) {
    r.dz < |p| && p[r.dz].valid != 2 && (p[r.dz].valid == 1 ==> r.size == p[r.dz].size && r.mem == p[r.dz].mem)
  }

  ghost predicate PinnedOk(p: seq<DZ>, pinned: set<nat>) {
    forall x :: x in pinned ==> x < |p| && p[x].valid != 2
  }

  /** The counts are right except that the nodes of owed have one reference too many: nobody has been
      given it yet. */
  ghost predicate Owing(p: seq<DZ>, proxies: map<nat, MemoryProxy>, next: nat, pinned: set<nat>, owed: set<nat>) {
    (forall x: nat :: x < |p| && p[x].valid != 2 ==>
     p[x].refcount == Refs(proxies, x) + Pin(pinned, x) + Pin(owed, x)) &&
    ProxiesOk(p, proxies, next) && PinnedOk(p, pinned) && PinnedOk(p, owed)
  }

  /** Every count in the pool is the number of references to the node. */
  ghost predicate RefsOk(p: seq<DZ>, proxies: map<nat, MemoryProxy>, next: nat, pinned: set<nat>) {
    Owing(p, proxies, next, pinned, {})
  }

  // ----- fresh pieces get their references ------------------------------------------------------------

  /** After a change of structure: the pieces of owed were free before and have count 1, all other
      counts are as before, and no piece that stays valid has changed its range. */
  ghost predicate Reshaped(p: seq<DZ>, p': seq<DZ>, owed: set<nat>) {
    |p'| == |p| && (forall x :: x in owed ==> x < |p| && p[x].valid == 2 && p'[x].valid == 1 && p'[x].refcount == 1) &&
    forall x: nat :: x < |p| && x !in owed ==>
      p'[x].refcount == p[x].refcount && (p'[x].valid == 2 <==> p[x].valid == 2) &&
      (p'[x].valid == 1 ==> p[x].valid == 1 && p'[x].size == p[x].size && p'[x].mem == p[x].mem)
  }

  lemma ReshapedOwes(p: seq<DZ>, p': seq<DZ>, proxies: map<nat, MemoryProxy>, next: nat, pinned: set<nat>,
                     owed: set<nat>)
    requires RefsOk(p, proxies, next, pinned) && Reshaped(p, p', owed)
    ensures Owing(p', proxies, next, pinned, owed)
  {
    forall q | q in proxies
      ensures ProxyOk(p', proxies[q])
    {
      assert ProxyOk(p, proxies[q]);
    }
    forall x: nat | x < |p'| && p'[x].valid != 2
      ensures p'[x].refcount == Refs(proxies, x) + Pin(pinned, x) + Pin(owed, x)
    {
      if x in owed {
        forall q | q in proxies
          ensures proxies[q].dz != x
        {
          assert ProxyOk(p, proxies[q]);
        }
        RefsNone(proxies, x);
      }
    }
  }

  lemma PayProxy(p: seq<DZ>, proxies: map<nat, MemoryProxy>, next: nat, pinned: set<nat>, owed: set<nat>,
                 r: MemoryProxy)
    requires Owing(p, proxies, next, pinned, owed) && r.dz in owed && ProxyOk(p, r)
    ensures Owing(p, proxies[next := r], next + 1, pinned, owed - {r.dz})
  {
    assert next !in proxies;
    forall x: nat | x < |p| && p[x].valid != 2
      ensures p[x].refcount == Refs(proxies[next := r], x) + Pin(pinned, x) + Pin(owed - {r.dz}, x)
    {
      RefsAdd(proxies, next, r, x);
    }
    var proxies' := proxies[next := r];
    forall q | q in proxies'
      ensures q < next + 1 && ProxyOk(p, proxies'[q])
    {
      if q != next {
        assert ProxyOk(p, proxies[q]);
      }
    }
  }

  lemma PinOwed(p: seq<DZ>, proxies: map<nat, MemoryProxy>, next: nat, pinned: set<nat>, owed: set<nat>)
    requires Owing(p, proxies, next, pinned, owed) && pinned !! owed
    ensures RefsOk(p, proxies, next, pinned + owed)
  {
  }

  /** Nobody is owed anything after a change of structure that made no pieces. */
  lemma OwedProxy(p: seq<DZ>, proxies: map<nat, MemoryProxy>, next: nat, pinned: set<nat>, owed: set<nat>, x: nat)
    requires Owing(p, proxies, next, pinned, owed) && x in owed
    ensures x < |p| && ProxyOk(p, MemoryProxy(p[x].size, p[x].mem, x))
  {
  }

  // ----- copying and dropping proxies -----------------------------------------------------------------

  lemma CopyKeepsRefs(p: seq<DZ>, proxies: map<nat, MemoryProxy>, next: nat, pinned: set<nat>, x: nat)
    requires RefsOk(p, proxies, next, pinned) && x < |p| && p[x].valid != 2
    ensures var p' := p[x := p[x].(refcount := p[x].refcount + 1)];
            RefsOk(p', proxies[next := MemoryProxy(p[x].size, p[x].mem, x)], next + 1, pinned)
  {
    var p' := p[x := p[x].(refcount := p[x].refcount + 1)];
    var r := MemoryProxy(p[x].size, p[x].mem, x);
    var proxies' := proxies[next := r];
    assert next !in proxies;
    forall y: nat | y < |p'| && p'[y].valid != 2
      ensures p'[y].refcount == Refs(proxies', y) + Pin(pinned, y)
    {
      RefsAdd(proxies, next, r, y);
    }
    forall q | q in proxies'
      ensures q < next + 1 && ProxyOk(p', proxies'[q])
    {
      if q != next {
        assert ProxyOk(p, proxies[q]);
      }
    }
  }

  /** A proxy keeps the count of its piece above zero. */
  lemma ProxyHolds(p: seq<DZ>, proxies: map<nat, MemoryProxy>, next: nat, pinned: set<nat>, owed: set<nat>, q: nat)
    requires Owing(p, proxies, next, pinned, owed) && q in proxies
    ensures q < next && proxies[q].dz < |p| && p[proxies[q].dz].valid != 2 && p[proxies[q].dz].refcount > 0
  {
    assert ProxyOk(p, proxies[q]);
    RefsSome(proxies, q);
  }

  /** A proxy of a valid piece knows its range. */
  lemma ProxyRange(p: seq<DZ>, proxies: map<nat, MemoryProxy>, next: nat, pinned: set<nat>, q: nat)
    requires RefsOk(p, proxies, next, pinned) && q in proxies
    ensures var r := proxies[q]; r.dz < |p| && (p[r.dz].valid == 1 ==> r.size == p[r.dz].size && r.mem == p[r.dz].mem)
  {
    assert ProxyOk(p, proxies[q]);
  }

  lemma DropKeepsRefs(p: seq<DZ>, proxies: map<nat, MemoryProxy>, next: nat, pinned: set<nat>, owed: set<nat>, q: nat)
    requires Owing(p, proxies, next, pinned, owed) && q in proxies && proxies[q].dz < |p|
    ensures var x := proxies[q].dz;
            Owing(p[x := p[x].(refcount := p[x].refcount - 1)], proxies - {q}, next, pinned, owed)
  {
    var x := proxies[q].dz;
    var p' := p[x := p[x].(refcount := p[x].refcount - 1)];
    forall y: nat | y < |p'| && p'[y].valid != 2
      ensures p'[y].refcount == Refs(proxies - {q}, y) + Pin(pinned, y) + Pin(owed, y)
    {
      RefsRemove(proxies, q, y);
    }
    forall r | r in proxies - {q}
      ensures r < next && ProxyOk(p', proxies[r])
    {
      assert ProxyOk(p, proxies[r]);
    }
  }

  /** The nodes of c have been freed; no reference led to them. */
  lemma FreedKeepsRefs(p: seq<DZ>, p': seq<DZ>, proxies: map<nat, MemoryProxy>, next: nat, pinned: set<nat>,
                       owed: set<nat>, c: seq<nat>)
    requires Owing(p, proxies, next, pinned, owed) && |p'| == |p|
    requires forall x: nat :: x < |p| && x !in c ==> p'[x] == p[x]
    requires forall x: nat :: x in c ==> x < |p| && p[x].valid != 2 && p[x].refcount == 0 && p'[x].valid == 2
    ensures Owing(p', proxies, next, pinned, owed)
  {
    forall q | q in proxies
      ensures ProxyOk(p', proxies[q])
    {
      assert ProxyOk(p, proxies[q]);
      RefsSome(proxies, q);
    }
  }
}
