/** The shared memory manager itself (zero_Memory_org.c): pool, free list and proxies are changed in
  place.  The current domain is a parameter; garbage collections inside dzmemory_alloc and real
  concurrency are not part of this model. */
module MemoryManager {
  import opened DZChains
  import opened DZLaws
  import opened DZRefs
  import opened DZRevoke
  import opened DZSplices

  datatype Outcome = Done | InvalidMemory | ArrayOutOfBounds | IndexOutOfBounds | Refused | Panic

  class Manager {
    const pool: array<DZ>                       // dzMemory
    var freeList: int                           // dzMemoryFreeList
    var released: seq<Block>                    // the calls of jxfree

    ghost var proxies: map<nat, MemoryProxy>    // the memory proxies of all domains
    ghost var nextProxy: nat
    ghost var spare: seq<nat>                   // the free list, from its head on
    ghost var chains: set<seq<nat>>
    ghost var blocks: set<Block>                // the blocks under management
    ghost var pinned: set<nat>
    ghost var open: set<Request>                // the requests to jxmalloc that these blocks come from
    ghost var granted: multiset<Request>        // all requests ever made
    ghost var served: seq<Request>              // the requests whose blocks went to jxfree

    ghost function Sh(): Shape
      reads this, pool
    {
      Shape(pool[..], spare, chains, blocks)
    }

    ghost function Bk(): Books
      reads this
    {
      Books(blocks, open, granted, released, served)
    }

    /** Structure and counts are right, but the nodes of owed still wait for their proxies. */
    ghost predicate ValidOwing(owed: set<nat>)
      reads this, pool
    {
      Structure(Sh()) && Owing(pool[..], proxies, nextProxy, pinned, owed) && freeList == FirstOf(spare) &&
      Balanced(Bk())
    }

    ghost predicate Valid()
      reads this, pool
    {
      ValidOwing({})
    }

    /** obj is the number of the memory proxy self. */
    ghost predicate IsProxy(obj: nat, self: MemoryProxy)
      reads this
    {
      obj in proxies && proxies[obj] == self
    }

    /** dzmemory_init: all nodes but dzInvalid are free. */
    constructor (n: nat)
      requires n >= 1
      ensures Valid() && pool.Length == n && fresh(pool) && |spare| == n - 1
      ensures proxies == map[] && Bk() == Books({}, {}, multiset{}, [], []) && chains == {[n - 1]} && pinned == {n - 1}
    {
      pool := new DZ[n](i => DZ(0, 2, 0, 0, NIL, NIL, 0, 0));
      freeList := NIL;
      released := [];
      proxies, nextProxy, spare, chains, pinned := map[], 0, [], {[n - 1]}, {n - 1};
      blocks, open, granted, served := {}, {}, multiset{}, [];
      new;
      var dzm := 0;
      while dzm < n
        invariant 0 <= dzm <= n && fresh(pool) && pool.Length == n && |spare| == dzm && freeList == FirstOf(spare)
        invariant proxies == map[] && nextProxy == 0 && chains == {[n - 1]} && pinned == {n - 1}
        invariant Bk() == Books({}, {}, multiset{}, [], [])
        invariant FreeList(pool[..], spare) && forall i :: 0 <= i < dzm ==> spare[i] == dzm - 1 - i
      {
        ghost var p := pool[..];
        pool[dzm] := DZ(0, 2, 0, pool[dzm].size, NIL, freeList, pool[dzm].prevOwner, pool[dzm].nextOwner);
        freeList := dzm;
        FreePush(p, pool[..], spare, dzm);
        spare := [dzm] + spare;
        dzm := dzm + 1;
      }
      InitInvalid();
    }

    /** The last part of dzmemory_init: dzInvalid is the first node of the free list. */
    method InitInvalid()
      requires pool.Length >= 1 && |spare| == pool.Length && freeList == FirstOf(spare) && FreeList(pool[..], spare)
      requires forall i :: 0 <= i < |spare| ==> spare[i] == pool.Length - 1 - i
      requires proxies == map[] && nextProxy == 0 && chains == {[pool.Length - 1]} && pinned == {pool.Length - 1}
      requires Bk() == Books({}, {}, multiset{}, [], [])
      modifies this`freeList, this`spare, pool
      ensures Valid() && |spare| == pool.Length - 1
    {
      assert FreeNode(pool[..], spare, 0);
      AllLinked(pool[..], spare);
      TakenFrom();
      hide FreeNode;
      ghost var p := pool[..];
      var dzInvalid := AllocDZ(0);
      pool[dzInvalid] := pool[dzInvalid].(valid := 0);
      TakenNodes(1);
      ghost var rest := spare[1..];
      RestIsFree(p, pool[..], spare);
      spare := rest;
      InitialShape(pool[..], spare, pool.Length);
    }

    // ----- the free list ------------------------------------------------------------------------

    /** The first n nodes of spare have been taken from the free list. */
    ghost predicate Taken(n: nat)
      reads this, pool
    {
      n <= |spare| && freeList == FirstOf(spare[n..]) && forall i :: n <= i < |spare| ==> FreeLink(pool[..], spare, i)
    }

    /** dzmemory_alloc with a free node at hand. */
    method AllocDZ(ghost n: nat) returns (dzm: nat)
      requires n < |spare| && Taken(n) && Distinct(spare)
      modifies this`freeList, pool
      ensures dzm == spare[n] && Taken(n + 1) && dzm < pool.Length
      ensures pool[..] == old(pool[..])[dzm := old(pool[..])[dzm].(valid := 0, next := NIL, refcount := 1)]
    {
      assert FreeLink(pool[..], spare, n);
      dzm := freeList;
      freeList := pool[dzm].next;
      pool[dzm] := pool[dzm].(valid := 0, next := NIL, refcount := 1);
      forall i | n + 1 <= i < |spare|
        ensures FreeLink(pool[..], spare, i)
      {
        assert FreeLink(old(pool[..]), spare, i) && spare[i] != spare[n];
      }
    }

    method CreateDZMemory(size: int, mem: int, ghost n: nat) returns (dzm: nat)
      requires n < |spare| && Taken(n) && Distinct(spare)
      modifies this`freeList, pool
      ensures dzm == spare[n] && Taken(n + 1) && dzm < pool.Length
      ensures pool[..] == old(pool[..])[dzm := DZ(1, 1, mem, size, NIL, NIL, 0, 0)]
    {
      dzm := AllocDZ(n);
      ghost var p := pool[..];
      pool[dzm] := DZ(pool[dzm].refcount, 1, mem, size, NIL, NIL, 0, 0);
      forall i | n + 1 <= i < |spare|
        ensures FreeLink(pool[..], spare, i)
      {
        assert FreeLink(p, spare, i) && spare[i] != spare[n];
      }
    }

    lemma ValidTaken()
      requires Structure(Sh()) && freeList == FirstOf(spare)
      ensures Taken(0) && Distinct(spare)
    {
      StructureParts(Sh());
      assert spare[0..] == spare;
      AllLinked(pool[..], spare);
    }

    lemma TakenFrom()
      requires freeList == FirstOf(spare) && forall i :: 0 <= i < |spare| ==> FreeLink(pool[..], spare, i)
      ensures Taken(0)
    {
      assert spare[0..] == spare;
    }

    // ----- split and join on pieces ---------------------------------------------------------------

    /** dzmemory_split3: the piece at position i of the chain c falls into three.  r is -1 if the range
        does not lie inside the piece, and then nothing has changed. */
    method DZSplit3(dzm: nat, offset: int, len: int, domain: int, ghost c: seq<nat>, ghost i: nat)
      returns (r: int, dzm0: nat, dzm1: nat, dzm2: nat)
      requires Structure(Sh()) && freeList == FirstOf(spare) && |spare| >= 3 && PieceOf(c, i, dzm) && dzm < pool.Length
      modifies this`freeList, this`spare, this`chains, pool
      ensures r == -1 || r == 0
      ensures r == -1 <==> offset < 0 || len < 0 || offset + len > old(pool[dzm].size)
      ensures r == -1 ==>
                pool[..] == old(pool[..]) && chains == old(chains) && spare == old(spare) && freeList == old(freeList)
      ensures r == 0 ==> Structure(Sh()) && freeList == FirstOf(spare)
      ensures r == 0 ==> [dzm0, dzm1, dzm2] == old(spare)[..3] && spare == old(spare)[3..]
      ensures r == 0 ==> chains == old(chains) - {c} + {c[..i] + [dzm0, dzm1, dzm2] + c[i + 1..], [dzm]}
      ensures r == 0 ==> Split3Pieces(old(pool[..]), pool[..], dzm, offset, len, domain, dzm0, dzm1, dzm2)
      ensures r == 0 ==> Reshaped(old(pool[..]), pool[..], {dzm0, dzm1, dzm2})
    {
      dzm0, dzm1, dzm2 := 0, 0, 0;
      if offset < 0 || len < 0 || offset + len > pool[dzm].size {
        return -1, dzm0, dzm1, dzm2;
      }
      hide *;
      dzm0, dzm1, dzm2 := SplitInThree(dzm, offset, len, domain, c, i);
      r := 0;
    }

    method SplitInThree(dzm: nat, offset: int, len: int, domain: int, ghost c: seq<nat>, ghost i: nat)
      returns (dzm0: nat, dzm1: nat, dzm2: nat)
      requires Structure(Sh()) && freeList == FirstOf(spare) && |spare| >= 3 && PieceOf(c, i, dzm) && dzm < pool.Length
      requires 0 <= offset && 0 <= len && offset + len <= pool[dzm].size
      modifies this`freeList, this`spare, this`chains, pool
      ensures Structure(Sh()) && freeList == FirstOf(spare)
      ensures [dzm0, dzm1, dzm2] == old(spare)[..3] && spare == old(spare)[3..]
      ensures chains == old(chains) - {c} + {c[..i] + [dzm0, dzm1, dzm2] + c[i + 1..], [dzm]}
      ensures Split3Pieces(old(pool[..]), pool[..], dzm, offset, len, domain, dzm0, dzm1, dzm2)
      ensures Reshaped(old(pool[..]), pool[..], {dzm0, dzm1, dzm2})
    {
      hide Structure, RunReady, Taken, Distinct, Live, LiveNode, Split3Pieces, Replaced, Reshaped;
      ghost var s, ys := Sh(), spare[..3];
      PieceReady(c, i, dzm, 3);
      dzm0, dzm1, dzm2 := MakeThree(dzm, offset, len, domain);
      assert ys == [dzm0, dzm1, dzm2];
      Split3Replaces(s.p, pool[..], dzm, offset, len, domain, dzm0, dzm1, dzm2);
      PieceReplaced(s, pool[..], c, i, ys, {dzm0, dzm1, dzm2});
      chains, spare := s.chains - {c} + {c[..i] + ys + c[i + 1..], [dzm]}, spare[3..];
    }

    /** dzm is a piece in use, at position i of the live chain c. */
    ghost predicate PieceOf(c: seq<nat>, i: nat, dzm: nat)
      reads this, pool
    {
      c in chains && Live(pool[..], c) && i < |c| && c[i] == dzm && dzm < pool.Length && pool[dzm].refcount > 0
    }

    lemma PieceReady(c: seq<nat>, i: nat, dzm: nat, n: nat)
      requires Structure(Sh()) && freeList == FirstOf(spare) && PieceOf(c, i, dzm) && n <= |spare|
      ensures RunReady(pool[..], [dzm], spare[..n]) && Taken(0) && Distinct(spare)
      ensures LiveNode(pool[..][dzm])
    {
      hide Structure, RunReady, Taken, Distinct;
      ValidTaken();
      RunIsReady(Sh(), c, i, i + 1, n);
      assert c[i..i + 1] == [dzm];
    }

    method MakeThree(dzm: nat, offset: int, len: int, domain: int) returns (dzm0: nat, dzm1: nat, dzm2: nat)
      requires Taken(0) && |spare| >= 3 && Distinct(spare) && dzm < pool.Length && RunReady(pool[..], [dzm], spare[..3])
      modifies this`freeList, pool
      ensures dzm0 == spare[0] && dzm1 == spare[1] && dzm2 == spare[2] && freeList == FirstOf(spare[3..])
      ensures Split3Pieces(old(pool[..]), pool[..], dzm, offset, len, domain, dzm0, dzm1, dzm2)
    {
      hide FreeLink, Distinct, RunReady;
      var whole := pool[dzm];
      ReadyApart(pool[..], [dzm], spare[..3]);
      dzm0 := CreateDZMemory(offset, whole.mem, 0);
      dzm1 := CreateDZMemory(len, whole.mem + offset, 1);
      dzm2 := CreateDZMemory(whole.size - len - offset, whole.mem + len + offset, 2);
      assert spare[..3] == [dzm0, dzm1, dzm2];
      LinkThree(dzm, whole, domain, dzm0, dzm1, dzm2, old(pool[..]));
    }

    /** The links of dzmemory_split3. */
    method LinkThree(dzm: nat, whole: DZ, domain: int, dzm0: nat, dzm1: nat, dzm2: nat, ghost p: seq<DZ>)
      requires |p| == pool.Length && RunReady(p, [dzm], [dzm0, dzm1, dzm2]) && dzm < |p| && whole == p[dzm]
      requires dzm0 < |p| && dzm1 < |p| && dzm2 < |p|
      requires forall z: nat :: z < |p| && z != dzm0 && z != dzm1 && z != dzm2 ==> pool[z] == p[z]
      modifies pool
      ensures |p| == pool.Length &&
              NeighboursLinked(p, pool[..], {dzm, dzm0, dzm1, dzm2}, whole.prev, dzm0, whole.next, dzm2)
      ensures pool[dzm0] == old(pool[dzm0]).(prev := whole.prev, next := dzm1, nextOwner := domain,
                                             prevOwner := whole.prevOwner)
      ensures pool[dzm1] == old(pool[dzm1]).(prev := dzm0, next := dzm2, nextOwner := domain, prevOwner := domain)
      ensures pool[dzm2] == old(pool[dzm2]).(prev := dzm1, next := whole.next, nextOwner := whole.nextOwner,
                                             prevOwner := domain)
      ensures pool[dzm] == whole.(prev := NIL, next := NIL, valid := 0, mem := 0)
    {
      hide RunReady;
      ReadyApart(p, [dzm], [dzm0, dzm1, dzm2]);
      assert [dzm][0] == dzm && [dzm0, dzm1, dzm2][0] == dzm0 && [dzm0, dzm1, dzm2][1] == dzm1 &&
             [dzm0, dzm1, dzm2][2] == dzm2;
      if whole.prev != NIL {
        pool[whole.prev] := pool[whole.prev].(next := dzm0);
      }
      pool[dzm0] := pool[dzm0].(prev := whole.prev, next := dzm1, nextOwner := domain, prevOwner := whole.prevOwner);
      pool[dzm1] := pool[dzm1].(prev := dzm0, next := dzm2, nextOwner := domain, prevOwner := domain);
      pool[dzm2] := pool[dzm2].(prev := dzm1, next := whole.next, nextOwner := whole.nextOwner, prevOwner := domain);
      if whole.next != NIL {
        pool[whole.next] := pool[whole.next].(prev := dzm2);
      }
      pool[dzm] := pool[dzm].(prev := NIL, next := NIL, valid := 0, mem := 0);
    }

    /** dzmemory_split2: the piece falls into two. */
    method DZSplit2(dzm: nat, offset: int, domain: int, ghost c: seq<nat>, ghost i: nat)
      returns (r: int, dzm0: nat, dzm1: nat)
      requires Structure(Sh()) && freeList == FirstOf(spare) && |spare| >= 2 && PieceOf(c, i, dzm) && dzm < pool.Length
      modifies this`freeList, this`spare, this`chains, pool
      ensures r == -1 || r == 0
      ensures r == -1 <==> offset < 0 || offset > old(pool[dzm].size)
      ensures r == -1 ==>
                pool[..] == old(pool[..]) && chains == old(chains) && spare == old(spare) && freeList == old(freeList)
      ensures r == 0 ==> Structure(Sh()) && freeList == FirstOf(spare)
      ensures r == 0 ==> [dzm0, dzm1] == old(spare)[..2] && spare == old(spare)[2..]
      ensures r == 0 ==> chains == old(chains) - {c} + {c[..i] + [dzm0, dzm1] + c[i + 1..], [dzm]}
      ensures r == 0 ==> Split2Pieces(old(pool[..]), pool[..], dzm, offset, domain, dzm0, dzm1)
      ensures r == 0 ==> Reshaped(old(pool[..]), pool[..], {dzm0, dzm1})
    {
      dzm0, dzm1 := 0, 0;
      if offset < 0 || offset > pool[dzm].size {
        return -1, dzm0, dzm1;
      }
      hide *;
      dzm0, dzm1 := SplitInTwo(dzm, offset, domain, c, i);
      r := 0;
    }

    method SplitInTwo(dzm: nat, offset: int, domain: int, ghost c: seq<nat>, ghost i: nat)
      returns (dzm0: nat, dzm1: nat)
      requires Structure(Sh()) && freeList == FirstOf(spare) && |spare| >= 2 && PieceOf(c, i, dzm) && dzm < pool.Length
      requires 0 <= offset <= pool[dzm].size
      modifies this`freeList, this`spare, this`chains, pool
      ensures Structure(Sh()) && freeList == FirstOf(spare)
      ensures [dzm0, dzm1] == old(spare)[..2] && spare == old(spare)[2..]
      ensures chains == old(chains) - {c} + {c[..i] + [dzm0, dzm1] + c[i + 1..], [dzm]}
      ensures Split2Pieces(old(pool[..]), pool[..], dzm, offset, domain, dzm0, dzm1)
      ensures Reshaped(old(pool[..]), pool[..], {dzm0, dzm1})
    {
      hide Structure, RunReady, Taken, Distinct, Live, LiveNode, Split2Pieces, Replaced, Reshaped;
      ghost var s, ys := Sh(), spare[..2];
      PieceReady(c, i, dzm, 2);
      dzm0, dzm1 := MakeTwo(dzm, offset, domain);
      assert ys == [dzm0, dzm1];
      Split2Replaces(s.p, pool[..], dzm, offset, domain, dzm0, dzm1);
      PieceReplaced(s, pool[..], c, i, ys, {dzm0, dzm1});
      chains, spare := s.chains - {c} + {c[..i] + ys + c[i + 1..], [dzm]}, spare[2..];
    }

    method MakeTwo(dzm: nat, offset: int, domain: int) returns (dzm0: nat, dzm1: nat)
      requires Taken(0) && |spare| >= 2 && Distinct(spare) && dzm < pool.Length && RunReady(pool[..], [dzm], spare[..2])
      modifies this`freeList, pool
      ensures dzm0 == spare[0] && dzm1 == spare[1] && freeList == FirstOf(spare[2..])
      ensures Split2Pieces(old(pool[..]), pool[..], dzm, offset, domain, dzm0, dzm1)
    {
      hide FreeLink, Distinct, RunReady;
      var whole := pool[dzm];
      ReadyApart(pool[..], [dzm], spare[..2]);
      dzm0 := CreateDZMemory(offset, whole.mem, 0);
      dzm1 := CreateDZMemory(whole.size - offset, whole.mem + offset, 1);
      assert spare[..2] == [dzm0, dzm1];
      LinkTwo(dzm, whole, domain, dzm0, dzm1, old(pool[..]));
    }

    /** The links of dzmemory_split2. */
    method LinkTwo(dzm: nat, whole: DZ, domain: int, dzm0: nat, dzm1: nat, ghost p: seq<DZ>)
      requires |p| == pool.Length && RunReady(p, [dzm], [dzm0, dzm1]) && dzm < |p| && whole == p[dzm]
      requires dzm0 < |p| && dzm1 < |p|
      requires forall z: nat :: z < |p| && z != dzm0 && z != dzm1 ==> pool[z] == p[z]
      modifies pool
      ensures |p| == pool.Length && NeighboursLinked(p, pool[..], {dzm, dzm0, dzm1}, whole.prev, dzm0, whole.next, dzm1)
      ensures pool[dzm0] == old(pool[dzm0]).(prev := whole.prev, next := dzm1, nextOwner := domain,
                                             prevOwner := whole.prevOwner)
      ensures pool[dzm1] == old(pool[dzm1]).(prev := dzm0, next := whole.next, nextOwner := whole.nextOwner,
                                             prevOwner := domain)
      ensures pool[dzm] == whole.(prev := NIL, next := NIL, valid := 0, mem := 0)
    {
      hide RunReady;
      ReadyApart(p, [dzm], [dzm0, dzm1]);
      assert [dzm][0] == dzm && [dzm0, dzm1][0] == dzm0 && [dzm0, dzm1][1] == dzm1;
      if whole.prev != NIL {
        pool[whole.prev] := pool[whole.prev].(next := dzm0);
      }
      pool[dzm0] := pool[dzm0].(prev := whole.prev, prevOwner := whole.prevOwner, next := dzm1, nextOwner := domain);
      pool[dzm1] := pool[dzm1].(prev := dzm0, prevOwner := domain, next := whole.next, nextOwner := whole.nextOwner);
      if whole.next != NIL {
        pool[whole.next] := pool[whole.next].(prev := dzm1);
      }
      pool[dzm] := pool[dzm].(prev := NIL, next := NIL, mem := 0, valid := 0);
    }

    /** dzmemory_join, with FREE_DZ on both pieces: dzm1 and its successor become one piece. */
    method DZJoin(dzm1: nat, dzm2: nat, ghost c: seq<nat>, ghost i: nat) returns (dzm: nat)
      requires Structure(Sh()) && freeList == FirstOf(spare) && |spare| >= 1
      requires c in chains && Live(pool[..], c) && i + 1 < |c| && c[i] == dzm1 && c[i + 1] == dzm2
      requires dzm1 < pool.Length && dzm2 < pool.Length && (pool[dzm1].refcount > 0 || pool[dzm2].refcount > 0)
      modifies this`freeList, this`spare, this`chains, pool
      ensures Structure(Sh()) && freeList == FirstOf(spare)
      ensures [dzm] == old(spare)[..1] && spare == old(spare)[1..]
      ensures chains == old(chains) - {c} + {c[..i] + [dzm] + c[i + 2..], [dzm1, dzm2]}
      ensures JoinPieces(old(pool[..]), pool[..], dzm1, dzm2, dzm)
      ensures Reshaped(old(pool[..]), pool[..], {dzm})
    {
      hide Structure, RunReady, Taken, Distinct, Live, LiveNode, JoinPieces, Replaced, Reshaped;
      ghost var s, ys := Sh(), spare[..1];
      assert c[i..i + 2] == [dzm1, dzm2];
      RunIsReady(s, c, i, i + 2, 1);
      PairOf(s, c, i);
      ValidTaken();
      dzm := MakeJoined(dzm1, dzm2);
      assert ys == [dzm];
      JoinReplaces(s.p, pool[..], dzm1, dzm2, dzm);
      RunReplaced(s, pool[..], c, i, i + 2, ys, {dzm});
      chains, spare := s.chains - {c} + {c[..i] + ys + c[i + 2..], [dzm1, dzm2]}, spare[1..];
    }

    method MakeJoined(dzm1: nat, dzm2: nat) returns (dzm: nat)
      requires Taken(0) && |spare| >= 1 && Distinct(spare) && dzm1 < pool.Length && dzm2 < pool.Length && dzm1 != dzm2
      requires RunReady(pool[..], [dzm1, dzm2], spare[..1])
      modifies this`freeList, pool
      ensures dzm == spare[0] && freeList == FirstOf(spare[1..])
      ensures JoinPieces(old(pool[..]), pool[..], dzm1, dzm2, dzm)
    {
      hide FreeLink, Distinct, RunReady;
      ReadyApart(pool[..], [dzm1, dzm2], spare[..1]);
      assert [dzm1, dzm2][0] == dzm1 && [dzm1, dzm2][1] == dzm2;
      dzm := CreateDZMemory(pool[dzm1].size + pool[dzm2].size, pool[dzm1].mem, 0);
      assert spare[..1] == [dzm];
      LinkJoined(dzm1, dzm2, dzm, old(pool[..]));
    }

    /** The links of dzmemory_join. */
    method LinkJoined(dzm1: nat, dzm2: nat, dzm: nat, ghost p: seq<DZ>)
      requires |p| == pool.Length && RunReady(p, [dzm1, dzm2], [dzm]) && dzm1 < |p| && dzm2 < |p| && dzm < |p| &&
               dzm1 != dzm2
      requires forall z: nat :: z < |p| && z != dzm ==> pool[z] == p[z]
      modifies pool
      ensures |p| == pool.Length &&
              NeighboursLinked(p, pool[..], {dzm1, dzm2, dzm}, p[dzm1].prev, dzm, p[dzm2].next, dzm)
      ensures pool[dzm] == old(pool[dzm]).(prev := p[dzm1].prev, prevOwner := p[dzm1].prevOwner, next := p[dzm2].next,
                                           nextOwner := p[dzm2].nextOwner)
      ensures pool[dzm1] == p[dzm1].(prev := NIL, valid := 0, mem := 0)
      ensures pool[dzm2] == p[dzm2].(next := NIL, valid := 0, mem := 0)
    {
      hide RunReady;
      ReadyApart(p, [dzm1, dzm2], [dzm]);
      assert [dzm1, dzm2][0] == dzm1 && [dzm1, dzm2][1] == dzm2 && [dzm][0] == dzm;
      if pool[dzm1].prev != NIL {
        pool[pool[dzm1].prev] := pool[pool[dzm1].prev].(next := dzm);
      }
      pool[dzm] := pool[dzm].(prev := pool[dzm1].prev, prevOwner := pool[dzm1].prevOwner);
      pool[dzm] := pool[dzm].(next := pool[dzm2].next, nextOwner := pool[dzm2].nextOwner);
      if pool[dzm2].next != NIL {
        pool[pool[dzm].next] := pool[pool[dzm].next].(prev := dzm);
      }
      pool[dzm1] := pool[dzm1].(prev := NIL, valid := 0, mem := 0);
      pool[dzm2] := pool[dzm2].(next := NIL, valid := 0, mem := 0);
    }

    /** The first loop of memory_joinAll: up to the top of the run that cdom owns. */
    method FindTop(dzmRef: nat, cdom: int, ghost c: seq<nat>, ghost k: nat) returns (dzmTop: nat)
      requires Structure(Sh()) && c in chains && Live(pool[..], c) && k < |c| && c[k] == dzmRef
      ensures RunStart(pool[..], c, k, cdom) <= k && dzmTop == c[RunStart(pool[..], c, k, cdom)]
    {
      hide Structure, Live;
      ghost var p := pool[..];
      ghost var t := k;
      dzmTop := dzmRef;
      LiveAt(Sh(), c, t);
      while pool[dzmTop].prev != NIL && pool[dzmTop].prevOwner == cdom
        invariant 0 <= t <= k && c[t] == dzmTop && dzmTop < pool.Length && NodeOk(p, c, t)
        invariant RunStart(p, c, t, cdom) == RunStart(p, c, k, cdom)
        decreases t
      {
        dzmTop := pool[dzmTop].prev;
        t := t - 1;
        LiveAt(Sh(), c, t);
      }
    }

    /** The second loop: the pieces down to the last one of the run are invalidated and their sizes
        added up.  dzmLast is null if the last boundary of the chain belongs to cdom, too. */
    method MarkRun(dzmTop: nat, cdom: int, ghost c: seq<nat>, ghost a: nat) returns (size: int, dzmLast: int)
      requires Structure(Sh()) && c in chains && Live(pool[..], c) && a < |c| && c[a] == dzmTop
      modifies pool
      ensures var p, b := old(pool[..]), RunEnd(old(pool[..]), c, a, cdom);
              a < b <= |c| && c[a] < |p| && c[b - 1] < |p| && size == p[c[b - 1]].End() - p[c[a]].mem &&
              (dzmLast == c[b - 1] || (dzmLast == NIL && p[c[b - 1]].next == NIL && p[c[b - 1]].nextOwner == cdom)) &&
              Marked(p, pool[..], c[a..b])
    {
      hide Structure, Live;
      ghost var s, p := Sh(), pool[..];
      ghost var j := a;
      size, dzmLast := 0, dzmTop;
      LiveAt(s, c, a);
      assert c[a..a] == [];
      var more := true;
      while more
        invariant a <= j <= |c| && Marked(p, pool[..], c[a..j])
        invariant c[a] < |p| && (j == a ==> size == 0)
        invariant j > a ==> c[j - 1] < |p| && size == p[c[j - 1]].End() - p[c[a]].mem
        invariant more ==> j < |c| && dzmLast == c[j] && c[j] < |p| && RunEnd(p, c, j, cdom) == RunEnd(p, c, a, cdom)
        invariant more && j > a ==> p[c[j - 1]].End() == p[c[j]].mem
        invariant !more ==> j > a && j == RunEnd(p, c, a, cdom)
        invariant !more ==>
                    dzmLast == c[j - 1] || (dzmLast == NIL && p[c[j - 1]].next == NIL && p[c[j - 1]].nextOwner == cdom)
        decreases |c| - j, if more then 1 else 0
      {
        LiveAt(s, c, j);
        MarkNext(p, pool[..], c, a, j);
        size := size + pool[dzmLast].size;
        pool[dzmLast] := pool[dzmLast].(valid := 0, mem := 0);
        if pool[dzmLast].nextOwner == cdom {
          dzmLast := pool[dzmLast].next;
          more := dzmLast != NIL;
        } else {
          more := false;
        }
        j := j + 1;
        if more {
          LiveAt(s, c, j);
        }
      }
    }

    /** memory_joinAll on pieces: the maximal run around dzmRef becomes one piece. */
    method DZJoinAll(dzmRef: nat, cdom: int, ghost c: seq<nat>, ghost k: nat) returns (dzmNew: nat)
      requires Structure(Sh()) && freeList == FirstOf(spare) && |spare| >= 1 && PieceOf(c, k, dzmRef)
      modifies this`freeList, this`spare, this`chains, pool
      ensures Structure(Sh()) && freeList == FirstOf(spare)
      ensures [dzmNew] == old(spare)[..1] && spare == old(spare)[1..]
      ensures var p, a, b := old(pool[..]), RunStart(old(pool[..]), c, k, cdom), RunEnd(old(pool[..]), c, k, cdom);
              a <= k < b <= |c| && chains == old(chains) - {c} + {c[..a] + [dzmNew] + c[b..], c[a..b]} &&
              Replaced(p, pool[..], c[a..b], [dzmNew])
      ensures Reshaped(old(pool[..]), pool[..], {dzmNew})
    {
      hide Structure, RunReady, Taken, Distinct, Live, LiveNode, Replaced, Reshaped, Marked, RunStart, RunEnd,
        RunCutOff, Held;
      ghost var s, ys, p := Sh(), spare[..1], pool[..];
      ghost var a, b := RunStart(p, c, k, cdom), RunEnd(p, c, k, cdom);
      RunAround(s, c, k, cdom);
      ValidTaken();
      var dzmTop := FindTop(dzmRef, cdom, c, k);
      var mem := pool[dzmTop].mem;
      var size, dzmLast := MarkRun(dzmTop, cdom, c, a);
      MarkedTaken(s, pool[..], c, a, b);
      TakenFrom();
      dzmNew := ReplaceMarked(dzmTop, dzmLast, size, mem, cdom, c[a..b], p);
      JoinAllStep(s, pool[..], c, a, b, dzmNew);
      chains, spare := s.chains - {c} + {c[..a] + [dzmNew] + c[b..], c[a..b]}, spare[1..];
    }

    /** The fresh piece is created and chained in, the marked run is cut off. */
    method ReplaceMarked(dzmTop: nat, dzmLast: int, size: int, mem: int, cdom: int, ghost run: seq<nat>,
                         ghost p: seq<DZ>)
      returns (dzmNew: nat)
      requires Taken(0) && |spare| >= 1 && Distinct(spare) && |p| == pool.Length && RunReady(p, run, spare[..1])
      requires Marked(p, pool[..], run) && Distinct(run) && run[0] == dzmTop
      requires dzmLast == run[|run| - 1] ||
               (dzmLast == NIL && p[run[|run| - 1]].next == NIL && p[run[|run| - 1]].nextOwner == cdom)
      modifies this`freeList, pool
      ensures dzmNew == spare[0] && freeList == FirstOf(spare[1..]) && dzmNew < |p| == pool.Length
      ensures var first, last := p[run[0]], p[run[|run| - 1]];
              NeighboursLinked(p, pool[..], NodesOf(run, [dzmNew]), first.prev, dzmNew, last.next, dzmNew) &&
              pool[dzmNew] == DZ(1, 1, mem, size, first.prev, last.next, first.prevOwner, last.nextOwner)
      ensures RunCutOff(p, pool[..], run)
    {
      hide FreeLink, Distinct, RunReady, NodesOf, RunCutOff;
      ReadyApart(p, run, spare[..1]);
      dzmNew := CreateDZMemory(size, mem, 0);
      assert spare[..1] == [dzmNew];
      LinkRun(dzmTop, dzmLast, dzmNew, cdom, run, p);
      LinkedRunNeighbours(p, pool[..], run, dzmNew);
    }

    /** The links of memory_joinAll. */
    method LinkRun(dzmTop: nat, dzmLast: int, dzmNew: nat, cdom: int, ghost run: seq<nat>, ghost p: seq<DZ>)
      requires |p| == pool.Length && RunReady(p, run, [dzmNew]) && dzmNew < |p| && Distinct(run) && run[0] == dzmTop
      requires dzmLast == run[|run| - 1] ||
               (dzmLast == NIL && p[run[|run| - 1]].next == NIL && p[run[|run| - 1]].nextOwner == cdom)
      requires Marked(p, pool[..][dzmNew := p[dzmNew]], run) && pool[dzmNew].prev == NIL == pool[dzmNew].next
      modifies pool
      ensures |p| == pool.Length && LinkedRun(p, pool[..], run, dzmNew)
      ensures pool[dzmNew] == old(pool[dzmNew]).(prev := p[run[0]].prev, prevOwner := p[run[0]].prevOwner,
                                                 next := p[run[|run| - 1]].next,
                                                   nextOwner := p[run[|run| - 1]].nextOwner)
    {
      hide RunReady, Distinct;
      ReadyApart(p, run, [dzmNew]);
      assert [dzmNew][0] == dzmNew && run[0] < |p| && run[|run| - 1] < |p|;
      if pool[dzmTop].prev != NIL {
        pool[pool[dzmTop].prev] := pool[pool[dzmTop].prev].(next := dzmNew);
      }
      pool[dzmNew] := pool[dzmNew].(prev := pool[dzmTop].prev, prevOwner := pool[dzmTop].prevOwner);
      pool[dzmTop] := pool[dzmTop].(prev := NIL);
      if dzmLast != NIL {
        pool[dzmNew] := pool[dzmNew].(next := pool[dzmLast].next, nextOwner := pool[dzmLast].nextOwner);
        if pool[dzmLast].next != NIL {
          pool[pool[dzmLast].next] := pool[pool[dzmLast].next].(prev := dzmNew);
        }
        pool[dzmLast] := pool[dzmLast].(next := NIL);
      } else {
        pool[dzmNew] := pool[dzmNew].(next := NIL, nextOwner := cdom);
      }
    }

    // ----- giving a chain back -----------------------------------------------------------------------

    method FreeDZ(dzm: nat)
      requires dzm < pool.Length
      modifies this`freeList, pool
      ensures freeList == dzm && pool[..] == old(pool[..])[dzm := old(pool[dzm]).(valid := 2, next := old(freeList))]
    {
      pool[dzm] := pool[dzm].(valid := 2);
      pool[dzm] := pool[dzm].(next := freeList);
      freeList := dzm;
    }

    /** Reference counts from dzm to the end of its chain. */
    method TailHeld(dzm: nat, ghost c: seq<nat>, ghost k: nat) returns (held: bool)
      requires ChainAt(pool[..], c, spare) && k < |c| && c[k] == dzm
      ensures held <==> exists i :: k <= i < |c| && c[i] < pool.Length && pool[c[i]].refcount > 0
    {
      var nextObj: int := dzm;
      ghost var j := k;
      while nextObj != NIL
        invariant k <= j <= |c| && nextObj == if j < |c| then c[j] else NIL
        invariant forall i :: k <= i < j ==> c[i] < pool.Length && pool[c[i]].refcount == 0
        decreases |c| - j
      {
        assert NodeOk(pool[..], c, j);
        if pool[nextObj].refcount != 0 {
          return true;
        }
        nextObj := pool[nextObj].next;
        j := j + 1;
      }
      held := false;
    }

    /** Up to the head of the chain, unless a reference is found on the way. */
    method FindHead(dzm: nat, ghost c: seq<nat>, ghost k: nat) returns (held: bool, head: nat)
      requires ChainAt(pool[..], c, spare) && k < |c| && c[k] == dzm
      ensures held <==> exists i :: 0 <= i < k && c[i] < pool.Length && pool[c[i]].refcount > 0
      ensures !held ==> head == c[0] && head < pool.Length
    {
      head := dzm;
      ghost var j := k;
      assert NodeOk(pool[..], c, j);
      while pool[head].prev != NIL
        invariant 0 <= j <= k && head == c[j] && head < pool.Length && NodeOk(pool[..], c, j)
        invariant forall i :: j <= i < k ==> c[i] < pool.Length && pool[c[i]].refcount == 0
        decreases j
      {
        assert NodeOk(pool[..], c, j - 1);
        head := pool[head].prev;
        j := j - 1;
        if pool[head].refcount != 0 {
          return true, head;
        }
      }
      held := false;
    }

    /** All pieces but the head go to the free list, their sizes are added to the head. */
    method FreeTail(dzm: nat, ghost c: seq<nat>)
      requires ChainAt(pool[..], c, spare) && c[0] == dzm && dzm < pool.Length && FreeList(pool[..], spare) &&
               freeList == FirstOf(spare)
      requires forall i :: 0 <= i < |c| ==> c[i] < pool.Length && pool[c[i]].refcount == 0
      modifies this`freeList, pool
      ensures TailFreed(old(pool[..]), pool[..], c, |c|, spare) && freeList == FirstOf(Stacked(c, |c|) + spare)
    {
      hide FreeNode, FreeList;
      ghost var p, n := pool[..], 1;
      assert NodeOk(p, c, 0);
      assert Stacked(c, 1) + spare == spare;
      assert Sizes(p, c, 0) == 0 && Sizes(p, c, 1) == p[c[0]].size;
      var nextObj := pool[dzm].next;
      while nextObj != NIL
        invariant 1 <= n <= |c| && nextObj == if n < |c| then c[n] else NIL
        invariant TailFreed(p, pool[..], c, n, spare) && freeList == FirstOf(Stacked(c, n) + spare)
        decreases |c| - n
      {
        assert NodeOk(p, c, n);
        nextObj := FreePiece(dzm, nextObj, p, c, n);
        n := n + 1;
      }
    }

    method FreePiece(dzm: nat, piece: nat, ghost p: seq<DZ>, ghost c: seq<nat>, ghost n: nat) returns (nextObj: int)
      requires |p| == pool.Length && TailFreed(p, pool[..], c, n, spare) && n < |c| && c[0] == dzm && c[n] == piece &&
               dzm < |p| && piece < |p|
      requires ChainAt(p, c, spare) && NodeOk(p, c, n) && p[piece].refcount == 0 &&
               freeList == FirstOf(Stacked(c, n) + spare)
      modifies this`freeList, pool
      ensures nextObj == p[piece].next && TailFreed(p, pool[..], c, n + 1, spare) &&
              freeList == FirstOf(Stacked(c, n + 1) + spare)
    {
      hide FreeList;
      ghost var q := pool[..];
      assert piece !in c[..n] && c[0] in c && c[n] in c;
      pool[dzm] := pool[dzm].(size := pool[dzm].size + pool[piece].size);
      pool[piece] := pool[piece].(prev := NIL, mem := 0, size := 0);
      nextObj := pool[piece].next;
      pool[piece] := pool[piece].(next := NIL);
      FreeDZ(piece);
      TailFreedNext(p, q, pool[..], c, n, spare);
    }

    /** dzmemory_free_chunk: the whole chain goes back if nothing refers to any of its pieces. */
    method FreeChunk(dzm: nat, ghost s: Shape, ghost c: seq<nat>, ghost k: nat) returns (freed: bool)
      requires Structure(s) && c in s.chains && k < |c| && c[k] == dzm && dzm < |s.p| == pool.Length
      requires pool[..] == s.p[dzm := s.p[dzm].(refcount := 0)] && spare == s.free && freeList == FirstOf(spare)
      modifies this`freeList, this`released, pool
      ensures freed <==> !Held(old(pool[..]), c)
      ensures !freed ==> pool[..] == old(pool[..]) && freeList == old(freeList) && released == old(released)
      ensures freed ==>
                ChainFreed(s, pool[..], c, [c[0]] + Stacked(c, |c|)) &&
                freeList == FirstOf([c[0]] + Stacked(c, |c|) + spare)
      ensures freed ==> released == old(released) + if Live(s.p, c) then [BlockOf(s.p, c)] else []
    {
      hide Structure, ChainAt, FreeList, ChainFreed, TailFreed, Live, BlockOf;
      ChainIsAt(s, pool[..], c, k);
      freed := false;
      var held := TailHeld(dzm, c, k);
      if held {
        return;
      }
      var head := dzm;
      if pool[dzm].prev != NIL || pool[dzm].next != NIL {
        held, head := FindHead(dzm, c, k);
        if held {
          return;
        }
      } else {
        AloneInChain(pool[..], c, spare, k);
      }
      freed := true;
      FreeAll(head, s, c, k);
    }

    method FreeAll(dzm: nat, ghost s: Shape, ghost c: seq<nat>, ghost k: nat)
      requires Structure(s) && c in s.chains && k < |c| && c[k] < |s.p| == pool.Length && c[0] == dzm &&
               dzm < pool.Length
      requires pool[..] == s.p[c[k] := s.p[c[k]].(refcount := 0)] && spare == s.free && freeList == FirstOf(spare)
      requires !Held(pool[..], c)
      modifies this`freeList, this`released, pool
      ensures ChainFreed(s, pool[..], c, [c[0]] + Stacked(c, |c|)) &&
              freeList == FirstOf([c[0]] + Stacked(c, |c|) + spare)
      ensures released == old(released) + if Live(s.p, c) then [BlockOf(s.p, c)] else []
    {
      hide Structure, ChainAt, FreeList, ChainFreed, Live, BlockOf;
      ghost var p := pool[..];
      ChainIsAt(s, p, c, k);
      NobodyHolds(p, c, spare);
      FreeTail(dzm, c);
      ghost var q := pool[..];
      TailIsFreed(s, p, q, c, k);
      pool[dzm] := pool[dzm].(next := NIL);
      if pool[dzm].mem != 0 {
        released := released + [Block(pool[dzm].mem, pool[dzm].size)];
        pool[dzm] := pool[dzm].(mem := 0);
      }
      FreeDZ(dzm);
      HeadFreed(s, p, q, pool[..], c, k);
    }

    // ----- memory proxies ------------------------------------------------------------------------------

    /** internalallocMemoryProxyInDomain: a new proxy takes a reference that is owed. */
    method AllocProxy(dzm: nat, ghost owed: set<nat>) returns (obj: MemoryProxy)
      requires ValidOwing(owed) && dzm < pool.Length && dzm in owed
      modifies this`proxies, this`nextProxy
      ensures ValidOwing(owed - {dzm})
      ensures obj == ProxyOf(pool[..], dzm)
      ensures proxies == old(proxies)[old(nextProxy) := obj] && nextProxy == old(nextProxy) + 1
    {
      hide Structure, Owing, Balanced;
      obj := MemoryProxy(pool[dzm].size, pool[dzm].mem, dzm);
      OwedProxy(pool[..], proxies, nextProxy, pinned, owed, dzm);
      PayProxy(pool[..], proxies, nextProxy, pinned, owed, obj);
      proxies := proxies[nextProxy := obj];
      nextProxy := nextProxy + 1;
    }

    /** allocMemoryProxyInDomain for memory that comes from the request q to jxmalloc. */
    method AllocMemory(start: int, size: int, ghost q: Request) returns (obj: MemoryProxy)
      requires Valid() && |spare| >= 1 && start > 0 && size >= 0 && q.Covered() == Block(start, size)
      requires Block(start, size) !in blocks && forall b :: b in blocks ==> Apart(Block(start, size), b)
      modifies this, pool
      ensures Valid() && Bk() == Asked(old(Bk()), q) && pinned == old(pinned)
      ensures obj == MemoryProxy(size, start, old(spare)[0])
      ensures proxies == old(proxies)[old(nextProxy) := obj] && nextProxy == old(nextProxy) + 1
      ensures chains == old(chains) + {[old(spare)[0]]} && spare == old(spare)[1..]
      ensures old(spare)[0] < pool.Length
      ensures pool[..] == old(pool[..])[old(spare)[0] := DZ(1, 1, start, size, NIL, NIL, 0, 0)]
    {
      hide Structure, Owing, Taken, Apart, Balanced, AlignedStart;
      ghost var s, b, bk := Sh(), Block(start, size), Bk();
      ValidTaken();
      var dzm := CreateDZMemory(size, start, 0);
      AfterCreate(s, pool[..], b, proxies, nextProxy, pinned);
      TakenNodes(1);
      AskedBalanced(bk, q);
      spare, chains, blocks, open, granted := spare[1..], chains + {[dzm]}, blocks + {b}, open + {q},
        granted + multiset{q};
      assert Bk() == Asked(bk, q);
      obj := AllocProxy(dzm, {dzm});
      assert {dzm} - {dzm} == {};
    }

    lemma TakenNodes(n: nat)
      requires Taken(n)
      ensures n <= |spare| && freeList == FirstOf(spare[n..])
    {
    }

    /** createMemoryInstance: d is what jxmalloc(size + bytes - 1) has returned. */
    method CreateMemory(d: int, size: int, bytes: int) returns (obj: MemoryProxy)
      requires Valid() && |spare| >= 1 && d > 0 && size >= 0 && bytes >= 1
      requires forall b :: b in blocks ==> Apart(Request(d, size, bytes).Granted(), b)
      requires Request(d, size, bytes).Covered() !in blocks
      modifies this, pool
      ensures Valid() && Bk() == Asked(old(Bk()), Request(d, size, bytes)) && pinned == old(pinned)
      ensures proxies == old(proxies)[old(nextProxy) := obj] && nextProxy == old(nextProxy) + 1
      ensures var start := AlignedStart(d, bytes); var y := old(spare)[0];
              start % bytes == 0 && d <= start && start + size <= d + (size + bytes - 1) &&
              obj == MemoryProxy(size, start, y) &&
              chains == old(chains) + {[y]} && spare == old(spare)[1..] &&
              y < pool.Length && pool[..] == old(pool[..])[y := DZ(1, 1, start, size, NIL, NIL, 0, 0)]
    {
      hide Valid;
      AlignedInside(d, size, bytes);
      var start := d;
      if bytes > 1 {
        var rem := d % bytes;
        if rem > 0 {
          start := d + bytes - rem;
        }
      }
      obj := AllocMemory(start, size, Request(d, size, bytes));
    }

    /** copy_memory: a proxy for the same piece in another domain. */
    method CopyMemory(src: int, dst: int, obj: MemoryProxy, ghost id: nat) returns (copy: MemoryProxy)
      requires Valid() && IsProxy(id, obj)
      modifies this, pool
      ensures Valid() && Bk() == old(Bk()) && pinned == old(pinned) && chains == old(chains) && spare == old(spare)
      ensures src == dst ==> copy == obj && proxies == old(proxies) && pool[..] == old(pool[..])
      ensures obj.dz < pool.Length
      ensures src != dst ==> var x := obj.dz;
              pool[..] == old(pool[..])[x := old(pool[..])[x].(refcount := old(pool[..])[x].refcount + 1)] &&
              copy == ProxyOf(pool[..], x) && proxies == old(proxies)[old(nextProxy) := copy] &&
              nextProxy == old(nextProxy) + 1
    {
      hide Structure, Owing, Balanced;
      var x := obj.dz;
      ghost var s := Sh();
      ProxyHolds(s.p, proxies, nextProxy, pinned, {}, id);
      if src == dst {
        return obj;
      }
      CopyKeepsRefs(s.p, proxies, nextProxy, pinned, x);
      IncKeepsStructure(s, x);
      copy := MemoryProxy(pool[x].size, pool[x].mem, x);
      proxies := proxies[nextProxy := copy];
      nextProxy := nextProxy + 1;
      pool[x] := pool[x].(refcount := pool[x].refcount + 1);
      assert pool[..] == s.p[x := s.p[x].(refcount := s.p[x].refcount + 1)];
    }

    /** memory_deleted: the proxy id, for the piece x, is gone.  Its chain goes back exactly if this was
        the last reference to any of its pieces.  Fresh pieces may still wait for their proxies. */
    method MemoryDeleted(x: nat, ghost id: nat, ghost owed: set<nat>) returns (freed: bool, ghost c: seq<nat>)
      requires ValidOwing(owed) && id in proxies && proxies[id].dz == x
      modifies this, pool
      ensures ValidOwing(owed) && proxies == old(proxies) - {id} && nextProxy == old(nextProxy)
      ensures pinned == old(pinned) && granted == old(granted)
      ensures freed <==> forall y: nat :: y in c ==> Refs(proxies, y) + Pin(pinned, y) + Pin(owed, y) == 0
      ensures Dropped(old(Sh()), Sh(), old(Bk()), Bk(), freed, c, x)
      ensures OwedKept(old(pool[..]), pool[..], owed)
    {
      hide Structure, Owing, Dropped, Pin, Refs, Held, Balanced, OwedKept;
      ghost var s, k := Sh(), 0;
      c, k := ChainOfProxy(s, proxies, nextProxy, pinned, owed, id);
      proxies := proxies - {id};
      pool[x] := pool[x].(refcount := pool[x].refcount - 1);
      assert pool[..] == s.p[x := s.p[x].(refcount := s.p[x].refcount - 1)];
      freed := DecRefcount(x, s, c, k, owed);
      DroppedOwed(s, Sh(), old(Bk()), Bk(), freed, c, x, proxies, pinned, owed);
    }

    /** dzmemory_decRefcount after the count has been lowered. */
    method DecRefcount(x: nat, ghost s: Shape, ghost c: seq<nat>, ghost k: nat, ghost owed: set<nat>)
      returns (freed: bool)
      requires Structure(s) && c in s.chains && k < |c| && c[k] == x && x < |s.p| == pool.Length && s.p[x].refcount > 0
      requires Sh() == s.(p := s.p[x := s.p[x].(refcount := s.p[x].refcount - 1)]) && freeList == FirstOf(spare)
      requires Owing(pool[..], proxies, nextProxy, pinned, owed) && Balanced(Bk())
      modifies this`freeList, this`released, this`spare, this`chains, this`blocks, this`open, this`served, pool
      ensures ValidOwing(owed)
      ensures freed <==> forall y: nat :: y in c ==> Refs(proxies, y) + Pin(pinned, y) + Pin(owed, y) == 0
      ensures Dropped(s, Sh(), old(Bk()), Bk(), freed, c, x)
    {
      hide Structure, Owing, Dropped, Live, BlockOf, ChainFreed, Held, Pin, Refs, Balanced, RequestOf;
      ghost var p, bk := pool[..], Bk();
      HeldCounts(s, p, proxies, nextProxy, pinned, owed, c);
      freed := false;
      if pool[x].refcount == 0 {
        freed := FreeChunk(x, s, c, k);
      } else {
        HeldBy(p, c, k);
      }
      if freed {
        ghost var pre, bk' := [c[0]] + Stacked(c, |c|), AfterChain(s, bk, c);
        AfterFreeing(s, p, pool[..], proxies, nextProxy, pinned, owed, c, k, pre, bk);
        spare, chains, blocks, open, served := pre + spare, chains - {c}, bk'.blocks, bk'.open, bk'.served;
        assert Bk() == bk';
      } else {
        CountDropped(s, c, k);
        StillHeld(s, bk, c, k);
      }
    }

    /** The finalizer calls of a collection: the proxies ids, for the pieces dzs, are gone. */
    method FinalizeProxies(dzs: seq<int>, ghost ids: seq<nat>, ghost owed: set<nat>)
      requires ValidOwing(owed) && |ids| == |dzs| && forall i :: 0 <= i < |ids| ==>
                 ids[i] in proxies && proxies[ids[i]].dz == dzs[i]
      requires forall i, j :: 0 <= i < j < |ids| ==> ids[i] != ids[j]
      modifies this, pool
      ensures ValidOwing(owed) && proxies == old(proxies) - Members(ids) && nextProxy == old(nextProxy)
      ensures pinned == old(pinned) && granted == old(granted) && OwedKept(old(pool[..]), pool[..], owed)
    {
      hide ValidOwing, Dropped, Refs, Pin;
      var i := 0;
      while i < |dzs|
        invariant 0 <= i <= |dzs| && ValidOwing(owed) && pinned == old(pinned) && granted == old(granted) &&
                  nextProxy == old(nextProxy)
        invariant proxies == old(proxies) - Members(ids[..i]) && OwedKept(old(pool[..]), pool[..], owed)
      {
        assert ids[..i + 1] == ids[..i] + [ids[i]];
        var freed, c := MemoryDeleted(dzs[i], ids[i], owed);
        i := i + 1;
      }
      assert ids[..i] == ids;
    }

    // ----- split and join on memory objects ------------------------------------------------------------

    /** Nothing that the manager keeps has changed. */
    ghost predicate Same(t: Shape, proxies': map<nat, MemoryProxy>)
      reads this, pool
    {
      Sh() == t && proxies == proxies'
    }

    /** CHECKVALID and the chain of a valid piece. */
    method CheckValid(self: MemoryProxy, ghost id: nat) returns (ok: bool, ghost c: seq<nat>, ghost k: nat)
      requires Valid() && IsProxy(id, self)
      ensures self.dz < pool.Length && (ok <==> pool[self.dz].valid != 0) && c in chains && k < |c| && c[k] == self.dz
      ensures ok ==> Live(pool[..], c) && PieceOf(c, k, self.dz)
    {
      hide Structure, Owing, Live, Balanced;
      c, k := ChainOfProxy(Sh(), proxies, nextProxy, pinned, {}, id);
      ok := pool[self.dz].valid != 0;
    }

    /** memory_split3; arr is the size of the array for the results, -1 for a null array. */
    method Split3(self: MemoryProxy, offset: int, len: int, arr: int, domain: int, ghost id: nat)
      returns (out: Outcome, mem0: MemoryProxy, mem1: MemoryProxy, mem2: MemoryProxy, ghost c: seq<nat>, ghost k: nat)
      requires Valid() && IsProxy(id, self) && |spare| >= 3
      modifies this, pool
      ensures Valid() && Bk() == old(Bk()) && pinned == old(pinned)
      ensures out != Done ==> Same(old(Sh()), old(proxies)) && nextProxy == old(nextProxy)
      ensures self.dz < pool.Length && c in old(chains) && k < |c| && c[k] == self.dz
      ensures var d := old(pool[..])[self.dz];
              out == (if d.valid == 0 then InvalidMemory else if arr < 3 then ArrayOutOfBounds
                      else if offset < 0 || len < 0 || offset + len > d.size then IndexOutOfBounds else Done)
      ensures out == Done ==> [mem0.dz, mem1.dz, mem2.dz] == old(spare)[..3] && spare == old(spare)[3..]
      ensures out == Done ==>
                Split3Pieces(old(pool[..]), pool[..], self.dz, offset, len, domain, mem0.dz, mem1.dz, mem2.dz)
      ensures out == Done ==>
                chains == old(chains) - {c} + {c[..k] + [mem0.dz, mem1.dz, mem2.dz] + c[k + 1..], [self.dz]}
      ensures out == Done ==> NewProxies(pool[..], old(proxies), old(nextProxy), proxies, nextProxy, [mem0, mem1, mem2])
      ensures out == Done ==> var d := old(pool[..])[self.dz];
              mem0.mem == d.mem && mem0.size == offset && mem1.mem == d.mem + offset && mem1.size == len &&
              mem2.mem == d.mem + offset + len && mem2.size == d.size - offset - len
    {
      hide Structure, Owing, Live, Split3Pieces, PieceOf, ProxyOf, Balanced, NewProxies;
      ghost var p := pool[..];
      mem0, mem1, mem2 := NO_PROXY, NO_PROXY, NO_PROXY;
      var ok;
      ok, c, k := CheckValid(self, id);
      if !ok {
        return InvalidMemory, mem0, mem1, mem2, c, k;
      }
      if arr < 3 {
        return ArrayOutOfBounds, mem0, mem1, mem2, c, k;
      }
      var r;
      r, mem0, mem1, mem2 := SplitObject3(self.dz, offset, len, domain, c, k);
      if r == 0 {
        Split3Objects(p, pool[..], self.dz, offset, len, domain, old(proxies), old(nextProxy), proxies, nextProxy, mem0,
                      mem1, mem2);
      }
      out := if r == 0 then Done else IndexOutOfBounds;
    }

    method SplitObject3(x: nat, offset: int, len: int, domain: int, ghost c: seq<nat>, ghost k: nat)
      returns (r: int, mem0: MemoryProxy, mem1: MemoryProxy, mem2: MemoryProxy)
      requires Valid() && |spare| >= 3 && PieceOf(c, k, x) && x < pool.Length
      modifies this, pool
      ensures Valid() && Bk() == old(Bk()) && pinned == old(pinned)
      ensures (r == -1 || r == 0) && (r == -1 <==> offset < 0 || len < 0 || offset + len > old(pool[x].size))
      ensures r == -1 ==> Same(old(Sh()), old(proxies)) && nextProxy == old(nextProxy)
      ensures r == 0 ==> [mem0.dz, mem1.dz, mem2.dz] == old(spare)[..3] && spare == old(spare)[3..]
      ensures r == 0 ==> Split3Pieces(old(pool[..]), pool[..], x, offset, len, domain, mem0.dz, mem1.dz, mem2.dz)
      ensures r == 0 ==> chains == old(chains) - {c} + {c[..k] + [mem0.dz, mem1.dz, mem2.dz] + c[k + 1..], [x]}
      ensures r == 0 ==> NewProxies(pool[..], old(proxies), old(nextProxy), proxies, nextProxy, [mem0, mem1, mem2])
    {
      hide Structure, Owing, Live, Reshaped, Split3Pieces, PieceOf, ProxyOf, Distinct, Balanced, NewProxies;
      ghost var s := Sh();
      FirstApart(s);
      var dzm0, dzm1, dzm2;
      mem0, mem1, mem2 := NO_PROXY, NO_PROXY, NO_PROXY;
      r, dzm0, dzm1, dzm2 := DZSplit3(x, offset, len, domain, c, k);
      if r == 0 {
        assert dzm0 == [dzm0, dzm1, dzm2][0] && dzm1 == [dzm0, dzm1, dzm2][1] && dzm2 == [dzm0, dzm1, dzm2][2];
        ReshapedOwes(s.p, pool[..], proxies, nextProxy, pinned, {dzm0, dzm1, dzm2});
        Split3Nodes(s.p, pool[..], x, offset, len, domain, dzm0, dzm1, dzm2);
        mem0, mem1, mem2 := ThreeProxies(dzm0, dzm1, dzm2);
        FreeDZMem(x);
      }
    }

    method ThreeProxies(dzm0: nat, dzm1: nat, dzm2: nat)
      returns (mem0: MemoryProxy, mem1: MemoryProxy, mem2: MemoryProxy)
      requires ValidOwing({dzm0, dzm1, dzm2})
      requires dzm0 < pool.Length && dzm1 < pool.Length && dzm2 < pool.Length && dzm0 != dzm1 && dzm1 != dzm2 &&
               dzm0 != dzm2
      modifies this`proxies, this`nextProxy
      ensures Valid() && mem0.dz == dzm0 && mem1.dz == dzm1 && mem2.dz == dzm2
      ensures NewProxies(pool[..], old(proxies), old(nextProxy), proxies, nextProxy, [mem0, mem1, mem2])
    {
      hide ValidOwing;
      mem0 := AllocProxy(dzm0, {dzm0, dzm1, dzm2});
      assert {dzm0, dzm1, dzm2} - {dzm0} == {dzm1, dzm2};
      mem1 := AllocProxy(dzm1, {dzm1, dzm2});
      assert {dzm1, dzm2} - {dzm1} == {dzm2};
      mem2 := AllocProxy(dzm2, {dzm2});
      assert {dzm2} - {dzm2} == {};
      AddedThree(old(proxies), old(nextProxy), mem0, mem1, mem2);
    }

    /** memory_split2. */
    method Split2(self: MemoryProxy, offset: int, arr: int, domain: int, ghost id: nat)
      returns (out: Outcome, mem0: MemoryProxy, mem1: MemoryProxy, ghost c: seq<nat>, ghost k: nat)
      requires Valid() && IsProxy(id, self) && |spare| >= 2
      modifies this, pool
      ensures Valid() && Bk() == old(Bk()) && pinned == old(pinned)
      ensures out != Done ==> Same(old(Sh()), old(proxies)) && nextProxy == old(nextProxy)
      ensures self.dz < pool.Length && c in old(chains) && k < |c| && c[k] == self.dz
      ensures var d := old(pool[..])[self.dz];
              out == (if d.valid == 0 then InvalidMemory else if arr < 2 then ArrayOutOfBounds
                      else if offset < 0 || offset > d.size then IndexOutOfBounds else Done)
      ensures out == Done ==> [mem0.dz, mem1.dz] == old(spare)[..2] && spare == old(spare)[2..]
      ensures out == Done ==> Split2Pieces(old(pool[..]), pool[..], self.dz, offset, domain, mem0.dz, mem1.dz)
      ensures out == Done ==> chains == old(chains) - {c} + {c[..k] + [mem0.dz, mem1.dz] + c[k + 1..], [self.dz]}
      ensures out == Done ==> NewProxies(pool[..], old(proxies), old(nextProxy), proxies, nextProxy, [mem0, mem1])
      ensures out == Done ==> var d := old(pool[..])[self.dz];
              mem0.mem == d.mem && mem0.size == offset && mem1.mem == d.mem + offset && mem1.size == d.size - offset
    {
      hide Structure, Owing, Live, Split2Pieces, PieceOf, ProxyOf, Balanced, NewProxies;
      ghost var p := pool[..];
      mem0, mem1 := NO_PROXY, NO_PROXY;
      var ok;
      ok, c, k := CheckValid(self, id);
      if !ok {
        return InvalidMemory, mem0, mem1, c, k;
      }
      if arr < 2 {
        return ArrayOutOfBounds, mem0, mem1, c, k;
      }
      var r;
      r, mem0, mem1 := SplitObject2(self.dz, offset, domain, c, k);
      if r == 0 {
        Split2Objects(p, pool[..], self.dz, offset, domain, old(proxies), old(nextProxy), proxies, nextProxy, mem0,
                      mem1);
      }
      out := if r == 0 then Done else IndexOutOfBounds;
    }

    method SplitObject2(x: nat, offset: int, domain: int, ghost c: seq<nat>, ghost k: nat)
      returns (r: int, mem0: MemoryProxy, mem1: MemoryProxy)
      requires Valid() && |spare| >= 2 && PieceOf(c, k, x) && x < pool.Length
      modifies this, pool
      ensures Valid() && Bk() == old(Bk()) && pinned == old(pinned)
      ensures (r == -1 || r == 0) && (r == -1 <==> offset < 0 || offset > old(pool[x].size))
      ensures r == -1 ==> Same(old(Sh()), old(proxies)) && nextProxy == old(nextProxy)
      ensures r == 0 ==> [mem0.dz, mem1.dz] == old(spare)[..2] && spare == old(spare)[2..]
      ensures r == 0 ==> Split2Pieces(old(pool[..]), pool[..], x, offset, domain, mem0.dz, mem1.dz)
      ensures r == 0 ==> chains == old(chains) - {c} + {c[..k] + [mem0.dz, mem1.dz] + c[k + 1..], [x]}
      ensures r == 0 ==> NewProxies(pool[..], old(proxies), old(nextProxy), proxies, nextProxy, [mem0, mem1])
    {
      hide Structure, Owing, Live, Reshaped, Split2Pieces, PieceOf, ProxyOf, Distinct, Balanced, NewProxies;
      ghost var s := Sh();
      FirstApart(s);
      var dzm0, dzm1;
      mem0, mem1 := NO_PROXY, NO_PROXY;
      r, dzm0, dzm1 := DZSplit2(x, offset, domain, c, k);
      if r == 0 {
        assert dzm0 == [dzm0, dzm1][0] && dzm1 == [dzm0, dzm1][1];
        ReshapedOwes(s.p, pool[..], proxies, nextProxy, pinned, {dzm0, dzm1});
        Split2Nodes(s.p, pool[..], x, offset, domain, dzm0, dzm1);
        mem0, mem1 := TwoProxies(dzm0, dzm1);
        FreeDZMem(x);
      }
    }

    method TwoProxies(dzm0: nat, dzm1: nat) returns (mem0: MemoryProxy, mem1: MemoryProxy)
      requires ValidOwing({dzm0, dzm1})
      requires dzm0 < pool.Length && dzm1 < pool.Length && dzm0 != dzm1
      modifies this`proxies, this`nextProxy
      ensures Valid() && mem0.dz == dzm0 && mem1.dz == dzm1
      ensures NewProxies(pool[..], old(proxies), old(nextProxy), proxies, nextProxy, [mem0, mem1])
    {
      hide ValidOwing;
      mem0 := AllocProxy(dzm0, {dzm0, dzm1});
      assert {dzm0, dzm1} - {dzm0} == {dzm1};
      mem1 := AllocProxy(dzm1, {dzm1});
      assert {dzm1} - {dzm1} == {};
      AddedTwo(old(proxies), old(nextProxy), mem0, mem1);
    }

    /** memory_joinPrevious: the piece and its predecessor, whose common boundary must belong to cdom. */
    method JoinPrevious(self: MemoryProxy, cdom: int, ghost id: nat)
      returns (out: Outcome, newMem: MemoryProxy, ghost c: seq<nat>, ghost k: nat)
      requires Valid() && IsProxy(id, self) && |spare| >= 1
      modifies this, pool
      ensures Valid() && Bk() == old(Bk()) && pinned == old(pinned)
      ensures out != Done ==> Same(old(Sh()), old(proxies)) && nextProxy == old(nextProxy)
      ensures self.dz < pool.Length && c in old(chains) && k < |c| && c[k] == self.dz
      ensures var d := old(pool[..])[self.dz];
              out == (if d.valid == 0 then InvalidMemory else if d.prevOwner != cdom ||
                      d.prev == NIL then Panic else Done)
      ensures out == Done ==> k > 0 && Joined(old(Sh()), Sh(), c, k - 1, newMem.dz)
      ensures out == Done ==> var p, d := old(pool[..]), old(pool[..])[self.dz];
              0 <= d.prev < |p| && newMem.mem == p[d.prev].mem && newMem.size == p[d.prev].size + d.size
      ensures out == Done ==> NewProxies(pool[..], old(proxies), old(nextProxy), proxies, nextProxy, [newMem])
    {
      hide Structure, Owing, Live, JoinPieces, ProxyOf, Balanced, NewProxies;
      newMem := NO_PROXY;
      var ok;
      ok, c, k := CheckValid(self, id);
      if !ok {
        return InvalidMemory, newMem, c, k;
      }
      var dzmThis := self.dz;
      if pool[dzmThis].prevOwner != cdom {
        return Panic, newMem, c, k;
      }
      var dzmPrev := pool[dzmThis].prev;
      if dzmPrev == NIL {
        return Panic, newMem, c, k;
      }
      Neighbours(Sh(), c, k);
      newMem := JoinObjects(dzmPrev, dzmThis, c, k - 1);
      JoinedObject(old(Sh()), Sh(), c, k - 1, old(proxies), old(nextProxy), proxies, nextProxy, newMem);
      out := Done;
    }

    method JoinObjects(dzm1: nat, dzm2: nat, ghost c: seq<nat>, ghost i: nat) returns (newMem: MemoryProxy)
      requires Valid() && |spare| >= 1
      requires c in chains && Live(pool[..], c) && i + 1 < |c| && c[i] == dzm1 && c[i + 1] == dzm2
      requires dzm1 < pool.Length && dzm2 < pool.Length && (pool[dzm1].refcount > 0 || pool[dzm2].refcount > 0)
      modifies this, pool
      ensures Valid() && Bk() == old(Bk()) && pinned == old(pinned)
      ensures Joined(old(Sh()), Sh(), c, i, newMem.dz)
      ensures NewProxies(pool[..], old(proxies), old(nextProxy), proxies, nextProxy, [newMem])
    {
      hide Structure, Owing, Live, Reshaped, JoinPieces, ProxyOf, Balanced, NewProxies;
      ghost var p := pool[..];
      assert c[i..i + 2] == [dzm1, dzm2];
      var dzmNew := DZJoin(dzm1, dzm2, c, i);
      assert dzmNew == [dzmNew][0];
      ReshapedOwes(p, pool[..], proxies, nextProxy, pinned, {dzmNew});
      JoinNodes(p, pool[..], dzm1, dzm2, dzmNew);
      FreeDZMem(dzm1);
      FreeDZMem(dzm2);
      newMem := OneProxy(dzmNew);
    }

    method OneProxy(dzm: nat) returns (newMem: MemoryProxy)
      requires ValidOwing({dzm}) && dzm < pool.Length
      modifies this`proxies, this`nextProxy
      ensures Valid() && newMem.dz == dzm
      ensures NewProxies(pool[..], old(proxies), old(nextProxy), proxies, nextProxy, [newMem])
    {
      hide ValidOwing;
      newMem := AllocProxy(dzm, {dzm});
      assert {dzm} - {dzm} == {};
      AddedOne(old(proxies), old(nextProxy), newMem);
    }

    /** memory_joinNext: as JoinPrevious, but a boundary of somebody else is no reason to panic. */
    method JoinNext(self: MemoryProxy, cdom: int, ghost id: nat)
      returns (out: Outcome, newMem: MemoryProxy, ghost c: seq<nat>, ghost k: nat)
      requires Valid() && IsProxy(id, self) && |spare| >= 1
      modifies this, pool
      ensures Valid() && Bk() == old(Bk()) && pinned == old(pinned)
      ensures out != Done ==> Same(old(Sh()), old(proxies)) && nextProxy == old(nextProxy)
      ensures self.dz < pool.Length && c in old(chains) && k < |c| && c[k] == self.dz
      ensures var d := old(pool[..])[self.dz];
              out == (if d.valid == 0 then InvalidMemory else if d.nextOwner != cdom then Refused
                      else if d.next == NIL then Panic else Done)
      ensures out == Done ==> Joined(old(Sh()), Sh(), c, k, newMem.dz)
      ensures out == Done ==> var p, d := old(pool[..]), old(pool[..])[self.dz];
              0 <= d.next < |p| && newMem.mem == d.mem && newMem.size == d.size + p[d.next].size
      ensures out == Done ==> NewProxies(pool[..], old(proxies), old(nextProxy), proxies, nextProxy, [newMem])
    {
      hide Structure, Owing, Live, JoinPieces, ProxyOf, Balanced, NewProxies;
      newMem := NO_PROXY;
      var ok;
      ok, c, k := CheckValid(self, id);
      if !ok {
        return InvalidMemory, newMem, c, k;
      }
      var dzmThis := self.dz;
      if pool[dzmThis].nextOwner != cdom {
        return Refused, newMem, c, k;
      }
      var dzmNext := pool[self.dz].next;
      if dzmNext == NIL {
        return Panic, newMem, c, k;
      }
      Neighbours(Sh(), c, k);
      newMem := JoinObjects(dzmThis, dzmNext, c, k);
      JoinedObject(old(Sh()), Sh(), c, k, old(proxies), old(nextProxy), proxies, nextProxy, newMem);
      out := Done;
    }

    /** memory_joinAll: exactly the maximal run of pieces around self whose inner boundaries belong to
        cdom is replaced by one piece. */
    method JoinAll(self: MemoryProxy, cdom: int, ghost id: nat)
      returns (out: Outcome, newMem: MemoryProxy, ghost c: seq<nat>, ghost k: nat)
      requires Valid() && IsProxy(id, self) && |spare| >= 1
      modifies this, pool
      ensures Valid() && Bk() == old(Bk()) && pinned == old(pinned)
      ensures self.dz < pool.Length && c in old(chains) && k < |c| && c[k] == self.dz
      ensures out == if old(pool[..])[self.dz].valid == 0 then InvalidMemory else Done
      ensures out != Done ==> Same(old(Sh()), old(proxies)) && nextProxy == old(nextProxy)
      ensures out == Done ==> var p := old(pool[..]); var a, b := RunStart(p, c, k, cdom), RunEnd(p, c, k, cdom);
              a <= k < b <= |c| && [newMem.dz] == old(spare)[..1] && spare == old(spare)[1..] &&
              Replaced(p, pool[..], c[a..b], [newMem.dz]) &&
              chains == old(chains) - {c} + {c[..a] + [newMem.dz] + c[b..], c[a..b]} &&
              NewProxies(pool[..], old(proxies), old(nextProxy), proxies, nextProxy, [newMem]) &&
              c[a] < |p| && c[b - 1] < |p| && newMem.mem == p[c[a]].mem &&
              newMem.mem + newMem.size == p[c[b - 1]].End()
    {
      hide Structure, Owing, Live, Replaced, ProxyOf, Reshaped, RunStart, RunEnd, Balanced, NewProxies;
      newMem := NO_PROXY;
      var ok;
      ok, c, k := CheckValid(self, id);
      if !ok {
        return InvalidMemory, newMem, c, k;
      }
      ghost var p := pool[..];
      var dzmNew := DZJoinAll(self.dz, cdom, c, k);
      assert dzmNew == [dzmNew][0];
      ReshapedOwes(p, pool[..], proxies, nextProxy, pinned, {dzmNew});
      OwedProxy(pool[..], proxies, nextProxy, pinned, {dzmNew}, dzmNew);
      newMem := OneProxy(dzmNew);
      AllJoinedObject(p, pool[..], c[RunStart(p, c, k, cdom)..RunEnd(p, c, k, cdom)], old(proxies), old(nextProxy),
                      proxies, nextProxy, newMem);
      out := Done;
    }

    // ----- revoke --------------------------------------------------------------------------------------
    /** memory_revoke.  junk is what dzmCurNew holds as long as it has not been set.  Only the piece of
        self gets a new proxy; the other fresh pieces start with a count that no proxy accounts for.  The
        pool is sound afterwards exactly if the caller owns every boundary of the chain: otherwise the
        dead pieces keep links into what is left of it. */
    method Revoke(self: MemoryProxy, cdom: int, junk: int, ghost id: nat)
      returns (out: Outcome, newMem: MemoryProxy, ghost c: seq<nat>, ghost k: nat)
      requires Valid() && IsProxy(id, self) && forall c :: c in chains && self.dz in c ==> |c| <= |spare|
      modifies this, pool
      ensures Bk() == old(Bk()) && self.dz < pool.Length && c in old(chains) && k < |c| <= |old(spare)| &&
              c[k] == self.dz
      ensures out == if old(pool[..])[self.dz].valid == 0 then InvalidMemory else Done
      ensures out != Done ==> Valid() && Same(old(Sh()), old(proxies)) && pinned == old(pinned)
      ensures out == Done ==> (Owned(old(pool[..]), c, cdom) <==> Sound(pool[..]))
      ensures out == Done && Owned(old(pool[..]), c, cdom) ==>
                Valid() && Renewal(old(Sh()), Sh(), c, k, cdom, newMem.dz)
      ensures out == Done && Owned(old(pool[..]), c, cdom) ==>
                pinned == old(pinned) + ((set y | y in Duplicates(old(spare), k, |c|)) - {newMem.dz}) &&
                NewProxies(pool[..], old(proxies), old(nextProxy), proxies, nextProxy, [newMem])
    {
      hide Structure, Owing, Live, Owned, Balanced, Sound, Renewal, NewProxies, Duplicates, RunStart, RunEnd, Torn;
      newMem := NO_PROXY;
      var ok;
      ok, c, k := CheckValid(self, id);
      assert self.dz in c;
      if !ok {
        return InvalidMemory, newMem, c, k;
      }
      ghost var s := Sh();
      LivePiece(s, c, k);
      ProxyRange(s.p, proxies, nextProxy, pinned, id);
      HeldBy(s.p, c, k);
      OwnedIsWhole(s.p, c, k, cdom);
      RunMaximal(s.p, c, k, cdom);
      var dzmNewThis := RevokeRun(self.dz, self.size, self.mem, cdom, junk, c, k);
      newMem := MemoryProxy(pool[dzmNewThis].size, pool[dzmNewThis].mem, dzmNewThis);
      ghost var q := pool[..];
      pool[self.dz] := pool[self.dz].(valid := 0, mem := 0);
      if Owned(s.p, c, cdom) {
        RevokedWhole(s, q, c, k, cdom, newMem);
      } else {
        TornEither(q, c, RunStart(s.p, c, k, cdom), RunEnd(s.p, c, k, cdom), self.dz);
      }
      out := Done;
    }

    /** The caller owned all of the chain: the ghost state follows. */
    ghost method RevokedWhole(s: Shape, q: seq<DZ>, c: seq<nat>, k: nat, cdom: int, newMem: MemoryProxy)
      requires Structure(s) && c in s.chains && Live(s.p, c) && Held(s.p, c) && k < |c| <= |s.free| &&
               c[k] < |q| == |s.p| == pool.Length
      requires Owing(s.p, proxies, nextProxy, pinned, {}) && Balanced(Bk())
      requires s.free == spare && s.chains == chains && s.blocks == blocks && freeList == FirstOf(spare[|c|..])
      requires Duplicated(s.p, q, c, Duplicates(spare, k, |c|), 0, |c| - 1, k, cdom) &&
               newMem == ProxyOf(q, Duplicates(spare, k, |c|)[k])
      requires pool[..] == q[c[k] := q[c[k]].(valid := 0, mem := 0)]
      modifies this`proxies, this`nextProxy, this`chains, this`spare, this`pinned
      ensures Valid() && Sound(pool[..]) && Renewal(s, Sh(), c, k, cdom, newMem.dz)
      ensures pinned == old(pinned) + ((set y | y in Duplicates(old(spare), k, |c|)) - {newMem.dz})
      ensures NewProxies(pool[..], old(proxies), old(nextProxy), proxies, nextProxy, [newMem])
    {
      hide Structure, Owing, Live, Balanced, Revoked, Duplicated, Held;
      var ys, owed := Duplicates(spare, k, |c|), set y | y in Duplicates(spare, k, |c|);
      RevokeEnds(s, q, pool[..], c, ys, k, cdom, owed, proxies, nextProxy, pinned);
      AddedOne(proxies, nextProxy, newMem);
      proxies := proxies[nextProxy := newMem];
      nextProxy := nextProxy + 1;
      chains, spare, pinned := chains + {ys}, spare[|c|..], pinned + (owed - {ys[k]});
      assert Sh().p == pool[..];
    }

    /** memory_revoke up to the invalidation of the piece x itself.  [a, b) is the run around x whose
        inner boundaries belong to cdom. */
    method RevokeRun(x: nat, size: int, mem: int, cdom: int, junk: int, ghost c: seq<nat>, ghost k: nat)
      returns (dzmNewThis: nat)
      requires Structure(Sh()) && freeList == FirstOf(spare) && k < |c| <= |spare| && c[k] == x
      requires c in chains && Live(pool[..], c) && x < pool.Length && size == pool[x].size && mem == pool[x].mem
      modifies this`freeList, pool
      ensures dzmNewThis < pool.Length
      ensures var p := old(pool[..]); var a, b := RunStart(p, c, k, cdom), RunEnd(p, c, k, cdom);
              a <= k < b <= |c| &&
              (a == 0 && b == |c| ==> Duplicated(p, pool[..], c, Duplicates(spare, k, |c|), 0, |c| - 1, k, cdom) &&
                                      freeList == FirstOf(spare[|c|..]) &&
                                      dzmNewThis == Duplicates(spare, k, |c|)[k]) &&
              (a > 0 ==> Torn(pool[..], c[a], c[a - 1], x, true)) &&
              (b < |c| ==> Torn(pool[..], c[b - 1], c[b], x, false))
    {
      hide Structure, Live, Duplicated, Torn, RunStart, RunEnd, RevokeRunOf, Taken, Distinct, LinksFrom, Duplicates;
      ghost var s := Sh();
      ghost var a, b := RunStart(s.p, c, k, cdom), RunEnd(s.p, c, k, cdom);
      RunMaximal(s.p, c, k, cdom);
      ghost var ys := Duplicates(spare, k - a, b - a);
      RevokeReady(c, k, a, b, ys, cdom);
      var dzmCurNew;
      dzmNewThis, dzmCurNew := RevokeBefore(x, size, mem, cdom, junk, s, c, k, a, b, ys);
      RevokeAfter(x, dzmNewThis, dzmCurNew, cdom, s, c, k, a, b, ys);
      if a == 0 && b == |c| {
        TakenNodes(b - a);
      }
      assert c[0..|c|] == c;
    }

    lemma RevokeReady(c: seq<nat>, k: nat, a: nat, b: nat, ys: seq<nat>, cdom: int)
      requires Structure(Sh()) && freeList == FirstOf(spare) && c in chains && Live(pool[..], c)
      requires a == RunStart(pool[..], c, k, cdom) && b == RunEnd(pool[..], c, k, cdom) && a <= k < b <= |c| <= |spare|
      requires ys == Duplicates(spare, k - a, b - a)
      ensures RevokeRunOf(Sh(), c, k, a, b, ys, cdom) && Taken(0) && Distinct(spare)
    {
      hide Structure, Live, Separate, OffList, RunStart, RunEnd, Taken, Distinct;
      DuplicatesSeparate(Sh(), c, a, b, k, b - a, ys);
      ChainOffList(Sh(), c);
      ValidTaken();
    }

    /** Creates the duplicate of x itself and of the pieces before it. */
    method RevokeBefore(x: nat, size: int, mem: int, cdom: int, junk: int, ghost s: Shape, ghost c: seq<nat>,
                        ghost k: nat, ghost a: nat, ghost b: nat, ghost ys: seq<nat>)
      returns (dzmNewThis: nat, dzmCurNew: int)
      requires RevokeRunOf(s, c, k, a, b, ys, cdom) && Over(s) && Sh() == s && Taken(0) && Distinct(spare)
      requires c[k] == x && x < pool.Length && size == pool[x].size && mem == pool[x].mem
      modifies this`freeList, pool
      ensures dzmNewThis == ys[k - a] && dzmNewThis < pool.Length && Taken(k - a + 1) && LinksFrom(s.p, pool[..], c, k)
      ensures a == 0 ==> Duplicated(s.p, pool[..], c[a..b], ys, 0, k, k, cdom)
      ensures a > 0 ==> Torn(pool[..], c[a], c[a - 1], x, true)
      ensures b < |c| ==> c[b] < pool.Length && pool[c[b]].valid == 1
    {
      hide Structure, Live, Duplicated, Taken, Torn, RunStart, RunEnd, Distinct, RevokeRunOf, LinksFrom;
      RevokeRunParts(s, c, k, a, b, ys, cdom);
      dzmNewThis := CreateDZMemory(size, mem, 0);
      RunStarted(s, pool[..], c, k, a, b, ys, cdom, dzmNewThis, size, mem);
      var dzmCurOld;
      dzmCurOld, dzmCurNew := DuplicateBefore(x, dzmNewThis, cdom, junk, s, c, k, a, b, ys);
      LinkBefore(dzmCurOld, dzmCurNew, cdom, s, c, k, a, b, ys);
    }

    /** Creates the duplicates of the pieces behind x. */
    method RevokeAfter(x: nat, dzmNewThis: nat, last: int, cdom: int, ghost s: Shape, ghost c: seq<nat>, ghost k: nat,
                       ghost a: nat, ghost b: nat, ghost ys: seq<nat>)
      requires RevokeRunOf(s, c, k, a, b, ys, cdom) && Over(s) && c[k] == x && dzmNewThis == ys[k - a]
      requires LinksFrom(s.p, pool[..], c, k) && Taken(k - a + 1)
      requires a == 0 ==> Duplicated(s.p, pool[..], c[a..b], ys, 0, k, k, cdom)
      requires a > 0 ==> Torn(pool[..], c[a], c[a - 1], x, true)
      requires b < |c| ==> c[b] < pool.Length && pool[c[b]].valid == 1
      modifies this`freeList, pool
      ensures a == 0 && b == |c| ==> Duplicated(s.p, pool[..], c[a..b], ys, 0, b - 1, k, cdom) && Taken(b - a)
      ensures a > 0 ==> Torn(pool[..], c[a], c[a - 1], x, true)
      ensures b < |c| ==> Torn(pool[..], c[b - 1], c[b], x, false)
    {
      hide Structure, Live, Duplicated, Separate, FreeLink, OffList, Torn, RunStart, RunEnd, Distinct, LinksFrom,
        PiecesTo;
      ghost var o := pool[..];
      var dzmCurOld, dzmCurNew := DuplicateAfter(x, dzmNewThis, last, cdom, s, c, k, a, b, ys);
      PiecesEnd(s.p, o, pool[..], c, a, k, b);
      LinkAfter(dzmCurOld, dzmCurNew, cdom, s, c, k, a, b, ys);
    }

    /** The operation started from s and has the same nodes to work with. */
    ghost predicate Over(s: Shape)
      reads this`spare
    {
      spare == s.free && |s.p| == pool.Length
    }

    /** The first loop of memory_revoke. */
    method DuplicateBefore(x: nat, dzmNewThis: nat, cdom: int, junk: int, ghost s: Shape, ghost c: seq<nat>,
                           ghost k: nat, ghost a: nat, ghost b: nat, ghost ys: seq<nat>)
      returns (dzmCurOld: int, dzmCurNew: int)
      requires RevokeRunOf(s, c, k, a, b, ys, cdom) && Over(s) && c[k] == x && dzmNewThis == ys[k - a]
      requires Duplicated(s.p, pool[..], c[a..b], ys, k - a, k - a, k - a, cdom) && Taken(1)
      modifies this`freeList, pool
      ensures Duplicated(s.p, pool[..], c[a..b], ys, 0, k - a, k - a, cdom) && Taken(k - a + 1)
      ensures dzmCurOld == c[a] || (dzmCurOld == NIL && a == 0)
      ensures a == k ==> dzmCurNew == junk
    {
      hide Structure, Live, Duplicated, Separate, Taken, OffList, RunStart, RunEnd;
      var dzmLastNew := dzmNewThis;
      dzmCurOld, dzmCurNew := x, junk;
      ghost var lo := k;
      OriginalAt(s, pool[..], c, ys, a, b, k, k, k, cdom, k);
      var more := true;
      while more
        invariant a <= lo <= k && Duplicated(s.p, pool[..], c[a..b], ys, lo - a, k - a, k - a, cdom) &&
                  Taken(k - lo + 1)
        invariant dzmLastNew == ys[lo - a] && (dzmCurOld == c[lo] || (!more && dzmCurOld == NIL && lo == 0))
        invariant RunStart(s.p, c, lo, cdom) == a && c[lo] < pool.Length
        invariant !more ==> lo == a
        invariant lo == k ==> dzmCurNew == junk
        decreases lo, more
      {
        OriginalAt(s, pool[..], c, ys, a, b, lo, k, k, cdom, lo);
        RunStartStep(s.p, c, lo, cdom);
        if pool[dzmCurOld].prevOwner == cdom {
          dzmCurOld := pool[dzmCurOld].prev;
          more := dzmCurOld != NIL;
          if more {
            OriginalAt(s, pool[..], c, ys, a, b, lo, k, k, cdom, lo - 1);
            dzmCurNew := StepPrev(dzmCurOld, dzmLastNew, cdom, s.p, c, k, a, b, ys, lo);
            dzmLastNew := dzmCurNew;
            lo := lo - 1;
          }
        } else {
          more := false;
        }
      }
    }

    method StepPrev(dzmCurOld: nat, dzmLastNew: nat, cdom: int, ghost p: seq<DZ>, ghost c: seq<nat>, ghost k: nat,
                    ghost a: nat, ghost b: nat, ghost ys: seq<nat>, ghost lo: nat)
      returns (dzmCurNew: nat)
      requires a < lo <= k < b <= |c| && b - a <= |spare| && ys == Duplicates(spare, k - a, b - a) && OffList(spare, c)
      requires Separate(p, c[a..b], ys) && |p| == pool.Length && Taken(k - lo + 1)
      requires Duplicated(p, pool[..], c[a..b], ys, lo - a, k - a, k - a, cdom)
      requires dzmCurOld == c[lo - 1] && dzmLastNew == ys[lo - a] && dzmCurOld < |p| && pool[dzmCurOld] == p[dzmCurOld]
      modifies this`freeList, pool
      ensures dzmCurNew == ys[lo - 1 - a] && Taken(k - lo + 2)
      ensures Duplicated(p, pool[..], c[a..b], ys, lo - 1 - a, k - a, k - a, cdom)
    {
      hide Duplicated, Separate, Taken, OffList, Distinct, StepOf;
      ghost var q := pool[..];
      NodesApart(spare, p, c, a, b, ys, k, lo, lo - 1, k - lo + 1);
      dzmCurNew := DuplicatePrev(dzmCurOld, dzmLastNew, cdom, k - lo + 1);
      DuplicatedUp(p, q, pool[..], c[a..b], ys, lo - a, k - a, k - a, cdom);
    }

    method DuplicatePrev(dzmCurOld: nat, dzmLastNew: nat, cdom: int, ghost n: nat) returns (dzmCurNew: nat)
      requires n < |spare| && Taken(n) && Distinct(spare) && dzmCurOld < pool.Length && dzmLastNew < pool.Length
      requires dzmCurOld != dzmLastNew && forall i :: n <= i < |spare| ==>
                 spare[i] != dzmCurOld && spare[i] != dzmLastNew
      modifies this`freeList, pool
      ensures dzmCurNew == spare[n] && dzmCurNew < pool.Length && Taken(n + 1) &&
              StepOf(old(pool[..]), pool[..], dzmCurNew, dzmLastNew, dzmCurOld)
      ensures pool[dzmCurNew] == DZ(1, 1, old(pool[dzmCurOld].mem), old(pool[dzmCurOld].size), NIL, dzmLastNew, 0, cdom)
      ensures pool[dzmLastNew] == old(pool[dzmLastNew]).(prev := dzmCurNew, prevOwner := cdom)
      ensures pool[dzmCurOld] == old(pool[dzmCurOld]).(valid := 0, mem := 0)
    {
      hide FreeLink;
      dzmCurNew := CreateDZMemory(pool[dzmCurOld].size, pool[dzmCurOld].mem, n);
      ghost var q := pool[..];
      pool[dzmCurNew] := pool[dzmCurNew].(next := dzmLastNew, nextOwner := cdom);
      pool[dzmLastNew] := pool[dzmLastNew].(prev := dzmCurNew, prevOwner := cdom);
      pool[dzmCurOld] := pool[dzmCurOld].(valid := 0);
      pool[dzmCurOld] := pool[dzmCurOld].(mem := 0);
      RestLinked(q, pool[..], spare, n + 1);
    }

    /** A write through a pointer that leads elsewhere does not change the pool. */
    predicate InPool(i: int) {
      0 <= i < pool.Length
    }

    /** The link back to a piece that the caller does not own. */
    method LinkBefore(dzmCurOld: int, dzmCurNew: int, cdom: int, ghost s: Shape, ghost c: seq<nat>, ghost k: nat,
                      ghost a: nat, ghost b: nat, ghost ys: seq<nat>)
      requires RevokeRunOf(s, c, k, a, b, ys, cdom) && Over(s) && (dzmCurOld == c[a] || (dzmCurOld == NIL && a == 0))
      requires Duplicated(s.p, pool[..], c[a..b], ys, 0, k - a, k - a, cdom) && Taken(k - a + 1)
      modifies pool
      ensures Taken(k - a + 1) && LinksFrom(s.p, pool[..], c, k)
      ensures a == 0 ==> pool[..] == old(pool[..])
      ensures a > 0 ==> Torn(pool[..], c[a], c[a - 1], c[k], true)
      ensures b < |c| ==> c[b] < pool.Length && pool[c[b]].valid == 1
    {
      hide Structure, Live, Duplicated, Separate, OffList, RunStart, RunEnd, LiveNode, FreeLink;
      ghost var q := pool[..];
      RunFollows(s, q, c, k, a, b, ys, cdom);
      if dzmCurOld != NIL && pool[dzmCurOld].prev != NIL {
        pool[pool[dzmCurOld].prev] := pool[pool[dzmCurOld].prev].(next := dzmCurNew);
        if InPool(dzmCurNew) {
          pool[dzmCurNew] := pool[dzmCurNew].(prev := pool[dzmCurOld].prev, prevOwner := pool[dzmCurOld].prevOwner);
        }
        OffListAt(spare, c, a - 1);
        RestLinked(q, pool[..], spare, k - a + 1);
      }
    }

    /** The second loop of memory_revoke. */
    method DuplicateAfter(x: nat, dzmNewThis: nat, last: int, cdom: int, ghost s: Shape, ghost c: seq<nat>,
                          ghost k: nat, ghost a: nat, ghost b: nat, ghost ys: seq<nat>)
      returns (dzmCurOld: int, dzmCurNew: int)
      requires RevokeRunOf(s, c, k, a, b, ys, cdom) && Over(s) && c[k] == x && dzmNewThis == ys[k - a]
      requires LinksFrom(s.p, pool[..], c, k) && Taken(k - a + 1)
      requires a == 0 ==> Duplicated(s.p, pool[..], c[a..b], ys, 0, k, k, cdom)
      modifies this`freeList, pool
      ensures Taken(b - a) && (dzmCurOld == c[b - 1] || (dzmCurOld == NIL && b == |c|))
      ensures a == 0 ==> Duplicated(s.p, pool[..], c[a..b], ys, 0, b - 1, k, cdom)
      ensures PiecesTo(old(pool[..]), pool[..], c, k, b - 1)
    {
      hide Structure, Live, Duplicated, Taken, RunStart, RunEnd, LinksFrom, PiecesTo, RevokeRunOf, NextIn;
      ghost var o := pool[..];
      RevokeRunParts(s, c, k, a, b, ys, cdom);
      NothingYet(o, c, k);
      var dzmLastNew := dzmNewThis;
      dzmCurOld, dzmCurNew := x, last;
      ghost var hi := k;
      var more := true;
      while more
        invariant k <= hi < b && PiecesTo(o, pool[..], c, k, hi) && Taken(hi - a + 1)
        invariant a == 0 ==> Duplicated(s.p, pool[..], c[a..b], ys, 0, hi, k, cdom)
        invariant dzmLastNew == ys[hi - a] && (dzmCurOld == c[hi] || (!more && dzmCurOld == NIL && b == |c|))
        invariant RunEnd(s.p, c, hi, cdom) == b
        invariant !more ==> hi == b - 1
        decreases |c| - hi, more
      {
        FollowAt(s.p, o, pool[..], c, k, hi, hi);
        NextInChain(c, hi);
        RunEndStep(s.p, c, hi, cdom);
        if pool[dzmCurOld].nextOwner == cdom {
          dzmCurOld := pool[dzmCurOld].next;
          more := dzmCurOld != NIL;
          if more {
            dzmCurNew := StepNext(dzmCurOld, dzmLastNew, cdom, s, o, c, k, a, b, ys, hi);
            dzmLastNew := dzmCurNew;
            hi := hi + 1;
          }
        } else {
          more := false;
        }
      }
    }

    method StepNext(dzmCurOld: nat, dzmLastNew: nat, cdom: int, ghost s: Shape, ghost o: seq<DZ>, ghost c: seq<nat>,
                    ghost k: nat, ghost a: nat, ghost b: nat, ghost ys: seq<nat>, ghost hi: nat)
      returns (dzmCurNew: nat)
      requires RevokeRunOf(s, c, k, a, b, ys, cdom) && Over(s) && k <= hi < b - 1 && Taken(hi - a + 1) &&
               PiecesTo(o, pool[..], c, k, hi)
      requires a == 0 ==> Duplicated(s.p, pool[..], c[a..b], ys, 0, hi, k, cdom)
      requires dzmCurOld == c[hi + 1] && dzmLastNew == ys[hi - a]
      modifies this`freeList, pool
      ensures dzmCurNew == ys[hi + 1 - a] && Taken(hi - a + 2) && PiecesTo(o, pool[..], c, k, hi + 1)
      ensures a == 0 ==> Duplicated(s.p, pool[..], c[a..b], ys, 0, hi + 1, k, cdom)
    {
      hide Structure, Live, Duplicated, Separate, Taken, OffList, Distinct, StepOf, RunStart, RunEnd, PiecesTo;
      ghost var q := pool[..];
      NodesApart(spare, s.p, c, a, b, ys, k, hi, hi + 1, hi - a + 1);
      dzmCurNew := DuplicateNext(dzmCurOld, dzmLastNew, cdom, hi - a + 1);
      PiecesNext(s, o, q, pool[..], c, k, hi, dzmCurNew, dzmLastNew);
      if a == 0 {
        OriginalAt(s, q, c, ys, a, b, 0, hi, k, cdom, hi + 1);
        DuplicatedDown(s.p, q, pool[..], c[a..b], ys, 0, hi, k, cdom);
      }
    }

    method DuplicateNext(dzmCurOld: nat, dzmLastNew: nat, cdom: int, ghost n: nat) returns (dzmCurNew: nat)
      requires n < |spare| && Taken(n) && Distinct(spare) && dzmCurOld < pool.Length && dzmLastNew < pool.Length
      requires dzmCurOld != dzmLastNew && forall i :: n <= i < |spare| ==>
                 spare[i] != dzmCurOld && spare[i] != dzmLastNew
      modifies this`freeList, pool
      ensures dzmCurNew == spare[n] && dzmCurNew < pool.Length && Taken(n + 1) &&
              StepOf(old(pool[..]), pool[..], dzmCurNew, dzmLastNew, dzmCurOld)
      ensures pool[dzmCurNew] == DZ(1, 1, old(pool[dzmCurOld].mem), old(pool[dzmCurOld].size), dzmLastNew, NIL, cdom, 0)
      ensures pool[dzmLastNew] == old(pool[dzmLastNew]).(next := dzmCurNew, nextOwner := cdom)
      ensures pool[dzmCurOld] == old(pool[dzmCurOld]).(valid := 0, mem := 0)
    {
      hide FreeLink;
      dzmCurNew := CreateDZMemory(pool[dzmCurOld].size, pool[dzmCurOld].mem, n);
      ghost var q := pool[..];
      pool[dzmCurNew] := pool[dzmCurNew].(prev := dzmLastNew, prevOwner := cdom);
      pool[dzmLastNew] := pool[dzmLastNew].(next := dzmCurNew, nextOwner := cdom);
      pool[dzmCurOld] := pool[dzmCurOld].(valid := 0);
      pool[dzmCurOld] := pool[dzmCurOld].(mem := 0);
      RestLinked(q, pool[..], spare, n + 1);
    }

    /** The link on to a piece that the caller does not own. */
    method LinkAfter(dzmCurOld: int, dzmCurNew: int, cdom: int, ghost s: Shape, ghost c: seq<nat>, ghost k: nat,
                     ghost a: nat, ghost b: nat, ghost ys: seq<nat>)
      requires RevokeRunOf(s, c, k, a, b, ys, cdom) && Over(s) &&
               (dzmCurOld == c[b - 1] || (dzmCurOld == NIL && b == |c|))
      requires c[b - 1] < pool.Length && pool[c[b - 1]].next == NextIn(c, b - 1) &&
               (b - 1 == k || pool[c[b - 1]].valid == 0)
      requires a > 0 ==> Torn(pool[..], c[a], c[a - 1], c[k], true)
      requires b < |c| ==> c[b] < pool.Length && pool[c[b]].valid == 1
      modifies pool
      ensures b == |c| ==> pool[..] == old(pool[..])
      ensures a > 0 ==> Torn(pool[..], c[a], c[a - 1], c[k], true)
      ensures b < |c| ==> Torn(pool[..], c[b - 1], c[b], c[k], false)
    {
      hide Structure, Live, Separate, OffList, RunStart, RunEnd;
      ChainNodes(s, c);
      if dzmCurOld != NIL && pool[dzmCurOld].next != NIL {
        pool[pool[dzmCurOld].next] := pool[pool[dzmCurOld].next].(prev := dzmCurNew);
        if InPool(dzmCurNew) {
          pool[dzmCurNew] := pool[dzmCurNew].(next := pool[dzmCurOld].next, nextOwner := pool[dzmCurOld].nextOwner);
        }
      }
    }

    /** FREE_DZMEM on a piece that has already been invalidated. */
    method FreeDZMem(x: nat)
      requires x < pool.Length && pool[x].valid == 0 && pool[x].mem == 0
      modifies pool
      ensures pool[..] == old(pool[..])
    {
      pool[x] := pool[x].(valid := 0);
      pool[x] := pool[x].(mem := 0);
    }
  }

  ghost function Members(ids: seq<nat>): set<nat> {
    set q | q in ids
  }

  const NO_PROXY := MemoryProxy(0, 0, 0)

  /** objs are new proxies of their pieces, and there are no other new ones. */
  ghost predicate NewProxies(p: seq<DZ>, proxies: map<nat, MemoryProxy>, next: nat, proxies': map<nat, MemoryProxy>,
                             next': nat, objs: seq<MemoryProxy>) {
    next' == next + |objs| && (forall i :: 0 <= i < |objs| ==> objs[i] == ProxyOf(p, objs[i].dz)) &&
    proxies' == Added(proxies, next, objs)
  }

  /** The proxies objs get the next free numbers. */
  ghost function Added(proxies: map<nat, MemoryProxy>, next: nat, objs: seq<MemoryProxy>): map<nat, MemoryProxy>
    decreases |objs|
  {
    if objs == [] then proxies else Added(proxies[next := objs[0]], next + 1, objs[1..])
  }

  lemma AddedOne(proxies: map<nat, MemoryProxy>, next: nat, a: MemoryProxy)
    ensures Added(proxies, next, [a]) == proxies[next := a]
  {
    assert [a][1..] == [];
  }

  lemma AddedTwo(proxies: map<nat, MemoryProxy>, next: nat, a: MemoryProxy, b: MemoryProxy)
    ensures Added(proxies, next, [a, b]) == proxies[next := a][next + 1 := b]
  {
    assert [a, b][1..] == [b];
    AddedOne(proxies[next := a], next + 1, b);
  }

  lemma AddedThree(proxies: map<nat, MemoryProxy>, next: nat, a: MemoryProxy, b: MemoryProxy, c: MemoryProxy)
    ensures Added(proxies, next, [a, b, c]) == proxies[next := a][next + 1 := b][next + 2 := c]
  {
    assert [a, b, c][1..] == [b, c];
    AddedTwo(proxies[next := a], next + 1, b, c);
  }

  /** What the new objects of the operations cover. */
  lemma Split3Objects(p: seq<DZ>, p': seq<DZ>, x: nat, offset: int, len: int, domain: int,
                      proxies: map<nat, MemoryProxy>, next: nat, proxies': map<nat, MemoryProxy>, next': nat,
                      a: MemoryProxy, b: MemoryProxy, c: MemoryProxy)
    requires Split3Pieces(p, p', x, offset, len, domain, a.dz, b.dz, c.dz)
    requires NewProxies(p', proxies, next, proxies', next', [a, b, c])
    ensures x < |p| && a.mem == p[x].mem && a.size == offset && b.mem == p[x].mem + offset && b.size == len
    ensures c.mem == p[x].mem + offset + len && c.size == p[x].size - offset - len
  {
    hide NeighboursLinked;
    var objs := [a, b, c];
    assert objs[0] == a && objs[1] == b && objs[2] == c;
    assert objs[0] == ProxyOf(p', a.dz) && objs[1] == ProxyOf(p', b.dz) && objs[2] == ProxyOf(p', c.dz);
  }

  lemma Split2Objects(p: seq<DZ>, p': seq<DZ>, x: nat, offset: int, domain: int, proxies: map<nat, MemoryProxy>,
                      next: nat, proxies': map<nat, MemoryProxy>, next': nat, a: MemoryProxy, b: MemoryProxy)
    requires Split2Pieces(p, p', x, offset, domain, a.dz, b.dz)
    requires NewProxies(p', proxies, next, proxies', next', [a, b])
    ensures x < |p| && a.mem == p[x].mem && a.size == offset && b.mem == p[x].mem + offset &&
            b.size == p[x].size - offset
  {
    hide NeighboursLinked;
    var objs := [a, b];
    assert objs[0] == a && objs[1] == b;
    assert objs[0] == ProxyOf(p', a.dz) && objs[1] == ProxyOf(p', b.dz);
  }

  lemma JoinedObject(s: Shape, t: Shape, c: seq<nat>, i: nat, proxies: map<nat, MemoryProxy>, next: nat,
                     proxies': map<nat, MemoryProxy>, next': nat, a: MemoryProxy)
    requires Joined(s, t, c, i, a.dz) && NewProxies(t.p, proxies, next, proxies', next', [a])
    ensures i + 1 < |c| && c[i] < |s.p| && c[i + 1] < |s.p|
    ensures a.mem == s.p[c[i]].mem && a.size == s.p[c[i]].size + s.p[c[i + 1]].size
  {
    hide NeighboursLinked;
    assert [a][0] == ProxyOf(t.p, a.dz);
  }

  lemma AllJoinedObject(p: seq<DZ>, p': seq<DZ>, run: seq<nat>, proxies: map<nat, MemoryProxy>, next: nat,
                        proxies': map<nat, MemoryProxy>, next': nat, a: MemoryProxy)
    requires Replaced(p, p', run, [a.dz]) && NewProxies(p', proxies, next, proxies', next', [a])
    ensures run != [] && run[0] < |p| && run[|run| - 1] < |p|
    ensures a.mem == p[run[0]].mem && a.mem + a.size == p[run[|run| - 1]].End()
  {
    hide NeighboursLinked;
    assert [a][0] == ProxyOf(p', a.dz);
  }

  /** The chain c has been replaced by fresh pieces, position by position; y is the new piece at k. */
  ghost predicate Renewal(s: Shape, t: Shape, c: seq<nat>, k: nat, cdom: int, y: nat) {
    k < |c| <= |s.free| &&
    var ys := Duplicates(s.free, k, |c|);
    Revoked(s.p, t.p, c, ys, cdom) && t.free == s.free[|c|..] && t.chains == s.chains + {ys} && y == ys[k]
  }

  /** The pieces at positions i and i + 1 of c have given way to the first free node, y. */
  ghost predicate Joined(s: Shape, t: Shape, c: seq<nat>, i: nat, y: nat) {
    i + 1 < |c| && s.free != [] && y == s.free[0] && t.free == s.free[1..] &&
    JoinPieces(s.p, t.p, c[i], c[i + 1], y) && t.chains == s.chains - {c} + {c[..i] + [y] + c[i + 2..], c[i..i + 2]}
  }

  lemma FirstApart(s: Shape)
    requires Structure(s)
    ensures |s.free| >= 2 ==> s.free[0] != s.free[1]
    ensures |s.free| >= 3 ==> s.free[0] != s.free[2] && s.free[1] != s.free[2]
  {
    StructureParts(s);
    hide Structure;
  }

  lemma Split3Nodes(p: seq<DZ>, p': seq<DZ>, x: nat, offset: int, len: int, domain: int, y0: nat, y1: nat, y2: nat)
    requires Split3Pieces(p, p', x, offset, len, domain, y0, y1, y2)
    ensures x < |p'| == |p| && y0 < |p| && y1 < |p| && y2 < |p| && p'[x].valid == 0 && p'[x].mem == 0
  {
    hide NeighboursLinked;
  }

  lemma JoinNodes(p: seq<DZ>, p': seq<DZ>, x1: nat, x2: nat, y: nat)
    requires JoinPieces(p, p', x1, x2, y)
    ensures x1 < |p'| == |p| && x2 < |p| && y < |p|
    ensures p'[x1].valid == 0 && p'[x1].mem == 0 && p'[x2].valid == 0 && p'[x2].mem == 0
  {
    hide NeighboursLinked;
  }

  lemma InitialShape(p: seq<DZ>, spare: seq<nat>, n: nat)
    requires |p| == n >= 1 && |spare| == n - 1 && forall i :: 0 <= i < n - 1 ==>
               spare[i] == n - 2 - i && FreeNode(p, spare, i)
    requires var d := p[n - 1]; d.refcount == 1 && d.valid == 0 && d.mem == 0 && d.prev == NIL && d.next == NIL
    ensures Structure(Shape(p, spare, {[n - 1]}, {})) && RefsOk(p, map[], 0, {n - 1})
  {
    var s, c := Shape(p, spare, {[n - 1]}, {}), [n - 1];
    assert NodeOk(p, c, 0) && c[0] == n - 1;
    assert ChainOk(p, c) && Dead(p, c) && !Live(p, c);
    forall x: nat | x < n
      ensures x in spare || (x in c && c in s.chains)
      ensures x != n - 1 ==> p[x].valid == 2
    {
      if x != n - 1 {
        assert spare[n - 2 - x] == x;
      }
    }
    assert n - 1 !in spare;
    forall x: nat | x < |p| && p[x].valid != 2
      ensures p[x].refcount == Refs(map[], x) + Pin({n - 1}, x)
    {
      RefsNone(map[], x);
    }
    InitialPartition(s, n);
  }

  lemma RestIsFree(p: seq<DZ>, p': seq<DZ>, free: seq<nat>)
    requires FreeList(p, free) && free != [] && (forall i :: 1 <= i < |free| ==> free[i] != free[0]) && |p'| == |p|
    requires forall x: nat :: x < |p| && x != free[0] ==> p'[x] == p[x]
    ensures FreeList(p', free[1..])
  {
    forall i | 0 <= i < |free[1..]|
      ensures FreeNode(p', free[1..], i)
    {
      assert FreeNode(p, free, i + 1);
    }
  }

  lemma InitialPartition(s: Shape, n: nat)
    requires n >= 1 && |s.p| == n && s.chains == {[n - 1]} && n - 1 !in s.free
    requires forall x: nat :: x < n - 1 ==> x in s.free
    ensures Partition(s)
  {
    var c := [n - 1];
    assert c in s.chains && n - 1 in c;
  }

  lemma Split2Nodes(p: seq<DZ>, p': seq<DZ>, x: nat, offset: int, domain: int, y0: nat, y1: nat)
    requires Split2Pieces(p, p', x, offset, domain, y0, y1)
    ensures x < |p'| == |p| && y0 < |p| && y1 < |p| && p'[x].valid == 0 && p'[x].mem == 0
  {
    hide NeighboursLinked;
  }

  /** The proxy that internalallocMemoryProxyInDomain makes for the piece x. */
  function ProxyOf(p: seq<DZ>, x: nat): MemoryProxy {
    if x < |p| then MemoryProxy(p[x].size, p[x].mem, x) else MemoryProxy(0, 0, x)
  }

  /** Two neighbours in a live chain. */
  lemma PairOf(s: Shape, c: seq<nat>, i: nat)
    requires Structure(s) && c in s.chains && Live(s.p, c) && i + 1 < |c|
    ensures c[i] < |s.p| && c[i + 1] < |s.p| && c[i] != c[i + 1]
    ensures LiveNode(s.p[c[i]]) && LiveNode(s.p[c[i + 1]]) && s.p[c[i]].End() == s.p[c[i + 1]].mem
    ensures s.p[c[i]].next == c[i + 1] && s.p[c[i + 1]].prev == c[i]
    ensures s.p[c[i]].nextOwner == s.p[c[i + 1]].prevOwner
    ensures s.p[c[i]].refcount > 0 || s.p[c[i + 1]].refcount > 0 ==> Held(s.p, c[i..i + 2])
  {
    assert ChainOk(s.p, c) && NodeOk(s.p, c, i) && NodeOk(s.p, c, i + 1) && Joint(s.p, c, i);
    hide Structure, ChainOk;
    assert c[i..i + 2][0] == c[i] && c[i..i + 2][1] == c[i + 1];
  }

  /** The structure and the counts after a run of pieces has given way to the first free nodes. */
  lemma RunReplaced(s: Shape, p': seq<DZ>, c: seq<nat>, i: nat, j: nat, ys: seq<nat>, owed: set<nat>)
    requires Structure(s) && c in s.chains && Live(s.p, c) && i < j <= |c| && Held(s.p, c[i..j])
    requires 0 < |ys| <= |s.free| && ys == s.free[..|ys|] && (forall x: nat :: x in owed <==> x in ys) &&
             Replaced(s.p, p', c[i..j], ys)
    ensures Structure(Shape(p', s.free[|ys|..], s.chains - {c} + {c[..i] + ys + c[j..], c[i..j]}, s.blocks))
    ensures Reshaped(s.p, p', owed)
  {
    hide Structure, Live, Replaced, Reshaped, Held;
    StructureParts(s);
    hide FreeOk, Partition, BlocksOk, ChainOk;
    ReplacedKeepsStructure(s, p', c, i, j, ys);
    FreshNodes(s, c, |ys|);
    forall x: nat | x in c[i..j]
      ensures x in c && x < |s.p| && s.p[x].valid == 1
    {
      var m := Position(c[i..j], x);
      LivePiece(s, c, i + m);
    }
    ReplacedReshapes(s.p, p', c[i..j], ys, owed);
  }

  lemma PieceReplaced(s: Shape, p': seq<DZ>, c: seq<nat>, i: nat, ys: seq<nat>, owed: set<nat>)
    requires Structure(s) && c in s.chains && Live(s.p, c) && i < |c| && c[i] < |s.p| && s.p[c[i]].refcount > 0
    requires 0 < |ys| <= |s.free| && ys == s.free[..|ys|] && (forall x: nat :: x in owed <==> x in ys) &&
             Replaced(s.p, p', [c[i]], ys)
    ensures Structure(Shape(p', s.free[|ys|..], s.chains - {c} + {c[..i] + ys + c[i + 1..], [c[i]]}, s.blocks))
    ensures Reshaped(s.p, p', owed)
  {
    hide Structure, Live, Replaced, Reshaped;
    assert c[i..i + 1] == [c[i]];
    assert Held(s.p, [c[i]]) by {
      assert s.p[[c[i]][0]].refcount > 0;
    }
    RunReplaced(s, p', c, i, i + 1, ys, owed);
  }

  lemma MarkNext(p: seq<DZ>, p': seq<DZ>, c: seq<nat>, a: nat, j: nat)
    requires a <= j < |c| && Marked(p, p', c[a..j]) && c[j] < |p| && forall i :: 0 <= i < j ==> c[i] != c[j]
    ensures p'[c[j]] == p[c[j]] && Marked(p, p'[c[j] := p[c[j]].(valid := 0, mem := 0)], c[a..j + 1])
  {
    assert c[a..j + 1] == c[a..j] + [c[j]];
    forall i | 0 <= i < j - a
      ensures c[a..j][i] != c[j]
    {
    }
    assert c[j] !in c[a..j];
  }

  /** Marking pieces leaves the free list alone. */
  lemma MarkedTaken(s: Shape, p': seq<DZ>, c: seq<nat>, a: nat, b: nat)
    requires Structure(s) && c in s.chains && a <= b <= |c| && Marked(s.p, p', c[a..b])
    ensures forall i :: 0 <= i < |s.free| ==> FreeLink(p', s.free, i)
  {
    forall i | 0 <= i < |s.free|
      ensures FreeLink(p', s.free, i)
    {
      assert FreeNode(s.p, s.free, i) && s.free[i] in s.free && s.free[i] !in c;
      forall m | 0 <= m < b - a
        ensures c[a..b][m] in c
      {
        assert c[a..b][m] == c[a + m];
      }
    }
  }

  lemma AllLinked(p: seq<DZ>, free: seq<nat>)
    requires forall i :: 0 <= i < |free| ==> FreeNode(p, free, i)
    ensures forall i :: 0 <= i < |free| ==> FreeLink(p, free, i)
  {
    forall i | 0 <= i < |free|
      ensures FreeLink(p, free, i)
    {
      assert FreeNode(p, free, i);
    }
  }

  lemma JoinAllStep(s: Shape, p': seq<DZ>, c: seq<nat>, a: nat, b: nat, y: nat)
    requires Structure(s) && c in s.chains && Live(s.p, c) && a < b <= |c| && c[a] < |s.p| && c[b - 1] < |s.p| &&
             y < |s.p| == |p'|
    requires s.free != [] && y == s.free[0] && Held(s.p, c[a..b])
    requires var first, last := s.p[c[a]], s.p[c[b - 1]];
             NeighboursLinked(s.p, p', NodesOf(c[a..b], [y]), first.prev, y, last.next, y) &&
             p'[y] == DZ(1, 1, first.mem, last.End() - first.mem, first.prev, last.next, first.prevOwner,
                         last.nextOwner)
    requires RunCutOff(s.p, p', c[a..b])
    ensures Structure(Shape(p', s.free[1..], s.chains - {c} + {c[..a] + [y] + c[b..], c[a..b]}, s.blocks))
    ensures Replaced(s.p, p', c[a..b], [y]) && Reshaped(s.p, p', {y})
  {
    hide Structure, Live, RunCutOff, Held, Replaced, Reshaped, NeighboursLinked, NodesOf;
    RunGivesWayToOne(s, p', c, a, b, c[a..b], y);
    assert s.free[..1] == [y];
    RunReplaced(s, p', c, a, b, [y], {y});
  }

  lemma AfterCreate(s: Shape, p': seq<DZ>, b: Block, proxies: map<nat, MemoryProxy>, next: nat, pinned: set<nat>)
    requires Structure(s) && s.free != [] && s.free[0] < |s.p| && RefsOk(s.p, proxies, next, pinned)
    requires b.start > 0 && b.size >= 0 && b !in s.blocks && forall b' :: b' in s.blocks ==> Apart(b, b')
    requires p' == s.p[s.free[0] := DZ(1, 1, b.start, b.size, NIL, NIL, 0, 0)]
    ensures Structure(Shape(p', s.free[1..], s.chains + {[s.free[0]]}, s.blocks + {b}))
    ensures Owing(p', proxies, next, pinned, {s.free[0]})
  {
    assert FreeNode(s.p, s.free, 0);
    hide Structure, RefsOk, Apart, Owing;
    CreateKeepsStructure(s, p', b);
    ReshapedOwes(s.p, p', proxies, next, pinned, {s.free[0]});
  }

  lemma IncKeepsStructure(s: Shape, x: nat)
    requires Structure(s) && x < |s.p| && s.p[x].valid != 2
    ensures Structure(s.(p := s.p[x := s.p[x].(refcount := s.p[x].refcount + 1)]))
  {
    FreeIsValid2(s, x);
    var c, k := ChainOfNode(s, x);
    assert NodeOk(s.p, c, k);
    hide Structure;
    var p' := s.p[x := s.p[x].(refcount := s.p[x].refcount + 1)];
    assert c[k] < |p'| && p'[c[k]].refcount > 0;
    CountKeepsStructure(s, c, k, s.p[x].refcount + 1);
  }

  lemma CountDropped(s: Shape, c: seq<nat>, k: nat)
    requires Structure(s) && c in s.chains && k < |c| && c[k] < |s.p| && s.p[c[k]].refcount > 0
    requires Held(s.p[c[k] := s.p[c[k]].(refcount := s.p[c[k]].refcount - 1)], c)
    ensures Structure(s.(p := s.p[c[k] := s.p[c[k]].(refcount := s.p[c[k]].refcount - 1)]))
  {
    hide Structure, Held;
    CountKeepsStructure(s, c, k, s.p[c[k]].refcount - 1);
  }

  /** What losing a reference to the piece x of the chain c does: either the chain goes back to the
      free list and its block, if it has one, to jxfree, or only the count of x drops. */
  ghost predicate Dropped(s: Shape, t: Shape, bk: Books, bk': Books, freed: bool, c: seq<nat>, x: nat) {
    x < |s.p| == |t.p| && c in s.chains && x in c &&
    if freed then
      t.chains == s.chains - {c} && (forall y: nat :: y < |s.p| && y !in c ==> t.p[y] == s.p[y]) &&
      (forall y: nat :: y in c ==> y in t.free) && bk' == AfterChain(s, bk, c) && t.blocks == bk'.blocks
    else
      t == s.(p := s.p[x := s.p[x].(refcount := s.p[x].refcount - 1)]) && bk' == bk
  }

  /** The books when the chain c has been given back: a live chain gives its block to jxfree. */
  ghost function AfterChain(s: Shape, bk: Books, c: seq<nat>): Books {
    if Live(s.p, c) then Settled(bk, BlockOf(s.p, c)) else bk
  }

  /** The pieces that wait for their proxies keep all but their counts. */
  ghost predicate OwedKept(p: seq<DZ>, q: seq<DZ>, owed: set<nat>) {
    |q| == |p| && forall y: nat :: y in owed && y < |p| ==> q[y] == p[y].(refcount := q[y].refcount)
  }

  lemma DroppedOwed(s: Shape, t: Shape, bk: Books, bk': Books, freed: bool, c: seq<nat>, x: nat,
                    proxies: map<nat, MemoryProxy>, pinned: set<nat>, owed: set<nat>)
    requires Dropped(s, t, bk, bk', freed, c, x)
    requires freed ==> forall y: nat :: y in c ==> Refs(proxies, y) + Pin(pinned, y) + Pin(owed, y) == 0
    ensures OwedKept(s.p, t.p, owed)
  {
    forall y: nat | y in owed && freed
      ensures y !in c
    {
      assert Pin(owed, y) == 1;
    }
  }

  lemma StillHeld(s: Shape, bk: Books, c: seq<nat>, k: nat)
    requires c in s.chains && k < |c| && c[k] < |s.p|
    ensures Dropped(s, s.(p := s.p[c[k] := s.p[c[k]].(refcount := s.p[c[k]].refcount - 1)]), bk, bk, false, c, c[k])
  {
  }

  lemma HeldBy(p: seq<DZ>, c: seq<nat>, k: nat)
    requires k < |c| && c[k] < |p| && p[c[k]].refcount > 0
    ensures Held(p, c)
  {
  }

  lemma ChainOfProxy(s: Shape, proxies: map<nat, MemoryProxy>, next: nat, pinned: set<nat>, owed: set<nat>, q: nat)
    returns (c: seq<nat>, k: nat)
    requires Structure(s) && Owing(s.p, proxies, next, pinned, owed) && q in proxies
    ensures var x := proxies[q].dz;
            x < |s.p| && s.p[x].valid != 2 && s.p[x].refcount > 0 && c in s.chains && k < |c| && c[k] == x &&
            Owing(s.p[x := s.p[x].(refcount := s.p[x].refcount - 1)], proxies - {q}, next, pinned, owed)
    ensures s.p[proxies[q].dz].valid == 0 || Live(s.p, c)
  {
    hide Structure, Owing, Live;
    ProxyHolds(s.p, proxies, next, pinned, owed, q);
    FreeIsValid2(s, proxies[q].dz);
    c, k := ChainOfNode(s, proxies[q].dz);
    Liveness(s.p, c, k);
    DropKeepsRefs(s.p, proxies, next, pinned, owed, q);
  }

  lemma AfterFreeing(s: Shape, p: seq<DZ>, p': seq<DZ>, proxies: map<nat, MemoryProxy>, next: nat, pinned: set<nat>,
                     owed: set<nat>, c: seq<nat>, k: nat, pre: seq<nat>, bk: Books)
    requires Structure(s) && c in s.chains && k < |c| && c[k] < |s.p| && p == s.p[c[k] := s.p[c[k]].(refcount := 0)]
    requires Owing(p, proxies, next, pinned, owed) && !Held(p, c) && ChainFreed(s, p', c, pre)
    requires Balanced(bk) && bk.blocks == s.blocks
    ensures var bk' := AfterChain(s, bk, c); var t := Shape(p', pre + s.free, s.chains - {c}, bk'.blocks);
            Structure(t) && Owing(p', proxies, next, pinned, owed) && Dropped(s, t, bk, bk', true, c, c[k]) &&
            Balanced(bk')
  {
    hide Structure, Owing, Held, Live, BlockOf, Balanced, Settled;
    FreeKeepsStructure(s, p', c, pre);
    assert c[k] in c;
    FreedChainRefs(s, p, p', proxies, next, pinned, owed, c, pre);
    BlockReturned(s, c, bk);
  }

  lemma BlockReturned(s: Shape, c: seq<nat>, bk: Books)
    requires Structure(s) && c in s.chains && Balanced(bk) && bk.blocks == s.blocks
    ensures Balanced(AfterChain(s, bk, c))
    ensures AfterChain(s, bk, c).blocks == if Live(s.p, c) then s.blocks - {BlockOf(s.p, c)} else s.blocks
  {
    StructureParts(s);
    hide Structure, Balanced;
    if Live(s.p, c) {
      SettledBalanced(bk, BlockOf(s.p, c));
    }
  }

  /** A chain is held exactly if some reference leads to one of its pieces, or is owed to it. */
  lemma HeldCounts(s: Shape, p: seq<DZ>, proxies: map<nat, MemoryProxy>, next: nat, pinned: set<nat>, owed: set<nat>,
                   c: seq<nat>)
    requires Structure(s) && c in s.chains && |p| == |s.p| && Owing(p, proxies, next, pinned, owed)
    requires forall x: nat :: x < |p| ==> p[x].valid == s.p[x].valid
    ensures Held(p, c) <==> exists y: nat :: y in c && Refs(proxies, y) + Pin(pinned, y) + Pin(owed, y) > 0
  {
    assert forall y: nat :: y in c ==> y < |p| && p[y].valid != 2 by {
      forall y: nat | y in c
        ensures y < |p| && p[y].valid != 2
      {
        FreeIsValid2(s, y);
      }
    }
    hide Structure;
    if Held(p, c) {
      var i :| 0 <= i < |c| && c[i] < |p| && p[c[i]].refcount > 0;
      assert c[i] in c;
    }
  }

  lemma CountNotNegative(p: seq<DZ>, proxies: map<nat, MemoryProxy>, next: nat, pinned: set<nat>, owed: set<nat>,
                         x: nat)
    requires Owing(p, proxies, next, pinned, owed) && x < |p| && p[x].valid != 2
    ensures p[x].refcount >= 0
  {
  }

  lemma FreedChainRefs(s: Shape, p: seq<DZ>, p': seq<DZ>, proxies: map<nat, MemoryProxy>, next: nat, pinned: set<nat>,
                       owed: set<nat>, c: seq<nat>, pre: seq<nat>)
    requires Structure(s) && c in s.chains && |p| == |s.p| && Owing(p, proxies, next, pinned, owed) && !Held(p, c)
    requires forall x: nat :: x < |p| ==> p[x].valid == s.p[x].valid && (x !in c ==> p[x] == s.p[x])
    requires ChainFreed(s, p', c, pre)
    ensures Owing(p', proxies, next, pinned, owed)
    ensures forall y: nat :: y in c ==> y in pre
  {
    hide Owing;
    forall y: nat | y in c
      ensures y < |p| && p[y].valid != 2 && p[y].refcount == 0 && p'[y].valid == 2
    {
      FreeIsValid2(s, y);
      var h := Position(c, y);
      CountNotNegative(p, proxies, next, pinned, owed, y);
      var i := Position(pre, y);
      assert FreeNode(p', pre + s.free, i);
    }
    FreedKeepsRefs(p, p', proxies, next, pinned, owed, c);
  }
}
