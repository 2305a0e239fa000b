/** The structure of the shared memory manager (zero_Memory_org.c): a pool of DZMemoryProxy nodes that
  form doubly linked chains over allocated blocks, and a free list.

  Pointers into the pool are indices, NIL is the null pointer, and a null mem is 0. */
module DZChains {

  const NIL := -1

  /** DZMemoryProxy.  valid is 1 for a usable piece, 0 for an invalidated one and 2 for a free node. */
  datatype DZ = DZ(refcount: int, valid: int, mem: int, size: int, prev: int, next: int, prevOwner: int,
                   nextOwner: int) {
    function End(): int { mem + size }
  }

  /** A range handed out by jxmalloc. */
  datatype Block = Block(start: int, size: int)

  predicate Apart(b: Block, b': Block) {
    b.start + b.size <= b'.start || b'.start + b'.size <= b.start
  }

  // ----- chains ---------------------------------------------------------------------------------

  function NextIn(c: seq<nat>, i: int): int {
    if 0 <= i < |c| - 1 then c[i + 1] else NIL
  }

  function PrevIn(c: seq<nat>, i: int): int {
    if 0 < i <= |c| then c[i - 1] else NIL
  }

  ghost predicate Distinct(c: seq<nat>) {
    forall i, j :: 0 <= i < j < |c| ==> c[i] != c[j]
  }

  /** The node at position i of the chain is linked to its neighbours. */
  predicate NodeOk(p: seq<DZ>, c: seq<nat>, i: int) {
    0 <= i < |c| ==> c[i] < |p| && p[c[i]].next == NextIn(c, i) && p[c[i]].prev == PrevIn(c, i) && p[c[i]].refcount >= 0
  }

  ghost predicate Linked(p: seq<DZ>, c: seq<nat>) {
    c != [] && Distinct(c) && forall i :: 0 <= i < |c| ==> NodeOk(p, c, i)
  }

  predicate LiveNode(n: DZ) {
    n.valid == 1 && n.mem > 0 && n.size >= 0
  }

  /** Neighbours at positions i and i + 1 are contiguous and agree on who owns their boundary. */
  predicate Joint(p: seq<DZ>, c: seq<nat>, i: int) {
    0 <= i < |c| - 1 && c[i] < |p| && c[i + 1] < |p| ==>
      p[c[i]].End() == p[c[i + 1]].mem && p[c[i]].nextOwner == p[c[i + 1]].prevOwner
  }

  /** A live chain: valid contiguous pieces, whose outer boundaries nobody owns. */
  ghost predicate Live(p: seq<DZ>, c: seq<nat>) {
    (forall i :: 0 <= i < |c| ==> c[i] < |p| && LiveNode(p[c[i]])) &&
    (forall i :: 0 <= i < |c| - 1 ==> Joint(p, c, i)) &&
    (c != [] ==> p[c[0]].prevOwner == 0 && p[c[|c| - 1]].nextOwner == 0)
  }

  /** A dead chain: all pieces invalid, with null mem. */
  ghost predicate Dead(p: seq<DZ>, c: seq<nat>) {
    forall i :: 0 <= i < |c| ==> c[i] < |p| && p[c[i]].valid == 0 && p[c[i]].mem == 0
  }

  /** Somebody still refers to the chain. */
  ghost predicate Held(p: seq<DZ>, c: seq<nat>) {
    exists i :: 0 <= i < |c| && c[i] < |p| && p[c[i]].refcount > 0
  }

  ghost predicate ChainOk(p: seq<DZ>, c: seq<nat>) {
    Linked(p, c) && (Live(p, c) || Dead(p, c)) && Held(p, c)
  }

  /** The range a live chain covers. */
  function BlockOf(p: seq<DZ>, c: seq<nat>): Block {
    if c != [] && c[0] < |p| && c[|c| - 1] < |p|
    then Block(p[c[0]].mem, p[c[|c| - 1]].End() - p[c[0]].mem) else Block(0, 0)
  }

  // ----- the whole pool ---------------------------------------------------------------------------

  predicate FreeNode(p: seq<DZ>, free: seq<nat>, i: int) {
    0 <= i < |free| ==>
      free[i] < |p| && p[free[i]].valid == 2 && p[free[i]].refcount == 0 && p[free[i]].mem == 0 &&
      p[free[i]].prev == NIL && p[free[i]].next == NextIn(free, i)
  }

  /** What dzmemory_alloc needs of a free node: the link to the next one. */
  predicate FreeLink(p: seq<DZ>, free: seq<nat>, i: int) {
    0 <= i < |free| ==> free[i] < |p| && p[free[i]].next == NextIn(free, i)
  }

  /** The pool, the free list from its head on, the chains and the blocks they cover. */
  datatype Shape = Shape(p: seq<DZ>, free: seq<nat>, chains: set<seq<nat>>, blocks: set<Block>)

  ghost predicate FreeOk(s: Shape) {
    Distinct(s.free) && forall i :: 0 <= i < |s.free| ==> FreeNode(s.p, s.free, i)
  }

  /** Every node is free or in exactly one chain. */
  ghost predicate Partition(s: Shape) {
    (forall x: nat :: x < |s.p| ==> x in s.free || exists c :: c in s.chains && x in c) &&
    (forall c, x: nat :: c in s.chains && x in c ==> x < |s.p| && x !in s.free) &&
    forall c, d, x: nat :: c in s.chains && d in s.chains && x in c && x in d ==> c == d
  }

  /** The live chains cover exactly the allocated blocks, one each, and blocks do not overlap. */
  ghost predicate BlocksOk(s: Shape) {
    (forall c :: c in s.chains && Live(s.p, c) ==> BlockOf(s.p, c) in s.blocks) &&
    (forall b :: b in s.blocks ==> exists c :: c in s.chains && Live(s.p, c) && BlockOf(s.p, c) == b) &&
    (forall c, d ::
       c in s.chains && d in s.chains && Live(s.p, c) && Live(s.p, d) && BlockOf(s.p, c) == BlockOf(s.p, d) ==>
         c == d) &&
    forall b, b' :: b in s.blocks && b' in s.blocks && b != b' ==> Apart(b, b')
  }

  ghost predicate Structure(s: Shape) {
    FreeOk(s) && Partition(s) && BlocksOk(s) && forall c :: c in s.chains ==> ChainOk(s.p, c)
  }

  // ----- facts about one chain -----------------------------------------------------------------------

  /** Chain membership and order: positions are unique. */
  lemma Position(c: seq<nat>, x: nat) returns (k: nat)
    requires x in c
    ensures k < |c| && c[k] == x
  {
    k :| 0 <= k < |c| && c[k] == x;
  }

  lemma ChainOfNode(s: Shape, x: nat) returns (c: seq<nat>, k: nat)
    requires Structure(s) && x < |s.p| && x !in s.free
    ensures c in s.chains && k < |c| && c[k] == x && ChainOk(s.p, c)
  {
    c :| c in s.chains && x in c;
    k := Position(c, x);
  }

  /** Dead and live exclude each other, and both exclude free. */
  lemma Liveness(p: seq<DZ>, c: seq<nat>, k: nat)
    requires ChainOk(p, c) && k < |c|
    ensures p[c[k]].valid == 1 <==> Live(p, c)
    ensures p[c[k]].valid == 0 <==> Dead(p, c)
    ensures p[c[k]].valid != 2 && (p[c[k]].mem == 0 <==> Dead(p, c))
  {
    assert NodeOk(p, c, k);
  }

  /** Pieces of a live chain are ordered by address. */
  lemma {:induction false} LiveOrder(p: seq<DZ>, c: seq<nat>, i: nat, j: nat)
    requires Live(p, c) && i < j < |c|
    ensures p[c[i]].End() <= p[c[j]].mem
    decreases j
  {
    assert Joint(p, c, j - 1);
    assert c[j - 1] < |p|;
    if i < j - 1 {
      LiveOrder(p, c, i, j - 1);
    }
  }

  /** Every piece lies inside the block of its chain. */
  lemma InsideBlock(p: seq<DZ>, c: seq<nat>, k: nat)
    requires Live(p, c) && k < |c|
    ensures BlockOf(p, c).start <= p[c[k]].mem
    ensures p[c[k]].End() <= BlockOf(p, c).start + BlockOf(p, c).size
  {
    assert c[0] < |p| && c[|c| - 1] < |p|;
    if 0 < k {
      LiveOrder(p, c, 0, k);
    }
    if k < |c| - 1 {
      LiveOrder(p, c, k, |c| - 1);
    }
  }

  /** Different live chains cover ranges that do not overlap. */
  lemma BlocksApart(s: Shape, c: seq<nat>, d: seq<nat>)
    requires Structure(s) && c in s.chains && d in s.chains && c != d && Live(s.p, c) && Live(s.p, d)
    ensures Apart(BlockOf(s.p, c), BlockOf(s.p, d))
  {
    hide FreeOk, Partition, ChainOk, Live, BlockOf, Apart;
  }

  /** Valid pieces never overlap. */
  lemma ValidPiecesApart(s: Shape, x: nat, y: nat)
    requires Structure(s) && x < |s.p| && y < |s.p| && x != y
    requires s.p[x].valid == 1 && s.p[y].valid == 1
    ensures s.p[x].End() <= s.p[y].mem || s.p[y].End() <= s.p[x].mem
  {
    FreeIsValid2(s, x);
    FreeIsValid2(s, y);
    var c, i := ChainOfNode(s, x);
    var d, j := ChainOfNode(s, y);
    Liveness(s.p, c, i);
    Liveness(s.p, d, j);
    hide Structure;
    if c == d {
      if i < j {
        LiveOrder(s.p, c, i, j);
      } else {
        LiveOrder(s.p, c, j, i);
      }
    } else {
      InsideBlock(s.p, c, i);
      InsideBlock(s.p, d, j);
      BlocksApart(s, c, d);
    }
  }

  lemma FreeIsValid2(s: Shape, x: nat)
    requires Structure(s) && x < |s.p|
    ensures s.p[x].valid == 2 <==> x in s.free
  {
    if x in s.free {
      var k := Position(s.free, x);
      assert FreeNode(s.p, s.free, k);
    } else {
      var c, k := ChainOfNode(s, x);
      Liveness(s.p, c, k);
    }
  }

  /** The nodes of p can be told apart into a free list and chains over disjoint blocks. */
  ghost predicate Sound(p: seq<DZ>) {
    exists s: Shape :: s.p == p && Structure(s)
  }

  /** An invalidated piece with a link to a valid one belongs to no chain. */
  lemma BrokenLink(p: seq<DZ>, x: nat, y: nat)
    requires x < |p| && y < |p| && p[x].valid == 0 && p[y].valid == 1 && (p[x].prev == y || p[x].next == y)
    ensures !Sound(p)
  {
    if Sound(p) {
      var s: Shape :| s.p == p && Structure(s);
      FreeIsValid2(s, x);
      var c, k := ChainOfNode(s, x);
      assert NodeOk(p, c, k);
      Liveness(p, c, k);
      Liveness(p, c, if p[x].prev == y then k - 1 else k + 1);
    }
  }

  /** Chains whose nodes have not changed stay as they are. */
  lemma ChainFrame(p: seq<DZ>, p': seq<DZ>, c: seq<nat>)
    requires ChainOk(p, c) && |p'| == |p|
    requires forall x: nat :: x in c && x < |p| ==> p'[x] == p[x]
    ensures ChainOk(p', c) && BlockOf(p', c) == BlockOf(p, c) && (Live(p', c) <==> Live(p, c))
  {
    forall i | 0 <= i < |c|
      ensures NodeOk(p', c, i) && c[i] < |p| && p'[c[i]] == p[c[i]]
    {
      assert NodeOk(p, c, i);
      assert c[i] in c;
    }
    if Live(p, c) {
      forall i | 0 <= i < |c| - 1
        ensures Joint(p', c, i)
      {
        assert Joint(p, c, i);
      }
    }
    var h :| 0 <= h < |c| && c[h] < |p| && p[c[h]].refcount > 0;
    assert p'[c[h]].refcount > 0;
    if Live(p', c) {
      Liveness(p, c, 0);
    }
  }

  // ----- splicing: the one change split, join, joinAll and revoke make --------------------------------

  /** In the chain a + run + b the pieces run are replaced by the fresh pieces ys. */
  datatype Cut = Cut(a: seq<nat>, run: seq<nat>, b: seq<nat>, ys: seq<nat>) {
    function Old(): seq<nat> { a + run + b }
    function New(): seq<nat> { a + ys + b }
  }

  ghost predicate CutOk(s: Shape, k: Cut) {
    k.Old() in s.chains && Live(s.p, k.Old()) && k.run != [] && Held(s.p, k.run) &&
    k.ys != [] && |k.ys| <= |s.free| && Distinct(k.ys) &&
    forall x: nat :: x in k.ys <==> x in s.free[..|k.ys|]
  }

  function AfterCut(s: Shape, p': seq<DZ>, k: Cut): Shape
    requires |k.ys| <= |s.free|
  {
    Shape(p', s.free[|k.ys|..], s.chains - {k.Old()} + {k.New(), k.run}, s.blocks)
  }

  /** The pool after the splice, node by node. */
  ghost predicate Spliced(s: Shape, p': seq<DZ>, k: Cut)
    requires CutOk(s, k)
  {
    |p'| == |s.p| &&
    (forall x: nat :: x < |s.p| && x !in k.Old() && x !in k.ys ==> p'[x] == s.p[x]) &&
    (forall i :: 0 <= i < |k.a| ==> OuterKept(s.p, p', k.New(), i, k.a[i])) &&
    (forall i :: 0 <= i < |k.b| ==> OuterKept(s.p, p', k.New(), |k.a| + |k.ys| + i, k.b[i])) &&
    (forall i :: 0 <= i < |k.run| ==> RunDead(s.p, p', k.run, i)) &&
    (forall i :: 0 <= i < |k.ys| ==> FreshPiece(p', k.New(), |k.a| + i, k.ys[i])) &&
    (forall i :: 0 <= i < |k.ys| - 1 ==> Joint(p', k.ys, i)) &&
    SameEnds(s.p, k.run, p', k.ys)
  }

  /** An outer piece only has its links adjusted to the new chain. */
  predicate OuterKept(p: seq<DZ>, p': seq<DZ>, c: seq<nat>, i: int, x: nat) {
    x < |p| && x < |p'| && p'[x] == p[x].(next := NextIn(c, i), prev := PrevIn(c, i))
  }

  /** A replaced piece is dead and linked within the run only. */
  predicate RunDead(p: seq<DZ>, p': seq<DZ>, run: seq<nat>, i: int) {
    0 <= i < |run| ==>
      run[i] < |p| && run[i] < |p'| && p'[run[i]].refcount == p[run[i]].refcount &&
      p'[run[i]].valid == 0 && p'[run[i]].mem == 0 &&
      p'[run[i]].next == NextIn(run, i) && p'[run[i]].prev == PrevIn(run, i)
  }

  predicate FreshPiece(p': seq<DZ>, c: seq<nat>, i: int, x: nat) {
    x < |p'| && LiveNode(p'[x]) && p'[x].refcount == 1 && p'[x].next == NextIn(c, i) && p'[x].prev == PrevIn(c, i)
  }

  /** ys covers the same range as run and has the same outer owners. */
  predicate SameEnds(p: seq<DZ>, run: seq<nat>, p': seq<DZ>, ys: seq<nat>) {
    run != [] && ys != [] && run[0] < |p| && run[|run| - 1] < |p| && ys[0] < |p'| && ys[|ys| - 1] < |p'| &&
    p'[ys[0]].mem == p[run[0]].mem && p'[ys[0]].prevOwner == p[run[0]].prevOwner &&
    p'[ys[|ys| - 1]].End() == p[run[|run| - 1]].End() && p'[ys[|ys| - 1]].nextOwner == p[run[|run| - 1]].nextOwner
  }

  /** The fresh pieces were free. */
  lemma CutDistinct(s: Shape, k: Cut)
    requires Structure(s) && CutOk(s, k)
    ensures Distinct(k.New()) && Distinct(k.run)
    ensures forall x: nat :: x in k.ys ==> x in s.free && x < |s.p| && x !in k.Old()
    ensures forall x: nat :: x in k.Old() <==> x in k.a || x in k.run || x in k.b
    ensures forall x: nat :: x in k.run ==> x !in k.New()
  {
    var c := k.Old();
    assert ChainOk(s.p, c);
    forall x: nat | x in k.ys
      ensures x in s.free && x < |s.p| && x !in c
    {
      assert x in s.free[..|k.ys|];
      var i := Position(s.free, x);
      assert FreeNode(s.p, s.free, i);
    }
    forall i, j | 0 <= i < j < |k.run|
      ensures k.run[i] != k.run[j]
    {
      assert c[|k.a| + i] == k.run[i] && c[|k.a| + j] == k.run[j];
    }
    NewDistinct(s, k);
    RunNotNew(s, k);
  }

  lemma RunNotNew(s: Shape, k: Cut)
    requires Structure(s) && CutOk(s, k)
    requires forall x: nat :: x in k.ys ==> x !in k.Old()
    ensures forall x: nat :: x in k.run ==> x !in k.New()
  {
    var c, c' := k.Old(), k.New();
    assert ChainOk(s.p, c);
    forall i, j | 0 <= i < |k.run| && 0 <= j < |c'|
      ensures k.run[i] != c'[j]
    {
      assert c[|k.a| + i] == k.run[i] && k.run[i] in c;
      if j < |k.a| {
        assert c[j] == c'[j];
      } else if j < |k.a| + |k.ys| {
        assert k.ys[j - |k.a|] == c'[j] && c'[j] in k.ys;
      } else {
        assert c[j - |k.ys| + |k.run|] == c'[j];
      }
    }
  }

  lemma NewDistinct(s: Shape, k: Cut)
    requires Structure(s) && CutOk(s, k)
    requires forall x: nat :: x in k.ys ==> x !in k.Old()
    ensures Distinct(k.New())
  {
    var c, c' := k.Old(), k.New();
    assert ChainOk(s.p, c);
    var n, r := |k.ys|, |k.run|;
    forall i, j | 0 <= i < j < |c'|
      ensures c'[i] != c'[j]
    {
      if i < |k.a| {
        assert c[i] == c'[i];
        if j >= |k.a| + n {
          assert c[j - n + r] == c'[j];
        } else if j < |k.a| {
          assert c[j] == c'[j];
        } else {
          assert c'[j] in k.ys && c[i] in c;
        }
      } else if i < |k.a| + n {
        assert c'[i] == k.ys[i - |k.a|];
        if j >= |k.a| + n {
          assert c[j - n + r] == c'[j] && c'[j] in c && c'[i] in k.ys;
        } else {
          assert c'[j] == k.ys[j - |k.a|];
        }
      } else {
        assert c[i - n + r] == c'[i] && c[j - n + r] == c'[j];
      }
    }
  }

  lemma StructureParts(s: Shape)
    requires Structure(s)
    ensures FreeOk(s) && Partition(s) && BlocksOk(s) && Distinct(s.free)
    ensures forall c :: c in s.chains ==> ChainOk(s.p, c)
  {
    hide Partition, BlocksOk, ChainOk;
  }

  lemma CutParts(s: Shape, k: Cut)
    requires CutOk(s, k)
    ensures k.Old() in s.chains && Live(s.p, k.Old()) && k.run != [] && Held(s.p, k.run)
    ensures k.ys != [] && |k.ys| <= |s.free| && Distinct(k.ys)
    ensures forall x: nat :: x in k.ys <==> x in s.free[..|k.ys|]
  {
    hide Live, Held, Distinct;
  }

  /** The old chain, position by position. */
  lemma OldAt(s: Shape, k: Cut, i: nat)
    requires Structure(s) && CutOk(s, k) && i < |k.Old()|
    ensures var x := k.Old()[i];
            x < |s.p| && LiveNode(s.p[x]) && NodeOk(s.p, k.Old(), i) && s.p[x].refcount >= 0 &&
            Joint(s.p, k.Old(), i) && x in k.Old()
  {
    hide Structure, CutOk;
    StructureParts(s);
    CutParts(s, k);
    hide FreeOk, Partition, BlocksOk, Held, Distinct;
    assert ChainOk(s.p, k.Old());
    assert NodeOk(s.p, k.Old(), i);
    assert i < |k.Old()| - 1 ==> Joint(s.p, k.Old(), i);
  }

  lemma NewAtA(s: Shape, p': seq<DZ>, k: Cut, i: nat)
    requires Structure(s) && CutOk(s, k) && Spliced(s, p', k) && i < |k.a|
    ensures var x := k.a[i];
            k.New()[i] == x && k.Old()[i] == x && x < |s.p| && x < |p'| &&
            p'[x] == s.p[x].(next := NextIn(k.New(), i), prev := PrevIn(k.New(), i))
  {
    hide Structure, CutOk;
    assert OuterKept(s.p, p', k.New(), i, k.a[i]);
    hide Spliced;
  }

  lemma NewAtY(s: Shape, p': seq<DZ>, k: Cut, i: nat)
    requires Structure(s) && CutOk(s, k) && Spliced(s, p', k) && i < |k.ys|
    ensures var x := k.ys[i];
            k.New()[|k.a| + i] == x && x < |p'| && FreshPiece(p', k.New(), |k.a| + i, x) &&
            (i < |k.ys| - 1 ==> Joint(p', k.ys, i))
  {
    hide Structure, CutOk, FreshPiece, Joint, OuterKept, RunDead, SameEnds;
    assert FreshPiece(p', k.New(), |k.a| + i, k.ys[i]);
    assert i < |k.ys| - 1 ==> Joint(p', k.ys, i);
    hide Spliced;
    FreshInPool(p', k.New(), |k.a| + i, k.ys[i]);
  }

  lemma FreshInPool(p': seq<DZ>, c: seq<nat>, i: int, x: nat)
    requires FreshPiece(p', c, i, x)
    ensures x < |p'|
  {
  }

  lemma NewAtB(s: Shape, p': seq<DZ>, k: Cut, i: nat)
    requires Structure(s) && CutOk(s, k) && Spliced(s, p', k) && i < |k.b|
    ensures var x, j := k.b[i], |k.a| + |k.ys| + i;
            k.New()[j] == x && k.Old()[|k.a| + |k.run| + i] == x && x < |s.p| && x < |p'| &&
            p'[x] == s.p[x].(next := NextIn(k.New(), j), prev := PrevIn(k.New(), j))
  {
    hide Structure, CutOk;
    assert OuterKept(s.p, p', k.New(), |k.a| + |k.ys| + i, k.b[i]);
    hide Spliced;
  }

  lemma SplicedEnds(s: Shape, p': seq<DZ>, k: Cut)
    requires Structure(s) && CutOk(s, k) && Spliced(s, p', k)
    ensures SameEnds(s.p, k.run, p', k.ys) && |p'| == |s.p|
    ensures k.Old()[|k.a|] == k.run[0] && k.Old()[|k.a| + |k.run| - 1] == k.run[|k.run| - 1]
    ensures k.New()[|k.a|] == k.ys[0] && k.New()[|k.a| + |k.ys| - 1] == k.ys[|k.ys| - 1]
  {
    hide Structure, CutOk, Live, Held, Distinct;
    CutParts(s, k);
    SplicedFacts(s, p', k);
    hide Spliced;
  }

  lemma SplicedFacts(s: Shape, p': seq<DZ>, k: Cut)
    requires CutOk(s, k) && Spliced(s, p', k)
    ensures SameEnds(s.p, k.run, p', k.ys) && |p'| == |s.p|
  {
    hide CutOk, OuterKept, RunDead, FreshPiece, Joint;
  }

  lemma NewAt(s: Shape, p': seq<DZ>, k: Cut, i: nat)
    requires Structure(s) && CutOk(s, k) && Spliced(s, p', k) && i < |k.New()|
    ensures NodeOk(p', k.New(), i) && k.New()[i] < |p'| && LiveNode(p'[k.New()[i]])
  {
    hide Structure, CutOk, Spliced;
    var m, n := |k.a|, |k.ys|;
    if i < m {
      OldAt(s, k, i);
      NewAtA(s, p', k, i);
    } else if i < m + n {
      NewAtY(s, p', k, i - m);
    } else {
      OldAt(s, k, m + |k.run| + (i - m - n));
      NewAtB(s, p', k, i - m - n);
    }
  }

  lemma NewJoint(s: Shape, p': seq<DZ>, k: Cut, i: nat)
    requires Structure(s) && CutOk(s, k) && Spliced(s, p', k) && i < |k.New()| - 1
    ensures Joint(p', k.New(), i)
  {
    hide Structure, CutOk, Spliced;
    SplicedEnds(s, p', k);
    var m, n, r := |k.a|, |k.ys|, |k.run|;
    if i < m {
      OldAt(s, k, i);
      NewAtA(s, p', k, i);
      if i + 1 < m {
        NewAtA(s, p', k, i + 1);
      }
    } else if i < m + n {
      NewAtY(s, p', k, i - m);
      if i + 1 < m + n {
        NewAtY(s, p', k, i - m + 1);
      } else {
        OldAt(s, k, m + r - 1);
        NewAtB(s, p', k, 0);
      }
    } else {
      var j := i - m - n;
      OldAt(s, k, m + r + j);
      NewAtB(s, p', k, j);
      NewAtB(s, p', k, j + 1);
    }
  }

  lemma NewEnds(s: Shape, p': seq<DZ>, k: Cut)
    requires Structure(s) && CutOk(s, k) && Spliced(s, p', k)
    ensures var c, c' := k.Old(), k.New();
            c'[0] < |p'| && c'[|c'| - 1] < |p'| && c[0] < |s.p| && c[|c| - 1] < |s.p| &&
            p'[c'[0]].mem == s.p[c[0]].mem && p'[c'[0]].prevOwner == s.p[c[0]].prevOwner &&
            p'[c'[|c'| - 1]].End() == s.p[c[|c| - 1]].End() && p'[c'[|c'| - 1]].nextOwner == s.p[c[|c| - 1]].nextOwner
  {
    hide Structure, CutOk, Spliced;
    SplicedEnds(s, p', k);
    OldAt(s, k, 0);
    OldAt(s, k, |k.Old()| - 1);
    if k.a != [] {
      NewAtA(s, p', k, 0);
    }
    if k.b != [] {
      NewAtB(s, p', k, |k.b| - 1);
    }
  }

  /** The new chain is live and covers the block of the old one. */
  lemma NewChainLive(s: Shape, p': seq<DZ>, k: Cut)
    requires Structure(s) && CutOk(s, k) && Spliced(s, p', k)
    ensures Live(p', k.New()) && BlockOf(p', k.New()) == BlockOf(s.p, k.Old())
  {
    hide Structure, CutOk, Spliced;
    NewEnds(s, p', k);
    CutParts(s, k);
    hide Held, Distinct;
    var c' := k.New();
    forall i | 0 <= i < |c'|
      ensures c'[i] < |p'| && LiveNode(p'[c'[i]])
    {
      NewAt(s, p', k, i);
    }
    forall i | 0 <= i < |c'| - 1
      ensures Joint(p', c', i)
    {
      NewJoint(s, p', k, i);
    }
  }

  lemma NewChainLinked(s: Shape, p': seq<DZ>, k: Cut)
    requires Structure(s) && CutOk(s, k) && Spliced(s, p', k)
    ensures Linked(p', k.New()) && Held(p', k.New())
  {
    hide Structure, CutOk, Spliced, Distinct, Live;
    CutDistinct(s, k);
    CutParts(s, k);
    NewAtY(s, p', k, 0);
    forall i | 0 <= i < |k.New()|
      ensures NodeOk(p', k.New(), i)
    {
      NewAt(s, p', k, i);
    }
  }

  lemma RunAt(s: Shape, p': seq<DZ>, k: Cut, i: nat)
    requires Structure(s) && CutOk(s, k) && Spliced(s, p', k) && i < |k.run|
    ensures RunDead(s.p, p', k.run, i) && k.Old()[|k.a| + i] == k.run[i] && s.p[k.run[i]].refcount >= 0
  {
    hide Structure, CutOk;
    OldAt(s, k, |k.a| + i);
    assert RunDead(s.p, p', k.run, i);
    hide Spliced;
  }

  lemma RunHeld(s: Shape, p': seq<DZ>, k: Cut)
    requires Structure(s) && CutOk(s, k) && Spliced(s, p', k)
    ensures Held(p', k.run) && k.run != [] && Distinct(k.run)
  {
    hide Structure, CutOk, Spliced, Distinct, Live;
    CutDistinct(s, k);
    CutParts(s, k);
    var h :| 0 <= h < |k.run| && k.run[h] < |s.p| && s.p[k.run[h]].refcount > 0;
    RunAt(s, p', k, h);
  }

  lemma RunChainOk(s: Shape, p': seq<DZ>, k: Cut)
    requires Structure(s) && CutOk(s, k) && Spliced(s, p', k)
    ensures ChainOk(p', k.run) && Dead(p', k.run)
  {
    hide Structure, CutOk, Spliced, Distinct, Live, Held;
    RunHeld(s, p', k);
    forall i | 0 <= i < |k.run|
      ensures NodeOk(p', k.run, i) && k.run[i] < |p'| && p'[k.run[i]].valid == 0 && p'[k.run[i]].mem == 0
    {
      RunAt(s, p', k, i);
    }
  }

  lemma SplicedFrame(s: Shape, p': seq<DZ>, k: Cut)
    requires CutOk(s, k) && Spliced(s, p', k)
    ensures |p'| == |s.p| && forall x: nat :: x < |s.p| && x !in k.Old() && x !in k.ys ==> p'[x] == s.p[x]
  {
    hide CutOk;
  }

  lemma OtherChainKept(s: Shape, p': seq<DZ>, k: Cut, d: seq<nat>)
    requires Structure(s) && CutOk(s, k) && Spliced(s, p', k) && d in s.chains && d != k.Old()
    ensures ChainOk(p', d) && BlockOf(p', d) == BlockOf(s.p, d) && (Live(p', d) <==> Live(s.p, d))
    ensures forall x: nat :: x in d ==> x !in k.Old() && x !in k.ys
  {
    hide CutOk, Spliced, FreeOk, BlocksOk, ChainOk, Live, BlockOf;
    CutParts(s, k);
    CutDistinct(s, k);
    SplicedFrame(s, p', k);
    assert ChainOk(s.p, d);
    forall x: nat | x in d
      ensures x !in k.Old() && x !in k.ys && x < |s.p|
    {
    }
    ChainFrame(s.p, p', d);
  }

  /** Which nodes are where after the cut. */
  lemma FreeAfterCut(s: Shape, k: Cut, x: nat)
    requires Structure(s) && CutOk(s, k)
    ensures x in s.free[|k.ys|..] <==> x in s.free && x !in k.ys
  {
    var n := |k.ys|;
    assert s.free == s.free[..n] + s.free[n..];
    assert x in k.ys <==> x in s.free[..n];
    hide Structure;
    assert x in s.free <==> x in s.free[..n] || x in s.free[n..];
    FreeDistinct(s);
    if x in s.free[n..] {
      var i := Position(s.free[n..], x);
      forall j | 0 <= j < n
        ensures s.free[..n][j] != x
      {
        assert s.free[j] != s.free[n + i];
      }
    }
  }

  lemma FreeDistinct(s: Shape)
    requires Structure(s)
    ensures Distinct(s.free)
  {
  }

  lemma CutCovers(s: Shape, p': seq<DZ>, k: Cut, x: nat)
    requires Structure(s) && CutOk(s, k) && Spliced(s, p', k) && x < |p'|
    ensures x in s.free[|k.ys|..] || exists c :: c in AfterCut(s, p', k).chains && x in c
  {
    hide Structure, CutOk, Spliced;
    StructureParts(s);
    CutParts(s, k);
    SplicedFrame(s, p', k);
    hide FreeOk, BlocksOk, ChainOk, Live, Held, Distinct;
    var s' := AfterCut(s, p', k);
    CutDistinct(s, k);
    FreeAfterCut(s, k, x);
    assert x in k.New() <==> x in k.a || x in k.ys || x in k.b;
    if x in k.New() {
      assert k.New() in s'.chains;
    } else if x in k.run {
      assert k.run in s'.chains;
    } else if x !in s.free {
      var c :| c in s.chains && x in c;
      assert c in s'.chains;
    }
  }

  /** The nodes of the chains after the cut, told apart by where they come from. */
  lemma CutOrigin(s: Shape, p': seq<DZ>, k: Cut, c: seq<nat>, x: nat)
    requires Structure(s) && CutOk(s, k) && Spliced(s, p', k) && c in AfterCut(s, p', k).chains && x in c
    ensures c == k.New() || c == k.run || (c in s.chains && x !in k.New() && x !in k.run)
  {
    hide Structure, CutOk, Spliced;
    if c != k.New() && c != k.run {
      OtherChainKept(s, p', k, c);
      CutDistinct(s, k);
      assert x in k.New() <==> x in k.a || x in k.ys || x in k.b;
    }
  }

  lemma CutDisjoint(s: Shape, p': seq<DZ>, k: Cut, c: seq<nat>, d: seq<nat>, x: nat)
    requires Structure(s) && CutOk(s, k) && Spliced(s, p', k)
    requires c in AfterCut(s, p', k).chains && d in AfterCut(s, p', k).chains && x in c && x in d
    ensures c == d
  {
    hide Structure, CutOk, Spliced, FreeOk, BlocksOk, ChainOk, Distinct;
    StructureParts(s);
    CutDistinct(s, k);
    CutOrigin(s, p', k, c, x);
    CutOrigin(s, p', k, d, x);
  }

  lemma CutMember(s: Shape, p': seq<DZ>, k: Cut, c: seq<nat>, x: nat)
    requires Structure(s) && CutOk(s, k) && Spliced(s, p', k)
    requires c in AfterCut(s, p', k).chains && x in c
    ensures x < |p'| && x !in s.free[|k.ys|..]
  {
    hide Structure, CutOk, Spliced;
    StructureParts(s);
    CutParts(s, k);
    SplicedFrame(s, p', k);
    hide FreeOk, BlocksOk, ChainOk, Live, Held, Distinct;
    CutDistinct(s, k);
    FreeAfterCut(s, k, x);
    assert x in k.New() <==> x in k.a || x in k.ys || x in k.b;
  }

  lemma CutPartition(s: Shape, p': seq<DZ>, k: Cut)
    requires Structure(s) && CutOk(s, k) && Spliced(s, p', k)
    ensures Partition(AfterCut(s, p', k))
  {
    hide Structure, Spliced;
    var s' := AfterCut(s, p', k);
    forall x: nat | x < |p'|
      ensures x in s'.free || exists c :: c in s'.chains && x in c
    {
      CutCovers(s, p', k, x);
    }
    forall c, x: nat | c in s'.chains && x in c
      ensures x < |p'| && x !in s'.free
    {
      CutMember(s, p', k, c, x);
    }
    forall c, d, x: nat | c in s'.chains && d in s'.chains && x in c && x in d
      ensures c == d
    {
      CutDisjoint(s, p', k, c, d, x);
    }
  }

  lemma CutFree(s: Shape, p': seq<DZ>, k: Cut)
    requires Structure(s) && CutOk(s, k) && Spliced(s, p', k)
    ensures FreeOk(AfterCut(s, p', k))
  {
    FreeDistinct(s);
    var n := |k.ys|;
    var f' := s.free[n..];
    forall i | 0 <= i < |f'|
      ensures FreeNode(p', f', i)
    {
      FreeAfterCut(s, k, f'[i]);
      assert FreeNode(s.p, s.free, n + i) && s.free[n + i] == f'[i];
      assert f'[i] !in k.Old();
    }
  }

  lemma RunNotLive(s: Shape, p': seq<DZ>, k: Cut)
    requires Structure(s) && CutOk(s, k) && Spliced(s, p', k)
    ensures !Live(p', k.run)
  {
    hide Structure, Spliced;
    RunChainOk(s, p', k);
    Liveness(p', k.run, 0);
  }

  /** Which chains are live after the cut, and what they cover. */
  lemma LiveAfterCut(s: Shape, p': seq<DZ>, k: Cut, d: seq<nat>)
    requires Structure(s) && CutOk(s, k) && Spliced(s, p', k) && d in AfterCut(s, p', k).chains && Live(p', d)
    ensures d == k.New() || (d in s.chains && d != k.Old() && Live(s.p, d) && BlockOf(p', d) == BlockOf(s.p, d))
  {
    hide Structure, CutOk, Spliced, Live, BlockOf;
    if d == k.run {
      RunNotLive(s, p', k);
    } else if d != k.New() {
      OtherChainKept(s, p', k, d);
    }
  }

  lemma BlockCovered(s: Shape, p': seq<DZ>, k: Cut, b: Block)
    requires Structure(s) && CutOk(s, k) && Spliced(s, p', k) && b in s.blocks
    ensures exists d :: d in AfterCut(s, p', k).chains && Live(p', d) && BlockOf(p', d) == b
  {
    hide Structure, CutOk, Spliced, ChainOk, Live, BlockOf, FreeOk, Partition;
    StructureParts(s);
    CutParts(s, k);
    NewChainLive(s, p', k);
    var d :| d in s.chains && Live(s.p, d) && BlockOf(s.p, d) == b;
    if d == k.Old() {
      assert k.New() in AfterCut(s, p', k).chains;
    } else {
      OtherChainKept(s, p', k, d);
      assert d in AfterCut(s, p', k).chains;
    }
  }

  lemma CutBlocks(s: Shape, p': seq<DZ>, k: Cut)
    requires Structure(s) && CutOk(s, k) && Spliced(s, p', k)
    ensures BlocksOk(AfterCut(s, p', k))
  {
    hide Structure, CutOk, Spliced, ChainOk, Live, BlockOf, Held, Distinct, FreeOk, Partition;
    StructureParts(s);
    CutParts(s, k);
    var s' := AfterCut(s, p', k);
    NewChainLive(s, p', k);
    forall d | d in s'.chains && Live(p', d)
      ensures BlockOf(p', d) in s'.blocks
    {
      LiveAfterCut(s, p', k, d);
    }
    forall c, d | c in s'.chains && d in s'.chains && Live(p', c) && Live(p', d) && BlockOf(p', c) == BlockOf(p', d)
      ensures c == d
    {
      LiveAfterCut(s, p', k, c);
      LiveAfterCut(s, p', k, d);
    }
    forall b | b in s.blocks
      ensures exists d :: d in s'.chains && Live(p', d) && BlockOf(p', d) == b
    {
      BlockCovered(s, p', k, b);
    }
  }

  /** A splice keeps the whole structure: the block is still covered without gaps, the replaced
      pieces form a dead chain, and all else is untouched. */
  lemma SpliceKeepsStructure(s: Shape, p': seq<DZ>, k: Cut)
    requires Structure(s) && CutOk(s, k) && Spliced(s, p', k)
    ensures Structure(AfterCut(s, p', k))
  {
    hide CutOk, Spliced, FreeOk, Partition, BlocksOk, Linked, Live, Dead, Held, Distinct;
    CutParts(s, k);
    CutPartition(s, p', k);
    CutFree(s, p', k);
    CutBlocks(s, p', k);
    NewChainLive(s, p', k);
    NewChainLinked(s, p', k);
    RunChainOk(s, p', k);
    forall d | d in s.chains && d != k.Old()
      ensures ChainOk(p', d)
    {
      OtherChainKept(s, p', k, d);
    }
  }

  /** A splice as the code performs it: only the neighbours of the run are relinked. */
  ghost predicate Relinked(s: Shape, p': seq<DZ>, k: Cut)
    requires CutOk(s, k)
  {
    |p'| == |s.p| &&
    (forall x: nat :: x < |s.p| && x !in k.run && x !in k.ys && x != LastOf(k.a) && x != FirstOf(k.b) ==>
     p'[x] == s.p[x]) &&
    (k.a != [] ==> LastOf(k.a) < |s.p| && p'[LastOf(k.a)] == s.p[LastOf(k.a)].(next := k.ys[0])) &&
    (k.b != [] ==> FirstOf(k.b) < |s.p| && p'[FirstOf(k.b)] == s.p[FirstOf(k.b)].(prev := k.ys[|k.ys| - 1])) &&
    (forall i :: 0 <= i < |k.run| ==> RunDead(s.p, p', k.run, i)) &&
    (forall i :: 0 <= i < |k.ys| ==> FreshPiece(p', k.New(), |k.a| + i, k.ys[i])) &&
    (forall i :: 0 <= i < |k.ys| - 1 ==> Joint(p', k.ys, i)) &&
    SameEnds(s.p, k.run, p', k.ys)
  }

  function LastOf(a: seq<nat>): int { if a == [] then NIL else a[|a| - 1] }
  function FirstOf(b: seq<nat>): int { if b == [] then NIL else b[0] }

  lemma RelinkedIsSpliced(s: Shape, p': seq<DZ>, k: Cut)
    requires Structure(s) && CutOk(s, k) && Relinked(s, p', k)
    ensures Spliced(s, p', k)
  {
    hide Structure, CutOk, OuterKept, RunDead, FreshPiece, Joint, SameEnds;
    forall x: nat | x < |s.p| && x !in k.Old() && x !in k.ys
      ensures p'[x] == s.p[x]
    {
      RelinkedFrame(s, p', k, x);
    }
    forall i | 0 <= i < |k.a|
      ensures OuterKept(s.p, p', k.New(), i, k.a[i])
    {
      RelinkedA(s, p', k, i);
    }
    forall i | 0 <= i < |k.b|
      ensures OuterKept(s.p, p', k.New(), |k.a| + |k.ys| + i, k.b[i])
    {
      RelinkedB(s, p', k, i);
    }
  }

  lemma RelinkedFrame(s: Shape, p': seq<DZ>, k: Cut, x: nat)
    requires Structure(s) && CutOk(s, k) && Relinked(s, p', k) && x < |s.p| && x !in k.Old() && x !in k.ys
    ensures p'[x] == s.p[x]
  {
    hide Structure, CutOk, OuterKept, RunDead, FreshPiece, Joint, SameEnds;
    CutOuter(s, k);
    assert x !in k.a && x !in k.run && x !in k.b;
  }

  /** The outer pieces are none of the others. */
  lemma CutOuter(s: Shape, k: Cut)
    requires Structure(s) && CutOk(s, k)
    ensures forall x: nat :: x in k.Old() <==> x in k.a || x in k.run || x in k.b
    ensures forall i, j :: 0 <= i < |k.a| && 0 <= j < |k.a| && i != j ==> k.a[i] != k.a[j]
    ensures forall i, j :: 0 <= i < |k.b| && 0 <= j < |k.b| && i != j ==> k.b[i] != k.b[j]
    ensures forall x: nat :: x in k.a ==> x !in k.run && x !in k.ys && x !in k.b
    ensures forall x: nat :: x in k.b ==> x !in k.run && x !in k.ys
    ensures k.ys != [] && k.run != []
  {
    CutDistinct(s, k);
    CutParts(s, k);
    StructureParts(s);
    hide Structure, CutOk, FreeOk, Partition, BlocksOk, Live, Held;
    OldDistinct(s.p, k.Old());
    hide ChainOk;
    PartsDistinct(k.a, k.run, k.b);
  }

  lemma OldDistinct(p: seq<DZ>, c: seq<nat>)
    requires ChainOk(p, c)
    ensures Distinct(c)
  {
  }

  /** Parts of a sequence without repetition have no element in common. */
  lemma PartsDistinct(a: seq<nat>, run: seq<nat>, b: seq<nat>)
    requires Distinct(a + run + b)
    ensures forall i, j :: 0 <= i < |a| && 0 <= j < |a| && i != j ==> a[i] != a[j]
    ensures forall i, j :: 0 <= i < |b| && 0 <= j < |b| && i != j ==> b[i] != b[j]
    ensures forall x: nat :: x in a ==> x !in run && x !in b
    ensures forall x: nat :: x in b ==> x !in run
  {
    var c := a + run + b;
    forall i | 0 <= i < |a|
      ensures c[i] == a[i]
    {
    }
    forall i, j | 0 <= i < |a| && 0 <= j < |run|
      ensures a[i] != run[j]
    {
      assert c[i] != c[|a| + j];
    }
    forall i, j | 0 <= i < |a| && 0 <= j < |b|
      ensures a[i] != b[j]
    {
      assert c[i] != c[|a| + |run| + j];
    }
    forall i, j | 0 <= i < |b| && 0 <= j < |run|
      ensures b[i] != run[j]
    {
      assert c[|a| + |run| + i] != c[|a| + j];
    }
    forall i, j | 0 <= i < |b| && 0 <= j < |b| && i != j
      ensures b[i] != b[j]
    {
      assert c[|a| + |run| + i] != c[|a| + |run| + j];
    }
  }

  lemma RelinkedA(s: Shape, p': seq<DZ>, k: Cut, i: nat)
    requires Structure(s) && CutOk(s, k) && Relinked(s, p', k) && i < |k.a|
    ensures OuterKept(s.p, p', k.New(), i, k.a[i])
  {
    hide Structure, CutOk, RunDead, FreshPiece, Joint, SameEnds, LiveNode;
    CutOuter(s, k);
    OldAt(s, k, i);
    var x := k.a[i];
    assert x in k.a && k.Old()[i] == x;
    if i == |k.a| - 1 {
      assert k.New()[i + 1] == k.ys[0];
    } else {
      assert x != LastOf(k.a);
    }
    assert x != FirstOf(k.b);
  }

  /** The links of a piece behind the run: in the old chain, and in the new one. */
  lemma LinksBehind(k: Cut, i: nat)
    requires i < |k.b| && k.run != [] && k.ys != []
    ensures var o, n := |k.a| + |k.run| + i, |k.a| + |k.ys| + i;
            k.Old()[o] == k.b[i] && k.New()[n] == k.b[i] && NextIn(k.New(), n) == NextIn(k.Old(), o) &&
            PrevIn(k.New(), n) == if i == 0 then k.ys[|k.ys| - 1] else PrevIn(k.Old(), o)
  {
  }

  lemma RelinkedB(s: Shape, p': seq<DZ>, k: Cut, i: nat)
    requires Structure(s) && CutOk(s, k) && Relinked(s, p', k) && i < |k.b|
    ensures OuterKept(s.p, p', k.New(), |k.a| + |k.ys| + i, k.b[i])
  {
    hide Structure, CutOk, RunDead, FreshPiece, Joint, SameEnds, LiveNode;
    CutOuter(s, k);
    OldAt(s, k, |k.a| + |k.run| + i);
    LinksBehind(k, i);
    var x := k.b[i];
    assert x in k.b;
    assert i == 0 || x != FirstOf(k.b);
    assert x != LastOf(k.a);
    hide NextIn, PrevIn;
  }

  // ----- create, reference counts, and giving a chain back ---------------------------------------------

  /** A fresh block becomes a chain of one piece. */
  lemma CreateKeepsStructure(s: Shape, p': seq<DZ>, b: Block)
    requires Structure(s) && s.free != [] && s.free[0] < |s.p|
    requires b.start > 0 && b.size >= 0 && b !in s.blocks && forall b' :: b' in s.blocks ==> Apart(b, b')
    requires p' == s.p[s.free[0] := DZ(1, 1, b.start, b.size, NIL, NIL, 0, 0)]
    ensures Structure(Shape(p', s.free[1..], s.chains + {[s.free[0]]}, s.blocks + {b}))
  {
    var y := s.free[0];
    var s' := Shape(p', s.free[1..], s.chains + {[y]}, s.blocks + {b});
    hide Structure, FreeOk, BlocksOk, ChainOk, Live, BlockOf;
    StructureParts(s);
    CreatedChain(p', y, b);
    forall d | d in s.chains
      ensures ChainOk(p', d) && BlockOf(p', d) == BlockOf(s.p, d) && (Live(p', d) <==> Live(s.p, d)) && y !in d
    {
      assert y in s.free;
      ChainFrame(s.p, p', d);
    }
    assert s.free == [y] + s.free[1..];
    CreateFree(s, p');
    CreatePartition(s, s', y);
    assert BlocksOk(s') by {
      CreateBlocks(s, s', y, b);
    }
    assert Structure(s') by {
      StructureFromParts(s');
    }
  }

  lemma StructureFromParts(s: Shape)
    requires FreeOk(s) && Partition(s) && BlocksOk(s) && forall c :: c in s.chains ==> ChainOk(s.p, c)
    ensures Structure(s)
  {
    hide FreeOk, Partition, BlocksOk, ChainOk;
  }

  lemma CreatedChain(p': seq<DZ>, y: nat, b: Block)
    requires y < |p'| && b.start > 0 && b.size >= 0 && p'[y] == DZ(1, 1, b.start, b.size, NIL, NIL, 0, 0)
    ensures ChainOk(p', [y]) && Live(p', [y]) && BlockOf(p', [y]) == b
  {
    assert NodeOk(p', [y], 0);
    assert p'[[y][0]].refcount > 0;
  }

  lemma CreateFree(s: Shape, p': seq<DZ>)
    requires FreeOk(s) && s.free != [] && s.free[0] < |s.p|
    requires |p'| == |s.p| && forall x: nat :: x < |p'| && x != s.free[0] ==> p'[x] == s.p[x]
    ensures forall ch, bl :: FreeOk(Shape(p', s.free[1..], ch, bl))
  {
    var f' := s.free[1..];
    forall i | 0 <= i < |f'|
      ensures FreeNode(p', f', i)
    {
      assert FreeNode(s.p, s.free, i + 1) && s.free[i + 1] == f'[i];
    }
    assert Distinct(f');
  }

  lemma CreatePartition(s: Shape, s': Shape, y: nat)
    requires Partition(s) && Distinct(s.free) && s.free == [y] + s'.free && |s'.p| == |s.p| && y < |s.p|
    requires s'.chains == s.chains + {[y]}
    ensures Partition(s')
  {
    assert y in s.free;
    forall x: nat | x in s'.free
      ensures x in s.free && x != y
    {
      var i := Position(s'.free, x);
      assert s.free[i + 1] == x && s.free[0] == y;
    }
    forall x: nat | x < |s'.p|
      ensures x in s'.free || exists c :: c in s'.chains && x in c
    {
      if x == y {
        assert [y] in s'.chains && y in [y];
      } else if x !in s.free {
        var c :| c in s.chains && x in c;
        assert c in s'.chains;
      }
    }
  }

  lemma CreateBlocks(s: Shape, s': Shape, y: nat, b: Block)
    requires BlocksOk(s) && s'.chains == s.chains + {[y]} && s'.blocks == s.blocks + {b} && b !in s.blocks
    requires forall b' :: b' in s.blocks ==> Apart(b, b')
    requires forall d :: d in s.chains ==> BlockOf(s'.p, d) == BlockOf(s.p, d) && (Live(s'.p, d) <==> Live(s.p, d))
    requires Live(s'.p, [y]) && BlockOf(s'.p, [y]) == b
    ensures BlocksOk(s')
  {
    hide Live, BlockOf;
    forall b' | b' in s'.blocks
      ensures exists d :: d in s'.chains && Live(s'.p, d) && BlockOf(s'.p, d) == b'
    {
      if b' == b {
        assert [y] in s'.chains;
      } else {
        var d :| d in s.chains && Live(s.p, d) && BlockOf(s.p, d) == b';
        assert d in s'.chains;
      }
    }
  }

  /** Changing a reference count keeps the structure as long as the chain stays held. */
  lemma CountKeepsStructure(s: Shape, c: seq<nat>, k: nat, n: int)
    requires Structure(s) && c in s.chains && k < |c| && c[k] < |s.p| && n >= 0
    requires Held(s.p[c[k] := s.p[c[k]].(refcount := n)], c)
    ensures Structure(s.(p := s.p[c[k] := s.p[c[k]].(refcount := n)]))
  {
    var x := c[k];
    var p' := s.p[x := s.p[x].(refcount := n)];
    hide Structure, FreeOk, BlocksOk, ChainOk, Live, BlockOf, Held;
    StructureParts(s);
    assert x in c;
    CountChain(s.p, p', c, k);
    forall d | d in s.chains
      ensures ChainOk(p', d) && BlockOf(p', d) == BlockOf(s.p, d) && (Live(p', d) <==> Live(s.p, d))
    {
      if d != c {
        assert x !in d;
        ChainFrame(s.p, p', d);
      }
    }
    CountFree(s, p', x);
    CountBlocks(s, s.(p := p'));
    assert Partition(s.(p := p'));
    StructureFromParts(s.(p := p'));
  }

  lemma CountChain(p: seq<DZ>, p': seq<DZ>, c: seq<nat>, k: nat)
    requires ChainOk(p, c) && k < |c| && c[k] < |p| && Held(p', c)
    requires |p'| == |p| && p'[c[k]].refcount >= 0 && p' == p[c[k] := p[c[k]].(refcount := p'[c[k]].refcount)]
    ensures ChainOk(p', c) && BlockOf(p', c) == BlockOf(p, c) && (Live(p', c) <==> Live(p, c))
  {
    hide Held;
    forall i | 0 <= i < |c|
      ensures NodeOk(p', c, i) && c[i] < |p| && p'[c[i]] == p[c[i]].(refcount := p'[c[i]].refcount)
    {
      assert NodeOk(p, c, i);
    }
    CountLive(p, p', c);
    CountLive(p', p, c);
    if Dead(p, c) {
      assert Dead(p', c);
    }
  }

  lemma CountLive(p: seq<DZ>, p': seq<DZ>, c: seq<nat>)
    requires Live(p, c) ==> |p'| == |p|
    requires forall i :: 0 <= i < |c| ==> c[i] < |p| == |p'| && p'[c[i]] == p[c[i]].(refcount := p'[c[i]].refcount)
    ensures Live(p, c) ==> Live(p', c)
  {
    if Live(p, c) {
      forall i | 0 <= i < |c| - 1
        ensures Joint(p', c, i)
      {
        assert Joint(p, c, i);
      }
    }
  }

  lemma CountFree(s: Shape, p': seq<DZ>, x: nat)
    requires FreeOk(s) && x !in s.free && |p'| == |s.p| && forall y: nat :: y < |p'| && y != x ==> p'[y] == s.p[y]
    ensures FreeOk(s.(p := p'))
  {
    forall i | 0 <= i < |s.free|
      ensures FreeNode(p', s.free, i)
    {
      assert FreeNode(s.p, s.free, i) && s.free[i] in s.free;
    }
  }

  lemma CountBlocks(s: Shape, s': Shape)
    requires BlocksOk(s) && s'.chains == s.chains && s'.blocks == s.blocks
    requires forall d :: d in s.chains ==> BlockOf(s'.p, d) == BlockOf(s.p, d) && (Live(s'.p, d) <==> Live(s.p, d))
    ensures BlocksOk(s')
  {
    hide Live, BlockOf;
    forall b' | b' in s'.blocks
      ensures exists d :: d in s'.chains && Live(s'.p, d) && BlockOf(s'.p, d) == b'
    {
      var d :| d in s.chains && Live(s.p, d) && BlockOf(s.p, d) == b';
      assert d in s'.chains;
    }
  }

  /** The nodes of c have been pushed onto the free list, in some order. */
  ghost predicate ChainFreed(s: Shape, p': seq<DZ>, c: seq<nat>, pre: seq<nat>) {
    |p'| == |s.p| && (forall x: nat :: x < |s.p| && x !in c ==> p'[x] == s.p[x]) &&
    Distinct(pre) && (forall x: nat :: x in pre <==> x in c) &&
    forall i :: 0 <= i < |pre| ==> FreeNode(p', pre + s.free, i)
  }

  /** What is left when the chain c has been given back. */
  ghost function AfterFree(s: Shape, p': seq<DZ>, c: seq<nat>, pre: seq<nat>): Shape {
    Shape(p', pre + s.free, s.chains - {c}, if Live(s.p, c) then s.blocks - {BlockOf(s.p, c)} else s.blocks)
  }

  lemma FreeKeepsStructure(s: Shape, p': seq<DZ>, c: seq<nat>, pre: seq<nat>)
    requires Structure(s) && c in s.chains && ChainFreed(s, p', c, pre)
    ensures Structure(AfterFree(s, p', c, pre))
  {
    var s' := AfterFree(s, p', c, pre);
    hide Structure, FreeOk, BlocksOk, ChainOk, Live, BlockOf;
    StructureParts(s);
    forall d | d in s'.chains
      ensures ChainOk(p', d) && BlockOf(p', d) == BlockOf(s.p, d) && (Live(p', d) <==> Live(s.p, d))
    {
      ChainFrame(s.p, p', d);
    }
    FreedFree(s, p', c, pre);
    FreedPartition(s, s', c, pre);
    FreedBlocks(s, s', c);
    StructureFromParts(s');
  }

  lemma FreedFree(s: Shape, p': seq<DZ>, c: seq<nat>, pre: seq<nat>)
    requires FreeOk(s) && Partition(s) && c in s.chains && ChainFreed(s, p', c, pre)
    ensures forall ch, bl :: FreeOk(Shape(p', pre + s.free, ch, bl))
  {
    var f', n := pre + s.free, |pre|;
    forall i | 0 <= i < |f'|
      ensures FreeNode(p', f', i)
    {
      if i >= n {
        assert FreeNode(s.p, s.free, i - n) && f'[i] == s.free[i - n] && s.free[i - n] in s.free;
      }
    }
    forall i, j | 0 <= i < j < |f'|
      ensures f'[i] != f'[j]
    {
      if i < n {
        assert f'[i] == pre[i] && pre[i] in pre;
        if j >= n {
          assert f'[j] == s.free[j - n] && s.free[j - n] in s.free;
        }
      }
    }
  }

  lemma FreedPartition(s: Shape, s': Shape, c: seq<nat>, pre: seq<nat>)
    requires Partition(s) && c in s.chains && s'.chains == s.chains - {c} && s'.free == pre + s.free && |s'.p| == |s.p|
    requires forall x: nat :: x in pre <==> x in c
    ensures Partition(s')
  {
    forall x: nat | x < |s'.p|
      ensures x in s'.free || exists d :: d in s'.chains && x in d
    {
      if x !in s.free && x !in c {
        var d :| d in s.chains && x in d;
        assert d in s'.chains;
      }
    }
  }

  lemma FreedBlocks(s: Shape, s': Shape, c: seq<nat>)
    requires BlocksOk(s) && c in s.chains && s'.chains == s.chains - {c}
    requires s'.blocks == if Live(s.p, c) then s.blocks - {BlockOf(s.p, c)} else s.blocks
    requires forall d :: d in s'.chains ==> BlockOf(s'.p, d) == BlockOf(s.p, d) && (Live(s'.p, d) <==> Live(s.p, d))
    ensures BlocksOk(s')
  {
    hide Live, BlockOf;
    forall b' | b' in s'.blocks
      ensures exists d :: d in s'.chains && Live(s'.p, d) && BlockOf(s'.p, d) == b'
    {
      var d :| d in s.chains && Live(s.p, d) && BlockOf(s.p, d) == b';
      assert d in s'.chains;
    }
  }
}
