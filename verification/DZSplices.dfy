/** Split, join, joinAll and revoke seen as splices of a chain (zero_Memory_org.c). */
module DZSplices {
  import opened DZChains
  import opened DZRefs

  /** The first nodes of the free list are new to every chain. */
  lemma FreshNodes(s: Shape, c: seq<nat>, n: nat)
    requires Structure(s) && c in s.chains && n <= |s.free|
    ensures forall j :: 0 <= j < n ==> s.free[j] < |s.p| && s.free[j] !in c && s.p[s.free[j]].valid == 2
    ensures forall i, j :: 0 <= i < j < n ==> s.free[i] != s.free[j]
  {
    forall j | 0 <= j < n
      ensures s.free[j] < |s.p| && s.free[j] !in c && s.p[s.free[j]].valid == 2
    {
      assert FreeNode(s.p, s.free, j) && s.free[j] in s.free;
    }
  }

  /** The pieces from i up to j of the live chain c, to be replaced by the next free nodes. */
  lemma RunCut(s: Shape, c: seq<nat>, i: nat, j: nat, ys: seq<nat>)
    requires Structure(s) && c in s.chains && Live(s.p, c) && i < j <= |c| && Held(s.p, c[i..j])
    requires 0 < |ys| <= |s.free| && Distinct(ys) && forall x: nat :: x in ys <==> x in s.free[..|ys|]
    ensures c[..i] + c[i..j] + c[j..] == c
    ensures CutOk(s, Cut(c[..i], c[i..j], c[j..], ys))
    ensures s.p[c[i]].prev == LastOf(c[..i]) && s.p[c[j - 1]].next == FirstOf(c[j..])
  {
    hide Live, Held, Distinct;
    assert c[..i] + c[i..j] + c[j..] == c;
    assert ChainOk(s.p, c) && NodeOk(s.p, c, i) && NodeOk(s.p, c, j - 1);
  }

  lemma LivePiece(s: Shape, c: seq<nat>, i: nat)
    requires Live(s.p, c) && i < |c|
    ensures c[i] < |s.p| && LiveNode(s.p[c[i]])
  {
  }

  /** The links of a piece lead to its neighbours in the chain. */
  lemma Neighbours(s: Shape, c: seq<nat>, i: nat)
    requires Structure(s) && c in s.chains && i < |c|
    ensures c[i] < |s.p|
    ensures s.p[c[i]].prev != NIL ==> i > 0 && s.p[c[i]].prev == c[i - 1] && c[i - 1] < |s.p|
    ensures s.p[c[i]].next != NIL ==> i + 1 < |c| && s.p[c[i]].next == c[i + 1] && c[i + 1] < |s.p|
  {
    hide Live, Dead, Held;
    assert ChainOk(s.p, c) && NodeOk(s.p, c, i);
    hide Structure;
    if i > 0 {
      assert NodeOk(s.p, c, i - 1);
    }
    if i + 1 < |c| {
      assert NodeOk(s.p, c, i + 1);
    }
  }

  /** The nodes ys can take the place of run: no node is used twice, not even as a neighbour. */
  ghost predicate RunReady(p: seq<DZ>, run: seq<nat>, ys: seq<nat>) {
    run != [] && run[0] < |p| && run[|run| - 1] < |p| && (forall x: nat :: x in run ==> x < |p|) &&
    (forall y: nat :: y in ys ==> y < |p| && y !in run) &&
    Distinct(ys) && LinkOut(p, run, ys, p[run[0]].prev) && LinkOut(p, run, ys, p[run[|run| - 1]].next) &&
    (p[run[0]].prev != NIL ==> p[run[0]].prev != p[run[|run| - 1]].next)
  }

  predicate LinkOut(p: seq<DZ>, run: seq<nat>, ys: seq<nat>, link: int) {
    link != NIL ==> 0 <= link < |p| && link as nat !in run && link as nat !in ys
  }

  /** RunReady node by node. */
  lemma ReadyApart(p: seq<DZ>, run: seq<nat>, ys: seq<nat>)
    requires RunReady(p, run, ys)
    ensures run != [] && forall i :: 0 <= i < |run| ==> run[i] < |p|
    ensures forall i, j :: 0 <= i < |run| && 0 <= j < |ys| ==> ys[j] < |p| && run[i] != ys[j]
    ensures forall i, j :: 0 <= i < j < |ys| ==> ys[i] != ys[j]
    ensures var left, right := p[run[0]].prev, p[run[|run| - 1]].next;
            (left != NIL ==> 0 <= left < |p| && left != right) && (right != NIL ==> 0 <= right < |p|) &&
            (forall i :: 0 <= i < |run| ==> left != run[i] && right != run[i]) &&
            forall j :: 0 <= j < |ys| ==> left != ys[j] && right != ys[j]
  {
    forall i | 0 <= i < |run|
      ensures run[i] in run
    {
    }
    forall j | 0 <= j < |ys|
      ensures ys[j] in ys
    {
    }
  }

  lemma RunIsReady(s: Shape, c: seq<nat>, i: nat, j: nat, n: nat)
    requires Structure(s) && c in s.chains && i < j <= |c| && n <= |s.free|
    ensures RunReady(s.p, c[i..j], s.free[..n])
  {
    hide Structure, Live, Dead, Held;
    StructureParts(s);
    hide FreeOk, Partition, BlocksOk;
    FreshNodes(s, c, n);
    assert ChainOk(s.p, c) && NodeOk(s.p, c, i) && NodeOk(s.p, c, j - 1);
    var run, ys := c[i..j], s.free[..n];
    forall x: nat | x in run
      ensures x < |s.p| && x in c
    {
      var m := Position(run, x);
      assert NodeOk(s.p, c, i + m) && c[i + m] == x;
    }
    forall m | 0 <= m < |c| && !(i <= m < j)
      ensures c[m] !in run && c[m] !in ys && c[m] < |s.p|
    {
      assert NodeOk(s.p, c, m);
    }
  }

  // ----- a run of pieces replaced by fresh ones -----------------------------------------------------

  /** Outside the nodes given, only the neighbours left and right have changed, and those only in
      the link towards them. */
  ghost predicate NeighboursLinked(p: seq<DZ>, p': seq<DZ>, inner: set<nat>, left: int, first: nat, right: int,
                                   last: nat) {
    |p'| == |p| &&
    (forall z: nat :: z < |p| && z !in inner && z != left && z != right ==> p'[z] == p[z]) &&
    (left != NIL ==> 0 <= left < |p| && left !in inner && left != right && p'[left] == p[left].(next := first)) &&
    (right != NIL ==> 0 <= right < |p| && right !in inner && p'[right] == p[right].(prev := last))
  }

  ghost function NodesOf(run: seq<nat>, ys: seq<nat>): set<nat> {
    (set x | x in run) + (set x | x in ys)
  }

  lemma InNodesOf(run: seq<nat>, ys: seq<nat>)
    ensures forall x :: x in NodesOf(run, ys) <==> x in run || x in ys
  {
  }

  /** The fresh piece j of ys between the outer neighbours left and right. */
  predicate PieceAt(p': seq<DZ>, ys: seq<nat>, j: int, left: int, right: int) {
    0 <= j < |ys| && ys[j] < |p'| && LiveNode(p'[ys[j]]) && p'[ys[j]].refcount == 1 &&
    p'[ys[j]].next == (if j + 1 < |ys| then ys[j + 1] else right) &&
    p'[ys[j]].prev == (if j > 0 then ys[j - 1] else left)
  }

  /** The pieces run give way to the fresh pieces ys, which cover the same range. */
  ghost predicate Replaced(p: seq<DZ>, p': seq<DZ>, run: seq<nat>, ys: seq<nat>) {
    SameEnds(p, run, p', ys) &&
    var left, right := p[run[0]].prev, p[run[|run| - 1]].next;
    NeighboursLinked(p, p', NodesOf(run, ys), left, ys[0], right, ys[|ys| - 1]) &&
    (forall i :: 0 <= i < |run| ==> RunDead(p, p', run, i)) &&
    (forall j :: 0 <= j < |ys| ==> PieceAt(p', ys, j, left, right)) &&
    forall j :: 0 <= j < |ys| - 1 ==> Joint(p', ys, j)
  }

  /** Replacing the pieces from i up to j of a live chain keeps the whole structure. */
  lemma ReplacedKeepsStructure(s: Shape, p': seq<DZ>, c: seq<nat>, i: nat, j: nat, ys: seq<nat>)
    requires Structure(s) && c in s.chains && Live(s.p, c) && i < j <= |c| && Held(s.p, c[i..j])
    requires 0 < |ys| <= |s.free| && Distinct(ys) && forall x: nat :: x in ys <==> x in s.free[..|ys|]
    requires Replaced(s.p, p', c[i..j], ys)
    ensures Structure(Shape(p', s.free[|ys|..], s.chains - {c} + {c[..i] + ys + c[j..], c[i..j]}, s.blocks))
  {
    hide Structure, Live, Held, Distinct, CutOk, Relinked, Replaced;
    RunCut(s, c, i, j, ys);
    var k := Cut(c[..i], c[i..j], c[j..], ys);
    ReplacedIsRelinked(s, p', k);
    RelinkedKeepsStructure(s, p', k);
    assert k.Old() == c;
  }

  lemma ReplacedIsRelinked(s: Shape, p': seq<DZ>, k: Cut)
    requires CutOk(s, k) && Replaced(s.p, p', k.run, k.ys)
    requires s.p[k.run[0]].prev == LastOf(k.a) && s.p[k.run[|k.run| - 1]].next == FirstOf(k.b)
    ensures Relinked(s, p', k)
  {
    hide CutOk, RunDead, Joint, SameEnds, PieceAt, FreshPiece, Replaced;
    ReplacedParts(s.p, p', k.run, k.ys);
    AllFresh(p', k);
    RelinkedFromParts(s, p', k);
  }

  lemma AllFresh(p': seq<DZ>, k: Cut)
    requires forall j :: 0 <= j < |k.ys| ==> PieceAt(p', k.ys, j, LastOf(k.a), FirstOf(k.b))
    ensures forall j :: 0 <= j < |k.ys| ==> FreshPiece(p', k.New(), |k.a| + j, k.ys[j])
  {
    hide PieceAt, FreshPiece;
    forall j | 0 <= j < |k.ys|
      ensures FreshPiece(p', k.New(), |k.a| + j, k.ys[j])
    {
      assert PieceAt(p', k.ys, j, LastOf(k.a), FirstOf(k.b));
      FreshInCut(p', k, j);
    }
  }

  /** Replaced clause by clause. */
  lemma ReplacedParts(p: seq<DZ>, p': seq<DZ>, run: seq<nat>, ys: seq<nat>)
    requires Replaced(p, p', run, ys)
    ensures SameEnds(p, run, p', ys) && |p'| == |p| && run != [] && ys != [] && run[0] < |p| && run[|run| - 1] < |p|
    ensures var left, right := p[run[0]].prev, p[run[|run| - 1]].next;
            (forall x: nat :: x < |p| && x !in run && x !in ys && x != left && x != right ==> p'[x] == p[x]) &&
            (left != NIL ==> 0 <= left < |p| && p'[left] == p[left].(next := ys[0])) &&
            (right != NIL ==> 0 <= right < |p| && p'[right] == p[right].(prev := ys[|ys| - 1])) &&
            forall j :: 0 <= j < |ys| ==> PieceAt(p', ys, j, left, right)
    ensures forall i :: 0 <= i < |run| ==> RunDead(p, p', run, i)
    ensures forall j :: 0 <= j < |ys| - 1 ==> Joint(p', ys, j)
  {
    assert run != [] && ys != [] && run[0] < |p| && run[|run| - 1] < |p|;
    hide SameEnds, RunDead, Joint, PieceAt, NeighboursLinked, NodesOf;
    var left, right := p[run[0]].prev, p[run[|run| - 1]].next;
    NeighboursFrame(p, p', run, ys, left, ys[0], right, ys[|ys| - 1]);
  }

  lemma RelinkedFromParts(s: Shape, p': seq<DZ>, k: Cut)
    requires CutOk(s, k) && k.ys != [] && |p'| == |s.p|
    requires forall x: nat ::
               x < |s.p| && x !in k.run && x !in k.ys && x != LastOf(k.a) && x != FirstOf(k.b) ==> p'[x] == s.p[x]
    requires k.a != [] ==> LastOf(k.a) < |s.p| && p'[LastOf(k.a)] == s.p[LastOf(k.a)].(next := k.ys[0])
    requires k.b != [] ==> FirstOf(k.b) < |s.p| && p'[FirstOf(k.b)] == s.p[FirstOf(k.b)].(prev := k.ys[|k.ys| - 1])
    requires forall i :: 0 <= i < |k.run| ==> RunDead(s.p, p', k.run, i)
    requires forall j :: 0 <= j < |k.ys| ==> FreshPiece(p', k.New(), |k.a| + j, k.ys[j])
    requires forall j :: 0 <= j < |k.ys| - 1 ==> Joint(p', k.ys, j)
    requires SameEnds(s.p, k.run, p', k.ys)
    ensures Relinked(s, p', k)
  {
    hide CutOk, RunDead, Joint, SameEnds, FreshPiece;
  }

  lemma FreshInCut(p': seq<DZ>, k: Cut, j: nat)
    requires j < |k.ys| && PieceAt(p', k.ys, j, LastOf(k.a), FirstOf(k.b))
    ensures FreshPiece(p', k.New(), |k.a| + j, k.ys[j])
  {
    FreshLinks(k, j);
    hide NextIn, PrevIn;
  }

  /** NeighboursLinked node by node. */
  lemma NeighboursFrame(p: seq<DZ>, p': seq<DZ>, run: seq<nat>, ys: seq<nat>, left: int, first: nat, right: int,
                        last: nat)
    requires NeighboursLinked(p, p', NodesOf(run, ys), left, first, right, last)
    ensures |p'| == |p| && forall x: nat :: x < |p| && x !in run && x !in ys && x != left && x != right ==>
              p'[x] == p[x]
    ensures left != NIL ==> 0 <= left < |p| && p'[left] == p[left].(next := first)
    ensures right != NIL ==> 0 <= right < |p| && p'[right] == p[right].(prev := last)
  {
    InNodesOf(run, ys);
    hide NodesOf;
  }

  /** Counts after a replacement: only the fresh pieces got a reference. */
  lemma ReplacedReshapes(p: seq<DZ>, p': seq<DZ>, run: seq<nat>, ys: seq<nat>, owed: set<nat>)
    requires Replaced(p, p', run, ys)
    requires forall x: nat :: x in ys ==> x < |p| && p[x].valid == 2 && x !in run
    requires forall x: nat :: x in run ==> x < |p| && p[x].valid == 1
    requires forall x: nat :: x in owed <==> x in ys
    ensures Reshaped(p, p', owed)
  {
    forall x: nat | x in ys
      ensures p'[x].valid == 1 && p'[x].refcount == 1
    {
      var j := Position(ys, x);
      assert PieceAt(p', ys, j, p[run[0]].prev, p[run[|run| - 1]].next);
    }
    forall x: nat | x in run
      ensures p'[x].valid == 0 && p'[x].refcount == p[x].refcount
    {
      var i := Position(run, x);
      assert RunDead(p, p', run, i);
    }
  }

  // ----- split ------------------------------------------------------------------------------------------

  /** The three pieces of x: their ranges, owners and counts; x itself is dead, all nodes that are no
      neighbours of x are unchanged. */
  ghost predicate Split3Pieces(p: seq<DZ>, p': seq<DZ>, x: nat, offset: int, len: int, domain: int, y0: nat, y1: nat,
                               y2: nat) {
    x < |p| == |p'| && y0 < |p| && y1 < |p| && y2 < |p| &&
    var d := p[x];
    p'[y0] == DZ(1, 1, d.mem, offset, d.prev, y1, d.prevOwner, domain) &&
    p'[y1] == DZ(1, 1, d.mem + offset, len, y0, y2, domain, domain) &&
    p'[y2] == DZ(1, 1, d.mem + len + offset, d.size - len - offset, y1, d.next, domain, d.nextOwner) &&
    p'[x] == d.(prev := NIL, next := NIL, valid := 0, mem := 0) &&
    NeighboursLinked(p, p', {x, y0, y1, y2}, d.prev, y0, d.next, y2)
  }

  lemma Split3Replaces(p: seq<DZ>, p': seq<DZ>, x: nat, offset: int, len: int, domain: int, y0: nat, y1: nat, y2: nat)
    requires Split3Pieces(p, p', x, offset, len, domain, y0, y1, y2)
    requires LiveNode(p[x]) && 0 <= offset && 0 <= len && offset + len <= p[x].size
    ensures Replaced(p, p', [x], [y0, y1, y2])
  {
    assert NodesOf([x], [y0, y1, y2]) == {x, y0, y1, y2};
    hide NeighboursLinked, NodesOf;
    var ys := [y0, y1, y2];
    assert RunDead(p, p', [x], 0);
    assert PieceAt(p', ys, 0, p[x].prev, p[x].next) && PieceAt(p', ys, 1, p[x].prev, p[x].next) &&
           PieceAt(p', ys, 2, p[x].prev, p[x].next);
    assert Joint(p', ys, 0) && Joint(p', ys, 1);
  }

  ghost predicate Split2Pieces(p: seq<DZ>, p': seq<DZ>, x: nat, offset: int, domain: int, y0: nat, y1: nat) {
    x < |p| == |p'| && y0 < |p| && y1 < |p| &&
    var d := p[x];
    p'[y0] == DZ(1, 1, d.mem, offset, d.prev, y1, d.prevOwner, domain) &&
    p'[y1] == DZ(1, 1, d.mem + offset, d.size - offset, y0, d.next, domain, d.nextOwner) &&
    p'[x] == d.(prev := NIL, next := NIL, valid := 0, mem := 0) &&
    NeighboursLinked(p, p', {x, y0, y1}, d.prev, y0, d.next, y1)
  }

  lemma Split2Replaces(p: seq<DZ>, p': seq<DZ>, x: nat, offset: int, domain: int, y0: nat, y1: nat)
    requires Split2Pieces(p, p', x, offset, domain, y0, y1)
    requires LiveNode(p[x]) && 0 <= offset <= p[x].size
    ensures Replaced(p, p', [x], [y0, y1])
  {
    assert NodesOf([x], [y0, y1]) == {x, y0, y1};
    hide NeighboursLinked, NodesOf;
    var ys := [y0, y1];
    assert RunDead(p, p', [x], 0);
    assert PieceAt(p', ys, 0, p[x].prev, p[x].next) && PieceAt(p', ys, 1, p[x].prev, p[x].next);
    assert Joint(p', ys, 0);
  }

  // ----- join -------------------------------------------------------------------------------------------

  /** x1 and its successor x2 give way to y, which has the outer owners and neighbours of both. */
  ghost predicate JoinPieces(p: seq<DZ>, p': seq<DZ>, x1: nat, x2: nat, y: nat) {
    x1 < |p| == |p'| && x2 < |p| && y < |p| &&
    var d1, d2 := p[x1], p[x2];
    p'[y] == DZ(1, 1, d1.mem, d1.size + d2.size, d1.prev, d2.next, d1.prevOwner, d2.nextOwner) &&
    p'[x1] == d1.(prev := NIL, valid := 0, mem := 0) &&
    p'[x2] == d2.(next := NIL, valid := 0, mem := 0) &&
    NeighboursLinked(p, p', {x1, x2, y}, d1.prev, y, d2.next, y)
  }

  lemma JoinReplaces(p: seq<DZ>, p': seq<DZ>, x1: nat, x2: nat, y: nat)
    requires JoinPieces(p, p', x1, x2, y) && LiveNode(p[x1]) && LiveNode(p[x2]) && p[x1].End() == p[x2].mem
    requires p[x1].next == x2 && p[x2].prev == x1
    ensures Replaced(p, p', [x1, x2], [y])
  {
    assert NodesOf([x1, x2], [y]) == {x1, x2, y};
    hide NeighboursLinked, NodesOf;
    assert RunDead(p, p', [x1, x2], 0) && RunDead(p, p', [x1, x2], 1);
    assert PieceAt(p', [y], 0, p[x1].prev, p[x2].next);
  }

  // ----- joinAll ----------------------------------------------------------------------------------------

  /** From position k of c back over the boundaries that domain d owns. */
  ghost function RunStart(p: seq<DZ>, c: seq<nat>, k: nat, d: int): (a: nat)
    ensures a <= k
  {
    if 0 < k < |c| && c[k] < |p| && p[c[k]].prevOwner == d then RunStart(p, c, k - 1, d) else k
  }

  /** From position k of c on over the boundaries that domain d owns, to the end of the run. */
  ghost function RunEnd(p: seq<DZ>, c: seq<nat>, k: nat, d: int): (b: nat)
    ensures b > k
    decreases |c| - k
  {
    if k + 1 < |c| && c[k] < |p| && p[c[k]].nextOwner == d then RunEnd(p, c, k + 1, d) else k + 1
  }

  /** [RunStart, RunEnd) is the maximal run around k whose inner boundaries all belong to d. */
  lemma RunMaximal(p: seq<DZ>, c: seq<nat>, k: nat, d: int)
    requires Live(p, c) && k < |c|
    ensures var a, b := RunStart(p, c, k, d), RunEnd(p, c, k, d);
            a <= k < b <= |c| && RunEnd(p, c, a, d) == b &&
            (forall m :: a <= m < b - 1 ==> c[m] < |p| && p[c[m]].nextOwner == d) &&
            (a > 0 ==> c[a] < |p| && p[c[a]].prevOwner != d) &&
            (b < |c| ==> c[b - 1] < |p| && p[c[b - 1]].nextOwner != d)
  {
    RunStartMaximal(p, c, k, d);
    RunEndMaximal(p, c, k, d);
  }

  lemma {:induction false} RunStartMaximal(p: seq<DZ>, c: seq<nat>, k: nat, d: int)
    requires Live(p, c) && k < |c|
    ensures var a := RunStart(p, c, k, d);
            a <= k && RunEnd(p, c, a, d) == RunEnd(p, c, k, d) && (a > 0 ==> c[a] < |p| && p[c[a]].prevOwner != d) &&
            forall m :: a <= m < k ==> c[m] < |p| && p[c[m]].nextOwner == d
  {
    if 0 < k && p[c[k]].prevOwner == d {
      assert Joint(p, c, k - 1);
      RunStartMaximal(p, c, k - 1, d);
    }
  }

  lemma {:induction false} RunEndMaximal(p: seq<DZ>, c: seq<nat>, k: nat, d: int)
    requires Live(p, c) && k < |c|
    ensures var b := RunEnd(p, c, k, d);
            k < b <= |c| && (b < |c| ==> c[b - 1] < |p| && p[c[b - 1]].nextOwner != d) &&
            forall m :: k <= m < b - 1 ==> c[m] < |p| && p[c[m]].nextOwner == d
    decreases |c| - k
  {
    if k + 1 < |c| && p[c[k]].nextOwner == d {
      RunEndMaximal(p, c, k + 1, d);
    }
  }

  /** The run has been marked dead, its links are still as before. */
  ghost predicate Marked(p: seq<DZ>, p': seq<DZ>, run: seq<nat>) {
    |p'| == |p| &&
    (forall z: nat :: z < |p| && z !in run ==> p'[z] == p[z]) &&
    forall z: nat :: z < |p| && z in run ==> p'[z] == p[z].(valid := 0, mem := 0)
  }

  /** A position of the chain: its links, and the boundary to the next piece. */
  lemma LiveAt(s: Shape, c: seq<nat>, i: nat)
    requires Structure(s) && c in s.chains && Live(s.p, c) && i < |c|
    ensures c[i] < |s.p| && LiveNode(s.p[c[i]]) && NodeOk(s.p, c, i) && Joint(s.p, c, i)
    ensures forall j :: 0 <= j < |c| && j != i ==> c[j] != c[i]
  {
    assert ChainOk(s.p, c);
    hide Structure;
    assert NodeOk(s.p, c, i);
    assert i < |c| - 1 ==> Joint(s.p, c, i);
  }

  /** The run is dead, and only its outer links have been cut. */
  ghost predicate RunCutOff(p: seq<DZ>, p': seq<DZ>, run: seq<nat>)
    requires run != []
  {
    |p'| == |p| && forall i :: 0 <= i < |run| ==> CutOffAt(p, p', run, i)
  }

  predicate CutOffAt(p: seq<DZ>, p': seq<DZ>, run: seq<nat>, i: int)
    requires run != []
  {
    0 <= i < |run| && run[i] < |p| && run[i] < |p'| &&
    p'[run[i]] == p[run[i]].(valid := 0, mem := 0, prev := if i == 0 then NIL else p[run[i]].prev,
                             next := if i == |run| - 1 then NIL else p[run[i]].next)
  }

  lemma CutOffIsDead(s: Shape, p': seq<DZ>, c: seq<nat>, i: nat, j: nat, m: nat)
    requires Structure(s) && c in s.chains && Live(s.p, c) && i < j <= |c| && m < j - i && CutOffAt(s.p, p', c[i..j], m)
    ensures RunDead(s.p, p', c[i..j], m)
  {
    hide Structure, Live;
    LiveAt(s, c, i + m);
  }

  lemma RunGivesWayToOne(s: Shape, p': seq<DZ>, c: seq<nat>, i: nat, j: nat, run: seq<nat>, y: nat)
    requires Structure(s) && c in s.chains && Live(s.p, c) && i < j <= |c| && run == c[i..j]
    requires run[0] < |s.p| && run[|run| - 1] < |s.p| && y < |s.p| == |p'|
    requires var first, last := s.p[run[0]], s.p[run[|run| - 1]];
             NeighboursLinked(s.p, p', NodesOf(run, [y]), first.prev, y, last.next, y) &&
             p'[y] == DZ(1, 1, first.mem, last.End() - first.mem, first.prev, last.next, first.prevOwner,
                         last.nextOwner)
    requires RunCutOff(s.p, p', run)
    ensures Replaced(s.p, p', run, [y])
  {
    hide Structure, Live, NeighboursLinked, NodesOf, RunCutOff, RunDead, Replaced;
    AllCutOffDead(s, p', c, i, j);
    RunEnds(s, c, i, j);
    OneReplaces(s.p, p', run, y);
  }

  lemma RunEnds(s: Shape, c: seq<nat>, i: nat, j: nat)
    requires Live(s.p, c) && i < j <= |c|
    ensures var first, last := c[i..j][0], c[i..j][|c[i..j]| - 1];
            first == c[i] && last == c[j - 1] && first < |s.p| && last < |s.p| &&
            s.p[first].mem > 0 && s.p[first].mem <= s.p[last].End()
  {
    if i < j - 1 {
      LiveOrder(s.p, c, i, j - 1);
    }
  }

  lemma AllCutOffDead(s: Shape, p': seq<DZ>, c: seq<nat>, i: nat, j: nat)
    requires Structure(s) && c in s.chains && Live(s.p, c) && i < j <= |c| && RunCutOff(s.p, p', c[i..j])
    ensures forall m :: 0 <= m < |c[i..j]| ==> RunDead(s.p, p', c[i..j], m)
  {
    hide Structure, Live, CutOffAt, RunDead;
    forall m | 0 <= m < |c[i..j]|
      ensures RunDead(s.p, p', c[i..j], m)
    {
      assert CutOffAt(s.p, p', c[i..j], m);
      CutOffIsDead(s, p', c, i, j, m);
    }
  }

  lemma OneReplaces(p: seq<DZ>, p': seq<DZ>, run: seq<nat>, y: nat)
    requires run != [] && run[0] < |p| && run[|run| - 1] < |p| == |p'| && y < |p|
    requires var first, last := p[run[0]], p[run[|run| - 1]];
             NeighboursLinked(p, p', NodesOf(run, [y]), first.prev, y, last.next, y) && LiveNode(p'[y]) &&
             p'[y] == DZ(1, 1, first.mem, last.End() - first.mem, first.prev, last.next, first.prevOwner,
                         last.nextOwner)
    requires forall m :: 0 <= m < |run| ==> RunDead(p, p', run, m)
    ensures Replaced(p, p', run, [y])
  {
    hide NeighboursLinked, NodesOf, RunDead;
    assert PieceAt(p', [y], 0, p[run[0]].prev, p[run[|run| - 1]].next);
  }

  /** The pool after the links of joinAll, node by node. */
  ghost predicate LinkedRun(p: seq<DZ>, p': seq<DZ>, run: seq<nat>, y: nat)
    requires run != [] && run[0] < |p| && run[|run| - 1] < |p|
  {
    |p'| == |p| && forall z: nat :: z < |p| && z != y ==> p'[z] == LinkedNode(p, run, y, z)
  }

  ghost function LinkedNode(p: seq<DZ>, run: seq<nat>, y: nat, z: nat): DZ
    requires run != [] && run[0] < |p| && run[|run| - 1] < |p| && z < |p|
  {
    var n := p[z];
    if z in run then
      n.(valid := 0, mem := 0, prev := if z == run[0] then NIL else n.prev, next := if z == run[|run| - 1] then NIL
         else n.next)
    else if z == p[run[0]].prev then n.(next := y)
    else if z == p[run[|run| - 1]].next then n.(prev := y)
    else n
  }

  lemma LinkedRunNeighbours(p: seq<DZ>, p': seq<DZ>, run: seq<nat>, y: nat)
    requires RunReady(p, run, [y]) && Distinct(run) && LinkedRun(p, p', run, y)
    ensures NeighboursLinked(p, p', NodesOf(run, [y]), p[run[0]].prev, y, p[run[|run| - 1]].next, y)
    ensures RunCutOff(p, p', run)
  {
    hide RunReady, NodesOf;
    ReadyApart(p, run, [y]);
    InNodesOf(run, [y]);
    assert [y][0] == y;
    forall i | 0 <= i < |run|
      ensures CutOffAt(p, p', run, i)
    {
      assert run[i] in run;
    }
  }

  // ----- giving a chain back ------------------------------------------------------------------------------

  /** The sizes of the first n pieces added up, as dzmemory_free_chunk does it. */
  ghost function Sizes(p: seq<DZ>, c: seq<nat>, n: nat): int {
    if n == 0 || n > |c| || c[n - 1] >= |p| then 0 else Sizes(p, c, n - 1) + p[c[n - 1]].size
  }

  /** The sizes add up to the block that was allocated. */
  lemma {:induction false} SizesAreBlock(p: seq<DZ>, c: seq<nat>, n: nat)
    requires Live(p, c) && 0 < n <= |c|
    ensures Sizes(p, c, n) == p[c[n - 1]].End() - p[c[0]].mem
  {
    if n > 1 {
      SizesAreBlock(p, c, n - 1);
      assert Joint(p, c, n - 2);
    }
  }

  /** The pieces 1 up to n of c pushed on a stack, the last one on top. */
  ghost function Stacked(c: seq<nat>, n: nat): (r: seq<nat>)
    requires 1 <= n <= |c|
    ensures |r| == n - 1 && forall i :: 0 <= i < n - 1 ==> r[i] == c[n - 1 - i]
  {
    seq(n - 1, i requires 0 <= i < n - 1 => c[n - 1 - i])
  }

  /** The nodes of fl form a free list of length |fl|. */
  ghost predicate FreeList(p: seq<DZ>, fl: seq<nat>) {
    forall i :: 0 <= i < |fl| ==> FreeNode(p, fl, i)
  }

  lemma FreePush(p: seq<DZ>, p': seq<DZ>, fl: seq<nat>, x: nat)
    requires FreeList(p, fl) && |p'| == |p| && x < |p| && x !in fl && forall z: nat :: z < |p| && z != x ==>
               p'[z] == p[z]
    requires p'[x].valid == 2 && p'[x].refcount == 0 && p'[x].mem == 0 && p'[x].prev == NIL && p'[x].next == FirstOf(fl)
    ensures FreeList(p', [x] + fl)
  {
    var fl' := [x] + fl;
    forall i | 0 <= i < |fl'|
      ensures FreeNode(p', fl', i)
    {
      if i > 0 {
        assert FreeNode(p, fl, i - 1) && fl'[i] == fl[i - 1] && fl[i - 1] in fl;
      }
    }
  }

  /** Without references left in the chain, its nodes are all on the stack. */
  lemma AllStacked(s: Shape, p': seq<DZ>, c: seq<nat>)
    requires Structure(s) && c in s.chains && c != []
    requires |p'| == |s.p| && (forall x: nat :: x < |s.p| && x !in c ==> p'[x] == s.p[x])
    requires FreeList(p', [c[0]] + Stacked(c, |c|) + s.free)
    ensures ChainFreed(s, p', c, [c[0]] + Stacked(c, |c|))
  {
    assert ChainOk(s.p, c);
    assert Distinct(c);
    hide Structure, ChainOk, FreeNode, Distinct;
    StackedMembers(c);
    assert FreeList(p', [c[0]] + Stacked(c, |c|) + s.free);
  }

  lemma StackedMembers(c: seq<nat>)
    requires c != [] && Distinct(c)
    ensures forall x: nat :: x in [c[0]] + Stacked(c, |c|) <==> x in c
    ensures Distinct([c[0]] + Stacked(c, |c|))
  {
    var pre := [c[0]] + Stacked(c, |c|);
    forall i | 0 <= i < |c|
      ensures pre[i] == c[if i == 0 then 0 else |c| - i] && c[i] == pre[if i == 0 then 0 else |c| - i]
    {
    }
    forall x: nat | x in c
      ensures x in pre
    {
      var i := Position(c, x);
      assert pre[if i == 0 then 0 else |c| - i] == x;
    }
    forall x: nat | x in pre
      ensures x in c
    {
      var i := Position(pre, x);
      assert c[if i == 0 then 0 else |c| - i] == x;
    }
  }

  /** dzmemory_free_chunk has freed the pieces 1 up to n; the head has their sizes. */
  ghost predicate TailFreed(p: seq<DZ>, p': seq<DZ>, c: seq<nat>, n: nat, free: seq<nat>) {
    1 <= n <= |c| && |p'| == |p| && c[0] < |p| && p'[c[0]] == p[c[0]].(size := Sizes(p, c, n)) &&
    (forall z: nat :: z < |p| && z !in c[..n] ==> p'[z] == p[z]) && FreeList(p', Stacked(c, n) + free)
  }

  lemma TailFreedNext(p: seq<DZ>, p1: seq<DZ>, p2: seq<DZ>, c: seq<nat>, n: nat, free: seq<nat>)
    requires TailFreed(p, p1, c, n, free) && n < |c| && Distinct(c) && c[n] < |p| && c[n] !in free && c[0] !in free
    requires |p2| == |p| && p2[c[0]] == p1[c[0]].(size := p1[c[0]].size + p1[c[n]].size)
    requires forall z: nat :: z < |p| && z != c[0] && z != c[n] ==> p2[z] == p1[z]
    requires p2[c[n]].valid == 2 && p2[c[n]].refcount == 0 && p2[c[n]].mem == 0 && p2[c[n]].prev == NIL
    requires p2[c[n]].next == FirstOf(Stacked(c, n) + free)
    ensures TailFreed(p, p2, c, n + 1, free)
  {
    hide FreeNode;
    var fl := Stacked(c, n) + free;
    assert Stacked(c, n + 1) + free == [c[n]] + fl;
    forall i | 0 <= i < |fl|
      ensures fl[i] != c[n] && fl[i] != c[0]
    {
      if i >= n - 1 {
        assert fl[i] == free[i - (n - 1)] && fl[i] in free;
      }
    }
    assert c[n] !in c[..n];
    assert c[..n + 1] == c[..n] + [c[n]];
    var p1' := p1[c[0] := p2[c[0]]];
    HeadOffList(p1, p1', fl, c[0]);
    FreePush(p1', p2, fl, c[n]);
  }

  lemma HeadOffList(p: seq<DZ>, p': seq<DZ>, fl: seq<nat>, x: nat)
    requires FreeList(p, fl) && x < |p| == |p'| && x !in fl && forall z: nat :: z < |p| && z != x ==> p'[z] == p[z]
    ensures FreeList(p', fl)
  {
    forall i | 0 <= i < |fl|
      ensures FreeNode(p', fl, i)
    {
      assert FreeNode(p, fl, i) && fl[i] in fl;
    }
  }

  /** Every node of c is linked, and none is free. */
  ghost predicate ChainAt(p: seq<DZ>, c: seq<nat>, free: seq<nat>) {
    c != [] && Distinct(c) && (forall i :: 0 <= i < |c| ==> NodeOk(p, c, i)) && forall x: nat :: x in c ==> x !in free
  }

  lemma ChainIsAt(s: Shape, p: seq<DZ>, c: seq<nat>, k: nat)
    requires Structure(s) && c in s.chains && k < |c| && c[k] < |s.p| && p == s.p[c[k] := s.p[c[k]].(refcount := 0)]
    ensures ChainAt(p, c, s.free) && FreeList(p, s.free)
    ensures forall i :: 0 <= i < |c| ==> c[i] < |p|
  {
    assert ChainOk(s.p, c);
    forall i | 0 <= i < |c|
      ensures NodeOk(p, c, i)
    {
      assert NodeOk(s.p, c, i);
    }
    forall i | 0 <= i < |s.free|
      ensures FreeNode(p, s.free, i)
    {
      assert FreeNode(s.p, s.free, i) && s.free[i] in s.free && c[k] in c;
    }
  }

  lemma AloneInChain(p: seq<DZ>, c: seq<nat>, free: seq<nat>, k: nat)
    requires ChainAt(p, c, free) && k < |c| && c[k] < |p| && p[c[k]].prev == NIL && p[c[k]].next == NIL
    ensures |c| == 1
  {
    assert NodeOk(p, c, k);
  }

  lemma NobodyHolds(p: seq<DZ>, c: seq<nat>, free: seq<nat>)
    requires ChainAt(p, c, free) && !Held(p, c)
    ensures forall i :: 0 <= i < |c| ==> c[i] < |p| && p[c[i]].refcount == 0
  {
    forall i | 0 <= i < |c|
      ensures c[i] < |p| && p[c[i]].refcount == 0
    {
      assert NodeOk(p, c, i);
    }
  }

  lemma {:induction false} SizesKept(p: seq<DZ>, q: seq<DZ>, c: seq<nat>, n: nat)
    requires |p| == |q| && forall x: nat :: x < |p| ==> p[x].size == q[x].size
    ensures Sizes(p, c, n) == Sizes(q, c, n)
  {
    if n != 0 && n <= |c| {
      SizesKept(p, q, c, n - 1);
    }
  }

  /** What is passed to jxfree: start and size of the block, if there is one. */
  lemma TailIsFreed(s: Shape, p: seq<DZ>, p': seq<DZ>, c: seq<nat>, k: nat)
    requires Structure(s) && c in s.chains && k < |c| && c[k] < |s.p| && p == s.p[c[k] := s.p[c[k]].(refcount := 0)]
    requires TailFreed(p, p', c, |c|, s.free)
    ensures c[0] < |p'| == |p| && (p'[c[0]].mem != 0 <==> Live(s.p, c))
    ensures Live(s.p, c) ==> Block(p'[c[0]].mem, p'[c[0]].size) == BlockOf(s.p, c)
  {
    hide Structure, FreeList, Stacked, Sizes;
    StructureParts(s);
    hide FreeOk, Partition, BlocksOk, ChainOk, Live, TailFreed;
    TailHead(p, p', c, s.free);
    Liveness(s.p, c, 0);
    assert (p'[c[0]].mem == s.p[c[0]].mem);
    SizesKept(p, s.p, c, |c|);
    if Live(s.p, c) {
      SizesAreBlock(s.p, c, |c|);
      LivePiece(s, c, |c| - 1);
    }
  }

  lemma TailHead(p: seq<DZ>, p': seq<DZ>, c: seq<nat>, free: seq<nat>)
    requires TailFreed(p, p', c, |c|, free)
    ensures c[0] < |p'| == |p| && p'[c[0]] == p[c[0]].(size := Sizes(p, c, |c|))
  {
    hide FreeList, Stacked, Sizes;
  }

  /** The head follows its tail. */
  lemma HeadFreed(s: Shape, p: seq<DZ>, q: seq<DZ>, p': seq<DZ>, c: seq<nat>, k: nat)
    requires Structure(s) && c in s.chains && k < |c| && c[k] < |s.p| && p == s.p[c[k] := s.p[c[k]].(refcount := 0)]
    requires TailFreed(p, q, c, |c|, s.free) && !Held(p, c)
    requires p' == q[c[0] := q[c[0]].(next := FirstOf(Stacked(c, |c|) + s.free), mem := 0, valid := 2)]
    ensures ChainFreed(s, p', c, [c[0]] + Stacked(c, |c|))
  {
    hide Structure, Held, ChainAt, FreeNode;
    ChainIsAt(s, p, c, k);
    NobodyHolds(p, c, s.free);
    var fl := Stacked(c, |c|) + s.free;
    HeadApart(p, c, s.free);
    FreePush(q, p', fl, c[0]);
    assert [c[0]] + fl == [c[0]] + Stacked(c, |c|) + s.free;
    assert c[..|c|] == c;
    forall x: nat | x < |s.p| && x !in c
      ensures p'[x] == s.p[x]
    {
      assert q[x] == p[x] && c[k] in c && c[0] in c;
    }
    AllStacked(s, p', c);
  }

  lemma HeadApart(p: seq<DZ>, c: seq<nat>, free: seq<nat>)
    requires ChainAt(p, c, free)
    ensures c[0] !in Stacked(c, |c|) + free && c[0] < |p| && p[c[0]].prev == NIL
  {
    assert NodeOk(p, c, 0) && c[0] in c;
  }

  /** All that joinAll needs to know about the run it is going to replace. */
  lemma RunAround(s: Shape, c: seq<nat>, k: nat, d: int)
    requires Structure(s) && c in s.chains && Live(s.p, c) && k < |c| && c[k] < |s.p| && s.p[c[k]].refcount > 0 &&
             |s.free| >= 1
    ensures var a, b := RunStart(s.p, c, k, d), RunEnd(s.p, c, k, d);
            a <= k < b <= |c| && RunEnd(s.p, c, a, d) == b && c[a] < |s.p| && c[b - 1] < |s.p| &&
            RunReady(s.p, c[a..b], s.free[..1]) && Held(s.p, c[a..b]) && Distinct(c[a..b])
  {
    hide Structure, RunReady, Live;
    var a, b := RunStart(s.p, c, k, d), RunEnd(s.p, c, k, d);
    RunMaximal(s.p, c, k, d);
    hide RunStart, RunEnd;
    RunIsReady(s, c, a, b, 1);
    LiveAt(s, c, a);
    LiveAt(s, c, b - 1);
    assert c[a..b][k - a] == c[k];
    StructureParts(s);
    assert ChainOk(s.p, c);
  }

  lemma RelinkedKeepsStructure(s: Shape, p': seq<DZ>, k: Cut)
    requires Structure(s) && CutOk(s, k) && Relinked(s, p', k) && |k.ys| <= |s.free|
    ensures Structure(AfterCut(s, p', k))
  {
    hide Structure, CutOk, Relinked, Spliced;
    RelinkedIsSpliced(s, p', k);
    SpliceKeepsStructure(s, p', k);
  }

  /** The links of the fresh piece j in the new chain. */
  lemma FreshLinks(k: Cut, j: nat)
    requires j < |k.ys|
    ensures NextIn(k.New(), |k.a| + j) == if j + 1 < |k.ys| then k.ys[j + 1] else FirstOf(k.b)
    ensures PrevIn(k.New(), |k.a| + j) == if j > 0 then k.ys[j - 1] else LastOf(k.a)
  {
  }
}
