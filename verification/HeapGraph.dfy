/** Well-formed semispaces, reachability, and what it means for a collection to preserve the object
  graph (gc_new.c).

  Objects are named by the index of their flag word.  A semispace in use is described by the list
  of its objects in address order. */
module HeapGraph {
  import opened HeapLayout

  // ----- the objects tile the used space ----------------------------------------------------

  /** The objects at starts fill [lo, hi) without gaps. */
  ghost predicate Tiling(cs: ClassTable, m: seq<int>, starts: seq<nat>, lo: int, hi: int) {
    if starts == [] then lo == hi
    else
      var p := starts[|starts| - 1];
      Tiling(cs, m, starts[..|starts| - 1], lo, p) && WfObject(cs, m, p) && p + SizeAt(cs, m, p) == hi
  }

  lemma {:induction false} TilingPrefix(cs: ClassTable, m: seq<int>, starts: seq<nat>, lo: int, hi: int, i: nat)
    requires Tiling(cs, m, starts, lo, hi) && i < |starts|
    ensures Tiling(cs, m, starts[..i], lo, starts[i])
    ensures WfObject(cs, m, starts[i]) && lo <= starts[i]
    ensures starts[i] + SizeAt(cs, m, starts[i]) <= hi
    ensures starts[i] + SizeAt(cs, m, starts[i]) == if i + 1 < |starts| then starts[i + 1] else hi
    ensures lo <= hi
  {
    var n := |starts| - 1;
    var front := starts[..n];
    if i < n {
      TilingPrefix(cs, m, front, lo, starts[n], i);
      assert front[..i] == starts[..i];
    } else if n > 0 {
      TilingPrefix(cs, m, front, lo, starts[n], 0);
    }
  }

  lemma TilingMember(cs: ClassTable, m: seq<int>, starts: seq<nat>, lo: int, hi: int, p: nat)
    requires Tiling(cs, m, starts, lo, hi) && p in starts
    ensures WfObject(cs, m, p) && lo <= p && p + SizeAt(cs, m, p) <= hi
  {
    var i :| 0 <= i < |starts| && starts[i] == p;
    TilingPrefix(cs, m, starts, lo, hi, i);
  }

  /** Later objects start behind the end of earlier ones. */
  lemma {:induction false} TilingOrder(cs: ClassTable, m: seq<int>, starts: seq<nat>, lo: int, hi: int, i: nat, j: nat)
    requires Tiling(cs, m, starts, lo, hi) && i < j < |starts|
    ensures starts[i] + SizeAt(cs, m, starts[i]) <= starts[j]
  {
    TilingPrefix(cs, m, starts, lo, hi, j);
    assert starts[..j][i] == starts[i];
    TilingPrefix(cs, m, starts[..j], lo, starts[j], i);
  }

  /** No object starts inside another one. */
  lemma TilingDisjoint(cs: ClassTable, m: seq<int>, starts: seq<nat>, lo: int, hi: int, p: nat, q: nat)
    requires Tiling(cs, m, starts, lo, hi) && p in starts && q in starts && p != q
    ensures p + SizeAt(cs, m, p) <= q || q + SizeAt(cs, m, q) <= p
  {
    var i :| 0 <= i < |starts| && starts[i] == p;
    var j :| 0 <= j < |starts| && starts[j] == q;
    if i < j {
      TilingOrder(cs, m, starts, lo, hi, i, j);
    } else {
      TilingOrder(cs, m, starts, lo, hi, j, i);
    }
  }

  /** The tiling depends on flag words and headers only. */
  lemma {:induction false} TilingFrame(cs: ClassTable, m: seq<int>, m': seq<int>, starts: seq<nat>, lo: int, hi: int)
    requires Tiling(cs, m, starts, lo, hi)
    requires forall p :: p in starts ==> At(m, p) == At(m', p) && SameHeader(At(m, p), m, p, m', p)
    ensures Tiling(cs, m', starts, lo, hi)
  {
    if starts != [] {
      var p := starts[|starts| - 1];
      var front := starts[..|starts| - 1];
      assert forall q :: q in front ==> q in starts;
      TilingFrame(cs, m, m', front, lo, p);
      assert p in starts;
      SameHeaderSameShape(cs, At(m, p), m, p, m', p);
    }
  }

  lemma TilingAppend(cs: ClassTable, m: seq<int>, starts: seq<nat>, lo: int, p: nat)
    requires Tiling(cs, m, starts, lo, p) && WfObject(cs, m, p)
    ensures Tiling(cs, m, starts + [p], lo, p + SizeAt(cs, m, p))
  {
    assert (starts + [p])[..|starts|] == starts;
  }

  // ----- the two semispaces and their references ---------------------------------------------

  /** The semispace in use and the other one; both are size words long. */
  datatype Spaces = Spaces(lo: nat, other: nat, size: nat) {
    predicate Valid(memory: nat) {
      lo + size <= memory && other + size <= memory &&
      (lo + size <= other || other + size <= lo) &&
      LAST_STRANGE_REF < RefOf(lo) && LAST_STRANGE_REF < RefOf(other)
    }
    predicate Inside(a: int) { lo <= a < lo + size || other <= a < other + size }
    function Flip(): Spaces { Spaces(other, lo, size) }
  }

  /** An object outside both semispaces that the collector leaves alone. */
  predicate External(m: seq<int>, sp: Spaces, p: int) {
    0 <= p < |m| && !sp.Inside(p) && !IsForward(m[p]) && ExternalKind(FlagsOf(m[p]))
  }

  /** A word a reference slot may hold. */
  predicate WfRef(m: seq<int>, sp: Spaces, starts: seq<nat>, r: int) {
    0 <= r &&
    (r <= LAST_STRANGE_REF || (r == RefOf(PtrOf(r)) && (External(m, sp, PtrOf(r)) || PtrOf(r) in starts)))
  }

  ghost predicate WfRefs(cs: ClassTable, m: seq<int>, sp: Spaces, starts: seq<nat>) {
    forall p, k :: p in starts && RefSlotAt(cs, m, p, k) ==> WfRef(m, sp, starts, Field(m, p, k))
  }

  ghost predicate WfHeap(cs: ClassTable, m: seq<int>, sp: Spaces, starts: seq<nat>, top: int) {
    sp.Valid(|m|) && WfClasses(cs) &&
    sp.lo <= top <= sp.lo + sp.size &&
    Tiling(cs, m, starts, sp.lo, top) &&
    WfRefs(cs, m, sp, starts)
  }

  ghost predicate WfRoots(m: seq<int>, sp: Spaces, starts: seq<nat>, roots: seq<int>) {
    forall r :: r in roots ==> WfRef(m, sp, starts, r)
  }

  // ----- reachability --------------------------------------------------------------------------

  /** Some reference slot of the object p holds q. */
  ghost predicate Edge(cs: ClassTable, m: seq<int>, p: int, q: int) {
    exists k :: RefSlotAt(cs, m, p, k) && Field(m, p, k) == RefOf(q)
  }

  /** q is a root's target, or the last object of the path has an edge to q. */
  ghost predicate PathTo(cs: ClassTable, m: seq<int>, starts: seq<nat>, roots: seq<int>, path: seq<nat>, q: nat) {
    q in starts &&
    if path == [] then RefOf(q) in roots
    else
      var p := path[|path| - 1];
      Edge(cs, m, p, q) && PathTo(cs, m, starts, roots, path[..|path| - 1], p)
  }

  ghost predicate Reachable(cs: ClassTable, m: seq<int>, starts: seq<nat>, roots: seq<int>, q: nat) {
    exists path :: PathTo(cs, m, starts, roots, path, q)
  }

  lemma RootReachable(cs: ClassTable, m: seq<int>, starts: seq<nat>, roots: seq<int>, q: nat)
    requires RefOf(q) in roots && q in starts
    ensures Reachable(cs, m, starts, roots, q)
  {
    assert PathTo(cs, m, starts, roots, [], q);
  }

  lemma EdgeReachable(cs: ClassTable, m: seq<int>, starts: seq<nat>, roots: seq<int>, p: nat, k: int, q: nat)
    requires Reachable(cs, m, starts, roots, p) && q in starts
    requires RefSlotAt(cs, m, p, k) && Field(m, p, k) == RefOf(q)
    ensures Reachable(cs, m, starts, roots, q)
  {
    var path :| PathTo(cs, m, starts, roots, path, p);
    assert (path + [p])[..|path|] == path;
    assert PathTo(cs, m, starts, roots, path + [p], q);
  }

  /** A set that holds the roots' targets and is closed under edges holds everything reachable. */
  lemma {:induction false} ClosedHoldsReachable(cs: ClassTable, m: seq<int>, starts: seq<nat>, roots: seq<int>,
                                                S: set<nat>, path: seq<nat>, q: nat)
    requires forall x: nat :: x in starts && RefOf(x) in roots ==> x in S
    requires forall x: nat, y: nat :: x in S && y in starts && Edge(cs, m, x, y) ==> y in S
    requires PathTo(cs, m, starts, roots, path, q)
    ensures q in S
    decreases |path|
  {
    if path != [] {
      ClosedHoldsReachable(cs, m, starts, roots, S, path[..|path| - 1], path[|path| - 1]);
    }
  }

  // ----- preservation of the object graph --------------------------------------------------------

  /** Where a reference points after the objects have moved along fwd: null, strange and external
      references stay put. */
  function Image(fwd: map<nat, nat>, r: int): int {
    if r == RefOf(PtrOf(r)) && 0 <= PtrOf(r) && PtrOf(r) in fwd then RefOf(fwd[PtrOf(r)]) else r
  }

  /** The object t of m' is the moved object f of m. */
  ghost predicate Moved(cs: ClassTable, m: seq<int>, f: nat, m': seq<int>, t: nat, fwd: map<nat, nat>) {
    At(m', t) == At(m, f) &&
    SizeAt(cs, m', t) == SizeAt(cs, m, f) &&
    (forall k :: RefSlotAt(cs, m', t, k) <==> RefSlotAt(cs, m, f, k)) &&
    forall k :: 1 <= k < KeptAt(cs, m, f) ==>
      Field(m', t, k) == if RefSlotAt(cs, m, f, k) then Image(fwd, Field(m, f, k)) else Field(m, f, k)
  }

  /** fwd is a bijection from the objects of m reachable from roots onto the objects of m', it
      carries every object's kind, size and kept words over, commutes with every reference slot, and
      carries each root to its image. */
  ghost predicate GraphPreserved(cs: ClassTable, m: seq<int>, starts: seq<nat>, roots: seq<int>, m': seq<int>,
                                 starts': seq<nat>, roots': seq<int>, fwd: map<nat, nat>)
  {
    (forall q: nat :: q in fwd <==> Reachable(cs, m, starts, roots, q)) &&
    (forall q: nat :: q in fwd ==> fwd[q] in starts') &&
    (forall t: nat :: t in starts' ==> exists q: nat :: q in fwd && fwd[q] == t) &&
    (forall p: nat, q: nat :: p in fwd && q in fwd && fwd[p] == fwd[q] ==> p == q) &&
    (forall q: nat :: q in fwd ==> Moved(cs, m, q, m', fwd[q], fwd)) &&
    |roots'| == |roots| &&
    forall i :: 0 <= i < |roots| ==> roots'[i] == Image(fwd, roots[i])
  }

  /** An image points at the moved q only if the reference pointed at q. */
  lemma ImageInjective(m: seq<int>, sp: Spaces, starts: seq<nat>, fwd: map<nat, nat>, r: int, q: nat)
    requires sp.Valid(|m|) && WfRef(m, sp, starts, r) && q in fwd
    requires forall p: nat :: p in fwd && fwd[p] == fwd[q] ==> p == q
    requires forall p :: p in starts ==> sp.lo <= p < sp.lo + sp.size
    requires sp.other <= fwd[q] < sp.other + sp.size
    ensures Image(fwd, r) == RefOf(fwd[q]) <==> r == RefOf(q)
  {
    assert PtrOf(RefOf(q)) == q;
  }

  /** The slot k of p points at q exactly if the slot k of the moved p points at the moved q. */
  lemma SlotCommutes(cs: ClassTable, m: seq<int>, sp: Spaces, starts: seq<nat>, m': seq<int>, fwd: map<nat, nat>,
                     p: nat, q: nat, k: int)
    requires sp.Valid(|m|) && WfRefs(cs, m, sp, starts) && p in starts && q in fwd
    requires forall x: nat :: x in fwd && fwd[x] == fwd[q] ==> x == q
    requires forall x :: x in starts ==> sp.lo <= x < sp.lo + sp.size
    requires sp.other <= fwd[q] < sp.other + sp.size
    requires p in fwd && Moved(cs, m, p, m', fwd[p], fwd)
    ensures RefSlotAt(cs, m, p, k) && Field(m, p, k) == RefOf(q) <==>
            RefSlotAt(cs, m', fwd[p], k) && Field(m', fwd[p], k) == RefOf(fwd[q])
  {
    if RefSlotAt(cs, m, p, k) {
      RefSlotIsKept(cs, At(m, p), m, p, k);
      ImageInjective(m, sp, starts, fwd, Field(m, p, k), q);
    }
  }

  /** Edges between moved objects are exactly the edges between the originals. */
  lemma EdgesCommute(cs: ClassTable, m: seq<int>, sp: Spaces, starts: seq<nat>, top: int, roots: seq<int>,
                     m': seq<int>, starts': seq<nat>, roots': seq<int>, fwd: map<nat, nat>, p: nat, q: nat)
    requires WfHeap(cs, m, sp, starts, top)
    requires GraphPreserved(cs, m, starts, roots, m', starts', roots', fwd)
    requires forall t :: t in starts' ==> sp.other <= t < sp.other + sp.size
    requires p in fwd && q in fwd
    ensures Edge(cs, m, p, q) <==> Edge(cs, m', fwd[p], fwd[q])
  {
    forall x | x in starts
      ensures sp.lo <= x < sp.lo + sp.size
    {
      TilingMember(cs, m, starts, sp.lo, top, x);
    }
    assert p in starts by {
      var path :| PathTo(cs, m, starts, roots, path, p);
    }
    assert fwd[q] in starts';
    assert Moved(cs, m, p, m', fwd[p], fwd);
    forall k
      ensures RefSlotAt(cs, m, p, k) && Field(m, p, k) == RefOf(q) <==>
              RefSlotAt(cs, m', fwd[p], k) && Field(m', fwd[p], k) == RefOf(fwd[q])
    {
      SlotCommutes(cs, m, sp, starts, m', fwd, p, q, k);
    }
  }

  /** A path in the old heap leads, along fwd, to the copy in the new one. */
  lemma {:induction false} PathMoves(cs: ClassTable, m: seq<int>, sp: Spaces, starts: seq<nat>, top: int,
                                     roots: seq<int>, m': seq<int>, starts': seq<nat>, roots': seq<int>,
                                     fwd: map<nat, nat>, path: seq<nat>, q: nat)
    requires WfHeap(cs, m, sp, starts, top) && GraphPreserved(cs, m, starts, roots, m', starts', roots', fwd)
    requires forall t :: t in starts' ==> sp.other <= t < sp.other + sp.size
    requires PathTo(cs, m, starts, roots, path, q)
    ensures q in fwd && Reachable(cs, m', starts', roots', fwd[q])
    decreases |path|
  {
    assert Reachable(cs, m, starts, roots, q);
    if path == [] {
      var i :| 0 <= i < |roots| && roots[i] == RefOf(q);
      assert PtrOf(RefOf(q)) == q && roots'[i] == RefOf(fwd[q]);
      RootReachable(cs, m', starts', roots', fwd[q]);
    } else {
      var p := path[|path| - 1];
      PathMoves(cs, m, sp, starts, top, roots, m', starts', roots', fwd, path[..|path| - 1], p);
      hide WfHeap;
      EdgesCommute(cs, m, sp, starts, top, roots, m', starts', roots', fwd, p, q);
      hide GraphPreserved;
      var k :| RefSlotAt(cs, m', fwd[p], k) && Field(m', fwd[p], k) == RefOf(fwd[q]);
      EdgeReachable(cs, m', starts', roots', fwd[p], k, fwd[q]);
    }
  }

  /** A collection leaves no garbage: every object of the new heap is reachable in it. */
  lemma NoGarbageLeft(cs: ClassTable, m: seq<int>, sp: Spaces, starts: seq<nat>, top: int, roots: seq<int>,
                      m': seq<int>, starts': seq<nat>, roots': seq<int>, fwd: map<nat, nat>, t: nat)
    requires WfHeap(cs, m, sp, starts, top) && GraphPreserved(cs, m, starts, roots, m', starts', roots', fwd)
    requires forall x :: x in starts' ==> sp.other <= x < sp.other + sp.size
    requires t in starts'
    ensures Reachable(cs, m', starts', roots', t)
  {
    var q :| q in fwd && fwd[q] == t;
    assert Reachable(cs, m, starts, roots, q);
    hide WfHeap, GraphPreserved;
    var path :| PathTo(cs, m, starts, roots, path, q);
    PathMoves(cs, m, sp, starts, top, roots, m', starts', roots', fwd, path, q);
  }
}
