/** Logical objects: what stays the same about the heap while objects move and new ones are allocated. */
module LogicalHeap {
  import opened HeapLayout
  import opened HeapGraph
  import opened ObjectWords
  import opened AllocationFrame

  /** A heap with its roots; ident tells which logical object each object of the heap is. */
  datatype World = World(cs: ClassTable, m: seq<int>, sp: Spaces, starts: seq<nat>, roots: seq<int>,
                         ident: map<nat, nat>) {
    ghost predicate Reaches(p: nat) { Reachable(cs, m, starts, roots, p) }
  }

  /** How many words the objects among starts have that can be reached. */
  ghost function LiveWords(w: World, starts: seq<nat>): nat {
    if starts == [] then 0
    else
      var p := starts[|starts| - 1];
      LiveWords(w, starts[..|starts| - 1]) + if w.Reaches(p) then SizeAt(w.cs, w.m, p) else 0
  }

  /** Every object of the heap is a logical object of its own. */
  ghost predicate IdentOk(starts: seq<nat>, ident: map<nat, nat>, next: nat) {
    (forall p: nat :: p in starts <==> p in ident) &&
    (forall p: nat :: p in ident ==> ident[p] < next) &&
    forall p: nat, q: nat :: p in ident && q in ident && ident[p] == ident[q] ==> p == q
  }

  predicate PointsAt(starts: seq<nat>, r: int) {
    r > LAST_STRANGE_REF && r == RefOf(PtrOf(r)) && PtrOf(r) in starts
  }

  /** r' denotes in w' the logical object that r denotes in w; a word that denotes no object of the
      heap is the same word, and still denotes none. */
  ghost predicate SameRef(w: World, r: int, w': World, r': int) {
    if PointsAt(w.starts, r) && PtrOf(r) in w.ident
    then PointsAt(w'.starts, r') && PtrOf(r') in w'.ident && w'.ident[PtrOf(r')] == w.ident[PtrOf(r)]
    else r' == r && !PointsAt(w'.starts, r)
  }

  /** The objects p and p' have the same kind and size, and agree in every word that such an object has: a
      reference denotes the same logical object, or is the same word, and any other word is the same. */
  ghost predicate SameBody(w: World, p: nat, w': World, p': nat) {
    At(w'.m, p') == At(w.m, p) && SizeAt(w'.cs, w'.m, p') == SizeAt(w.cs, w.m, p) &&
    forall k :: HasWord(w.cs, w.m, p, k) ==> SameWord(w, p, w', p', k)
  }

  ghost predicate SameWord(w: World, p: nat, w': World, p': nat, k: int) {
    if IsReference(w.cs, w.m, p, k) then SameRef(w, Field(w.m, p, k), w', Field(w'.m, p', k))
    else Field(w'.m, p', k) == Field(w.m, p, k)
  }

  /** p' is in w' what p is in w. */
  ghost predicate SameObject(w: World, p: nat, w': World, p': nat) {
    p in w.ident && p' in w'.starts && p' in w'.ident && w'.ident[p'] == w.ident[p] && w'.Reaches(p') &&
    SameBody(w, p, w', p')
  }

  ghost predicate Survives(w: World, p: nat, w': World) {
    exists p': nat :: SameObject(w, p, w', p')
  }

  /** Every root but the one aside denotes what it denoted, every object reachable in w is still there
      with its contents, and nothing outside the semispaces has changed. */
  ghost predicate KeptHeap(w: World, w': World, aside: int) {
    w'.cs == w.cs && |w'.roots| == |w.roots| &&
    (forall i :: 0 <= i < |w.roots| && i != aside ==> SameRef(w, w.roots[i], w', w'.roots[i])) &&
    (forall p: nat :: w.Reaches(p) ==> Survives(w, p, w')) &&
    OutsideKept(w, w')
  }

  ghost predicate OutsideKept(w: World, w': World) {
    (w'.sp == w.sp || w'.sp == w.sp.Flip()) &&
    forall a: nat {:trigger At(w'.m, a)} :: !w.sp.Inside(a) ==> At(w'.m, a) == At(w.m, a)
  }

  // ----- composition --------------------------------------------------------------------------------

  lemma SameRefTrans(w: World, r: int, w1: World, r1: int, w2: World, r2: int)
    requires SameRef(w, r, w1, r1) && SameRef(w1, r1, w2, r2)
    ensures SameRef(w, r, w2, r2)
  {
  }

  /** Objects with the same body have the same words and references. */
  lemma BodyShape(w: World, p: nat, w': World, p': nat)
    requires SameBody(w, p, w', p') && w.cs == w'.cs
    ensures forall k :: HasWord(w.cs, w.m, p, k) ==>
              HasWord(w'.cs, w'.m, p', k) && (IsReference(w'.cs, w'.m, p', k) <==> IsReference(w.cs, w.m, p, k))
  {
    if HeapKind(At(w.m, p)) {
      assert HasWord(w.cs, w.m, p, 1) && SameWord(w, p, w', p', 1);
      if At(w.m, p) == OBJFLAGS_ARRAY {
        assert HasWord(w.cs, w.m, p, 2) && SameWord(w, p, w', p', 2);
        assert HasWord(w.cs, w.m, p, 3) && SameWord(w, p, w', p', 3);
      }
      SameHeaderSameWords(w.cs, w.m, p, w'.m, p');
    }
  }

  lemma SameBodyTrans(w: World, p: nat, w1: World, p1: nat, w2: World, p2: nat)
    requires SameBody(w, p, w1, p1) && SameBody(w1, p1, w2, p2) && w.cs == w1.cs == w2.cs
    ensures SameBody(w, p, w2, p2)
  {
    BodyShape(w, p, w1, p1);
    forall k | HasWord(w.cs, w.m, p, k)
      ensures SameWord(w, p, w2, p2, k)
    {
      assert SameWord(w, p, w1, p1, k) && SameWord(w1, p1, w2, p2, k);
      if IsReference(w.cs, w.m, p, k) {
        SameRefTrans(w, Field(w.m, p, k), w1, Field(w1.m, p1, k), w2, Field(w2.m, p2, k));
      }
    }
  }

  lemma SurvivesTrans(w: World, p: nat, w1: World, w2: World)
    requires Survives(w, p, w1) && w.cs == w1.cs == w2.cs
    requires forall p1: nat :: w1.Reaches(p1) ==> Survives(w1, p1, w2)
    ensures Survives(w, p, w2)
  {
    hide SameBody;
    var p1: nat :| SameObject(w, p, w1, p1);
    assert w1.Reaches(p1);
    var p2: nat :| SameObject(w1, p1, w2, p2);
    SameBodyTrans(w, p, w1, p1, w2, p2);
    assert SameObject(w, p, w2, p2);
  }

  /** What is kept twice is kept. */
  lemma KeptTrans(w: World, w1: World, w2: World, aside: int)
    requires KeptHeap(w, w1, aside) && KeptHeap(w1, w2, aside)
    ensures KeptHeap(w, w2, aside)
  {
    hide Survives, SameRef;
    forall i | 0 <= i < |w.roots| && i != aside
      ensures SameRef(w, w.roots[i], w2, w2.roots[i])
    {
      SameRefTrans(w, w.roots[i], w1, w1.roots[i], w2, w2.roots[i]);
    }
    forall p: nat | w.Reaches(p)
      ensures Survives(w, p, w2)
    {
      SurvivesTrans(w, p, w1, w2);
    }
    forall a: nat | !w.sp.Inside(a)
      ensures At(w2.m, a) == At(w.m, a)
    {
      assert At(w1.m, a) == At(w.m, a);
    }
  }

  lemma KeptAside(w: World, w': World, aside: int)
    requires KeptHeap(w, w', -1)
    ensures KeptHeap(w, w', aside)
  {
    hide Survives, SameRef, OutsideKept;
  }

  /** A root slot that is empty before and after needs no exception. */
  lemma EmptyAside(w: World, w': World, aside: nat)
    requires KeptHeap(w, w', aside) && aside < |w.roots| && w.roots[aside] == 0 && w'.roots[aside] == 0
    ensures KeptHeap(w, w', -1)
  {
    hide Survives, OutsideKept;
  }

  /** An empty handle stays empty, and no other one becomes empty. */
  lemma HandlesKept(w: World, w': World, i: nat)
    requires KeptHeap(w, w', -1) && i < |w.roots|
    ensures w'.roots[i] == 0 <==> w.roots[i] == 0
  {
    hide Survives, OutsideKept;
    assert SameRef(w, w.roots[i], w', w'.roots[i]);
  }

  // ----- nothing changes, or only free words ------------------------------------------------------------

  /** Paths stay paths when edges, objects and roots do. */
  lemma {:induction false} PathKept(w: World, w': World, path: seq<nat>, q: nat)
    requires PathTo(w.cs, w.m, w.starts, w.roots, path, q) && w'.cs == w.cs
    requires forall x :: x in w.starts ==> x in w'.starts
    requires forall x: nat, y: nat :: x in w.starts && Edge(w.cs, w.m, x, y) ==> Edge(w.cs, w'.m, x, y)
    requires forall x: nat :: x in w.starts && RefOf(x) in w.roots ==> RefOf(x) in w'.roots
    ensures PathTo(w'.cs, w'.m, w'.starts, w'.roots, path, q)
    decreases |path|
  {
    if path != [] {
      var p := path[|path| - 1];
      PathKept(w, w', path[..|path| - 1], p);
      assert p in w.starts by {
        assert PathTo(w.cs, w.m, w.starts, w.roots, path[..|path| - 1], p);
      }
    }
  }

  /** One step of an allocation: only free words from top on change, at most the object at top joins
      the heap, and at most the root aside changes, which denoted no object before. */
  ghost predicate AllocStep(w: World, w': World, top: nat, aside: int, next: nat) {
    w'.cs == w.cs && w'.sp == w.sp && WfHeap(w.cs, w.m, w.sp, w.starts, top) && top < w.sp.lo + w.sp.size &&
    IdentOk(w.starts, w.ident, next) && OnlyFreeChanged(w.m, w'.m, w.sp, top) &&
    (forall p: nat :: p in w.starts ==> p in w'.starts && p in w'.ident && w'.ident[p] == w.ident[p]) &&
    (forall p: nat :: p in w'.starts ==> p in w.starts || p == top) &&
    |w'.roots| == |w.roots| &&
    forall i :: 0 <= i < |w.roots| ==>
      if i == aside then !PointsAt(w.starts, w.roots[i])
      else w'.roots[i] == w.roots[i] && WfRef(w.m, w.sp, w.starts, w.roots[i])
  }

  /** A well-formed reference does not point at the free word where the next object begins. */
  lemma StepRef(w: World, w': World, top: nat, aside: int, next: nat, r: int)
    requires AllocStep(w, w', top, aside, next) && WfRef(w.m, w.sp, w.starts, r)
    ensures SameRef(w, r, w', r)
  {
    if !PointsAt(w.starts, r) && r > LAST_STRANGE_REF {
      assert External(w.m, w.sp, PtrOf(r));
      assert w.sp.Inside(top);
    }
  }

  lemma StepBody(w: World, w': World, top: nat, aside: int, next: nat, p: nat)
    requires AllocStep(w, w', top, aside, next) && p in w.starts
    ensures SameBody(w, p, w', p)
  {
    ObjectFrame(w.cs, w.m, w'.m, w.sp, w.starts, top, p);
    SameHeaderSameShape(w.cs, At(w.m, p), w.m, p, w'.m, p);
    TilingMember(w.cs, w.m, w.starts, w.sp.lo, top, p);
    forall k | HasWord(w.cs, w.m, p, k)
      ensures SameWord(w, p, w', p, k)
    {
      KeepsWords(w.cs, w.m, p, k);
      assert Field(w'.m, p, k) == Field(w.m, p, k);
      if IsReference(w.cs, w.m, p, k) {
        VisitsReferences(w.cs, w.m, p, k);
        StepSlot(w, top, p, k);
        StepRef(w, w', top, aside, next, Field(w.m, p, k));
      }
    }
  }

  lemma StepSlot(w: World, top: nat, p: nat, k: int)
    requires WfHeap(w.cs, w.m, w.sp, w.starts, top) && p in w.starts && RefSlotAt(w.cs, w.m, p, k)
    ensures WfRef(w.m, w.sp, w.starts, Field(w.m, p, k))
  {
  }

  lemma StepEdge(w: World, w': World, top: nat, aside: int, next: nat, x: nat, y: nat)
    requires AllocStep(w, w', top, aside, next) && x in w.starts && Edge(w.cs, w.m, x, y)
    ensures Edge(w.cs, w'.m, x, y)
  {
    var k :| RefSlotAt(w.cs, w.m, x, k) && Field(w.m, x, k) == RefOf(y);
    ObjectFrame(w.cs, w.m, w'.m, w.sp, w.starts, top, x);
    SameHeaderSameShape(w.cs, At(w.m, x), w.m, x, w'.m, x);
    RefSlotIsKept(w.cs, At(w.m, x), w.m, x, k);
    assert Field(w'.m, x, k) == Field(w.m, x, k);
  }

  lemma StepReaches(w: World, w': World, top: nat, aside: int, next: nat, p: nat)
    requires AllocStep(w, w', top, aside, next) && w.Reaches(p)
    ensures p in w.starts && w'.Reaches(p)
  {
    var path :| PathTo(w.cs, w.m, w.starts, w.roots, path, p);
    forall x: nat, y: nat | x in w.starts && Edge(w.cs, w.m, x, y)
      ensures Edge(w.cs, w'.m, x, y)
    {
      StepEdge(w, w', top, aside, next, x, y);
    }
    forall x: nat | x in w.starts && RefOf(x) in w.roots
      ensures RefOf(x) in w'.roots
    {
      var i :| 0 <= i < |w.roots| && w.roots[i] == RefOf(x);
      ObjectPointed(w, top, x);
      assert w'.roots[i] == w.roots[i];
    }
    PathKept(w, w', path, p);
  }

  lemma ObjectPointed(w: World, top: nat, x: nat)
    requires WfHeap(w.cs, w.m, w.sp, w.starts, top) && x in w.starts
    ensures PointsAt(w.starts, RefOf(x)) && PtrOf(RefOf(x)) == x
  {
    TilingMember(w.cs, w.m, w.starts, w.sp.lo, top, x);
  }

  /** A step of an allocation keeps everything but the root aside. */
  lemma StepKeeps(w: World, w': World, top: nat, aside: int, next: nat)
    requires AllocStep(w, w', top, aside, next)
    ensures KeptHeap(w, w', aside)
  {
    hide SameRef, SameBody;
    forall i | 0 <= i < |w.roots| && i != aside
      ensures SameRef(w, w.roots[i], w', w'.roots[i])
    {
      StepRef(w, w', top, aside, next, w.roots[i]);
    }
    forall p: nat | w.Reaches(p)
      ensures Survives(w, p, w')
    {
      StepReaches(w, w', top, aside, next, p);
      StepBody(w, w', top, aside, next, p);
      assert SameObject(w, p, w', p);
    }
  }

  /** Nothing has happened. */
  lemma KeptRefl(w: World, next: nat)
    requires IdentOk(w.starts, w.ident, next)
    ensures KeptHeap(w, w, -1)
  {
    forall p: nat | w.Reaches(p)
      ensures Survives(w, p, w)
    {
      var path :| PathTo(w.cs, w.m, w.starts, w.roots, path, p);
      assert SameObject(w, p, w, p);
    }
  }
}
