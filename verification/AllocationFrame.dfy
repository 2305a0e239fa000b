/** How allocation extends a well-formed heap (gc_new.c, gc_alloc.c). */
module AllocationFrame {
  import opened HeapLayout
  import opened HeapGraph

  /** m' differs from m only in the free part of the semispace in use. */
  ghost predicate OnlyFreeChanged(m: seq<int>, m': seq<int>, sp: Spaces, top: int) {
    |m'| == |m| &&
    forall a: int {:trigger At(m', a)} :: !(top <= a < sp.lo + sp.size) ==> At(m', a) == At(m, a)
  }

  lemma ObjectFrame(cs: ClassTable, m: seq<int>, m': seq<int>, sp: Spaces, starts: seq<nat>, top: int, p: nat)
    requires WfHeap(cs, m, sp, starts, top) && OnlyFreeChanged(m, m', sp, top) && p in starts
    ensures At(m, p) == At(m', p) && SameHeader(At(m, p), m, p, m', p)
    ensures forall k :: 0 <= k < SizeAt(cs, m, p) ==> Field(m', p, k) == Field(m, p, k)
  {
    TilingMember(cs, m, starts, sp.lo, top, p);
    assert forall k :: 0 <= k < SizeAt(cs, m, p) ==> Field(m', p, k) == Field(m, p, k);
    assert Field(m', p, 0) == Field(m, p, 0) && Field(m', p, 1) == Field(m, p, 1);
    assert At(m, p) == OBJFLAGS_ARRAY ==> Field(m', p, 2) == Field(m, p, 2) && Field(m', p, 3) == Field(m, p, 3);
  }

  lemma RefFrame(m: seq<int>, m': seq<int>, sp: Spaces, starts: seq<nat>, starts': seq<nat>, top: int, r: int)
    requires sp.Valid(|m|) && sp.lo <= top && OnlyFreeChanged(m, m', sp, top) && WfRef(m, sp, starts, r)
    requires forall p :: p in starts ==> p in starts'
    ensures WfRef(m', sp, starts', r)
  {
    if r > LAST_STRANGE_REF && External(m, sp, PtrOf(r)) {
      assert At(m', PtrOf(r)) == At(m, PtrOf(r));
    }
  }

  lemma HeapFrame(cs: ClassTable, m: seq<int>, m': seq<int>, sp: Spaces, starts: seq<nat>, top: int)
    requires WfHeap(cs, m, sp, starts, top) && OnlyFreeChanged(m, m', sp, top)
    ensures WfHeap(cs, m', sp, starts, top)
  {
    forall p | p in starts
      ensures At(m, p) == At(m', p) && SameHeader(At(m, p), m, p, m', p)
    {
      ObjectFrame(cs, m, m', sp, starts, top, p);
    }
    TilingFrame(cs, m, m', starts, sp.lo, top);
    forall p, k | p in starts && RefSlotAt(cs, m', p, k)
      ensures WfRef(m', sp, starts, Field(m', p, k))
    {
      ObjectFrame(cs, m, m', sp, starts, top, p);
      SameHeaderSameShape(cs, At(m, p), m, p, m', p);
      assert RefSlotAt(cs, m, p, k);
      RefSlotIsKept(cs, At(m, p), m, p, k);
      RefFrame(m, m', sp, starts, starts, top, Field(m, p, k));
    }
  }

  lemma RootsFrame(m: seq<int>, m': seq<int>, sp: Spaces, starts: seq<nat>, starts': seq<nat>, top: int,
                   roots: seq<int>)
    requires sp.Valid(|m|) && sp.lo <= top && OnlyFreeChanged(m, m', sp, top) && WfRoots(m, sp, starts, roots)
    requires forall p :: p in starts ==> p in starts'
    ensures WfRoots(m', sp, starts', roots)
  {
    forall r | r in roots
      ensures WfRef(m', sp, starts', r)
    {
      RefFrame(m, m', sp, starts, starts', top, r);
    }
  }

  /** An initialised object behind the last one, with empty reference slots, joins the heap. */
  lemma AppendObject(cs: ClassTable, m: seq<int>, sp: Spaces, starts: seq<nat>, p: nat)
    requires WfHeap(cs, m, sp, starts, p) && WfObject(cs, m, p) && p + SizeAt(cs, m, p) <= sp.lo + sp.size
    requires forall k :: RefSlotAt(cs, m, p, k) ==> Field(m, p, k) == 0
    ensures WfHeap(cs, m, sp, starts + [p], p + SizeAt(cs, m, p))
  {
    TilingAppend(cs, m, starts, sp.lo, p);
    forall q, k | q in starts + [p] && RefSlotAt(cs, m, q, k)
      ensures WfRef(m, sp, starts + [p], Field(m, q, k))
    {
      if q in starts {
        RefFrame(m, m, sp, starts, starts + [p], p, Field(m, q, k));
      }
    }
  }
}
