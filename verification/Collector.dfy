/** The semispace collector of one domain (gc_new.c, gc_move_common.c, gc_move.c, gc_impl.c), in the
  imperative form of the source: it overwrites slots, flag words and the heap pointers in place. */
module Collector {
  import opened HeapLayout
  import opened HeapGraph
  import opened ScanInvariant
  import opened Finalization
  import opened AllocationFrame
  import opened LogicalHeap
  import opened ObjectWords

  /** Words of heap kept back for interrupt handlers. */
  const HEAP_RESERVE := 10 * 1024

  /** A handle, the RuntimeException after a collection that did not free enough, or a kernel panic. */
  datatype AllocResult = Allocated(handle: nat) | RuntimeException | Panic(message: string)

  class Domain {
    const mem: array<int>          // all of memory, by words
    const roots: array<int>        // root slots of stacks, statics, services and specials, in walk order
    const registered: array<int>   // domain->gc.registeredObjects
    const classes: ClassTable
    const self: int                // this DomainDesc, as portals store it
    const domainIds: map<int, int> // DomainDesc pointers and their current ids

    var heap: nat
    var heapTop: nat
    var heapBorder: nat
    var heap2: nat
    var heapTop2: nat
    var heapBorder2: nat
    var epoch: nat
    var memoryDeleted: seq<MemoryDeleted>
    var serviceDecrements: seq<ServiceDecrement>

    ghost var starts: seq<nat>       // the objects of the heap, in address order
    ghost var before: Before         // the heap the running collection started from
    ghost var progress: Progress     // what the running collection has copied
    ghost var ident: map<nat, nat>   // which logical object each object of the heap is
    ghost var nextIdent: nat

    ghost function Sp(): Spaces
      reads this
    {
      Spaces(heap, heap2, if heapBorder >= heap then heapBorder - heap else 0)
    }

    ghost predicate Layout()
      reads this
    {
      mem != roots && mem != registered && roots != registered &&
      heap <= heapBorder && heap2 <= heapBorder2 && heapBorder - heap == heapBorder2 - heap2
    }

    ghost function AllRoots(): seq<int>
      reads this, roots, registered
    {
      roots[..] + registered[..]
    }

    ghost function W(): World
      reads this, mem, roots, registered
    {
      World(classes, mem[..], Sp(), starts, AllRoots(), ident)
    }

    ghost predicate Valid()
      reads this, mem, roots, registered
    {
      Layout() && heapTop2 == heap2 &&
      WfHeap(classes, mem[..], Sp(), starts, heapTop) &&
      WfRoots(mem[..], Sp(), starts, AllRoots()) &&
      IdentOk(starts, ident, nextIdent)
    }

    /** What a collection starts from. */
    ghost function Now(): Before
      reads this, mem, roots, registered
    {
      Before(classes, mem[..], Sp(), starts, heapTop, AllRoots())
    }

    /** Between the worlds w and w' there was one collection, which started from b and added its finalizer
        calls to calls, or none. */
    ghost predicate AfterRoom(collected: bool, b: Before, w: World, w': World, calls: seq<MemoryDeleted>)
      reads this`before, this`progress, this`memoryDeleted
    {
      if collected then
        before == b && Collected(b, w, w', progress.fwd) &&
        memoryDeleted == calls + DeadProxies(b, b.starts, progress.fwd)
      else w' == w && memoryDeleted == calls
    }

    /** The overrun of gc_impl_shallowCopyObject fits into to-space. */
    ghost predicate RoomToCollect()
      reads this
    {
      heapTop + OBJECT_OVERRUN <= heapBorder
    }

    /** The collection is running, with everything below s scanned. */
    ghost predicate Collecting(s: int)
      reads this, mem
    {
      Layout() &&
      before.cs == classes && before.sp == Sp() && before.top == heapTop &&
      heapTop + OBJECT_OVERRUN <= heapBorder &&
      Inv(before, mem[..], progress, s) && heapTop2 == progress.top2
    }

    /** gc_init and gc_new_init: two semispaces of heapBytes bytes, an empty handle table.  The source
        panics for smaller heaps. */
    constructor (mem: array<int>, roots: array<int>, registered: array<int>, classes: ClassTable, self: int,
                 domainIds: map<int, int>, heap: nat, heap2: nat, heapBytes: nat)
      requires mem != roots && mem != registered && roots != registered && WfClasses(classes)
      requires heapBytes > HEAP_RESERVE + 1000
      requires Spaces(heap, heap2, heapBytes / 4).Valid(mem.Length)
      requires WfRoots(mem[..], Spaces(heap, heap2, heapBytes / 4), [], roots[..])
      modifies registered
      ensures Valid() && RoomToCollect() && starts == [] && heapBorder - heap == heapBytes / 4
      ensures this.mem == mem && this.roots == roots && this.registered == registered && this.classes == classes
      ensures this.self == self && this.domainIds == domainIds && this.heap == heap && this.heap2 == heap2
      ensures epoch == 0 && memoryDeleted == [] && serviceDecrements == [] && forall i ::
                0 <= i < registered.Length ==> registered[i] == 0
    {
      this.mem, this.roots, this.registered, this.classes := mem, roots, registered, classes;
      this.self, this.domainIds := self, domainIds;
      this.heap, this.heapTop, this.heapBorder := heap, heap, heap + heapBytes / 4;
      this.heap2, this.heapTop2, this.heapBorder2 := heap2, heap2, heap2 + heapBytes / 4;
      epoch, memoryDeleted, serviceDecrements := 0, [], [];
      starts, ident, nextIdent := [], map[], 0;
      before := Before(classes, [], Spaces(heap, heap2, 0), [], 0, []);
      progress := Progress(map[], [], [], 0);
      new;
      forall i | 0 <= i < registered.Length {
        registered[i] := 0;
      }
      NullHandles(mem[..], Sp(), roots[..], registered[..]);
    }

    // ----- shallow copies (gc_move.c) ---------------------------------------------------------

    /** gc_memcpy4 between regions that do not overlap. */
    method CopyWords(dst: nat, src: nat, n: nat)
      requires dst + n <= mem.Length && src + n <= mem.Length
      requires dst + n <= src || src + n <= dst
      modifies mem
      ensures forall k {:trigger Field(mem[..], dst, k)} ::
                0 <= k < n ==> Field(mem[..], dst, k) == Field(old(mem[..]), src, k)
      ensures forall a: int {:trigger At(mem[..], a)} :: !(dst <= a < dst + n) ==> At(mem[..], a) == At(old(mem[..]), a)
    {
      forall k | 0 <= k < n {
        mem[dst + k] := mem[src + k];
      }
    }

    ghost predicate CopyRegions(dst: nat, src: nat, size: nat)
      reads this
    {
      dst + size + OBJECT_OVERRUN <= mem.Length && src + size + OBJECT_OVERRUN <= mem.Length &&
      (dst + size + OBJECT_OVERRUN <= src || src + size + OBJECT_OVERRUN <= dst)
    }

    method ShallowCopyObject(dst: nat, src: nat)
      requires CopyRegions(dst, src, ObjSize(classes, OBJFLAGS_OBJECT, mem[..], src))
      modifies mem
      ensures CopyEffect(classes, old(mem[..]), mem[..], src, dst, OBJFLAGS_OBJECT)
    {
      ghost var m := mem[..];
      var size := ObjSize(classes, OBJFLAGS_OBJECT, mem[..], src);
      mem[dst] := OBJFLAGS_OBJECT;
      mem[dst + 1] := mem[src + 1];
      CopyWords(dst + 2, src + 2, size);
      forall k | 1 <= k < size
        ensures Field(mem[..], dst, k) == Field(m, src, k)
      {
        if k >= 2 {
          assert Field(mem[..], dst + 2, k - 2) == At(mem[..], dst + k);
        }
      }
    }

    method ShallowCopyArray(dst: nat, src: nat)
      requires CopyRegions(dst, src, ObjSize(classes, OBJFLAGS_ARRAY, mem[..], src))
      requires At(mem[..], src + 3) >= 0
      modifies mem
      ensures CopyEffect(classes, old(mem[..]), mem[..], src, dst, OBJFLAGS_ARRAY)
    {
      ghost var m := mem[..];
      mem[dst] := OBJFLAGS_ARRAY;
      mem[dst + 1] := mem[src + 1];
      mem[dst + 2] := mem[src + 2];
      mem[dst + 3] := mem[src + 3];
      CopyWords(dst + 4, src + 4, mem[src + 3]);
      forall k | 1 <= k < ObjSize(classes, OBJFLAGS_ARRAY, m, src)
        ensures Field(mem[..], dst, k) == Field(m, src, k)
      {
        if k >= 4 {
          assert Field(mem[..], dst + 4, k - 4) == At(mem[..], dst + k);
        }
      }
    }

    method ShallowCopyPortal(dst: nat, src: nat)
      requires CopyRegions(dst, src, ObjSize(classes, OBJFLAGS_PORTAL, mem[..], src))
      modifies mem
      ensures CopyEffect(classes, old(mem[..]), mem[..], src, dst, OBJFLAGS_PORTAL)
    {
      mem[dst] := OBJFLAGS_PORTAL;
      mem[dst + 1] := mem[src + 1];
      mem[dst + 2] := mem[src + 2];
      mem[dst + 3] := mem[src + 3];
      mem[dst + 4] := mem[src + 4];
    }

    /** memory_copy_intradomain: vtable, size, dz and mem, but not the two dummies. */
    method ShallowCopyMemory(dst: nat, src: nat)
      requires CopyRegions(dst, src, ObjSize(classes, OBJFLAGS_MEMORY, mem[..], src))
      modifies mem
      ensures CopyEffect(classes, old(mem[..]), mem[..], src, dst, OBJFLAGS_MEMORY)
    {
      mem[dst] := OBJFLAGS_MEMORY;
      mem[dst + 1] := mem[src + 1];
      mem[dst + 2] := mem[src + 2];
      mem[dst + 4] := mem[src + 4];
      mem[dst + 3] := mem[src + 3];
    }

    method ShallowCopyCAS(dst: nat, src: nat)
      requires CopyRegions(dst, src, ObjSize(classes, OBJFLAGS_CAS, mem[..], src))
      modifies mem
      ensures CopyEffect(classes, old(mem[..]), mem[..], src, dst, OBJFLAGS_CAS)
    {
      mem[dst] := OBJFLAGS_CAS;
      mem[dst + 1] := mem[src + 1];
      mem[dst + 2] := mem[src + 2];
    }

    method ShallowCopyDomain(dst: nat, src: nat)
      requires CopyRegions(dst, src, ObjSize(classes, OBJFLAGS_DOMAIN, mem[..], src))
      modifies mem
      ensures CopyEffect(classes, old(mem[..]), mem[..], src, dst, OBJFLAGS_DOMAIN)
    {
      mem[dst] := OBJFLAGS_DOMAIN;
      mem[dst + 1] := mem[src + 1];
      mem[dst + 2] := mem[src + 2];
      mem[dst + 3] := mem[src + 3];
    }

    /** Copies value and blockedThread, but not listMode. */
    method ShallowCopyAtomVar(dst: nat, src: nat)
      requires CopyRegions(dst, src, ObjSize(classes, OBJFLAGS_ATOMVAR, mem[..], src))
      modifies mem
      ensures CopyEffect(classes, old(mem[..]), mem[..], src, dst, OBJFLAGS_ATOMVAR)
    {
      mem[dst] := OBJFLAGS_ATOMVAR;
      mem[dst + 1] := mem[src + 1];
      mem[dst + 2] := mem[src + 2];
      mem[dst + 3] := mem[src + 3];
    }

    /** Copies sizeof(DEPDesc), 15 words. */
    method ShallowCopyService(dst: nat, src: nat)
      requires CopyRegions(dst, src, ObjSize(classes, OBJFLAGS_SERVICE, mem[..], src))
      modifies mem
      ensures CopyEffect(classes, old(mem[..]), mem[..], src, dst, OBJFLAGS_SERVICE)
    {
      ghost var m := mem[..];
      mem[dst] := OBJFLAGS_SERVICE;
      CopyWords(dst + 1, src + 1, 15);
      forall k | 1 <= k < 16
        ensures Field(mem[..], dst, k) == Field(m, src, k)
      {
        assert Field(mem[..], dst + 1, k - 1) == At(mem[..], dst + k);
      }
    }

    /** gc_new_allocHeap2.  The test comes before the bump; it never fires, and the space handed out
        lies below heapBorder2 as well. */
    method AllocHeap2(size: nat) returns (data: nat)
      requires heapTop2 + size <= heapBorder2
      modifies this`heapTop2
      ensures data == old(heapTop2) && heapTop2 == data + size
    {
      data := heapTop2;
      assert !(data > heapBorder2);
      heapTop2 := heapTop2 + size;
    }

    /** The per-kind movers: allocate in to-space and copy. */
    method MoveObject(kind: int, src: nat) returns (dst: nat)
      requires HeapKind(kind) && (kind == OBJFLAGS_ARRAY ==> At(mem[..], src + 3) >= 0)
      requires heapTop2 + ObjSize(classes, kind, mem[..], src) <= heapBorder2
      requires CopyRegions(heapTop2, src, ObjSize(classes, kind, mem[..], src))
      modifies this`heapTop2, mem
      ensures dst == old(heapTop2) && heapTop2 == dst + ObjSize(classes, kind, old(mem[..]), src)
      ensures CopyEffect(classes, old(mem[..]), mem[..], src, dst, kind)
    {
      dst := AllocHeap2(ObjSize(classes, kind, mem[..], src));
      if kind == OBJFLAGS_OBJECT {
        ShallowCopyObject(dst, src);
      } else if kind == OBJFLAGS_PORTAL {
        ShallowCopyPortal(dst, src);
      } else if kind == OBJFLAGS_MEMORY {
        ShallowCopyMemory(dst, src);
      } else if kind == OBJFLAGS_ARRAY {
        ShallowCopyArray(dst, src);
      } else if kind == OBJFLAGS_SERVICE {
        ShallowCopyService(dst, src);
      } else if kind == OBJFLAGS_ATOMVAR {
        ShallowCopyAtomVar(dst, src);
      } else if kind == OBJFLAGS_CAS {
        ShallowCopyCAS(dst, src);
      } else {
        ShallowCopyDomain(dst, src);
      }
    }

    // ----- forwarding a reference (gc_move_common.c) ------------------------------------------

    /** gc_common_move_reference.  The new value of the slot is returned; the callers store it. */
    method MoveReference(ref: int, ghost s: int) returns (forward: int)
      requires Collecting(s) && s <= progress.top2
      requires WfRef(before.m, before.sp, before.starts, ref) && Wanted(before, ref)
      modifies this`heapTop2, this`progress, mem
      ensures Collecting(s) && Grows(before, old(progress), progress)
      ensures forward == Image(progress.fwd, ref) && Settled(before, progress.fwd, ref)
    {
      if ref <= LAST_STRANGE_REF {
        StrangeRef(before, mem[..], progress, s, ref);
        return ref;
      }
      ghost var g := progress;
      RefTarget(before, mem[..], progress, s, ref);
      var flags := mem[PtrOf(ref)];
      if IsForward(flags) {
        return ForwardPtr(flags);
      }
      if ExternalKind(FlagsOf(flags)) {
        return ref;
      }
      var src: nat := PtrOf(ref);
      var dst := CopyObject(src, s);
      forward := RefOf(dst);
    }

    /** The copying branch: move the object, then overwrite its flag word. */
    method CopyObject(src: nat, ghost s: int) returns (dst: nat)
      requires Collecting(s) && s <= progress.top2
      requires src in before.starts && src !in progress.fwd && before.Reaches(src)
      modifies this`heapTop2, this`progress, mem
      ensures Collecting(s) && Grows(before, old(progress), progress)
      ensures src in progress.fwd && progress.fwd[src] == dst
    {
      hide Inv, CopyEffect, Grows;
      ghost var m, g := mem[..], progress;
      CopyFits(before, m, g, s, src);
      dst := MoveObject(FlagsOf(mem[src]), src);
      ghost var m1 := mem[..];
      mem[src] := Tag(RefOf(dst));
      CopyDone(before, m, m1, mem[..], g, s, src);
      progress := Extend(before, g, src);
    }

    // ----- walking the contents of a copy (gc_move.c) -------------------------------------------

    /** The copy i, at address t, of the object f of kind kind is being scanned; s is inside it. */
    ghost predicate Scanning(i: nat, t: nat, f: nat, s: int)
      reads this, mem
    {
      Collecting(s) && i < |progress.order| && progress.order[i] == f && progress.tos[i] == t &&
      t <= s <= t + SizeAt(classes, before.m, f)
    }

    /** Hands the slot k of the copy to the collector and stores what it returns. */
    method ForwardSlot(t: nat, k: nat, ghost i: nat, ghost f: nat, ghost s: int)
      requires Scanning(i, t, f, s) && s <= t + k
      requires RefSlotAt(classes, before.m, f, k)
      requires forall x :: s <= t + x < t + k ==> !RefSlotAt(classes, before.m, f, x)
      modifies this`heapTop2, this`progress, mem
      ensures Scanning(i, t, f, t + k + 1) && Grows(before, old(progress), progress)
    {
      hide Inv;
      PendingSlot(before, mem[..], progress, s, i, k);
      SlotInMemory(before, mem[..], progress, s, i, k);
      var ref := MoveReference(mem[t + k], s);
      ghost var m := mem[..];
      mem[t + k] := ref;
      SlotKeepsInv(before, m, mem[..], progress, s, i, k);
    }

    /** Moves the scan position over words that are no reference slots. */
    ghost method SkipWords(i: nat, t: nat, f: nat, s: int, s': int)
      requires Scanning(i, t, f, s) && s <= s' <= t + SizeAt(classes, before.m, f)
      requires forall k :: s <= t + k < s' ==> !RefSlotAt(classes, before.m, f, k)
      ensures Scanning(i, t, f, s')
    {
      SkipKeepsInv(before, mem[..], progress, s, i, s');
    }

    /** One step of FORBITMAP: a reference is forwarded, any other word is passed over. */
    method WalkSlot(t: nat, k: nat, isRef: bool, ghost i: nat, ghost f: nat)
      requires Scanning(i, t, f, t + k) && (isRef <==> RefSlotAt(classes, before.m, f, k)) &&
               k < SizeAt(classes, before.m, f)
      modifies this`heapTop2, this`progress, mem
      ensures Scanning(i, t, f, t + k + 1) && Grows(before, old(progress), progress)
    {
      hide Inv, RefSlotAt, SizeAt;
      if isRef {
        ForwardSlot(t, k, i, f, t + k);
      } else {
        ClassesWf(before, mem[..], progress, t + k);
        SkipWords(i, t, f, t + k, t + k + 1);
      }
    }

    /** gc_impl_walkContentObject with its FORBITMAP loop. */
    method WalkContentObject(t: nat, ghost i: nat, ghost f: nat)
      requires Scanning(i, t, f, t) && At(before.m, f) == OBJFLAGS_OBJECT
      requires t + 1 < mem.Length && mem[t + 1] in classes.instances
      requires classes.instances[mem[t + 1]] == ClassOf(classes, before.m, f)
      modifies this`heapTop2, this`progress, mem
      ensures Scanning(i, t, f, t + SizeAt(classes, before.m, f)) && Grows(before, old(progress), progress)
    {
      hide Inv;
      var c := classes.instances[mem[t + 1]];
      var bits := 0;
      SkipWords(i, t, f, t, t + 2);
      ClassesWf(before, mem[..], progress, t + 2);
      for index := 0 to c.instanceSize
        invariant Scanning(i, t, f, t + 2 + index) && Grows(before, old(progress), progress)
        invariant index % 8 != 0 ==> index / 8 < |c.refMap| && bits == Shifted(c.refMap[index / 8], index % 8)
      {
        assert 8 * |c.refMap| >= c.instanceSize;
        if index % 8 == 0 {
          bits := c.refMap[index / 8];
        }
        assert RefBit(c, index) <==> bits % 2 == 1;
        ghost var g := progress;
        WalkSlot(t, 2 + index, bits % 2 == 1, i, f);
        GrowsTrans(before, old(progress), g, progress);
        bits := bits / 2;
      }
      SkipWords(i, t, f, t + 2 + c.instanceSize, t + SizeAt(classes, before.m, f));
    }

    /** gc_impl_walkContentArray */
    method WalkContentArray(t: nat, ghost i: nat, ghost f: nat)
      requires Scanning(i, t, f, t) && At(before.m, f) == OBJFLAGS_ARRAY
      requires t + 3 < mem.Length && SameHeader(OBJFLAGS_ARRAY, mem[..], t, before.m, f)
      requires mem[t + 2] in classes.arrays && mem[t + 3] >= 0
      modifies this`heapTop2, this`progress, mem
      ensures Scanning(i, t, f, t + SizeAt(classes, before.m, f)) && Grows(before, old(progress), progress)
    {
      hide Inv;
      ClassesWf(before, mem[..], progress, t);
      if classes.arrays[mem[t + 2]] == RefElem {
        var size := mem[t + 3];
        SkipWords(i, t, f, t, t + 4);
        for index := 0 to size
          invariant Scanning(i, t, f, t + 4 + index) && Grows(before, old(progress), progress)
        {
          ForwardSlot(t, 4 + index, i, f, t + 4 + index);
        }
      } else {
        SkipWords(i, t, f, t, t + SizeAt(classes, before.m, f));
      }
    }

    /** gc_impl_walkContentService: obj and proxy. */
    method WalkContentService(t: nat, ghost i: nat, ghost f: nat)
      requires Scanning(i, t, f, t) && At(before.m, f) == OBJFLAGS_SERVICE
      modifies this`heapTop2, this`progress, mem
      ensures Scanning(i, t, f, t + SizeAt(classes, before.m, f)) && Grows(before, old(progress), progress)
    {
      hide Inv;
      ClassesWf(before, mem[..], progress, t);
      ForwardSlot(t, 9, i, f, t);
      ForwardSlot(t, 10, i, f, t + 10);
      SkipWords(i, t, f, t + 11, t + 17);
    }

    /** gc_impl_walkContentAtomVar: value. */
    method WalkContentAtomVar(t: nat, ghost i: nat, ghost f: nat)
      requires Scanning(i, t, f, t) && At(before.m, f) == OBJFLAGS_ATOMVAR
      modifies this`heapTop2, this`progress, mem
      ensures Scanning(i, t, f, t + SizeAt(classes, before.m, f)) && Grows(before, old(progress), progress)
    {
      hide Inv;
      ClassesWf(before, mem[..], progress, t);
      ForwardSlot(t, 2, i, f, t);
      SkipWords(i, t, f, t + 3, t + 5);
    }

    /** One object of the walk over to-space: its contents by kind. */
    method ScanObject(t: nat, ghost i: nat, ghost f: nat) returns (objSize: nat)
      requires Scanning(i, t, f, t)
      modifies this`heapTop2, this`progress, mem
      ensures Scanning(i, t, f, t + objSize) && Grows(before, old(progress), progress)
      ensures objSize == SizeAt(classes, before.m, f)
    {
      hide Inv;
      ClassesWf(before, mem[..], progress, t);
      CopyParses(before, mem[..], progress, t, i);
      var flags := FlagsOf(mem[t]);
      objSize := ObjSize(classes, flags, mem[..], t);
      if flags == OBJFLAGS_OBJECT {
        WalkContentObject(t, i, f);
      } else if flags == OBJFLAGS_ARRAY {
        WalkContentArray(t, i, f);
      } else if flags == OBJFLAGS_SERVICE {
        WalkContentService(t, i, f);
      } else if flags == OBJFLAGS_ATOMVAR {
        WalkContentAtomVar(t, i, f);
      } else {
        SkipWords(i, t, f, t, t + objSize);
      }
    }

    /** gc_new_walkHeap2 over gc_walkContinuesBlock: the bound heapTop2 moves while the loop runs.
        The loop ends because heapTop2 stays below the words from-space had in use. */
    method ScanHeap2()
      requires Collecting(heap2)
      modifies this`heapTop2, this`progress, mem
      ensures Collecting(heapTop2) && Grows(before, old(progress), progress)
    {
      hide Inv;
      var data := heap2;
      ghost var i := 0;
      ClassesWf(before, mem[..], progress, data);
      ScanFirst(before, mem[..], progress, data);
      while data < heapTop2
        invariant Collecting(data) && Grows(before, old(progress), progress)
        invariant ScanAt(progress, i, data)
        decreases before.sp.other + before.top - data
      {
        ScanBound(before, mem[..], progress, data, i);
        var objSize := ScanObject(data, i, progress.order[i]);
        data := data + objSize;
        i := i + 1;
        ScanNext(before, mem[..], progress, data, i);
      }
      ScanLast(before, mem[..], progress, data, i);
    }

    // ----- roots (gc_impl.c) --------------------------------------------------------------------

    /** The walks over stacks, statics, services and specials. */
    method WalkRoots()
      requires Collecting(heap2) && roots[..] <= before.roots
      modifies this`heapTop2, this`progress, mem, roots
      ensures Collecting(heap2) && Grows(before, old(progress), progress)
      ensures Forwarded(before, progress, before.roots[..roots.Length], roots[..], roots.Length)
    {
      hide Inv, Grows;
      ghost var slots := before.roots[..roots.Length];
      ClassesWf(before, mem[..], progress, heap2);
      for i := 0 to roots.Length
        invariant Collecting(heap2) && Grows(before, old(progress), progress)
        invariant Forwarded(before, progress, slots, roots[..], i)
      {
        ghost var g := progress;
        RootRef(before, mem[..], progress, heap2, roots[i]);
        var ref := MoveReference(roots[i], heap2);
        GrowsTrans(before, old(progress), g, progress);
        ForwardedGrows(before, g, progress, slots, roots[..], i);
        roots[i] := ref;
      }
    }

    /** walkRegistereds: the handle table, where empty entries are skipped. */
    method WalkRegistereds(ghost base: nat)
      requires Collecting(heap2) && base + registered.Length == |before.roots|
      requires registered[..] == before.roots[base..]
      modifies this`heapTop2, this`progress, mem, registered
      ensures Collecting(heap2) && Grows(before, old(progress), progress)
      ensures Forwarded(before, progress, before.roots[base..], registered[..], registered.Length)
    {
      hide Inv, Grows;
      ghost var slots := before.roots[base..];
      ClassesWf(before, mem[..], progress, heap2);
      for i := 0 to registered.Length
        invariant Collecting(heap2) && Grows(before, old(progress), progress)
        invariant Forwarded(before, progress, slots, registered[..], i)
      {
        if registered[i] != 0 {
          ghost var g := progress;
          assert slots[i] == before.roots[base + i];
          RootRef(before, mem[..], progress, heap2, registered[i]);
          var ref := MoveReference(registered[i], heap2);
          GrowsTrans(before, old(progress), g, progress);
          ForwardedGrows(before, g, progress, slots, registered[..], i);
          registered[i] := ref;
        } else {
          NullRef(before, mem[..], progress, heap2);
        }
      }
    }

    // ----- finalization -------------------------------------------------------------------------

    /** gc_new_finalizeMemory: walks the old heap and drops the memory of every dead proxy. */
    method FinalizeMemory(ghost s: int)
      requires Collecting(s)
      modifies this`memoryDeleted
      ensures memoryDeleted == old(memoryDeleted) + DeadProxies(before, before.starts, progress.fwd)
    {
      hide Inv;
      var data := heap;
      ghost var i := 0;
      OldWalkFirst(before, mem[..], progress, s);
      while data < heapTop
        invariant OldWalkAt(before, i, data)
        invariant memoryDeleted == old(memoryDeleted) + DeadProxies(before, before.starts[..i], progress.fwd)
        decreases heapTop - data
      {
        OldWalkStep(before, mem[..], progress, s, i, data);
        assert before.starts[..i + 1][..i] == before.starts[..i];
        var forwarded, flags, objSize := ParseOldObject(data, i, s);
        if flags == OBJFLAGS_MEMORY && !forwarded {
          memoryDeleted := memoryDeleted + [MemoryDeleted(data, mem[data + MEMORY_DZ])];
        }
        data := data + objSize;
        i := i + 1;
      }
      OldWalkLast(before, mem[..], progress, s, i, data);
      assert before.starts[..i] == before.starts;
    }

    /** gc_new_finalizePortals: releases the services of dead portals to live foreign domains. */
    method FinalizePortals(ghost s: int)
      requires Collecting(s)
      modifies this`serviceDecrements
      ensures serviceDecrements == old(serviceDecrements) + DeadPortals(before, before.starts, progress.fwd, self,
                                                                        domainIds)
    {
      hide Inv, DeadPortals, DeadPortal;
      var data := heap;
      ghost var i := 0;
      OldWalkFirst(before, mem[..], progress, s);
      assert before.starts[..0] == [];
      NoDeadPortals(before, progress.fwd, self, domainIds);
      while data < heapTop
        invariant OldWalkAt(before, i, data)
        invariant serviceDecrements == old(serviceDecrements) + DeadPortals(before, before.starts[..i], progress.fwd,
                                                                            self, domainIds)
        decreases heapTop - data
      {
        OldWalkStep(before, mem[..], progress, s, i, data);
        DeadPortalsNext(before, before.starts, i, progress.fwd, self, domainIds);
        var forwarded, flags, objSize := ParseOldObject(data, i, s);
        FinalizePortal(data, forwarded, flags, i, s);
        data := data + objSize;
        i := i + 1;
      }
      OldWalkLast(before, mem[..], progress, s, i, data);
      assert before.starts[..i] == before.starts;
    }

    /** gc_new_finalizePortalsCB, for a portal that has not been forwarded. */
    method FinalizePortal(data: nat, forwarded: bool, flags: int, ghost i: nat, ghost s: int)
      requires Collecting(s) && i < |before.starts| && before.starts[i] == data
      requires flags == At(before.m, data) && (forwarded <==> data in progress.fwd)
      requires data + SizeAt(classes, before.m, data) <= mem.Length
      requires forall k ::
                 1 <= k < SizeAt(classes, before.m, data) ==> Field(mem[..], data, k) == Field(before.m, data, k)
      modifies this`serviceDecrements
      ensures serviceDecrements == old(serviceDecrements) + DeadPortal(before, data, progress.fwd, self, domainIds)
    {
      hide Inv;
      if flags == OBJFLAGS_PORTAL && !forwarded {
        assert forall k :: 2 <= k <= 4 ==> Field(mem[..], data, k) == Field(before.m, data, k);
        var target := mem[data + 2];
        if target != 0 && target in domainIds && domainIds[target] == mem[data + 3] && target != self {
          serviceDecrements := serviceDecrements + [ServiceDecrement(data, target, mem[data + 4])];
        }
      }
    }

    /** gc_walkContinuesBlock on one object of the old heap: the flags come from the copy if the flag
        word has become a forwarding pointer. */
    method ParseOldObject(data: nat, ghost i: nat, ghost s: int) returns (forwarded: bool, flags: int, objSize: nat)
      requires Collecting(s) && i < |before.starts| && before.starts[i] == data
      ensures flags == At(before.m, data) && objSize == SizeAt(classes, before.m, data)
      ensures forwarded <==> data in progress.fwd
      ensures data + objSize <= mem.Length
      ensures forall k :: 1 <= k < objSize ==> Field(mem[..], data, k) == Field(before.m, data, k)
    {
      hide Inv;
      OldHeapParses(before, mem[..], progress, s, data);
      OldObjectInMemory(before, mem[..], progress, s, data);
      var word := mem[data];
      forwarded := IsForward(word);
      if forwarded {
        word := mem[PtrOf(ForwardPtr(word))];
      }
      flags := FlagsOf(word);
      objSize := ObjSize(classes, flags, mem[..], data);
    }

    // ----- the collection (gc_new.c) ------------------------------------------------------------

    /** gc_new_gc up to the flip: roots, scan, finalizers. */
    method CopyLive()
      requires Valid() && RoomToCollect()
      modifies this`heapTop2, this`progress, this`before, this`memoryDeleted, this`serviceDecrements, mem, roots,
        registered
      ensures before == Before(classes, old(mem[..]), old(Sp()), old(starts), old(heapTop), old(AllRoots()))
      ensures Collecting(heapTop2) && RootsMoved(before, progress, AllRoots())
      ensures memoryDeleted == old(memoryDeleted) + DeadProxies(before, before.starts, progress.fwd)
      ensures serviceDecrements == old(serviceDecrements) + DeadPortals(before, before.starts, progress.fwd, self,
                                                                        domainIds)
    {
      hide Inv, Grows, WfHeap, WfRoots, IdentOk, RootsMoved, DeadProxies, DeadPortals;
      before := Before(classes, mem[..], Sp(), starts, heapTop, AllRoots());
      progress := Progress(map[], [], [], heap2);
      StartCollection(before);
      WalkRootSet();
      ghost var g := progress;
      ScanHeap2();
      RootsMovedGrows(before, g, progress, AllRoots());
      FinalizeMemory(heapTop2);
      FinalizePortals(heapTop2);
    }

    /** walkRootSet */
    method WalkRootSet()
      requires Collecting(heap2) && before.roots == AllRoots()
      modifies this`heapTop2, this`progress, mem, roots, registered
      ensures Collecting(heap2) && RootsMoved(before, progress, AllRoots())
    {
      hide Inv, Grows, Forwarded, RootsMoved;
      ghost var n := roots.Length;
      assert before.roots[..n] == roots[..] && before.roots[n..] == registered[..];
      WalkRoots();
      ghost var g := progress;
      WalkRegistereds(n);
      ForwardedGrows(before, g, progress, before.roots[..n], roots[..], n);
      JoinRoots(before, progress, n, roots[..], registered[..]);
    }

    /** gc_new_gc with gc_in: the whole collection.  The object graph is preserved along
        progress.fwd, the handle table denotes the same objects, every dead memory proxy and portal has
        been finalized, and exactly the words of the objects left behind have been freed. */
    method Gc()
      requires Valid() && RoomToCollect()
      modifies this, mem, roots, registered
      ensures Valid() && RoomToCollect()
      ensures heap == old(heap2) && heapBorder == old(heapBorder2) && heap2 == old(heap) &&
              heapBorder2 == old(heapBorder)
      ensures heapTop - heap + Unforwarded(before, before.starts, progress.fwd) == old(heapTop) - old(heap)
      ensures Collected(before, old(W()), W(), progress.fwd)
      ensures before == old(Now()) && heapTop == heap + LiveWords(old(W()), old(starts))
      ensures forall q: nat :: q in progress.fwd <==> old(W()).Reaches(q)
      ensures forall q: nat :: q in progress.fwd ==> Copied(before, mem[..], progress.fwd, q, progress.fwd[q])
      ensures forall i :: 0 <= i < roots.Length ==> Forwards(old(starts), progress.fwd, old(roots[i]), roots[i])
      ensures forall i :: 0 <= i < registered.Length ==>
                Forwards(old(starts), progress.fwd, old(registered[i]), registered[i])
      ensures memoryDeleted == old(memoryDeleted) + DeadProxies(before, before.starts, progress.fwd)
      ensures serviceDecrements == old(serviceDecrements) + DeadPortals(before, before.starts, progress.fwd, self,
                                                                        domainIds)
      ensures epoch == old(epoch) + 1 && nextIdent == old(nextIdent)
    {
      hide Inv, WfHeap, WfRoots, RootsMoved, IdentOk, DeadProxies, DeadPortals, Collected, Copied, Forwards, Tiling,
        Unforwarded, LiveWords;
      HeapTiled(W(), heapTop);
      CopyLive();
      assert Start(before, ident) == old(W());
      Finish();
      epoch := epoch + 1;
      WhatIsCollected(before, old(W()), W(), progress.fwd);
      LiveIsCopied(before, old(W()), progress.fwd);
      RootByRoot(old(starts), progress.fwd, old(roots[..]), old(registered[..]), roots[..], registered[..]);
    }

    /** Hands the copies over to the mutator. */
    method Finish()
      requires Collecting(heapTop2) && RootsMoved(before, progress, AllRoots()) &&
               IdentOk(before.starts, ident, nextIdent)
      modifies this`heap, this`heap2, this`heapBorder, this`heapBorder2, this`heapTop, this`heapTop2, this`starts,
        this`ident
      ensures Valid() && Sp() == old(Sp()).Flip()
      ensures heap == old(heap2) && heapBorder == old(heapBorder2) && heap2 == old(heap) &&
              heapBorder2 == old(heapBorder)
      ensures heapTop - heap + Unforwarded(before, before.starts, progress.fwd) == old(heapTop) - old(heap)
      ensures Collected(before, Start(before, old(ident)), W(), progress.fwd)
    {
      hide Inv, WfHeap, WfRoots, RootsMoved, IdentOk, Collected;
      CollectionResult(before, mem[..], progress, AllRoots(), ident, nextIdent);
      ident := MovedIdent(progress, ident);
      starts := progress.tos;
      Flip();
    }

    /** The end of gc_new_gc: the semispaces change roles and the old one becomes empty. */
    method Flip()
      requires Layout()
      modifies this`heap, this`heap2, this`heapBorder, this`heapBorder2, this`heapTop, this`heapTop2
      ensures Layout() && Sp() == old(Sp()).Flip()
      ensures heap == old(heap2) && heapBorder == old(heapBorder2) && heapTop == old(heapTop2)
      ensures heap2 == old(heap) && heapBorder2 == old(heapBorder) && heapTop2 == heap2
    {
      var htmp := heap;
      heap := heap2;
      heap2 := htmp;
      htmp := heapBorder;
      heapBorder := heapBorder2;
      heapBorder2 := htmp;
      heapTop := heapTop2;
      heapTop2 := heap2;
    }

    // ----- the handle table (gc.c) --------------------------------------------------------------

    /** nonatomic_registerObject: the first empty entry, or none. */
    method RegisterObject(o: int) returns (handle: nat)
      modifies registered
      ensures handle <= registered.Length
      ensures forall i :: 0 <= i < handle ==> old(registered[i]) != 0
      ensures handle < registered.Length ==>
                old(registered[handle]) == 0 && registered[..] == old(registered[..])[handle := o]
      ensures handle == registered.Length ==> registered[..] == old(registered[..])
    {
      handle := 0;
      while handle < registered.Length
        invariant handle <= registered.Length && registered[..] == old(registered[..])
        invariant forall i :: 0 <= i < handle ==> registered[i] != 0
      {
        if registered[handle] == 0 {
          registered[handle] := o;
          return;
        }
        handle := handle + 1;
      }
    }

    /** nonatomic_unregisterObject */
    method UnregisterObject(handle: nat) returns (o: int)
      requires handle < registered.Length
      modifies registered
      ensures o == old(registered[handle]) && registered[..] == old(registered[..])[handle := 0]
    {
      o := registered[handle];
      registered[handle] := 0;
    }

    // ----- allocation (gc_new.c, gc_alloc.c) ----------------------------------------------------

    /** The object at p has been allocated with a zeroed body, but has no class yet. */
    ghost predicate Pending(p: nat, size: nat, flags: int)
      reads this, mem, roots, registered
    {
      Layout() && heapTop2 == heap2 && heapTop == p + size <= heapBorder <= mem.Length &&
      WfHeap(classes, mem[..], Sp(), starts, p) &&
      WfRoots(mem[..], Sp(), starts + [p], AllRoots()) &&
      IdentOk(starts, ident, nextIdent) &&
      At(mem[..], p) == flags &&
      forall k :: 1 <= k < size ==> Field(mem[..], p, k) == 0
    }

    /** Every object reachable in w keeps its contents, and every root slot and handle denotes what it
        denoted in w, but for the handle given. */
    ghost predicate Kept(w: World, handle: int)
      reads this, mem, roots, registered
    {
      KeptHeap(w, W(), if handle < 0 then -1 else roots.Length + handle)
    }

    /** There is no room for size words, and there would not be after a collection either. */
    ghost predicate TooFull(size: nat)
      reads this, mem, roots, registered
    {
      heapTop + size > heapBorder - HEAP_RESERVE &&
      heap + LiveWords(W(), starts) + size > heapBorder - HEAP_RESERVE
    }

    /** The handle table has no empty entry. */
    ghost predicate TableFull()
      reads this, registered
    {
      forall i :: 0 <= i < registered.Length ==> registered[i] != 0
    }

    /** The retry loop of gc_new_allocDataInDomain: finds room for objSize words, with at most one
        collection. */
    method MakeRoom(objSize: nat, interrupt: bool) returns (failure: AllocResult, room: bool)
      requires Valid() && (!interrupt ==> RoomToCollect())
      modifies this, mem, roots, registered
      ensures Valid() && (!interrupt ==> RoomToCollect())
      ensures room ==> heapTop + objSize <= if interrupt then heapBorder else heapBorder - HEAP_RESERVE
      ensures !room ==> failure == if interrupt then Panic("no GC in interrupt handler possible!") else RuntimeException
      ensures room <==> if interrupt then old(heapTop) + objSize <= old(heapBorder) else !old(TooFull(objSize))
      ensures epoch == old(epoch) + if interrupt || old(heapTop) + objSize <= old(heapBorder) - HEAP_RESERVE then 0
                                    else 1
      ensures Kept(old(W()), -1) && nextIdent == old(nextIdent)
      ensures AfterRoom(epoch > old(epoch), old(Now()), old(W()), W(), old(memoryDeleted))
    {
      hide WfHeap, WfRoots, IdentOk, DeadProxies, DeadPortals, KeptHeap, GraphPreserved, Copied, Forwards, LiveWords,
        Collected;
      failure, room := RuntimeException, false;
      var tried := false;
      KeptRefl(W(), nextIdent);
      while heapTop + objSize > heapBorder - HEAP_RESERVE
        invariant Valid() && (!interrupt ==> RoomToCollect())
        invariant !tried ==>
                    epoch == old(epoch) && heapTop == old(heapTop) && heapBorder == old(heapBorder) &&
                    Now() == old(Now())
        invariant AfterRoom(epoch > old(epoch), old(Now()), old(W()), W(), old(memoryDeleted))
        invariant tried ==>
                    !interrupt && epoch == old(epoch) + 1 && old(heapTop) + objSize > old(heapBorder) - HEAP_RESERVE &&
                    heapTop == heap + old(LiveWords(W(), starts)) && heapBorder - heap == old(heapBorder) - old(heap)
        invariant Kept(old(W()), -1) && nextIdent == old(nextIdent)
        invariant failure == RuntimeException && !room
        decreases !tried
      {
        if interrupt {
          return Panic("no GC in interrupt handler possible!"), heapTop + objSize <= heapBorder;
        }
        if tried {
          return;
        }
        ghost var w := W();
        Gc();
        CollectionIsKept(before, w, W(), progress.fwd);
        tried := true;
      }
      room := true;
    }

    /** Takes the object from the free space, zeroes it and sets its flags. */
    method Carve(objSize: nat, flags: int) returns (data: nat)
      requires Valid() && heapTop + objSize <= heapBorder && objSize >= 3
      modifies this`heapTop, mem
      ensures data == old(heapTop) && heapTop == data + objSize
      ensures WfHeap(classes, mem[..], Sp(), starts, data) && WfRoots(mem[..], Sp(), starts, AllRoots())
      ensures At(mem[..], data) == flags && forall k :: 1 <= k < objSize ==> Field(mem[..], data, k) == 0
      ensures heapBorder <= mem.Length && OnlyFreeChanged(old(mem[..]), mem[..], Sp(), data)
    {
      data := heapTop;
      ghost var m := mem[..];
      forall k | 0 <= k < objSize {
        mem[data + k] := 0;
      }
      mem[data] := flags;
      hide IdentOk;
      assert OnlyFreeChanged(m, mem[..], Sp(), data);
      assert Sp().Valid(|m|) && Sp().lo <= data;
      HeapFrame(classes, m, mem[..], Sp(), starts, data);
      RootsFrame(m, mem[..], Sp(), starts, starts, data, AllRoots());
      hide WfHeap, WfRoots;
      heapTop := data + objSize;
    }

    /** Takes the object and enters it into the handle table, if that is not full. */
    method CarveAndRegister(objSize: nat, flags: int) returns (handle: nat)
      requires Valid() && heapTop + objSize <= heapBorder && objSize >= 3
      modifies this`heapTop, mem, registered
      ensures handle <= registered.Length && (handle == registered.Length <==> old(TableFull()))
      ensures handle < registered.Length ==>
                HandleTo(handle, objSize, flags) && Carved(old(W()), objSize) && old(registered[handle]) == 0 &&
                Kept(old(W()), handle) && heapTop == old(heapTop) + objSize
    {
      hide WfHeap, WfRoots, IdentOk, KeptHeap, OnlyFreeChanged;
      ghost var w, table := W(), registered[..];
      var data := Carve(objSize, flags);
      handle := RegisterObject(RefOf(data));
      if handle < registered.Length {
        RegisterRoot(classes, mem[..], Sp(), starts, data, roots[..], table, handle);
        RegisteredStep(w, W(), data, nextIdent, roots.Length + handle, RefOf(data));
        assert AllRoots()[roots.Length + handle := 0] == roots[..] + table;
      }
    }

    /** gc_new_allocDataInDomain: the object is zeroed, gets its flags and is registered.  A panic stops
        the kernel. */
    method AllocDataInDomain(objSize: nat, flags: int, interrupt: bool) returns (r: AllocResult, ghost w: World)
      requires Valid() && (!interrupt ==> RoomToCollect()) && objSize >= 3
      modifies this, mem, roots, registered
      ensures interrupt ==>
                (r.Panic? <==> old(heapTop) + objSize > old(heapBorder) || old(TableFull())) && !r.RuntimeException?
      ensures !interrupt ==>
                (r.RuntimeException? <==>
                   old(heapTop) + objSize > old(heapBorder) - HEAP_RESERVE &&
                   old(heap + LiveWords(W(), starts)) + objSize > old(heapBorder) - HEAP_RESERVE) &&
                (r.Panic? <==> !old(TooFull(objSize)) && old(TableFull()))
      ensures epoch == old(epoch) + if interrupt || old(heapTop) + objSize <= old(heapBorder) - HEAP_RESERVE then 0
                                    else 1
      ensures r.RuntimeException? ==> Valid()
      ensures r.Allocated? ==> HandleTo(r.handle, objSize, flags)
      ensures r.Allocated? ==> Kept(old(W()), r.handle)
      ensures r.RuntimeException? ==> Kept(old(W()), -1)
      ensures !r.Panic? && !interrupt ==> RoomToCollect()
      ensures r.Allocated? ==> old(registered[..])[r.handle] == 0
      ensures nextIdent == old(nextIdent)
      ensures AfterRoom(epoch > old(epoch), old(Now()), old(W()), w, old(memoryDeleted))
      ensures r.Allocated? ==> Carved(w, objSize) && starts == w.starts && ident == w.ident
      ensures r.RuntimeException? ==> w == W()
    {
      hide WfHeap, WfRoots, IdentOk, KeptHeap, OnlyFreeChanged, AfterRoom, LiveWords, HandleTo, Carved;
      var room;
      r, room := MakeRoom(objSize, interrupt);
      w := W();
      TableKept(old(W()), w, roots.Length, old(registered[..]), registered[..]);
      if !room {
        return;
      }
      var handle := CarveAndRegister(objSize, flags);
      if handle == registered.Length {
        return Panic("maximal number of registered objects reached for this domain"), w;
      }
      KeptAside(old(W()), w, roots.Length + handle);
      KeptTrans(old(W()), w, W(), roots.Length + handle);
      r := Allocated(handle);
    }

    /** Since w the last size words of the used heap have been taken from the free ones, and only free
        words have changed. */
    ghost predicate Carved(w: World, size: nat)
      reads this, mem
    {
      heapTop >= size && w.cs == classes && w.sp == Sp() && WfHeap(classes, w.m, w.sp, w.starts, heapTop - size) &&
      OnlyFreeChanged(w.m, mem[..], w.sp, heapTop - size)
    }

    /** The handle denotes the new object. */
    ghost predicate HandleTo(handle: nat, size: nat, flags: int)
      reads this, mem, roots, registered
    {
      handle < registered.Length && heapTop >= size && registered[handle] == RefOf(heapTop - size) &&
      Pending(heapTop - size, size, flags) &&
      WfRoots(mem[..], Sp(), starts, AllRoots()[roots.Length + handle := 0])
    }

    /** The class-specific stores of the allocation functions: the words behind the flag word.  The
        object joins the heap as a new logical object. */
    method Initialise(p: nat, size: nat, kind: int, header: seq<int>)
      requires Pending(p, size, kind) && HeaderFits(classes, kind, size, header)
      modifies this`starts, this`ident, this`nextIdent, mem
      ensures Valid() && starts == old(starts) + [p] && ident == old(ident)[p := old(nextIdent)]
      ensures NewObject(RefOf(p), kind, old(nextIdent)) && p !in old(ident) && At(mem[..], p) == kind
      ensures forall k :: 1 <= k < size ==> Field(mem[..], p, k) == if k <= |header| then header[k - 1] else 0
      ensures OnlyFreeChanged(old(mem[..]), mem[..], Sp(), p)
    {
      ghost var m := mem[..];
      forall k | 0 <= k < |header| {
        mem[p + 1 + k] := header[k];
      }
      hide WfHeap, WfRoots, IdentOk;
      NewBody(classes, m, mem[..], p, size, kind, header);
      Publish(p, size, m);
    }

    ghost method Publish(p: nat, size: nat, m: seq<int>)
      requires Layout() && heapTop2 == heap2 && heapTop == p + size <= heapBorder
      requires WfHeap(classes, m, Sp(), starts, p) && WfRoots(m, Sp(), starts + [p], AllRoots())
      requires IdentOk(starts, ident, nextIdent)
      requires OnlyFreeChanged(m, mem[..], Sp(), p)
      requires WfObject(classes, mem[..], p) && SizeAt(classes, mem[..], p) == size
      requires forall k :: RefSlotAt(classes, mem[..], p, k) ==> Field(mem[..], p, k) == 0
      modifies this`starts, this`ident, this`nextIdent
      ensures Valid() && starts == old(starts) + [p] && ident == old(ident)[p := old(nextIdent)]
      ensures p !in old(ident)
    {
      HeapFrame(classes, m, mem[..], Sp(), starts, p);
      assert Sp().Valid(|m|) && Sp().lo <= p;
      hide WfHeap, WfRoots, IdentOk, OnlyFreeChanged, WfObject;
      RootsFrame(m, mem[..], Sp(), starts + [p], starts + [p], p, AllRoots());
      AppendObject(classes, mem[..], Sp(), starts, p);
      NewIdent(classes, mem[..], Sp(), starts, p, ident, nextIdent);
      starts := starts + [p];
      ident := ident[p := nextIdent];
      nextIdent := nextIdent + 1;
    }

    /** Allocates, unregisters and initialises: the common shape of the functions below. */
    method AllocUnregistered(size: nat, kind: int, header: seq<int>) returns (r: AllocResult, obj: int)
      requires Valid() && RoomToCollect() && HeaderFits(classes, kind, size, header)
      modifies this, mem, roots, registered
      ensures !r.Panic? ==> Valid() && RoomToCollect()
      ensures !r.Panic? ==> Kept(old(W()), -1)
      ensures r.RuntimeException? <==> old(TooFull(size))
      ensures r.Panic? <==> !old(TooFull(size)) && old(TableFull())
      ensures epoch == old(epoch) + if old(heapTop) + size <= old(heapBorder) - HEAP_RESERVE then 0 else 1
      ensures r.Allocated? ==> NewObject(obj, kind, old(nextIdent))
      ensures r.Allocated? ==> forall k :: 1 <= k < size ==>
                Field(mem[..], PtrOf(obj), k) == if k <= |header| then header[k - 1] else 0
    {
      hide WfHeap, WfRoots, IdentOk, KeptHeap, NewObject, OnlyFreeChanged, AfterRoom, Carved, LiveWords;
      obj := 0;
      ghost var room;
      r, room := AllocDataInDomain(size, kind, false);
      if r.Allocated? {
        ghost var w, table := W(), registered[..];
        ghost var p := heapTop - size;
        obj := UnregisterObject(r.handle);
        assert obj == RefOf(p) && PtrOf(obj) == p;
        UnregisterRoot(mem[..], Sp(), starts + [p], roots[..], table, r.handle);
        Initialise(PtrOf(obj), size, kind, header);
        PublishedStep(w, W(), p, old(nextIdent), roots.Length + r.handle);
        KeptTrans(old(W()), w, W(), roots.Length + r.handle);
        EmptyAside(old(W()), W(), roots.Length + r.handle);
      }
    }

    /** nonatomic_allocObjectInDomain.  The result is the reference to a new logical object with empty
        data words. */
    method AllocObjectInDomain(vtable: int) returns (r: AllocResult, obj: int)
      requires Valid() && RoomToCollect() && vtable in classes.instances
      modifies this, mem, roots, registered
      ensures !r.Panic? ==> Valid() && RoomToCollect()
      ensures !r.Panic? ==> Kept(old(W()), -1)
      ensures r.RuntimeException? <==> old(TooFull(classes.instances[vtable].instanceSize + 3))
      ensures r.Panic? <==> !old(TooFull(classes.instances[vtable].instanceSize + 3)) && old(TableFull())
      ensures var top := old(heapTop) + classes.instances[vtable].instanceSize + 3;
              epoch == old(epoch) + if top <= old(heapBorder) - HEAP_RESERVE then 0 else 1
      ensures r.Allocated? ==>
                NewObject(obj, OBJFLAGS_OBJECT, old(nextIdent)) && Field(mem[..], PtrOf(obj), 1) == vtable
      ensures r.Allocated? ==> forall k :: 2 <= k < 2 + classes.instances[vtable].instanceSize ==>
                Field(mem[..], PtrOf(obj), k) == 0
    {
      hide Valid, NewObject, Kept, TooFull, TableFull;
      r, obj := AllocUnregistered(classes.instances[vtable].instanceSize + 3, OBJFLAGS_OBJECT, [vtable]);
    }

    /** allocByteArray: vtable, arrayClass and size of the array. */
    method AllocArrayInDomain(vtable: int, arrayClass: int, length: nat) returns (r: AllocResult, obj: int)
      requires Valid() && RoomToCollect() && arrayClass in classes.arrays
      modifies this, mem, roots, registered
      ensures !r.Panic? ==> Valid() && RoomToCollect()
      ensures !r.Panic? ==> Kept(old(W()), -1)
      ensures r.RuntimeException? <==> old(TooFull(length + 4))
      ensures r.Panic? <==> !old(TooFull(length + 4)) && old(TableFull())
      ensures epoch == old(epoch) + if old(heapTop) + length + 4 <= old(heapBorder) - HEAP_RESERVE then 0 else 1
      ensures r.Allocated? ==> NewObject(obj, OBJFLAGS_ARRAY, old(nextIdent)) &&
                               Field(mem[..], PtrOf(obj), 1) == vtable && Field(mem[..], PtrOf(obj), 2) == arrayClass &&
                               Field(mem[..], PtrOf(obj), 3) == length
      ensures r.Allocated? ==> forall k :: 4 <= k < 4 + length ==> Field(mem[..], PtrOf(obj), k) == 0
    {
      hide Valid, NewObject, Kept, TooFull, TableFull;
      r, obj := AllocUnregistered(length + 4, OBJFLAGS_ARRAY, [vtable, arrayClass, length]);
    }

    /** internalallocMemoryProxyInDomain: the new proxy stays registered. */
    method AllocMemoryProxyInDomain(vtable: int, size: int, start: int, dz: int)
      returns (r: AllocResult, ghost room: World)
      requires Valid() && RoomToCollect()
      modifies this, mem, roots, registered
      ensures !r.Panic? ==> Valid() && RoomToCollect()
      ensures r.RuntimeException? ==> Kept(old(W()), -1)
      ensures r.Allocated? ==> Kept(old(W()), r.handle)
      ensures r.Allocated? ==>
                r.handle < registered.Length && NewObject(registered[r.handle], OBJFLAGS_MEMORY, old(nextIdent))
      ensures r.Allocated? ==> var p := PtrOf(registered[r.handle]);
              p == heapTop - 7 && At(mem[..], p) == OBJFLAGS_MEMORY && Field(mem[..], p, 1) == vtable &&
              Field(mem[..], p, 2) == size && Field(mem[..], p, 3) == start &&
              Field(mem[..], p, MEMORY_DZ) == dz
      ensures r.RuntimeException? <==> old(TooFull(7))
      ensures r.Panic? <==> !old(TooFull(7)) && old(TableFull())
      ensures epoch == old(epoch) + if old(heapTop) + 7 <= old(heapBorder) - HEAP_RESERVE then 0 else 1
      ensures AfterRoom(epoch > old(epoch), old(Now()), old(W()), room, old(memoryDeleted))
      ensures r.RuntimeException? ==> room == W()
      ensures r.Allocated? ==> heapTop >= 7 && Carved(room, 7) && starts == room.starts + [heapTop - 7] &&
                               ident == room.ident[heapTop - 7 := old(nextIdent)] &&
                               IdentOk(room.starts, room.ident, old(nextIdent))
    {
      hide WfHeap, WfRoots, IdentOk, KeptHeap, NewObject, OnlyFreeChanged, AfterRoom, LiveWords;
      r, room := AllocDataInDomain(7, OBJFLAGS_MEMORY, false);
      if r.Allocated? {
        ghost var w := W();
        ghost var p := heapTop - 7;
        var header := [vtable, size, start, dz];
        assert PtrOf(registered[r.handle]) == p;
        Initialise(PtrOf(registered[r.handle]), 7, OBJFLAGS_MEMORY, header);
        assert Field(mem[..], p, 1) == header[0] && Field(mem[..], p, 2) == header[1] &&
               Field(mem[..], p, 3) == header[2] && Field(mem[..], p, 4) == header[3];
        PublishedStep(w, W(), p, old(nextIdent), roots.Length + r.handle);
        KeptTrans(old(W()), w, W(), roots.Length + r.handle);
        OnlyFreeTrans(room.m, w.m, mem[..], Sp(), p);
      }
    }

    /** obj refers to the youngest object of the heap, which is of the kind given, and is the logical
        object id. */
    ghost predicate NewObject(obj: int, kind: int, id: nat)
      reads this, mem
    {
      starts != [] && obj == RefOf(starts[|starts| - 1]) && At(mem[..], PtrOf(obj)) == kind &&
      PtrOf(obj) in ident && ident[PtrOf(obj)] == id &&
      forall k :: RefSlotAt(classes, mem[..], PtrOf(obj), k) ==> Field(mem[..], PtrOf(obj), k) == 0
    }
  }

  /** gc_new_init compares the bytes of the heap with a reserve that the allocation takes in words: in a heap
      that is no longer than the reserve nothing can ever be allocated outside an interrupt handler.  In an
      empty heap an object fits exactly if the heap has that much more than the reserve. */
  lemma ReserveLeavesRoom(d: Domain, size: nat)
    requires d.Valid()
    ensures d.heapBorder - d.heap < HEAP_RESERVE + size ==> d.TooFull(size)
    ensures d.starts == [] ==> (d.TooFull(size) <==> d.heapBorder - d.heap < HEAP_RESERVE + size)
  {
    if d.starts == [] {
      assert Tiling(d.classes, d.mem[..], d.starts, d.Sp().lo, d.heapTop);
    }
  }

  lemma StrangeRef(b: Before, m: seq<int>, g: Progress, s: int, r: int)
    requires Inv(b, m, g, s) && 0 <= r <= LAST_STRANGE_REF
    ensures Image(g.fwd, r) == r && Settled(b, g.fwd, r)
    ensures Grows(b, g, g)
  {
    if r == RefOf(PtrOf(r)) && PtrOf(r) in b.starts {
      TilingMember(b.cs, b.m, b.starts, b.sp.lo, b.top, PtrOf(r));
    }
  }

  /** What the flag word of a reference's target tells the collector. */
  lemma RefTarget(b: Before, m: seq<int>, g: Progress, s: int, r: int)
    requires Inv(b, m, g, s) && WfRef(b.m, b.sp, b.starts, r) && r > LAST_STRANGE_REF
    ensures 0 <= PtrOf(r) < |m| && r == RefOf(PtrOf(r)) && Grows(b, g, g)
    ensures IsForward(m[PtrOf(r)]) <==> PtrOf(r) in g.fwd
    ensures IsForward(m[PtrOf(r)]) ==> ForwardPtr(m[PtrOf(r)]) == Image(g.fwd, r)
    ensures !IsForward(m[PtrOf(r)]) ==> (ExternalKind(FlagsOf(m[PtrOf(r)])) <==> PtrOf(r) !in b.starts)
    ensures PtrOf(r) !in b.starts ==> Image(g.fwd, r) == r
  {
    var p: nat := PtrOf(r);
    if p in b.starts {
      OldHeapParses(b, m, g, s, p);
      TilingMember(b.cs, b.m, b.starts, b.sp.lo, b.top, p);
      if p in g.fwd {
        ForwardingRoundTrip(g.fwd[p], At(b.m, p));
      } else {
        ForwardingRoundTrip(p, At(b.m, p));
      }
    } else {
      ExternalStays(b, m, g, s, p);
      OtherRefStays(b, m, g, s, r);
    }
  }

  lemma SlotInMemory(b: Before, m: seq<int>, g: Progress, s: int, i: nat, k: nat)
    requires Inv(b, m, g, s) && i < |g.order| && RefSlotAt(b.cs, b.m, g.order[i], k)
    ensures 0 <= g.tos[i] + k < |m| && g.tos[i] + k < g.top2
    ensures m[g.tos[i] + k] == Field(m, g.tos[i], k)
  {
    SlotPlace(b, m, g, s, i, i, k);
    NoOverflow(b, m, g, s);
  }

  lemma GrowsByCopy(b: Before, m: seq<int>, g: Progress, s: int, f: nat)
    requires Inv(b, m, g, s) && f in b.starts && f !in g.fwd && 0 <= g.top2
    ensures Grows(b, g, Extend(b, g, f))
  {
  }

  lemma CopyDone(b: Before, m: seq<int>, m1: seq<int>, m': seq<int>, g: Progress, s: int, f: nat)
    requires Inv(b, m, g, s) && f in b.starts && f !in g.fwd && b.Reaches(f) && 0 <= g.top2 && s <= g.top2
    requires b.top + OBJECT_OVERRUN <= b.sp.lo + b.sp.size
    requires CopyEffect(b.cs, m, m1, f, g.top2, At(m, f))
    requires f < |m1| && m' == m1[f := Tag(RefOf(g.top2))]
    ensures Inv(b, m', Extend(b, g, f), s) && Grows(b, g, Extend(b, g, f))
  {
    GrowsByCopy(b, m, g, s, f);
    hide Inv, CopyEffect, CopyStepped, Grows;
    CopyIsStep(b, m, m1, m', g, s, f);
    CopyKeepsInv(b, m, m', g, s, f);
  }

  /** The next copy, with its overrun, stays inside to-space and away from the original. */
  lemma CopyFits(b: Before, m: seq<int>, g: Progress, s: int, f: nat)
    requires Inv(b, m, g, s) && f in b.starts && f !in g.fwd
    requires b.top + OBJECT_OVERRUN <= b.sp.lo + b.sp.size
    ensures HeapKind(At(m, f)) && FlagsOf(At(m, f)) == At(m, f) == At(b.m, f)
    ensures b.sp.Valid(|m|) && f < |m| && 0 <= g.top2 && (At(m, f) == OBJFLAGS_ARRAY ==> At(m, f + 3) >= 0)
    ensures ObjSize(b.cs, At(m, f), m, f) == SizeAt(b.cs, b.m, f)
    ensures b.sp.other <= g.top2 && g.top2 + SizeAt(b.cs, b.m, f) + OBJECT_OVERRUN <= b.sp.other + b.sp.size
    ensures b.sp.lo <= f && f + SizeAt(b.cs, b.m, f) + OBJECT_OVERRUN <= b.sp.lo + b.sp.size
  {
    TilingMember(b.cs, b.m, b.starts, b.sp.lo, b.top, f);
    RoomForCopy(b, m, g, s, f);
    WhiteIntact(b, m, g, s, f);
    SameHeaderSameShape(b.cs, At(b.m, f), b.m, f, m, f);
    ForwardingRoundTrip(f, At(b.m, f));
    assert Field(m, f, 3) == At(m, f + 3);
  }

  /** The words by which the walk over to-space recognises the copy i. */
  lemma CopyParses(b: Before, m: seq<int>, g: Progress, s: int, i: nat)
    requires Inv(b, m, g, s) && i < |g.order|
    ensures Parses(b, m, g.order[i], g.tos[i])
  {
    var f, t := g.order[i], g.tos[i];
    NoOverflow(b, m, g, s);
    TilingPrefix(b.cs, m, g.tos, b.sp.other, g.top2, i);
    CopySameShape(b, m, g.fwd, s, f, t);
    HeaderParses(b, m, f, t);
  }

  ghost predicate Parses(b: Before, m: seq<int>, f: nat, t: nat) {
    t + 3 <= |m| && m[t] == At(b.m, f) && FlagsOf(m[t]) == m[t] && HeapKind(m[t]) &&
    SameHeader(m[t], m, t, b.m, f) && ObjSize(b.cs, m[t], m, t) == SizeAt(b.cs, b.m, f) &&
    (m[t] == OBJFLAGS_OBJECT ==> m[t + 1] in b.cs.instances && b.cs.instances[m[t + 1]] == ClassOf(b.cs, b.m, f)) &&
    (m[t] == OBJFLAGS_ARRAY ==> t + 3 < |m| && m[t + 2] in b.cs.arrays && m[t + 3] >= 0)
  }

  lemma HeaderParses(b: Before, m: seq<int>, f: nat, t: nat)
    requires WfObject(b.cs, m, t) && At(m, t) == At(b.m, f) && SameHeader(At(b.m, f), b.m, f, m, t)
    requires t + SizeAt(b.cs, m, t) <= |m|
    ensures Parses(b, m, f, t)
  {
    ForwardingRoundTrip(t, At(m, t));
    SameHeaderSameShape(b.cs, At(b.m, f), b.m, f, m, t);
  }

  /** The walk is at the start of the copy i, or at the end of the last one. */
  predicate ScanAt(g: Progress, i: nat, data: int) {
    i <= |g.tos| == |g.order| && data == if i < |g.tos| then g.tos[i] else g.top2
  }

  lemma ScanFirst(b: Before, m: seq<int>, g: Progress, s: int)
    requires Inv(b, m, g, s)
    ensures ScanAt(g, 0, b.sp.other)
  {
    if g.tos != [] {
      TilingPrefix(b.cs, m, g.tos, b.sp.other, g.top2, 0);
      assert Tiling(b.cs, m, g.tos[..0], b.sp.other, g.tos[0]);
    }
  }

  lemma ScanNext(b: Before, m: seq<int>, g: Progress, s: int, i: nat)
    requires Inv(b, m, g, s) && 0 < i <= |g.order|
    requires s == g.tos[i - 1] + SizeAt(b.cs, b.m, g.order[i - 1])
    ensures ScanAt(g, i, s)
  {
    CopySameShape(b, m, g.fwd, s, g.order[i - 1], g.tos[i - 1]);
    TilingPrefix(b.cs, m, g.tos, b.sp.other, g.top2, i - 1);
  }

  lemma ScanLast(b: Before, m: seq<int>, g: Progress, s: int, i: nat)
    requires Inv(b, m, g, s) && ScanAt(g, i, s) && s >= g.top2
    ensures s == g.top2
  {
    if i < |g.tos| {
      TilingPrefix(b.cs, m, g.tos, b.sp.other, g.top2, i);
    }
  }

  lemma ScanBound(b: Before, m: seq<int>, g: Progress, s: int, i: nat)
    requires Inv(b, m, g, s) && ScanAt(g, i, s) && s < g.top2
    ensures i < |g.order| && s == g.tos[i] && 3 <= SizeAt(b.cs, b.m, g.order[i])
    ensures s < b.sp.other + b.top
  {
    NoOverflow(b, m, g, s);
  }

  /** The first n slots hold the images of their old values, the others are as before. */
  ghost predicate Forwarded(b: Before, g: Progress, slots: seq<int>, slots': seq<int>, n: nat) {
    n <= |slots| == |slots'| &&
    (forall j :: 0 <= j < n ==> slots'[j] == Image(g.fwd, slots[j]) && Settled(b, g.fwd, slots[j])) &&
    forall j :: n <= j < |slots| ==> slots'[j] == slots[j]
  }

  lemma ForwardedGrows(b: Before, g: Progress, g': Progress, slots: seq<int>, slots': seq<int>, n: nat)
    requires Grows(b, g, g') && Forwarded(b, g, slots, slots', n)
    ensures Forwarded(b, g', slots, slots', n)
  {
    forall j | 0 <= j < n
      ensures slots'[j] == Image(g'.fwd, slots[j]) && Settled(b, g'.fwd, slots[j])
    {
      GrowsKeepsImage(b, g, g', slots[j]);
    }
  }

  lemma GrowsTrans(b: Before, g: Progress, g1: Progress, g2: Progress)
    requires Grows(b, g, g1) && Grows(b, g1, g2)
    ensures Grows(b, g, g2)
  {
  }

  lemma RootRef(b: Before, m: seq<int>, g: Progress, s: int, r: int)
    requires Inv(b, m, g, s) && r in b.roots
    ensures WfRef(b.m, b.sp, b.starts, r) && Wanted(b, r)
    ensures b.sp.other <= g.top2
  {
    NoOverflow(b, m, g, s);
    if r > LAST_STRANGE_REF && PtrOf(r) in b.starts {
      RootReachable(b.cs, b.m, b.starts, b.roots, PtrOf(r));
    }
  }

  lemma NullRef(b: Before, m: seq<int>, g: Progress, s: int)
    requires Inv(b, m, g, s)
    ensures Image(g.fwd, 0) == 0 && Settled(b, g.fwd, 0)
  {
    StrangeRef(b, m, g, s, 0);
  }

  lemma JoinRoots(b: Before, g: Progress, n: nat, roots: seq<int>, registered: seq<int>)
    requires n == |roots| && n + |registered| == |b.roots|
    requires Forwarded(b, g, b.roots[..n], roots, n)
    requires Forwarded(b, g, b.roots[n..], registered, |registered|)
    ensures RootsMoved(b, g, roots + registered)
  {
    forall i | 0 <= i < |b.roots|
      ensures (roots + registered)[i] == Image(g.fwd, b.roots[i]) && Settled(b, g.fwd, b.roots[i])
    {
      if i < n {
        assert b.roots[..n][i] == b.roots[i];
      } else {
        assert b.roots[n..][i - n] == b.roots[i];
      }
    }
  }

  lemma RootsMovedGrows(b: Before, g: Progress, g': Progress, roots': seq<int>)
    requires Grows(b, g, g') && RootsMoved(b, g, roots')
    ensures RootsMoved(b, g', roots')
  {
    forall i | 0 <= i < |b.roots|
      ensures roots'[i] == Image(g'.fwd, b.roots[i]) && Settled(b, g'.fwd, b.roots[i])
    {
      GrowsKeepsImage(b, g, g', b.roots[i]);
    }
  }

  lemma StartCollection(b: Before)
    requires WfHeap(b.cs, b.m, b.sp, b.starts, b.top) && WfRoots(b.m, b.sp, b.starts, b.roots)
    ensures Inv(b, b.m, Progress(map[], [], [], b.sp.other), b.sp.other)
  {
    InvStart(b);
  }

  lemma OutsideIntact(b: Before, m: seq<int>, g: Progress, s: int)
    requires Inv(b, m, g, s)
    ensures forall a: nat {:trigger At(m, a)} :: !b.sp.Inside(a) ==> At(m, a) == At(b.m, a)
  {
    forall a: nat | !b.sp.Inside(a)
      ensures At(m, a) == At(b.m, a)
    {
      if a in g.fwd {
        OriginalPlace(b, m, g, s, a);
      }
    }
  }

  // ----- logical objects ------------------------------------------------------------------------

  lemma NullHandles(m: seq<int>, sp: Spaces, roots: seq<int>, registered: seq<int>)
    requires WfRoots(m, sp, [], roots) && forall i :: 0 <= i < |registered| ==> registered[i] == 0
    ensures WfRoots(m, sp, [], roots + registered)
  {
    forall r | r in roots + registered
      ensures WfRef(m, sp, [], r)
    {
      if r !in roots {
        assert r in registered && r == 0;
      }
    }
  }

  /** The object that was copied to t. */
  ghost function Origin(g: Progress, t: nat): nat
    requires t in g.tos && |g.order| == |g.tos|
  {
    var i :| 0 <= i < |g.tos| && g.tos[i] == t;
    g.order[i]
  }

  lemma OriginOfCopy(b: Before, m: seq<int>, g: Progress, s: int, i: nat)
    requires Inv(b, m, g, s) && i < |g.tos|
    ensures Origin(g, g.tos[i]) == g.order[i] && g.order[i] in b.starts
  {
    var j :| 0 <= j < |g.tos| && g.tos[j] == g.tos[i] && Origin(g, g.tos[i]) == g.order[j];
    CopyOrder(b, m, g, s, i, j);
  }

  /** The copies take over what their originals denote. */
  ghost function MovedIdent(g: Progress, ident: map<nat, nat>): map<nat, nat>
    requires |g.order| == |g.tos|
  {
    map t | t in g.tos && Origin(g, t) in ident :: ident[Origin(g, t)]
  }

  lemma IdentOfCopies(b: Before, m: seq<int>, g: Progress, s: int, ident: map<nat, nat>, next: nat)
    requires Inv(b, m, g, s) && IdentOk(b.starts, ident, next)
    ensures IdentOk(g.tos, MovedIdent(g, ident), next)
    ensures forall i ::
              0 <= i < |g.tos| ==>
                g.tos[i] in MovedIdent(g, ident) && MovedIdent(g, ident)[g.tos[i]] == ident[g.order[i]]
  {
    var ident' := MovedIdent(g, ident);
    forall i | 0 <= i < |g.tos|
      ensures g.tos[i] in ident' && g.order[i] in ident && ident'[g.tos[i]] == ident[g.order[i]]
    {
      OriginOfCopy(b, m, g, s, i);
    }
    forall p: nat, q: nat | p in ident' && q in ident' && ident'[p] == ident'[q]
      ensures p == q
    {
      var i :| 0 <= i < |g.tos| && g.tos[i] == p;
      var j :| 0 <= j < |g.tos| && g.tos[j] == q;
      assert g.order[i] == g.order[j];
    }
  }

  /** The heap a collection started from, and the one it leaves. */
  ghost function Start(b: Before, ident: map<nat, nat>): World {
    World(b.cs, b.m, b.sp, b.starts, b.roots, ident)
  }

  ghost function End(b: Before, m: seq<int>, g: Progress, roots': seq<int>, ident: map<nat, nat>): World
    requires |g.order| == |g.tos|
  {
    World(b.cs, m, b.sp.Flip(), g.tos, roots', MovedIdent(g, ident))
  }

  /** A forwarded reference denotes the logical object that it denoted before. */
  lemma RefPreserved(b: Before, m: seq<int>, g: Progress, roots': seq<int>, ident: map<nat, nat>, next: nat, r: int)
    requires Inv(b, m, g, g.top2) && IdentOk(b.starts, ident, next)
    requires WfRef(b.m, b.sp, b.starts, r) && Settled(b, g.fwd, r)
    ensures |g.order| == |g.tos| && SameRef(Start(b, ident), r, End(b, m, g, roots', ident), Image(g.fwd, r))
  {
    CopyPlaces(b, m, g);
    if PointsAt(b.starts, r) {
      var q: nat := PtrOf(r);
      CopiedRefWf(b, m, g, g.top2, q);
      var j :| 0 <= j < |g.order| && g.order[j] == q;
      IdentOfCopies(b, m, g, g.top2, ident, next);
      CopyOrder(b, m, g, g.top2, j, j);
      assert g.tos[j] == g.fwd[q] && PtrOf(RefOf(g.fwd[q])) == g.fwd[q];
    } else {
      OtherRefStays(b, m, g, g.top2, r);
    }
  }

  /** Copies lie in to-space. */
  lemma CopyPlaces(b: Before, m: seq<int>, g: Progress)
    requires Inv(b, m, g, g.top2)
    ensures b.sp.Valid(|b.m|) && |g.order| == |g.tos| && forall t: nat :: t in g.tos ==>
              b.sp.other <= t < b.sp.other + b.sp.size
  {
    NoOverflow(b, m, g, g.top2);
    forall t: nat | t in g.tos
      ensures b.sp.other <= t < b.sp.other + b.sp.size
    {
      TilingMember(b.cs, m, g.tos, b.sp.other, g.top2, t);
    }
  }

  /** The slots of a reachable object are settled when the scan has ended. */
  lemma ReachedSlot(b: Before, m: seq<int>, g: Progress, roots': seq<int>, q: nat, k: int)
    requires Inv(b, m, g, g.top2) && RootsMoved(b, g, roots') && b.Reaches(q) && RefSlotAt(b.cs, b.m, q, k)
    ensures WfRef(b.m, b.sp, b.starts, Field(b.m, q, k)) && Settled(b, g.fwd, Field(b.m, q, k))
  {
    var path :| PathTo(b.cs, b.m, b.starts, b.roots, path, q);
    assert q in b.starts;
    var r := Field(b.m, q, k);
    if r == RefOf(PtrOf(r)) && PtrOf(r) in b.starts {
      EdgeReachable(b.cs, b.m, b.starts, b.roots, q, k, PtrOf(r));
      ScannedReachable(b, m, g, roots', PtrOf(r));
    }
  }

  lemma ReachedObject(b: Before, m: seq<int>, g: Progress, q: nat)
    requires Inv(b, m, g, g.top2) && b.Reaches(q)
    ensures q in b.starts && WfObject(b.cs, b.m, q)
  {
    var path :| PathTo(b.cs, b.m, b.starts, b.roots, path, q);
    TilingMember(b.cs, b.m, b.starts, b.sp.lo, b.top, q);
  }

  lemma BodyPreserved(b: Before, m: seq<int>, g: Progress, roots': seq<int>, ident: map<nat, nat>, next: nat, q: nat)
    requires Inv(b, m, g, g.top2) && IdentOk(b.starts, ident, next) && RootsMoved(b, g, roots') && b.Reaches(q)
    requires q in g.fwd && Moved(b.cs, b.m, q, m, g.fwd[q], g.fwd)
    ensures |g.order| == |g.tos| && SameBody(Start(b, ident), q, End(b, m, g, roots', ident), g.fwd[q])
  {
    CopyPlaces(b, m, g);
    ReachedObject(b, m, g, q);
    hide Inv, RootsMoved, RefSlotAt;
    var w, w' := Start(b, ident), End(b, m, g, roots', ident);
    forall k | HasWord(b.cs, b.m, q, k)
      ensures SameWord(w, q, w', g.fwd[q], k)
    {
      KeepsWords(b.cs, b.m, q, k);
      VisitsReferences(b.cs, b.m, q, k);
      if IsReference(b.cs, b.m, q, k) {
        ReachedSlot(b, m, g, roots', q, k);
        RefPreserved(b, m, g, roots', ident, next, Field(b.m, q, k));
      }
    }
  }

  lemma ObjectPreserved(b: Before, m: seq<int>, g: Progress, roots': seq<int>, ident: map<nat, nat>, next: nat, q: nat)
    requires Inv(b, m, g, g.top2) && IdentOk(b.starts, ident, next) && RootsMoved(b, g, roots') && b.Reaches(q)
    requires GraphPreserved(b.cs, b.m, b.starts, b.roots, m, g.tos, roots', g.fwd)
    ensures |g.order| == |g.tos| && Survives(Start(b, ident), q, End(b, m, g, roots', ident))
  {
    hide Inv, RootsMoved, GraphPreserved, SameBody, IdentOk, Moved;
    CopyPlaces(b, m, g);
    IdentOfCopies(b, m, g, g.top2, ident, next);
    IdentCovers(b.starts, ident, next);
    StartWf(b, m, g);
    GraphMoves(b, m, g, roots', q);
    var path :| PathTo(b.cs, b.m, b.starts, b.roots, path, q);
    assert q in b.starts;
    PathMoves(b.cs, b.m, b.sp, b.starts, b.top, b.roots, m, g.tos, roots', g.fwd, path, q);
    BodyPreserved(b, m, g, roots', ident, next, q);
    CopyNumber(b, m, g, q);
    var j :| 0 <= j < |g.order| && g.order[j] == q && g.tos[j] == g.fwd[q];
    assert SameObject(Start(b, ident), q, End(b, m, g, roots', ident), g.fwd[q]);
  }

  lemma IdentCovers(starts: seq<nat>, ident: map<nat, nat>, next: nat)
    requires IdentOk(starts, ident, next)
    ensures forall p: nat :: p in starts <==> p in ident
  {
  }

  lemma GraphMoves(b: Before, m: seq<int>, g: Progress, roots': seq<int>, q: nat)
    requires GraphPreserved(b.cs, b.m, b.starts, b.roots, m, g.tos, roots', g.fwd) && b.Reaches(q)
    ensures q in g.fwd && g.fwd[q] in g.tos && Moved(b.cs, b.m, q, m, g.fwd[q], g.fwd)
  {
    hide Moved;
  }

  lemma StartWf(b: Before, m: seq<int>, g: Progress)
    requires Inv(b, m, g, g.top2)
    ensures WfHeap(b.cs, b.m, b.sp, b.starts, b.top)
  {
  }

  lemma CopyNumber(b: Before, m: seq<int>, g: Progress, q: nat)
    requires Inv(b, m, g, g.top2) && q in g.fwd
    ensures exists j :: 0 <= j < |g.order| == |g.tos| && g.order[j] == q && g.tos[j] == g.fwd[q]
  {
    var j :| 0 <= j < |g.order| && g.order[j] == q;
    CopyOrder(b, m, g, g.top2, j, j);
  }

  /** A collection keeps every logical object that can be reached, with its contents, and what every
      root denotes. */
  lemma CollectionKeeps(b: Before, m: seq<int>, g: Progress, roots': seq<int>, ident: map<nat, nat>, next: nat)
    requires Inv(b, m, g, g.top2) && IdentOk(b.starts, ident, next) && RootsMoved(b, g, roots')
    requires GraphPreserved(b.cs, b.m, b.starts, b.roots, m, g.tos, roots', g.fwd)
    ensures |g.order| == |g.tos| && KeptHeap(Start(b, ident), End(b, m, g, roots', ident), -1)
  {
    CopyPlaces(b, m, g);
    OutsideIntact(b, m, g, g.top2);
    hide GraphPreserved, IdentOk, SameRef, Survives;
    var w, w' := Start(b, ident), End(b, m, g, roots', ident);
    forall i | 0 <= i < |b.roots|
      ensures SameRef(w, w.roots[i], w', w'.roots[i])
    {
      RootRef(b, m, g, g.top2, b.roots[i]);
      RefPreserved(b, m, g, roots', ident, next, b.roots[i]);
    }
    forall q: nat | w.Reaches(q)
      ensures Survives(w, q, w')
    {
      ObjectPreserved(b, m, g, roots', ident, next, q);
    }
  }

  /** What becomes of a reference word: one that leads to an object of the heap leads to its copy, anything
      else stays. */
  predicate Forwards(starts: seq<nat>, fwd: map<nat, nat>, r: int, r': int) {
    if r % 4 == 0 && r / 4 - 1 in starts then r / 4 - 1 in fwd && r' == 4 * (fwd[r / 4 - 1] + 1) else r' == r
  }

  /** t is the copy of the object q, word by word. */
  ghost predicate Copied(b: Before, m': seq<int>, fwd: map<nat, nat>, q: nat, t: nat) {
    At(m', t) == At(b.m, q) &&
    forall k :: HasWord(b.cs, b.m, q, k) ==>
      if IsReference(b.cs, b.m, q, k) then Forwards(b.starts, fwd, Field(b.m, q, k), Field(m', t, k))
      else Field(m', t, k) == Field(b.m, q, k)
  }

  /** A word that the collector takes for no reference to the heap leads to no object of it. */
  lemma NoObjectBelow(b: Before, m: seq<int>, g: Progress, r: int)
    requires Inv(b, m, g, g.top2) && r % 4 == 0 && r / 4 - 1 in b.starts
    ensures r == RefOf(PtrOf(r)) && r > LAST_STRANGE_REF && PtrOf(r) in b.starts
  {
    TilingMember(b.cs, b.m, b.starts, b.sp.lo, b.top, r / 4 - 1);
  }

  lemma RefForwards(b: Before, m: seq<int>, g: Progress, r: int)
    requires Inv(b, m, g, g.top2) && WfRef(b.m, b.sp, b.starts, r) && Settled(b, g.fwd, r)
    ensures Forwards(b.starts, g.fwd, r, Image(g.fwd, r))
  {
    if r % 4 == 0 && r / 4 - 1 in b.starts {
      NoObjectBelow(b, m, g, r);
      hide Inv, WfRef;
    } else {
      assert r <= LAST_STRANGE_REF || PtrOf(r) !in b.starts;
      OtherRefStays(b, m, g, g.top2, r);
    }
  }

  lemma WordsCopied(b: Before, m: seq<int>, g: Progress, roots': seq<int>, q: nat)
    requires Inv(b, m, g, g.top2) && RootsMoved(b, g, roots') && b.Reaches(q)
    requires q in g.fwd && Moved(b.cs, b.m, q, m, g.fwd[q], g.fwd)
    ensures Copied(b, m, g.fwd, q, g.fwd[q])
  {
    ReachedObject(b, m, g, q);
    hide Inv, RootsMoved, RefSlotAt;
    forall k | HasWord(b.cs, b.m, q, k)
      ensures if IsReference(b.cs, b.m, q, k) then Forwards(b.starts, g.fwd, Field(b.m, q, k), Field(m, g.fwd[q], k))
              else Field(m, g.fwd[q], k) == Field(b.m, q, k)
    {
      KeepsWords(b.cs, b.m, q, k);
      VisitsReferences(b.cs, b.m, q, k);
      if IsReference(b.cs, b.m, q, k) {
        ReachedSlot(b, m, g, roots', q, k);
        RefForwards(b, m, g, Field(b.m, q, k));
      }
    }
  }

  /** Every object that is copied has its copy in every word, and every root leads to the copy of what it
      led to. */
  lemma AllCopied(b: Before, m: seq<int>, g: Progress, roots': seq<int>)
    requires Inv(b, m, g, g.top2) && RootsMoved(b, g, roots')
    requires GraphPreserved(b.cs, b.m, b.starts, b.roots, m, g.tos, roots', g.fwd)
    ensures forall q: nat :: q in g.fwd ==> Copied(b, m, g.fwd, q, g.fwd[q])
    ensures |roots'| == |b.roots| && forall i :: 0 <= i < |b.roots| ==>
              Forwards(b.starts, g.fwd, b.roots[i], roots'[i])
  {
    forall q: nat | q in g.fwd
      ensures Copied(b, m, g.fwd, q, g.fwd[q])
    {
      hide Inv, RootsMoved;
      assert b.Reaches(q) && Moved(b.cs, b.m, q, m, g.fwd[q], g.fwd);
      hide GraphPreserved;
      WordsCopied(b, m, g, roots', q);
    }
    hide GraphPreserved;
    forall i | 0 <= i < |b.roots|
      ensures Forwards(b.starts, g.fwd, b.roots[i], roots'[i])
    {
      RootRef(b, m, g, g.top2, b.roots[i]);
      RefForwards(b, m, g, b.roots[i]);
    }
  }

  /** What a collection that started from b has made of the heap: the object graph is preserved along
      fwd, every object is copied word by word, every logical object that can be reached is kept with its
      contents, every root slot and handle denotes what it denoted, and nothing outside the semispaces has
      changed. */
  ghost predicate Collected(b: Before, w: World, w': World, fwd: map<nat, nat>)
  {
    GraphPreserved(b.cs, b.m, b.starts, b.roots, w'.m, w'.starts, w'.roots, fwd) &&
    (forall q: nat :: q in fwd ==> Copied(b, w'.m, fwd, q, fwd[q])) &&
    |w'.roots| == |b.roots| && (forall i :: 0 <= i < |b.roots| ==> Forwards(b.starts, fwd, b.roots[i], w'.roots[i])) &&
    (forall q: nat :: q in fwd && q in w.ident ==> fwd[q] in w'.ident && w'.ident[fwd[q]] == w.ident[q]) &&
    KeptHeap(w, w', -1)
  }

  /** Word k of the copy of q, for every kind of object: equal to word k of q, or the image of the reference
      that is there. */
  lemma CollectedWord(b: Before, w: World, w': World, fwd: map<nat, nat>, q: nat, k: int)
    requires Collected(b, w, w', fwd) && q in fwd
    ensures var f, r, r' := At(b.m, q), Field(b.m, q, k), Field(w'.m, fwd[q], k);
            At(w'.m, fwd[q]) == f && (HeapKind(f) && k == 1 ==> r' == r) &&
            (f == OBJFLAGS_OBJECT && Field(b.m, q, 1) in b.cs.instances ==>
               var c, i := b.cs.instances[Field(b.m, q, 1)], k - 2;
               0 <= i < c.instanceSize ==>
                 if i / 8 < |c.refMap| && BitSet(c.refMap[i / 8], i % 8) then Forwards(b.starts, fwd, r, r')
                 else r' == r) &&
            (f == OBJFLAGS_ARRAY && 2 <= k <= 3 ==> r' == r) &&
            (f == OBJFLAGS_ARRAY && 4 <= k < 4 + Field(b.m, q, 3) ==>
               if Field(b.m, q, 2) in b.cs.arrays && b.cs.arrays[Field(b.m, q, 2)] == RefElem
               then Forwards(b.starts, fwd, r, r') else r' == r) &&
            (f == OBJFLAGS_PORTAL && 2 <= k <= 4 ==> r' == r) && (f == OBJFLAGS_MEMORY && 2 <= k <= 4 ==> r' == r) &&
            (f == OBJFLAGS_CAS && k == 2 ==> r' == r) && (f == OBJFLAGS_DOMAIN && 2 <= k <= 3 ==> r' == r) &&
            (f == OBJFLAGS_SERVICE && 2 <= k <= 15 ==>
               if k == 9 || k == 10 then Forwards(b.starts, fwd, r, r') else r' == r) &&
            (f == OBJFLAGS_ATOMVAR && k == 2 ==> Forwards(b.starts, fwd, r, r')) &&
            (f == OBJFLAGS_ATOMVAR && k == 3 ==> r' == r)
  {
    hide GraphPreserved, KeptHeap, Forwards, BitSet;
    assert Copied(b, w'.m, fwd, q, fwd[q]);
    hide Collected;
    if HasWord(b.cs, b.m, q, k) {
    }
  }

  lemma HeapTiled(w: World, top: int)
    requires WfHeap(w.cs, w.m, w.sp, w.starts, top)
    ensures Tiling(w.cs, w.m, w.starts, w.sp.lo, top)
  {
  }

  lemma WhatIsCollected(b: Before, w: World, w': World, fwd: map<nat, nat>)
    requires Collected(b, w, w', fwd)
    ensures forall q: nat :: q in fwd <==> Reachable(b.cs, b.m, b.starts, b.roots, q)
    ensures forall q: nat :: q in fwd ==> Copied(b, w'.m, fwd, q, fwd[q])
    ensures |w'.roots| == |b.roots| && forall i ::
              0 <= i < |b.roots| ==> Forwards(b.starts, fwd, b.roots[i], w'.roots[i])
  {
    hide KeptHeap, Copied, Forwards;
  }

  /** The words that have been copied are those of the objects that can be reached. */
  lemma LiveIsCopied(b: Before, w: World, fwd: map<nat, nat>)
    requires b.cs == w.cs && b.m == w.m && b.starts == w.starts && b.roots == w.roots
    requires Tiling(b.cs, b.m, b.starts, b.sp.lo, b.top) && forall q: nat :: q in fwd <==> w.Reaches(q)
    ensures Unforwarded(b, b.starts, fwd) + LiveWords(w, b.starts) == b.top - b.sp.lo
  {
    LiveInPart(b, w, fwd, b.starts, b.top);
  }

  lemma {:induction false} LiveInPart(b: Before, w: World, fwd: map<nat, nat>, starts: seq<nat>, hi: int)
    requires b.cs == w.cs && b.m == w.m && Tiling(b.cs, b.m, starts, b.sp.lo, hi)
    requires forall q: nat :: q in fwd <==> w.Reaches(q)
    ensures Unforwarded(b, starts, fwd) + LiveWords(w, starts) == hi - b.sp.lo
  {
    if starts != [] {
      LiveInPart(b, w, fwd, starts[..|starts| - 1], starts[|starts| - 1]);
    }
  }

  lemma RootByRoot(starts: seq<nat>, fwd: map<nat, nat>, roots: seq<int>, table: seq<int>, roots': seq<int>,
                   table': seq<int>)
    requires |roots'| == |roots| && |table'| == |table|
    requires forall i :: 0 <= i < |roots| + |table| ==>
               Forwards(starts, fwd, (roots + table)[i], (roots' + table')[i])
    ensures forall i :: 0 <= i < |roots| ==> Forwards(starts, fwd, roots[i], roots'[i])
    ensures forall i :: 0 <= i < |table| ==> Forwards(starts, fwd, table[i], table'[i])
  {
    hide Forwards;
    forall i | 0 <= i < |table|
      ensures Forwards(starts, fwd, table[i], table'[i])
    {
      var j := |roots| + i;
      assert Forwards(starts, fwd, (roots + table)[j], (roots' + table')[j]);
    }
    forall i | 0 <= i < |roots|
      ensures Forwards(starts, fwd, roots[i], roots'[i])
    {
      assert Forwards(starts, fwd, (roots + table)[i], (roots' + table')[i]);
    }
  }

  lemma CollectionIsKept(b: Before, w: World, w': World, fwd: map<nat, nat>)
    requires Collected(b, w, w', fwd)
    ensures KeptHeap(w, w', -1)
  {
    hide GraphPreserved, Copied, Forwards, KeptHeap;
  }

  /** The handle table is full exactly if it was. */
  lemma TableKept(w: World, w': World, n: nat, table: seq<int>, table': seq<int>)
    requires KeptHeap(w, w', -1) && n + |table| == |w.roots| && |table'| == |table|
    requires w.roots[n..] == table && |w'.roots| == |w.roots| && w'.roots[n..] == table'
    ensures forall i :: 0 <= i < |table| ==> (table'[i] == 0 <==> table[i] == 0)
  {
    hide KeptHeap;
    forall i | 0 <= i < |table|
      ensures table'[i] == 0 <==> table[i] == 0
    {
      assert w.roots[n..][i] == w.roots[n + i] && w'.roots[n..][i] == w'.roots[n + i];
      HandlesKept(w, w', n + i);
    }
  }

  /** Everything a finished scan establishes. */
  lemma CollectionResult(b: Before, m: seq<int>, g: Progress, roots': seq<int>, ident: map<nat, nat>, next: nat)
    requires Inv(b, m, g, g.top2) && RootsMoved(b, g, roots') && IdentOk(b.starts, ident, next)
    ensures WfHeap(b.cs, m, b.sp.Flip(), g.tos, g.top2) && WfRoots(m, b.sp.Flip(), g.tos, roots')
    ensures b.sp.other <= g.top2 && g.top2 - b.sp.other + Unforwarded(b, b.starts, g.fwd) == b.top - b.sp.lo
    ensures |g.order| == |g.tos| && IdentOk(g.tos, MovedIdent(g, ident), next)
    ensures Collected(b, Start(b, ident), End(b, m, g, roots', ident), g.fwd)
  {
    hide WfHeap, WfRoots, GraphPreserved, IdentOk, KeptHeap;
    NoOverflow(b, m, g, g.top2);
    ScanEndsWf(b, m, g, roots');
    ScanEndsPreserved(b, m, g, roots');
    IdentOfCopies(b, m, g, g.top2, ident, next);
    CollectionKeeps(b, m, g, roots', ident, next);
    AllCopied(b, m, g, roots');
    hide RootsMoved, Copied, Forwards;
    forall q: nat | q in g.fwd && q in ident
      ensures g.fwd[q] in MovedIdent(g, ident) && MovedIdent(g, ident)[g.fwd[q]] == ident[q]
    {
      CopyNumber(b, m, g, q);
    }
  }

  lemma OnlyFreeTrans(m: seq<int>, m1: seq<int>, m2: seq<int>, sp: Spaces, top: int)
    requires OnlyFreeChanged(m, m1, sp, top) && OnlyFreeChanged(m1, m2, sp, top)
    ensures OnlyFreeChanged(m, m2, sp, top)
  {
  }

  /** A handle to the new object p is a well-formed root once p counts as an object. */
  lemma RegisterRoot(cs: ClassTable, m: seq<int>, sp: Spaces, starts: seq<nat>, p: nat, roots: seq<int>,
                     table: seq<int>, handle: nat)
    requires WfHeap(cs, m, sp, starts, p) && WfRoots(m, sp, starts, roots + table) && handle < |table|
    ensures WfRoots(m, sp, starts + [p], roots + table[handle := RefOf(p)])
  {
    forall r | r in roots + table[handle := RefOf(p)]
      ensures WfRef(m, sp, starts + [p], r)
    {
      if r == RefOf(p) {
        assert PtrOf(r) == p;
      } else {
        assert r in roots + table by {
          var i :| 0 <= i < |roots| + |table| && (roots + table[handle := RefOf(p)])[i] == r;
          assert (roots + table)[i] == r;
        }
        assert WfRef(m, sp, starts, r);
      }
    }
  }

  lemma NewIdent(cs: ClassTable, m: seq<int>, sp: Spaces, starts: seq<nat>, p: nat, ident: map<nat, nat>, next: nat)
    requires WfHeap(cs, m, sp, starts, p) && IdentOk(starts, ident, next)
    ensures p !in starts && p !in ident && IdentOk(starts + [p], ident[p := next], next + 1)
  {
    if p in starts {
      TilingMember(cs, m, starts, sp.lo, p, p);
    }
  }

  lemma UnregisterRoot(m: seq<int>, sp: Spaces, starts: seq<nat>, roots: seq<int>, table: seq<int>, handle: nat)
    requires WfRoots(m, sp, starts, roots + table) && handle < |table|
    ensures WfRoots(m, sp, starts, roots + table[handle := 0])
  {
    forall r | r in roots + table[handle := 0]
      ensures WfRef(m, sp, starts, r)
    {
      if r != 0 {
        var i :| 0 <= i < |roots| + |table| && (roots + table[handle := 0])[i] == r;
        assert (roots + table)[i] == r;
      }
    }
  }

  /** Registering an object that has not joined the heap yet keeps everything. */
  lemma RegisteredStep(w: World, w': World, top: nat, next: nat, i: nat, r: int)
    requires WfHeap(w.cs, w.m, w.sp, w.starts, top) && WfRoots(w.m, w.sp, w.starts, w.roots)
    requires IdentOk(w.starts, w.ident, next) && OnlyFreeChanged(w.m, w'.m, w.sp, top) && top < w.sp.lo + w.sp.size
    requires w'.cs == w.cs && w'.sp == w.sp && w'.starts == w.starts && w'.ident == w.ident
    requires i < |w.roots| && w.roots[i] == 0 && w'.roots == w.roots[i := r]
    ensures KeptHeap(w, w', i)
  {
    hide WfHeap, KeptHeap, OnlyFreeChanged;
    assert AllocStep(w, w', top, i, next);
    StepKeeps(w, w', top, i, next);
  }

  /** So does letting it join the heap, whether its handle is cleared or not. */
  lemma PublishedStep(w: World, w': World, top: nat, next: nat, i: nat)
    requires WfHeap(w.cs, w.m, w.sp, w.starts, top) && i < |w.roots| && WfRoots(w.m, w.sp, w.starts, w.roots[i := 0])
    requires IdentOk(w.starts, w.ident, next) && OnlyFreeChanged(w.m, w'.m, w.sp, top) && top < w.sp.lo + w.sp.size
    requires w'.cs == w.cs && w'.sp == w.sp && w'.starts == w.starts + [top] && w'.ident == w.ident[top := next]
    requires w.roots[i] == RefOf(top) && (w'.roots == w.roots || w'.roots == w.roots[i := 0])
    ensures KeptHeap(w, w', i)
  {
    NewIdent(w.cs, w.m, w.sp, w.starts, top, w.ident, next);
    assert PtrOf(RefOf(top)) == top;
    hide WfHeap, KeptHeap, OnlyFreeChanged;
    forall j | 0 <= j < |w.roots| && j != i
      ensures WfRef(w.m, w.sp, w.starts, w.roots[j])
    {
      assert w.roots[i := 0][j] == w.roots[j];
      assert w.roots[j] in w.roots[i := 0];
    }
    assert AllocStep(w, w', top, i, next);
    StepKeeps(w, w', top, i, next);
  }

  /** The header words fit the kind. */
  predicate HeaderFits(cs: ClassTable, kind: int, size: nat, header: seq<int>) {
    1 <= |header| < size &&
    if kind == OBJFLAGS_OBJECT
    then |header| == 1 && header[0] in cs.instances && size == cs.instances[header[0]].instanceSize + 3
    else if kind == OBJFLAGS_ARRAY
    then |header| == 3 && header[1] in cs.arrays && header[2] >= 0 && size == header[2] + 4
    else kind == OBJFLAGS_MEMORY && |header| == 4 && size == 7
  }

  /** Writing the header words behind the flag word gives an object with empty reference slots. */
  lemma NewBody(cs: ClassTable, m: seq<int>, m': seq<int>, p: nat, size: nat, kind: int, header: seq<int>)
    requires p + size <= |m| && HeaderFits(cs, kind, size, header)
    requires At(m, p) == kind && forall k :: 1 <= k < size ==> Field(m, p, k) == 0
    requires m' == m[..p + 1] + header + m[p + 1 + |header|..]
    ensures At(m', p) == kind && WfObject(cs, m', p) && SizeAt(cs, m', p) == size
    ensures forall k :: RefSlotAt(cs, m', p, k) ==> Field(m', p, k) == 0
    ensures forall k :: 1 <= k < size ==> Field(m', p, k) == if k <= |header| then header[k - 1] else 0
    ensures |m'| == |m| && forall a: int {:trigger At(m', a)} :: !(p < a < p + size) ==> At(m', a) == At(m, a)
  {
    forall k | 1 <= k < size
      ensures Field(m', p, k) == if k <= |header| then header[k - 1] else 0
    {
      if k > |header| {
        assert Field(m, p, k) == 0;
      }
    }
    assert Field(m', p, 1) == header[0];
    if kind == OBJFLAGS_ARRAY {
      assert Field(m', p, 2) == header[1] && Field(m', p, 3) == header[2];
    }
    forall k | RefSlotAt(cs, m', p, k)
      ensures Field(m', p, k) == 0
    {
      RefSlotIsKept(cs, kind, m', p, k);
    }
  }
}
