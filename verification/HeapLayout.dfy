/** Object layout of the JX heap (gc.h, gc_impl.h, gc_common.c).

  Memory is a sequence of 32-bit words, written as integers; a pointer to an object is the byte
  address of the word after its flag word.  The configuration is the one in settings.makefile:
  no magic word (XMOFF is 0), ALL_ARRAYS_32BIT, no NEW_PORTALCALL, no SMP. */
module HeapLayout {

  const OBJFLAGS_OBJECT := 0x02
  const OBJFLAGS_PORTAL := 0x04
  const OBJFLAGS_MEMORY := 0x06
  const OBJFLAGS_ATOMVAR := 0x0a
  const OBJFLAGS_SERVICE := 0x0c
  const OBJFLAGS_EXTERNAL_CPUDESC := 0x14
  const OBJFLAGS_ARRAY := 0x16
  const OBJFLAGS_EXTERNAL_STRING := 0x18
  const OBJFLAGS_CAS := 0x1a
  const OBJFLAGS_EXTERNAL_METHOD := 0x1c
  const OBJFLAGS_EXTERNAL_CLASS := 0x1e
  const OBJFLAGS_DOMAIN := 0x28

  /** References up to this value are never dereferenced by the collector. */
  const LAST_STRANGE_REF := 0xfff

  /** gc_impl_shallowCopyObject copies the object's full size starting at its first data word,
      which is two words further than the object reaches. */
  const OBJECT_OVERRUN := 2

  /** Words of a MemoryProxy behind its flag word that hold its DZMemoryProxy. */
  const MEMORY_DZ := 4

  // ----- tagging the flag word ------------------------------------------------------------

  /** w | GC_FORWARD */
  function Tag(w: int): int { w - w % 2 + 1 }

  /** (w & FORWARD_MASK) == GC_FORWARD */
  predicate IsForward(w: int) { w % 2 == 1 }

  /** w & FORWARD_PTR_MASK */
  function ForwardPtr(w: int): int { w - w % 2 }

  /** w & FLAGS_MASK */
  function FlagsOf(w: int): int { w % 256 - w % 2 }

  /** ptr2ObjectDesc, from the index of the flag word to a byte address. */
  function RefOf(p: int): int { 4 * (p + 1) }

  /** ObjectDesc2ptr */
  function PtrOf(r: int): int { r / 4 - 1 }

  /** Tagging is undone by masking, on every aligned address, and a plain flag word is never
      mistaken for a forwarding pointer. */
  lemma ForwardingRoundTrip(p: int, f: int)
    requires HeapKind(f) || ExternalKind(f)
    ensures IsForward(Tag(RefOf(p))) && ForwardPtr(Tag(RefOf(p))) == RefOf(p)
    ensures PtrOf(ForwardPtr(Tag(RefOf(p)))) == p
    ensures !IsForward(f) && FlagsOf(f) == f
  {
  }

  // ----- kinds and classes ----------------------------------------------------------------

  predicate HeapKind(f: int) {
    f == OBJFLAGS_OBJECT || f == OBJFLAGS_PORTAL || f == OBJFLAGS_MEMORY || f == OBJFLAGS_ATOMVAR ||
    f == OBJFLAGS_SERVICE || f == OBJFLAGS_ARRAY || f == OBJFLAGS_CAS || f == OBJFLAGS_DOMAIN
  }

  predicate ExternalKind(f: int) {
    f == OBJFLAGS_EXTERNAL_CPUDESC || f == OBJFLAGS_EXTERNAL_STRING ||
    f == OBJFLAGS_EXTERNAL_METHOD || f == OBJFLAGS_EXTERNAL_CLASS
  }

  /** ClassDesc: the number of data words and the bytes of the reference map. */
  datatype ObjClass = ObjClass(instanceSize: nat, refMap: seq<nat>)

  /** What the collector reads of an array class: whether name[1] is 'L' or '['. */
  datatype ElemKind = RefElem | PrimElem

  /** Class descriptors, found through the vtable word of an object and the arrayClass word of an
      array. */
  datatype ClassTable = ClassTable(instances: map<int, ObjClass>, arrays: map<int, ElemKind>)

  ghost predicate WfClasses(cs: ClassTable) {
    forall v :: v in cs.instances ==> 8 * |cs.instances[v].refMap| >= cs.instances[v].instanceSize
  }

  /** A byte of the reference map after k steps of bits >>= 1. */
  function Shifted(bits: nat, k: nat): nat {
    if k == 0 then bits else Shifted(bits, k - 1) / 2
  }

  function RefBit(c: ObjClass, index: int): bool {
    0 <= index < c.instanceSize && index / 8 < |c.refMap| &&
    Shifted(c.refMap[index / 8], index % 8) % 2 == 1
  }

  // ----- words and objects ----------------------------------------------------------------

  function At(m: seq<int>, a: int): int {
    if 0 <= a < |m| then m[a] else 0
  }

  /** The word at offset k from the flag word at p. */
  function Field(m: seq<int>, p: int, k: int): int {
    At(m, p + k)
  }

  function ClassOf(cs: ClassTable, m: seq<int>, p: int): ObjClass {
    if Field(m, p, 1) in cs.instances then cs.instances[Field(m, p, 1)] else ObjClass(0, [])
  }

  function ArrayLength(m: seq<int>, p: int): nat {
    if Field(m, p, 3) >= 0 then Field(m, p, 3) else 0
  }

  /** OBJSIZE_* in words, for an object of kind f whose flag word is at p. */
  function ObjSize(cs: ClassTable, f: int, m: seq<int>, p: int): (n: nat)
    ensures n >= 3
  {
    if f == OBJFLAGS_OBJECT then ClassOf(cs, m, p).instanceSize + 3
    else if f == OBJFLAGS_ARRAY then ArrayLength(m, p) + 4
    else if f == OBJFLAGS_PORTAL then 5
    else if f == OBJFLAGS_MEMORY then 7
    else if f == OBJFLAGS_SERVICE then 17
    else if f == OBJFLAGS_ATOMVAR then 5
    else if f == OBJFLAGS_DOMAIN then 4
    else 3
  }

  /** The words, flag word included, that the shallow copy of kind f carries over: it leaves out the
      two dummies of a memory proxy, the listMode of an atomic variable and the rounding word of a
      service. */
  function KeptLen(cs: ClassTable, f: int, m: seq<int>, p: int): (n: nat)
    ensures 3 <= n <= ObjSize(cs, f, m, p)
  {
    if f == OBJFLAGS_MEMORY then 5
    else if f == OBJFLAGS_ATOMVAR then 4
    else if f == OBJFLAGS_SERVICE then 16
    else ObjSize(cs, f, m, p)
  }

  /** Whether the word at offset k of the object at p is a reference the collector visits. */
  predicate IsRefSlot(cs: ClassTable, f: int, m: seq<int>, p: int, k: int) {
    if f == OBJFLAGS_OBJECT then RefBit(ClassOf(cs, m, p), k - 2)
    else if f == OBJFLAGS_ARRAY then
      Field(m, p, 2) in cs.arrays && cs.arrays[Field(m, p, 2)] == RefElem && 4 <= k < ArrayLength(m, p) + 4
    else if f == OBJFLAGS_SERVICE then k == 9 || k == 10
    else f == OBJFLAGS_ATOMVAR && k == 2
  }

  lemma RefSlotIsKept(cs: ClassTable, f: int, m: seq<int>, p: int, k: int)
    requires IsRefSlot(cs, f, m, p, k)
    ensures 2 <= k < KeptLen(cs, f, m, p)
    ensures f == OBJFLAGS_ARRAY ==> 4 <= k
  {
  }

  /** The words that decide size and reference slots agree: the vtable, and for arrays the class and
      the length. */
  predicate SameHeader(f: int, m: seq<int>, p: int, m': seq<int>, p': int) {
    Field(m, p, 1) == Field(m', p', 1) &&
    (f == OBJFLAGS_ARRAY ==> Field(m, p, 2) == Field(m', p', 2) && Field(m, p, 3) == Field(m', p', 3))
  }

  lemma SameHeaderSameShape(cs: ClassTable, f: int, m: seq<int>, p: int, m': seq<int>, p': int)
    requires SameHeader(f, m, p, m', p')
    ensures ObjSize(cs, f, m, p) == ObjSize(cs, f, m', p')
    ensures KeptLen(cs, f, m, p) == KeptLen(cs, f, m', p')
    ensures forall k :: IsRefSlot(cs, f, m, p, k) <==> IsRefSlot(cs, f, m', p', k)
  {
  }

  /** An object the heap walk can parse: a plain flag word of a known kind and known classes. */
  ghost predicate WfObject(cs: ClassTable, m: seq<int>, p: int) {
    var f := At(m, p);
    HeapKind(f) &&
    (f == OBJFLAGS_OBJECT ==> Field(m, p, 1) in cs.instances) &&
    (f == OBJFLAGS_ARRAY ==> Field(m, p, 2) in cs.arrays && Field(m, p, 3) >= 0)
  }

  function SizeAt(cs: ClassTable, m: seq<int>, p: int): nat {
    ObjSize(cs, At(m, p), m, p)
  }

  predicate RefSlotAt(cs: ClassTable, m: seq<int>, p: int, k: int) {
    IsRefSlot(cs, At(m, p), m, p, k)
  }

  function KeptAt(cs: ClassTable, m: seq<int>, p: int): nat {
    KeptLen(cs, At(m, p), m, p)
  }
}
