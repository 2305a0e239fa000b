/** The marking collector (gc_bitmap.c): a bit map with one bit for each slot of four words, set
  recursively for the objects that can be reached, and a sweep that zeroes all other slots. */
module BitmapCollector {

  const WORDS_PER_SLOT := 4

  // ----- bits ---------------------------------------------------------------------------------------

  /** 1 << (c & 7) */
  function Mask(c: nat): bv8 {
    1 << (c % 8)
  }

  predicate Bit(bits: seq<bv8>, c: nat)
    requires c / 8 < |bits|
  {
    bits[c / 8] & Mask(c) != 0
  }

  /** Bit k of a byte, counted from the lowest. */
  predicate BitNumber(b: bv8, k: nat)
    requires k < 8
  {
    b / [1, 2, 4, 8, 16, 32, 64, 128][k] % 2 == 1
  }

  /** Slot c has bit c % 8 of byte c / 8. */
  lemma BitOfSlot(bits: seq<bv8>, c: nat)
    requires c / 8 < |bits|
    ensures Bit(bits, c) <==> BitNumber(bits[c / 8], c % 8)
  {
    hide BitNumber;
    BitByDivision(bits[c / 8], c % 8);
  }

  lemma BitByDivision(b: bv8, k: nat)
    requires k < 8
    ensures b & (1 << k) != 0 <==> BitNumber(b, k)
  {
    if k == 0 {
      assert b & 1 != 0 <==> b / 1 % 2 == 1;
    } else if k == 1 {
      assert b & 2 != 0 <==> b / 2 % 2 == 1;
    } else if k == 2 {
      assert b & 4 != 0 <==> b / 4 % 2 == 1;
    } else if k == 3 {
      assert b & 8 != 0 <==> b / 8 % 2 == 1;
    } else if k == 4 {
      assert b & 16 != 0 <==> b / 16 % 2 == 1;
    } else if k == 5 {
      assert b & 32 != 0 <==> b / 32 % 2 == 1;
    } else if k == 6 {
      assert b & 64 != 0 <==> b / 64 % 2 == 1;
    } else {
      assert b & 128 != 0 <==> b / 128 % 2 == 1;
    }
  }

  /** The slots whose bits are set. */
  ghost function Slots(bits: seq<bv8>, n: nat): set<nat>
    requires n <= 8 * |bits|
  {
    set c: nat | c < n && Bit(bits, c)
  }

  lemma OrSetsOneBit(b: bv8, i: nat, j: nat)
    requires i < 8 && j < 8
    ensures (b | (1 << i)) & (1 << j) != 0 <==> i == j || b & (1 << j) != 0
  {
  }

  /** Setting the bit of slot c adds exactly c to the set. */
  lemma SetBitAddsSlot(bits: seq<bv8>, n: nat, c: nat)
    requires n <= 8 * |bits| && c < n
    ensures Slots(bits[c / 8 := bits[c / 8] | Mask(c)], n) == Slots(bits, n) + {c}
  {
    var bits' := bits[c / 8 := bits[c / 8] | Mask(c)];
    forall j: nat | j < n
      ensures Bit(bits', j) <==> j == c || Bit(bits, j)
    {
      if j / 8 == c / 8 {
        OrSetsOneBit(bits[c / 8], c % 8, j % 8);
      }
    }
  }

  /** The slots from c up to c + k. */
  function Range(c: nat, k: nat): set<nat> {
    if k == 0 then {} else Range(c, k - 1) + {c + k - 1}
  }

  lemma {:induction false} RangeIs(c: nat, k: nat)
    ensures |Range(c, k)| == k && forall x: nat :: x in Range(c, k) <==> c <= x < c + k
  {
    if k > 0 {
      RangeIs(c, k - 1);
    }
  }

  // ----- objects --------------------------------------------------------------------------------------

  /** An object: how many words it has, and its references in the order in which they are walked.  A
      reference is the first slot of the object it leads to, anything outside the heap otherwise. */
  datatype Obj = Obj(words: nat, refs: seq<int>) {
    function NSlots(): nat {
      (words + WORDS_PER_SLOT - 1) / WORDS_PER_SLOT
    }
  }

  /** The contents of a slot. */
  datatype Words = Words(w0: int, w1: int, w2: int, w3: int)

  const ZERO := Words(0, 0, 0, 0)

  type Heap = map<nat, Obj>

  /** What the header of an object says: how many words it has, and the offsets of its reference words in
      the order in which they are walked. */
  datatype Layout = Layout(words: nat, offs: seq<nat>)

  function WordOf(w: Words, k: nat): int {
    if k == 0 then w.w0 else if k == 1 then w.w1 else if k == 2 then w.w2 else w.w3
  }

  /** Word k of the object at slot a. */
  function WordAt(hp: seq<Words>, a: nat, k: nat): int {
    if a + k / WORDS_PER_SLOT < |hp| then WordOf(hp[a + k / WORDS_PER_SLOT], k % WORDS_PER_SLOT) else 0
  }

  /** The objects that the words of the heap make of the layouts.  A reference to the object at slot a is
      the word base + a. */
  function ObjectsIn(layouts: map<nat, Layout>, base: nat, hp: seq<Words>): (objects: Heap)
    ensures objects.Keys == layouts.Keys
    ensures forall a :: a in layouts ==> objects[a].words == layouts[a].words && |objects[a].refs| == |layouts[a].offs|
    ensures forall a, i :: a in layouts && 0 <= i < |layouts[a].offs| ==>
              objects[a].refs[i] == WordAt(hp, a, layouts[a].offs[i]) - base
  {
    map a | a in layouts :: Obj(layouts[a].words, RefsIn(layouts[a].offs, base, hp, a))
  }

  function RefsIn(offs: seq<nat>, base: nat, hp: seq<Words>, a: nat): seq<int> {
    seq(|offs|, i requires 0 <= i < |offs| => WordAt(hp, a, offs[i]) - base)
  }

  ghost predicate OffsetsInside(layouts: map<nat, Layout>) {
    forall a, i :: a in layouts && 0 <= i < |layouts[a].offs| ==> layouts[a].offs[i] < layouts[a].words
  }

  function SlotsOf(objects: Heap, a: nat): set<nat>
    requires a in objects
  {
    Range(a, objects[a].NSlots())
  }

  /** Objects lie in the heap, do not overlap, and refer to objects or out of the heap. */
  ghost predicate WellFormed(objects: Heap, n: nat) {
    (forall a :: a in objects ==> objects[a].words > 0 && a + objects[a].NSlots() <= n) &&
    (forall a, b :: a in objects && b in objects && a < b ==> a + objects[a].NSlots() <= b) &&
    forall a, i :: a in objects && 0 <= i < |objects[a].refs| ==> RefOk(objects, n, objects[a].refs[i])
  }

  predicate RefOk(objects: Heap, n: nat, r: int) {
    0 <= r < n ==> r as nat in objects
  }

  /** The slots of all objects in s. */
  ghost function AllSlots(objects: Heap, s: set<nat>): set<nat>
    requires s <= objects.Keys
  {
    set a, c | a in s && c in SlotsOf(objects, a) :: c
  }

  lemma InAllSlots(objects: Heap, s: set<nat>, c: nat)
    requires s <= objects.Keys
    ensures c in AllSlots(objects, s) <==> exists a :: a in s && c in SlotsOf(objects, a)
  {
  }

  /** An object that is not in s shares no slot with those in s. */
  lemma OthersDisjoint(objects: Heap, n: nat, s: set<nat>, a: nat)
    requires WellFormed(objects, n) && s <= objects.Keys && a in objects && a !in s
    ensures SlotsOf(objects, a) !! AllSlots(objects, s)
  {
    forall c | c in AllSlots(objects, s)
      ensures c !in SlotsOf(objects, a)
    {
      var b :| b in s && c in SlotsOf(objects, b);
      RangeIs(a, objects[a].NSlots());
      RangeIs(b, objects[b].NSlots());
      assert a < b || b < a;
    }
  }

  lemma OneMore(objects: Heap, s: set<nat>, a: nat)
    requires s <= objects.Keys && a in objects
    ensures AllSlots(objects, s + {a}) == AllSlots(objects, s) + SlotsOf(objects, a)
  {
    forall c
      ensures c in AllSlots(objects, s + {a}) <==> c in AllSlots(objects, s) + SlotsOf(objects, a)
    {
      InAllSlots(objects, s + {a}, c);
      InAllSlots(objects, s, c);
    }
  }

  // ----- reachability ---------------------------------------------------------------------------------

  predicate Child(objects: Heap, a: nat, b: nat) {
    a in objects && b in objects && b in objects[a].refs
  }

  /** p leads from object to object, each a reference of the one before. */
  ghost predicate IsPath(objects: Heap, p: seq<nat>) {
    p != [] && p[0] in objects && forall i :: 0 <= i < |p| - 1 ==> Link(objects, p, i)
  }

  predicate Link(objects: Heap, p: seq<nat>, i: int) {
    0 <= i < |p| - 1 ==> Child(objects, p[i], p[i + 1])
  }

  ghost predicate Reaches(objects: Heap, a: nat, b: nat) {
    exists p :: IsPath(objects, p) && p[0] == a && p[|p| - 1] == b
  }

  ghost predicate Reachable(objects: Heap, roots: seq<int>, b: nat) {
    exists i :: 0 <= i < |roots| && roots[i] >= 0 && roots[i] as nat in objects && Reaches(objects, roots[i], b)
  }

  lemma ReachesSelf(objects: Heap, a: nat)
    requires a in objects
    ensures Reaches(objects, a, a)
  {
    assert IsPath(objects, [a]) && [a][|[a]| - 1] == a;
  }

  lemma ReachesThrough(objects: Heap, a: nat, b: nat, c: nat)
    requires Child(objects, a, b) && Reaches(objects, b, c)
    ensures Reaches(objects, a, c)
  {
    var p :| IsPath(objects, p) && p[0] == b && p[|p| - 1] == c;
    var q := [a] + p;
    forall i | 0 <= i < |q| - 1
      ensures Link(objects, q, i)
    {
      if i > 0 {
        assert Link(objects, p, i - 1) && q[i] == p[i - 1] && q[i + 1] == p[i];
      }
    }
    assert IsPath(objects, q) && q[0] == a && q[|q| - 1] == c;
  }

  /** A set of objects that contains the children of its members contains all they reach. */
  ghost predicate ClosedExcept(objects: Heap, s: set<nat>, open: set<nat>) {
    forall a, b :: a in s && a !in open && Child(objects, a, b) ==> b in s
  }

  lemma ClosedHoldsReached(objects: Heap, s: set<nat>, a: nat, b: nat)
    requires ClosedExcept(objects, s, {}) && a in s && Reaches(objects, a, b)
    ensures b in s
  {
    var p :| IsPath(objects, p) && p[0] == a && p[|p| - 1] == b;
    ClosedAlong(objects, s, p, |p| - 1);
  }

  lemma {:induction false} ClosedAlong(objects: Heap, s: set<nat>, p: seq<nat>, i: nat)
    requires ClosedExcept(objects, s, {}) && IsPath(objects, p) && p[0] in s && i < |p|
    ensures p[i] in s
  {
    if i > 0 {
      ClosedAlong(objects, s, p, i - 1);
      assert Link(objects, p, i - 1);
    }
  }

  // ----- the collector --------------------------------------------------------------------------------

  class Bitmap {
    const bits: array<bv8>           // map
    const heap: array<Words>
    const nSlots: nat
    var current: nat
    var freeSlots: int
    const layouts: map<nat, Layout>  // what bitmap_guess_type and the headers say about the heap
    const base: nat                  // where the heap begins, in slots
    ghost var marked: set<nat>

    /** The objects of the heap with their references. */
    ghost function Objects(): Heap
      reads heap
    {
      ObjectsIn(layouts, base, heap[..])
    }

    ghost predicate Shape()
      reads heap
    {
      nSlots <= 8 * bits.Length && heap.Length == nSlots && (heap as object) != bits && base > 0 &&
      OffsetsInside(layouts) && WellFormed(Objects(), nSlots)
    }

    /** The bit map is the set of slots of the marked objects, and freeSlots counts the others. */
    ghost predicate Valid()
      reads this, bits, heap
    {
      Shape() && marked <= layouts.Keys && Slots(bits[..], nSlots) == AllSlots(Objects(), marked) &&
      freeSlots == nSlots - |Slots(bits[..], nSlots)|
    }

    constructor (layouts: map<nat, Layout>, base: nat, n: nat)
      requires base > 0 && OffsetsInside(layouts) && WellFormed(ObjectsIn(layouts, base, []), n)
      ensures Shape() && this.layouts == layouts && this.base == base && nSlots == n && fresh(bits) && fresh(heap)
    {
      this.layouts, this.base, nSlots := layouts, base, n;
      bits := new bv8[n / 8 + 1](i => 0);
      heap := new Words[n](i => ZERO);
      current, freeSlots, marked := 0, n, {};
      new;
      AllZero(layouts, base, heap[..], n);
    }

    method Clear()
      requires Shape()
      modifies this, bits
      ensures Valid() && marked == {} && freeSlots == nSlots && current == 0
    {
      forall i | 0 <= i < bits.Length {
        bits[i] := 0;
      }
      freeSlots := nSlots;
      current := 0;
      marked := {};
      NothingSet(bits[..], nSlots);
    }

    /** bitmap_has_space: the next slots from current on exist and are all free. */
    method HasSpace(nslots: nat) returns (r: bool)
      requires Shape()
      ensures r <==>
                current + nslots <= nSlots && forall c: nat :: current <= c < current + nslots ==>
                  c !in Slots(bits[..], nSlots)
    {
      if current + nslots > nSlots {
        return false;
      }
      var i := 0;
      while i < nslots
        invariant 0 <= i <= nslots
        invariant forall c: nat :: current <= c < current + i ==> c !in Slots(bits[..], nSlots)
      {
        if bits[(current + i) / 8] & Mask(current + i) != 0 {
          assert Bit(bits[..], current + i) && current + i in Slots(bits[..], nSlots);
          return false;
        }
        assert !Bit(bits[..], current + i);
        i := i + 1;
      }
      r := true;
    }

    method SetBit(pos: nat)
      requires Shape() && pos < nSlots
      modifies bits
      ensures Slots(bits[..], nSlots) == old(Slots(bits[..], nSlots)) + {pos}
    {
      SetBitAddsSlot(bits[..], nSlots, pos);
      hide Slots;
      bits[pos / 8] := bits[pos / 8] | Mask(pos);
    }

    /** bitmap_mark: the slots from current on are taken; the result is where they begin. */
    method Mark(nslots: nat) returns (addr: nat)
      requires Shape() && current + nslots <= nSlots
      modifies this`current, this`freeSlots, bits
      ensures Slots(bits[..], nSlots) == old(Slots(bits[..], nSlots)) + Range(old(current), nslots)
      ensures freeSlots == old(freeSlots) - nslots && current == old(current) + nslots && addr == old(current)
    {
      hide Slots, WellFormed;
      var i := 0;
      ghost var before := Slots(bits[..], nSlots);
      while i < nslots
        invariant 0 <= i <= nslots && current == old(current) && freeSlots == old(freeSlots)
        invariant Slots(bits[..], nSlots) == before + Range(current, i)
      {
        var pos := current + i;
        SetBit(pos);
        assert Range(current, i + 1) == Range(current, i) + {pos};
        i := i + 1;
      }
      freeSlots := freeSlots - nslots;
      addr := current;
      current := current + nslots;
    }

    /** bitmap_next_free: the next free slot at or after current, going round once; false exactly if
        there is none. */
    method NextFree() returns (r: bool)
      requires Shape() && current < nSlots
      modifies this`current
      ensures !r ==> forall c: nat :: c < nSlots ==> c in Slots(bits[..], nSlots)
      ensures !r ==> current == old(current)
      ensures r ==> current < nSlots && current !in Slots(bits[..], nSlots)
      ensures r ==> if current >= old(current)
                    then forall c: nat :: old(current) <= c < current ==> c in Slots(bits[..], nSlots)
                    else forall c: nat :: c < current || old(current) <= c < nSlots ==> c in Slots(bits[..], nSlots)
    {
      var c, s := current, nSlots;
      ghost var wrapped := false;
      while bits[c / 8] & Mask(c) != 0
        invariant 0 <= c < s && current == old(current) && (wrapped ==> c < current) && (!wrapped ==> c >= current)
        invariant forall d: nat ::
                    (if wrapped then current <= d < s || d < c else current <= d < c) ==> d in Slots(bits[..], s)
        decreases if wrapped then current - c else s - c + current
      {
        assert Bit(bits[..], c);
        c := c + 1;
        if c == s {
          wrapped := true;
        }
        c := if c == s then 0 else c;
        if c == current {
          assert forall d: nat :: d < s ==> d in Slots(bits[..], s);
          return false;
        }
      }
      assert !Bit(bits[..], c) && c as nat !in Slots(bits[..], nSlots);
      current := c;
      r := true;
    }

    // ----- marking ------------------------------------------------------------------------------------

    /** bitmap_mark_addr: false if the object is marked already. */
    method MarkAddr(addr: nat, size: nat) returns (r: bool)
      requires Valid() && addr in layouts && size == layouts[addr].words
      modifies this, bits
      ensures Valid() && (r <==> addr !in old(marked)) && marked == old(marked) + {addr}
    {
      hide WellFormed, Slots, AllSlots, Range, ObjectsIn;
      ghost var objects := Objects();
      current := addr;
      var nslots := (size + WORDS_PER_SLOT - 1) / WORDS_PER_SLOT;
      ObjectSlots(objects, nSlots, marked, addr);
      r := HasSpace(nslots);
      if !r {
        assert marked + {addr} == marked;
        return;
      }
      var at := Mark(nslots);
      assert at == addr;
      OneMore(objects, marked, addr);
      DisjointSizes(old(Slots(bits[..], nSlots)), SlotsOf(objects, addr));
      RangeIs(addr, nslots);
      marked := marked + {addr};
    }

    /** bitmap_mark_ref: everything that can be reached from ref is marked when the call returns, and
        nothing else has been marked.  The recursion ends because each call that goes on marks an
        object. */
    method MarkRef(ref: int)
      requires Valid() && RefOk(Objects(), nSlots, ref)
      modifies this, bits
      ensures Valid() && old(marked) <= marked && (0 <= ref < nSlots ==> ref as nat in marked)
      ensures forall b :: b in marked && b !in old(marked) ==> ref >= 0 && Reaches(Objects(), ref, b)
      ensures ClosedExcept(Objects(), marked, old(marked))
      decreases layouts.Keys - marked
    {
      hide WellFormed, Slots, AllSlots, Reaches, ObjectsIn;
      ghost var objects := Objects();
      if !(0 <= ref < nSlots) {
        return;
      }
      var ok := MarkAddr(ref, layouts[ref].words);
      if !ok {
        return;
      }
      ghost var before := old(marked);
      ReachesSelf(objects, ref);
      ghost var refs := objects[ref].refs;
      var offs := layouts[ref].offs;
      var i := 0;
      while i < |offs|
        invariant 0 <= i <= |offs| && Valid() && before + {ref} <= marked && Objects() == objects
        invariant forall j :: 0 <= j < i && 0 <= refs[j] < nSlots ==> refs[j] as nat in marked
        invariant forall b :: b in marked && b !in before ==> Reaches(objects, ref, b)
        invariant ClosedExcept(objects, marked, before + {ref})
      {
        RefsOk(objects, nSlots, ref, i);
        ghost var now := marked;
        assert ref in now && ref !in before;
        WordInside(objects, nSlots, ref, offs[i]);
        var word := WordOf(heap[ref + offs[i] / WORDS_PER_SLOT], offs[i] % WORDS_PER_SLOT);
        assert refs[i] == word - base;
        MarkRef(word - base);
        ReachedBelow(objects, ref, refs[i], now, marked);
        i := i + 1;
      }
      ChildrenMarked(objects, nSlots, ref, before, marked);
    }

    /** bitmap_clear_heap: exactly the slots that are not marked become zero. */
    method ClearHeap()
      requires Shape()
      modifies heap
      ensures forall c: nat :: c < nSlots ==> heap[c] == if c in Slots(bits[..], nSlots) then old(heap[c]) else ZERO
    {
      hide WellFormed;
      var c := 0;
      while c < nSlots
        invariant 0 <= c <= nSlots && bits[..] == old(bits[..])
        invariant forall d: nat :: c <= d < nSlots ==> heap[d] == old(heap[d])
        invariant forall d: nat :: d < c ==> heap[d] == if d in Slots(bits[..], nSlots) then old(heap[d]) else ZERO
      {
        assert c as nat in Slots(bits[..], nSlots) <==> Bit(bits[..], c);
        if bits[c / 8] & Mask(c) == 0 {
          heap[c] := ZERO;
        }
        c := c + 1;
      }
    }

    /** gc_bitmap_gc: afterwards exactly the objects reachable from the roots are marked, their words
        are untouched, all other words are zero, and the free slots are counted right. */
    method Gc(roots: seq<int>)
      requires Shape() && forall i :: 0 <= i < |roots| ==> RefOk(Objects(), nSlots, roots[i])
      modifies this, bits, heap
      ensures Valid() && forall b :: b in marked <==> Reachable(old(Objects()), roots, b)
      ensures marked <= layouts.Keys
      ensures forall c: nat ::
                c < nSlots ==> heap[c] == if c in AllSlots(old(Objects()), marked) then old(heap[c]) else ZERO
      ensures forall b :: b in marked ==> Objects()[b] == old(Objects())[b]
      ensures freeSlots == nSlots - |AllSlots(old(Objects()), marked)|
      ensures Holds(layouts, base, old(heap[..]), nSlots, roots, marked)
      ensures forall S: set<nat> :: Holds(layouts, base, old(heap[..]), nSlots, roots, S) ==> marked <= S
      ensures forall c: nat :: c < nSlots ==>
                heap[c] == if InSome(layouts, marked, c) then old(heap[c]) else ZERO
    {
      hide WellFormed, Slots, AllSlots, Reaches, Reachable, ObjectsIn, Holds, InSome;
      ghost var objects, words := Objects(), heap[..];
      Clear();
      var i := 0;
      while i < |roots|
        invariant 0 <= i <= |roots| && Valid() && heap[..] == words && Objects() == objects
        invariant forall j :: 0 <= j < i && 0 <= roots[j] < nSlots ==> roots[j] as nat in marked
        invariant forall b :: b in marked ==> Reachable(objects, roots, b)
        invariant ClosedExcept(objects, marked, {})
      {
        ghost var before := marked;
        MarkRef(roots[i]);
        RootReaches(objects, roots, i, before, marked);
        ClosedMore(objects, before, marked);
        i := i + 1;
      }
      MarkedIsReachable(objects, nSlots, roots, marked);
      ReachableHolds(layouts, base, words, nSlots, roots, marked);
      SlotsOfMarked(layouts, base, words, nSlots, marked);
      ClearHeap();
      Swept(layouts, base, words, heap[..], nSlots, marked);
    }
  }

  /** S contains the objects that the roots lead to, and those that the reference words of its members lead
      to. */
  ghost predicate Holds(layouts: map<nat, Layout>, base: nat, hp: seq<Words>, n: nat, roots: seq<int>, S: set<nat>) {
    (forall i :: 0 <= i < |roots| && 0 <= roots[i] < n ==> roots[i] as nat in S) &&
    forall a, i :: a in S && a in layouts && 0 <= i < |layouts[a].offs| ==>
      var r := WordAt(hp, a, layouts[a].offs[i]) - base; 0 <= r < n ==> r as nat in S
  }

  /** Slot c holds words of a marked object. */
  ghost predicate InSome(layouts: map<nat, Layout>, marked: set<nat>, c: nat) {
    exists a :: a in marked && a in layouts && a <= c && WORDS_PER_SLOT * (c - a) < layouts[a].words
  }

  lemma SlotsOfMarked(layouts: map<nat, Layout>, base: nat, hp: seq<Words>, n: nat, marked: set<nat>)
    requires marked <= layouts.Keys
    ensures forall c: nat :: c in AllSlots(ObjectsIn(layouts, base, hp), marked) <==> InSome(layouts, marked, c)
  {
    var objects := ObjectsIn(layouts, base, hp);
    forall c: nat
      ensures c in AllSlots(objects, marked) <==> InSome(layouts, marked, c)
    {
      InAllSlots(objects, marked, c);
      forall a | a in marked
        ensures c in SlotsOf(objects, a) <==> a <= c && WORDS_PER_SLOT * (c - a) < layouts[a].words
      {
        RangeIs(a, objects[a].NSlots());
      }
    }
  }

  /** The objects that can be reached form the least set that holds what the roots and the reference words
      lead to. */
  lemma ReachableHolds(layouts: map<nat, Layout>, base: nat, hp: seq<Words>, n: nat, roots: seq<int>, marked: set<nat>)
    requires WellFormed(ObjectsIn(layouts, base, hp), n) && marked <= layouts.Keys
    requires forall i :: 0 <= i < |roots| ==> RefOk(ObjectsIn(layouts, base, hp), n, roots[i])
    requires forall i :: 0 <= i < |roots| && 0 <= roots[i] < n ==> roots[i] as nat in marked
    requires ClosedExcept(ObjectsIn(layouts, base, hp), marked, {})
    requires forall b :: b in marked <==> Reachable(ObjectsIn(layouts, base, hp), roots, b)
    ensures Holds(layouts, base, hp, n, roots, marked)
    ensures forall S: set<nat> :: Holds(layouts, base, hp, n, roots, S) ==> marked <= S
  {
    hide WellFormed, ObjectsIn, Reachable;
    forall a, i | a in marked && a in layouts && 0 <= i < |layouts[a].offs|
      ensures var r := WordAt(hp, a, layouts[a].offs[i]) - base; 0 <= r < n ==> r as nat in marked
    {
      WordLeadsOn(layouts, base, hp, n, marked, a, i);
    }
    hide ClosedExcept, RefOk;
    forall S: set<nat>, b | Holds(layouts, base, hp, n, roots, S) && b in marked
      ensures b in S
    {
      ReachedInAny(layouts, base, hp, n, roots, S, b);
    }
  }

  lemma WordLeadsOn(layouts: map<nat, Layout>, base: nat, hp: seq<Words>, n: nat, marked: set<nat>, a: nat, i: nat)
    requires WellFormed(ObjectsIn(layouts, base, hp), n) && ClosedExcept(ObjectsIn(layouts, base, hp), marked, {})
    requires a in marked && a in layouts && i < |layouts[a].offs|
    ensures var r := WordAt(hp, a, layouts[a].offs[i]) - base; 0 <= r < n ==> r as nat in marked
  {
    var objects, r := ObjectsIn(layouts, base, hp), WordAt(hp, a, layouts[a].offs[i]) - base;
    assert objects[a].refs[i] == r;
    RefsOk(objects, n, a, i);
    if 0 <= r < n {
      assert Child(objects, a, r);
    }
  }

  lemma ChildInAny(layouts: map<nat, Layout>, base: nat, hp: seq<Words>, n: nat, roots: seq<int>, S: set<nat>, a: nat,
                   x: nat)
    requires WellFormed(ObjectsIn(layouts, base, hp), n) && Holds(layouts, base, hp, n, roots, S)
    requires a in S && Child(ObjectsIn(layouts, base, hp), a, x)
    ensures x in S
  {
    var objects := ObjectsIn(layouts, base, hp);
    var i :| 0 <= i < |objects[a].refs| && objects[a].refs[i] == x;
    assert WordAt(hp, a, layouts[a].offs[i]) - base == x;
    assert x < n;
  }

  lemma ReachedInAny(layouts: map<nat, Layout>, base: nat, hp: seq<Words>, n: nat, roots: seq<int>, S: set<nat>, b: nat)
    requires WellFormed(ObjectsIn(layouts, base, hp), n) && Holds(layouts, base, hp, n, roots, S)
    requires Reachable(ObjectsIn(layouts, base, hp), roots, b)
    ensures b in S
  {
    var objects := ObjectsIn(layouts, base, hp);
    hide ObjectsIn, Reaches;
    forall a: nat, x: nat | a in S && Child(objects, a, x)
      ensures x in S
    {
      ChildInAny(layouts, base, hp, n, roots, S, a, x);
    }
    var i :| 0 <= i < |roots| && roots[i] >= 0 && roots[i] as nat in objects && Reaches(objects, roots[i], b);
    assert roots[i] < n;
    ClosedHoldsReached(objects, S, roots[i], b);
  }

  lemma AllZero(layouts: map<nat, Layout>, base: nat, hp: seq<Words>, n: nat)
    requires base > 0 && WellFormed(ObjectsIn(layouts, base, []), n) && forall i :: 0 <= i < |hp| ==> hp[i] == ZERO
    ensures WellFormed(ObjectsIn(layouts, base, hp), n)
  {
    var objects, empty := ObjectsIn(layouts, base, hp), ObjectsIn(layouts, base, []);
    forall a, i | a in objects && 0 <= i < |objects[a].refs|
      ensures objects[a].refs[i] < 0
    {
      assert objects[a].refs[i] == WordAt(hp, a, layouts[a].offs[i]) - base;
    }
    SameWords(empty, objects, n);
  }

  /** Well-formedness is a matter of sizes and of references. */
  lemma SameWords(objects: Heap, objects': Heap, n: nat)
    requires WellFormed(objects, n) && objects'.Keys == objects.Keys && forall a :: a in objects ==>
               objects'[a].words == objects[a].words
    requires forall a, i :: a in objects' && 0 <= i < |objects'[a].refs| ==> RefOk(objects', n, objects'[a].refs[i])
    ensures WellFormed(objects', n)
  {
    hide RefOk;
    assert forall a :: a in objects' ==> a in objects && objects'[a].NSlots() == objects[a].NSlots();
  }

  /** A word of an object lies in one of its slots. */
  lemma WordInside(objects: Heap, n: nat, a: nat, k: nat)
    requires WellFormed(objects, n) && a in objects && k < objects[a].words
    ensures a + k / WORDS_PER_SLOT < n && a + k / WORDS_PER_SLOT in SlotsOf(objects, a)
  {
    RangeIs(a, objects[a].NSlots());
  }

  /** The sweep keeps the references of the marked objects and clears all others. */
  lemma Swept(layouts: map<nat, Layout>, base: nat, hp: seq<Words>, hp': seq<Words>, n: nat, marked: set<nat>)
    requires base > 0 && OffsetsInside(layouts) && WellFormed(ObjectsIn(layouts, base, hp), n) && marked <= layouts.Keys
    requires |hp| == |hp'| == n
    requires forall c: nat ::
               c < n ==> hp'[c] == if c in AllSlots(ObjectsIn(layouts, base, hp), marked) then hp[c] else ZERO
    ensures var objects, objects' := ObjectsIn(layouts, base, hp), ObjectsIn(layouts, base, hp');
            WellFormed(objects', n) && (forall b :: b in marked ==> objects'[b] == objects[b]) &&
            AllSlots(objects', marked) == AllSlots(objects, marked)
  {
    var objects, objects' := ObjectsIn(layouts, base, hp), ObjectsIn(layouts, base, hp');
    hide WellFormed, AllSlots, ObjectsIn;
    forall a, i | a in layouts && 0 <= i < |layouts[a].offs|
      ensures objects'[a].refs[i] == if a in marked then objects[a].refs[i] else 0 - base
    {
      SweptWord(layouts, base, hp, hp', n, marked, a, layouts[a].offs[i]);
    }
    forall a, i | a in objects' && 0 <= i < |objects'[a].refs|
      ensures RefOk(objects', n, objects'[a].refs[i])
    {
      RefsOk(objects, n, a, i);
    }
    SameWords(objects, objects', n);
    forall b | b in marked
      ensures objects'[b] == objects[b]
    {
      assert objects'[b].refs == objects[b].refs;
    }
    SameSlots(objects, objects', marked);
  }

  lemma SweptWord(layouts: map<nat, Layout>, base: nat, hp: seq<Words>, hp': seq<Words>, n: nat, marked: set<nat>,
                  a: nat, k: nat)
    requires WellFormed(ObjectsIn(layouts, base, hp), n) && marked <= layouts.Keys && |hp| == |hp'| == n
    requires forall c: nat ::
               c < n ==> hp'[c] == if c in AllSlots(ObjectsIn(layouts, base, hp), marked) then hp[c] else ZERO
    requires a in layouts && k < layouts[a].words
    ensures WordAt(hp', a, k) == if a in marked then WordAt(hp, a, k) else 0
  {
    var objects := ObjectsIn(layouts, base, hp);
    hide WellFormed, AllSlots, ObjectsIn;
    WordInside(objects, n, a, k);
    InAllSlots(objects, marked, a + k / WORDS_PER_SLOT);
    if a !in marked {
      OthersDisjoint(objects, n, marked, a);
    }
  }

  lemma SameSlots(objects: Heap, objects': Heap, s: set<nat>)
    requires s <= objects.Keys && objects'.Keys == objects.Keys && forall a :: a in objects ==>
               objects'[a].words == objects[a].words
    ensures AllSlots(objects', s) == AllSlots(objects, s)
  {
    forall c
      ensures c in AllSlots(objects', s) <==> c in AllSlots(objects, s)
    {
      InAllSlots(objects, s, c);
      InAllSlots(objects', s, c);
      assert forall a :: a in s ==> SlotsOf(objects', a) == SlotsOf(objects, a);
    }
  }

  /** All objects reached from the roots are marked exactly if the marked ones are closed and contain
      the roots. */
  lemma MarkedIsReachable(objects: Heap, n: nat, roots: seq<int>, marked: set<nat>)
    requires WellFormed(objects, n) && marked <= objects.Keys && ClosedExcept(objects, marked, {})
    requires forall i :: 0 <= i < |roots| ==> RefOk(objects, n, roots[i])
    requires forall i :: 0 <= i < |roots| && 0 <= roots[i] < n ==> roots[i] as nat in marked
    requires forall b :: b in marked ==> Reachable(objects, roots, b)
    ensures forall b :: b in marked <==> Reachable(objects, roots, b)
  {
    forall b | Reachable(objects, roots, b)
      ensures b in marked
    {
      var i :| 0 <= i < |roots| && roots[i] >= 0 && roots[i] as nat in objects && Reaches(objects, roots[i], b);
      var a: nat := roots[i];
      assert a < n;
      ClosedHoldsReached(objects, marked, a, b);
    }
  }

  /** What one more root reaches is reachable. */
  lemma RootReaches(objects: Heap, roots: seq<int>, i: nat, before: set<nat>, marked: set<nat>)
    requires i < |roots|
    requires forall b :: b in before ==> Reachable(objects, roots, b)
    requires forall b :: b in marked && b !in before ==> roots[i] >= 0 && Reaches(objects, roots[i], b)
    ensures forall b :: b in marked ==> Reachable(objects, roots, b)
  {
    forall b | b in marked && b !in before
      ensures Reachable(objects, roots, b)
    {
      var a: nat := roots[i];
      var p :| IsPath(objects, p) && p[0] == a && p[|p| - 1] == b;
      assert a in objects && Reaches(objects, a, b);
    }
  }

  lemma ClosedMore(objects: Heap, before: set<nat>, marked: set<nat>)
    requires ClosedExcept(objects, before, {}) && ClosedExcept(objects, marked, before) && before <= marked
    ensures ClosedExcept(objects, marked, {})
  {
  }

  lemma RefsOk(objects: Heap, n: nat, a: nat, i: nat)
    requires WellFormed(objects, n) && a in objects && i < |objects[a].refs|
    ensures RefOk(objects, n, objects[a].refs[i])
  {
  }

  /** What is newly reached from a child is reached from the object itself. */
  lemma ReachedBelow(objects: Heap, a: nat, r: int, now: set<nat>, marked: set<nat>)
    requires a in objects && r in objects[a].refs
    requires forall b :: b in marked && b !in now ==> r >= 0 && Reaches(objects, r, b)
    ensures forall b :: b in marked && b !in now ==> Reaches(objects, a, b)
  {
    forall b | b in marked && b !in now
      ensures Reaches(objects, a, b)
    {
      var p :| IsPath(objects, p) && p[0] == r && p[|p| - 1] == b;
      ReachesThrough(objects, a, r, b);
    }
  }

  /** With all its children marked, an object needs no exception any more. */
  lemma ChildrenMarked(objects: Heap, n: nat, a: nat, before: set<nat>, marked: set<nat>)
    requires WellFormed(objects, n) && a in objects && ClosedExcept(objects, marked, before + {a})
    requires forall j ::
               0 <= j < |objects[a].refs| && 0 <= objects[a].refs[j] < n ==> objects[a].refs[j] as nat in marked
    ensures ClosedExcept(objects, marked, before)
  {
    forall b: nat | Child(objects, a, b)
      ensures b in marked
    {
      var j :| 0 <= j < |objects[a].refs| && objects[a].refs[j] == b;
      assert b < n;
    }
  }

  lemma DisjointSizes(s: set<nat>, t: set<nat>)
    requires s !! t
    ensures |s + t| == |s| + |t|
  {
  }

  /** The slots of an object are all free or all taken. */
  lemma ObjectSlots(objects: Heap, n: nat, marked: set<nat>, a: nat)
    requires WellFormed(objects, n) && marked <= objects.Keys && a in objects
    ensures var k := objects[a].NSlots();
            k > 0 && a + k <= n && SlotsOf(objects, a) == Range(a, k) &&
            ((forall c: nat :: a <= c < a + k ==> c !in AllSlots(objects, marked)) <==> a !in marked) &&
            (a !in marked ==> SlotsOf(objects, a) !! AllSlots(objects, marked))
  {
    var k := objects[a].NSlots();
    RangeIs(a, k);
    if a in marked {
      InAllSlots(objects, marked, a);
      assert a in SlotsOf(objects, a);
      assert a in AllSlots(objects, marked);
    } else {
      OthersDisjoint(objects, n, marked, a);
    }
  }

  lemma NothingSet(bits: seq<bv8>, n: nat)
    requires n <= 8 * |bits| && forall i :: 0 <= i < |bits| ==> bits[i] == 0
    ensures Slots(bits, n) == {}
  {
    forall c: nat | c < n
      ensures !Bit(bits, c)
    {
    }
  }
}
