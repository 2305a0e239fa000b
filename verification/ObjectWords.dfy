/** The words of an object, kind by kind, as gc.h and the class descriptors lay them out: which are in use,
  and which of them are references. */
module ObjectWords {
  import opened HeapLayout
  import opened HeapGraph

  /** Bit k of a byte. */
  predicate BitSet(b: nat, k: nat)
    requires k < 8
  {
    b / [1, 2, 4, 8, 16, 32, 64, 128][k] % 2 == 1
  }

  /** The object at p uses its word k: the vtable; all data words of an object; class, length and all elements
      of an array; the fields of the other kinds, but for the dummies of a memory proxy, the listMode of an
      atomic variable and the rounding word of a service. */
  predicate HasWord(cs: ClassTable, m: seq<int>, p: int, k: int) {
    var f := At(m, p);
    HeapKind(f) &&
    (k == 1 ||
     (f == OBJFLAGS_OBJECT && Field(m, p, 1) in cs.instances &&
      2 <= k < 2 + cs.instances[Field(m, p, 1)].instanceSize) ||
     (f == OBJFLAGS_ARRAY && (2 <= k <= 3 || 4 <= k < 4 + Field(m, p, 3))) ||
     (f == OBJFLAGS_PORTAL && 2 <= k <= 4) || (f == OBJFLAGS_MEMORY && 2 <= k <= 4) ||
     (f == OBJFLAGS_CAS && k == 2) || (f == OBJFLAGS_DOMAIN && 2 <= k <= 3) ||
     (f == OBJFLAGS_SERVICE && 2 <= k <= 15) || (f == OBJFLAGS_ATOMVAR && 2 <= k <= 3))
  }

  /** Word k of the object at p is a reference: bit i % 8 of byte i / 8 of the reference map tells it for
      data word i of an object; besides, the elements of an array of references, obj and proxy of a service
      and the value of an atomic variable. */
  predicate IsReference(cs: ClassTable, m: seq<int>, p: int, k: int) {
    var f := At(m, p);
    (f == OBJFLAGS_OBJECT && Field(m, p, 1) in cs.instances &&
     var c, i := cs.instances[Field(m, p, 1)], k - 2;
     0 <= i < c.instanceSize && i / 8 < |c.refMap| && BitSet(c.refMap[i / 8], i % 8)) ||
    (f == OBJFLAGS_ARRAY && Field(m, p, 2) in cs.arrays && cs.arrays[Field(m, p, 2)] == RefElem &&
     4 <= k < 4 + Field(m, p, 3)) ||
    (f == OBJFLAGS_SERVICE && 9 <= k <= 10) ||
    (f == OBJFLAGS_ATOMVAR && k == 2)
  }

  /** Halving k times brings bit k to the lowest place. */
  lemma ShiftedIsBit(b: nat, k: nat)
    requires k < 8
    ensures Shifted(b, k) % 2 == 1 <==> BitSet(b, k)
  {
    if k == 0 {
      assert Shifted(b, 0) == b;
    } else {
      ShiftedIs(b, k);
    }
  }

  lemma {:induction false} ShiftedIs(b: nat, k: nat)
    requires k < 8
    ensures Shifted(b, k) == b / [1, 2, 4, 8, 16, 32, 64, 128][k]
  {
    if k > 0 {
      ShiftedIs(b, k - 1);
    }
  }

  /** The collector visits exactly the reference words. */
  lemma VisitsReferences(cs: ClassTable, m: seq<int>, p: int, k: int)
    ensures RefSlotAt(cs, m, p, k) <==> IsReference(cs, m, p, k)
  {
    if At(m, p) == OBJFLAGS_OBJECT && 0 <= k - 2 < ClassOf(cs, m, p).instanceSize {
      var c, i := ClassOf(cs, m, p), k - 2;
      if i / 8 < |c.refMap| {
        ShiftedIsBit(c.refMap[i / 8], i % 8);
      }
    }
  }

  /** The shallow copies carry over exactly the words in use. */
  lemma KeepsWords(cs: ClassTable, m: seq<int>, p: int, k: int)
    requires WfObject(cs, m, p)
    ensures HasWord(cs, m, p, k) <==>
              1 <= k < KeptAt(cs, m, p) && (At(m, p) == OBJFLAGS_OBJECT ==> k < KeptAt(cs, m, p) - 1)
  {
  }

  /** The reference words by number: data word 8 * i + k of an object exactly if bit k of byte i of the
      reference map is set, every element of an array of references, words 9 and 10 of a service, word 2 of
      an atomic variable, and no other word. */
  lemma ReferenceWords(cs: ClassTable, m: seq<int>, p: int)
    ensures At(m, p) == OBJFLAGS_OBJECT && Field(m, p, 1) in cs.instances ==>
              var c := cs.instances[Field(m, p, 1)];
              (forall i: nat, k: nat :: i < |c.refMap| && k < 8 ==>
                 (RefSlotAt(cs, m, p, 2 + 8 * i + k) <==> 8 * i + k < c.instanceSize && BitSet(c.refMap[i], k))) &&
              forall k :: RefSlotAt(cs, m, p, k) ==> 2 <= k < 2 + c.instanceSize && k < 2 + 8 * |c.refMap|
    ensures At(m, p) == OBJFLAGS_ARRAY && Field(m, p, 2) in cs.arrays ==>
              forall k :: RefSlotAt(cs, m, p, k) <==>
                cs.arrays[Field(m, p, 2)] == RefElem && 4 <= k < 4 + Field(m, p, 3)
    ensures At(m, p) == OBJFLAGS_SERVICE ==> forall k :: RefSlotAt(cs, m, p, k) <==> k == 9 || k == 10
    ensures At(m, p) == OBJFLAGS_ATOMVAR ==> forall k :: RefSlotAt(cs, m, p, k) <==> k == 2
    ensures At(m, p) in {OBJFLAGS_PORTAL, OBJFLAGS_MEMORY, OBJFLAGS_CAS, OBJFLAGS_DOMAIN} ==>
              forall k :: !RefSlotAt(cs, m, p, k)
  {
    if At(m, p) == OBJFLAGS_OBJECT && Field(m, p, 1) in cs.instances {
      var c := cs.instances[Field(m, p, 1)];
      forall i: nat, k: nat | i < |c.refMap| && k < 8
        ensures RefSlotAt(cs, m, p, 2 + 8 * i + k) <==> 8 * i + k < c.instanceSize && BitSet(c.refMap[i], k)
      {
        ShiftedIsBit(c.refMap[i], k);
        assert (8 * i + k) / 8 == i && (8 * i + k) % 8 == k;
      }
    }
  }

  /** The words behind the object at starts[i] belong to the next one: where that begins, kind by kind. */
  lemma NextObject(cs: ClassTable, m: seq<int>, starts: seq<nat>, lo: int, hi: int, i: nat)
    requires Tiling(cs, m, starts, lo, hi) && i < |starts|
    ensures var p, next := starts[i], if i + 1 < |starts| then starts[i + 1] else hi;
            (At(m, p) == OBJFLAGS_OBJECT ==>
               Field(m, p, 1) in cs.instances && next == p + 3 + cs.instances[Field(m, p, 1)].instanceSize) &&
            (At(m, p) == OBJFLAGS_ARRAY ==> Field(m, p, 3) >= 0 && next == p + 4 + Field(m, p, 3)) &&
            (At(m, p) == OBJFLAGS_PORTAL ==> next == p + 5) && (At(m, p) == OBJFLAGS_MEMORY ==> next == p + 7) &&
            (At(m, p) == OBJFLAGS_SERVICE ==> next == p + 17) && (At(m, p) == OBJFLAGS_ATOMVAR ==> next == p + 5) &&
            (At(m, p) == OBJFLAGS_CAS ==> next == p + 3) && (At(m, p) == OBJFLAGS_DOMAIN ==> next == p + 4)
  {
    TilingPrefix(cs, m, starts, lo, hi, i);
  }

  /** The words that decide the kind and the shape of an object decide its words and references. */
  lemma SameHeaderSameWords(cs: ClassTable, m: seq<int>, p: int, m': seq<int>, p': int)
    requires At(m', p') == At(m, p) && SameHeader(At(m, p), m, p, m', p')
    ensures forall k :: HasWord(cs, m', p', k) <==> HasWord(cs, m, p, k)
    ensures forall k :: IsReference(cs, m', p', k) <==> IsReference(cs, m, p, k)
  {
  }
}
