/** The invariant of the Cheney scan and the steps that keep it (gc_move_common.c, gc_move.c).

  Objects of the old semispace are white until they are copied; copies below the scan position are
  black, the slots above it still hold references into the old semispace. */
module ScanInvariant {
  import opened HeapLayout
  import opened HeapGraph

  /** What a collection starts from. */
  datatype Before = Before(cs: ClassTable, m: seq<int>, sp: Spaces, starts: seq<nat>, top: int, roots: seq<int>) {
    ghost predicate Valid() {
      WfHeap(cs, m, sp, starts, top) && WfRoots(m, sp, starts, roots)
    }
    ghost predicate Reaches(q: nat) { Reachable(cs, m, starts, roots, q) }
  }

  /** What has been copied so far: order[i] was copied to tos[i], and top2 is the end of the last copy. */
  datatype Progress = Progress(fwd: map<nat, nat>, order: seq<nat>, tos: seq<nat>, top2: int)

  /** Words of the objects that are not in fwd. */
  ghost function Unforwarded(b: Before, starts: seq<nat>, fwd: map<nat, nat>): nat {
    if starts == [] then 0
    else
      var p := starts[|starts| - 1];
      Unforwarded(b, starts[..|starts| - 1], fwd) + if p in fwd then 0 else SizeAt(b.cs, b.m, p)
  }

  lemma {:induction false} UnforwardedStep(b: Before, starts: seq<nat>, lo: int, hi: int, fwd: map<nat, nat>, f: nat,
                                           t: nat)
    requires Tiling(b.cs, b.m, starts, lo, hi) && f !in fwd
    ensures Unforwarded(b, starts, fwd[f := t]) == Unforwarded(b, starts, fwd) - if f in starts then SizeAt(b.cs, b.m,
                                                                                                            f) else 0
  {
    if starts != [] {
      var n := |starts| - 1;
      var front := starts[..n];
      UnforwardedStep(b, front, lo, starts[n], fwd, f, t);
      if f == starts[n] && f in front {
        TilingMember(b.cs, b.m, front, lo, starts[n], f);
        assert false;
      }
      assert f in starts <==> f == starts[n] || f in front;
    }
  }

  lemma {:induction false} UnforwardedNothing(b: Before, starts: seq<nat>, lo: int, hi: int)
    requires Tiling(b.cs, b.m, starts, lo, hi)
    ensures Unforwarded(b, starts, map[]) == hi - lo
  {
    if starts != [] {
      UnforwardedNothing(b, starts[..|starts| - 1], lo, starts[|starts| - 1]);
    }
  }

  /** The reference needs no copy any more: it does not point at a white object. */
  predicate Settled(b: Before, fwd: map<nat, nat>, r: int) {
    r == RefOf(PtrOf(r)) && PtrOf(r) in b.starts ==> PtrOf(r) in fwd
  }

  /** t is the copy of f; its reference slots below the scan position s are forwarded and settled. */
  ghost predicate CopyOf(b: Before, m: seq<int>, fwd: map<nat, nat>, s: int, f: nat, t: nat) {
    At(m, t) == At(b.m, f) &&
    forall k :: 1 <= k < KeptAt(b.cs, b.m, f) ==>
      if t + k < s && RefSlotAt(b.cs, b.m, f, k)
      then Field(m, t, k) == Image(fwd, Field(b.m, f, k)) && Settled(b, fwd, Field(b.m, f, k))
      else Field(m, t, k) == Field(b.m, f, k)
  }

  /** Outside to-space only the flag words of forwarded objects have changed. */
  ghost predicate OldSpaceIntact(b: Before, m: seq<int>, fwd: map<nat, nat>) {
    |m| == |b.m| &&
    (forall a: nat {:trigger At(m, a)} :: !(b.sp.other <= a < b.sp.other + b.sp.size) && a !in fwd ==>
     At(m, a) == At(b.m, a)) &&
    forall f: nat :: f in fwd ==> f in b.starts && At(m, f) == Tag(RefOf(fwd[f]))
  }

  /** order and tos list the copies, each once. */
  ghost predicate Listed(b: Before, g: Progress) {
    |g.order| == |g.tos| &&
    (forall i :: 0 <= i < |g.order| ==> g.order[i] in g.fwd && g.fwd[g.order[i]] == g.tos[i]) &&
    (forall f: nat :: f in g.fwd ==> f in g.order)
  }

  ghost predicate Inv(b: Before, m: seq<int>, g: Progress, s: int) {
    b.Valid() &&
    OldSpaceIntact(b, m, g.fwd) &&
    Listed(b, g) &&
    Tiling(b.cs, m, g.tos, b.sp.other, g.top2) &&
    g.top2 - b.sp.other + Unforwarded(b, b.starts, g.fwd) == b.top - b.sp.lo &&
    (forall i :: 0 <= i < |g.order| ==> CopyOf(b, m, g.fwd, s, g.order[i], g.tos[i])) &&
    forall f: nat :: f in g.fwd ==> b.Reaches(f)
  }

  /** To-space suffices: the copies take no more words than from-space had in use. */
  lemma NoOverflow(b: Before, m: seq<int>, g: Progress, s: int)
    requires Inv(b, m, g, s)
    ensures b.sp.other <= g.top2 <= b.sp.other + (b.top - b.sp.lo) <= b.sp.other + b.sp.size
  {
    if g.tos != [] {
      TilingPrefix(b.cs, m, g.tos, b.sp.other, g.top2, 0);
    }
  }

  /** ... even for the next object to be copied. */
  lemma RoomForCopy(b: Before, m: seq<int>, g: Progress, s: int, f: nat)
    requires Inv(b, m, g, s) && f in b.starts && f !in g.fwd
    ensures b.sp.other <= g.top2 && g.top2 + SizeAt(b.cs, b.m, f) <= b.sp.other + (b.top - b.sp.lo)
  {
    NoOverflow(b, m, g, s);
    UnforwardedStep(b, b.starts, b.sp.lo, b.top, g.fwd, f, 0);
  }

  lemma InvStart(b: Before)
    requires b.Valid()
    ensures Inv(b, b.m, Progress(map[], [], [], b.sp.other), b.sp.other)
  {
    UnforwardedNothing(b, b.starts, b.sp.lo, b.top);
  }

  // ----- copying one object ----------------------------------------------------------------

  /** What a shallow copy of the object at f to dst leaves in memory, in terms of the memory before:
      the flag word and the kept words, and nothing outside the copy and the overrun behind it. */
  ghost predicate CopyEffect(cs: ClassTable, m: seq<int>, m': seq<int>, f: nat, dst: int, kind: int) {
    var size := ObjSize(cs, kind, m, f);
    |m'| == |m| &&
    At(m', dst) == kind &&
    (forall k :: 1 <= k < KeptLen(cs, kind, m, f) ==> Field(m', dst, k) == Field(m, f, k)) &&
    forall a: int {:trigger At(m', a)} :: !(dst <= a < dst + size + OBJECT_OVERRUN) ==> At(m', a) == At(m, a)
  }

  function Extend(b: Before, g: Progress, f: nat): Progress
    requires g.top2 >= 0
  {
    Progress(g.fwd[f := g.top2], g.order + [f], g.tos + [g.top2], g.top2 + SizeAt(b.cs, b.m, f))
  }

  lemma OriginalPlace(b: Before, m: seq<int>, g: Progress, s: int, f: nat)
    requires Inv(b, m, g, s) && f in b.starts
    ensures b.sp.Valid(|m|) && |m| == |b.m| && WfObject(b.cs, b.m, f)
    ensures b.sp.lo <= f && f + SizeAt(b.cs, b.m, f) <= b.top <= b.sp.lo + b.sp.size
  {
    TilingMember(b.cs, b.m, b.starts, b.sp.lo, b.top, f);
  }

  /** The white object f looks in memory as it did before the collection. */
  lemma WhiteIntact(b: Before, m: seq<int>, g: Progress, s: int, f: nat)
    requires Inv(b, m, g, s) && f in b.starts && f !in g.fwd
    ensures At(m, f) == At(b.m, f)
    ensures forall k :: 0 <= k < SizeAt(b.cs, b.m, f) ==> Field(m, f, k) == Field(b.m, f, k)
    ensures SameHeader(At(b.m, f), b.m, f, m, f)
  {
    OriginalPlace(b, m, g, s, f);
    WhiteFlags(b, m, g, s, f);
    hide Inv, WfObject, SameHeader;
    forall k | 0 <= k < SizeAt(b.cs, b.m, f)
      ensures Field(m, f, k) == Field(b.m, f, k)
    {
      if k > 0 {
        InteriorIntact(b, m, g, s, f, k);
      }
    }
    IntactHeader(b.cs, b.m, m, f);
  }

  lemma IntactHeader(cs: ClassTable, m: seq<int>, m': seq<int>, f: nat)
    requires WfObject(cs, m, f) && forall k :: 0 <= k < SizeAt(cs, m, f) ==> Field(m', f, k) == Field(m, f, k)
    ensures SameHeader(At(m, f), m, f, m', f)
  {
    assert Field(m', f, 1) == Field(m, f, 1);
    assert At(m, f) == OBJFLAGS_ARRAY ==> Field(m', f, 2) == Field(m, f, 2) && Field(m', f, 3) == Field(m, f, 3);
  }

  lemma WhiteFlags(b: Before, m: seq<int>, g: Progress, s: int, f: nat)
    requires Inv(b, m, g, s) && f in b.starts && f !in g.fwd
    ensures At(m, f) == At(b.m, f)
  {
    OriginalPlace(b, m, g, s, f);
  }

  lemma SettledImage(b: Before, fwd: map<nat, nat>, r: int, f: nat, t: nat)
    requires Settled(b, fwd, r) && f in b.starts && f !in fwd
    ensures Settled(b, fwd[f := t], r) && Image(fwd[f := t], r) == Image(fwd, r)
  {
  }

  /** m' differs from m only at and behind top2 and in the flag word of f. */
  ghost predicate CopyStepped(b: Before, m: seq<int>, m': seq<int>, g: Progress, f: nat) {
    var kind := At(b.m, f);
    |m'| == |m| &&
    At(m', g.top2) == kind && At(m', f) == Tag(RefOf(g.top2)) &&
    (forall k :: 1 <= k < KeptLen(b.cs, kind, b.m, f) ==> Field(m', g.top2, k) == Field(b.m, f, k)) &&
    forall a: int {:trigger At(m', a)} ::
      !(g.top2 <= a < b.sp.other + b.sp.size) && a != f ==> At(m', a) == At(m, a)
  }

  /** A shallow copy followed by the forwarding pointer, seen from the invariant. */
  lemma CopyIsStep(b: Before, m: seq<int>, m1: seq<int>, m': seq<int>, g: Progress, s: int, f: nat)
    requires Inv(b, m, g, s) && f in b.starts && f !in g.fwd
    requires b.top + OBJECT_OVERRUN <= b.sp.lo + b.sp.size
    requires CopyEffect(b.cs, m, m1, f, g.top2, At(m, f))
    requires f < |m1| && m' == m1[f := Tag(RefOf(g.top2))]
    ensures CopyStepped(b, m, m', g, f)
  {
    hide Inv;
    WhiteIntact(b, m, g, s, f);
    RoomForCopy(b, m, g, s, f);
    OriginalPlace(b, m, g, s, f);
    var kind := At(b.m, f);
    SameHeaderSameShape(b.cs, kind, b.m, f, m, f);
    forall k | 1 <= k < KeptLen(b.cs, kind, b.m, f)
      ensures Field(m', g.top2, k) == Field(b.m, f, k)
    {
      assert Field(m1, g.top2, k) == Field(m, f, k);
      assert Field(m, f, k) == Field(b.m, f, k);
    }
    forall a: int | !(g.top2 <= a < b.sp.other + b.sp.size) && a != f
      ensures At(m', a) == At(m, a)
    {
      assert At(m1, a) == At(m, a);
    }
  }

  lemma StepOldSpace(b: Before, m: seq<int>, m': seq<int>, g: Progress, s: int, f: nat)
    requires Inv(b, m, g, s) && f in b.starts && f !in g.fwd && g.top2 >= 0
    requires CopyStepped(b, m, m', g, f)
    ensures OldSpaceIntact(b, m', g.fwd[f := g.top2])
  {
    NoOverflow(b, m, g, s);
    var fwd' := g.fwd[f := g.top2];
    forall a: nat | !(b.sp.other <= a < b.sp.other + b.sp.size) && a !in fwd'
      ensures At(m', a) == At(b.m, a)
    {
      assert At(m, a) == At(b.m, a);
    }
    forall x: nat | x in fwd'
      ensures x in b.starts && At(m', x) == Tag(RefOf(fwd'[x]))
    {
      TilingMember(b.cs, b.m, b.starts, b.sp.lo, b.top, x);
    }
  }

  lemma StepOldCopy(b: Before, m: seq<int>, m': seq<int>, g: Progress, s: int, f: nat, i: nat)
    requires Inv(b, m, g, s) && f in b.starts && f !in g.fwd && g.top2 >= 0
    requires CopyStepped(b, m, m', g, f) && i < |g.order|
    ensures CopyOf(b, m', g.fwd[f := g.top2], s, g.order[i], g.tos[i])
    ensures At(m', g.tos[i]) == At(m, g.tos[i])
    ensures SameHeader(At(m, g.tos[i]), m, g.tos[i], m', g.tos[i])
  {
    hide Tiling, Unforwarded;
    NoOverflow(b, m, g, s);
    var x, t := g.order[i], g.tos[i];
    assert CopyOf(b, m, g.fwd, s, x, t);
    TilingPrefix(b.cs, m, g.tos, b.sp.other, g.top2, i);
    TilingMember(b.cs, b.m, b.starts, b.sp.lo, b.top, f);
    CopySameShape(b, m, g.fwd, s, x, t);
    forall k | 0 <= k < KeptAt(b.cs, b.m, x)
      ensures Field(m', t, k) == Field(m, t, k)
    {
      assert At(m', t + k) == At(m, t + k);
    }
    assert Field(m', t, 0) == Field(m, t, 0);
    assert Field(m', t, 1) == Field(m, t, 1);
    assert At(m, t) == OBJFLAGS_ARRAY ==> Field(m', t, 2) == Field(m, t, 2) && Field(m', t, 3) == Field(m, t, 3);
    forall k | 1 <= k < KeptAt(b.cs, b.m, x) && t + k < s && RefSlotAt(b.cs, b.m, x, k)
      ensures Field(m', t, k) == Image(g.fwd[f := g.top2], Field(b.m, x, k))
      ensures Settled(b, g.fwd[f := g.top2], Field(b.m, x, k))
    {
      assert Field(m', t, k) == Field(m, t, k);
      SettledImage(b, g.fwd, Field(b.m, x, k), f, g.top2);
    }
  }

  /** A copy has the kind, the size and the reference slots of its original. */
  lemma CopySameShape(b: Before, m: seq<int>, fwd: map<nat, nat>, s: int, f: nat, t: nat)
    requires CopyOf(b, m, fwd, s, f, t)
    ensures At(m, t) == At(b.m, f)
    ensures SameHeader(At(b.m, f), b.m, f, m, t)
    ensures SizeAt(b.cs, m, t) == SizeAt(b.cs, b.m, f) && KeptAt(b.cs, m, t) == KeptAt(b.cs, b.m, f)
    ensures forall k :: RefSlotAt(b.cs, m, t, k) <==> RefSlotAt(b.cs, b.m, f, k)
  {
    var kind := At(b.m, f);
    assert !RefSlotAt(b.cs, b.m, f, 1) && Field(m, t, 1) == Field(b.m, f, 1);
    if kind == OBJFLAGS_ARRAY {
      assert !RefSlotAt(b.cs, b.m, f, 2) && Field(m, t, 2) == Field(b.m, f, 2);
      assert !RefSlotAt(b.cs, b.m, f, 3) && Field(m, t, 3) == Field(b.m, f, 3);
    }
    SameHeaderSameShape(b.cs, kind, b.m, f, m, t);
    forall k
      ensures RefSlotAt(b.cs, m, t, k) <==> RefSlotAt(b.cs, b.m, f, k)
    {
      assert IsRefSlot(b.cs, kind, b.m, f, k) <==> IsRefSlot(b.cs, kind, m, t, k);
    }
  }

  lemma StepNewCopy(b: Before, m: seq<int>, m': seq<int>, g: Progress, s: int, f: nat)
    requires Inv(b, m, g, s) && f in b.starts && f !in g.fwd && 0 <= g.top2 && s <= g.top2
    requires CopyStepped(b, m, m', g, f)
    ensures CopyOf(b, m', g.fwd[f := g.top2], s, f, g.top2)
    ensures WfObject(b.cs, m', g.top2)
  {
    TilingMember(b.cs, b.m, b.starts, b.sp.lo, b.top, f);
    CopySameShape(b, m', g.fwd[f := g.top2], s, f, g.top2);
  }

  lemma StepTiling(b: Before, m: seq<int>, m': seq<int>, g: Progress, s: int, f: nat)
    requires Inv(b, m, g, s) && f in b.starts && f !in g.fwd && 0 <= g.top2 && s <= g.top2
    requires CopyStepped(b, m, m', g, f)
    ensures Tiling(b.cs, m', Extend(b, g, f).tos, b.sp.other, Extend(b, g, f).top2)
  {
    forall p | p in g.tos
      ensures At(m, p) == At(m', p) && SameHeader(At(m, p), m, p, m', p)
    {
      var i :| 0 <= i < |g.tos| && g.tos[i] == p;
      StepOldCopy(b, m, m', g, s, f, i);
    }
    TilingFrame(b.cs, m, m', g.tos, b.sp.other, g.top2);
    StepNewCopy(b, m, m', g, s, f);
    CopySameShape(b, m', g.fwd[f := g.top2], s, f, g.top2);
    TilingAppend(b.cs, m', g.tos, b.sp.other, g.top2);
  }

  /** Copying a reachable white object keeps the invariant. */
  lemma CopyKeepsInv(b: Before, m: seq<int>, m': seq<int>, g: Progress, s: int, f: nat)
    requires Inv(b, m, g, s) && f in b.starts && f !in g.fwd && 0 <= g.top2 && s <= g.top2
    requires CopyStepped(b, m, m', g, f) && b.Reaches(f)
    ensures Inv(b, m', Extend(b, g, f), s)
  {
    hide OldSpaceIntact, CopyOf, Tiling, Unforwarded, CopyStepped;
    var g' := Extend(b, g, f);
    StepOldSpace(b, m, m', g, s, f);
    StepTiling(b, m, m', g, s, f);
    UnforwardedStep(b, b.starts, b.sp.lo, b.top, g.fwd, f, g.top2);
    forall i | 0 <= i < |g'.order|
      ensures CopyOf(b, m', g'.fwd, s, g'.order[i], g'.tos[i])
    {
      if i < |g.order| {
        StepOldCopy(b, m, m', g, s, f, i);
      } else {
        StepNewCopy(b, m, m', g, s, f);
      }
    }
    assert Listed(b, g') by {
      assert g'.order[|g.order|] == f;
      assert forall x :: x in g.order ==> x in g'.order;
    }
  }

  // ----- scanning -----------------------------------------------------------------------------

  /** m' is m with the slot k of the copy i forwarded, where slot k is the first one at or behind the
      scan position s, and the object it refers to has been copied. */
  ghost predicate SlotStepped(b: Before, m: seq<int>, m': seq<int>, g: Progress, s: int, i: nat, k: nat) {
    i < |g.order| && i < |g.tos| &&
    var f, t := g.order[i], g.tos[i];
    t <= s <= t + k < |m| &&
    RefSlotAt(b.cs, b.m, f, k) && Settled(b, g.fwd, Field(b.m, f, k)) &&
    (forall x :: s <= t + x < t + k ==> !RefSlotAt(b.cs, b.m, f, x)) &&
    m' == m[t + k := Image(g.fwd, Field(b.m, f, k))]
  }

  /** The slot lies in its own copy and in no other. */
  lemma SlotPlace(b: Before, m: seq<int>, g: Progress, s: int, i: nat, j: nat, k: nat)
    requires Inv(b, m, g, s) && i < |g.order| && j < |g.order| && RefSlotAt(b.cs, b.m, g.order[i], k)
    ensures b.sp.other <= g.tos[i] + k < g.top2
    ensures j != i ==> !(g.tos[j] <= g.tos[i] + k < g.tos[j] + SizeAt(b.cs, b.m, g.order[j]))
    ensures i < j ==> g.tos[i] + SizeAt(b.cs, b.m, g.order[i]) <= g.tos[j]
    ensures j < i ==> g.tos[j] + SizeAt(b.cs, b.m, g.order[j]) <= g.tos[i]
  {
    RefSlotIsKept(b.cs, At(b.m, g.order[i]), b.m, g.order[i], k);
    CopyOrder(b, m, g, s, i, j);
  }

  lemma CopyOrder(b: Before, m: seq<int>, g: Progress, s: int, i: nat, j: nat)
    requires Inv(b, m, g, s) && i < |g.order| && j < |g.order|
    ensures b.sp.other <= g.tos[i] && g.tos[i] + SizeAt(b.cs, b.m, g.order[i]) <= g.top2
    ensures i < j ==> g.tos[i] + SizeAt(b.cs, b.m, g.order[i]) <= g.tos[j]
    ensures j < i ==> g.tos[j] + SizeAt(b.cs, b.m, g.order[j]) <= g.tos[i]
  {
    CopySameShape(b, m, g.fwd, s, g.order[i], g.tos[i]);
    CopySameShape(b, m, g.fwd, s, g.order[j], g.tos[j]);
    TilingPrefix(b.cs, m, g.tos, b.sp.other, g.top2, i);
    if i < j {
      TilingOrder(b.cs, m, g.tos, b.sp.other, g.top2, i, j);
    } else if j < i {
      TilingOrder(b.cs, m, g.tos, b.sp.other, g.top2, j, i);
    }
  }

  lemma SlotKeepsCopy(b: Before, m: seq<int>, m': seq<int>, g: Progress, s: int, i: nat, k: nat, j: nat)
    requires Inv(b, m, g, s) && SlotStepped(b, m, m', g, s, i, k) && j < |g.order|
    ensures CopyOf(b, m', g.fwd, g.tos[i] + k + 1, g.order[j], g.tos[j])
  {
    hide OldSpaceIntact, Tiling, Unforwarded;
    var y, u := g.order[j], g.tos[j];
    SlotPlace(b, m, g, s, i, j, k);
    var s' := g.tos[i] + k + 1;
    forall x | 1 <= x < KeptAt(b.cs, b.m, y)
      ensures if u + x < s' && RefSlotAt(b.cs, b.m, y, x)
              then Field(m', u, x) == Image(g.fwd, Field(b.m, y, x)) && Settled(b, g.fwd, Field(b.m, y, x))
              else Field(m', u, x) == Field(b.m, y, x)
    {
      if j == i && x == k {
      } else {
        assert Field(m', u, x) == Field(m, u, x);
        assert u + x < s' && RefSlotAt(b.cs, b.m, y, x) ==> u + x < s;
      }
    }
  }

  lemma SlotKeepsTiling(b: Before, m: seq<int>, m': seq<int>, g: Progress, s: int, i: nat, k: nat)
    requires Inv(b, m, g, s) && SlotStepped(b, m, m', g, s, i, k)
    ensures Tiling(b.cs, m', g.tos, b.sp.other, g.top2)
  {
    var s' := g.tos[i] + k + 1;
    forall p | p in g.tos
      ensures At(m, p) == At(m', p) && SameHeader(At(m, p), m, p, m', p)
    {
      var j :| 0 <= j < |g.tos| && g.tos[j] == p;
      var y := g.order[j];
      SlotKeepsCopy(b, m, m', g, s, i, k, j);
      CopySameShape(b, m, g.fwd, s, y, p);
      CopySameShape(b, m', g.fwd, s', y, p);
    }
    TilingFrame(b.cs, m, m', g.tos, b.sp.other, g.top2);
  }

  /** Forwarding a slot moves the scan position behind it. */
  lemma SlotKeepsInv(b: Before, m: seq<int>, m': seq<int>, g: Progress, s: int, i: nat, k: nat)
    requires Inv(b, m, g, s) && SlotStepped(b, m, m', g, s, i, k)
    ensures Inv(b, m', g, g.tos[i] + k + 1)
  {
    var s' := g.tos[i] + k + 1;
    SlotPlace(b, m, g, s, i, i, k);
    NoOverflow(b, m, g, s);
    forall j | 0 <= j < |g.order|
      ensures CopyOf(b, m', g.fwd, s', g.order[j], g.tos[j])
    {
      SlotKeepsCopy(b, m, m', g, s, i, k, j);
    }
    SlotKeepsTiling(b, m, m', g, s, i, k);
    SlotKeepsOldSpace(b, m, m', g, s, i, k);
  }

  lemma SlotKeepsOldSpace(b: Before, m: seq<int>, m': seq<int>, g: Progress, s: int, i: nat, k: nat)
    requires Inv(b, m, g, s) && SlotStepped(b, m, m', g, s, i, k)
    ensures OldSpaceIntact(b, m', g.fwd)
  {
    SlotPlace(b, m, g, s, i, i, k);
    NoOverflow(b, m, g, s);
    forall a: nat | !(b.sp.other <= a < b.sp.other + b.sp.size)
      ensures At(m', a) == At(m, a)
    {
    }
    forall x: nat | x in g.fwd
      ensures At(m', x) == Tag(RefOf(g.fwd[x]))
    {
      TilingMember(b.cs, b.m, b.starts, b.sp.lo, b.top, x);
    }
  }

  /** The scan position may skip words that are no reference slots. */
  lemma SkipKeepsInv(b: Before, m: seq<int>, g: Progress, s: int, i: nat, s': int)
    requires Inv(b, m, g, s) && i < |g.order|
    requires g.tos[i] <= s <= s' <= g.tos[i] + SizeAt(b.cs, b.m, g.order[i])
    requires forall k :: s <= g.tos[i] + k < s' ==> !RefSlotAt(b.cs, b.m, g.order[i], k)
    ensures Inv(b, m, g, s')
  {
    forall j | 0 <= j < |g.order|
      ensures CopyOf(b, m, g.fwd, s', g.order[j], g.tos[j])
    {
      CopyOrder(b, m, g, s, i, j);
    }
  }

  /** A slot the scan has not reached holds what it held before the collection, and its target is
      reachable. */
  lemma PendingSlot(b: Before, m: seq<int>, g: Progress, s: int, i: nat, k: nat)
    requires Inv(b, m, g, s) && i < |g.order| && RefSlotAt(b.cs, b.m, g.order[i], k)
    requires s <= g.tos[i] + k
    ensures b.sp.other <= g.tos[i] + k < g.top2
    ensures Field(m, g.tos[i], k) == Field(b.m, g.order[i], k)
    ensures WfRef(b.m, b.sp, b.starts, Field(b.m, g.order[i], k))
    ensures Wanted(b, Field(b.m, g.order[i], k))
  {
    var f := g.order[i];
    var r := Field(b.m, f, k);
    RefSlotIsKept(b.cs, At(b.m, f), b.m, f, k);
    SlotPlace(b, m, g, s, i, i, k);
    assert CopyOf(b, m, g.fwd, s, f, g.tos[i]);
    assert f in b.starts && b.Reaches(f);
    assert WfRef(b.m, b.sp, b.starts, r);
    if r > LAST_STRANGE_REF && PtrOf(r) in b.starts {
      EdgeReachable(b.cs, b.m, b.starts, b.roots, f, k, PtrOf(r));
    }
  }

  lemma ClassesWf(b: Before, m: seq<int>, g: Progress, s: int)
    requires Inv(b, m, g, s)
    ensures WfClasses(b.cs) && Grows(b, g, g)
  {
  }

  /** If r points into the heap, its target is reachable. */
  ghost predicate Wanted(b: Before, r: int) {
    r > LAST_STRANGE_REF && PtrOf(r) in b.starts ==> b.Reaches(PtrOf(r))
  }

  /** Copying only adds to what has been copied. */
  ghost predicate Grows(b: Before, g: Progress, g': Progress) {
    (forall x: nat :: x in g.fwd ==> x in g'.fwd && g'.fwd[x] == g.fwd[x]) &&
    (forall x: nat :: x in g'.fwd ==> x in b.starts) &&
    |g.order| == |g.tos| && |g'.order| == |g'.tos| &&
    g.order <= g'.order && g.tos <= g'.tos && g.top2 <= g'.top2
  }

  lemma GrowsKeepsImage(b: Before, g: Progress, g': Progress, r: int)
    requires Grows(b, g, g') && Settled(b, g.fwd, r)
    ensures Settled(b, g'.fwd, r) && Image(g'.fwd, r) == Image(g.fwd, r)
  {
  }

  // ----- the end of the scan ------------------------------------------------------------------

  /** roots' are the roots after they have been forwarded. */
  ghost predicate RootsMoved(b: Before, g: Progress, roots': seq<int>) {
    |roots'| == |b.roots| &&
    forall i :: 0 <= i < |b.roots| ==> roots'[i] == Image(g.fwd, b.roots[i]) && Settled(b, g.fwd, b.roots[i])
  }

  /** A reference that points at no object of the heap is not forwarded ... */
  lemma OtherRefStays(b: Before, m: seq<int>, g: Progress, s: int, r: int)
    requires Inv(b, m, g, s) && WfRef(b.m, b.sp, b.starts, r)
    requires r <= LAST_STRANGE_REF || PtrOf(r) !in b.starts
    ensures Image(g.fwd, r) == r
  {
    if 0 <= PtrOf(r) && PtrOf(r) in g.fwd {
      TilingMember(b.cs, b.m, b.starts, b.sp.lo, b.top, PtrOf(r));
    }
  }

  /** ... and still points at an external object. */
  lemma ExternalStays(b: Before, m: seq<int>, g: Progress, s: int, p: nat)
    requires Inv(b, m, g, s) && External(b.m, b.sp, p)
    ensures External(m, b.sp, p) && m[p] == b.m[p]
  {
    if p in g.fwd {
      TilingMember(b.cs, b.m, b.starts, b.sp.lo, b.top, p);
    }
    assert At(m, p) == At(b.m, p);
  }

  /** A reference stays well formed when it is forwarded, with the semispaces flipped. */
  lemma ImageWf(b: Before, m: seq<int>, g: Progress, s: int, r: int)
    requires Inv(b, m, g, s) && WfRef(b.m, b.sp, b.starts, r) && Settled(b, g.fwd, r)
    ensures WfRef(m, b.sp.Flip(), g.tos, Image(g.fwd, r))
  {
    if r > LAST_STRANGE_REF && PtrOf(r) in b.starts {
      CopiedRefWf(b, m, g, s, PtrOf(r));
    } else {
      OtherRefStays(b, m, g, s, r);
      if r > LAST_STRANGE_REF {
        ExternalStays(b, m, g, s, PtrOf(r));
      }
    }
  }

  lemma CopiedRefWf(b: Before, m: seq<int>, g: Progress, s: int, q: nat)
    requires Inv(b, m, g, s) && q in g.fwd
    ensures Image(g.fwd, RefOf(q)) == RefOf(g.fwd[q]) && WfRef(m, b.sp.Flip(), g.tos, RefOf(g.fwd[q]))
  {
    var i :| 0 <= i < |g.order| && g.order[i] == q;
    assert g.tos[i] == g.fwd[q];
    assert PtrOf(RefOf(q)) == q && PtrOf(RefOf(g.fwd[q])) == g.fwd[q];
  }

  /** When the scan position has reached the top, everything reachable has been copied. */
  lemma ScannedReachable(b: Before, m: seq<int>, g: Progress, roots': seq<int>, q: nat)
    requires Inv(b, m, g, g.top2) && RootsMoved(b, g, roots') && b.Reaches(q)
    ensures q in g.fwd
  {
    var path :| PathTo(b.cs, b.m, b.starts, b.roots, path, q);
    forall x: nat | x in b.starts && RefOf(x) in b.roots
      ensures x in g.fwd.Keys
    {
      var i :| 0 <= i < |b.roots| && b.roots[i] == RefOf(x);
      assert Settled(b, g.fwd, b.roots[i]);
    }
    forall x: nat, y: nat | x in g.fwd.Keys && y in b.starts && Edge(b.cs, b.m, x, y)
      ensures y in g.fwd.Keys
    {
      ScannedEdge(b, m, g, x, y);
    }
    ClosedHoldsReachable(b.cs, b.m, b.starts, b.roots, g.fwd.Keys, path, q);
  }

  lemma ScannedEdge(b: Before, m: seq<int>, g: Progress, x: nat, y: nat)
    requires Inv(b, m, g, g.top2) && x in g.fwd && y in b.starts && Edge(b.cs, b.m, x, y)
    ensures y in g.fwd
  {
    var i :| 0 <= i < |g.order| && g.order[i] == x;
    var k :| RefSlotAt(b.cs, b.m, x, k) && Field(b.m, x, k) == RefOf(y);
    ScannedSlot(b, m, g, i, k);
    assert PtrOf(RefOf(y)) == y;
  }

  lemma ScannedSlot(b: Before, m: seq<int>, g: Progress, i: nat, k: int)
    requires Inv(b, m, g, g.top2) && i < |g.order| && RefSlotAt(b.cs, b.m, g.order[i], k)
    ensures Settled(b, g.fwd, Field(b.m, g.order[i], k))
    ensures Field(m, g.tos[i], k) == Image(g.fwd, Field(b.m, g.order[i], k))
  {
    RefSlotIsKept(b.cs, At(b.m, g.order[i]), b.m, g.order[i], k);
    SlotPlace(b, m, g, g.top2, i, i, k);
    assert CopyOf(b, m, g.fwd, g.top2, g.order[i], g.tos[i]);
  }

  lemma ScannedMoved(b: Before, m: seq<int>, g: Progress, i: nat)
    requires Inv(b, m, g, g.top2) && i < |g.order|
    ensures Moved(b.cs, b.m, g.order[i], m, g.tos[i], g.fwd)
  {
    var f, t := g.order[i], g.tos[i];
    assert CopyOf(b, m, g.fwd, g.top2, f, t);
    CopySameShape(b, m, g.fwd, g.top2, f, t);
    forall k | 1 <= k < KeptAt(b.cs, b.m, f) && RefSlotAt(b.cs, b.m, f, k)
      ensures Field(m, t, k) == Image(g.fwd, Field(b.m, f, k))
    {
      ScannedSlot(b, m, g, i, k);
    }
  }

  lemma ForwardingInjective(b: Before, m: seq<int>, g: Progress, s: int, p: nat, q: nat)
    requires Inv(b, m, g, s) && p in g.fwd && q in g.fwd && g.fwd[p] == g.fwd[q]
    ensures p == q
  {
    var i :| 0 <= i < |g.order| && g.order[i] == p;
    var j :| 0 <= j < |g.order| && g.order[j] == q;
    CopyOrder(b, m, g, s, i, j);
  }

  /** The collected heap is well formed in the flipped semispaces. */
  lemma ScanEndsWf(b: Before, m: seq<int>, g: Progress, roots': seq<int>)
    requires Inv(b, m, g, g.top2) && RootsMoved(b, g, roots')
    ensures WfHeap(b.cs, m, b.sp.Flip(), g.tos, g.top2)
    ensures WfRoots(m, b.sp.Flip(), g.tos, roots')
  {
    NoOverflow(b, m, g, g.top2);
    forall t, k | t in g.tos && RefSlotAt(b.cs, m, t, k)
      ensures WfRef(m, b.sp.Flip(), g.tos, Field(m, t, k))
    {
      var i :| 0 <= i < |g.tos| && g.tos[i] == t;
      CopySameShape(b, m, g.fwd, g.top2, g.order[i], t);
      ScannedSlot(b, m, g, i, k);
      ImageWf(b, m, g, g.top2, Field(b.m, g.order[i], k));
    }
    forall r | r in roots'
      ensures WfRef(m, b.sp.Flip(), g.tos, r)
    {
      var i :| 0 <= i < |roots'| && roots'[i] == r;
      ImageWf(b, m, g, g.top2, b.roots[i]);
    }
  }

  /** The object graph has been preserved. */
  lemma ScanEndsPreserved(b: Before, m: seq<int>, g: Progress, roots': seq<int>)
    requires Inv(b, m, g, g.top2) && RootsMoved(b, g, roots')
    ensures GraphPreserved(b.cs, b.m, b.starts, b.roots, m, g.tos, roots', g.fwd)
  {
    forall q: nat
      ensures q in g.fwd <==> b.Reaches(q)
    {
      if b.Reaches(q) {
        ScannedReachable(b, m, g, roots', q);
      }
    }
    forall q: nat | q in g.fwd
      ensures g.fwd[q] in g.tos && Moved(b.cs, b.m, q, m, g.fwd[q], g.fwd)
    {
      var i :| 0 <= i < |g.order| && g.order[i] == q;
      ScannedMoved(b, m, g, i);
    }
    forall t: nat | t in g.tos
      ensures exists q: nat :: q in g.fwd && g.fwd[q] == t
    {
      var i :| 0 <= i < |g.tos| && g.tos[i] == t;
      assert g.order[i] in g.fwd && g.fwd[g.order[i]] == t;
    }
    forall p: nat, q: nat | p in g.fwd && q in g.fwd && g.fwd[p] == g.fwd[q]
      ensures p == q
    {
      ForwardingInjective(b, m, g, g.top2, p, q);
    }
  }

  // ----- the walk over the old heap after the copying -------------------------------------------

  /** The flags the heap walk works with: those of the copy if the object has been forwarded. */
  function WalkFlags(m: seq<int>, p: int): int {
    if IsForward(At(m, p)) then FlagsOf(At(m, PtrOf(ForwardPtr(At(m, p))))) else FlagsOf(At(m, p))
  }

  /** Only flag words have been overwritten, and the forwarding pointer leads to the copy's flags: the
      walk finds every old object with its true kind and size, and knows which ones are live. */
  lemma OldHeapParses(b: Before, m: seq<int>, g: Progress, s: int, p: nat)
    requires Inv(b, m, g, s) && p in b.starts
    ensures WalkFlags(m, p) == At(b.m, p)
    ensures ObjSize(b.cs, WalkFlags(m, p), m, p) == SizeAt(b.cs, b.m, p)
    ensures IsForward(At(m, p)) <==> p in g.fwd
    ensures forall k :: 1 <= k < SizeAt(b.cs, b.m, p) ==> Field(m, p, k) == Field(b.m, p, k)
  {
    TilingMember(b.cs, b.m, b.starts, b.sp.lo, b.top, p);
    ForwardingRoundTrip(p, At(b.m, p));
    forall k | 1 <= k < SizeAt(b.cs, b.m, p)
      ensures Field(m, p, k) == Field(b.m, p, k)
    {
      InteriorIntact(b, m, g, s, p, k);
    }
    assert Field(m, p, 1) == Field(b.m, p, 1);
    assert At(b.m, p) == OBJFLAGS_ARRAY ==> Field(m, p, 2) == Field(b.m, p, 2) && Field(m, p, 3) == Field(b.m, p, 3);
    SameHeaderSameShape(b.cs, At(b.m, p), b.m, p, m, p);
    if p in g.fwd {
      var i :| 0 <= i < |g.order| && g.order[i] == p;
      assert CopyOf(b, m, g.fwd, s, p, g.tos[i]);
      ForwardingRoundTrip(g.tos[i], At(b.m, p));
    } else {
      assert At(m, p) == At(b.m, p);
    }
  }

  lemma InteriorIntact(b: Before, m: seq<int>, g: Progress, s: int, p: nat, k: nat)
    requires Inv(b, m, g, s) && p in b.starts && 1 <= k < SizeAt(b.cs, b.m, p)
    ensures Field(m, p, k) == Field(b.m, p, k)
  {
    TilingMember(b.cs, b.m, b.starts, b.sp.lo, b.top, p);
    var a: nat := p + k;
    if a in g.fwd {
      TilingMember(b.cs, b.m, b.starts, b.sp.lo, b.top, a);
      TilingDisjoint(b.cs, b.m, b.starts, b.sp.lo, b.top, p, a);
    }
    assert At(m, a) == At(b.m, a);
  }
}
