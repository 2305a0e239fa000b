/** Revoking a whole chain (memory_revoke): its pieces are duplicated one by one, from the revoked piece
  outwards, and the originals invalidated. */
module DZRevoke {
  import opened DZChains
  import opened DZRefs
  import opened DZSplices

  /** Every inner boundary of c belongs to domain d. */
  ghost predicate Owned(p: seq<DZ>, c: seq<nat>, d: int) {
    forall i :: 0 <= i < |c| - 1 ==> c[i] < |p| && p[c[i]].nextOwner == d
  }

  /** The duplicate of the piece at each position: memory_revoke goes from k to the head first. */
  ghost function Duplicates(free: seq<nat>, k: nat, n: nat): (ys: seq<nat>)
    requires k < n <= |free|
    ensures |ys| == n && forall i :: 0 <= i < n ==> ys[i] == free[if i <= k then k - i else i]
  {
    seq(n, i requires 0 <= i < n => free[if i <= k then k - i else i])
  }

  /** The duplicate of position i when the positions from lo to hi have been done. */
  ghost predicate Duplicate(p: seq<DZ>, q: seq<DZ>, c: seq<nat>, ys: seq<nat>, lo: int, hi: int, d: int, i: int) {
    0 <= lo <= i <= hi < |c| == |ys| && c[i] < |p| && ys[i] < |q| &&
    q[ys[i]] == DZ(1, 1, p[c[i]].mem, p[c[i]].size, if i > lo then ys[i - 1] else NIL, if i < hi then ys[i + 1]
                   else NIL,
                   if i > lo then d else 0, if i < hi then d else 0)
  }

  /** The piece at position i; the one at k is invalidated last of all. */
  ghost predicate Original(p: seq<DZ>, q: seq<DZ>, c: seq<nat>, lo: int, hi: int, k: int, i: int) {
    0 <= i < |c| && c[i] < |p| == |q| &&
    q[c[i]] == if lo <= i <= hi && i != k then p[c[i]].(valid := 0, mem := 0) else p[c[i]]
  }

  /** memory_revoke after the positions from lo to hi. */
  ghost predicate Duplicated(p: seq<DZ>, q: seq<DZ>, c: seq<nat>, ys: seq<nat>, lo: int, hi: int, k: int, d: int) {
    |q| == |p| && 0 <= lo <= k <= hi < |c| == |ys| &&
    (forall i :: lo <= i <= hi ==> Duplicate(p, q, c, ys, lo, hi, d, i)) &&
    (forall i :: 0 <= i < |c| ==> Original(p, q, c, lo, hi, k, i)) &&
    forall z: nat :: z < |p| && z !in c && z !in ys ==> q[z] == p[z]
  }

  /** Nodes of c and ys are all different. */
  ghost predicate Separate(p: seq<DZ>, c: seq<nat>, ys: seq<nat>) {
    |c| == |ys| && (forall i :: 0 <= i < |c| ==> c[i] < |p| && ys[i] < |p|) &&
    (forall i, j :: 0 <= i < j < |c| ==> c[i] != c[j]) && (forall i, j :: 0 <= i < j < |c| ==> ys[i] != ys[j]) &&
    forall i, j :: 0 <= i < |c| && 0 <= j < |c| ==> c[i] != ys[j]
  }

  lemma DuplicatesSeparate(s: Shape, c: seq<nat>, a: nat, b: nat, k: nat, n: nat, ys: seq<nat>)
    requires Structure(s) && c in s.chains && a <= k < b <= |c| && n == b - a <= |s.free| &&
             ys == Duplicates(s.free, k - a, n)
    ensures Separate(s.p, c[a..b], ys)
    ensures forall x: nat :: x in ys <==> x in s.free[..n]
    ensures forall x: nat :: x in ys ==> x < |s.p| && s.p[x].valid == 2 && x !in c
  {
    hide Structure;
    FreshNodes(s, c, n);
    ChainNodes(s, c);
    DuplicateMembers(s.free, k - a, n);
    forall i | 0 <= i < |c|
      ensures c[i] in c
    {
    }
  }

  lemma AllSeparate(s: Shape, c: seq<nat>, k: nat, ys: seq<nat>)
    requires Structure(s) && c in s.chains && k < |c| <= |s.free| && ys == Duplicates(s.free, k, |c|)
    ensures Separate(s.p, c, ys)
    ensures forall x: nat :: x in ys <==> x in s.free[..|c|]
    ensures forall x: nat :: x in ys ==> x < |s.p| && s.p[x].valid == 2 && x !in c
  {
    hide Structure, Separate;
    DuplicatesSeparate(s, c, 0, |c|, k, |c|, ys);
    assert c[0..|c|] == c;
  }

  lemma ChainNodes(s: Shape, c: seq<nat>)
    requires Structure(s) && c in s.chains
    ensures forall i :: 0 <= i < |c| ==> c[i] < |s.p|
    ensures forall i, j :: 0 <= i < j < |c| ==> c[i] != c[j]
  {
    assert ChainOk(s.p, c);
    hide Structure;
    forall i | 0 <= i < |c|
      ensures c[i] < |s.p|
    {
      assert NodeOk(s.p, c, i);
    }
  }

  lemma DuplicateMembers(free: seq<nat>, k: nat, n: nat)
    requires k < n <= |free|
    ensures forall x: nat :: x in Duplicates(free, k, n) <==> x in free[..n]
    ensures forall x: nat :: x in Duplicates(free, k, n) ==> exists j :: 0 <= j < n && free[j] == x
  {
    var ys := Duplicates(free, k, n);
    forall x: nat | x in free[..n]
      ensures x in ys
    {
      var j := Position(free[..n], x);
      assert ys[if j <= k then k - j else j] == x;
    }
    forall x: nat | x in ys
      ensures x in free[..n] && exists j :: 0 <= j < n && free[j] == x
    {
      var i := Position(ys, x);
      assert free[..n][if i <= k then k - i else i] == x;
    }
  }

  lemma StartDuplicated(p: seq<DZ>, q: seq<DZ>, c: seq<nat>, ys: seq<nat>, k: nat, d: int)
    requires Separate(p, c, ys) && k < |c|
    requires q == p[ys[k] := DZ(1, 1, p[c[k]].mem, p[c[k]].size, NIL, NIL, 0, 0)]
    ensures Duplicated(p, q, c, ys, k, k, k, d)
  {
    assert ys[k] in ys;
  }

  /** The originals after a step that widens [lo, hi] to [lo', hi'] by one position. */
  lemma StepOriginals(p: seq<DZ>, q: seq<DZ>, q': seq<DZ>, c: seq<nat>, ys: seq<nat>, lo: int, hi: int, lo': int,
                      hi': int, k: int, d: int)
    requires Duplicated(p, q, c, ys, lo, hi, k, d) && |q'| == |q| && 0 <= lo' <= lo && hi <= hi' < |c| &&
             lo - lo' + hi' - hi == 1
    requires var i := if lo' < lo then lo' else hi'; c[i] < |p| && q'[c[i]] == p[c[i]].(valid := 0, mem := 0)
    requires forall m :: 0 <= m < |c| && m != (if lo' < lo then lo' else hi') ==> c[m] < |q| && q'[c[m]] == q[c[m]]
    ensures forall i :: 0 <= i < |c| ==> Original(p, q', c, lo', hi', k, i)
  {
    hide Duplicate;
    forall i | 0 <= i < |c|
      ensures Original(p, q', c, lo', hi', k, i)
    {
      assert Original(p, q, c, lo, hi, k, i);
    }
  }

  /** Only the nodes x, y and z have changed. */
  ghost predicate StepOf(q: seq<DZ>, q': seq<DZ>, x: nat, y: nat, z: nat) {
    |q'| == |q| && x < |q| && y < |q| && z < |q| &&
    forall n: nat :: n < |q| && n != x && n != y && n != z ==> q'[n] == q[n]
  }

  /** One more duplicate before the first one. */
  lemma DuplicatedUp(p: seq<DZ>, q: seq<DZ>, q': seq<DZ>, c: seq<nat>, ys: seq<nat>, lo: int, hi: int, k: int, d: int)
    requires Separate(p, c, ys) && Duplicated(p, q, c, ys, lo, hi, k, d) && lo > 0
    requires StepOf(q, q', ys[lo - 1], ys[lo], c[lo - 1])
    requires q'[ys[lo - 1]] == DZ(1, 1, p[c[lo - 1]].mem, p[c[lo - 1]].size, NIL, ys[lo], 0, d)
    requires q'[ys[lo]] == q[ys[lo]].(prev := ys[lo - 1], prevOwner := d)
    requires q'[c[lo - 1]] == p[c[lo - 1]].(valid := 0, mem := 0)
    ensures Duplicated(p, q', c, ys, lo - 1, hi, k, d)
  {
    var up := lo - 1;
    StepFrame(p, q, q', c, ys, up, lo);
    hide Separate, StepOf;
    forall i | up <= i <= hi
      ensures Duplicate(p, q', c, ys, up, hi, d, i)
    {
      if i >= lo {
        assert Duplicate(p, q, c, ys, lo, hi, d, i);
      }
    }
    StepOriginals(p, q, q', c, ys, lo, hi, up, hi, k, d);
  }

  /** One more duplicate after the last one. */
  lemma DuplicatedDown(p: seq<DZ>, q: seq<DZ>, q': seq<DZ>, c: seq<nat>, ys: seq<nat>, lo: int, hi: int, k: int, d: int)
    requires Separate(p, c, ys) && Duplicated(p, q, c, ys, lo, hi, k, d) && hi < |c| - 1
    requires StepOf(q, q', ys[hi + 1], ys[hi], c[hi + 1])
    requires q'[ys[hi + 1]] == DZ(1, 1, p[c[hi + 1]].mem, p[c[hi + 1]].size, ys[hi], NIL, d, 0)
    requires q'[ys[hi]] == q[ys[hi]].(next := ys[hi + 1], nextOwner := d)
    requires q'[c[hi + 1]] == p[c[hi + 1]].(valid := 0, mem := 0)
    ensures Duplicated(p, q', c, ys, lo, hi + 1, k, d)
  {
    var down := hi + 1;
    StepFrame(p, q, q', c, ys, down, hi);
    hide Separate, StepOf;
    forall i | lo <= i <= down
      ensures Duplicate(p, q', c, ys, lo, down, d, i)
    {
      if i <= hi {
        assert Duplicate(p, q, c, ys, lo, hi, d, i);
      }
    }
    StepOriginals(p, q, q', c, ys, lo, hi, lo, down, k, d);
  }

  /** A step of either loop touches the new duplicate, the one before, and the original. */
  lemma StepFrame(p: seq<DZ>, q: seq<DZ>, q': seq<DZ>, c: seq<nat>, ys: seq<nat>, i: int, j: int)
    requires Separate(p, c, ys) && |q| == |q'| == |p| && 0 <= i < |c| && 0 <= j < |c| && i != j
    requires StepOf(q, q', ys[i], ys[j], c[i])
    ensures forall m :: 0 <= m < |c| ==> c[m] < |q| && ys[m] < |q|
    ensures forall m :: 0 <= m < |c| && m != i ==> q'[c[m]] == q[c[m]]
    ensures forall m :: 0 <= m < |c| && m != i && m != j ==> q'[ys[m]] == q[ys[m]]
    ensures forall z: nat :: z < |q| && z !in c && z !in ys ==> q'[z] == q[z]
  {
    assert c[i] in c && ys[i] in ys && ys[j] in ys;
  }

  /** The duplicate of position i in the end. */
  ghost predicate Renewed(p: seq<DZ>, q: seq<DZ>, c: seq<nat>, ys: seq<nat>, d: int, i: int) {
    Duplicate(p, q, c, ys, 0, |c| - 1, d, i)
  }

  /** What memory_revoke leaves: the same ranges and owners, position by position, on fresh valid
      pieces; every original dead. */
  ghost predicate Revoked(p: seq<DZ>, q: seq<DZ>, c: seq<nat>, ys: seq<nat>, d: int) {
    |q| == |p| && |ys| == |c| > 0 &&
    (forall i :: 0 <= i < |c| ==> Renewed(p, q, c, ys, d, i)) &&
    (forall i :: 0 <= i < |c| ==> c[i] < |p| && q[c[i]] == p[c[i]].(valid := 0, mem := 0)) &&
    forall z: nat :: z < |p| && z !in c && z !in ys ==> q[z] == p[z]
  }

  lemma AllDuplicated(p: seq<DZ>, q: seq<DZ>, q': seq<DZ>, c: seq<nat>, ys: seq<nat>, k: nat, d: int)
    requires Separate(p, c, ys) && k < |c| && Duplicated(p, q, c, ys, 0, |c| - 1, k, d)
    requires q' == q[c[k] := q[c[k]].(valid := 0, mem := 0)]
    ensures Revoked(p, q', c, ys, d)
  {
    assert c[k] in c;
    forall i | 0 <= i < |c|
      ensures Renewed(p, q', c, ys, d, i) && q'[c[i]] == p[c[i]].(valid := 0, mem := 0)
    {
      assert Duplicate(p, q, c, ys, 0, |c| - 1, d, i) && Original(p, q, c, 0, |c| - 1, k, i);
    }
  }

  /** Revoking is a splice that replaces the whole chain. */
  lemma RevokedReplaces(s: Shape, q: seq<DZ>, c: seq<nat>, ys: seq<nat>, d: int)
    requires Structure(s) && c in s.chains && Live(s.p, c) && Separate(s.p, c, ys) && Revoked(s.p, q, c, ys, d)
    ensures Replaced(s.p, q, c, ys)
  {
    hide Structure, Live, Separate, Renewed, Revoked;
    var n := |c|;
    forall i | 0 <= i < n
      ensures RunDead(s.p, q, c, i) && PieceAt(q, ys, i, NIL, NIL) && (i < n - 1 ==> Joint(q, ys, i))
    {
      RevokedAt(s, q, c, ys, d, i);
      if i < n - 1 {
        RevokedAt(s, q, c, ys, d, i + 1);
      }
    }
    RevokedEnds(s, q, c, ys, d);
  }

  lemma RevokedAt(s: Shape, q: seq<DZ>, c: seq<nat>, ys: seq<nat>, d: int, i: nat)
    requires Structure(s) && c in s.chains && Live(s.p, c) && Revoked(s.p, q, c, ys, d) && i < |c|
    ensures |ys| == |c| && |q| == |s.p| && RunDead(s.p, q, c, i) && PieceAt(q, ys, i, NIL, NIL)
    ensures c[i] < |s.p| && ys[i] < |q| && q[ys[i]].mem == s.p[c[i]].mem && q[ys[i]].size == s.p[c[i]].size &&
            Joint(s.p, c, i)
    ensures q[ys[i]].prevOwner == (if i > 0 then d else 0) && q[ys[i]].nextOwner == (if i < |c| - 1 then d else 0)
  {
    hide Structure, Live;
    LiveAt(s, c, i);
    assert Renewed(s.p, q, c, ys, d, i);
  }

  lemma RevokedEnds(s: Shape, q: seq<DZ>, c: seq<nat>, ys: seq<nat>, d: int)
    requires Structure(s) && c in s.chains && Live(s.p, c) && Separate(s.p, c, ys) && Revoked(s.p, q, c, ys, d)
    ensures |c| == |ys| > 0 && SameEnds(s.p, c, q, ys) && s.p[c[0]].prev == NIL && s.p[c[|c| - 1]].next == NIL
    ensures NeighboursLinked(s.p, q, NodesOf(c, ys), NIL, ys[0], NIL, ys[|ys| - 1])
  {
    hide Structure, Live, Separate, Revoked, NeighboursLinked, NodesOf;
    OuterOwners(s, c);
    RevokedFrame(s.p, q, c, ys, d);
    RevokedRange(s, q, c, ys, d, 0);
    RevokedRange(s, q, c, ys, d, |c| - 1);
  }

  lemma RevokedRange(s: Shape, q: seq<DZ>, c: seq<nat>, ys: seq<nat>, d: int, i: nat)
    requires Structure(s) && c in s.chains && Live(s.p, c) && Revoked(s.p, q, c, ys, d) && i < |c|
    ensures |ys| == |c| && |q| == |s.p| && c[i] < |s.p| && ys[i] < |q|
    ensures q[ys[i]].mem == s.p[c[i]].mem && q[ys[i]].size == s.p[c[i]].size
    ensures q[ys[i]].prevOwner == (if i > 0 then d else 0) && q[ys[i]].nextOwner == (if i < |c| - 1 then d else 0)
  {
    hide Structure, Live, Revoked;
    RevokedAt(s, q, c, ys, d, i);
  }

  /** The outer links and owners of a live chain. */
  lemma OuterOwners(s: Shape, c: seq<nat>)
    requires Structure(s) && c in s.chains && Live(s.p, c)
    ensures c != [] && c[0] < |s.p| && c[|c| - 1] < |s.p| && s.p[c[0]].prevOwner == 0 && s.p[c[|c| - 1]].nextOwner == 0
    ensures s.p[c[0]].prev == NIL && s.p[c[|c| - 1]].next == NIL
  {
    assert ChainOk(s.p, c) && NodeOk(s.p, c, 0) && NodeOk(s.p, c, |c| - 1);
  }

  lemma RevokedFrame(p: seq<DZ>, q: seq<DZ>, c: seq<nat>, ys: seq<nat>, d: int)
    requires Revoked(p, q, c, ys, d)
    ensures |c| == |ys| > 0 && NeighboursLinked(p, q, NodesOf(c, ys), NIL, ys[0], NIL, ys[|ys| - 1])
  {
    InNodesOf(c, ys);
    hide NodesOf, Renewed;
  }

  /** The whole manager after a revocation: structure, and counts that are owed to the fresh pieces. */
  lemma AfterRevoke(s: Shape, q: seq<DZ>, c: seq<nat>, ys: seq<nat>, d: int, owed: set<nat>)
    requires Structure(s) && c in s.chains && Live(s.p, c) && Held(s.p, c) && Revoked(s.p, q, c, ys, d)
    requires Separate(s.p, c, ys) && |ys| <= |s.free| && forall x: nat :: x in owed <==> x in ys
    requires forall x: nat :: x in ys <==> x in s.free[..|ys|]
    requires forall x: nat :: x in ys ==> x < |s.p| && s.p[x].valid == 2 && x !in c
    ensures Structure(Shape(q, s.free[|ys|..], s.chains - {c} + {ys, c}, s.blocks))
    ensures Reshaped(s.p, q, owed)
  {
    RevokedLength(s.p, q, c, ys, d);
    SeparateDistinct(s.p, c, ys);
    hide Structure, Live, Held, Revoked, Separate, Reshaped, Replaced, Distinct;
    RevokedReplaces(s, q, c, ys, d);
    assert c[0..|c|] == c && c[..0] + ys + c[|c|..] == ys;
    ReplacedKeepsStructure(s, q, c, 0, |c|, ys);
    LivePieces(s, c);
    ReplacedReshapes(s.p, q, c, ys, owed);
  }

  lemma LivePieces(s: Shape, c: seq<nat>)
    requires Live(s.p, c)
    ensures forall x: nat :: x in c ==> x < |s.p| && s.p[x].valid == 1
  {
    hide Live;
    forall x: nat | x in c
      ensures x < |s.p| && s.p[x].valid == 1
    {
      var i := Position(c, x);
      LivePiece(s, c, i);
    }
  }

  lemma RevokedLength(p: seq<DZ>, q: seq<DZ>, c: seq<nat>, ys: seq<nat>, d: int)
    requires Revoked(p, q, c, ys, d)
    ensures |ys| == |c| > 0 && |q| == |p|
  {
  }

  lemma SeparateDistinct(p: seq<DZ>, c: seq<nat>, ys: seq<nat>)
    requires Separate(p, c, ys)
    ensures Distinct(ys)
  {
  }

  /** The chain c uses no node of the free list. */
  ghost predicate OffList(free: seq<nat>, c: seq<nat>) {
    Distinct(free) && forall i :: 0 <= i < |free| ==> free[i] !in c
  }

  lemma ChainOffList(s: Shape, c: seq<nat>)
    requires Structure(s) && c in s.chains
    ensures OffList(s.free, c)
  {
    StructureParts(s);
    hide Structure;
    forall i | 0 <= i < |s.free|
      ensures s.free[i] !in c
    {
      assert s.free[i] in s.free;
    }
  }

  /** What the loops of memory_revoke read at position i of the run. */
  lemma OriginalAt(s: Shape, q: seq<DZ>, c: seq<nat>, ys: seq<nat>, a: nat, b: nat, lo: int, hi: int, k: int, d: int,
                   i: nat)
    requires Structure(s) && c in s.chains && Live(s.p, c) && a <= k < b <= |c| && a <= i < b
    requires Duplicated(s.p, q, c[a..b], ys, lo - a, hi - a, k - a, d)
    ensures c[i] < |s.p| == |q| && q[c[i]].prevOwner == s.p[c[i]].prevOwner && q[c[i]].nextOwner == s.p[c[i]].nextOwner
    ensures q[c[i]].prev == PrevIn(c, i) && q[c[i]].next == NextIn(c, i)
    ensures !(lo <= i <= hi) || i == k ==> q[c[i]] == s.p[c[i]]
    ensures lo <= i <= hi && i != k ==> q[c[i]].valid == 0
  {
    hide Structure, Live;
    LiveAt(s, c, i);
    assert Original(s.p, q, c[a..b], lo - a, hi - a, k - a, i - a);
  }

  /** The pieces outside the run are as they were. */
  lemma OutsideAt(s: Shape, q: seq<DZ>, c: seq<nat>, ys: seq<nat>, a: nat, b: nat, lo: int, hi: int, k: int, d: int,
                  i: nat)
    requires Structure(s) && c in s.chains && Live(s.p, c) && a <= k < b <= |c| && i < |c| && !(a <= i < b)
    requires Duplicated(s.p, q, c[a..b], ys, lo - a, hi - a, k - a, d) && forall x: nat :: x in ys ==> x !in c
    ensures c[i] < |s.p| == |q| && q[c[i]] == s.p[c[i]] && LiveNode(q[c[i]])
    ensures q[c[i]].prev == PrevIn(c, i) && q[c[i]].next == NextIn(c, i)
  {
    hide Structure, Live;
    LiveAt(s, c, i);
    forall m | 0 <= m < b - a
      ensures c[a..b][m] != c[i]
    {
      assert c[a..b][m] == c[a + m];
    }
    assert c[i] in c;
  }

  /** The dead piece x is still linked to the live piece y, unless it is the one at k, which is
      invalidated last. */
  predicate Torn(q: seq<DZ>, x: nat, y: nat, last: nat, back: bool) {
    x < |q| && y < |q| && y != last && q[y].valid == 1 && (x == last || q[x].valid == 0) &&
    y == if back then q[x].prev else q[x].next
  }

  lemma TornIsUnsound(q: seq<DZ>, x: nat, y: nat, last: nat, back: bool)
    requires Torn(q, x, y, last, back) && last < |q|
    ensures !Sound(q[last := q[last].(valid := 0, mem := 0)])
  {
    BrokenLink(q[last := q[last].(valid := 0, mem := 0)], x, y);
  }

  lemma TornEither(q: seq<DZ>, c: seq<nat>, a: nat, b: nat, x: nat)
    requires a < b <= |c| && x < |q| && (a > 0 || b < |c|)
    requires a > 0 ==> Torn(q, c[a], c[a - 1], x, true)
    requires b < |c| ==> Torn(q, c[b - 1], c[b], x, false)
    ensures !Sound(q[x := q[x].(valid := 0, mem := 0)])
  {
    hide Torn, Sound;
    if a > 0 {
      TornIsUnsound(q, c[a], c[a - 1], x, true);
    } else {
      TornIsUnsound(q, c[b - 1], c[b], x, false);
    }
  }

  lemma RunStartStep(p: seq<DZ>, c: seq<nat>, i: nat, d: int)
    requires i < |c| && c[i] < |p|
    ensures i > 0 && p[c[i]].prevOwner == d ==> RunStart(p, c, i, d) == RunStart(p, c, i - 1, d) <= i - 1
    ensures i == 0 || p[c[i]].prevOwner != d ==> RunStart(p, c, i, d) == i
  {
  }

  lemma RunEndStep(p: seq<DZ>, c: seq<nat>, i: nat, d: int)
    requires i < |c| && c[i] < |p|
    ensures i + 1 < |c| && p[c[i]].nextOwner == d ==> RunEnd(p, c, i, d) == RunEnd(p, c, i + 1, d) > i + 1
    ensures i + 1 == |c| || p[c[i]].nextOwner != d ==> RunEnd(p, c, i, d) == i + 1
  {
  }

  /** What the loops of memory_revoke work on: the run [a, b) around position k of the live chain c, and
      the free nodes ys for its duplicates. */
  ghost predicate RevokeRunOf(s: Shape, c: seq<nat>, k: nat, a: nat, b: nat, ys: seq<nat>, d: int) {
    Structure(s) && c in s.chains && Live(s.p, c) && a == RunStart(s.p, c, k, d) && b == RunEnd(s.p, c, k, d) &&
    a <= k < b <= |c| && b - a <= |s.free| && ys == Duplicates(s.free, k - a, b - a) &&
    OffList(s.free, c) && Separate(s.p, c[a..b], ys) && forall x: nat :: x in ys ==> x !in c
  }

  lemma RevokeRunParts(s: Shape, c: seq<nat>, k: nat, a: nat, b: nat, ys: seq<nat>, d: int)
    requires RevokeRunOf(s, c, k, a, b, ys, d)
    ensures a == RunStart(s.p, c, k, d) && b == RunEnd(s.p, c, k, d) && a <= k < b <= |c| && |ys| == b - a <= |s.free|
    ensures Structure(s) && c in s.chains && forall i :: 0 <= i < |c| ==> c[i] < |s.p|
  {
    ChainNodes(s, c);
  }

  /** The first duplicate has been created. */
  lemma RunStarted(s: Shape, q: seq<DZ>, c: seq<nat>, k: nat, a: nat, b: nat, ys: seq<nat>, d: int, y: nat, size: int,
                   mem: int)
    requires RevokeRunOf(s, c, k, a, b, ys, d) && y < |s.p| && y == s.free[0] && c[k] < |s.p|
    requires mem == s.p[c[k]].mem && size == s.p[c[k]].size && q == s.p[y := DZ(1, 1, mem, size, NIL, NIL, 0, 0)]
    ensures ys[k - a] == y && Duplicated(s.p, q, c[a..b], ys, k - a, k - a, k - a, d)
  {
    hide Structure, Live, OffList, RunStart, RunEnd, Duplicated, Separate;
    assert c[a..b][k - a] == c[k];
    StartDuplicated(s.p, q, c[a..b], ys, k - a, d);
  }

  /** From position k on the pieces lead to their successors, with their owners. */
  ghost predicate LinksFrom(p: seq<DZ>, q: seq<DZ>, c: seq<nat>, k: nat) {
    |q| == |p| && forall i :: k <= i < |c| ==>
      c[i] < |p| && q[c[i]].next == NextIn(c, i) && q[c[i]].nextOwner == p[c[i]].nextOwner
  }

  /** The pieces behind k and up to hi have been invalidated since o, the others are unchanged. */
  ghost predicate PiecesTo(o: seq<DZ>, q: seq<DZ>, c: seq<nat>, k: int, hi: int) {
    |q| == |o| &&
    forall i ::
      0 <= i < |c| ==> c[i] < |o| && q[c[i]] == if k < i <= hi then o[c[i]].(valid := 0, mem := 0) else o[c[i]]
  }

  lemma NothingYet(o: seq<DZ>, c: seq<nat>, k: nat)
    requires forall i :: 0 <= i < |c| ==> c[i] < |o|
    ensures PiecesTo(o, o, c, k, k)
  {
  }

  lemma NextInChain(c: seq<nat>, i: nat)
    requires i < |c|
    ensures NextIn(c, i) == if i + 1 < |c| then c[i + 1] else NIL
  {
  }

  lemma PiecesNext(s: Shape, o: seq<DZ>, q: seq<DZ>, q': seq<DZ>, c: seq<nat>, k: int, hi: int, made: nat, last: nat)
    requires Structure(s) && c in s.chains && PiecesTo(o, q, c, k, hi) && -1 <= k <= hi < |c| - 1 && made !in c &&
             last !in c
    requires StepOf(q, q', made, last, c[hi + 1]) && q'[c[hi + 1]] == q[c[hi + 1]].(valid := 0, mem := 0)
    ensures PiecesTo(o, q', c, k, hi + 1)
  {
    ChainNodes(s, c);
    hide Structure;
    forall i | 0 <= i < |c|
      ensures c[i] in c
    {
    }
  }

  /** What the second loop reads at position i. */
  lemma FollowAt(p: seq<DZ>, o: seq<DZ>, q: seq<DZ>, c: seq<nat>, k: nat, hi: int, i: nat)
    requires LinksFrom(p, o, c, k) && PiecesTo(o, q, c, k, hi) && k <= i < |c|
    ensures c[i] < |q| == |p| && q[c[i]].next == NextIn(c, i) && q[c[i]].nextOwner == p[c[i]].nextOwner
    ensures i + 1 < |c| ==> c[i + 1] < |q|
  {
  }

  /** Nothing has changed at the ends of the run while the pieces behind k were invalidated. */
  lemma PiecesEnd(p: seq<DZ>, o: seq<DZ>, q: seq<DZ>, c: seq<nat>, a: nat, k: nat, b: nat)
    requires a <= k < b <= |c| && PiecesTo(o, q, c, k, b - 1) && LinksFrom(p, o, c, k)
    ensures c[b - 1] < |q| && q[c[b - 1]].next == NextIn(c, b - 1) && (b - 1 == k || q[c[b - 1]].valid == 0)
    ensures b < |c| ==> c[b] < |q| && q[c[b]] == o[c[b]]
    ensures a > 0 && Torn(o, c[a], c[a - 1], c[k], true) ==> Torn(q, c[a], c[a - 1], c[k], true)
  {
  }

  /** The pool after the first loop, seen from the chain. */
  lemma RunFollows(s: Shape, q: seq<DZ>, c: seq<nat>, k: nat, a: nat, b: nat, ys: seq<nat>, d: int)
    requires Structure(s) && c in s.chains && Live(s.p, c) && a <= k < b <= |c| && forall x: nat :: x in ys ==> x !in c
    requires Duplicated(s.p, q, c[a..b], ys, 0, k - a, k - a, d)
    ensures LinksFrom(s.p, q, c, k) && c[a] < |q| && q[c[a]].prev == PrevIn(c, a) && (a < k ==> q[c[a]].valid == 0)
    ensures a > 0 ==> c[a - 1] < |q| && q[c[a - 1]].valid == 1
    ensures b < |c| ==> c[b] < |q| && q[c[b]].valid == 1
    ensures forall i, j :: 0 <= i < j < |c| ==> c[i] != c[j]
  {
    ChainNodes(s, c);
    hide Structure, Live, Duplicated;
    forall i | k <= i < |c|
      ensures c[i] < |s.p| == |q| && q[c[i]].next == NextIn(c, i) && q[c[i]].nextOwner == s.p[c[i]].nextOwner
    {
      if i < b {
        OriginalAt(s, q, c, ys, a, b, a, k, k, d, i);
      } else {
        OutsideAt(s, q, c, ys, a, b, a, k, k, d, i);
      }
    }
    OriginalAt(s, q, c, ys, a, b, a, k, k, d, a);
    if a > 0 {
      OutsideAt(s, q, c, ys, a, b, a, k, k, d, a - 1);
    }
    if b < |c| {
      OutsideAt(s, q, c, ys, a, b, a, k, k, d, b);
    }
  }

  /** The nodes that a step from position i to position j deals with. */
  lemma NodesApart(free: seq<nat>, p: seq<DZ>, c: seq<nat>, a: nat, b: nat, ys: seq<nat>, k: nat, i: nat, j: nat,
                   n: nat)
    requires OffList(free, c) && a <= k < b <= |c| && b - a <= |free| && Separate(p, c[a..b], ys) &&
             ys == Duplicates(free, k - a, b - a)
    requires a <= i < b && a <= j < b
    requires (j == i - 1 && i <= k && n == k - i + 1) || (j == i + 1 && i >= k && n == i - a + 1)
    ensures n < b - a && ys[j - a] == free[n] && c[a..b][j - a] == c[j] && c[a..b][i - a] == c[i]
    ensures ys[i - a] < |p| && c[j] < |p| && c[j] != ys[i - a] && Distinct(free) && ys[i - a] !in c && ys[j - a] !in c
    ensures forall m :: n <= m < |free| ==> free[m] != c[j] && free[m] != ys[i - a]
  {
    var e := if i <= k then k - i else i - a;
    assert ys[i - a] == free[e] && e < n;
    assert c[a..b][j - a] == c[j] && c[j] in c;
    hide Separate;
    assert c[j] < |p| && ys[i - a] < |p| by {
      SeparateNodes(p, c[a..b], ys, j - a, i - a);
    }
  }

  lemma SeparateNodes(p: seq<DZ>, c: seq<nat>, ys: seq<nat>, i: nat, j: nat)
    requires Separate(p, c, ys) && i < |c| && j < |c|
    ensures c[i] < |p| && ys[j] < |p| && c[i] != ys[j]
  {
  }

  lemma OffListAt(free: seq<nat>, c: seq<nat>, i: nat)
    requires OffList(free, c) && i < |c|
    ensures forall m :: 0 <= m < |free| ==> free[m] != c[i]
  {
    assert c[i] in c;
  }

  /** The rest of the free list, after changes elsewhere. */
  lemma RestLinked(q: seq<DZ>, q': seq<DZ>, free: seq<nat>, n: nat)
    requires |q'| == |q| && forall i :: n <= i < |free| ==> FreeLink(q, free, i)
    requires forall i :: n <= i < |free| && free[i] < |q| ==> q'[free[i]].next == q[free[i]].next
    ensures forall i :: n <= i < |free| ==> FreeLink(q', free, i)
  {
    forall i | n <= i < |free|
      ensures FreeLink(q', free, i)
    {
      assert FreeLink(q, free, i);
    }
  }

  /** The caller owns every boundary of the chain exactly if its run is the whole chain. */
  lemma OwnedIsWhole(p: seq<DZ>, c: seq<nat>, k: nat, d: int)
    requires Live(p, c) && k < |c|
    ensures Owned(p, c, d) <==> RunStart(p, c, k, d) == 0 && RunEnd(p, c, k, d) == |c|
  {
    RunMaximal(p, c, k, d);
    var a := RunStart(p, c, k, d);
    if a > 0 {
      assert Joint(p, c, a - 1);
    }
  }

  /** After a revocation one fresh piece gets a proxy, the others keep a count that nobody holds. */
  lemma RevokeRefs(p: seq<DZ>, q: seq<DZ>, proxies: map<nat, MemoryProxy>, next: nat, pinned: set<nat>, owed: set<nat>,
                   y: nat)
    requires RefsOk(p, proxies, next, pinned) && Reshaped(p, q, owed) && y in owed && y < |q|
    ensures RefsOk(q, proxies[next := MemoryProxy(q[y].size, q[y].mem, y)], next + 1, pinned + (owed - {y}))
  {
    assert forall x :: x in pinned ==> x !in owed;
    hide RefsOk, Owing, Reshaped;
    ReshapedOwes(p, q, proxies, next, pinned, owed);
    OwedProxy(q, proxies, next, pinned, owed, y);
    PayProxy(q, proxies, next, pinned, owed, MemoryProxy(q[y].size, q[y].mem, y));
    PinOwed(q, proxies[next := MemoryProxy(q[y].size, q[y].mem, y)], next + 1, pinned, owed - {y});
  }

  lemma RevokeDone(s: Shape, q: seq<DZ>, c: seq<nat>, k: nat, d: int, owed: set<nat>, proxies: map<nat, MemoryProxy>,
                   next: nat, pinned: set<nat>)
    requires Structure(s) && c in s.chains && Live(s.p, c) && Held(s.p, c) && k < |c| <= |s.free| &&
             RefsOk(s.p, proxies, next, pinned)
    requires Revoked(s.p, q, c, Duplicates(s.free, k, |c|), d)
    requires forall x: nat :: x in owed <==> x in Duplicates(s.free, k, |c|)
    ensures var ys := Duplicates(s.free, k, |c|); var y := ys[k];
            Structure(Shape(q, s.free[|c|..], s.chains + {ys}, s.blocks)) && y < |q| &&
            RefsOk(q, proxies[next := MemoryProxy(q[y].size, q[y].mem, y)], next + 1, pinned + (owed - {y}))
  {
    hide Structure, RefsOk, Live, Held, Revoked, Separate, Reshaped;
    var ys := Duplicates(s.free, k, |c|);
    AllSeparate(s, c, k, ys);
    RevokedLength(s.p, q, c, ys, d);
    AfterRevoke(s, q, c, ys, d, owed);
    assert s.chains - {c} + {ys, c} == s.chains + {ys};
    assert ys[k] in ys;
    RevokeRefs(s.p, q, proxies, next, pinned, owed, ys[k]);
  }

  /** The end of memory_revoke: the revoked piece itself is invalidated last. */
  lemma RevokeEnds(s: Shape, q: seq<DZ>, q': seq<DZ>, c: seq<nat>, ys: seq<nat>, k: nat, d: int, owed: set<nat>,
                   proxies: map<nat, MemoryProxy>, next: nat, pinned: set<nat>)
    requires Structure(s) && c in s.chains && Live(s.p, c) && Held(s.p, c) && k < |c| <= |s.free| &&
             RefsOk(s.p, proxies, next, pinned)
    requires ys == Duplicates(s.free, k, |c|) && (forall x: nat :: x in owed <==> x in ys)
    requires Duplicated(s.p, q, c, ys, 0, |c| - 1, k, d) && c[k] < |q| == |s.p|
    requires q' == q[c[k] := q[c[k]].(valid := 0, mem := 0)]
    ensures Revoked(s.p, q', c, ys, d) && Structure(Shape(q', s.free[|c|..], s.chains + {ys}, s.blocks))
    ensures ys[k] < |q| && ys[k] != c[k] && q'[ys[k]] == q[ys[k]]
    ensures RefsOk(q', proxies[next := MemoryProxy(q[ys[k]].size, q[ys[k]].mem, ys[k])], next + 1,
                   pinned + (owed - {ys[k]}))
  {
    hide Structure, RefsOk, Live, Held, Revoked, Separate, Duplicated;
    AllSeparate(s, c, k, ys);
    assert ys[k] in ys && c[k] in c;
    AllDuplicated(s.p, q, q', c, ys, k, d);
    RevokeDone(s, q', c, k, d, owed, proxies, next, pinned);
  }
}
