/** Laws that relate several operations of the shared memory manager (zero_Memory_org.c). */
module DZLaws {
  import opened DZChains
  import opened DZRefs
  import opened DZRevoke
  import opened DZSplices

  /** What a piece covers and who owns its boundaries. */
  datatype Range = Range(mem: int, size: int, prevOwner: int, nextOwner: int)

  function RangeOf(d: DZ): Range {
    Range(d.mem, d.size, d.prevOwner, d.nextOwner)
  }

  /** The nodes of xs and the neighbours of x are all different, null neighbours aside. */
  ghost predicate AllApart(p: seq<DZ>, x: nat, xs: seq<nat>) {
    x < |p| && Distinct(xs) && x !in xs && p[x].prev != x && p[x].next != x &&
    (p[x].prev >= 0 ==> p[x].prev as nat !in xs) && (p[x].next >= 0 ==> p[x].next as nat !in xs) &&
    p[x].prev >= NIL && p[x].next >= NIL && (p[x].prev != NIL ==> p[x].prev != p[x].next)
  }

  /** A split in three undone by two joins: the piece w stands where x stood, with its range, its
      neighbours and its outer owners, and apart from dead nodes nothing else has changed. */
  lemma SplitJoinJoinRestores(p0: seq<DZ>, p1: seq<DZ>, p2: seq<DZ>, p3: seq<DZ>, x: nat, offset: int, len: int,
                              domain: int, y0: nat, y1: nat, y2: nat, z: nat, w: nat)
    requires x < |p0| && p0[x].valid == 1 && AllApart(p0, x, [y0, y1, y2, z, w])
    requires Split3Pieces(p0, p1, x, offset, len, domain, y0, y1, y2)
    requires JoinPieces(p1, p2, y0, y1, z) && JoinPieces(p2, p3, z, y2, w)
    ensures w < |p3| == |p0| && p3[w] == p0[x].(refcount := 1)
    ensures NeighboursLinked(p0, p3, {x, y0, y1, y2, z, w}, p0[x].prev, w, p0[x].next, w)
    ensures p3[x].valid == 0 && p3[y0].valid == 0 && p3[y1].valid == 0 && p3[y2].valid == 0 && p3[z].valid == 0
  {
    var xs := [y0, y1, y2, z, w];
    assert xs[0] == y0 && xs[1] == y1 && xs[2] == y2 && xs[3] == z && xs[4] == w;
    assert y0 in xs && y1 in xs && y2 in xs && z in xs && w in xs;
  }

  /** The chain after a split in three and two joins: one piece stands at the old position. */
  lemma SplitJoinJoinPosition(c: seq<nat>, i: nat, y0: nat, y1: nat, y2: nat, z: nat, w: nat)
    requires i < |c|
    ensures var c1 := c[..i] + [y0, y1, y2] + c[i + 1..];
            var c2 := c1[..i] + [z] + c1[i + 2..];
            c2[..i] + [w] + c2[i + 2..] == c[i := w]
  {
    var c1 := c[..i] + [y0, y1, y2] + c[i + 1..];
    assert c1[..i] == c[..i] && c1[i + 2..] == [y2] + c[i + 1..];
    var c2 := c1[..i] + [z] + c1[i + 2..];
    assert c2[..i] == c[..i] && c2[i + 2..] == c[i + 1..];
  }

  /** The same three ranges, owners and outer neighbours come from split3 and from split2 twice. */
  lemma Split3IsSplit2Twice(p: seq<DZ>, q: seq<DZ>, p1: seq<DZ>, p2: seq<DZ>, x: nat, offset: int, len: int,
                            domain: int, y0: nat, y1: nat, y2: nat, a: nat, b: nat, u: nat, v: nat)
    requires x < |p| && AllApart(p, x, [a, b, u, v])
    requires Split3Pieces(p, q, x, offset, len, domain, y0, y1, y2)
    requires Split2Pieces(p, p1, x, offset, domain, a, b) && Split2Pieces(p1, p2, b, len, domain, u, v)
    ensures |p2| == |q| == |p| && a < |p2| && u < |p2| && v < |p2| && y0 < |q| && y1 < |q| && y2 < |q|
    ensures RangeOf(p2[a]) == RangeOf(q[y0]) && RangeOf(p2[u]) == RangeOf(q[y1]) && RangeOf(p2[v]) == RangeOf(q[y2])
    ensures p2[a].prev == q[y0].prev && p2[a].next == u && p2[u].prev == a && p2[u].next == v && p2[v].prev == u &&
            p2[v].next == q[y2].next
    ensures NeighboursLinked(p, p2, {x, a, b, u, v}, p[x].prev, a, p[x].next, v)
  {
    var xs := [a, b, u, v];
    assert xs[0] == a && xs[1] == b && xs[2] == u && xs[3] == v;
    assert a in xs && b in xs && u in xs && v in xs;
  }

  /** Splitting, joining and revoking neither lose nor gain bytes. */
  lemma BytesConserved(s: Shape, q: seq<DZ>, c: seq<nat>, i: nat, j: nat, ys: seq<nat>)
    requires Structure(s) && c in s.chains && Live(s.p, c) && i < j <= |c| && Held(s.p, c[i..j])
    requires 0 < |ys| <= |s.free| && Distinct(ys) && forall x: nat :: x in ys <==> x in s.free[..|ys|]
    requires Replaced(s.p, q, c[i..j], ys)
    ensures var c' := c[..i] + ys + c[j..];
            Live(q, c') && Sizes(q, c', |c'|) == Sizes(s.p, c, |c|) && BlockOf(q, c') == BlockOf(s.p, c)
  {
    hide Structure, Live, Held, Distinct, CutOk, Relinked, Replaced, Spliced;
    RunCut(s, c, i, j, ys);
    var k := Cut(c[..i], c[i..j], c[j..], ys);
    assert k.Old() == c;
    ReplacedIsRelinked(s, q, k);
    RelinkedIsSpliced(s, q, k);
    NewChainLive(s, q, k);
    SizesAreBlock(s.p, c, |c|);
    SizesAreBlock(q, k.New(), |k.New()|);
    LivePiece(s, c, 0);
    LivePiece(s, c, |c| - 1);
    LivePiece(Shape(q, [], {}, {}), k.New(), 0);
    LivePiece(Shape(q, [], {}, {}), k.New(), |k.New()| - 1);
  }

  /** The counts of the pieces that revoke makes match their proxies exactly if the revoked piece is
      the only one of its chain: the others start with a count of 1 and no proxy. */
  lemma RevokedCountsMatch(p: seq<DZ>, q: seq<DZ>, c: seq<nat>, ys: seq<nat>, k: nat, d: int,
                           proxies: map<nat, MemoryProxy>, next: nat, pinned: set<nat>)
    requires RefsOk(p, proxies, next, pinned) && Separate(p, c, ys) && k < |c| && Revoked(p, q, c, ys, d)
    requires forall i :: 0 <= i < |ys| ==> p[ys[i]].valid == 2
    ensures ys[k] < |q| && |q| == |p| &&
            var proxies' := proxies[next := MemoryProxy(q[ys[k]].size, q[ys[k]].mem, ys[k])];
            ((forall i :: 0 <= i < |ys| ==> q[ys[i]].refcount == Refs(proxies', ys[i])) <==> |c| == 1)
  {
    var r := MemoryProxy(q[ys[k]].size, q[ys[k]].mem, ys[k]);
    forall i | 0 <= i < |ys|
      ensures q[ys[i]].refcount == 1 && Refs(proxies[next := r], ys[i]) == if i == k then 1 else 0
    {
      assert Renewed(p, q, c, ys, d, i);
      NoProxyOfFree(p, proxies, next, pinned, ys[i]);
      RefsAdd(proxies, next, r, ys[i]);
    }
    if |c| > 1 {
      var i := if k == 0 then 1 else 0;
      assert q[ys[i]].refcount != Refs(proxies[next := r], ys[i]);
    }
  }

  lemma NoProxyOfFree(p: seq<DZ>, proxies: map<nat, MemoryProxy>, next: nat, pinned: set<nat>, x: nat)
    requires RefsOk(p, proxies, next, pinned) && x < |p| && p[x].valid == 2
    ensures Refs(proxies, x) == 0 && next !in proxies
  {
    forall q | q in proxies
      ensures proxies[q].dz != x
    {
      assert ProxyOk(p, proxies[q]);
    }
    RefsNone(proxies, x);
  }

  // ----- alignment ------------------------------------------------------------------------------------

  /** Where createMemoryInstance lets the memory begin in a block that starts at d. */
  function AlignedStart(d: int, bytes: int): int {
    if bytes > 1 && d % bytes > 0 then d + bytes - d % bytes else d
  }

  /** The aligned range lies in the block of size + bytes - 1 bytes that jxmalloc handed out. */
  lemma AlignedInside(d: int, size: int, bytes: int)
    requires bytes >= 1 && size >= 0 && d > 0
    ensures AlignedStart(d, bytes) % bytes == 0
    ensures d <= AlignedStart(d, bytes) && AlignedStart(d, bytes) + size <= d + (size + bytes - 1)
  {
    if bytes > 1 && d % bytes > 0 {
      assert d == (d / bytes) * bytes + d % bytes;
      assert d + bytes - d % bytes == (d / bytes + 1) * bytes;
      MultipleIsZero(d / bytes + 1, bytes);
    }
  }

  lemma MultipleIsZero(m: int, b: int)
    requires b >= 1
    ensures (m * b) % b == 0
  {
    var q, r := (m * b) / b, (m * b) % b;
    var n := m - q;
    assert n * b == m * b - q * b;
    assert m * b == b * q + r;
  }

  // ----- what jxmalloc hands out and jxfree gets back -----------------------------------------------------

  /** jxmalloc was asked for size + bytes - 1 bytes and returned d. */
  datatype Request = Request(d: int, size: int, bytes: int) {
    /** The block that jxmalloc handed out. */
    function Granted(): Block { Block(d, size + bytes - 1) }
    /** The aligned part of it that the manager keeps. */
    function Covered(): Block { Block(AlignedStart(d, bytes), size) }
  }

  /** The blocks under management and the requests they come from, all requests ever made, the calls of
      jxfree, and the requests whose blocks these gave back. */
  datatype Books = Books(blocks: set<Block>, open: set<Request>, granted: multiset<Request>, released: seq<Block>,
                         served: seq<Request>)

  ghost predicate Balanced(b: Books) {
    b.granted == multiset(b.served) + multiset(b.open) && Backed(b.blocks, b.open) &&
    |b.served| == |b.released| && forall i :: 0 <= i < |b.served| ==> b.served[i].Covered() == b.released[i]
  }

  /** Every block comes from exactly one open request. */
  ghost predicate Backed(blocks: set<Block>, open: set<Request>) {
    (forall r :: r in open ==> r.Covered() in blocks) &&
    (forall x :: x in blocks ==> exists r :: r in open && r.Covered() == x) &&
    forall r, r' :: r in open && r' in open && r.Covered() == r'.Covered() ==> r == r'
  }

  /** The request that the block x comes from. */
  ghost function RequestOf(b: Books, x: Block): (r: Request)
    ensures (exists q :: q in b.open && q.Covered() == x) ==> r in b.open && r.Covered() == x
  {
    if q :| q in b.open && q.Covered() == x then q else Request(x.start, x.size, 1)
  }

  function Asked(b: Books, r: Request): Books {
    b.(blocks := b.blocks + {r.Covered()}, open := b.open + {r}, granted := b.granted + multiset{r})
  }

  ghost function Settled(b: Books, x: Block): Books {
    var r := RequestOf(b, x);
    Books(b.blocks - {x}, b.open - {r}, b.granted, b.released + [x], b.served + [r])
  }

  lemma AskedBacked(blocks: set<Block>, open: set<Request>, r: Request)
    requires Backed(blocks, open) && r.Covered() !in blocks
    ensures Backed(blocks + {r.Covered()}, open + {r})
  {
    hide AlignedStart;
    forall x | x in blocks + {r.Covered()}
      ensures exists q :: q in open + {r} && q.Covered() == x
    {
      if x in blocks {
        var q :| q in open && q.Covered() == x;
        assert q in open + {r};
      } else {
        assert r in open + {r};
      }
    }
  }

  lemma AskedBalanced(b: Books, r: Request)
    requires Balanced(b) && r.Covered() !in b.blocks
    ensures Balanced(Asked(b, r))
  {
    hide AlignedStart;
    AskedBacked(b.blocks, b.open, r);
    assert r !in b.open by {
      assert r in b.open ==> r.Covered() in b.blocks;
    }
    hide Backed;
    assert multiset(b.open + {r}) == multiset(b.open) + multiset{r};
  }

  lemma SettledBacked(blocks: set<Block>, open: set<Request>, r: Request)
    requires Backed(blocks, open) && r in open
    ensures Backed(blocks - {r.Covered()}, open - {r})
  {
    hide AlignedStart;
    forall y | y in blocks - {r.Covered()}
      ensures exists q :: q in open - {r} && q.Covered() == y
    {
      var q :| q in open && q.Covered() == y;
      assert q in open - {r};
    }
  }

  lemma SettledBalanced(b: Books, x: Block)
    requires Balanced(b) && x in b.blocks
    ensures Balanced(Settled(b, x))
  {
    hide AlignedStart;
    var r := RequestOf(b, x);
    SettledBacked(b.blocks, b.open, r);
    hide Backed;
    assert multiset(b.open) == multiset(b.open - {r}) + multiset{r};
  }

  /** Every call of jxfree answers a request; it gets the block that jxmalloc handed out for it exactly
      if no alignment was asked for. */
  lemma FreedIsAllocated(b: Books, i: nat)
    requires Balanced(b) && i < |b.released|
    ensures i < |b.served| && b.served[i] in b.granted && b.released[i] == b.served[i].Covered()
    ensures b.released[i] == b.served[i].Granted() <==> b.served[i].bytes == 1
  {
    assert b.served[i] in multiset(b.served);
    assert b.released[i] == b.served[i].Covered();
  }
}
