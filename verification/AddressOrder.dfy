/** The comparison functions of the profiler's tables for domains, instruction pointers and threads
  (gc_pa.c): they subtract addresses as 32-bit words, and order a set of addresses exactly if it lies in
  one half of the address space. */
module AddressOrder {
  import opened InternTables

  const WORD := 0x1_0000_0000
  const HALF := 0x8000_0000

  predicate IsAddress(a: int) {
    0 <= a < WORD
  }

  /** Two addresses subtracted as unsigned words, the result taken as signed. */
  function Difference(a: int, b: int): int {
    var d := (a - b) % WORD;
    if d >= HALF then d - WORD else d
  }

  /** How far a lies above base, around the end of the address space if need be. */
  function Above(a: int, base: int): int {
    (a - base) % WORD
  }

  function Word(k: Key, i: nat): int {
    if i < |k| then k[i] else 0
  }

  /** ddcmp */
  function DomainCmp(a: Key, b: Key): int {
    Difference(Word(a, 0), Word(b, 0))
  }

  /** eipcmp and thrcmp */
  function PairCmp(a: Key, b: Key): int {
    var i := Difference(Word(a, 0), Word(b, 0));
    if i == 0 then Difference(Word(a, 1), Word(b, 1)) else i
  }

  /** All of A lies less than half the address space above base. */
  ghost predicate Window(A: set<int>, base: int) {
    forall a :: a in A ==> Above(a, base) < HALF
  }

  /** A fits into one half of the address space. */
  ghost predicate InWindow(A: set<int>) {
    A != {} ==> exists base :: base in A && Window(A, base)
  }

  /** Keys of n addresses each. */
  ghost predicate AddressKeys(K: set<Key>, n: nat) {
    forall k :: k in K ==> |k| == n && forall i :: 0 <= i < n ==> IsAddress(k[i])
  }

  ghost function Firsts(K: set<Key>): set<int> {
    set k | k in K :: Word(k, 0)
  }

  /** The keys with first word f. */
  ghost function From(K: set<Key>, f: int): set<Key> {
    set k | k in K && Word(k, 0) == f
  }

  ghost function Seconds(K: set<Key>, f: int): set<int> {
    set k | k in From(K, f) :: Word(k, 1)
  }

  // ----- one pair of addresses ------------------------------------------------------------------------------

  /** The difference has the sign of the comparison exactly if the addresses are close enough. */
  lemma DifferenceComparesExactly(a: int, b: int)
    requires IsAddress(a) && IsAddress(b)
    ensures ((Difference(a, b) < 0 <==> a < b) && (Difference(a, b) == 0 <==> a == b)) <==> -HALF <= a - b < HALF
  {
  }

  lemma DifferenceInWindow(a: int, b: int, base: int)
    requires IsAddress(a) && IsAddress(b) && Above(a, base) < HALF && Above(b, base) < HALF
    ensures Difference(a, b) == Above(a, base) - Above(b, base)
    ensures Difference(a, b) == 0 <==> a == b
  {
  }

  lemma AboveOfDifference(a: int, base: int)
    requires IsAddress(a) && IsAddress(base) && (a != base ==> Difference(a, base) > 0)
    ensures Above(a, base) < HALF
  {
  }

  // ----- sets of keys -------------------------------------------------------------------------------------------

  /** Ordered keys have a least one. */
  lemma {:induction false} Least(cmp: (Key, Key) -> int, K: set<Key>) returns (m: Key)
    requires Orders(cmp, K) && K != {}
    ensures m in K && forall k :: k in K && k != m ==> cmp(m, k) < 0 && cmp(k, m) > 0
    decreases |K|
  {
    hide Orders;
    var x :| x in K;
    var rest := K - {x};
    m := x;
    if rest == {} {
      assert forall k :: k in K ==> k == x || k in rest;
    } else {
      OrdersSubset(cmp, K, rest);
      var y := Least(cmp, rest);
      Turned(cmp, K, x, y);
      Turned(cmp, K, y, x);
      if cmp(y, x) < 0 {
        m := y;
        assert forall k :: k in K ==> k == x || k in rest;
      } else {
        forall k | k in K && k != x
          ensures cmp(x, k) < 0 && cmp(k, x) > 0
        {
          assert k in rest;
          if k != y {
            Chained(cmp, K, x, y, k);
          }
          Turned(cmp, K, x, k);
        }
      }
    }
  }

  /** A place from which all of A lies less than half the address space above. */
  ghost function BaseOf(A: set<int>): (base: int)
    ensures InWindow(A) && A != {} ==> base in A && Window(A, base)
  {
    if exists b :: b in A && Window(A, b) then (var b :| b in A && Window(A, b); b) else 0
  }

  ghost function Rank0(K: set<Key>, k: Key): int {
    Above(Word(k, 0), BaseOf(Firsts(K)))
  }

  ghost function Rank1(K: set<Key>, k: Key): int {
    Above(Word(k, 1), BaseOf(Seconds(K, Word(k, 0))))
  }

  lemma FirstIn(K: set<Key>, k: Key)
    requires k in K
    ensures Word(k, 0) in Firsts(K) && k in From(K, Word(k, 0)) && Word(k, 1) in Seconds(K, Word(k, 0))
  {
  }

  /** The first words fit into a half of the address space, and so do the second words of each first one. */
  ghost predicate PairsInWindow(K: set<Key>) {
    InWindow(Firsts(K)) && forall f :: f in Firsts(K) ==> InWindow(Seconds(K, f))
  }

  lemma FirstsByRank(K: set<Key>, n: nat, a: Key, b: Key)
    requires AddressKeys(K, n) && n > 0 && InWindow(Firsts(K)) && a in K && b in K
    ensures DomainCmp(a, b) == Rank0(K, a) - Rank0(K, b)
    ensures Word(a, 0) == Word(b, 0) <==> Rank0(K, a) == Rank0(K, b)
  {
    hide Firsts, InWindow;
    FirstIn(K, a);
    FirstIn(K, b);
    DifferenceInWindow(Word(a, 0), Word(b, 0), BaseOf(Firsts(K)));
  }

  lemma SecondsByRank(K: set<Key>, a: Key, b: Key)
    requires AddressKeys(K, 2) && PairsInWindow(K) && a in K && b in K && Word(a, 0) == Word(b, 0)
    ensures Difference(Word(a, 1), Word(b, 1)) == Rank1(K, a) - Rank1(K, b)
    ensures a == b <==> Rank1(K, a) == Rank1(K, b)
  {
    hide Firsts, Seconds, From, InWindow;
    FirstIn(K, a);
    FirstIn(K, b);
    DifferenceInWindow(Word(a, 1), Word(b, 1), BaseOf(Seconds(K, Word(a, 0))));
    assert a == [Word(a, 0), Word(a, 1)] && b == [Word(b, 0), Word(b, 1)];
  }

  lemma PairByRank(K: set<Key>, a: Key, b: Key)
    requires AddressKeys(K, 2) && PairsInWindow(K) && a in K && b in K
    ensures PairCmp(a, b) ==
                if Rank0(K, a) != Rank0(K, b) then Rank0(K, a) - Rank0(K, b) else Rank1(K, a) - Rank1(K, b)
    ensures a == b <==> Rank0(K, a) == Rank0(K, b) && Rank1(K, a) == Rank1(K, b)
  {
    hide AddressKeys, InWindow, Rank0, Rank1, Difference;
    FirstsByRank(K, 2, a, b);
    if Word(a, 0) == Word(b, 0) {
      SecondsByRank(K, a, b);
    }
  }

  /** The first word of the least key is a base for all of them. */
  lemma LeastIsBase(K: set<Key>, m: Key, i: nat, A: set<int>)
    requires m in K && forall k :: k in K ==> IsAddress(Word(k, i))
    requires forall k :: k in K && Word(k, i) != Word(m, i) ==> Difference(Word(k, i), Word(m, i)) > 0
    requires A == set k | k in K :: Word(k, i)
    ensures InWindow(A)
  {
    hide Difference, Above;
    forall a | a in A
      ensures Above(a, Word(m, i)) < HALF
    {
      var k :| k in K && Word(k, i) == a;
      AboveOfDifference(a, Word(m, i));
    }
    assert Window(A, Word(m, i)) && Word(m, i) in A;
  }

  /** ddcmp orders a set of domains exactly if their addresses fit into one half of the address space. */
  lemma DomainCmpOrdersExactly(K: set<Key>)
    requires AddressKeys(K, 1)
    ensures Orders(DomainCmp, K) <==> InWindow(Firsts(K))
  {
    hide InWindow, Rank0;
    if InWindow(Firsts(K)) {
      forall a, b | a in K && b in K
        ensures DomainCmp(a, b) == Rank0(K, a) - Rank0(K, b) && (a == b <==> Rank0(K, a) == Rank0(K, b))
      {
        FirstsByRank(K, 1, a, b);
        assert a == [Word(a, 0)] && b == [Word(b, 0)];
      }
      hide DomainCmp, AddressKeys;
    } else if Orders(DomainCmp, K) {
      NoFirsts(K);
      var m := Least(DomainCmp, K);
      LeastIsBase(K, m, 0, Firsts(K));
      assert false;
    }
  }

  lemma NoFirsts(K: set<Key>)
    ensures K == {} ==> InWindow(Firsts(K))
  {
  }

  /** eipcmp and thrcmp order a set of records exactly if the first addresses fit into one half of the
      address space, and so do the second addresses of all records with the same first one. */
  lemma PairCmpOrdersExactly(K: set<Key>)
    requires AddressKeys(K, 2)
    ensures Orders(PairCmp, K) <==> PairsInWindow(K)
  {
    hide PairsInWindow, Rank0, Rank1;
    if PairsInWindow(K) {
      forall a, b | a in K && b in K
        ensures PairCmp(a, b) ==
                if Rank0(K, a) != Rank0(K, b) then Rank0(K, a) - Rank0(K, b) else Rank1(K, a) - Rank1(K, b)
        ensures a == b <==> Rank0(K, a) == Rank0(K, b) && Rank1(K, a) == Rank1(K, b)
      {
        PairByRank(K, a, b);
      }
      hide PairCmp, AddressKeys;
    } else if Orders(PairCmp, K) {
      OrderedPairs(K);
      assert false;
    }
  }

  lemma OrderedPairs(K: set<Key>)
    requires AddressKeys(K, 2) && Orders(PairCmp, K)
    ensures PairsInWindow(K)
  {
    hide Orders, InWindow, Difference;
    NoFirsts(K);
    if K != {} {
      var m := Least(PairCmp, K);
      SelfDifference(K);
      LeastIsBase(K, m, 0, Firsts(K));
    }
    forall f | f in Firsts(K)
      ensures InWindow(Seconds(K, f))
    {
      OrdersSubset(PairCmp, K, From(K, f));
      var k0 :| k0 in K && Word(k0, 0) == f;
      assert k0 in From(K, f);
      var m := Least(PairCmp, From(K, f));
      SelfDifference(K);
      LeastIsBase(From(K, f), m, 1, Seconds(K, f));
    }
  }

  lemma SelfDifference(K: set<Key>)
    ensures forall a: int :: Difference(a, a) == 0
    ensures forall a: int, b: int :: IsAddress(a) && IsAddress(b) && Difference(a, b) == 0 ==> a == b
  {
  }

  // ----- outside a half of the address space ------------------------------------------------------------------

  /** Keys k0, k1, k2, k3 around the address space, as the comparison function sees them: from k0 up to k2
      and from k1 up to k3 things look right, but k3 counts as smaller than k0. */
  ghost predicate Around(cmp: (Key, Key) -> int, k0: Key, k1: Key, k2: Key, k3: Key) {
    cmp(k3, k0) < 0 && cmp(k1, k0) > 0 && cmp(k2, k0) > 0 && cmp(k2, k1) > 0 && cmp(k3, k1) > 0 && cmp(k3, k2) != 0
  }

  lemma InsertFirst(cmp: (Key, Key) -> int, s: Key)
    ensures InsertKey([], s, cmp) == [s]
  {
  }

  /** One step of the search. */
  lemma Between(t: seq<Key>, n: nat, s: Key, cmp: (Key, Key) -> int, l: nat, r: nat)
    requires l < r <= |t| && n == l + (r - l) / 2
    ensures BinSearch(t, l, r, s, cmp) ==
            if cmp(s, t[n]) == 0 then n else if cmp(s, t[n]) < 0 then BinSearch(t, l, n, s, cmp)
            else BinSearch(t, n + 1, r, s, cmp)
  {
  }

  lemma Nowhere(t: seq<Key>, l: nat, s: Key, cmp: (Key, Key) -> int)
    requires l <= |t|
    ensures BinSearch(t, l, l, s, cmp) == 0 - l - 1
  {
  }

  /** The search tells where the key goes. */
  lemma GoesTo(t: seq<Key>, n: nat, s: Key, cmp: (Key, Key) -> int)
    requires n <= |t| && BinSearch(t, 0, |t|, s, cmp) == 0 - n - 1
    ensures InsertKey(t, s, cmp) == Put(t, n, s)
  {
    hide BinSearch, Put;
  }

  lemma InsertIntoOne(cmp: (Key, Key) -> int, x: Key, s: Key)
    requires cmp(s, x) != 0
    ensures InsertKey([x], s, cmp) == if cmp(s, x) < 0 then [s, x] else [x, s]
  {
    hide BinSearch, InsertKey;
    Between([x], 0, s, cmp, 0, 1);
    Nowhere([x], 0, s, cmp);
    Nowhere([x], 1, s, cmp);
    GoesTo([x], if cmp(s, x) < 0 then 0 else 1, s, cmp);
  }

  lemma InsertIntoTwo(cmp: (Key, Key) -> int, x: Key, y: Key, s: Key)
    requires cmp(s, y) > 0 || (cmp(s, y) < 0 && cmp(s, x) != 0)
    ensures InsertKey([x, y], s, cmp) ==
            if cmp(s, y) > 0 then [x, y, s] else if cmp(s, x) < 0 then [s, x, y] else [x, s, y]
  {
    hide BinSearch, InsertKey;
    var t := [x, y];
    Between(t, 1, s, cmp, 0, 2);
    Between(t, 0, s, cmp, 0, 1);
    Nowhere(t, 0, s, cmp);
    Nowhere(t, 1, s, cmp);
    Nowhere(t, 2, s, cmp);
    GoesTo(t, if cmp(s, y) > 0 then 2 else if cmp(s, x) < 0 then 0 else 1, s, cmp);
  }

  lemma InsertIntoThree(cmp: (Key, Key) -> int, x: Key, y: Key, z: Key, s: Key)
    requires (cmp(s, y) < 0 && cmp(s, x) != 0) || (cmp(s, y) > 0 && cmp(s, z) != 0)
    ensures InsertKey([x, y, z], s, cmp) ==
            if cmp(s, y) < 0 then (if cmp(s, x) < 0 then [s, x, y, z] else [x, s, y, z])
            else if cmp(s, z) < 0 then [x, y, s, z] else [x, y, z, s]
  {
    hide BinSearch, InsertKey;
    var t := [x, y, z];
    Between(t, 1, s, cmp, 0, 3);
    if cmp(s, y) < 0 {
      Between(t, 0, s, cmp, 0, 1);
      Nowhere(t, 0, s, cmp);
      Nowhere(t, 1, s, cmp);
      GoesTo(t, if cmp(s, x) < 0 then 0 else 1, s, cmp);
    } else {
      Between(t, 2, s, cmp, 2, 3);
      Nowhere(t, 2, s, cmp);
      Nowhere(t, 3, s, cmp);
      GoesTo(t, if cmp(s, z) < 0 then 2 else 3, s, cmp);
    }
  }

  lemma InsertIntoFour(cmp: (Key, Key) -> int, w: Key, x: Key, y: Key, z: Key, s: Key)
    requires cmp(s, y) > 0 && cmp(s, z) != 0
    ensures InsertKey([w, x, y, z], s, cmp) == if cmp(s, z) < 0 then [w, x, y, s, z] else [w, x, y, z, s]
  {
    hide BinSearch, InsertKey;
    var t := [w, x, y, z];
    Between(t, 2, s, cmp, 0, 4);
    Between(t, 3, s, cmp, 3, 4);
    Nowhere(t, 3, s, cmp);
    Nowhere(t, 4, s, cmp);
    GoesTo(t, if cmp(s, z) < 0 then 3 else 4, s, cmp);
  }

  /** Five insertions of four such keys give k3 two entries. */
  lemma AroundFails(cmp: (Key, Key) -> int, k0: Key, k1: Key, k2: Key, k3: Key)
    requires Around(cmp, k0, k1, k2, k3)
    ensures !Unique(InsertAll([k0, k3, k1, k2, k3], cmp))
  {
    hide InsertKey, InsertAll;
    RunOf5(cmp, k0, k3, k1, k2, k3);
    InsertFirst(cmp, k0);
    InsertIntoOne(cmp, k0, k3);
    InsertIntoTwo(cmp, k3, k0, k1);
    InsertIntoThree(cmp, k3, k0, k1, k2);
    InsertIntoFour(cmp, k3, k0, k1, k2, k3);
    var t := InsertAll([k0, k3, k1, k2, k3], cmp);
    assert t[0] == k3 && (t[3] == k3 || t[4] == k3);
  }

  lemma RunOf5(cmp: (Key, Key) -> int, a: Key, b: Key, c: Key, d: Key, e: Key)
    ensures InsertAll([a, b, c, d, e], cmp) ==
            InsertKey(InsertKey(InsertKey(InsertKey(InsertKey([], a, cmp), b, cmp), c, cmp), d, cmp), e, cmp)
  {
    hide InsertKey;
    assert [a, b, c, d, e][..4] == [a, b, c, d] && [a, b, c, d][..3] == [a, b, c] && [a, b, c][..2] == [a, b] &&
           [a, b][..1] == [a];
    assert [a][..0] == [];
    assert InsertAll([a], cmp) == InsertKey([], a, cmp);
    assert InsertAll([a, b], cmp) == InsertKey(InsertAll([a], cmp), b, cmp);
    assert InsertAll([a, b, c], cmp) == InsertKey(InsertAll([a, b], cmp), c, cmp);
    assert InsertAll([a, b, c, d], cmp) == InsertKey(InsertAll([a, b, c], cmp), d, cmp);
  }

  /** The same for four places on the circle of addresses. */
  predicate PlacesAround(x0: int, x1: int, x2: int, x3: int) {
    0 < Above(x1, x0) < Above(x2, x0) < HALF && Above(x2, x0) < Above(x3, x0) &&
    Above(x3, x0) - Above(x1, x0) < HALF <= Above(x3, x0)
  }

  lemma AboveShift(a: int, b: int, base: int)
    requires IsAddress(a) && IsAddress(b) && IsAddress(base)
    ensures Above(a, b) == Above(a, base) - Above(b, base) + if Above(a, base) >= Above(b, base) then 0 else WORD
    ensures 0 <= Above(a, base) < WORD
  {
  }

  lemma DifferenceIsAbove(a: int, b: int)
    ensures Difference(a, b) == if Above(a, b) >= HALF then Above(a, b) - WORD else Above(a, b)
  {
  }

  lemma PlaceCompare(x0: int, a: int, b: int)
    requires IsAddress(x0) && IsAddress(a) && IsAddress(b)
    ensures var d := Above(a, x0) - Above(b, x0);
            DomainCmp([a], [b]) == if -HALF <= d < HALF then d else if d < 0 then d + WORD else d - WORD
  {
    hide Above, Difference;
    AboveShift(a, b, x0);
    AboveShift(b, a, x0);
    DifferenceIsAbove(a, b);
  }

  lemma PlacesCompare(x0: int, x1: int, x2: int, x3: int)
    requires IsAddress(x0) && IsAddress(x1) && IsAddress(x2) && IsAddress(x3) && PlacesAround(x0, x1, x2, x3)
    ensures Around(DomainCmp, [x0], [x1], [x2], [x3])
  {
    hide DomainCmp, Above;
    AboveShift(x0, x0, x0);
    AboveShift(x3, x0, x0);
    PlaceCompare(x0, x3, x0);
    PlaceCompare(x0, x1, x0);
    PlaceCompare(x0, x2, x0);
    PlaceCompare(x0, x2, x1);
    PlaceCompare(x0, x3, x1);
    PlaceCompare(x0, x3, x2);
  }

  /** For example: the table has two entries for the address 0xA000_0000. */
  lemma FailingTable()
    ensures !Unique(InsertAll([[0], [0xA000_0000], [0x4000_0000], [0x6000_0000], [0xA000_0000]], DomainCmp))
  {
    hide InsertAll, Unique;
    PlacesCompare(0, 0x4000_0000, 0x6000_0000, 0xA000_0000);
    AroundFails(DomainCmp, [0], [0x4000_0000], [0x6000_0000], [0xA000_0000]);
  }

  // ----- four such places exist outside a half -------------------------------------------------------------------

  /** From the offset b up to the offset a, around the end of the address space if need be. */
  function Turn(a: int, b: int): int {
    a - b + if a >= b then 0 else WORD
  }

  predicate Fits(z: seq<int>, i0: nat, i1: nat, i2: nat, i3: nat)
    requires i0 < |z| && i1 < |z| && i2 < |z| && i3 < |z|
  {
    var t1, t2, t3 := Turn(z[i1], z[i0]), Turn(z[i2], z[i0]), Turn(z[i3], z[i0]);
    0 < t1 < t2 < HALF && t2 < t3 && t3 - t1 < HALF <= t3
  }

  /** Five offsets in ascending order without a gap of more than half the address space. */
  ghost predicate Spread(z: seq<int>) {
    |z| == 5 && 0 <= z[0] < z[1] < z[2] < z[3] < z[4] < WORD &&
    z[1] - z[0] <= HALF && z[2] - z[1] <= HALF && z[3] - z[2] <= HALF && z[4] - z[3] <= HALF && z[4] - z[0] >= HALF
  }

  lemma FourOfFive(z: seq<int>) returns (i0: nat, i1: nat, i2: nat, i3: nat)
    requires Spread(z)
    ensures i0 < 5 && i1 < 5 && i2 < 5 && i3 < 5 && Fits(z, i0, i1, i2, i3)
  {
    if {
      case Fits(z, 0, 1, 2, 3) => return 0, 1, 2, 3;
      case Fits(z, 0, 2, 3, 4) => return 0, 2, 3, 4;
      case Fits(z, 1, 2, 3, 4) => return 1, 2, 3, 4;
      case Fits(z, 1, 3, 4, 0) => return 1, 3, 4, 0;
      case Fits(z, 2, 3, 4, 1) => return 2, 3, 4, 1;
      case Fits(z, 3, 4, 0, 1) => return 3, 4, 0, 1;
      case Fits(z, 3, 0, 1, 2) => return 3, 0, 1, 2;
      case Fits(z, 4, 0, 1, 3) => return 4, 0, 1, 3;
    }
  }

  /** The members of a set in ascending order. */
  lemma {:induction false} Ascending(S: set<int>) returns (o: seq<int>)
    ensures |o| == |S| && (forall i, j :: 0 <= i < j < |o| ==> o[i] < o[j]) && forall x :: x in o <==> x in S
  {
    o := [];
    if S != {} {
      var m := Greatest(S);
      o := Ascending(S - {m});
      forall i | 0 <= i < |o|
        ensures o[i] < m
      {
        assert o[i] in o;
      }
      o := o + [m];
    }
  }

  lemma Some<T(!new)>(S: set<T>) returns (m: T)
    requires S != {}
    ensures m in S
  {
    m :| m in S;
  }

  lemma {:induction false} Greatest(S: set<int>) returns (m: int)
    requires S != {}
    ensures m in S && forall x :: x in S ==> x <= m
    decreases |S|
  {
    m := Some(S);
    if S != {m} {
      assert forall x :: x in S ==> x == m || x in S - {m};
      var m' := Greatest(S - {m});
      m := if m' > m then m' else m;
    }
  }

  /** The offsets of A above p. */
  ghost function Offsets(A: set<int>, p: int): set<int> {
    set a | a in A :: Above(a, p)
  }

  lemma {:induction false} SameNumber(A: set<int>, p: int)
    requires (forall a :: a in A ==> IsAddress(a)) && IsAddress(p)
    ensures |Offsets(A, p)| == |A|
    decreases |A|
  {
    hide Above;
    if A != {} {
      var a := Some(A);
      SameNumber(A - {a}, p);
      forall b | b in A && Above(b, p) == Above(a, p)
        ensures b == a
      {
        SameOffset(a, b, p);
      }
      assert Offsets(A, p) == Offsets(A - {a}, p) + {Above(a, p)};
    }
  }

  lemma SameOffset(a: int, b: int, p: int)
    requires IsAddress(a) && IsAddress(b) && IsAddress(p) && Above(a, p) == Above(b, p)
    ensures a == b
  {
  }

  /** o lists the offsets of A above p in ascending order. */
  ghost predicate Lists(A: set<int>, p: int, o: seq<int>) {
    (forall a :: a in A ==> IsAddress(a)) && p in A &&
    (forall i, j :: 0 <= i < j < |o| ==> o[i] < o[j]) && forall x :: x in o <==> x in Offsets(A, p)
  }

  lemma ListedAddress(A: set<int>, p: int, o: seq<int>, i: nat) returns (a: int)
    requires Lists(A, p, o) && i < |o|
    ensures a in A && IsAddress(a) && IsAddress(p) && Above(a, p) == o[i] && 0 <= o[i] < WORD
  {
    assert o[i] in o;
    a :| a in A && Above(a, p) == o[i];
  }

  lemma AddressListed(A: set<int>, p: int, o: seq<int>, a: int) returns (i: nat)
    requires Lists(A, p, o) && a in A
    ensures i < |o| && o[i] == Above(a, p) && IsAddress(a) && IsAddress(p)
  {
    hide Above;
    assert Above(a, p) in o;
    i :| 0 <= i < |o| && o[i] == Above(a, p);
  }

  /** Outside every half, the offsets spread over the whole address space. */
  lemma OffsetsSpread(A: set<int>, p: int, o: seq<int>)
    requires Lists(A, p, o) && p in A && !InWindow(A)
    ensures o != [] && o[|o| - 1] >= HALF && o[0] == 0
    ensures forall i :: 0 <= i < |o| - 1 ==> o[i + 1] - o[i] <= HALF
  {
    hide Lists, Offsets, Above, Window;
    var i0 := AddressListed(A, p, o, p);
    AboveShift(p, p, p);
    if i0 > 0 {
      var a := ListedAddress(A, p, o, 0);
      Ordered(A, p, o, 0, i0);
    }
    if o[|o| - 1] < HALF {
      forall a | a in A
        ensures Above(a, p) < HALF
      {
        var i := AddressListed(A, p, o, a);
        Ordered(A, p, o, i, |o| - 1);
      }
      IsWindow(A, p);
    }
    forall i | 0 <= i < |o| - 1
      ensures o[i + 1] - o[i] <= HALF
    {
      if o[i + 1] - o[i] > HALF {
        GapIsWindow(A, p, o, i);
      }
    }
  }

  lemma Ordered(A: set<int>, p: int, o: seq<int>, i: nat, j: nat)
    requires Lists(A, p, o) && i <= j < |o|
    ensures o[i] <= o[j] && (i < j ==> o[i] < o[j])
  {
    hide Offsets;
  }

  lemma IsWindow(A: set<int>, q: int)
    requires q in A && forall a :: a in A ==> Above(a, q) < HALF
    ensures InWindow(A)
  {
    hide Above;
    assert Window(A, q);
  }

  /** A gap of more than half the address space leaves the rest in one half. */
  lemma GapIsWindow(A: set<int>, p: int, o: seq<int>, i: nat)
    requires Lists(A, p, o) && i < |o| - 1 && o[i + 1] - o[i] > HALF
    ensures InWindow(A)
  {
    hide Lists, Offsets, Above, Window, InWindow;
    var q := ListedAddress(A, p, o, i + 1);
    var b := ListedAddress(A, p, o, i);
    forall a | a in A
      ensures Above(a, q) < HALF
    {
      var j := AddressListed(A, p, o, a);
      var c := ListedAddress(A, p, o, j);
      AboveShift(a, q, p);
      if j <= i {
        Ordered(A, p, o, j, i);
      } else {
        Ordered(A, p, o, i + 1, j);
      }
    }
    IsWindow(A, q);
  }

  /** The last position below half the address space, if there are five: the first three offsets, or all
      five, spread. */
  lemma FiveSpread(A: set<int>, p: int, o: seq<int>) returns (z: seq<int>)
    requires Lists(A, p, o) && p in A && !InWindow(A) && |o| >= 5
    ensures Spread(z) && forall x :: x in z ==> x in o
  {
    hide Offsets, InWindow;
    OffsetsSpread(A, p, o);
    var last := ListedAddress(A, p, o, |o| - 1);
    if o[3] >= HALF {
      z := o[..5];
      var a := ListedAddress(A, p, o, 4);
    } else {
      var f := 3;
      while o[f + 1] < HALF
        invariant 3 <= f < |o| - 1 && o[f] < HALF
      {
        f := f + 1;
      }
      z := [o[0], o[1], o[2], o[f], o[f + 1]];
      var a := ListedAddress(A, p, o, f + 1);
    }
  }

  /** No four of the addresses lie around the address space so that the search goes wrong. */
  ghost predicate NoneAround(A: set<int>) {
    forall x0, x1, x2, x3 :: x0 in A && x1 in A && x2 in A && x3 in A ==> !PlacesAround(x0, x1, x2, x3)
  }

  /** Five or more addresses that do not fit into one half of the address space include four such ones. */
  lemma SomeAround(A: set<int>) returns (x0: int, x1: int, x2: int, x3: int)
    requires (forall a :: a in A ==> IsAddress(a)) && |A| >= 5 && !InWindow(A)
    ensures x0 in A && x1 in A && x2 in A && x3 in A && PlacesAround(x0, x1, x2, x3)
  {
    hide Above, InWindow, Offsets, Fits, PlacesAround;
    var p := Some(A);
    var o := Ascending(Offsets(A, p));
    SameNumber(A, p);
    var z := FiveSpread(A, p, o);
    var i0, i1, i2, i3 := FourOfFive(z);
    x0 := AddressOf(A, p, o, z[i0]);
    x1 := AddressOf(A, p, o, z[i1]);
    x2 := AddressOf(A, p, o, z[i2]);
    x3 := AddressOf(A, p, o, z[i3]);
    FitsAround(p, z, i0, i1, i2, i3, x0, x1, x2, x3);
  }

  /** A run of insertions of one-word keys from A. */
  ghost predicate RunOver(run: seq<Key>, A: set<int>) {
    forall k :: k in run ==> |k| == 1 && k[0] in A
  }

  lemma AddressOf(A: set<int>, p: int, o: seq<int>, x: int) returns (a: int)
    requires Lists(A, p, o) && x in o
    ensures a in A && IsAddress(a) && IsAddress(p) && Above(a, p) == x
  {
    hide Lists;
    var i :| 0 <= i < |o| && o[i] == x;
    a := ListedAddress(A, p, o, i);
  }

  lemma FitsAround(p: int, z: seq<int>, i0: nat, i1: nat, i2: nat, i3: nat, x0: int, x1: int, x2: int, x3: int)
    requires i0 < |z| && i1 < |z| && i2 < |z| && i3 < |z| && Fits(z, i0, i1, i2, i3) && IsAddress(p)
    requires IsAddress(x0) && IsAddress(x1) && IsAddress(x2) && IsAddress(x3)
    requires Above(x0, p) == z[i0] && Above(x1, p) == z[i1] && Above(x2, p) == z[i2] && Above(x3, p) == z[i3]
    ensures PlacesAround(x0, x1, x2, x3)
  {
    hide Above;
    AboveShift(x1, x0, p);
    AboveShift(x2, x0, p);
    AboveShift(x3, x0, p);
  }

  /** In one half of the address space every run is fine, whatever the number of addresses. */
  lemma WindowRun(run: seq<Key>, A: set<int>)
    requires (forall a :: a in A ==> IsAddress(a)) && InWindow(A) && RunOver(run, A)
    ensures Unique(InsertAll(run, DomainCmp)) && KeySet(InsertAll(run, DomainCmp)) == KeySet(run)
  {
    hide InWindow, Unique, InsertAll, DomainCmp, Sorted;
    var K := set a | a in A :: [a];
    assert AddressKeys(K, 1);
    assert Firsts(K) == A by {
      forall a | a in A
        ensures a in Firsts(K)
      {
        assert [a] in K && Word([a], 0) == a;
      }
    }
    DomainCmpOrdersExactly(K);
    forall k | k in run
      ensures k in K
    {
      assert k == [k[0]];
    }
    RunKeepsSorted(run, DomainCmp, K);
  }

  // ----- few addresses ---------------------------------------------------------------------------------------

  /** Every key of a table of at most four entries is found again. */
  ghost predicate Found(t: seq<Key>, cmp: (Key, Key) -> int) {
    |t| <= 4 && (|t| == 2 ==> cmp(t[0], t[1]) < 0) && (|t| == 3 ==> cmp(t[0], t[1]) < 0 && cmp(t[2], t[1]) > 0) &&
    (|t| == 4 ==> cmp(t[0], t[1]) < 0 && cmp(t[0], t[2]) < 0 && cmp(t[1], t[2]) < 0 && cmp(t[3], t[2]) > 0)
  }

  /** The table holds different one-word keys from A. */
  ghost predicate TableOver(t: seq<Key>, A: set<int>) {
    Unique(t) && RunOver(t, A) && forall a :: a in A ==> IsAddress(a)
  }

  lemma FoundInTwo(cmp: (Key, Key) -> int, x: Key, y: Key, s: Key)
    requires cmp(s, s) == 0 && (s == y || (s == x && cmp(x, y) < 0))
    ensures BinSearch([x, y], 0, 2, s, cmp) >= 0
  {
    hide BinSearch;
    Between([x, y], 1, s, cmp, 0, 2);
    Between([x, y], 0, s, cmp, 0, 1);
  }

  lemma FoundInThree(cmp: (Key, Key) -> int, x: Key, y: Key, z: Key, s: Key)
    requires cmp(s, s) == 0 && (s == y || (s == x && cmp(x, y) < 0) || (s == z && cmp(z, y) > 0))
    ensures BinSearch([x, y, z], 0, 3, s, cmp) >= 0
  {
    hide BinSearch;
    Between([x, y, z], 1, s, cmp, 0, 3);
    Between([x, y, z], 0, s, cmp, 0, 1);
    Between([x, y, z], 2, s, cmp, 2, 3);
  }

  lemma FoundInFour(cmp: (Key, Key) -> int, w: Key, x: Key, y: Key, z: Key, s: Key)
    requires cmp(s, s) == 0
    requires s == y || (s == x && cmp(x, y) < 0) || (s == w && cmp(w, y) < 0 && cmp(w, x) < 0) ||
             (s == z && cmp(z, y) > 0)
    ensures BinSearch([w, x, y, z], 0, 4, s, cmp) >= 0
  {
    hide BinSearch;
    var t := [w, x, y, z];
    Between(t, 2, s, cmp, 0, 4);
    if cmp(s, y) > 0 {
      Between(t, 3, s, cmp, 3, 4);
    } else {
      Between(t, 1, s, cmp, 0, 2);
      Between(t, 0, s, cmp, 0, 1);
    }
  }

  lemma FoundAgain(t: seq<Key>, s: Key)
    requires Found(t, DomainCmp) && s in t
    ensures InsertKey(t, s, DomainCmp) == t
  {
    assert DomainCmp(s, s) == 0;
    hide DomainCmp, BinSearch;
    var i :| 0 <= i < |t| && t[i] == s;
    if |t| == 1 {
      Between(t, 0, s, DomainCmp, 0, 1);
    } else if |t| == 2 {
      assert t == [t[0], t[1]];
      FoundInTwo(DomainCmp, t[0], t[1], s);
    } else if |t| == 3 {
      assert t == [t[0], t[1], t[2]];
      FoundInThree(DomainCmp, t[0], t[1], t[2], s);
    } else {
      assert t == [t[0], t[1], t[2], t[3]];
      FoundInFour(DomainCmp, t[0], t[1], t[2], t[3], s);
    }
  }

  /** Three addresses: if x seems below y, and s below y, then s and its neighbour are seen alike from both
      sides. */
  lemma ThreePlaces(x: int, y: int, s: int)
    requires IsAddress(x) && IsAddress(y) && IsAddress(s) && x != y && s != x && s != y
    requires DomainCmp([x], [y]) < 0 && DomainCmp([s], [y]) < 0
    ensures DomainCmp([s], [x]) < 0 ==> DomainCmp([y], [x]) > 0
    ensures DomainCmp([s], [x]) > 0 ==> DomainCmp([y], [s]) > 0
  {
    hide Above, DomainCmp;
    AboveShift(y, y, y);
    AboveShift(x, y, y);
    AboveShift(s, y, y);
    PlaceCompare(y, x, y);
    PlaceCompare(y, y, x);
    PlaceCompare(y, s, y);
    PlaceCompare(y, y, s);
    PlaceCompare(y, s, x);
  }

  /** Four addresses that do not lie around the address space so that the search goes wrong. */
  lemma FourPlaces(x: int, y: int, z: int, s: int)
    requires IsAddress(x) && IsAddress(y) && IsAddress(z) && IsAddress(s) && s != x && s != z && x != z && x != y
    requires DomainCmp([x], [y]) < 0 && DomainCmp([z], [y]) > 0 && DomainCmp([s], [y]) > 0
    requires !PlacesAround(y, s, z, x) && !PlacesAround(y, z, s, x)
    ensures DomainCmp([s], [z]) < 0 ==> DomainCmp([x], [s]) < 0 && DomainCmp([z], [s]) > 0
    ensures DomainCmp([s], [z]) > 0 ==> DomainCmp([x], [z]) < 0
  {
    hide Above, DomainCmp;
    AboveShift(y, y, y);
    AboveShift(x, y, y);
    AboveShift(s, y, y);
    AboveShift(z, y, y);
    PlaceCompare(y, x, y);
    PlaceCompare(y, z, y);
    PlaceCompare(y, s, y);
    PlaceCompare(y, s, z);
    PlaceCompare(y, z, s);
    PlaceCompare(y, x, s);
    PlaceCompare(y, x, z);
  }

  lemma DifferentAddresses(a: int, b: int)
    requires IsAddress(a) && IsAddress(b) && a != b
    ensures DomainCmp([a], [b]) != 0 && (DomainCmp([a], [b]) > 0 ==> DomainCmp([b], [a]) < 0)
  {
  }

  lemma StepFromOne(x: int, s: int)
    requires IsAddress(x) && IsAddress(s) && s != x
    ensures Found(InsertKey([[x]], [s], DomainCmp), DomainCmp)
  {
    hide DomainCmp, InsertKey;
    DifferentAddresses(s, x);
    InsertIntoOne(DomainCmp, [x], [s]);
  }

  lemma StepFromTwo(x: int, y: int, s: int)
    requires IsAddress(x) && IsAddress(y) && IsAddress(s) && x != y && s != x && s != y && Found([[x], [y]], DomainCmp)
    ensures Found(InsertKey([[x], [y]], [s], DomainCmp), DomainCmp)
  {
    hide DomainCmp, InsertKey;
    DifferentAddresses(s, x);
    DifferentAddresses(s, y);
    InsertIntoTwo(DomainCmp, [x], [y], [s]);
    if DomainCmp([s], [y]) < 0 {
      ThreePlaces(x, y, s);
    }
  }

  lemma StepFromThree(x: int, y: int, z: int, s: int)
    requires IsAddress(x) && IsAddress(y) && IsAddress(z) && IsAddress(s) && Found([[x], [y], [z]], DomainCmp)
    requires x != y && x != z && y != z && s != x && s != y && s != z
    requires !PlacesAround(y, s, z, x) && !PlacesAround(y, z, s, x)
    ensures Found(InsertKey([[x], [y], [z]], [s], DomainCmp), DomainCmp)
  {
    hide DomainCmp, InsertKey, PlacesAround;
    DifferentAddresses(s, x);
    DifferentAddresses(s, y);
    DifferentAddresses(s, z);
    DifferentAddresses(z, y);
    InsertIntoThree(DomainCmp, [x], [y], [z], [s]);
    if DomainCmp([s], [y]) > 0 {
      FourPlaces(x, y, z, s);
    }
  }

  /** One more key, if no four addresses lie around: it is found again like all others. */
  lemma FoundStep(t: seq<Key>, A: set<int>, s: Key)
    requires TableOver(t, A) && Found(t, DomainCmp) && NoneAround(A) && |t| < 4 && s !in t && |s| == 1 && s[0] in A
    ensures Found(InsertKey(t, s, DomainCmp), DomainCmp)
  {
    hide DomainCmp, InsertKey, PlacesAround;
    forall i | 0 <= i < |t|
      ensures t[i] == [t[i][0]] && t[i][0] in A && t[i][0] != s[0]
    {
      assert t[i] in t && s == [s[0]];
    }
    assert forall i, j :: 0 <= i < j < |t| ==> t[i][0] != t[j][0];
    assert s == [s[0]];
    if |t| == 0 {
      InsertFirst(DomainCmp, s);
      assert t == [];
    } else if |t| == 1 {
      assert t == [[t[0][0]]];
      StepFromOne(t[0][0], s[0]);
    } else if |t| == 2 {
      assert t == [[t[0][0]], [t[1][0]]];
      StepFromTwo(t[0][0], t[1][0], s[0]);
    } else {
      assert t == [[t[0][0]], [t[1][0]], [t[2][0]]];
      StepFromThree(t[0][0], t[1][0], t[2][0], s[0]);
    }
  }

  /** Different addresses from A are no more than A has. */
  lemma {:induction false} NoMoreThan(t: seq<Key>, A: set<int>)
    requires Unique(t) && RunOver(t, A)
    ensures |t| <= |A|
    decreases |t|
  {
    if t != [] {
      var front, k := t[..|t| - 1], t[|t| - 1];
      forall j | j in front
        ensures |j| == 1 && j[0] in A - {k[0]}
      {
        var i :| 0 <= i < |front| && front[i] == j;
        assert t[i] == j && j in t && k in t && t[i] != t[|t| - 1];
        assert j == [j[0]] && k == [k[0]];
      }
      assert Unique(front) by {
        forall i, j | 0 <= i < j < |front|
          ensures front[i] != front[j]
        {
          assert t[i] == front[i] && t[j] == front[j];
        }
      }
      NoMoreThan(front, A - {k[0]});
      assert k in t;
    }
  }

  lemma PutUnique(t: seq<Key>, n: nat, s: Key)
    requires Unique(t) && s !in t && n <= |t|
    ensures Unique(Put(t, n, s))
  {
    var r := Put(t, n, s);
    forall i, j | 0 <= i < j < |r|
      ensures r[i] != r[j]
    {
    }
  }

  /** Up to four addresses: if no four lie around, every run gives a table in which all keys are found. */
  lemma {:induction false} FewRun(run: seq<Key>, A: set<int>)
    requires (forall a :: a in A ==> IsAddress(a)) && |A| <= 4 && NoneAround(A) && RunOver(run, A)
    ensures TableOver(InsertAll(run, DomainCmp), A) && Found(InsertAll(run, DomainCmp), DomainCmp)
  {
    hide NoneAround, DomainCmp, Found, BinSearch;
    if run == [] {
      assert InsertAll(run, DomainCmp) == [];
      EmptyFound();
    } else {
      var front, s := run[..|run| - 1], run[|run| - 1];
      assert s in run && forall k :: k in front ==> k in run;
      FewRun(front, A);
      var t := InsertAll(front, DomainCmp);
      assert InsertAll(run, DomainCmp) == InsertKey(t, s, DomainCmp);
      if s in t {
        FoundAgain(t, s);
      } else {
        PutUnique(t, |t|, s);
        NoMoreThan(Put(t, |t|, s), A);
        FoundStep(t, A, s);
        InsertUnique(t, s);
      }
    }
  }

  lemma EmptyFound()
    ensures Found([], DomainCmp)
  {
  }

  lemma InsertUnique(t: seq<Key>, s: Key)
    requires Unique(t) && s !in t
    ensures Unique(InsertKey(t, s, DomainCmp))
  {
    var n := BinSearch(t, 0, |t|, s, DomainCmp);
    if n < 0 {
      PutUnique(t, -n - 1, s);
    }
  }

  // ----- when the table of domains is a finite map -------------------------------------------------------------------

  /** Four addresses around the address space do not fit into one half of it; if there are five or more
      that do not fit, there are four such ones. */
  lemma NoneAroundExactly(A: set<int>)
    requires forall a :: a in A ==> IsAddress(a)
    ensures InWindow(A) ==> NoneAround(A)
    ensures |A| >= 5 && NoneAround(A) ==> InWindow(A)
  {
    hide InWindow, PlacesAround;
    if InWindow(A) {
      forall x0, x1, x2, x3 | x0 in A && x1 in A && x2 in A && x3 in A
        ensures !PlacesAround(x0, x1, x2, x3)
      {
        if PlacesAround(x0, x1, x2, x3) {
          FourFail(A, x0, x1, x2, x3);
          WindowRun([[x0], [x3], [x1], [x2], [x3]], A);
        }
      }
    } else if |A| >= 5 {
      var x0, x1, x2, x3 := SomeAround(A);
    }
  }

  lemma FourFail(A: set<int>, x0: int, x1: int, x2: int, x3: int)
    requires (forall a :: a in A ==> IsAddress(a)) && x0 in A && x1 in A && x2 in A && x3 in A &&
             PlacesAround(x0, x1, x2, x3)
    ensures RunOver([[x0], [x3], [x1], [x2], [x3]], A)
    ensures !Unique(InsertAll([[x0], [x3], [x1], [x2], [x3]], DomainCmp))
  {
    hide PlacesAround, Around, InsertAll, Unique;
    PlacesCompare(x0, x1, x2, x3);
    AroundFails(DomainCmp, [x0], [x1], [x2], [x3]);
  }

  /** The table of domains has no double entry after any run of insertions over the addresses A exactly if
      no four of them lie around the address space. */
  lemma TableIsMapExactly(A: set<int>)
    requires forall a :: a in A ==> IsAddress(a)
    ensures (forall run: seq<Key> :: RunOver(run, A) ==> Unique(InsertAll(run, DomainCmp))) <==> NoneAround(A)
  {
    hide Unique, InsertAll, InWindow, DomainCmp, PlacesAround;
    if NoneAround(A) {
      NoneAroundExactly(A);
      hide NoneAround;
      forall run: seq<Key> | RunOver(run, A)
        ensures Unique(InsertAll(run, DomainCmp))
      {
        if |A| >= 5 {
          WindowRun(run, A);
        } else {
          FewRun(run, A);
        }
      }
    } else {
      var x0, x1, x2, x3 :| x0 in A && x1 in A && x2 in A && x3 in A && PlacesAround(x0, x1, x2, x3);
      FourFail(A, x0, x1, x2, x3);
    }
  }
}
