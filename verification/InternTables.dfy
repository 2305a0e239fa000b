/** The sorted intern tables of the heap profiler (gc_pa.c): equal keys are stored once, and each gets an
  offset that stays valid, as long as the comparison function orders the keys in use. */
module InternTables {

  type Key = seq<int>

  datatype Outcome = Done | TableOverflow | PlainOverflow

  /** The comparison function orders the keys of K. */
  ghost predicate Orders(cmp: (Key, Key) -> int, K: set<Key>) {
    (forall a, b :: a in K && b in K ==> (cmp(a, b) == 0 <==> a == b)) &&
    (forall a, b :: a in K && b in K ==> (cmp(a, b) < 0 <==> cmp(b, a) > 0)) &&
    forall a, b, c :: a in K && b in K && c in K && cmp(a, b) < 0 && cmp(b, c) < 0 ==> cmp(a, c) < 0
  }

  /** The keys of a table in the order of its entries. */
  ghost predicate Sorted(keys: seq<Key>, cmp: (Key, Key) -> int) {
    forall i, j :: 0 <= i < j < |keys| ==> cmp(keys[i], keys[j]) < 0
  }

  ghost function KeySet(keys: seq<Key>): set<Key> {
    set k | k in keys
  }

  /** binsearch in keys[l..r]: the index of a key that s compares equal to, or -p - 1 for a place p where
      s fits between its neighbours.  This much holds for every comparison function. */
  function BinSearch(keys: seq<Key>, l: int, r: int, s: Key, cmp: (Key, Key) -> int): (n: int)
    requires 0 <= l <= r <= |keys|
    ensures n >= 0 ==> l <= n < r && cmp(s, keys[n]) == 0
    ensures n < 0 ==> l <= -n - 1 <= r
    ensures n < 0 && l < -n - 1 ==> cmp(s, keys[-n - 2]) > 0
    ensures n < 0 && -n - 1 < r ==> cmp(s, keys[-n - 1]) < 0
    decreases r - l
  {
    if l == r then -l - 1
    else
      var n := l + (r - l) / 2;
      var cr := cmp(s, keys[n]);
      if cr == 0 then n
      else if cr < 0 then BinSearch(keys, l, n, s, cmp)
      else BinSearch(keys, n + 1, r, s, cmp)
  }

  lemma Chained(cmp: (Key, Key) -> int, K: set<Key>, a: Key, b: Key, c: Key)
    requires Orders(cmp, K) && a in K && b in K && c in K && cmp(a, b) < 0 && cmp(b, c) < 0
    ensures cmp(a, c) < 0
  {
  }

  lemma Turned(cmp: (Key, Key) -> int, K: set<Key>, a: Key, b: Key)
    requires Orders(cmp, K) && a in K && b in K
    ensures cmp(a, b) == 0 <==> a == b
    ensures cmp(a, b) < 0 <==> cmp(b, a) > 0
  {
  }

  lemma InOrder(keys: seq<Key>, cmp: (Key, Key) -> int, i: nat, j: nat)
    requires Sorted(keys, cmp) && i < j < |keys|
    ensures cmp(keys[i], keys[j]) < 0
  {
  }

  lemma KeyAt(keys: seq<Key>, s: Key, cmp: (Key, Key) -> int, i: nat)
    requires Orders(cmp, KeySet(keys) + {s}) && i < |keys|
    ensures keys[i] in KeySet(keys) + {s} && (cmp(s, keys[i]) == 0 <==> s == keys[i]) &&
            (cmp(s, keys[i]) > 0 <==> cmp(keys[i], s) < 0)
  {
    hide Orders;
    assert keys[i] in keys;
    Turned(cmp, KeySet(keys) + {s}, s, keys[i]);
    Turned(cmp, KeySet(keys) + {s}, keys[i], s);
  }

  lemma SmallerBefore(keys: seq<Key>, s: Key, cmp: (Key, Key) -> int, p: nat, i: nat)
    requires Orders(cmp, KeySet(keys) + {s}) && Sorted(keys, cmp) && i < p <= |keys| && cmp(s, keys[p - 1]) > 0
    ensures cmp(keys[i], s) < 0
  {
    hide Orders, Sorted;
    KeyAt(keys, s, cmp, i);
    KeyAt(keys, s, cmp, p - 1);
    if i < p - 1 {
      InOrder(keys, cmp, i, p - 1);
      Chained(cmp, KeySet(keys) + {s}, keys[i], keys[p - 1], s);
    }
  }

  lemma GreaterBehind(keys: seq<Key>, s: Key, cmp: (Key, Key) -> int, p: nat, i: nat)
    requires Orders(cmp, KeySet(keys) + {s}) && Sorted(keys, cmp) && p <= i < |keys| && cmp(s, keys[p]) < 0
    ensures cmp(s, keys[i]) < 0
  {
    hide Orders, Sorted;
    KeyAt(keys, s, cmp, i);
    KeyAt(keys, s, cmp, p);
    if p < i {
      InOrder(keys, cmp, p, i);
      Chained(cmp, KeySet(keys) + {s}, s, keys[p], keys[i]);
    }
  }

  /** If the keys and s are ordered, searching a sorted table finds s exactly if it is there; otherwise s
      belongs where the search ends. */
  lemma SearchFindsExactly(keys: seq<Key>, s: Key, cmp: (Key, Key) -> int)
    requires Orders(cmp, KeySet(keys) + {s}) && Sorted(keys, cmp)
    ensures var n := BinSearch(keys, 0, |keys|, s, cmp);
            (n >= 0 <==> s in keys) && (n >= 0 ==> keys[n] == s) &&
            (n < 0 ==> (forall i :: 0 <= i < -n - 1 ==> cmp(keys[i], s) < 0) && forall i :: -n - 1 <= i < |keys| ==>
             cmp(s, keys[i]) < 0)
  {
    hide Orders, Sorted, BinSearch, KeySet;
    var n := BinSearch(keys, 0, |keys|, s, cmp);
    if n >= 0 {
      KeyAt(keys, s, cmp, n);
    } else {
      forall i | 0 <= i < |keys|
        ensures if i < -n - 1 then cmp(keys[i], s) < 0 else cmp(s, keys[i]) < 0
        ensures keys[i] != s
      {
        KeyAt(keys, s, cmp, i);
        if i < -n - 1 {
          SmallerBefore(keys, s, cmp, -n - 1, i);
        } else {
          GreaterBehind(keys, s, cmp, -n - 1, i);
        }
      }
    }
  }

  // ----- runs of insertions -------------------------------------------------------------------------------

  /** The keys after paInsert: a key that is not found goes where the search ended. */
  function InsertKey(keys: seq<Key>, s: Key, cmp: (Key, Key) -> int): (keys': seq<Key>)
    ensures forall k :: k in keys' ==> k in keys || k == s
    ensures forall k :: k in keys ==> k in keys'
  {
    var n := BinSearch(keys, 0, |keys|, s, cmp);
    if n >= 0 then keys else Put(keys, -n - 1, s)
  }

  function Put<T(!new)>(xs: seq<T>, n: nat, x: T): (r: seq<T>)
    requires n <= |xs|
    ensures |r| == |xs| + 1
    ensures forall i :: 0 <= i < |r| ==> r[i] == if i < n then xs[i] else if i == n then x else xs[i - 1]
    ensures forall y :: y in r <==> y in xs || y == x
  {
    assert xs == xs[..n] + xs[n..];
    xs[..n] + [x] + xs[n..]
  }

  /** The keys after a run of insertions into the empty table. */
  function InsertAll(run: seq<Key>, cmp: (Key, Key) -> int): (keys: seq<Key>)
    ensures forall k :: k in keys ==> k in run
  {
    if run == [] then [] else InsertKey(InsertAll(run[..|run| - 1], cmp), run[|run| - 1], cmp)
  }

  /** No key has two entries. */
  ghost predicate Unique(keys: seq<Key>) {
    forall i, j :: 0 <= i < j < |keys| ==> keys[i] != keys[j]
  }

  lemma OrdersSubset(cmp: (Key, Key) -> int, K: set<Key>, K': set<Key>)
    requires Orders(cmp, K) && K' <= K
    ensures Orders(cmp, K')
  {
  }

  /** Inserting an ordered key keeps the table sorted, and adds the key exactly if it was not there. */
  lemma InsertKeepsSorted(keys: seq<Key>, s: Key, cmp: (Key, Key) -> int)
    requires Orders(cmp, KeySet(keys) + {s}) && Sorted(keys, cmp)
    ensures Sorted(InsertKey(keys, s, cmp), cmp) && KeySet(InsertKey(keys, s, cmp)) == KeySet(keys) + {s}
    ensures s in keys ==> InsertKey(keys, s, cmp) == keys
  {
    hide Orders, Sorted, KeySet, BinSearch;
    SearchFindsExactly(keys, s, cmp);
    InsertKeySet(keys, s, cmp);
    var n := BinSearch(keys, 0, |keys|, s, cmp);
    if n < 0 {
      PutSorted(keys, -n - 1, s, cmp);
    }
  }

  lemma InsertKeySet(keys: seq<Key>, s: Key, cmp: (Key, Key) -> int)
    requires BinSearch(keys, 0, |keys|, s, cmp) >= 0 ==> s in keys
    ensures KeySet(InsertKey(keys, s, cmp)) == KeySet(keys) + {s}
  {
  }

  lemma PutSorted(keys: seq<Key>, n: nat, s: Key, cmp: (Key, Key) -> int)
    requires Sorted(keys, cmp) && n <= |keys|
    requires (forall i :: 0 <= i < n ==> cmp(keys[i], s) < 0) && forall i :: n <= i < |keys| ==> cmp(s, keys[i]) < 0
    ensures Sorted(Put(keys, n, s), cmp)
  {
    var keys' := Put(keys, n, s);
    forall i, j | 0 <= i < j < |keys'|
      ensures cmp(keys'[i], keys'[j]) < 0
    {
    }
  }

  /** As long as the keys are ordered, every run of insertions gives a sorted table of exactly these keys,
      each with one entry. */
  lemma {:induction false} RunKeepsSorted(run: seq<Key>, cmp: (Key, Key) -> int, K: set<Key>)
    requires Orders(cmp, K) && KeySet(run) <= K
    ensures Sorted(InsertAll(run, cmp), cmp) && KeySet(InsertAll(run, cmp)) == KeySet(run) &&
            Unique(InsertAll(run, cmp))
  {
    if run != [] {
      var front, s := run[..|run| - 1], run[|run| - 1];
      assert run == front + [s];
      assert s in run && forall k :: k in front ==> k in run;
      assert KeySet(run) == KeySet(front) + {s};
      RunKeepsSorted(front, cmp, K);
      OrdersSubset(cmp, K, KeySet(InsertAll(front, cmp)) + {s});
      InsertKeepsSorted(InsertAll(front, cmp), s, cmp);
    }
    SortedIsUnique(InsertAll(run, cmp), cmp, K);
  }

  lemma SortedIsUnique(keys: seq<Key>, cmp: (Key, Key) -> int, K: set<Key>)
    requires Orders(cmp, K) && KeySet(keys) <= K && Sorted(keys, cmp)
    ensures Unique(keys)
  {
    forall i, j | 0 <= i < j < |keys|
      ensures keys[i] != keys[j]
    {
      assert keys[i] in keys && keys[i] in KeySet(keys) && cmp(keys[i], keys[i]) == 0;
    }
  }

  // ----- tables as finite maps --------------------------------------------------------------------------

  /** The offsets of a table all lead to stored records. */
  ghost predicate Stored(offs: seq<int>, records: map<int, Key>) {
    forall i :: 0 <= i < |offs| ==> offs[i] in records
  }

  /** Each record of a table takes up len bytes, and a string, where len is negative, one more than it has
      characters. */
  ghost predicate Sized(offs: seq<int>, records: map<int, Key>, sizes: map<int, nat>, len: int) {
    forall o :: o in offs ==>
      o in records && o in sizes && sizes[o] == if len < 0 then |records[o]| + 1 else len
  }

  function KeysOf(offs: seq<int>, records: map<int, Key>): (ks: seq<Key>)
    requires Stored(offs, records)
    ensures |ks| == |offs| && forall i :: 0 <= i < |offs| ==> ks[i] == records[offs[i]]
  {
    seq(|offs|, i requires 0 <= i < |offs| && offs[i] in records => records[offs[i]])
  }

  /** The table as a relation: key k has offset o. */
  ghost predicate MapsTo(offs: seq<int>, records: map<int, Key>, k: Key, o: int) {
    o in offs && o in records && records[o] == k
  }

  /** Key s has got the offset r, all other keys keep theirs. */
  ghost predicate Extended(offs: seq<int>, records: map<int, Key>, offs': seq<int>, records': map<int, Key>, s: Key,
                           r: int) {
    forall k, o :: MapsTo(offs', records', k, o) <==> MapsTo(offs, records, k, o) || (k == s && o == r)
  }

  /** The table grows as a finite map: s has the offset r, which is its old one if it had one, and the next
      free one otherwise; all other keys keep theirs. */
  ghost predicate GrowsBy(offs: seq<int>, records: map<int, Key>, next: nat, offs': seq<int>, records': map<int, Key>,
                          next': nat, s: Key, r: int, size: nat)
    requires Stored(offs, records)
  {
    Extended(offs, records, offs', records', s, r) &&
    if s in KeysOf(offs, records) then MapsTo(offs, records, s, r) && next' == next else r == next && next' == r + size
  }

  /** In a table without double keys equal keys have one offset, different keys different ones. */
  lemma OneToOne(offs: seq<int>, records: map<int, Key>, k: Key, o: int, k': Key, o': int)
    requires Stored(offs, records) && Unique(KeysOf(offs, records))
    requires MapsTo(offs, records, k, o) && MapsTo(offs, records, k', o')
    ensures k == k' <==> o == o'
  {
    var ks := KeysOf(offs, records);
    var i :| 0 <= i < |offs| && offs[i] == o;
    var j :| 0 <= j < |offs| && offs[j] == o';
    assert ks[i] == k && ks[j] == k';
    assert i < j ==> ks[i] != ks[j];
    assert j < i ==> ks[j] != ks[i];
  }

  /** A key has an offset exactly if it is among the keys of the table. */
  lemma MappedExactly(offs: seq<int>, records: map<int, Key>, s: Key)
    requires Stored(offs, records)
    ensures (exists o :: MapsTo(offs, records, s, o)) <==> s in KeysOf(offs, records)
  {
    var ks := KeysOf(offs, records);
    if s in ks {
      var i :| 0 <= i < |ks| && ks[i] == s;
      assert MapsTo(offs, records, s, offs[i]);
    }
    if o :| MapsTo(offs, records, s, o) {
      var i :| 0 <= i < |offs| && offs[i] == o;
      assert ks[i] == s;
    }
  }

  /** A new record and its entry at n: the keys get s at n, s gets the offset ptr, and every other key keeps
      its own. */
  lemma EntryPut(offs: seq<int>, records: map<int, Key>, n: nat, ptr: int, s: Key)
    requires Stored(offs, records) && ptr !in records && n <= |offs|
    ensures Stored(Put(offs, n, ptr), records[ptr := s])
    ensures KeysOf(Put(offs, n, ptr), records[ptr := s]) == Put(KeysOf(offs, records), n, s)
    ensures Extended(offs, records, Put(offs, n, ptr), records[ptr := s], s, ptr)
  {
    var offs', records' := Put(offs, n, ptr), records[ptr := s];
    assert ptr !in offs;
    forall i | 0 <= i < |offs'|
      ensures offs'[i] in records' &&
              records'[offs'[i]] == if i < n then records[offs[i]] else if i == n then s else records[offs[i - 1]]
    {
      var o := offs'[i];
      assert i < n ==> o == offs[i];
      assert i > n ==> o == offs[i - 1];
    }
  }

  /** ... and takes up as many bytes as its kind of record does. */
  lemma SizedPut(offs: seq<int>, records: map<int, Key>, sizes: map<int, nat>, len: int, n: nat, ptr: int, s: Key,
                 size: nat)
    requires Sized(offs, records, sizes, len) && ptr !in records && n <= |offs|
    requires size == if len < 0 then |s| + 1 else len
    ensures Sized(Put(offs, n, ptr), records[ptr := s], sizes[ptr := size], len)
  {
    assert forall o :: o in Put(offs, n, ptr) ==> o in offs || o == ptr;
    assert ptr !in offs;
  }

  lemma EntrySized(offs: seq<int>, records: map<int, Key>, sizes: map<int, nat>, len: int, n: nat)
    requires Sized(offs, records, sizes, len) && n < |offs|
    ensures offs[n] in records && offs[n] in sizes && sizes[offs[n]] == if len < 0 then |records[offs[n]]| + 1 else len
  {
    var o := offs[n];
    assert o in offs;
  }

  /** Records that other tables add do not disturb a table. */
  lemma OtherRecordsKept(offs: seq<int>, records: map<int, Key>, sizes: map<int, nat>, records': map<int, Key>,
                         sizes': map<int, nat>, len: int)
    requires Stored(offs, records) && Sized(offs, records, sizes, len)
    requires forall o :: o in records ==> o in records' && records'[o] == records[o]
    requires forall o :: o in sizes ==> o in sizes' && sizes'[o] == sizes[o]
    ensures Stored(offs, records') && Sized(offs, records', sizes', len) &&
            KeysOf(offs, records') == KeysOf(offs, records)
    ensures forall k, o :: MapsTo(offs, records', k, o) <==> MapsTo(offs, records, k, o)
  {
    forall i | 0 <= i < |offs|
      ensures offs[i] in records' && records'[offs[i]] == records[offs[i]]
    {
      var o := offs[i];
      assert o in records && o in records' && records'[o] == records[o];
    }
    assert KeysOf(offs, records') == KeysOf(offs, records);
  }

  // ----- the tables -----------------------------------------------------------------------------------

  /** paPlain: what is stored at each offset handed out, and the next free offset. */
  class Plain {
    var records: map<int, Key>
    var next: nat
    const end: nat
    ghost var sizes: map<int, nat>   // the bytes that each record takes up

    /** The records lie below next and do not overlap. */
    ghost predicate Valid()
      reads this
    {
      next <= end && sizes.Keys == records.Keys && (forall o :: o in sizes ==> 0 <= o && o + sizes[o] <= next) &&
      (forall o :: o in sizes ==> sizes[o] > 0) &&
      forall o, o' :: o in sizes && o' in sizes && o < o' ==> o + sizes[o] <= o'
    }

    constructor (end: nat)
      ensures Valid() && records == map[] && sizes == map[] && next == 0 && this.end == end
    {
      this.end := end;
      records, sizes, next := map[], map[], 0;
    }
  }

  /** One table: the offsets of its records, in the order of its entries. */
  class Table {
    const cmp: (Key, Key) -> int
    const len: int                 // size of a record, negative for strings
    const plain: Plain
    const tab: array<int>          // from PA_TABOFF on; its length is tab[0] of the source
    var count: nat                 // tab[1] of the source

    ghost predicate Valid()
      reads this, tab, plain
    {
      plain.Valid() && len != 0 && count <= tab.Length && Stored(tab[..count], plain.records) &&
      Sized(tab[..count], plain.records, plain.sizes, len)
    }

    /** The keys in the order of the entries. */
    ghost function Keys(): seq<Key>
      requires Valid()
      reads this, tab, plain
    {
      KeysOf(tab[..count], plain.records)
    }

    /** The table is sorted, and its keys and s are ordered. */
    ghost predicate OrderedWith(s: Key)
      requires Valid()
      reads this, tab, plain
    {
      Sorted(Keys(), cmp) && Orders(cmp, KeySet(Keys()) + {s})
    }

    constructor (cmp: (Key, Key) -> int, len: int, plain: Plain, max: nat)
      requires plain.Valid() && len != 0
      ensures Valid() && Keys() == [] && tab.Length == max && this.plain == plain && this.cmp == cmp && fresh(tab)
    {
      this.cmp, this.len, this.plain := cmp, len, plain;
      tab := new int[max](i => 0);
      count := 0;
    }

    function Size(s: Key): nat
      requires len != 0
    {
      if len < 0 then |s| + 1 else len
    }

    /** paInsert: the offset of s.  Whatever the comparison function does, the keys change as InsertKey
        says, and no record is lost.  If it orders the keys, the table stays a finite map that only grows:
        a known key keeps its offset, a new one gets the next free one.  s is the key as the table compares
        it; the caller has replaced a null string. */
    method Insert(s: Key) returns (out: Outcome, r: int)
      requires Valid()
      modifies this, tab, plain
      ensures Valid()
      ensures out == (if old(BinSearch(Keys(), 0, count, s, cmp)) >= 0 then Done
                      else if old(count) == tab.Length then TableOverflow
                      else if old(plain.next) + Size(s) > plain.end then PlainOverflow else Done)
      ensures out != Done ==> count == old(count) && tab[..] == old(tab[..])
      ensures out != Done ==>
                plain.records == old(plain.records) && plain.sizes == old(plain.sizes) && plain.next == old(plain.next)
      ensures out == Done ==> Keys() == InsertKey(old(Keys()), s, cmp)
      ensures forall o :: o in old(plain.records) ==> o in plain.records && plain.records[o] == old(plain.records)[o]
      ensures forall o :: o in old(plain.sizes) ==> o in plain.sizes && plain.sizes[o] == old(plain.sizes)[o]
      ensures out == Done ==> r in plain.records && r in plain.sizes &&
                              (plain.records[r] == s || cmp(s, plain.records[r]) == 0) &&
                              plain.sizes[r] == if len < 0 then |plain.records[r]| + 1 else len
      ensures old(OrderedWith(s)) ==> OrderedWith(s) && Unique(Keys())
      ensures old(OrderedWith(s)) && out == Done ==>
                GrowsBy(old(tab[..count]), old(plain.records), old(plain.next), tab[..count], plain.records, plain.next,
                        s, r, Size(s))
    {
      hide Sorted, Orders, Stored, Unique, BinSearch, KeySet, Extended, KeysOf, Put, InsertKey, Sized;
      var keys := KeysOf(tab[..count], plain.records);
      var n := BinSearch(keys, 0, count, s, cmp);
      InsertKeyIs(keys, s, cmp);
      AfterSearch(keys, s, cmp);
      if n < 0 {
        out, r := InsertNew(-n - 1, s);
      } else {
        FoundEntry(tab[..count], plain.records, n);
        EntrySized(tab[..count], plain.records, plain.sizes, len, n);
        r := tab[n];
        out := Done;
      }
    }

    /** s was not found and gets the entry n. */
    method InsertNew(n: nat, s: Key) returns (out: Outcome, r: int)
      requires Valid() && n <= count
      modifies this, tab, plain
      ensures Valid()
      ensures out == if old(count) == tab.Length then TableOverflow
                     else if old(plain.next) + Size(s) > plain.end then PlainOverflow else Done
      ensures out != Done ==> count == old(count) && tab[..] == old(tab[..])
      ensures out != Done ==>
                plain.records == old(plain.records) && plain.sizes == old(plain.sizes) && plain.next == old(plain.next)
      ensures out == Done ==> Keys() == Put(old(Keys()), n, s) && r == old(plain.next) && plain.next == r + Size(s)
      ensures out == Done ==> Extended(old(tab[..count]), old(plain.records), tab[..count], plain.records, s, r)
      ensures out == Done ==> old(plain.next) !in old(plain.records) && plain.records == old(plain.records)[r := s]
      ensures out == Done ==> plain.sizes == old(plain.sizes)[r := Size(s)]
    {
      hide Stored, Extended, KeysOf, Put, Sized;
      if tab.Length == count {
        return TableOverflow, 0;
      }
      var ptr := plain.next;
      plain.next := plain.next + Size(s);
      if plain.next > plain.end {
        plain.next := plain.next - Size(s);
        return PlainOverflow, 0;
      }
      SizedPut(tab[..count], plain.records, plain.sizes, len, n, ptr, s, Size(s));
      plain.sizes := plain.sizes[ptr := Size(s)];
      Add(n, ptr, s);
      r := tab[n];
      out := Done;
    }

    /** A new record at ptr, and its entry at position n of the table. */
    method Add(n: nat, ptr: nat, s: Key)
      requires n <= count < tab.Length && Stored(tab[..count], plain.records) && ptr !in plain.records
      modifies this`count, tab, plain`records
      ensures count == old(count) + 1 && Stored(tab[..count], plain.records) && tab[n] == ptr
      ensures plain.records == old(plain.records)[ptr := s]
      ensures tab[..count] == Put(old(tab[..count]), n, ptr)
      ensures KeysOf(tab[..count], plain.records) == Put(old(KeysOf(tab[..count], plain.records)), n, s)
      ensures Extended(old(tab[..count]), old(plain.records), tab[..count], plain.records, s, ptr)
    {
      hide Extended, Stored;
      EntryPut(tab[..count], plain.records, n, ptr, s);
      plain.records := plain.records[ptr := s];
      PutEntry(n, ptr);
      count := count + 1;
    }

    /** The entries from n on move up by one, and the gap is filled. */
    method PutEntry(n: nat, ptr: int)
      requires n <= count < tab.Length
      modifies tab
      ensures tab[..count + 1] == Put(old(tab[..count]), n, ptr) && tab[n] == ptr
    {
      forall i | n < i <= count {
        tab[i] := tab[i - 1];
      }
      tab[n] := ptr;
    }
  }

  /** Different records share no byte. */
  lemma RecordsApart(plain: Plain, o: int, o': int, i: int, i': int)
    requires plain.Valid() && o in plain.records && o' in plain.records && o != o'
    requires o <= i < o + plain.sizes[o] && o' <= i' < o' + plain.sizes[o']
    ensures 0 <= i < plain.next && i != i'
  {
    assert o in plain.sizes && o' in plain.sizes;
  }

  lemma InsertKeyIs(keys: seq<Key>, s: Key, cmp: (Key, Key) -> int)
    ensures var n := BinSearch(keys, 0, |keys|, s, cmp);
            InsertKey(keys, s, cmp) == if n >= 0 then keys else Put(keys, -n - 1, s)
  {
    hide BinSearch, Put;
  }

  /** The keys after an insertion, if they are ordered. */
  lemma AfterSearch(keys: seq<Key>, s: Key, cmp: (Key, Key) -> int)
    ensures var n, keys' := BinSearch(keys, 0, |keys|, s, cmp), InsertKey(keys, s, cmp);
            Sorted(keys, cmp) && Orders(cmp, KeySet(keys) + {s}) ==>
              (n >= 0 <==> s in keys) && (n >= 0 ==> keys[n] == s) && Sorted(keys', cmp) &&
              KeySet(keys') + {s} == KeySet(keys) + {s} && Unique(keys') && Unique(keys)
  {
    hide Sorted, Orders, Unique, BinSearch, InsertKey, KeySet;
    if Sorted(keys, cmp) && Orders(cmp, KeySet(keys) + {s}) {
      SearchFindsExactly(keys, s, cmp);
      InsertKeepsSorted(keys, s, cmp);
      SortedIsUnique(keys, cmp, KeySet(keys) + {s});
      SortedIsUnique(InsertKey(keys, s, cmp), cmp, KeySet(keys) + {s});
    }
  }

  lemma FoundEntry(offs: seq<int>, records: map<int, Key>, n: nat)
    requires Stored(offs, records) && n < |offs|
    ensures MapsTo(offs, records, KeysOf(offs, records)[n], offs[n])
    ensures Extended(offs, records, offs, records, KeysOf(offs, records)[n], offs[n])
  {
  }
}
