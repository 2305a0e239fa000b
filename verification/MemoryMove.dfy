/** Moving and copying bytes inside one memory object (zero_Memory_org.c, zero_Memory_simple.c).  ram is the
  memory of the machine; the object is its size bytes from base on. */
module MemoryMove {

  type Byte = b: int | 0 <= b < 256

  /** The count bytes from src on, copied to dst all at once. */
  function Moved(m: seq<Byte>, dst: nat, src: nat, count: nat): (r: seq<Byte>)
    requires dst + count <= |m| && src + count <= |m|
    ensures |r| == |m|
    ensures forall j :: 0 <= j < |m| ==> r[j] == if dst <= j < dst + count then m[src + (j - dst)] else m[j]
  {
    m[..dst] + m[src..src + count] + m[dst + count..]
  }

  /** Bytes lo up to hi of the count bytes have arrived, everything else is as in m. */
  ghost predicate PartMoved(m: seq<Byte>, a: seq<Byte>, dst: nat, src: nat, lo: nat, hi: nat) {
    |a| == |m| && lo <= hi && dst + hi <= |m| && src + hi <= |m| &&
    forall j {:trigger a[j]} :: 0 <= j < |m| ==> a[j] == if dst + lo <= j < dst + hi then m[src + (j - dst)] else m[j]
  }

  datatype Outcome = Done | IndexOutOfBounds | Panic

  /** movsb and its equivalents: one byte. */
  method MoveByte(a: array<Byte>, dst: nat, src: nat)
    requires dst < a.Length && src < a.Length
    modifies a
    ensures a[..] == Moved(old(a[..]), dst, src, 1)
  {
    a[dst] := a[src];
  }

  /** movsw: both bytes are read before any is written. */
  method MoveWord(a: array<Byte>, dst: nat, src: nat)
    requires dst + 2 <= a.Length && src + 2 <= a.Length
    modifies a
    ensures a[..] == Moved(old(a[..]), dst, src, 2)
  {
    a[dst], a[dst + 1] := a[src], a[src + 1];
  }

  /** One step of movsl. */
  method MoveLong(a: array<Byte>, dst: nat, src: nat)
    requires dst + 4 <= a.Length && src + 4 <= a.Length
    modifies a
    ensures a[..] == Moved(old(a[..]), dst, src, 4)
  {
    a[dst], a[dst + 1], a[dst + 2], a[dst + 3] := a[src], a[src + 1], a[src + 2], a[src + 3];
  }

  /** A chunk of n bytes behind those already moved upwards: its source is still intact because the
      source lies above the destination. */
  lemma NextUp(m: seq<Byte>, a: seq<Byte>, dst: nat, src: nat, hi: nat, n: nat)
    requires dst < src && PartMoved(m, a, dst, src, 0, hi) && src + hi + n <= |m|
    ensures PartMoved(m, Moved(a, dst + hi, src + hi, n), dst, src, 0, hi + n)
  {
    var a' := Moved(a, dst + hi, src + hi, n);
    forall j | 0 <= j < |m|
      ensures a'[j] == if dst <= j < dst + hi + n then m[src + (j - dst)] else m[j]
    {
      if dst + hi <= j < dst + hi + n {
        assert a'[j] == a[src + (j - dst)];
      }
    }
  }

  /** A chunk of n bytes in front of those already moved downwards. */
  lemma NextDown(m: seq<Byte>, a: seq<Byte>, dst: nat, src: nat, lo: nat, hi: nat, n: nat)
    requires src <= dst && PartMoved(m, a, dst, src, lo, hi) && n <= lo
    ensures PartMoved(m, Moved(a, dst + lo - n, src + lo - n, n), dst, src, lo - n, hi)
  {
    var a' := Moved(a, dst + lo - n, src + lo - n, n);
    forall j | 0 <= j < |m|
      ensures a'[j] == if dst + lo - n <= j < dst + hi then m[src + (j - dst)] else m[j]
    {
      if dst + lo - n <= j < dst + lo {
        assert a'[j] == a[src + (j - dst)];
      }
    }
  }

  lemma NothingMoved(m: seq<Byte>, dst: nat, src: nat, n: nat)
    requires dst + n <= |m| && src + n <= |m|
    ensures PartMoved(m, m, dst, src, n, n)
  {
  }

  lemma AllMoved(m: seq<Byte>, a: seq<Byte>, dst: nat, src: nat, count: nat)
    requires PartMoved(m, a, dst, src, 0, count)
    ensures a == Moved(m, dst, src, count)
  {
    forall j | 0 <= j < |m|
      ensures a[j] == Moved(m, dst, src, count)[j]
    {
    }
  }

  /** memory_move: upwards with the direction flag clear, downwards with it set; first the odd byte,
      then the odd word, then double words.  Only the upper bounds are tested, so negative offsets lead to
      the bytes below the object, which must exist. */
  method Move(ram: array<Byte>, base: nat, size: nat, dst: int, src: int, count: nat) returns (out: Outcome)
    requires base + size <= ram.Length && base + dst >= 0 && base + src >= 0
    modifies ram
    ensures out == if dst + count > size || src + count > size then IndexOutOfBounds else Done
    ensures out == IndexOutOfBounds ==> ram[..] == old(ram[..])
    ensures out == Done ==> ram[..] == Moved(old(ram[..]), base + dst, base + src, count)
  {
    if dst + count > size || src + count > size {
      return IndexOutOfBounds;
    }
    if dst < src {
      MoveUp(ram, base + dst, base + src, count);
    } else {
      MoveDown(ram, base + dst, base + src, count);
    }
    out := Done;
  }

  /** What the test of memory_move leaves open: the bytes outside the object stay as they are, whatever the
      contents, exactly if the destination is not negative or nothing is really moved. */
  lemma MoveStaysInsideExactly(total: nat, base: nat, size: nat, dst: int, src: int, count: nat)
    requires base + size <= total && base + dst >= 0 && base + src >= 0 && dst + count <= size && src + count <= size
    ensures (forall m: seq<Byte> :: |m| == total ==>
             OutsideKept(m, Moved(m, base + dst, base + src, count), base, size)) <==>
            dst >= 0 || count == 0 || dst == src
  {
    hide Moved;
    if dst >= 0 || count == 0 || dst == src {
      forall m: seq<Byte> | |m| == total
        ensures OutsideKept(m, Moved(m, base + dst, base + src, count), base, size)
      {
        MoveInside(m, base, size, dst, src, count);
      }
    } else {
      var m := seq(total, j requires 0 <= j < total => if j == base + dst then 1 else 0);
      var d, s := base + dst, base + src;
      assert m[s] == 0 && m[d] == 1 && Moved(m, d, s, count)[d] == m[s + (d - d)];
      assert !OutsideKept(m, Moved(m, base + dst, base + src, count), base, size);
    }
  }

  lemma MoveInside(m: seq<Byte>, base: nat, size: nat, dst: int, src: int, count: nat)
    requires base + size <= |m| && base + dst >= 0 && base + src >= 0 && dst + count <= size && src + count <= size
    requires dst >= 0 || count == 0 || dst == src
    ensures OutsideKept(m, Moved(m, base + dst, base + src, count), base, size)
  {
    forall j | 0 <= j < |m| && !(base <= j < base + size)
      ensures Moved(m, base + dst, base + src, count)[j] == m[j]
    {
      MovedAt(m, base + dst, base + src, count, j);
    }
  }

  lemma MovedAt(m: seq<Byte>, dst: nat, src: nat, count: nat, j: nat)
    requires dst + count <= |m| && src + count <= |m| && j < |m|
    ensures Moved(m, dst, src, count)[j] == if dst <= j < dst + count then m[src + (j - dst)] else m[j]
  {
  }

  ghost predicate OutsideKept(m: seq<Byte>, m': seq<Byte>, base: nat, size: nat) {
    |m'| == |m| && forall j {:trigger m'[j]} :: 0 <= j < |m| && !(base <= j < base + size) ==> m'[j] == m[j]
  }

  method MoveUp(mem: array<Byte>, dst: nat, src: nat, count: nat)
    requires dst < src && src + count <= mem.Length
    modifies mem
    ensures mem[..] == Moved(old(mem[..]), dst, src, count)
  {
    hide PartMoved, Moved;
    ghost var m := mem[..];
    NothingMoved(m, dst, src, 0);
    var edi, esi, ecx := dst, src, count;
    ghost var done := 0;
    var carry := ecx % 2;
    ecx := ecx / 2;
    if carry == 1 {
      NextUp(m, mem[..], dst, src, done, 1);
      MoveByte(mem, edi, esi);
      edi, esi, done := edi + 1, esi + 1, done + 1;
    }
    carry := ecx % 2;
    ecx := ecx / 2;
    if carry == 1 {
      NextUp(m, mem[..], dst, src, done, 2);
      MoveWord(mem, edi, esi);
      edi, esi, done := edi + 2, esi + 2, done + 2;
    }
    while ecx != 0
      invariant done + 4 * ecx == count && edi == dst + done && esi == src + done && ecx >= 0
      invariant PartMoved(m, mem[..], dst, src, 0, done)
    {
      NextUp(m, mem[..], dst, src, done, 4);
      MoveLong(mem, edi, esi);
      edi, esi, done, ecx := edi + 4, esi + 4, done + 4, ecx - 1;
    }
    AllMoved(m, mem[..], dst, src, count);
  }

  /** edi and esi point four bytes below the end of what is still to be moved. */
  method MoveDown(mem: array<Byte>, dst: nat, src: nat, count: nat)
    requires src <= dst && dst + count <= mem.Length
    modifies mem
    ensures mem[..] == Moved(old(mem[..]), dst, src, count)
  {
    hide PartMoved, Moved;
    ghost var m := mem[..];
    NothingMoved(m, dst, src, count);
    var edi, esi, ecx := count - 4 + dst, count - 4 + src, count;
    ghost var left := count;
    var carry := ecx % 2;
    ecx := ecx / 2;
    if carry == 1 {
      NextDown(m, mem[..], dst, src, left, count, 1);
      MoveByte(mem, edi + 3, esi + 3);
      edi, esi, left := edi - 1, esi - 1, left - 1;
    }
    carry := ecx % 2;
    ecx := ecx / 2;
    if carry == 1 {
      NextDown(m, mem[..], dst, src, left, count, 2);
      MoveWord(mem, edi + 2, esi + 2);
      edi, esi, left := edi - 2, esi - 2, left - 2;
    }
    while ecx != 0
      invariant left == 4 * ecx && edi == dst + left - 4 && esi == src + left - 4 && ecx >= 0
      invariant left <= count && PartMoved(m, mem[..], dst, src, left, count)
    {
      NextDown(m, mem[..], dst, src, left, count, 4);
      MoveLong(mem, edi, esi);
      edi, esi, left, ecx := edi - 4, esi - 4, left - 4, ecx - 1;
    }
    AllMoved(m, mem[..], dst, src, count);
  }

  // ----- the plain byte loop of memory_copy ---------------------------------------------------------

  /** i modulo d. */
  function Wrap(i: nat, d: nat): (r: nat)
    requires d > 0
    ensures r <= i && r < d
  {
    if i < d then i else Wrap(i - d, d)
  }

  /** The byte that ends up at to + i: where the loop overtakes its own source, the first to - from
      bytes repeat. */
  function Source(from: nat, to: nat, i: nat): (r: nat)
    ensures r <= from + i
  {
    if to > from then from + Wrap(i, to - from) else from + i
  }

  /** The memory after memory_copy. */
  function Smeared(m: seq<Byte>, from: nat, to: nat, len: nat): (r: seq<Byte>)
    requires from + len <= |m| && to + len <= |m|
  {
    seq(|m|, j requires 0 <= j < |m| =>
      if to <= j < to + len then m[Source(from, to, j - to)] else m[j])
  }

  lemma {:induction false} WrapIsModulo(i: nat, d: nat)
    requires d > 0
    ensures Wrap(i, d) == i % d
  {
    if i < d {
      SmallModulo(i, d);
    } else {
      WrapIsModulo(i - d, d);
      StepModulo(i, d);
    }
  }

  lemma SmallModulo(i: nat, d: nat)
    requires i < d
    ensures i % d == i
  {
  }

  lemma StepModulo(i: nat, d: nat)
    requires 0 < d <= i
    ensures i % d == (i - d) % d
  {
    var q, q', r, r' := i / d, (i - d) / d, i % d, (i - d) % d;
    var n := q - q' - 1;
    assert i == d * q + r && i - d == d * q' + r';
    assert n * d == d * q - d * q' - d;
  }

  /** memory_copy; a negative len copies nothing, and negative offsets lead to the bytes below the
      object. */
  method Copy(ram: array<Byte>, base: nat, size: nat, from: int, to: int, len: int) returns (out: Outcome)
    requires base + size <= ram.Length && base + from >= 0 && base + to >= 0
    modifies ram
    ensures out == if to + len > size || from + len > size then Panic else Done
    ensures out == Panic || len <= 0 ==> ram[..] == old(ram[..])
    ensures out == Done && len >= 0 ==> ram[..] == Smeared(old(ram[..]), base + from, base + to, len)
  {
    if to + len > size {
      return Panic;
    }
    if from + len > size {
      return Panic;
    }
    ghost var m, f, t := ram[..], base + from, base + to;
    var i := 0;
    while i < len
      invariant 0 <= i && (len >= 0 ==> i <= len) && (len < 0 ==> i == 0)
      invariant PartSmeared(m, ram[..], f, t, i)
    {
      NextSmeared(m, ram[..], f, t, i);
      ram[base + to + i] := ram[base + from + i];
      i := i + 1;
    }
    if len >= 0 {
      AllSmeared(m, ram[..], f, t, len);
    }
    out := Done;
  }

  ghost predicate PartSmeared(m: seq<Byte>, a: seq<Byte>, from: nat, to: nat, i: nat) {
    |a| == |m| && (i > 0 ==> from + i <= |m| && to + i <= |m|) &&
    (forall j :: 0 <= j < |m| && !(to <= j < to + i) ==> a[j] == m[j]) &&
    forall j :: to <= j < to + i ==> a[j] == m[Source(from, to, j - to)]
  }

  lemma NextSmeared(m: seq<Byte>, a: seq<Byte>, from: nat, to: nat, i: nat)
    requires PartSmeared(m, a, from, to, i) && from + i < |m| && to + i < |m|
    ensures PartSmeared(m, a[to + i := a[from + i]], from, to, i + 1)
  {
    assert a[from + i] == m[Source(from, to, i)];
  }

  lemma AllSmeared(m: seq<Byte>, a: seq<Byte>, from: nat, to: nat, len: nat)
    requires PartSmeared(m, a, from, to, len) && from + len <= |m| && to + len <= |m|
    ensures a == Smeared(m, from, to, len)
  {
  }

  /** The byte loop does what memory_move does, whatever the contents, exactly if the destination does
      not lie inside the source above its start. */
  lemma CopyIsMoveExactly(size: nat, from: nat, to: nat, len: nat)
    requires from + len <= size && to + len <= size
    ensures (forall m: seq<Byte> :: |m| == size ==> Smeared(m, from, to, len) == Moved(m, to, from, len)) <==>
            (to <= from || from + len <= to)
  {
    if to <= from || from + len <= to {
      forall m: seq<Byte> | |m| == size
        ensures Smeared(m, from, to, len) == Moved(m, to, from, len)
      {
        CopyIsMove(m, from, to, len);
      }
    } else {
      var m := seq(size, j requires 0 <= j < size => if j == to then 1 else 0);
      OvertakesItself(m, from, to, len);
    }
  }

  /** The byte at to comes back at to + (to - from), where the byte at from should be. */
  lemma OvertakesItself(m: seq<Byte>, from: nat, to: nat, len: nat)
    requires from < to < from + len && to + len <= |m| && m[from] == 0 && m[to] == 1
    ensures Smeared(m, from, to, len) != Moved(m, to, from, len)
  {
    var d := to - from;
    assert Wrap(d, d) == 0;
    assert Source(from, to, d) == from;
    assert Smeared(m, from, to, len)[to + d] == 0;
    MovedAt(m, to, from, len, to + d);
  }

  lemma CopyIsMove(m: seq<Byte>, from: nat, to: nat, len: nat)
    requires from + len <= |m| && to + len <= |m| && (to <= from || from + len <= to)
    ensures Smeared(m, from, to, len) == Moved(m, to, from, len)
  {
    forall j | 0 <= j < |m|
      ensures Smeared(m, from, to, len)[j] == Moved(m, to, from, len)[j]
    {
      assert to <= j < to + len ==> Source(from, to, j - to) == from + (j - to);
    }
  }

  /** Where the loop overtakes its source, the result repeats with period to - from. */
  lemma SmearedRepeats(m: seq<Byte>, from: nat, to: nat, len: nat, i: nat)
    requires from < to && from + len <= |m| && to + len <= |m| && i + (to - from) < len
    ensures Smeared(m, from, to, len)[to + i] == Smeared(m, from, to, len)[to + i + (to - from)]
  {
    assert Source(from, to, i) == Source(from, to, i + (to - from));
  }
}
