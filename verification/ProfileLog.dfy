/** The log of the heap profiler (gc_pa.c): records are collected in a buffer, which is compressed into
  a pool of length-prefixed frames whenever it is full. */
module ProfileLog {

  type Byte = b: int | 0 <= b < 256

  const IN_LEN := 64 * 1024
  const OUT_LEN := IN_LEN + IN_LEN / 64 + 16 + 3

  datatype Outcome = Done | Panic

  // ----- frames -------------------------------------------------------------------------------------

  /** A 32-bit length as the processor stores it, low byte first. */
  function Encode32(n: nat): (r: seq<Byte>)
    requires n < 0x1_0000_0000
    ensures |r| == 4 && Decode32(r) == n
    ensures n == (r[0] as int) + 0x100 * (r[1] as int) + 0x1_0000 * (r[2] as int) + 0x100_0000 * (r[3] as int)
  {
    var n1 := n / 256;
    var n2 := n1 / 256;
    [n % 256, n1 % 256, n2 % 256, n2 / 256]
  }

  function Decode32(b: seq<Byte>): nat
    requires |b| == 4
  {
    (b[0] as int) + 256 * ((b[1] as int) + 256 * ((b[2] as int) + 256 * (b[3] as int)))
  }

  function Frame(data: seq<Byte>): seq<Byte>
    requires |data| <= OUT_LEN
  {
    Encode32(|data|) + data
  }

  /** The pool splits into frames without rest. */
  ghost predicate WellFramed(pool: seq<Byte>) {
    pool == [] ||
    (|pool| >= 4 && var n := Decode32(pool[..4]); 4 + n <= |pool| && WellFramed(pool[4 + n..]))
  }

  /** What a reader gets: the frames one after the other, decompressed. */
  ghost function Unpacked(pool: seq<Byte>, decompress: seq<Byte> -> seq<Byte>): seq<Byte> {
    if |pool| < 4 then []
    else
      var n := Decode32(pool[..4]);
      if 4 + n > |pool| then [] else decompress(pool[4..4 + n]) + Unpacked(pool[4 + n..], decompress)
  }

  lemma {:induction false} FrameAppended(pool: seq<Byte>, data: seq<Byte>, decompress: seq<Byte> -> seq<Byte>)
    requires WellFramed(pool) && |data| <= OUT_LEN
    ensures WellFramed(pool + Frame(data))
    ensures Unpacked(pool + Frame(data), decompress) == Unpacked(pool, decompress) + decompress(data)
  {
    if pool == [] {
      OneFrame(data, decompress);
      assert pool + Frame(data) == Frame(data);
      assert Unpacked(pool, decompress) == [];
    } else {
      var n := Decode32(pool[..4]);
      FrameAppended(pool[4 + n..], data, decompress);
      FirstFrame(pool, Frame(data), n, decompress);
    }
  }

  lemma OneFrame(data: seq<Byte>, decompress: seq<Byte> -> seq<Byte>)
    requires |data| <= OUT_LEN
    ensures WellFramed(Frame(data)) && Unpacked(Frame(data), decompress) == decompress(data)
  {
    var p := Frame(data);
    assert p[..4] == Encode32(|data|) && p[4..4 + |data|] == data && p[4 + |data|..] == [];
    assert Unpacked([], decompress) == [];
    hide Encode32, Decode32, Frame;
  }

  /** Reading the first frame does not depend on what follows it. */
  lemma FirstFrame(pool: seq<Byte>, more: seq<Byte>, n: nat, decompress: seq<Byte> -> seq<Byte>)
    requires |pool| >= 4 && n == Decode32(pool[..4]) && 4 + n <= |pool|
    requires WellFramed(pool[4 + n..] + more)
    ensures WellFramed(pool + more)
    ensures Unpacked(pool + more, decompress) == decompress(pool[4..4 + n]) + Unpacked(pool[4 + n..] + more, decompress)
  {
    var p := pool + more;
    hide Decode32;
    assert p[..4] == pool[..4];
    assert p[4..4 + n] == pool[4..4 + n];
    assert p[4 + n..] == pool[4 + n..] + more;
  }

  // ----- blocks ---------------------------------------------------------------------------------------

  /** Block i of s. */
  function BlockAt(s: seq<Byte>, i: nat): seq<Byte> {
    if (i + 1) * IN_LEN <= |s| then s[i * IN_LEN..(i + 1) * IN_LEN] else []
  }

  /** The bytes that the first n blocks of s take up in the pool. */
  ghost function PackedLength(compress: seq<Byte> -> seq<Byte>, s: seq<Byte>, n: nat): nat {
    if n == 0 then 0 else PackedLength(compress, s, n - 1) + 4 + |compress(BlockAt(s, n - 1))|
  }

  lemma NextBlock(s: seq<Byte>, i: nat)
    requires IN_LEN <= |s|
    ensures BlockAt(s[IN_LEN..], i) == BlockAt(s, i + 1)
  {
  }

  lemma {:induction false} PackedShift(compress: seq<Byte> -> seq<Byte>, s: seq<Byte>, n: nat)
    requires IN_LEN <= |s|
    ensures PackedLength(compress, s, n + 1) ==
            4 + |compress(BlockAt(s, 0))| + PackedLength(compress, s[IN_LEN..], n)
  {
    hide BlockAt;
    if n > 0 {
      PackedShift(compress, s, n - 1);
      NextBlock(s, n - 1);
    }
  }

  /** How many blocks become frames when len bytes are stored behind ini pending ones: a full block stays in
      the buffer as long as nothing follows it. */
  function Frames(ini: nat, len: nat): (n: nat)
    ensures n * IN_LEN <= ini + len
    ensures len > 0 ==> n * IN_LEN < ini + len <= (n + 1) * IN_LEN
  {
    if len == 0 then 0 else (ini + len - 1) / IN_LEN
  }

  /** Whenever one of the first n blocks of s is written, the pool from next on has room for the longest
      frame that there can be. */
  ghost predicate HasRoom(compress: seq<Byte> -> seq<Byte>, s: seq<Byte>, n: nat, next: int, end: int) {
    forall j :: 0 <= j < n ==> next + PackedLength(compress, s, j) + 3 + OUT_LEN <= end
  }

  /** There is room for all frames exactly if there is room for the first one and, after it, for the others. */
  lemma RoomShift(compress: seq<Byte> -> seq<Byte>, s: seq<Byte>, n: nat, next: nat, end: nat)
    requires 0 < n && IN_LEN <= |s|
    ensures HasRoom(compress, s, n, next, end) <==>
              next + 3 + OUT_LEN <= end &&
              HasRoom(compress, s[IN_LEN..], n - 1, next + 4 + |compress(BlockAt(s, 0))|, end)
  {
    hide BlockAt;
    var rest, next' := s[IN_LEN..], next + 4 + |compress(BlockAt(s, 0))|;
    assert PackedLength(compress, s, 0) == 0;
    if HasRoom(compress, s, n, next, end) {
      assert next + PackedLength(compress, s, 0) + 3 + OUT_LEN <= end;
      forall j | 0 <= j < n - 1
        ensures next' + PackedLength(compress, rest, j) + 3 + OUT_LEN <= end
      {
        PackedShift(compress, s, j);
        assert next + PackedLength(compress, s, j + 1) + 3 + OUT_LEN <= end;
      }
    } else {
      var j :| 0 <= j < n && next + PackedLength(compress, s, j) + 3 + OUT_LEN > end;
      if j > 0 {
        PackedShift(compress, s, j - 1);
        assert next' + PackedLength(compress, rest, j - 1) + 3 + OUT_LEN > end;
      }
    }
  }

  /** What paStore has done with data behind the pending bytes: frames blocks have become frames, which end at
      next', and rest is pending.  If that is not all of it, the pool has no room for another frame, and what
      is left does not fit into the buffer. */
  ghost predicate StoreEffect(compress: seq<Byte> -> seq<Byte>, pending: seq<Byte>, data: seq<Byte>, out: Outcome,
                              frames: nat, next: nat, next': nat, end: nat, rest: seq<Byte>) {
    var all, n := pending + data, Frames(|pending|, |data|);
    next' == next + PackedLength(compress, all, frames) &&
    if out == Done then frames == n && n * IN_LEN <= |all| && rest == all[n * IN_LEN..]
    else
      frames < n && next' + 3 + OUT_LEN > end && rest == (if frames == 0 then pending else []) &&
      Accepted(|pending|, data, out, frames) < data &&
      |data| - |Accepted(|pending|, data, out, frames)| + |rest| > IN_LEN
  }

  /** The part of data that has been stored. */
  function Accepted(ini: nat, data: seq<Byte>, out: Outcome, frames: nat): seq<Byte> {
    var k := frames * IN_LEN - ini;
    if out == Done then data else if frames == 0 then [] else if 0 <= k <= |data| then data[..k] else data
  }

  lemma FewFrames(ini: nat, len: nat)
    ensures ini + len <= IN_LEN ==> Frames(ini, len) == 0
    ensures ini <= IN_LEN < ini + len ==> Frames(ini, len) == Frames(0, ini + len - IN_LEN) + 1
  {
  }

  /** Everything fits into the buffer. */
  lemma StoredInBuffer(compress: seq<Byte> -> seq<Byte>, pending: seq<Byte>, data: seq<Byte>, next: nat, end: nat)
    requires |pending| + |data| <= IN_LEN
    ensures HasRoom(compress, pending + data, Frames(|pending|, |data|), next, end)
    ensures StoreEffect(compress, pending, data, Done, 0, next, next, end, pending + data)
    ensures Accepted(|pending|, data, Done, 0) == data
  {
    FewFrames(|pending|, |data|);
  }

  /** There is no room even for the first frame. */
  lemma NothingStored(compress: seq<Byte> -> seq<Byte>, pending: seq<Byte>, data: seq<Byte>, next: nat, end: nat)
    requires |pending| <= IN_LEN < |pending| + |data| && next + 3 + OUT_LEN > end
    ensures !HasRoom(compress, pending + data, Frames(|pending|, |data|), next, end)
    ensures StoreEffect(compress, pending, data, Panic, 0, next, next, end, pending)
    ensures Accepted(|pending|, data, Panic, 0) == []
  {
    FewFrames(|pending|, |data|);
    assert PackedLength(compress, pending + data, 0) == 0;
  }

  /** The first block, and what follows it. */
  lemma FirstBlock(compress: seq<Byte> -> seq<Byte>, pending: seq<Byte>, data: seq<Byte>, next: nat, end: nat)
    requires |pending| <= IN_LEN < |pending| + |data| && next + 3 + OUT_LEN <= end
    ensures var all, l := pending + data, IN_LEN - |pending|;
            BlockAt(all, 0) == pending + data[..l] && all[IN_LEN..] == data[l..] == [] + data[l..] &&
            Frames(|pending|, |data|) == Frames(0, |data[l..]|) + 1 &&
            (HasRoom(compress, all, Frames(|pending|, |data|), next, end) <==>
             HasRoom(compress, [] + data[l..], Frames(0, |data[l..]|), next + 4 + |compress(pending + data[..l])|, end))
  {
    var all, l := pending + data, IN_LEN - |pending|;
    FewFrames(|pending|, |data|);
    assert all[IN_LEN..] == data[l..] == [] + data[l..];
    assert BlockAt(all, 0) == pending + data[..l];
    hide HasRoom, BlockAt, Frames;
    RoomShift(compress, all, Frames(|pending|, |data|), next, end);
  }

  /** The first block has become a frame, and the rest of data has been stored behind it. */
  lemma StoredBehind(compress: seq<Byte> -> seq<Byte>, pending: seq<Byte>, data: seq<Byte>, out: Outcome, frames: nat,
                     next: nat, next': nat, end: nat, rest: seq<Byte>)
    requires |pending| <= IN_LEN < |pending| + |data| && next + 3 + OUT_LEN <= end
    requires var l := IN_LEN - |pending|;
             StoreEffect(compress, [], data[l..], out, frames, next + 4 + |compress(pending + data[..l])|, next', end,
                         rest)
    ensures StoreEffect(compress, pending, data, out, frames + 1, next, next', end, rest)
    ensures Accepted(|pending|, data, out, frames + 1) ==
            data[..IN_LEN - |pending|] + Accepted(0, data[IN_LEN - |pending|..], out, frames)
  {
    var all := pending + data;
    FirstBlock(compress, pending, data, next, end);
    PackedShift(compress, all, frames);
    AcceptedBehind(pending, data, out, frames);
    RestOfBlocks(all, frames);
    hide HasRoom, PackedLength, BlockAt, Frames, Accepted;
  }

  lemma AcceptedBehind(pending: seq<Byte>, data: seq<Byte>, out: Outcome, frames: nat)
    requires |pending| <= IN_LEN < |pending| + |data|
    requires out == Panic ==> Accepted(0, data[IN_LEN - |pending|..], out, frames) < data[IN_LEN - |pending|..]
    ensures Accepted(|pending|, data, out, frames + 1) ==
            data[..IN_LEN - |pending|] + Accepted(0, data[IN_LEN - |pending|..], out, frames)
  {
    var l, k := IN_LEN - |pending|, frames * IN_LEN;
    assert data[..l] + data[l..] == data;
    if out == Panic && frames > 0 && l + k <= |data| {
      assert data[l..][..k] == data[l..l + k];
      assert data[..l] + data[l..l + k] == data[..l + k];
    }
  }

  lemma EffectMeans(compress: seq<Byte> -> seq<Byte>, pending: seq<Byte>, data: seq<Byte>, out: Outcome, frames: nat,
                    next: nat, next': nat, end: nat, rest: seq<Byte>)
    requires StoreEffect(compress, pending, data, out, frames, next, next', end, rest)
    ensures out == Done ==> Accepted(|pending|, data, out, frames) == data
    ensures out == Panic ==> next' + 3 + OUT_LEN > end
    ensures var a := Accepted(|pending|, data, out, frames);
            out == Panic ==> a < data && |data| - |a| + |rest| > IN_LEN
  {
    hide PackedLength;
  }

  lemma Regrouped(a: seq<Byte>, b: seq<Byte>, c: seq<Byte>)
    ensures (a + b) + c == a + (b + c)
  {
  }

  lemma RestOfBlocks(s: seq<Byte>, n: nat)
    ensures (n + 1) * IN_LEN <= |s| ==> s[IN_LEN..][n * IN_LEN..] == s[(n + 1) * IN_LEN..]
  {
  }

  // ----- the log --------------------------------------------------------------------------------------

  class Log {
    const compress: seq<Byte> -> seq<Byte>     // lzo1x_1_compress
    const decompress: seq<Byte> -> seq<Byte>
    const inBuf: array<Byte>
    const paPool: array<Byte>
    const paEnd: nat
    var ini: nat
    var paNext: nat

    /** The compressor has an inverse, and its output fits the bound that LZO gives. */
    ghost predicate Lossless() {
      forall b: seq<Byte> :: |b| <= IN_LEN ==> decompress(compress(b)) == b && |compress(b)| <= OUT_LEN
    }

    ghost predicate Valid()
      reads this, inBuf, paPool
    {
      Lossless() && inBuf != paPool && inBuf.Length == IN_LEN && ini <= IN_LEN &&
      paEnd + 1 == paPool.Length && paNext <= paPool.Length && WellFramed(paPool[..paNext])
    }

    /** Everything stored so far: the frames, and the pending part of the buffer. */
    ghost function Contents(): seq<Byte>
      reads this, inBuf, paPool
      requires Valid()
    {
      Unpacked(paPool[..paNext], decompress) + inBuf[..ini]
    }

    constructor (compress: seq<Byte> -> seq<Byte>, decompress: seq<Byte> -> seq<Byte>, poolSize: nat)
      requires forall b: seq<Byte> :: |b| <= IN_LEN ==> decompress(compress(b)) == b && |compress(b)| <= OUT_LEN
      ensures Valid() && Contents() == [] && fresh(inBuf) && fresh(paPool) && paEnd == poolSize
      ensures this.compress == compress && this.decompress == decompress
    {
      this.compress, this.decompress := compress, decompress;
      inBuf := new Byte[IN_LEN](i => 0);
      paPool := new Byte[poolSize + 1](i => 0);
      paEnd := poolSize;
      ini, paNext := 0, 0;
    }

    /** memcpy to the end of the buffer. */
    method Append(data: seq<Byte>)
      requires Valid() && ini + |data| <= IN_LEN
      modifies this`ini, inBuf
      ensures Valid() && ini == old(ini) + |data| && Contents() == old(Contents()) + data
      ensures inBuf[..ini] == old(inBuf[..ini]) + data
    {
      hide Unpacked, WellFramed, Lossless;
      ghost var was := inBuf[..ini];
      forall i | 0 <= i < |data| {
        inBuf[ini + i] := data[i];
      }
      ini := ini + |data|;
      assert inBuf[..ini] == was + data;
      assert paPool[..paNext] == old(paPool[..paNext]);
    }

    /** Bytes go to the pool at position at. */
    method Emit(at: nat, bytes: seq<Byte>)
      requires at + |bytes| <= paPool.Length
      modifies paPool
      ensures paPool[..at + |bytes|] == old(paPool[..at]) + bytes
    {
      forall i | 0 <= i < |bytes| {
        paPool[at + i] := bytes[i];
      }
    }

    /** The first n bytes of the buffer become the next frame of the pool. */
    method WriteFrame(n: nat)
      requires Valid() && n == ini && paNext + 3 + OUT_LEN <= paEnd
      modifies this, paPool
      ensures Valid() && ini == 0 && Contents() == old(Contents())
      ensures paNext == old(paNext) + 4 + |compress(old(inBuf[..ini]))|
    {
      hide Unpacked, WellFramed, Encode32, Lossless;
      ghost var before := paPool[..paNext];
      var block := inBuf[..n];
      var packed := Pack(block);
      Emit(paNext, Encode32(|packed|));
      Emit(paNext + 4, packed);
      FrameAppended(before, packed, decompress);
      paNext := paNext + 4 + |packed|;
      ini := 0;
      assert paPool[..paNext] == before + Frame(packed);
      assert inBuf[..ini] == [];
    }

    function Pack(block: seq<Byte>): (packed: seq<Byte>)
      requires Lossless() && |block| <= IN_LEN
      ensures decompress(packed) == block && |packed| <= OUT_LEN && packed == compress(block)
    {
      compress(block)
    }

    /** The first block of paStore: the buffer is filled up and written out, if the pool has room. */
    method StoreBlock(data: seq<Byte>) returns (ok: bool)
      requires Valid() && ini + |data| == IN_LEN
      modifies this, inBuf, paPool
      ensures Valid() && (ok <==> old(paNext) + 3 + OUT_LEN <= paEnd)
      ensures !ok ==> paNext == old(paNext) && inBuf[..ini] == old(inBuf[..ini]) && Contents() == old(Contents())
      ensures ok ==> ini == 0 && paNext == old(paNext) + 4 + |compress(old(inBuf[..ini]) + data)| &&
                     Contents() == old(Contents()) + data
    {
      hide Unpacked, WellFramed, Lossless;
      ghost var pending := inBuf[..ini];
      Append(data);
      if paNext + 3 + OUT_LEN > paEnd {
        ini := ini - |data|;
        assert inBuf[..ini] == pending;
        return false;
      }
      WriteFrame(IN_LEN);
      ok := true;
    }

    /** paStore: the pending bytes and the new ones, all, are cut into blocks, and every full block that is
        followed by further bytes becomes a frame; the rest stays in the buffer.  The log is full exactly if
        before one of these frames the pool has no room for the longest frame there can be; what has been
        stored up to then is kept.  A buffer that is exactly full is written out before anything is added. */
    method Store(data: seq<Byte>) returns (out: Outcome, ghost frames: nat)
      requires Valid()
      modifies this, inBuf, paPool
      ensures Valid()
      ensures |data| + old(ini) <= IN_LEN ==> out == Done
      ensures out == Done <==>
                HasRoom(compress, old(inBuf[..ini]) + data, Frames(old(ini), |data|), old(paNext), paEnd)
      ensures StoreEffect(compress, old(inBuf[..ini]), data, out, frames, old(paNext), paNext, paEnd, inBuf[..ini])
      ensures Contents() == old(Contents()) + Accepted(old(ini), data, out, frames)
      ensures out == Done ==> Contents() == old(Contents()) + data
      ensures out == Panic ==> paNext + 3 + OUT_LEN > paEnd && var stored := Accepted(old(ini), data, out, frames);
                               stored < data && |data| - |stored| + ini > IN_LEN
      decreases |data| + ini, 1
    {
      hide Unpacked, WellFramed, Lossless, HasRoom, StoreEffect, Accepted, BlockAt, Frames, Contents;
      if |data| <= 0 {
        assert data == [] && inBuf[..ini] + data == inBuf[..ini];
        StoredInBuffer(compress, inBuf[..ini], data, paNext, paEnd);
        return Done, 0;
      }
      if |data| + ini > IN_LEN {
        ghost var pending, next := inBuf[..ini], paNext;
        out, frames := StoreMore(data);
        EffectMeans(compress, pending, data, out, frames, next, paNext, paEnd, inBuf[..ini]);
      } else {
        StoredInBuffer(compress, inBuf[..ini], data, paNext, paEnd);
        Append(data);
        out, frames := Done, 0;
      }
    }

    /** ... when the buffer is full before the end of data. */
    method StoreMore(data: seq<Byte>) returns (out: Outcome, ghost frames: nat)
      requires Valid() && |data| + ini > IN_LEN
      modifies this, inBuf, paPool
      ensures Valid()
      ensures out == Done <==>
                HasRoom(compress, old(inBuf[..ini]) + data, Frames(old(ini), |data|), old(paNext), paEnd)
      ensures StoreEffect(compress, old(inBuf[..ini]), data, out, frames, old(paNext), paNext, paEnd, inBuf[..ini])
      ensures Contents() == old(Contents()) + Accepted(old(ini), data, out, frames)
      decreases |data| + ini, 0
    {
      hide Unpacked, WellFramed, Lossless, HasRoom, StoreEffect, Accepted, BlockAt, Frames, Contents;
      ghost var pending, next, stored := inBuf[..ini], paNext, Contents();
      var front, rest := data[..IN_LEN - ini], data[IN_LEN - ini..];
      var ok := StoreBlock(front);
      if !ok {
        NothingStored(compress, pending, data, next, paEnd);
        assert stored + [] == stored;
        return Panic, 0;
      }
      assert inBuf[..ini] == [];
      FirstBlock(compress, pending, data, next, paEnd);
      out, frames := Store(rest);
      StoredBehind(compress, pending, data, out, frames, next, paNext, paEnd, inBuf[..ini]);
      Regrouped(stored, front, Accepted(0, rest, out, frames));
      frames := frames + 1;
    }

    /** paFlush: the pending part of the buffer is written out. */
    method Flush() returns (out: Outcome)
      requires Valid()
      modifies this, paPool
      ensures Valid() && Contents() == old(Contents())
      ensures out == if old(paNext) + 4 + OUT_LEN > paEnd then Panic else Done
      ensures out == Done ==> ini == 0 && paNext <= paEnd && Contents() == Unpacked(paPool[..paNext], decompress)
      ensures out == Panic ==> paNext == old(paNext) && ini == old(ini)
    {
      if paNext + 4 + OUT_LEN > paEnd {
        return Panic;
      }
      WriteFrame(ini);
      out := Done;
    }
  }

  /** The room check of paStore is one byte short: a frame fits below paEnd unless it is as long as a
      frame can be and the check has passed with nothing to spare. */
  lemma StoreRoomCheck(paNext: nat, paEnd: nat, packed: nat)
    requires packed <= OUT_LEN && paNext + 3 + OUT_LEN <= paEnd
    ensures paNext + 4 + packed <= paEnd <==> !(packed == OUT_LEN && paNext + 3 + OUT_LEN == paEnd)
  {
  }
}
