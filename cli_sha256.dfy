/** The C client's SHA-256 (cli/omi.c): a context of eight state words, a
    64-byte block buffer with its fill count and a 64-bit bit counter kept
    as two 32-bit halves, updated in place. Each operation is proved
    against the FIPS 180-4 reference in module Fips180. */
module CliSha256 {
  import opened Bytes
  import opened Fips180

  const Two32: int := 0x1_0000_0000
  const Two64: int := 0x1_0000_0000_0000_0000

  /** `st`, the first `len` bytes of `buf` and the counter halves `low` and
      `high` summarize `msg`: the hash of its whole blocks, the bytes after
      them, and the bits of the whole blocks modulo 2^64. */
  ghost predicate Summarizes(st: seq<word>, buf: seq<byte>, low: int, high: int, len: int, msg: seq<byte>)
  {
    && |buf| == 64 && Counts(low, high, len, msg)
    && buf[..len] == msg[|msg| - len..]
    && st == HashBlocks(H0, msg[..|msg| - len])
  }

  /** The counter part of the summary: `len` bytes after the whole blocks,
      whose bits the halves `low` and `high` hold modulo 2^64. */
  predicate Counts(low: int, high: int, len: int, msg: seq<byte>)
  {
    && 0 <= len <= 64 && len <= |msg|
    && (|msg| - len) % 64 == 0
    && 0 <= low < Two32 && 0 <= high < Two32
    && high * Two32 + low == (8 * (|msg| - len)) % Two64
  }

  /** `SHA256_CTX`. `absorbed` is every byte passed to Update since construction. */
  class Sha256Ctx {
    const state: array<word>
    const data: array<byte>
    /** `bitlen[0]` is the low half, `bitlen[1]` the high half; each holds a
        32-bit unsigned value. */
    const bitlen: array<int>
    var datalen: int
    ghost var absorbed: seq<byte>

    /** The context holds the hash of every whole block absorbed so far, the
        buffer holds the bytes after them (at most a full block), and the
        counter holds the bits of the whole blocks modulo 2^64. */
    ghost predicate Holds()
      reads this, state, data, bitlen
    {
      && state.Length == 8 && data.Length == 64 && bitlen.Length == 2
      && Summarizes(state[..], data[..], bitlen[0], bitlen[1], datalen, absorbed)
    }

    /** Between calls the buffer is never full. */
    ghost predicate Valid()
      reads this, state, data, bitlen
    {
      Holds() && datalen < 64
    }

    /** `sha256_init`. */
    constructor ()
      ensures Valid() && absorbed == []
      ensures fresh(state) && fresh(data) && fresh(bitlen)
    {
      state := new word[8];
      data := new byte[64];
      bitlen := new int[2];
      datalen := 0;
      absorbed := [];
      new;
      bitlen[0], bitlen[1] := 0, 0;
      state[0], state[1], state[2], state[3] := 0x6a09e667, 0xbb67ae85, 0x3c6ef372, 0xa54ff53a;
      state[4], state[5], state[6], state[7] := 0x510e527f, 0x9b05688c, 0x1f83d9ab, 0x5be0cd19;
      assert state[..] == H0;
    }

    /** The first two loops of `sha256_transform`: the message schedule of
        the buffered block. */
    method MessageSchedule() returns (m: array<word>)
      requires data.Length == 64
      ensures fresh(m) && m[..] == ScheduleUpTo(data[..], 64)
    {
      var block := data[..];
      m := new word[64];
      var i := 0;
      while i < 16
        modifies m
        invariant 0 <= i <= 16
        invariant m[..i] == ScheduleUpTo(block, i)
      {
        m[i] := (data[i * 4] as word << 24) | (data[i * 4 + 1] as word << 16)
              | (data[i * 4 + 2] as word << 8) | (data[i * 4 + 3] as word);
        i := i + 1;
      }
      while i < 64
        modifies m
        invariant 16 <= i <= 64
        invariant m[..i] == ScheduleUpTo(block, i)
      {
        m[i] := NextWord(m[i - 2], m[i - 7], m[i - 15], m[i - 16]);
        i := i + 1;
      }
      assert m[..] == m[..64];
    }

    /** `sha256_transform` of the buffered block. */
    method Transform()
      requires state.Length == 8 && data.Length == 64
      modifies state
      ensures state[..] == Compress(old(state[..]), data[..])
    {
      var block := data[..];
      ghost var initial := state[..];
      var m := MessageSchedule();
      var i: int;
      ghost var w := m[..];
      assert w == ScheduleUpTo(block, 64);
      var a, b, c, d, e, f, g, h := state[0], state[1], state[2], state[3], state[4], state[5], state[6], state[7];
      assert Vars(a, b, c, d, e, f, g, h) == VarsOf(initial);
      i := 0;
      while i < 64
        invariant 0 <= i <= 64
        invariant Vars(a, b, c, d, e, f, g, h) == Rounds(VarsOf(initial), w, i)
      {
        var t1 := T1(e, f, g, h, K[i], m[i]);
        var t2 := T2(a, b, c);
        h := g;
        g := f;
        f := e;
        e := Add(d, t1);
        d := c;
        c := b;
        b := a;
        a := Add(t1, t2);
        i := i + 1;
      }
      ghost var v := Rounds(VarsOf(initial), w, 64);
      assert v.a == a && v.b == b && v.c == c && v.d == d && v.e == e && v.f == f && v.g == g && v.h == h;
      assert state[..] == initial;
      var next := [Add(state[0], a), Add(state[1], b), Add(state[2], c), Add(state[3], d),
                   Add(state[4], e), Add(state[5], f), Add(state[6], g), Add(state[7], h)];
      assert next == Compress(initial, block);
      forall j | 0 <= j < 8 {
        state[j] := next[j];
      }
      assert state[..] == next;
      assert data[..] == block;
    }

    /** Compressing the full buffer extends the hashed prefix by one block. */
    method CompressBlock(ghost prefix: seq<byte>)
      requires state.Length == 8 && data.Length == 64 && |prefix| % 64 == 0
      requires state[..] == HashBlocks(H0, prefix)
      modifies state
      ensures state[..] == HashBlocks(H0, prefix + data[..])
    {
      Transform();
      HashBlocksAppend(H0, prefix, data[..]);
    }

    /** The first half of a pass of the loop of `sha256_update`: buffer
        one byte. */
    method Buffer(x: byte)
      requires Valid()
      modifies this, data
      ensures Holds() && absorbed == old(absorbed) + [x]
      ensures datalen == old(datalen) + 1
    {
      ghost var full := |absorbed| - datalen;
      ghost var before := absorbed;
      data[datalen] := x;
      datalen := datalen + 1;
      absorbed := absorbed + [x];
      assert absorbed[..full] == before[..full];
      assert |absorbed| - datalen == full;
    }

    /** Adding one block's 512 bits to the counter, with the carry into the
        high half. */
    method CountBlock(ghost full: nat)
      requires bitlen.Length == 2 && 0 <= bitlen[0] < Two32 && 0 <= bitlen[1] < Two32 && full % 64 == 0
      requires bitlen[1] * Two32 + bitlen[0] == (8 * full) % Two64
      modifies bitlen
      ensures 0 <= bitlen[0] < Two32 && 0 <= bitlen[1] < Two32
      ensures bitlen[1] * Two32 + bitlen[0] == (8 * (full + 64)) % Two64
    {
      BitlenStep(bitlen[0], bitlen[1], full);
      if bitlen[0] > 0xffffffff - 512 {
        bitlen[1] := (bitlen[1] + 1) % Two32;
      }
      bitlen[0] := (bitlen[0] + 512) % Two32;
    }

    /** The second half, once the buffer is full: compress the block and add
        512 to the bit counter with a carry into the high half. */
    method Flush()
      requires Holds() && datalen == 64
      modifies this, state, bitlen
      ensures Valid() && absorbed == old(absorbed) && datalen == 0
    {
      ghost var msg := absorbed;
      ghost var full := |msg| - 64;
      assert data[..] == data[..datalen];
      assert msg[..full] + data[..] == msg;
      NextBlock(full);
      CompressBlock(msg[..full]);
      CountBlock(full);
      datalen := 0;
      SummarizesBlocks(state[..], data[..], bitlen[0], bitlen[1], msg);
    }

    /** One pass of the loop of `sha256_update`. */
    method Absorb(x: byte)
      requires Valid()
      modifies this, state, data, bitlen
      ensures Valid() && absorbed == old(absorbed) + [x]
    {
      Buffer(x);
      if datalen == 64 {
        Flush();
      }
    }

    /** `sha256_update`. */
    method Update(input: seq<byte>)
      requires Valid()
      modifies this, state, data, bitlen
      ensures Valid() && absorbed == old(absorbed) + input
    {
      ghost var start := absorbed;
      var i := 0;
      while i < |input|
        invariant 0 <= i <= |input|
        invariant Valid() && absorbed == start + input[..i]
      {
        Absorb(input[i]);
        Extend(start, input, i);
        i := i + 1;
      }
      assert input[..i] == input;
    }

    /** The first step of the padding of `sha256_final`: 0x80 after the
        buffered tail, then zeros up to `end`. */
    method MarkEnd(end: int)
      requires data.Length == 64 && 0 <= datalen < end <= 64
      modifies data
      ensures data[..end] == old(data[..datalen]) + [0x80] + Zeros(end - datalen - 1)
    {
      ghost var tail := data[..datalen];
      var i := datalen;
      data[i] := 0x80;
      i := i + 1;
      while i < end
        invariant datalen < i <= end
        invariant data[..datalen] == tail && data[datalen] == 0x80
        invariant forall j :: datalen < j < i ==> data[j] == 0
      {
        data[i] := 0x00;
        i := i + 1;
      }
    }

    /** The padding of `sha256_final` when the length field fits after the
        buffered tail: 0x80, then zeros up to byte 56. The hash of the whole
        blocks is already the hash of the padded message but its last block. */
    method PadShort()
      requires Valid() && datalen < 56
      modifies data
      ensures state[..] == HashBlocks(H0, PadHead(absorbed))
      ensures data[..56] == PadTail(absorbed)[..56]
    {
      MarkEnd(56);
      PadOneBlock(absorbed, datalen);
    }

    /** The padding of `sha256_final` when it does not fit: 0x80 and zeros
        to the end of the block, a compression, then 56 zeros. */
    method PadLong()
      requires Valid() && 56 <= datalen
      modifies state, data
      ensures state[..] == HashBlocks(H0, PadHead(absorbed))
      ensures data[..56] == PadTail(absorbed)[..56]
    {
      ghost var full := |absorbed| - datalen;
      MarkEnd(64);
      PadTwoBlocks(absorbed, datalen);
      assert absorbed[..full] + data[..] == PadHead(absorbed) by {
        assert absorbed == absorbed[..full] + absorbed[full..];
        assert data[..] == data[..64];
      }
      CompressBlock(absorbed[..full]);
      ClearFront();
    }

    /** `memset(ctx->data, 0, 56)`. */
    method ClearFront()
      requires data.Length == 64
      modifies data
      ensures data[..56] == Zeros(56)
    {
      forall j | 0 <= j < 56 {
        data[j] := 0;
      }
    }

    /** The last eight bytes of the block: the high half of the bit count,
        then the low half, each big-endian. */
    method WriteLength(high: int, low: int)
      requires data.Length == 64 && 0 <= high < Two32 && 0 <= low < Two32
      modifies data
      ensures data[..] == old(data[..56]) + (NumberBytes(high) + NumberBytes(low))
    {
      ghost var marked := data[..56];
      WriteNumber(60, low);
      WriteNumber(56, high);
      assert data[..56] == marked;
      assert data[..] == data[..56] + (data[56..60] + data[60..]);
    }

    /** Four of the eight assignments: n big-endian at `at`, the lowest
        byte written first. */
    method WriteNumber(at: int, n: int)
      requires data.Length == 64 && (at == 56 || at == 60) && 0 <= n < Two32
      modifies data
      ensures data[at..at + 4] == NumberBytes(n)
      ensures data[..at] == old(data[..at]) && data[at + 4..] == old(data[at + 4..])
    {
      data[at + 3] := Octet(n);
      data[at + 2] := Octet(n / 0x100);
      data[at + 1] := Octet(n / 0x1_0000);
      data[at] := Octet(n / 0x100_0000);
    }

    /** One pass of the last loop of `sha256_final`: byte i of each state
        word, at i, i + 4, ..., i + 28. The C code takes byte i as the word
        shifted right by 24 - 8 * i and masked, which is WordByte. */
    method WriteColumn(hash: array<byte>, i: int)
      requires state.Length == 8 && hash.Length >= 32 && 0 <= i < 4
      modifies hash
      ensures var n := i;
        && hash[n] == WordByte(state[0], i) && hash[n + 4] == WordByte(state[1], i)
        && hash[n + 8] == WordByte(state[2], i) && hash[n + 12] == WordByte(state[3], i)
        && hash[n + 16] == WordByte(state[4], i) && hash[n + 20] == WordByte(state[5], i)
        && hash[n + 24] == WordByte(state[6], i) && hash[n + 28] == WordByte(state[7], i)
      ensures forall k :: 0 <= k < hash.Length && !InColumn(k, i) ==> hash[k] == old(hash[k])
      ensures hash[32..] == old(hash[32..])
    {
      WriteFour(hash, i, 0);
      WriteFour(hash, i, 4);
    }

    /** Four of the eight assignments of a pass, for words w .. w + 3. */
    method WriteFour(hash: array<byte>, i: int, w: int)
      requires state.Length == 8 && hash.Length >= 32 && 0 <= i < 4 && (w == 0 || w == 4)
      modifies hash
      ensures var n := i + 4 * w;
        && hash[n] == WordByte(state[w], i) && hash[n + 4] == WordByte(state[w + 1], i)
        && hash[n + 8] == WordByte(state[w + 2], i) && hash[n + 12] == WordByte(state[w + 3], i)
      ensures forall k :: 0 <= k < hash.Length && !InFour(k, i + 4 * w) ==> hash[k] == old(hash[k])
    {
      var n := i + 4 * w;
      hash[n] := WordByte(state[w], i);
      hash[n + 4] := WordByte(state[w + 1], i);
      hash[n + 8] := WordByte(state[w + 2], i);
      hash[n + 12] := WordByte(state[w + 3], i);
    }

    /** The last loop of `sha256_final`: the state words, big-endian. */
    method WriteDigest(hash: array<byte>)
      requires state.Length == 8 && hash.Length >= 32
      modifies hash
      ensures hash[..32] == Serialize(state[..])
      ensures hash[32..] == old(hash[32..])
    {
      ghost var want := Serialize(state[..]);
      var i := 0;
      while i < 4
        invariant 0 <= i <= 4
        invariant forall k :: 0 <= k < 32 && k % 4 < i ==> hash[k] == want[k]
        invariant hash[32..] == old(hash[32..])
      {
        ghost var prev := hash[..];
        WriteColumn(hash, i);
        ColumnWants(state[..], i, want);
        ColumnWritten(prev, hash[..], i, want);
        assert hash[32..] == prev[32..];
        i := i + 1;
      }
      assert hash[..32] == want;
    }

    /** The marker and zeros of `sha256_final`: after them the buffer
        holds the last block of the padded message up to its length field,
        and the state the hash of the blocks before it. */
    method PadData()
      requires Valid()
      modifies state, data
      ensures state[..] == HashBlocks(H0, PadHead(absorbed))
      ensures data[..56] == PadTail(absorbed)[..56]
    {
      if datalen < 56 {
        PadShort();
      } else {
        PadLong();
      }
    }

    /** The padding part of `sha256_final`: after it the buffer holds the
        last block of the padded message and the state the hash of the
        blocks before it. */
    method PadBlock()
      requires Valid()
      modifies state, data
      ensures state[..] == HashBlocks(H0, PadHead(absorbed))
      ensures data[..] == PadTail(absorbed)
    {
      PadData();
      ghost var marked := data[..56];
      AppendLength();
      PadParts(absorbed);
      BlockParts(PadTail(absorbed), marked, LengthField(|absorbed|));
    }

    /** The bit count of `sha256_final`: the high half, and the low half
        with the tail's bits added, big-endian in the last eight bytes. */
    method AppendLength()
      requires data.Length == 64 && bitlen.Length == 2
      requires Counts(bitlen[0], bitlen[1], datalen, absorbed) && datalen < 64
      modifies data
      ensures data[..] == old(data[..56]) + LengthField(|absorbed|)
    {
      var bitlenHigh := bitlen[1];
      var bitlenLow := (bitlen[0] + datalen * 8) % Two32;
      FinalLength(bitlen[0], bitlen[1], |absorbed| - datalen, datalen);
      WriteLength(bitlenHigh, bitlenLow);
    }

    /** `sha256_final`: pad the buffered tail with 0x80, zeros and the 64-bit
        big-endian bit length (in an extra block when fewer than nine bytes
        are free), compress, and write the state words big-endian. */
    method Final(hash: array<byte>)
      requires Valid() && hash.Length >= 32 && hash != data
      modifies state, data, hash
      ensures hash[..32] == Digest(absorbed)
      ensures hash[32..] == old(hash[32..])
    {
      PadBlock();
      CompressBlock(PadHead(absorbed));
      PadParts(absorbed);
      WriteDigest(hash);
    }
  }

  /** The places i, i + 4, ..., i + 28 that pass i writes. */
  predicate InColumn(k: int, i: int)
  {
    InFour(k, i) || InFour(k, i + 16)
  }

  /** The places n, n + 4, n + 8 and n + 12. */
  predicate InFour(k: int, n: int)
  {
    k == n || k == n + 4 || k == n + 8 || k == n + 12
  }

  /** Writing byte i of each of the eight words extends the serialized
      prefix by one column. */
  lemma ColumnWritten(prev: seq<byte>, next: seq<byte>, i: int, want: seq<byte>)
    requires |prev| == |next| >= 32 && |want| == 32 && 0 <= i < 4
    requires forall k :: 0 <= k < 32 && k % 4 < i ==> prev[k] == want[k]
    requires var n := i;
      && next[n] == want[n] && next[n + 4] == want[n + 4]
      && next[n + 8] == want[n + 8] && next[n + 12] == want[n + 12]
      && next[n + 16] == want[n + 16] && next[n + 20] == want[n + 20]
      && next[n + 24] == want[n + 24] && next[n + 28] == want[n + 28]
    requires forall k :: 0 <= k < |prev| && !InColumn(k, i) ==> next[k] == prev[k]
    ensures forall k :: 0 <= k < 32 && k % 4 <= i ==> next[k] == want[k]
  {
    forall k | 0 <= k < 32 && k % 4 <= i
      ensures next[k] == want[k]
    {
      var w := k / 4;
      assert k == k % 4 + 4 * w && 0 <= w < 8;
      if k % 4 < i {
        assert !InColumn(k, i);
      } else {
        assert k == i + 4 * w;
        if w == 0 {} else if w == 1 {} else if w == 2 {} else if w == 3 {}
        else if w == 4 {} else if w == 5 {} else if w == 6 {} else {}
      }
    }
  }

  /** The serialized hash holds byte i of word w at i + 4 * w. */
  lemma ColumnWants(st: seq<word>, i: int, want: seq<byte>)
    requires |st| == 8 && 0 <= i < 4 && want == Serialize(st)
    ensures var n := i;
      && want[n] == WordByte(st[0], i) && want[n + 4] == WordByte(st[1], i)
      && want[n + 8] == WordByte(st[2], i) && want[n + 12] == WordByte(st[3], i)
      && want[n + 16] == WordByte(st[4], i) && want[n + 20] == WordByte(st[5], i)
      && want[n + 24] == WordByte(st[6], i) && want[n + 28] == WordByte(st[7], i)
  {
    ColumnEntry(st, 0, i, want);
    ColumnEntry(st, 1, i, want);
    ColumnEntry(st, 2, i, want);
    ColumnEntry(st, 3, i, want);
    ColumnEntry(st, 4, i, want);
    ColumnEntry(st, 5, i, want);
    ColumnEntry(st, 6, i, want);
    ColumnEntry(st, 7, i, want);
  }

  /** Byte i of word w is at i + 4 * w of the serialized hash. */
  lemma ColumnEntry(st: seq<word>, w: int, i: int, want: seq<byte>)
    requires |st| == 8 && 0 <= w < 8 && 0 <= i < 4 && want == Serialize(st)
    ensures want[i + 4 * w] == WordByte(st[w], i)
  {
    SerializeBytes(st);
    assert (i + 4 * w) / 4 == w && (i + 4 * w) % 4 == i;
  }

  lemma Extend(start: seq<byte>, input: seq<byte>, i: int)
    requires 0 <= i < |input|
    ensures start + input[..i + 1] == (start + input[..i]) + [input[i]]
  {
    assert input[..i + 1] == input[..i] + [input[i]];
  }

  /** A summary with nothing buffered: the message is whole blocks. */
  lemma SummarizesBlocks(st: seq<word>, buf: seq<byte>, low: int, high: int, msg: seq<byte>)
    requires |buf| == 64 && |msg| % 64 == 0 && st == HashBlocks(H0, msg)
    requires 0 <= low < Two32 && 0 <= high < Two32 && high * Two32 + low == (8 * |msg|) % Two64
    ensures Summarizes(st, buf, low, high, 0, msg)
  {
    assert msg[..|msg| - 0] == msg;
  }

  lemma ModTwo64(k: int, y: int)
    ensures (Two64 * k + y) % Two64 == y % Two64
  {
  }

  lemma NextBlock(full: int)
    requires full % 64 == 0
    ensures (full + 64) % 64 == 0
  {
  }

  /** Adding one block's 512 bits to the split counter, with the carry the C
      code makes, adds 512 to the 64-bit count modulo 2^64. */
  lemma BitlenStep(low: int, high: int, full: nat)
    requires 0 <= low < Two32 && 0 <= high < Two32 && full % 64 == 0
    requires high * Two32 + low == (8 * full) % Two64
    ensures var high' := if low > 0xffffffff - 512 then (high + 1) % Two32 else high;
      var low' := (low + 512) % Two32;
      high' * Two32 + low' == (8 * (full + 64)) % Two64
  {
    var q := full / 64;
    assert 8 * full == 512 * q;
    var k := (8 * full) / Two64;
    var x := (8 * full) % Two64;
    assert 8 * full == Two64 * k + x;
    var m := q - 0x80_0000_0000_0000 * k - high * 0x80_0000;
    assert low == 512 * m;
    assert 8 * (full + 64) == Two64 * k + (x + 512);
    ModTwo64(k, x + 512);
    if low > 0xffffffff - 512 {
      assert m == 0x7f_ffff;
      if high + 1 < Two32 {
        assert x + 512 == (high + 1) * Two32 < Two64;
      } else {
        assert x + 512 == Two64;
      }
    } else {
      assert x + 512 < Two64;
    }
  }

  /** The final length needs no carry: the counter holds a multiple of 512
      and the tail adds fewer than 512 bits, so the low half written is the
      plain sum and the two halves are the 64-bit length field. */
  lemma FinalLength(low: int, high: int, full: nat, datalen: nat)
    requires 0 <= low < Two32 && 0 <= high < Two32 && full % 64 == 0 && datalen < 64
    requires high * Two32 + low == (8 * full) % Two64
    ensures var low' := (low + datalen * 8) % Two32;
      0 <= low' < Two32 && NumberBytes(high) + NumberBytes(low') == LengthField(full + datalen)
  {
    var sum := low + datalen * 8;
    TailBits(low, high, full, datalen);
    assert sum % Two32 == sum;
    var bits := (8 * (full + datalen)) % Two64;
    Halves(high, sum);
    assert bits / Two32 == high && bits % Two32 == sum;
    assert LengthField(full + datalen) == NumberBytes(bits / Two32) + NumberBytes(bits % Two32);
  }

  lemma TailBits(low: int, high: int, full: nat, datalen: nat)
    requires 0 <= low < Two32 && 0 <= high < Two32 && full % 64 == 0 && datalen < 64
    requires high * Two32 + low == (8 * full) % Two64
    ensures low + datalen * 8 < Two32
    ensures (8 * (full + datalen)) % Two64 == high * Two32 + (low + datalen * 8)
  {
    var q := full / 64;
    assert 8 * full == 512 * q;
    var x := (8 * full) % Two64;
    var k := (8 * full) / Two64;
    assert x == 512 * (q - 0x80_0000_0000_0000 * k);
    assert low == 512 * (q - 0x80_0000_0000_0000 * k - high * 0x80_0000);
    assert 8 * (full + datalen) == Two64 * k + (x + 8 * datalen);
  }

  lemma Halves(high: int, low: int)
    requires 0 <= high < Two32 && 0 <= low < Two32
    ensures (high * Two32 + low) / Two32 == high && (high * Two32 + low) % Two32 == low
  {
  }

  lemma BlockParts(block: seq<byte>, head: seq<byte>, tail: seq<byte>)
    requires |block| == 64 && block[..56] == head && block[56..] == tail
    ensures block == head + tail
  {
  }

  /** With room for the length field, the padding ends inside the buffered
      block. */
  lemma PadOneBlock(msg: seq<byte>, d: nat)
    requires d <= |msg| && (|msg| - d) % 64 == 0 && d < 56
    ensures PadHead(msg) == msg[..|msg| - d]
    ensures PadTail(msg)[..56] == msg[|msg| - d..] + [0x80] + Zeros(55 - d)
  {
    var head, tail := msg[..|msg| - d], msg[|msg| - d..];
    assert msg == head + tail;
    assert ZeroCount(|msg|) == 55 - d;
    var block := tail + [0x80] + Zeros(55 - d) + LengthField(|msg|);
    assert Pad(msg) == head + block;
    assert |block| == 64;
  }

  /** Without room, it fills the buffered block and one block more. */
  lemma PadTwoBlocks(msg: seq<byte>, d: nat)
    requires d <= |msg| && (|msg| - d) % 64 == 0 && 56 <= d < 64
    ensures PadHead(msg) == msg + [0x80] + Zeros(63 - d)
    ensures PadTail(msg)[..56] == Zeros(56)
  {
    assert ZeroCount(|msg|) == 119 - d;
    assert Zeros(119 - d) == Zeros(63 - d) + Zeros(56);
    var head := msg + [0x80] + Zeros(63 - d);
    var block := Zeros(56) + LengthField(|msg|);
    assert Pad(msg) == head + block;
    assert |block| == 64;
  }

  /** Byte k of the serialized hash is byte k % 4 of word k / 4. */
  lemma {:induction false} SerializeBytes(h: seq<word>)
    ensures forall k :: 0 <= k < 4 * |h| ==> Serialize(h)[k] == WordBytes(h[k / 4])[k % 4]
  {
    if h != [] {
      var p := h[..|h| - 1];
      SerializeBytes(p);
      assert forall k :: 0 <= k < 4 * |p| ==> h[k / 4] == p[k / 4];
    }
  }

  /** `(hash[i] >> 4) & 0x0f` and `hash[i] & 0x0f`: the indexes into the
      digit table. */
  function HighNibble(b: byte): byte { (b >> 4) & 0x0f }
  function LowNibble(b: byte): byte { b & 0x0f }

  /** Indexing the digit table with both nibbles spells the byte's hex pair. */
  lemma NibblesSpell(b: byte)
    ensures HighNibble(b) < 16 && LowNibble(b) < 16
    ensures HexPair(b) == [HexDigits[HighNibble(b) as int], HexDigits[LowNibble(b) as int]]
  {
    assert HighNibble(b) == b >> 4 && LowNibble(b) == b & 0xF;
    HexDigitsTable(b >> 4);
    HexDigitsTable(b & 0xF);
  }

  /** The loop of `sha256_hex`, two digits per digest byte, and the
      closing NUL. */
  method WriteHex(hash: array<byte>, outHex: array<char>)
    requires hash.Length == 32 && outHex.Length >= 65
    modifies outHex
    ensures outHex[..64] == LowerHex(hash[..]) && outHex[64] == '\0'
    ensures outHex[65..] == old(outHex[65..])
  {
    var i := 0;
    while i < 32
      invariant 0 <= i <= 32
      invariant outHex[..2 * i] == LowerHex(hash[..i])
      invariant outHex[64..] == old(outHex[64..])
    {
      var b := hash[i];
      NibblesSpell(b);
      outHex[i * 2] := HexDigits[HighNibble(b) as int];
      outHex[i * 2 + 1] := HexDigits[LowNibble(b) as int];
      assert hash[..i + 1][..i] == hash[..i];
      i := i + 1;
    }
    assert hash[..32] == hash[..];
    ghost var digits := outHex[..64];
    outHex[64] := '\0';
    assert outHex[..64] == digits;
  }

  /** `sha256_hex`: the digest as 64 lowercase hex digits and a NUL, or
      nothing written when the buffer has fewer than 65 places. The buffer's
      length stands for `out_len`. */
  method Sha256Hex(input: seq<byte>, outHex: array<char>)
    modifies outHex
    ensures outHex.Length < 65 ==> outHex[..] == old(outHex[..])
    ensures outHex.Length >= 65 ==>
      && outHex[..64] == LowerHex(Digest(input)) && outHex[64] == '\0'
      && outHex[65..] == old(outHex[65..])
  {
    if outHex.Length < 65 {
      return;
    }
    var hash := Sha256(input);
    WriteHex(hash, outHex);
  }

  /** The first part of `sha256_hex`: init, update with the whole input,
      final into a fresh 32-byte buffer. */
  method Sha256(input: seq<byte>) returns (hash: array<byte>)
    ensures fresh(hash) && hash.Length == 32 && hash[..] == Digest(input)
  {
    hash := new byte[32];
    var ctx := new Sha256Ctx();
    ctx.Update(input);
    ctx.Final(hash);
    assert hash[..] == hash[..32];
    assert ctx.absorbed == input;
  }
}
