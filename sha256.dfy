/** SHA-256 as FIPS 180-4 defines it, the reference the C client's
    implementation is proved against: the functions of section 4.1.2, the
    constants of sections 4.2.2 and 5.3.3, the padding of section 5.1.1 and
    the schedule and compression of section 6.2.2. */
module Fips180 {
  import opened Bytes

  type word = bv32

  /** ROTR^n, written with the shifts the C code uses. */
  function RotR(x: word, n: word): word
    requires 0 < n < 32
  {
    (x >> n) | (x << (32 - n))
  }

  /** Addition modulo 2^32. */
  function Add(x: word, y: word): word { x + y }

  function Ch(x: word, y: word, z: word): word { (x & y) ^ (!x & z) }
  function Maj(x: word, y: word, z: word): word { (x & y) ^ (x & z) ^ (y & z) }
  function BigSigma0(x: word): word { RotR(x, 2) ^ RotR(x, 13) ^ RotR(x, 22) }
  function BigSigma1(x: word): word { RotR(x, 6) ^ RotR(x, 11) ^ RotR(x, 25) }
  function SmallSigma0(x: word): word { RotR(x, 7) ^ RotR(x, 18) ^ (x >> 3) }
  function SmallSigma1(x: word): word { RotR(x, 17) ^ RotR(x, 19) ^ (x >> 10) }

  /** The 64 round constants of section 4.2.2. */
  const K: seq<word> := [
    0x428a2f98, 0x71374491, 0xb5c0fbcf, 0xe9b5dba5, 0x3956c25b, 0x59f111f1, 0x923f82a4, 0xab1c5ed5,
    0xd807aa98, 0x12835b01, 0x243185be, 0x550c7dc3, 0x72be5d74, 0x80deb1fe, 0x9bdc06a7, 0xc19bf174,
    0xe49b69c1, 0xefbe4786, 0x0fc19dc6, 0x240ca1cc, 0x2de92c6f, 0x4a7484aa, 0x5cb0a9dc, 0x76f988da,
    0x983e5152, 0xa831c66d, 0xb00327c8, 0xbf597fc7, 0xc6e00bf3, 0xd5a79147, 0x06ca6351, 0x14292967,
    0x27b70a85, 0x2e1b2138, 0x4d2c6dfc, 0x53380d13, 0x650a7354, 0x766a0abb, 0x81c2c92e, 0x92722c85,
    0xa2bfe8a1, 0xa81a664b, 0xc24b8b70, 0xc76c51a3, 0xd192e819, 0xd6990624, 0xf40e3585, 0x106aa070,
    0x19a4c116, 0x1e376c08, 0x2748774c, 0x34b0bcb5, 0x391c0cb3, 0x4ed8aa4a, 0x5b9cca4f, 0x682e6ff3,
    0x748f82ee, 0x78a5636f, 0x84c87814, 0x8cc70208, 0x90befffa, 0xa4506ceb, 0xbef9a3f7, 0xc67178f2
  ]

  /** The initial hash value of section 5.3.3. */
  const H0: seq<word> := [
    0x6a09e667, 0xbb67ae85, 0x3c6ef372, 0xa54ff53a, 0x510e527f, 0x9b05688c, 0x1f83d9ab, 0x5be0cd19
  ]

  /** Word t of a 64-byte block, big-endian. */
  function WordAt(block: seq<byte>, t: nat): word
    requires |block| == 64 && t < 16
  {
    (block[4 * t] as word << 24) | (block[4 * t + 1] as word << 16)
    | (block[4 * t + 2] as word << 8) | block[4 * t + 3] as word
  }

  /** Word t of the message schedule from words t-2, t-7, t-15 and t-16
      (section 6.2.2, step 1, for 16 <= t < 64). */
  function NextWord(w2: word, w7: word, w15: word, w16: word): word
  {
    Add(Add(Add(SmallSigma1(w2), w7), SmallSigma0(w15)), w16)
  }

  /** The first n words of the message schedule W of a block. */
  function ScheduleUpTo(block: seq<byte>, n: nat): (w: seq<word>)
    requires |block| == 64 && n <= 64
    ensures |w| == n
  {
    if n == 0 then []
    else
      var w := ScheduleUpTo(block, n - 1);
      var t := n - 1;
      w + [if t < 16 then WordAt(block, t) else NextWord(w[t - 2], w[t - 7], w[t - 15], w[t - 16])]
  }

  /** The eight working variables a..h. */
  datatype Vars = Vars(a: word, b: word, c: word, d: word, e: word, f: word, g: word, h: word)

  /** T1 and T2 of section 6.2.2, step 3. */
  function T1(e: word, f: word, g: word, h: word, k: word, w: word): word
  {
    Add(Add(Add(Add(h, BigSigma1(e)), Ch(e, f, g)), k), w)
  }

  function T2(a: word, b: word, c: word): word
  {
    Add(BigSigma0(a), Maj(a, b, c))
  }

  /** One round of section 6.2.2, step 3, with constant k and schedule word w. */
  function Round(v: Vars, k: word, w: word): Vars
  {
    Vars(Add(T1(v.e, v.f, v.g, v.h, k, w), T2(v.a, v.b, v.c)), v.a, v.b, v.c,
         Add(v.d, T1(v.e, v.f, v.g, v.h, k, w)), v.e, v.f, v.g)
  }

  /** The working variables after the first n rounds with schedule w. */
  function Rounds(v: Vars, w: seq<word>, n: nat): Vars
    requires |w| == 64 && n <= 64
  {
    if n == 0 then v else Round(Rounds(v, w, n - 1), K[n - 1], w[n - 1])
  }

  function VarsOf(h: seq<word>): Vars
    requires |h| == 8
  {
    Vars(h[0], h[1], h[2], h[3], h[4], h[5], h[6], h[7])
  }

  /** Section 6.2.2, steps 2 to 4: the next intermediate hash value. */
  function Compress(h: seq<word>, block: seq<byte>): (r: seq<word>)
    requires |h| == 8 && |block| == 64
    ensures |r| == 8
  {
    var v := Rounds(VarsOf(h), ScheduleUpTo(block, 64), 64);
    [Add(h[0], v.a), Add(h[1], v.b), Add(h[2], v.c), Add(h[3], v.d),
     Add(h[4], v.e), Add(h[5], v.f), Add(h[6], v.g), Add(h[7], v.h)]
  }

  /** The hash value after processing the 64-byte blocks of msg in order. */
  function HashBlocks(h: seq<word>, msg: seq<byte>): (r: seq<word>)
    requires |h| == 8 && |msg| % 64 == 0
    ensures |r| == 8
  {
    if msg == [] then h else Compress(HashBlocks(h, msg[..|msg| - 64]), msg[|msg| - 64..])
  }

  /** Processing one more block is one more compression. */
  lemma HashBlocksAppend(h: seq<word>, msg: seq<byte>, block: seq<byte>)
    requires |h| == 8 && |msg| % 64 == 0 && |block| == 64
    ensures HashBlocks(h, msg + block) == Compress(HashBlocks(h, msg), block)
  {
    var m := msg + block;
    assert m[..|m| - 64] == msg && m[|m| - 64..] == block;
  }

  /** The low eight bits of a number, as a cast to an unsigned byte keeps. */
  function Octet(n: nat): byte
  {
    (n % 256) as byte
  }

  /** The four big-endian bytes of a 32-bit quantity given as a number. */
  function NumberBytes(n: nat): (r: seq<byte>)
    requires n < 0x1_0000_0000
    ensures |r| == 4
  {
    [Octet(n / 0x100_0000), Octet(n / 0x1_0000), Octet(n / 0x100), Octet(n)]
  }

  /** The 64-bit big-endian length field: the message length in bits,
      modulo 2^64. */
  function LengthField(byteLen: nat): (r: seq<byte>)
    ensures |r| == 8
  {
    var bits := (8 * byteLen) % 0x1_0000_0000_0000_0000;
    NumberBytes(bits / 0x1_0000_0000) + NumberBytes(bits % 0x1_0000_0000)
  }

  /** The number of zero bytes section 5.1.1 puts between 0x80 and the length. */
  function ZeroCount(len: nat): (k: nat)
    ensures k < 64 && (len + 1 + k) % 64 == 56
  {
    (55 - len % 64) % 64
  }

  /** n zero bytes. */
  function Zeros(n: nat): (z: seq<byte>)
    ensures |z| == n && forall i :: 0 <= i < n ==> z[i] == 0
  {
    seq(n, _ => 0)
  }

  /** Section 5.1.1 padding of a message of whole bytes. */
  function Pad(msg: seq<byte>): seq<byte>
  {
    msg + [0x80] + Zeros(ZeroCount(|msg|)) + LengthField(|msg|)
  }

  /** The padded message is whole blocks, and at most one block longer than
      the message with its marker and length field. */
  lemma PadShape(msg: seq<byte>)
    ensures |Pad(msg)| % 64 == 0
    ensures |msg| + 9 <= |Pad(msg)| < |msg| + 9 + 64
    ensures Pad(msg)[..|msg|] == msg && Pad(msg)[|msg|] == 0x80
    ensures forall i :: |msg| < i < |Pad(msg)| - 8 ==> Pad(msg)[i] == 0
  {
    var z := Zeros(ZeroCount(|msg|));
    var p := msg + [0x80] + z + LengthField(|msg|);
    assert Pad(msg) == p;
    assert |p| == |msg| + 1 + |z| + 8;
    LengthAligns(|msg| + 1 + |z|);
    assert forall i :: |msg| < i < |p| - 8 ==> p[i] == z[i - |msg| - 1];
  }

  /** The padded message without its last block. */
  function PadHead(msg: seq<byte>): (r: seq<byte>)
    ensures |r| % 64 == 0
  {
    PadShape(msg);
    LastBlock(|Pad(msg)|);
    Pad(msg)[..|Pad(msg)| - 64]
  }

  /** The last block of the padded message. */
  function PadTail(msg: seq<byte>): (r: seq<byte>)
    ensures |r| == 64
  {
    PadShape(msg);
    LastBlock(|Pad(msg)|);
    Pad(msg)[|Pad(msg)| - 64..]
  }

  /** The last block closes with the length field. */
  lemma PadParts(msg: seq<byte>)
    ensures Pad(msg) == PadHead(msg) + PadTail(msg)
    ensures PadTail(msg)[56..] == LengthField(|msg|)
  {
    PadShape(msg);
    var p := Pad(msg);
    assert p[|p| - 8..] == LengthField(|msg|);
  }

  lemma LastBlock(n: nat)
    requires n % 64 == 0 && n >= 9
    ensures n >= 64 && (n - 64) % 64 == 0
  {
  }

  lemma LengthAligns(n: nat)
    requires n % 64 == 56
    ensures (n + 8) % 64 == 0
  {
  }

  /** The big-endian bytes of the hash words. */
  function Serialize(h: seq<word>): (r: seq<byte>)
    ensures |r| == 4 * |h|
  {
    if h == [] then [] else Serialize(h[..|h| - 1]) + WordBytes(h[|h| - 1])
  }

  /** Byte i of a word, most significant first: the word shifted right by
      24 - 8 * i bits, masked to its low eight bits. */
  function WordByte(w: word, i: int): byte
    requires 0 <= i < 4
  {
    if i == 0 then (w >> 24) as byte
    else if i == 1 then ((w >> 16) & 0xff) as byte
    else if i == 2 then ((w >> 8) & 0xff) as byte
    else (w & 0xff) as byte
  }

  function WordBytes(w: word): (r: seq<byte>)
    ensures |r| == 4
  {
    [WordByte(w, 0), WordByte(w, 1), WordByte(w, 2), WordByte(w, 3)]
  }

  /** SHA-256 of a message of whole bytes. */
  function Digest(msg: seq<byte>): (r: seq<byte>)
    ensures |r| == 32
  {
    PadShape(msg);
    Serialize(HashBlocks(H0, Pad(msg)))
  }

  /** The digest as lowercase hex text, the form every client and both
      servers store a blob under. */
  function HexDigest(msg: seq<byte>): (s: string)
    ensures |s| == 64 && IsLowerHex(s)
  {
    LowerHexShape(Digest(msg));
    LowerHex(Digest(msg))
  }
}
