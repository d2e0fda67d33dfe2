/** Bytes and their lowercase hexadecimal text form.
    Every front end stores a blob under the lowercase hex spelling of its
    SHA-256 digest: `hash('sha256', ...)` in PHP, `digest('hex')` in Node,
    `hexdigest()` in Python, the "x2" format in C# and the table lookup in C. */
module Bytes {

  type byte = bv8

  /** The digit table the C client indexes (`"0123456789abcdef"`). */
  const HexDigits: string := "0123456789abcdef"

  predicate IsHexChar(c: char)
  {
    '0' <= c <= '9' || 'a' <= c <= 'f'
  }

  /** The lowercase hex digit of a nibble. */
  function HexDigit(n: byte): (c: char)
    requires n < 16
    ensures IsHexChar(c)
  {
    if n < 10 then ('0' as int + n as int) as char else ('a' as int + n as int - 10) as char
  }

  /** The table gives the same digit as the arithmetic definition. */
  lemma HexDigitsTable(n: byte)
    requires n < 16
    ensures |HexDigits| == 16 && HexDigits[n as int] == HexDigit(n)
  {
  }

  /** The two lowercase digits of one byte, high nibble first. */
  function HexPair(b: byte): (s: string)
    ensures |s| == 2
  {
    [HexDigit(b >> 4), HexDigit(b & 0xF)]
  }

  /** The lowercase hex text of a byte string: two characters per byte. */
  function LowerHex(bs: seq<byte>): (s: string)
  {
    if bs == [] then [] else LowerHex(bs[..|bs| - 1]) + HexPair(bs[|bs| - 1])
  }

  predicate IsLowerHex(s: string)
  {
    forall i :: 0 <= i < |s| ==> IsHexChar(s[i])
  }

  /** The value of a lowercase hex digit (inverse of HexDigit). */
  function HexValue(c: char): (n: byte)
    requires IsHexChar(c)
    ensures n < 16 && HexDigit(n) == c
  {
    if '0' <= c <= '9' then (c as int - '0' as int) as byte
    else (c as int - 'a' as int + 10) as byte
  }

  /** The byte with high nibble `hi` and low nibble `lo`. */
  function FromNibbles(hi: byte, lo: byte): byte
  {
    (hi << 4) | lo
  }

  /** Reads lowercase hex text back into bytes. */
  function HexDecode(s: string): seq<byte>
    requires |s| % 2 == 0 && IsLowerHex(s)
  {
    if s == [] then []
    else
      HexDecode(s[..|s| - 2])
      + [FromNibbles(HexValue(s[|s| - 2]), HexValue(s[|s| - 1]))]
  }

  lemma {:induction false} LowerHexShape(bs: seq<byte>)
    ensures |LowerHex(bs)| == 2 * |bs|
    ensures IsLowerHex(LowerHex(bs))
    ensures forall i :: 0 <= i < |bs| ==> LowerHex(bs)[2 * i .. 2 * i + 2] == HexPair(bs[i])
  {
    if bs != [] {
      var init := bs[..|bs| - 1];
      LowerHexShape(init);
      var s := LowerHex(bs);
      assert s == LowerHex(init) + HexPair(bs[|bs| - 1]);
      assert |LowerHex(init)| == 2 * |init|;
      forall i | 0 <= i < |bs| ensures s[2 * i .. 2 * i + 2] == HexPair(bs[i]) {
        if i < |init| {
          assert bs[i] == init[i];
          SliceOfFront(LowerHex(init), HexPair(bs[|bs| - 1]), 2 * i, 2 * i + 2);
        } else {
          assert 2 * i == |LowerHex(init)|;
          assert s[2 * i..] == HexPair(bs[|bs| - 1]);
        }
      }
    }
  }

  lemma SliceOfFront(a: string, b: string, j: int, k: int)
    requires 0 <= j <= k <= |a|
    ensures (a + b)[j..k] == a[j..k]
  {
  }

  lemma HexPairRoundTrip(b: byte)
    ensures FromNibbles(HexValue(HexPair(b)[0]), HexValue(HexPair(b)[1])) == b
  {
    var hi, lo := b >> 4, b & 0xF;
    assert HexValue(HexDigit(hi)) == hi && HexValue(HexDigit(lo)) == lo by {
      HexDigitInjective(hi);
      HexDigitInjective(lo);
    }
  }

  lemma HexDigitInjective(n: byte)
    requires n < 16
    ensures HexValue(HexDigit(n)) == n
  {
  }

  lemma Twice(n: nat)
    ensures (2 * n) % 2 == 0
  {
  }

  /** Decoding the hex text of any byte string gives back the bytes. */
  lemma {:induction false} HexRoundTrip(bs: seq<byte>)
    ensures |LowerHex(bs)| % 2 == 0 && IsLowerHex(LowerHex(bs))
    ensures HexDecode(LowerHex(bs)) == bs
  {
    LowerHexShape(bs);
    Twice(|bs|);
    if bs != [] {
      var init, last := bs[..|bs| - 1], bs[|bs| - 1];
      assert bs == init + [last];
      var s := LowerHex(bs);
      LowerHexShape(init);
      assert s == LowerHex(init) + HexPair(last);
      assert s[..|s| - 2] == LowerHex(init);
      assert s[|s| - 2] == HexPair(last)[0] && s[|s| - 1] == HexPair(last)[1];
      HexRoundTrip(init);
      HexPairRoundTrip(last);
      assert HexDecode(s) == init + [last];
    }
  }
}
