/**
 * Hexadecimal text as Node's `Buffer` writes and reads it: `toString('hex')`
 * emits two lower-case digits per byte; decoding consumes whole digit pairs
 * (either case) and stops at the first pair holding a non-digit, dropping a
 * trailing odd digit.
 */
module Hex {

  newtype byte = x: int | 0 <= x < 256

  predicate IsHexDigit(c: char) {
    ('0' <= c <= '9') || ('a' <= c <= 'f') || ('A' <= c <= 'F')
  }

  function DigitValue(c: char): (v: int)
    requires IsHexDigit(c)
    ensures 0 <= v < 16
  {
    if '0' <= c <= '9' then c as int - '0' as int
    else if 'a' <= c <= 'f' then c as int - 'a' as int + 10
    else c as int - 'A' as int + 10
  }

  /** The byte spelled by the digit pair `hi lo`. */
  function PairValue(hi: char, lo: char): byte
    requires IsHexDigit(hi) && IsHexDigit(lo)
  {
    (DigitValue(hi) * 16 + DigitValue(lo)) as byte
  }

  /** The lower-case digit for a nibble. */
  function NibbleDigit(d: int): (c: char)
    requires 0 <= d < 16
    ensures IsHexDigit(c) && DigitValue(c) == d
  {
    if d < 10 then ('0' as int + d) as char else ('a' as int + d - 10) as char
  }

  /** Two lower-case digits for one byte, high nibble first. */
  function ByteToHex(b: byte): (h: string)
    ensures |h| == 2 && IsHexDigit(h[0]) && IsHexDigit(h[1])
    ensures PairValue(h[0], h[1]) == b
  {
    var n := b as int;
    var hi, lo := n / 16, n % 16;
    assert hi * 16 + lo == n;
    [NibbleDigit(hi), NibbleDigit(lo)]
  }

  predicate AllHexDigits(s: string) {
    forall i :: 0 <= i < |s| ==> IsHexDigit(s[i])
  }

  /** `Buffer.toString('hex')`. */
  function Encode(bs: seq<byte>): (h: string)
    ensures |h| == 2 * |bs|
    ensures AllHexDigits(h)
    decreases |bs|
  {
    if |bs| == 0 then [] else ByteToHex(bs[0]) + Encode(bs[1..])
  }

  /** `Buffer.from(h, 'hex')`: the longest run of well-formed leading pairs. */
  function Decode(h: string): (bs: seq<byte>)
    ensures |bs| <= |h| / 2
    ensures AllHexDigits(h) ==> |bs| == |h| / 2
    decreases |h|
  {
    if |h| < 2 || !IsHexDigit(h[0]) || !IsHexDigit(h[1]) then []
    else
      assert AllHexDigits(h) ==> AllHexDigits(h[2..]);
      [PairValue(h[0], h[1])] + Decode(h[2..])
  }

  /** Decoding what `Encode` wrote gives the bytes back. */
  lemma {:induction false} DecodeEncode(bs: seq<byte>)
    ensures Decode(Encode(bs)) == bs
    decreases |bs|
  {
    if |bs| > 0 {
      var two, rest := ByteToHex(bs[0]), Encode(bs[1..]);
      assert Encode(bs) == two + rest;
      assert (two + rest)[2..] == rest;
      DecodeEncode(bs[1..]);
    }
  }
}
