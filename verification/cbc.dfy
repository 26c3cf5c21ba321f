/**
 * AES-256-CBC as Node's `createCipheriv`/`createDecipheriv` run it, with the
 * block cipher itself left abstract: PKCS#7 padding to whole 16-byte blocks,
 * then each plaintext block is XORed with the previous ciphertext block (the
 * IV for the first) before the block cipher is applied.
 */
module Cbc {
  import opened Wrappers
  import opened Hex

  const BlockSize: nat := 16

  type Block = b: seq<byte> | |b| == BlockSize
    witness [0, 0, 0, 0, 0, 0, 0, 0, 0, 0, 0, 0, 0, 0, 0, 0]

  /** A keyed block cipher: the process-wide AES key fixes both directions. */
  datatype BlockCipher = BlockCipher(encrypt: Block -> Block, decrypt: Block -> Block)

  /** Decryption undoes encryption on every block, as it does for AES under one key. */
  ghost predicate Invertible(c: BlockCipher) {
    forall b: Block :: c.decrypt(c.encrypt(b)) == b
  }

  /** Bitwise exclusive or of two values below 2^bits. */
  function XorBits(a: nat, b: nat, bits: nat): (r: nat)
    requires a < Pow2(bits) && b < Pow2(bits)
    ensures r < Pow2(bits)
    decreases bits
  {
    if bits == 0 then 0
    else (if a % 2 == b % 2 then 0 else 1) + 2 * XorBits(a / 2, b / 2, bits - 1)
  }

  function Pow2(n: nat): (p: nat)
    ensures p >= 1
  {
    if n == 0 then 1 else 2 * Pow2(n - 1)
  }

  /** XOR with the same value twice is the identity. */
  lemma {:induction false} XorBitsTwice(a: nat, b: nat, bits: nat)
    requires a < Pow2(bits) && b < Pow2(bits)
    ensures XorBits(XorBits(a, b, bits), b, bits) == a
    decreases bits
  {
    if bits > 0 {
      var x := XorBits(a, b, bits);
      var rest := XorBits(a / 2, b / 2, bits - 1);
      assert x / 2 == rest && x % 2 == (if a % 2 == b % 2 then 0 else 1);
      XorBitsTwice(a / 2, b / 2, bits - 1);
    }
  }

  function XorByte(a: byte, b: byte): byte {
    assert Pow2(8) == 256;
    XorBits(a as nat, b as nat, 8) as byte
  }

  /** Byte-wise XOR of two equally long strings of bytes. */
  function Xor(a: seq<byte>, b: seq<byte>): (r: seq<byte>)
    requires |a| == |b|
    ensures |r| == |a|
    ensures forall i :: 0 <= i < |r| ==> r[i] == XorByte(a[i], b[i])
  {
    seq(|a|, i requires 0 <= i < |a| => XorByte(a[i], b[i]))
  }

  lemma XorTwice(a: seq<byte>, b: seq<byte>)
    requires |a| == |b|
    ensures Xor(Xor(a, b), b) == a
  {
    assert Pow2(8) == 256;
    forall i | 0 <= i < |a|
      ensures Xor(Xor(a, b), b)[i] == a[i]
    {
      XorBitsTwice(a[i] as nat, b[i] as nat, 8);
    }
  }

  /** PKCS#7: append n copies of the byte n, 1 <= n <= 16, to reach a whole block. */
  function Pad(p: seq<byte>): (r: seq<byte>)
    ensures |r| % BlockSize == 0 && |p| < |r| <= |p| + BlockSize
    ensures r[..|p|] == p
    ensures forall i :: |p| <= i < |r| ==> r[i] as int == |r| - |p|
  {
    var n := BlockSize - |p| % BlockSize;
    p + seq(n, _ => n as byte)
  }

  /**
   * OpenSSL's padding check on the decrypted text: the last byte n must be
   * 1..16 and the last n bytes must all equal n; otherwise "bad decrypt".
   */
  function Unpad(r: seq<byte>): (p: Option<seq<byte>>)
    ensures p.Some? ==> p.value <= r && 1 <= |r| - |p.value| <= BlockSize
    ensures p.Some? ==> forall i :: |p.value| <= i < |r| ==> r[i] as int == |r| - |p.value|
  {
    if |r| == 0 then None
    else
      var n := r[|r| - 1] as int;
      if 1 <= n <= BlockSize && n <= |r| && forall i :: |r| - n <= i < |r| ==> r[i] as int == n
      then Some(r[..|r| - n])
      else None
  }

  lemma UnpadPad(p: seq<byte>)
    ensures Unpad(Pad(p)) == Some(p)
  {
  }

  /** Text that unpads was produced by padding what it unpads to. */
  lemma PadUnpad(r: seq<byte>)
    requires |r| % BlockSize == 0
    requires Unpad(r).Some?
    ensures Pad(Unpad(r).value) == r
  {
  }

  /** CBC chaining over whole blocks, starting from `prev` (the IV). */
  function EncryptBlocks(c: BlockCipher, prev: Block, p: seq<byte>): (ct: seq<byte>)
    requires |p| % BlockSize == 0
    ensures |ct| == |p|
    decreases |p|
  {
    if |p| == 0 then []
    else
      var block: Block := c.encrypt(Xor(p[..BlockSize], prev));
      block + EncryptBlocks(c, block, p[BlockSize..])
  }

  function DecryptBlocks(c: BlockCipher, prev: Block, ct: seq<byte>): (p: seq<byte>)
    requires |ct| % BlockSize == 0
    ensures |p| == |ct|
    decreases |ct|
  {
    if |ct| == 0 then []
    else
      var block: Block := ct[..BlockSize];
      Xor(c.decrypt(block), prev) + DecryptBlocks(c, block, ct[BlockSize..])
  }

  /** Decrypting a block followed by more ciphertext: the block, then the rest chained from it. */
  lemma DecryptBlocksCons(c: BlockCipher, prev: Block, block: Block, rest: seq<byte>)
    requires |rest| % BlockSize == 0
    ensures DecryptBlocks(c, prev, block + rest) == Xor(c.decrypt(block), prev) + DecryptBlocks(c, block, rest)
  {
    var ct := block + rest;
    assert ct[..BlockSize] == block && ct[BlockSize..] == rest;
  }

  /** Under an invertible block cipher, CBC decryption from the same IV undoes CBC encryption. */
  lemma {:induction false} DecryptEncryptBlocks(c: BlockCipher, prev: Block, p: seq<byte>)
    requires Invertible(c)
    requires |p| % BlockSize == 0
    ensures DecryptBlocks(c, prev, EncryptBlocks(c, prev, p)) == p
    decreases |p|
  {
    if |p| > 0 {
      var x: Block := p[..BlockSize];
      var tail := p[BlockSize..];
      var block: Block := c.encrypt(Xor(x, prev));
      var rest := EncryptBlocks(c, block, tail);
      assert EncryptBlocks(c, prev, p) == block + rest;
      calc {
        DecryptBlocks(c, prev, block + rest);
        { DecryptBlocksCons(c, prev, block, rest); }
        Xor(c.decrypt(block), prev) + DecryptBlocks(c, block, rest);
        { XorTwice(x, prev); }
        x + DecryptBlocks(c, block, rest);
        { DecryptEncryptBlocks(c, block, tail); }
        x + tail;
      }
      assert x + tail == p;
    }
  }

  /** `cipher.update(text)` followed by `cipher.final()`. */
  function Encrypt(c: BlockCipher, iv: Block, text: seq<byte>): (ct: seq<byte>)
    ensures |ct| % BlockSize == 0 && |text| < |ct| <= |text| + BlockSize
  {
    EncryptBlocks(c, iv, Pad(text))
  }

  /**
   * `decipher.update(ct)` followed by `decipher.final()`. Fails when the IV
   * is not one block long, when the ciphertext is empty or not a whole
   * number of blocks, and when the padding check fails; otherwise the text
   * is the CBC decryption with its padding removed.
   */
  function Decrypt(c: BlockCipher, iv: seq<byte>, ct: seq<byte>): (r: Option<seq<byte>>)
    ensures r.Some? ==> |iv| == BlockSize && |ct| > 0 && |ct| % BlockSize == 0
    ensures r.Some? ==> |iv| == BlockSize && |ct| % BlockSize == 0 && Pad(r.value) == DecryptBlocks(c, iv, ct)
    ensures |iv| == BlockSize && |ct| % BlockSize == 0 && (exists t :: Pad(t) == DecryptBlocks(c, iv, ct)) ==> r.Some?
  {
    if |iv| != BlockSize || |ct| == 0 || |ct| % BlockSize != 0 then
      assert |iv| == BlockSize && |ct| % BlockSize == 0 ==> forall t :: Pad(t) != DecryptBlocks(c, iv, ct);
      None
    else
      var raw := DecryptBlocks(c, iv, ct);
      assert (exists t :: Pad(t) == raw) ==> Unpad(raw).Some? by {
        forall t | Pad(t) == raw
          ensures Unpad(raw).Some?
        {
          UnpadPad(t);
        }
      }
      if Unpad(raw).Some? then PadUnpad(raw); Unpad(raw) else Unpad(raw)
  }

  /** Under one invertible block cipher and one IV, decryption recovers the text. */
  lemma DecryptEncrypt(c: BlockCipher, iv: Block, text: seq<byte>)
    requires Invertible(c)
    ensures Decrypt(c, iv, Encrypt(c, iv, text)) == Some(text)
  {
    DecryptEncryptBlocks(c, iv, Pad(text));
    UnpadPad(text);
  }
}
