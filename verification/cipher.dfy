/**
 * The server's `encrypt` and `decrypt` helpers: message text is AES-CBC
 * encrypted under a fresh 16-byte IV and stored as `hex(iv) + ':' + hex(ct)`.
 * The IV, drawn from `crypto.randomBytes(IV_LENGTH)` in the server, is a
 * parameter here; the process-wide key is folded into the block cipher.
 */
module Cipher {
  import opened Wrappers
  import opened Hex
  import Envelope
  import Cbc

  /** `IV_LENGTH`. */
  const IvLength: nat := 16

  /** `encrypt(text)` with the IV it would draw. */
  function Encrypt(c: Cbc.BlockCipher, iv: Cbc.Block, text: seq<byte>): (env: string)
    ensures Envelope.Split(env, Envelope.Separator) == [Hex.Encode(iv), Hex.Encode(Cbc.Encrypt(c, iv, text))]
    ensures Envelope.Open(env) == Some((Hex.Encode(iv), Hex.Encode(Cbc.Encrypt(c, iv, text))))
  {
    Envelope.OpenSeal(iv, Cbc.Encrypt(c, iv, text));
    Envelope.Seal(iv, Cbc.Encrypt(c, iv, text))
  }

  /**
   * `decrypt(text)`, `None` wherever the server's call would throw: no ':'
   * (piece 1 is `undefined`), an odd-length ciphertext hex string (rejected
   * by the decipher's input-encoding check), or a failure of the decipher.
   */
  function Decrypt(c: Cbc.BlockCipher, env: string): (r: Option<seq<byte>>)
    ensures r.Some? ==> Envelope.Separator in env
    ensures r.Some? ==> |Envelope.Open(env).value.1| % 2 == 0
    ensures r.Some? ==> |Hex.Decode(Envelope.Open(env).value.0)| == IvLength
    ensures r.Some? ==> var ct := Hex.Decode(Envelope.Open(env).value.1);
                        |ct| > 0 && |ct| % Cbc.BlockSize == 0
  {
    match Envelope.Open(env)
    case None => None
    case Some((ivHex, ctHex)) =>
      if |ctHex| % 2 != 0 then None
      else Cbc.Decrypt(c, Hex.Decode(ivHex), Hex.Decode(ctHex))
  }

  /**
   * On any envelope of the stored shape, `decrypt` is the decipher applied
   * to the two hex parts, whether or not this key and IV produced them.
   */
  lemma DecryptSeal(c: Cbc.BlockCipher, iv: seq<byte>, ct: seq<byte>)
    ensures Decrypt(c, Envelope.Seal(iv, ct)) == Cbc.Decrypt(c, iv, ct)
  {
    Envelope.OpenSeal(iv, ct);
    Hex.DecodeEncode(iv);
    Hex.DecodeEncode(ct);
  }

  /** What `encrypt` stores, `decrypt` turns back into the original text. */
  lemma DecryptEncrypt(c: Cbc.BlockCipher, iv: Cbc.Block, text: seq<byte>)
    requires Cbc.Invertible(c)
    ensures Decrypt(c, Encrypt(c, iv, text)) == Some(text)
  {
    var ct := Cbc.Encrypt(c, iv, text);
    Hex.DecodeEncode(iv);
    Hex.DecodeEncode(ct);
    Cbc.DecryptEncrypt(c, iv, text);
  }

  /** Fresh IVs give distinct envelopes, even for the same text. */
  lemma DistinctIvsDistinctEnvelopes(c: Cbc.BlockCipher, iv1: Cbc.Block, iv2: Cbc.Block,
                                     text1: seq<byte>, text2: seq<byte>)
    requires iv1 != iv2
    ensures Encrypt(c, iv1, text1) != Encrypt(c, iv2, text2)
  {
    Hex.DecodeEncode(iv1);
    Hex.DecodeEncode(iv2);
  }
}
