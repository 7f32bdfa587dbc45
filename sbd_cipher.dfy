/**
 * The cipher side of the encrypting RAM disk: bytes, 16-byte cipher blocks,
 * the transform the driver holds in `tfm`, and the chunk-by-chunk encryption
 * and decryption of a whole byte range.
 */
module SbdCipher {

  newtype byte = x: int | 0 <= x < 256

  /** Block size of AES (FIPS 197): what crypto_cipher_blocksize(tfm) returns. */
  const AES_BLOCK_SIZE: nat := 16

  type Block = s: seq<byte> | |s| == AES_BLOCK_SIZE witness seq(AES_BLOCK_SIZE, _ => 0 as byte)

  /**
   * A keyed block transform: crypto_cipher_encrypt_one / crypto_cipher_decrypt_one
   * on one 16-byte block. The AES rounds themselves are not modelled; any pair of
   * total functions on blocks can stand here.
   */
  datatype BlockCipher = BlockCipher(encryptOne: Block -> Block, decryptOne: Block -> Block)
  {
    /** Decryption undoes encryption, as it does for AES under one key. */
    ghost predicate Invertible() {
      forall b: Block :: decryptOne(encryptOne(b)) == b
    }
  }

  /**
   * The bytes produced by running `encryptOne` over `plain` one block after the
   * other, as the write branch of the transfer loop does.
   */
  function EncryptRange(c: BlockCipher, plain: seq<byte>): (r: seq<byte>)
    requires |plain| % AES_BLOCK_SIZE == 0
    ensures |r| == |plain|
    decreases |plain|
  {
    if |plain| == 0 then []
    else
      var n := |plain| - AES_BLOCK_SIZE;
      EncryptRange(c, plain[..n]) + c.encryptOne(plain[n..])
  }

  /** The bytes produced by running `decryptOne` over `cipher` block by block. */
  function DecryptRange(c: BlockCipher, cipher: seq<byte>): (r: seq<byte>)
    requires |cipher| % AES_BLOCK_SIZE == 0
    ensures |r| == |cipher|
    decreases |cipher|
  {
    if |cipher| == 0 then []
    else
      var n := |cipher| - AES_BLOCK_SIZE;
      DecryptRange(c, cipher[..n]) + c.decryptOne(cipher[n..])
  }

  /** Encrypting a range keeps its length, and block k of the result is the encryption of block k. */
  lemma {:induction false} EncryptRangeBlocks(c: BlockCipher, plain: seq<byte>)
    requires |plain| % AES_BLOCK_SIZE == 0
    ensures forall k :: 0 <= k < |plain| / AES_BLOCK_SIZE ==>
      EncryptRange(c, plain)[k * AES_BLOCK_SIZE .. (k + 1) * AES_BLOCK_SIZE]
        == c.encryptOne(plain[k * AES_BLOCK_SIZE .. (k + 1) * AES_BLOCK_SIZE])
    decreases |plain|
  {
    if |plain| > 0 {
      var n := |plain| - AES_BLOCK_SIZE;
      EncryptRangeBlocks(c, plain[..n]);
      var front := EncryptRange(c, plain[..n]);
      var r := EncryptRange(c, plain);
      assert r == front + c.encryptOne(plain[n..]);
      forall k | 0 <= k < |plain| / AES_BLOCK_SIZE
        ensures r[k * AES_BLOCK_SIZE .. (k + 1) * AES_BLOCK_SIZE]
          == c.encryptOne(plain[k * AES_BLOCK_SIZE .. (k + 1) * AES_BLOCK_SIZE])
      {
        var lo, hi := k * AES_BLOCK_SIZE, (k + 1) * AES_BLOCK_SIZE;
        var m := n / AES_BLOCK_SIZE;
        assert n == m * AES_BLOCK_SIZE && |plain| / AES_BLOCK_SIZE == m + 1;
        if k < m {
          assert r[lo..hi] == front[lo..hi];
          assert plain[..n][lo..hi] == plain[lo..hi] && k < |plain[..n]| / AES_BLOCK_SIZE;
        } else {
          assert lo == n && hi == |plain| && plain[lo..hi] == plain[n..];
        }
      }
    }
  }

  /** Decrypting a range keeps its length, and block k of the result is the decryption of block k. */
  lemma {:induction false} DecryptRangeBlocks(c: BlockCipher, cipher: seq<byte>)
    requires |cipher| % AES_BLOCK_SIZE == 0
    ensures forall k :: 0 <= k < |cipher| / AES_BLOCK_SIZE ==>
      DecryptRange(c, cipher)[k * AES_BLOCK_SIZE .. (k + 1) * AES_BLOCK_SIZE]
        == c.decryptOne(cipher[k * AES_BLOCK_SIZE .. (k + 1) * AES_BLOCK_SIZE])
    decreases |cipher|
  {
    if |cipher| > 0 {
      var n := |cipher| - AES_BLOCK_SIZE;
      DecryptRangeBlocks(c, cipher[..n]);
      var front := DecryptRange(c, cipher[..n]);
      var r := DecryptRange(c, cipher);
      assert r == front + c.decryptOne(cipher[n..]);
      forall k | 0 <= k < |cipher| / AES_BLOCK_SIZE
        ensures r[k * AES_BLOCK_SIZE .. (k + 1) * AES_BLOCK_SIZE]
          == c.decryptOne(cipher[k * AES_BLOCK_SIZE .. (k + 1) * AES_BLOCK_SIZE])
      {
        var lo, hi := k * AES_BLOCK_SIZE, (k + 1) * AES_BLOCK_SIZE;
        var m := n / AES_BLOCK_SIZE;
        assert n == m * AES_BLOCK_SIZE && |cipher| / AES_BLOCK_SIZE == m + 1;
        if k < m {
          assert r[lo..hi] == front[lo..hi];
          assert cipher[..n][lo..hi] == cipher[lo..hi] && k < |cipher[..n]| / AES_BLOCK_SIZE;
        } else {
          assert lo == n && hi == |cipher| && cipher[lo..hi] == cipher[n..];
        }
      }
    }
  }

  /**
   * A block-aligned position short of a block-aligned end has a whole block
   * before that end, and the position after that block is aligned too.
   */
  lemma NextBlockFits(i: nat, n: nat)
    requires i % AES_BLOCK_SIZE == 0 && n % AES_BLOCK_SIZE == 0 && i < n
    ensures i + AES_BLOCK_SIZE <= n && (i + AES_BLOCK_SIZE) % AES_BLOCK_SIZE == 0
  {
    assert i == AES_BLOCK_SIZE * (i / AES_BLOCK_SIZE);
    assert n == AES_BLOCK_SIZE * (n / AES_BLOCK_SIZE);
  }

  /** Encrypting one more block of a prefix appends that block's encryption. */
  lemma EncryptRangeExtend(c: BlockCipher, s: seq<byte>, i: nat)
    requires i % AES_BLOCK_SIZE == 0 && i + AES_BLOCK_SIZE <= |s|
    ensures EncryptRange(c, s[..i + AES_BLOCK_SIZE]) == EncryptRange(c, s[..i]) + c.encryptOne(s[i..i + AES_BLOCK_SIZE])
  {
    assert s[..i + AES_BLOCK_SIZE][..i] == s[..i];
    assert s[..i + AES_BLOCK_SIZE][i..] == s[i..i + AES_BLOCK_SIZE];
  }

  /** Decrypting what was encrypted gives back the plaintext, for any block-aligned range. */
  lemma {:induction false} DecryptEncryptRange(c: BlockCipher, plain: seq<byte>)
    requires c.Invertible()
    requires |plain| % AES_BLOCK_SIZE == 0
    ensures DecryptRange(c, EncryptRange(c, plain)) == plain
    decreases |plain|
  {
    if |plain| > 0 {
      var n := |plain| - AES_BLOCK_SIZE;
      DecryptEncryptRange(c, plain[..n]);
      var front := EncryptRange(c, plain[..n]);
      var last: Block := plain[n..];
      var e := front + c.encryptOne(last);
      assert EncryptRange(c, plain) == e;
      assert e[..n] == front;
      assert e[n..] == c.encryptOne(last);
      calc {
        DecryptRange(c, e);
        DecryptRange(c, e[..n]) + c.decryptOne(e[n..]);
        plain[..n] + c.decryptOne(c.encryptOne(last));
        plain[..n] + last;
        plain;
      }
    }
  }
}
