/** The session cipher (crates/steam/src/connection/encryption.rs): CBC (section 6.2 of NIST SP 800-38A) with
    padding (section 6.3 of RFC 5652), the initialisation vector carrying a truncated MAC of the plaintext and 3
    random bytes. */
module SessionCipher {
  import opened Base

  const BLOCK := 16
  const MAC_BYTES := 13

  /** The block permutation under the session key, its inverse, and the MAC under the MAC key. */
  datatype Cipher = Cipher(enc: Bytes -> Bytes, dec: Bytes -> Bytes, mac: Bytes -> Bytes)

  ghost predicate Permutation(c: Cipher)
  {
    && (forall b: Bytes | |b| == BLOCK :: |c.enc(b)| == BLOCK && c.dec(c.enc(b)) == b)
    && (forall b: Bytes | |b| == BLOCK :: |c.dec(b)| == BLOCK && c.enc(c.dec(b)) == b)
    && (forall b: Bytes :: |c.mac(b)| >= MAC_BYTES)
  }

  // ---------------------------------------------------------------- exclusive or

  /** Bit by bit, `n` bits. */
  function XorBits(a: nat, b: nat, n: nat): (x: nat)
  {
    if n == 0 then 0 else 2 * XorBits(a / 2, b / 2, n - 1) + (a + b) % 2
  }

  lemma {:induction false} XorBitsTwice(a: nat, b: nat, n: nat)
    requires a < Pow2(n)
    ensures XorBits(a, b, n) < Pow2(n) && XorBits(XorBits(a, b, n), b, n) == a
  {
    if n > 0 {
      XorBitsTwice(a / 2, b / 2, n - 1);
      LowBit(a, b, XorBits(a / 2, b / 2, n - 1));
    }
  }

  lemma LowBit(a: nat, b: nat, high: nat)
    ensures var x := 2 * high + (a + b) % 2; x / 2 == high && (x + b) % 2 == a % 2
  {
  }

  lemma ByteBits()
    ensures Pow2(8) == 256
  {
    assert Pow2(8) == 2 * (2 * (2 * (2 * Pow2(4))));
  }

  function XorByte(a: Byte, b: Byte): Byte
  {
    ByteBits();
    XorBitsTwice(a, b, 8);
    XorBits(a, b, 8)
  }

  function Xor(a: Bytes, b: Bytes): (x: Bytes)
    requires |a| == |b|
    ensures |x| == |a|
  {
    seq(|a|, i requires 0 <= i < |a| => XorByte(a[i], b[i]))
  }

  lemma XorTwice(a: Bytes, b: Bytes)
    requires |a| == |b|
    ensures Xor(Xor(a, b), b) == a
  {
    ByteBits();
    forall i | 0 <= i < |a|
      ensures Xor(Xor(a, b), b)[i] == a[i]
    {
      XorBitsTwice(a[i], b[i], 8);
    }
  }

  /** Bit `i`, counted from the least. */
  function Bit(n: nat, i: nat): nat
  {
    if i == 0 then n % 2 else Bit(n / 2, i - 1)
  }

  lemma {:induction false} XorBitsAt(a: nat, b: nat, n: nat, i: nat)
    requires i < n
    ensures Bit(XorBits(a, b, n), i) == (Bit(a, i) + Bit(b, i)) % 2
  {
    LowBit(a, b, XorBits(a / 2, b / 2, n - 1));
    if i > 0 {
      XorBitsAt(a / 2, b / 2, n - 1, i - 1);
    } else {
      Parity(a, b, XorBits(a / 2, b / 2, n - 1));
    }
  }

  lemma Parity(a: nat, b: nat, high: nat)
    ensures (2 * high + (a + b) % 2) % 2 == (a % 2 + b % 2) % 2
  {
  }

  /** Each of the eight bits is the sum of the two, modulo 2. */
  lemma XorByteBits(a: Byte, b: Byte, i: nat)
    requires i < 8
    ensures Bit(XorByte(a, b), i) == (Bit(a, i) + Bit(b, i)) % 2
  {
    XorBitsAt(a, b, 8, i);
  }

  // ---------------------------------------------------------------- chaining

  function CbcEnc(c: Cipher, iv: Bytes, data: Bytes): Bytes
    decreases |data|
  {
    if |data| < BLOCK || |iv| != BLOCK then []
    else
      var block := c.enc(Xor(data[..BLOCK], iv));
      block + CbcEnc(c, block, data[BLOCK..])
  }

  function CbcDec(c: Cipher, iv: Bytes, data: Bytes): Bytes
    decreases |data|
  {
    if |data| < BLOCK || |iv| != BLOCK || |c.dec(data[..BLOCK])| != BLOCK then []
    else Xor(c.dec(data[..BLOCK]), iv) + CbcDec(c, data[..BLOCK], data[BLOCK..])
  }

  lemma {:induction false} CbcDecEnc(c: Cipher, iv: Bytes, data: Bytes)
    requires Permutation(c) && |iv| == BLOCK && |data| % BLOCK == 0
    ensures |CbcEnc(c, iv, data)| == |data| && CbcDec(c, iv, CbcEnc(c, iv, data)) == data
    decreases |data|
  {
    if |data| >= BLOCK {
      var block, rest := c.enc(Xor(data[..BLOCK], iv)), data[BLOCK..];
      CbcDecEnc(c, block, rest);
      var out := CbcEnc(c, iv, data);
      assert out[..BLOCK] == block && out[BLOCK..] == CbcEnc(c, block, rest);
      XorTwice(data[..BLOCK], iv);
      assert data == data[..BLOCK] + rest;
    }
  }

  lemma {:induction false} CbcEncDec(c: Cipher, iv: Bytes, data: Bytes)
    requires Permutation(c) && |iv| == BLOCK && |data| % BLOCK == 0
    ensures |CbcDec(c, iv, data)| == |data| && CbcEnc(c, iv, CbcDec(c, iv, data)) == data
    decreases |data|
  {
    if |data| >= BLOCK {
      var block, rest := data[..BLOCK], data[BLOCK..];
      CbcEncDec(c, block, rest);
      var out := CbcDec(c, iv, data);
      assert out[..BLOCK] == Xor(c.dec(block), iv) && out[BLOCK..] == CbcDec(c, block, rest);
      XorTwice(c.dec(block), iv);
      assert data == block + rest;
    }
  }

  /** Ciphertext block `i` of `out` is the encryption of plaintext block `i`, added to the ciphertext block before it,
      or to the vector if it is the first. */
  predicate Chained(c: Cipher, iv: Bytes, data: Bytes, out: Bytes, i: nat)
    requires |iv| == 16 && 16 * i + 16 <= |data| == |out|
  {
    out[16 * i..16 * i + 16] ==
    c.enc(Xor(data[16 * i..16 * i + 16], if i == 0 then iv else out[16 * (i - 1)..16 * i]))
  }

  lemma FirstChained(c: Cipher, iv: Bytes, data: Bytes, more: Bytes)
    requires |iv| == 16 && |data| >= 16 && |c.enc(Xor(data[..16], iv))| == 16 && 16 + |more| == |data|
    ensures Chained(c, iv, data, c.enc(Xor(data[..16], iv)) + more, 0)
  {
    Halves(c.enc(Xor(data[..16], iv)), more);
    assert data[0..16] == data[..16];
  }

  lemma NextChained(c: Cipher, iv: Bytes, first: Bytes, data: Bytes, more: Bytes, i: nat)
    requires |iv| == |first| == 16 && i > 0 && 16 * i + 16 <= |data| == 16 + |more|
    requires Chained(c, first, data[16..], more, i - 1)
    ensures Chained(c, iv, data, first + more, i)
  {
    BlockShift(first, more, data, i);
  }

  lemma {:induction false} CbcLength(c: Cipher, iv: Bytes, data: Bytes, n: nat)
    requires Permutation(c) && |iv| == 16 && |data| == 16 * n
    ensures |CbcEnc(c, iv, data)| == |data|
    decreases n
  {
    if n > 0 {
      CbcFirst(c, iv, data);
      CbcLength(c, c.enc(Xor(data[..16], iv)), data[16..], n - 1);
    }
  }

  lemma {:induction false} CbcChain(c: Cipher, iv: Bytes, data: Bytes, n: nat, i: nat)
    requires Permutation(c) && |iv| == 16 && |data| == 16 * n && i < n
    ensures |CbcEnc(c, iv, data)| == |data| && Chained(c, iv, data, CbcEnc(c, iv, data), i)
    decreases i
  {
    CbcFirst(c, iv, data);
    var block, rest := c.enc(Xor(data[..16], iv)), data[16..];
    var more := CbcEnc(c, block, rest);
    assert |rest| == 16 * (n - 1);
    CbcLength(c, block, rest, n - 1);
    if i == 0 {
      FirstChained(c, iv, data, more);
    } else {
      CbcChain(c, block, rest, n - 1, i - 1);
      NextChained(c, iv, block, data, more, i);
    }
  }

  lemma CbcBlocks(c: Cipher, iv: Bytes, data: Bytes, i: nat)
    requires Permutation(c) && |iv| == 16 && |data| % 16 == 0 && 16 * i < |data|
    ensures |CbcEnc(c, iv, data)| == |data| && 16 * i + 16 <= |data| && Chained(c, iv, data, CbcEnc(c, iv, data), i)
  {
    CbcChain(c, iv, data, |data| / 16, i);
  }

  lemma CbcFirst(c: Cipher, iv: Bytes, data: Bytes)
    requires |data| >= 16 && |iv| == 16 && Permutation(c)
    ensures var block := c.enc(Xor(data[..16], iv));
            |block| == 16 && CbcEnc(c, iv, data) == block + CbcEnc(c, block, data[16..])
  {
  }

  /** Blocks of the whole are those of the rest, one earlier. */
  lemma BlockShift(first: Bytes, more: Bytes, data: Bytes, i: nat)
    requires |first| == 16 && i > 0 && 16 * i + 16 <= |data| == 16 + |more|
    ensures (first + more)[16 * i..16 * i + 16] == more[16 * (i - 1)..16 * (i - 1) + 16]
    ensures (first + more)[16 * (i - 1)..16 * i] == if i == 1 then first else more[16 * (i - 2)..16 * (i - 1)]
    ensures data[16 * i..16 * i + 16] == data[16..][16 * (i - 1)..16 * (i - 1) + 16]
  {
  }

  // ---------------------------------------------------------------- padding

  function Pad(p: Bytes): (d: Bytes)
    ensures |d| % BLOCK == 0 && |p| < |d| <= |p| + BLOCK
  {
    var n := BLOCK - |p| % BLOCK;
    p + seq(n, _ => n)
  }

  /** Padding adds 1 to 16 bytes, each of them the number added. */
  lemma PadExactly(p: Bytes)
    ensures |Pad(p)| % 16 == 0 && |p| < |Pad(p)| <= |p| + 16
    ensures Pad(p)[..|p|] == p && forall i | |p| <= i < |Pad(p)| :: Pad(p)[i] == |Pad(p)| - |p|
  {
  }

  function Unpad(d: Bytes): Option<Bytes>
  {
    if d == [] || |d| % BLOCK != 0 then None
    else
      var n := d[|d| - 1];
      if 1 <= n <= BLOCK && forall i | |d| - n <= i < |d| :: d[i] == n then Some(d[..|d| - n]) else None
  }

  /** Unpadding inverts padding and accepts nothing else. */
  lemma UnpadExact(d: Bytes, p: Bytes)
    ensures Unpad(d) == Some(p) <==> d == Pad(p)
  {
    if Unpad(d) == Some(p) {
      var n := d[|d| - 1];
      PadLength(|p|, n);
      Join(d, |p|);
      assert d[|p|..] == seq(n, _ => n);
    }
    if d == Pad(p) {
      PadExactly(p);
    }
  }

  lemma PadLength(n: nat, added: nat)
    requires 1 <= added <= BLOCK && (n + added) % BLOCK == 0
    ensures added == BLOCK - n % BLOCK
  {
  }

  // ---------------------------------------------------------------- the cipher

  datatype CipherError = DecryptionFailed | InvalidPadding

  function BuildIv(c: Cipher, random: Bytes, plaintext: Bytes): Bytes
    requires |c.mac(random + plaintext)| >= MAC_BYTES
  {
    c.mac(random + plaintext)[..MAC_BYTES] + random
  }

  function Encrypt(c: Cipher, random: Bytes, plaintext: Bytes): Bytes
    requires |c.mac(random + plaintext)| >= MAC_BYTES
  {
    var iv := BuildIv(c, random, plaintext);
    c.enc(iv) + CbcEnc(c, iv, Pad(plaintext))
  }

  function Decrypt(c: Cipher, data: Bytes): Result<Bytes, CipherError>
  {
    if |data| < 2 * BLOCK then Err(DecryptionFailed)
    else
      var iv := c.dec(data[..BLOCK]);
      if |iv| != BLOCK || (|data| - BLOCK) % BLOCK != 0 then Err(InvalidPadding)
      else
        match Unpad(CbcDec(c, iv, data[BLOCK..]))
        case None => Err(InvalidPadding)
        case Some(plaintext) =>
          var random := iv[MAC_BYTES..];
          if |c.mac(random + plaintext)| < MAC_BYTES || BuildIv(c, random, plaintext)[..MAC_BYTES] != iv[..MAC_BYTES]
          then Err(DecryptionFailed)
          else Ok(plaintext)
  }

  lemma EncryptOpens(c: Cipher, random: Bytes, p: Bytes)
    requires Permutation(c) && |random| == BLOCK - MAC_BYTES
    ensures |Encrypt(c, random, p)| == BLOCK + |Pad(p)|
    ensures c.dec(Encrypt(c, random, p)[..BLOCK])[MAC_BYTES..] == random
    ensures Decrypt(c, Encrypt(c, random, p)) == Ok(p)
  {
    EncryptParts(c, random, p);
    CbcDecEnc(c, BuildIv(c, random, p), Pad(p));
    UnpadExact(Pad(p), p);
    DecryptParts(c, Encrypt(c, random, p), BuildIv(c, random, p), p);
  }

  /** The first block is the encryption of the vector, which is 13 bytes of MAC and the 3 random bytes; the others chain
      the padded plaintext from it. */
  lemma EncryptExactly(c: Cipher, random: Bytes, p: Bytes)
    requires Permutation(c) && |random| == 3
    ensures var iv, data := c.mac(random + p)[..13] + random, Encrypt(c, random, p);
            && data[..16] == c.enc(iv) && data[16..] == CbcEnc(c, iv, Pad(p))
  {
    EncryptParts(c, random, p);
  }

  lemma DecryptParts(c: Cipher, data: Bytes, iv: Bytes, p: Bytes)
    requires |data| >= 2 * BLOCK && c.dec(data[..BLOCK]) == iv && |iv| == BLOCK && |data[BLOCK..]| % BLOCK == 0
    requires Unpad(CbcDec(c, iv, data[BLOCK..])) == Some(p)
    requires |c.mac(iv[MAC_BYTES..] + p)| >= MAC_BYTES && BuildIv(c, iv[MAC_BYTES..], p) == iv
    ensures Decrypt(c, data) == Ok(p)
  {
  }

  lemma EncryptParts(c: Cipher, random: Bytes, p: Bytes)
    requires Permutation(c) && |random| == BLOCK - MAC_BYTES
    ensures var iv, data := BuildIv(c, random, p), Encrypt(c, random, p);
            && |iv| == BLOCK && iv[MAC_BYTES..] == random
            && data[..BLOCK] == c.enc(iv) && data[BLOCK..] == CbcEnc(c, iv, Pad(p))
  {
    var iv := BuildIv(c, random, p);
    Halves(c.mac(random + p)[..MAC_BYTES], random);
    Halves(c.enc(iv), CbcEnc(c, iv, Pad(p)));
  }

  lemma OpensOnlyEncryptions(c: Cipher, data: Bytes, p: Bytes)
    requires Permutation(c) && Decrypt(c, data) == Ok(p)
    ensures data == Encrypt(c, c.dec(data[..BLOCK])[MAC_BYTES..], p)
  {
    var iv, body := c.dec(data[..BLOCK]), data[BLOCK..];
    AcceptedIv(c, iv, p);
    CbcEncDec(c, iv, body);
    UnpadExact(CbcDec(c, iv, body), p);
    Join(data, BLOCK);
  }

  /** A vector whose MAC part checks is the one built from its random bytes. */
  lemma AcceptedIv(c: Cipher, iv: Bytes, p: Bytes)
    requires |iv| == BLOCK && |c.mac(iv[MAC_BYTES..] + p)| >= MAC_BYTES
    requires BuildIv(c, iv[MAC_BYTES..], p)[..MAC_BYTES] == iv[..MAC_BYTES]
    ensures BuildIv(c, iv[MAC_BYTES..], p) == iv
  {
    var random := iv[MAC_BYTES..];
    Halves(c.mac(random + p)[..MAC_BYTES], random);
    Join(iv, MAC_BYTES);
  }

  /** Decryption accepts exactly the encryptions: `data` decrypts to `p` if and only if it is the encryption of `p`
      under the 3 random bytes that its first block carries. */
  lemma DecryptExact(c: Cipher, data: Bytes, p: Bytes)
    requires Permutation(c)
    ensures Decrypt(c, data) == Ok(p) <==>
            |data| >= BLOCK && var random := c.dec(data[..BLOCK])[MAC_BYTES..]; data == Encrypt(c, random, p)
  {
    if Decrypt(c, data) == Ok(p) {
      OpensOnlyEncryptions(c, data, p);
    } else if |data| >= BLOCK {
      EncryptOpens(c, c.dec(data[..BLOCK])[MAC_BYTES..], p);
    }
  }

  /** Which error it is: data shorter than two blocks and a MAC that does not match are failed decryptions, anything
      that does not end in padding is invalid padding. */
  lemma DecryptErrors(c: Cipher, data: Bytes)
    requires Permutation(c)
    ensures |data| < 32 ==> Decrypt(c, data) == Err(DecryptionFailed)
    ensures |data| >= 32 ==>
              var iv := c.dec(data[..16]);
              var p := Unpad(CbcDec(c, iv, data[16..]));
              if |data| % 16 != 0 || p.None? then Decrypt(c, data) == Err(InvalidPadding)
              else if c.mac(iv[13..] + p.value)[..13] != iv[..13] then Decrypt(c, data) == Err(DecryptionFailed)
              else Decrypt(c, data) == Ok(p.value)
  {
    if |data| >= 32 {
      var iv := c.dec(data[..16]);
      var p := Unpad(CbcDec(c, iv, data[16..]));
      OneBlockLess(|data|);
      if p.Some? {
        MacPart(c, iv, p.value);
      }
    }
  }

  lemma OneBlockLess(n: nat)
    requires n >= 16
    ensures (n - 16) % 16 == n % 16
  {
  }

  lemma MacPart(c: Cipher, iv: Bytes, p: Bytes)
    requires Permutation(c) && |iv| == 16
    ensures BuildIv(c, iv[13..], p)[..13] == c.mac(iv[13..] + p)[..13]
  {
    Halves(c.mac(iv[13..] + p)[..13], iv[13..]);
  }

  /** Encryption is a bijection from pairs of random bytes and plaintext onto the accepted ciphertexts. */
  lemma EncryptInjective(c: Cipher, r: Bytes, p: Bytes, r': Bytes, p': Bytes)
    requires Permutation(c) && |r| == |r'| == BLOCK - MAC_BYTES
    requires Encrypt(c, r, p) == Encrypt(c, r', p')
    ensures r == r' && p == p'
  {
    EncryptOpens(c, r, p);
    EncryptOpens(c, r', p');
  }
}
