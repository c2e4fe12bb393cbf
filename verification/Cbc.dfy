/** Cipher block chaining (section 6.2 of SP 800-38A) over any block cipher. */
module Cbc {
  import opened AesBytes

  /** A block cipher under one key: encryption, or decryption. */
  type Permutation = Block -> Block

  function Xor(a: Block, b: Block): Block
  {
    seq(BLOCKLEN, k requires 0 <= k < BLOCKLEN => Plus(a[k], b[k]))
  }

  lemma XorTwice(a: Block, b: Block)
    ensures Xor(Xor(a, b), b) == a
  {
    hide Plus;
    forall k | 0 <= k < BLOCKLEN ensures Xor(Xor(a, b), b)[k] == a[k] {
      PlusTwice(a[k], b[k]);
    }
  }

  /** A message of n whole blocks, block by block. */
  type Blocks = seq<Block>

  /** The chaining value after the ciphertext blocks c. */
  function Chain(iv: Block, c: Blocks): Block
  {
    if |c| == 0 then iv else c[|c| - 1]
  }

  function CbcEncrypt(e: Permutation, iv: Block, p: Blocks): (c: Blocks)
    ensures |c| == |p|
  {
    if |p| == 0 then []
    else
      var n := |p| - 1;
      var c := CbcEncrypt(e, iv, p[..n]);
      c + [e(Xor(p[n], Chain(iv, c)))]
  }

  function CbcDecrypt(d: Permutation, iv: Block, c: Blocks): (p: Blocks)
    ensures |p| == |c|
  {
    if |c| == 0 then []
    else
      var n := |c| - 1;
      CbcDecrypt(d, iv, c[..n]) + [Xor(d(c[n]), Chain(iv, c[..n]))]
  }

  /** d undoes e. */
  ghost predicate Undoes(d: Permutation, e: Permutation)
  {
    forall b :: d(e(b)) == b
  }

  /** Decrypting with the same key and IV restores every message of whole blocks. */
  lemma {:induction false} CbcRoundTrip(e: Permutation, d: Permutation, iv: Block, p: Blocks)
    requires Undoes(d, e)
    ensures CbcDecrypt(d, iv, CbcEncrypt(e, iv, p)) == p
  {
    hide Xor, CbcEncrypt, CbcDecrypt;
    if |p| == 0 {
      EncryptNone(e, iv, p);
      DecryptNone(d, iv, []);
    } else {
      var n := |p| - 1;
      var c := CbcEncrypt(e, iv, p[..n]);
      CbcRoundTrip(e, d, iv, p[..n]);
      XorTwice(p[n], Chain(iv, c));
      EncryptLast(e, iv, p);
      assert CbcEncrypt(e, iv, p)[..n] == c;
      DecryptLast(d, iv, CbcEncrypt(e, iv, p));
      assert p[..n] + [p[n]] == p;
    }
  }

  /** And every message of whole blocks is the encryption of its decryption. */
  lemma {:induction false} CbcInverseRoundTrip(e: Permutation, d: Permutation, iv: Block, c: Blocks)
    requires Undoes(e, d)
    ensures CbcEncrypt(e, iv, CbcDecrypt(d, iv, c)) == c
  {
    hide Xor, CbcEncrypt, CbcDecrypt;
    if |c| == 0 {
      DecryptNone(d, iv, c);
      EncryptNone(e, iv, []);
    } else {
      var n := |c| - 1;
      var p := CbcDecrypt(d, iv, c[..n]);
      CbcInverseRoundTrip(e, d, iv, c[..n]);
      XorTwice(d(c[n]), Chain(iv, c[..n]));
      DecryptLast(d, iv, c);
      assert CbcDecrypt(d, iv, c)[..n] == p;
      EncryptLast(e, iv, CbcDecrypt(d, iv, c));
      assert c[..n] + [c[n]] == c;
    }
  }

  lemma ChainAppend(iv: Block, a: Blocks, b: Blocks)
    ensures Chain(iv, a + b) == Chain(Chain(iv, a), b)
  {
  }

  /** Cutting a message between calls changes nothing, as long as the chaining value is kept. */
  lemma {:induction false} CbcEncryptSplit(e: Permutation, iv: Block, a: Blocks, b: Blocks)
    ensures CbcEncrypt(e, iv, a + b) == CbcEncrypt(e, iv, a) + CbcEncrypt(e, Chain(iv, CbcEncrypt(e, iv, a)), b)
  {
    hide Xor, CbcEncrypt;
    var c := CbcEncrypt(e, iv, a);
    if |b| == 0 {
      assert a + b == a;
      EncryptNone(e, Chain(iv, c), b);
    } else {
      var n := |b| - 1;
      var d := CbcEncrypt(e, Chain(iv, c), b[..n]);
      CbcEncryptSplit(e, iv, a, b[..n]);
      assert (a + b)[..|a| + n] == a + b[..n];
      EncryptLast(e, iv, a + b);
      EncryptLast(e, Chain(iv, c), b);
      ChainAppend(iv, c, d);
    }
  }

  lemma EncryptNone(e: Permutation, iv: Block, p: Blocks)
    requires |p| == 0
    ensures CbcEncrypt(e, iv, p) == []
  {
  }

  lemma EncryptLast(e: Permutation, iv: Block, p: Blocks)
    requires |p| > 0
    ensures var n := |p| - 1;
      var c := CbcEncrypt(e, iv, p[..n]);
      CbcEncrypt(e, iv, p) == c + [e(Xor(p[n], Chain(iv, c)))]
  {
  }

  lemma {:induction false} CbcDecryptSplit(d: Permutation, iv: Block, a: Blocks, b: Blocks)
    ensures CbcDecrypt(d, iv, a + b) == CbcDecrypt(d, iv, a) + CbcDecrypt(d, Chain(iv, a), b)
  {
    hide Xor, CbcDecrypt;
    if |b| == 0 {
      assert a + b == a;
      DecryptNone(d, Chain(iv, a), b);
    } else {
      var n := |b| - 1;
      CbcDecryptSplit(d, iv, a, b[..n]);
      assert (a + b)[..|a| + n] == a + b[..n];
      DecryptLast(d, iv, a + b);
      DecryptLast(d, Chain(iv, a), b);
      ChainAppend(iv, a, b[..n]);
    }
  }

  lemma DecryptNone(d: Permutation, iv: Block, c: Blocks)
    requires |c| == 0
    ensures CbcDecrypt(d, iv, c) == []
  {
  }

  lemma DecryptLast(d: Permutation, iv: Block, c: Blocks)
    requires |c| > 0
    ensures var n := |c| - 1;
      CbcDecrypt(d, iv, c) == CbcDecrypt(d, iv, c[..n]) + [Xor(d(c[n]), Chain(iv, c[..n]))]
  {
  }

  /** The equations of section 6.2: every ciphertext block is the encryption of the sum of its plaintext block
      and the ciphertext block in front of it, or the IV. */
  lemma {:induction false} EncryptsEach(e: Permutation, iv: Block, p: Blocks, j: nat)
    requires j < |p|
    ensures var c := CbcEncrypt(e, iv, p);
      c[j] == e(Xor(p[j], if j == 0 then iv else c[j - 1]))
  {
    hide Xor, CbcEncrypt;
    var n := |p| - 1;
    EncryptLast(e, iv, p);
    if j < n { EncryptsEach(e, iv, p[..n], j); }
  }

  /** And every plaintext block the sum of its decrypted ciphertext block and the one in front of it, or the IV. */
  lemma {:induction false} DecryptsEach(d: Permutation, iv: Block, c: Blocks, j: nat)
    requires j < |c|
    ensures CbcDecrypt(d, iv, c)[j] == Xor(d(c[j]), if j == 0 then iv else c[j - 1])
  {
    hide Xor, CbcDecrypt;
    var n := |c| - 1;
    DecryptLast(d, iv, c);
    if j < n { DecryptsEach(d, iv, c[..n], j); }
  }
}
