/** `struct AES_ctx` and the two CBC functions of aes.c (lines 219-232 and 492-529), in place on a buffer. */
module AesCbc {
  import opened Common
  import opened AesBytes
  import opened AesBlock
  import opened AesKeys
  import opened Cbc

  // ----- a buffer of whole blocks -----

  function BlocksOf(s: seq<Byte>): (r: Blocks)
    requires |s| % BLOCKLEN == 0
    ensures |r| == |s| / BLOCKLEN
  {
    seq(|s| / BLOCKLEN, k requires 0 <= k < |s| / BLOCKLEN => At(s, BLOCKLEN * k))
  }

  lemma BlocksOfAt(s: seq<Byte>, n: nat)
    requires |s| % BLOCKLEN == 0 && n < |s| / BLOCKLEN
    ensures BLOCKLEN * n + BLOCKLEN <= |s| && BlocksOf(s)[n] == At(s, BLOCKLEN * n)
  {
  }

  /** The blocks of a buffer determine it. */
  lemma BlocksOfInjective(s: seq<Byte>, t: seq<Byte>)
    requires |s| == |t| && |s| % BLOCKLEN == 0 && BlocksOf(s) == BlocksOf(t)
    ensures s == t
  {
    forall i | 0 <= i < |s|
      ensures s[i] == t[i]
    {
      var n := i / BLOCKLEN;
      BlocksOfAt(s, n);
      BlocksOfAt(t, n);
      assert s[i] == At(s, BLOCKLEN * n)[i - BLOCKLEN * n];
      assert t[i] == At(t, BLOCKLEN * n)[i - BLOCKLEN * n];
    }
  }

  /** A change confined to one block changes that block only. */
  lemma BlocksOfUpdate(s: seq<Byte>, t: seq<Byte>, n: nat)
    requires |s| % BLOCKLEN == 0 && n < |s| / BLOCKLEN && BLOCKLEN * n + BLOCKLEN <= |s| &&
      SameOutside(t, s, BLOCKLEN * n)
    ensures BlocksOf(t) == BlocksOf(s)[n := At(t, BLOCKLEN * n)]
  {
    forall k | 0 <= k < |s| / BLOCKLEN && k != n
      ensures BlocksOf(t)[k] == BlocksOf(s)[k]
    {
      BlocksOfAt(s, k);
      BlocksOfAt(t, k);
      assert At(t, BLOCKLEN * k) == At(s, BLOCKLEN * k);
    }
    BlocksOfAt(t, n);
  }

  // ----- the cipher under the round keys of a context -----

  function Enc(rk: RoundKeys): Permutation { b => Encrypt(b, rk) }

  function Dec(rk: RoundKeys): Permutation { b => Decrypt(b, rk) }

  lemma CipherUndone(rk: RoundKeys)
    ensures Undoes(Dec(rk), Enc(rk)) && Undoes(Enc(rk), Dec(rk))
  {
    hide Encrypt, Decrypt;
    forall b: Block ensures Dec(rk)(Enc(rk)(b)) == b && Enc(rk)(Dec(rk)(b)) == b {
      DecryptEncrypt(b, rk);
      EncryptDecrypt(b, rk);
    }
  }

  // ----- in place -----

  /** `XorWithIv`, where the chaining value may lie in the same buffer, before the block. */
  method XorWithIv(buf: array<Byte>, at: nat, iv: array<Byte>, ivAt: nat)
    requires at + BLOCKLEN <= buf.Length && ivAt + BLOCKLEN <= iv.Length
    requires buf != iv || ivAt + BLOCKLEN <= at
    modifies buf
    ensures At(buf[..], at) == Xor(At(old(buf[..]), at), At(old(iv[..]), ivAt))
    ensures SameOutside(buf[..], old(buf[..]), at)
  {
    hide Plus;
    ghost var was, v := buf[..], iv[..];
    var i := 0;
    while i < BLOCKLEN
      invariant 0 <= i <= BLOCKLEN && SameOutside(buf[..], was, at)
      invariant forall p :: ivAt <= p < ivAt + BLOCKLEN ==> iv[p] == v[p]
      invariant forall p :: at <= p < at + BLOCKLEN ==> buf[p] == if p < at + i then Plus(was[p], v[ivAt + p - at])
        else was[p]
    {
      buf[at + i] := Plus(buf[at + i], iv[ivAt + i]);
      i := i + 1;
    }
    ghost var result := Xor(At(was, at), At(v, ivAt));
    forall p | at <= p < at + BLOCKLEN
      ensures buf[p] == result[p - at]
    {
      assert At(was, at)[p - at] == was[p] && At(v, ivAt)[p - at] == v[ivAt + p - at];
    }
    AtIs(buf[..], at, result);
  }

  /** `memcpy` of one block; copying the IV onto itself changes nothing. */
  method CopyBlock(dst: array<Byte>, src: array<Byte>, at: nat)
    requires dst.Length == BLOCKLEN && at + BLOCKLEN <= src.Length && (dst == src ==> at == 0)
    modifies dst
    ensures dst[..] == At(old(src[..]), at)
  {
    if dst != src {
      forall i | 0 <= i < BLOCKLEN {
        dst[i] := src[at + i];
      }
    }
  }

  /** The first n blocks are done, the others untouched. */
  ghost predicate Processed(now: seq<Byte>, was: seq<Byte>, n: nat, done: Blocks)
  {
    && |now| == |was| && |now| % BLOCKLEN == 0 && n <= |now| / BLOCKLEN && |done| == n
    && BlocksOf(now) == done + BlocksOf(was)[n..]
  }

  lemma ProcessedStart(was: seq<Byte>)
    requires |was| % BLOCKLEN == 0
    ensures Processed(was, was, 0, [])
  {
    hide BlocksOf;
  }

  lemma ProcessedRead(now: seq<Byte>, was: seq<Byte>, n: nat, done: Blocks)
    requires Processed(now, was, n, done) && n < |now| / BLOCKLEN
    ensures BLOCKLEN * n + BLOCKLEN <= |now|
    ensures At(now, BLOCKLEN * n) == BlocksOf(was)[n]
    ensures n > 0 ==> BLOCKLEN * (n - 1) + BLOCKLEN <= |now| && At(now, BLOCKLEN * (n - 1)) == done[n - 1]
  {
    BlocksOfAt(now, n);
    if n > 0 { BlocksOfAt(now, n - 1); }
    hide BlocksOf, At;
  }

  lemma ProcessedNext(now: seq<Byte>, was: seq<Byte>, n: nat, done: Blocks, next: seq<Byte>, block: Block)
    requires Processed(now, was, n, done) && n < |now| / BLOCKLEN && BLOCKLEN * n + BLOCKLEN <= |now|
    requires SameOutside(next, now, BLOCKLEN * n) && At(next, BLOCKLEN * n) == block
    ensures Processed(next, was, n + 1, done + [block])
  {
    BlocksOfUpdate(now, next, n);
    hide BlocksOf, At;
  }

  lemma ProcessedEnd(now: seq<Byte>, was: seq<Byte>, n: nat, done: Blocks)
    requires Processed(now, was, n, done) && n == |now| / BLOCKLEN
    ensures BlocksOf(now) == done && BlocksOf(was)[..n] == BlocksOf(was)
    ensures n > 0 ==> BLOCKLEN * (n - 1) + BLOCKLEN <= |now| && At(now, BLOCKLEN * (n - 1)) == done[n - 1]
  {
    if n > 0 { BlocksOfAt(now, n - 1); }
    hide BlocksOf, At;
  }

  lemma EncryptNext(e: Permutation, iv: Block, p: Blocks, n: nat, done: Blocks, block: Block)
    requires n < |p| && done == CbcEncrypt(e, iv, p[..n]) && block == e(Xor(p[n], Chain(iv, done)))
    ensures done + [block] == CbcEncrypt(e, iv, p[..n + 1]) && Chain(iv, done + [block]) == block
  {
    hide Xor;
    assert p[..n + 1][..n] == p[..n];
  }

  lemma DecryptNext(d: Permutation, iv: Block, c: Blocks, n: nat, done: Blocks, block: Block)
    requires n < |c| && done == CbcDecrypt(d, iv, c[..n]) && block == Xor(d(c[n]), Chain(iv, c[..n]))
    ensures done + [block] == CbcDecrypt(d, iv, c[..n + 1]) && Chain(iv, c[..n + 1]) == c[n]
  {
    hide Xor;
    assert c[..n + 1][..n] == c[..n];
  }

  class AesCtx {
    const roundKey: array<Byte>
    const iv: array<Byte>

    ghost predicate Valid()
      reads this
    {
      roundKey.Length == KEYLEN && iv.Length == BLOCKLEN && roundKey != iv
    }

    /** `AES_init_ctx_iv` */
    constructor (key: seq<Byte>, iv0: Block)
      requires |key| == 4 * NK
      ensures Valid() && fresh(roundKey) && fresh(iv)
      ensures roundKey[..] == Schedule(key, 4 * (NR + 1)) && iv[..] == iv0
    {
      roundKey := new Byte[KEYLEN](_ => 0);
      iv := new Byte[BLOCKLEN](i requires 0 <= i < BLOCKLEN => iv0[i]);
      new;
      KeyExpansion(roundKey, key);
      assert iv[..] == iv0;
    }

    /** One turn of the loop of `AES_CBC_encrypt_buffer`; `prev` points to the chaining value. */
    method EncryptOne(buf: array<Byte>, at: nat, prev: array<Byte>, prevAt: nat)
      requires Valid() && buf != roundKey && at + BLOCKLEN <= buf.Length && prevAt + BLOCKLEN <= prev.Length
      requires buf != prev || prevAt + BLOCKLEN <= at
      modifies buf
      ensures At(buf[..], at) == Enc(roundKey[..])(Xor(At(old(buf[..]), at), At(old(prev[..]), prevAt)))
      ensures SameOutside(buf[..], old(buf[..]), at)
    {
      hide Encrypt, Xor, At;
      XorWithIv(buf, at, prev, prevAt);
      Cipher(buf, at, roundKey[..]);
    }

    /** `AES_CBC_encrypt_buffer`: the chaining value is the IV of the context, then the block
        just written in the buffer; the last one is stored for the next call. */
    method EncryptBuffer(buf: array<Byte>)
      requires Valid() && buf != roundKey && buf != iv && buf.Length % BLOCKLEN == 0
      modifies buf, iv
      ensures roundKey[..] == old(roundKey[..])
      ensures BlocksOf(buf[..]) == CbcEncrypt(Enc(roundKey[..]), old(iv[..]), BlocksOf(old(buf[..])))
      ensures iv[..] == Chain(old(iv[..]), BlocksOf(buf[..]))
    {
      hide Enc, Xor, Processed, BlocksOf, CbcEncrypt, At, SameOutside;
      ghost var was, iv0, rk := buf[..], iv[..], roundKey[..];
      ghost var p, n, done: Blocks := BlocksOf(was), 0, [];
      var i: nat := 0;
      var prev: array<Byte>, prevAt: nat := iv, 0;
      ProcessedStart(was);
      WholeIv(iv0);
      NothingEncrypted(Enc(rk), iv0, p);
      while i < buf.Length
        invariant i == BLOCKLEN * n && n <= buf.Length / BLOCKLEN && |done| == n
        invariant roundKey[..] == rk && iv[..] == iv0
        invariant done == CbcEncrypt(Enc(rk), iv0, p[..n]) && Processed(buf[..], was, n, done)
        invariant if n == 0 then prev == iv && prevAt == 0 else prev == buf && prevAt == BLOCKLEN * (n - 1)
      {
        ghost var now := buf[..];
        ProcessedRead(now, was, n, done);
        EncryptOne(buf, i, prev, prevAt);
        ghost var block := At(buf[..], i);
        ProcessedNext(now, was, n, done, buf[..], block);
        EncryptNext(Enc(rk), iv0, p, n, done, block);
        prev, prevAt := buf, i;
        done, n := done + [block], n + 1;
        i := i + BLOCKLEN;
      }
      ProcessedEnd(buf[..], was, n, done);
      CopyBlock(iv, prev, prevAt);
    }

    /** `AES_CBC_decrypt_buffer` */
    method DecryptBuffer(buf: array<Byte>)
      requires Valid() && buf != roundKey && buf != iv && buf.Length % BLOCKLEN == 0
      modifies buf, iv
      ensures roundKey[..] == old(roundKey[..])
      ensures BlocksOf(buf[..]) == CbcDecrypt(Dec(roundKey[..]), old(iv[..]), BlocksOf(old(buf[..])))
      ensures iv[..] == Chain(old(iv[..]), BlocksOf(old(buf[..])))
    {
      hide Decrypt, Xor, Processed, BlocksOf, CbcDecrypt, At, SameOutside;
      ghost var was, iv0, rk := buf[..], iv[..], roundKey[..];
      ghost var c, n, done: Blocks := BlocksOf(was), 0, [];
      var storeNextIv := new Byte[BLOCKLEN](_ => 0);
      var i: nat := 0;
      ProcessedStart(was);
      NothingDecrypted(Dec(rk), iv0, c);
      while i < buf.Length
        invariant i == BLOCKLEN * n && n <= buf.Length / BLOCKLEN && |done| == n
        invariant roundKey[..] == rk && iv[..] == Chain(iv0, c[..n])
        invariant done == CbcDecrypt(Dec(rk), iv0, c[..n]) && Processed(buf[..], was, n, done)
      {
        ghost var now := buf[..];
        ProcessedRead(now, was, n, done);
        CopyBlock(storeNextIv, buf, i);
        DecryptOne(buf, i);
        ghost var block := At(buf[..], i);
        ProcessedNext(now, was, n, done, buf[..], block);
        DecryptNext(Dec(rk), iv0, c, n, done, block);
        WholeIv(storeNextIv[..]);
        CopyBlock(iv, storeNextIv, 0);
        done, n := done + [block], n + 1;
        i := i + BLOCKLEN;
      }
      ProcessedEnd(buf[..], was, n, done);
    }

    /** The deciphering and chaining of one turn of `AES_CBC_decrypt_buffer`. */
    method DecryptOne(buf: array<Byte>, at: nat)
      requires Valid() && buf != roundKey && buf != iv && at + BLOCKLEN <= buf.Length
      modifies buf
      ensures At(buf[..], at) == Xor(Dec(roundKey[..])(At(old(buf[..]), at)), iv[..])
      ensures SameOutside(buf[..], old(buf[..]), at)
    {
      hide Decrypt, Xor, At;
      WholeIv(iv[..]);
      InvCipher(buf, at, roundKey[..]);
      XorWithIv(buf, at, iv, 0);
    }
  }

  lemma WholeIv(iv: Block)
    ensures At(iv, 0) == iv
  {
  }

  lemma NothingEncrypted(e: Permutation, iv: Block, p: Blocks)
    ensures CbcEncrypt(e, iv, p[..0]) == []
  {
  }

  lemma NothingDecrypted(d: Permutation, iv: Block, c: Blocks)
    ensures CbcDecrypt(d, iv, c[..0]) == []
  {
  }

  /** Two contexts with the same key and IV: what one encrypts, the other restores. */
  method EncryptThenDecrypt(key: seq<Byte>, iv: Block, buf: array<Byte>)
    requires |key| == 4 * NK && buf.Length % BLOCKLEN == 0
    modifies buf
    ensures buf[..] == old(buf[..])
  {
    hide CbcEncrypt, CbcDecrypt, Chain, BlocksOf, Enc, Dec, Schedule;
    ghost var was := buf[..];
    var sender := new AesCtx(key, iv);
    var receiver := new AesCtx(key, iv);
    sender.EncryptBuffer(buf);
    receiver.DecryptBuffer(buf);
    ghost var rk := Schedule(key, 4 * (NR + 1));
    CipherUndone(rk);
    CbcRoundTrip(Enc(rk), Dec(rk), iv, BlocksOf(was));
    BlocksOfInjective(buf[..], was);
  }

  /** The blocks of several buffers, one behind the other. */
  function AllBlocks(pieces: seq<seq<Byte>>): Blocks
    requires forall i :: 0 <= i < |pieces| ==> |pieces[i]| % BLOCKLEN == 0
  {
    if pieces == [] then [] else AllBlocks(pieces[..|pieces| - 1]) + BlocksOf(pieces[|pieces| - 1])
  }

  ghost function Contents(bufs: seq<array<Byte>>): (pieces: seq<seq<Byte>>)
    reads bufs
    ensures |pieces| == |bufs| && forall i :: 0 <= i < |bufs| ==> pieces[i] == bufs[i][..]
  {
    seq(|bufs|, i requires 0 <= i < |bufs| reads bufs => bufs[i][..])
  }

  /** Separate buffers of whole blocks that a context may be applied to. */
  ghost predicate Pieces(ctx: AesCtx, bufs: seq<array<Byte>>)
  {
    && (forall i :: 0 <= i < |bufs| ==> bufs[i].Length % BLOCKLEN == 0 && bufs[i] != ctx.roundKey && bufs[i] != ctx.iv)
    && (forall i, j :: 0 <= i < j < |bufs| ==> bufs[i] != bufs[j])
  }

  lemma AllBlocksPush(pieces: seq<seq<Byte>>, i: nat)
    requires i < |pieces| && forall k :: 0 <= k < |pieces| ==> |pieces[k]| % BLOCKLEN == 0
    ensures AllBlocks(pieces[..i + 1]) == AllBlocks(pieces[..i]) + BlocksOf(pieces[i])
  {
    assert pieces[..i + 1][..i] == pieces[..i];
  }

  /** What has been encrypted so far: the first i pieces, as one message. */
  ghost predicate EncryptedUpTo(e: Permutation, iv: Block, was: seq<seq<Byte>>, now: seq<seq<Byte>>, i: nat,
    chain: seq<Byte>)
    requires i <= |was| == |now|
    requires forall k :: 0 <= k < |was| ==> |was[k]| % BLOCKLEN == 0 && |now[k]| % BLOCKLEN == 0
  {
    && AllBlocks(now[..i]) == CbcEncrypt(e, iv, AllBlocks(was[..i]))
    && chain == Chain(iv, AllBlocks(now[..i]))
    && forall k :: i <= k < |was| ==> now[k] == was[k]
  }

  lemma EncryptedNext(e: Permutation, iv: Block, was: seq<seq<Byte>>, now: seq<seq<Byte>>, i: nat, chain: Block,
      next: seq<seq<Byte>>, chain': seq<Byte>)
    requires i < |was| == |now| == |next|
    requires forall k :: 0 <= k < |was| ==>
      |was[k]| % BLOCKLEN == 0 && |now[k]| % BLOCKLEN == 0 && |next[k]| % BLOCKLEN == 0
    requires EncryptedUpTo(e, iv, was, now, i, chain)
    requires forall k :: 0 <= k < |now| && k != i ==> next[k] == now[k]
    requires BlocksOf(next[i]) == CbcEncrypt(e, chain, BlocksOf(now[i])) && chain' == Chain(chain, BlocksOf(next[i]))
    ensures EncryptedUpTo(e, iv, was, next, i + 1, chain')
  {
    hide CbcEncrypt, Chain, BlocksOf, AllBlocks;
    assert next[..i] == now[..i];
    AllBlocksPush(was, i);
    AllBlocksPush(next, i);
    CbcEncryptSplit(e, iv, AllBlocks(was[..i]), BlocksOf(was[i]));
    ChainAppend(iv, AllBlocks(now[..i]), BlocksOf(next[i]));
  }

  lemma EncryptedStart(e: Permutation, iv: Block, was: seq<seq<Byte>>)
    requires forall k :: 0 <= k < |was| ==> |was[k]| % BLOCKLEN == 0
    ensures EncryptedUpTo(e, iv, was, was, 0, iv)
  {
  }

  /** A message handed over in any number of calls is encrypted as in one. */
  method EncryptPieces(ctx: AesCtx, bufs: seq<array<Byte>>)
    requires ctx.Valid() && Pieces(ctx, bufs)
    modifies bufs, ctx.iv
    ensures AllBlocks(Contents(bufs)) ==
      CbcEncrypt(Enc(ctx.roundKey[..]), old(ctx.iv[..]), AllBlocks(old(Contents(bufs))))
    ensures ctx.iv[..] == Chain(old(ctx.iv[..]), AllBlocks(Contents(bufs)))
  {
    hide CbcEncrypt, Chain, BlocksOf, AllBlocks, Enc, EncryptedUpTo;
    ghost var e, iv0, was := Enc(ctx.roundKey[..]), ctx.iv[..], Contents(bufs);
    EncryptedStart(e, iv0, was);
    for i := 0 to |bufs|
      invariant ctx.roundKey[..] == old(ctx.roundKey[..])
      invariant EncryptedUpTo(e, iv0, was, Contents(bufs), i, ctx.iv[..])
    {
      ghost var now, chain := Contents(bufs), ctx.iv[..];
      ctx.EncryptBuffer(bufs[i]);
      EncryptedNext(e, iv0, was, now, i, chain, Contents(bufs), ctx.iv[..]);
    }
    EncryptedEnd(e, iv0, was, Contents(bufs), ctx.iv[..]);
  }

  lemma EncryptedEnd(e: Permutation, iv: Block, was: seq<seq<Byte>>, now: seq<seq<Byte>>, chain: seq<Byte>)
    requires |was| == |now|
    requires forall k :: 0 <= k < |was| ==> |was[k]| % BLOCKLEN == 0 && |now[k]| % BLOCKLEN == 0
    requires EncryptedUpTo(e, iv, was, now, |was|, chain)
    ensures AllBlocks(now) == CbcEncrypt(e, iv, AllBlocks(was)) && chain == Chain(iv, AllBlocks(now))
  {
    assert now[..|was|] == now && was[..|was|] == was;
  }

  /** What has been decrypted so far: the first i pieces, as one message. */
  ghost predicate DecryptedUpTo(d: Permutation, iv: Block, was: seq<seq<Byte>>, now: seq<seq<Byte>>, i: nat,
    chain: seq<Byte>)
    requires i <= |was| == |now|
    requires forall k :: 0 <= k < |was| ==> |was[k]| % BLOCKLEN == 0 && |now[k]| % BLOCKLEN == 0
  {
    && AllBlocks(now[..i]) == CbcDecrypt(d, iv, AllBlocks(was[..i]))
    && chain == Chain(iv, AllBlocks(was[..i]))
    && forall k :: i <= k < |was| ==> now[k] == was[k]
  }

  lemma DecryptedNext(d: Permutation, iv: Block, was: seq<seq<Byte>>, now: seq<seq<Byte>>, i: nat, chain: Block,
      next: seq<seq<Byte>>, chain': seq<Byte>)
    requires i < |was| == |now| == |next|
    requires forall k :: 0 <= k < |was| ==>
      |was[k]| % BLOCKLEN == 0 && |now[k]| % BLOCKLEN == 0 && |next[k]| % BLOCKLEN == 0
    requires DecryptedUpTo(d, iv, was, now, i, chain)
    requires forall k :: 0 <= k < |now| && k != i ==> next[k] == now[k]
    requires BlocksOf(next[i]) == CbcDecrypt(d, chain, BlocksOf(now[i])) && chain' == Chain(chain, BlocksOf(now[i]))
    ensures DecryptedUpTo(d, iv, was, next, i + 1, chain')
  {
    hide CbcDecrypt, Chain, BlocksOf, AllBlocks;
    assert next[..i] == now[..i];
    AllBlocksPush(was, i);
    AllBlocksPush(next, i);
    CbcDecryptSplit(d, iv, AllBlocks(was[..i]), BlocksOf(was[i]));
    ChainAppend(iv, AllBlocks(was[..i]), BlocksOf(was[i]));
  }

  lemma DecryptedStart(d: Permutation, iv: Block, was: seq<seq<Byte>>)
    requires forall k :: 0 <= k < |was| ==> |was[k]| % BLOCKLEN == 0
    ensures DecryptedUpTo(d, iv, was, was, 0, iv)
  {
  }

  /** A message handed over in any number of calls is decrypted as in one. */
  method DecryptPieces(ctx: AesCtx, bufs: seq<array<Byte>>)
    requires ctx.Valid() && Pieces(ctx, bufs)
    modifies bufs, ctx.iv
    ensures AllBlocks(Contents(bufs)) ==
      CbcDecrypt(Dec(ctx.roundKey[..]), old(ctx.iv[..]), AllBlocks(old(Contents(bufs))))
    ensures ctx.iv[..] == Chain(old(ctx.iv[..]), AllBlocks(old(Contents(bufs))))
  {
    hide CbcDecrypt, Chain, BlocksOf, AllBlocks, Dec, DecryptedUpTo;
    ghost var d, iv0, was := Dec(ctx.roundKey[..]), ctx.iv[..], Contents(bufs);
    DecryptedStart(d, iv0, was);
    for i := 0 to |bufs|
      invariant ctx.roundKey[..] == old(ctx.roundKey[..])
      invariant DecryptedUpTo(d, iv0, was, Contents(bufs), i, ctx.iv[..])
    {
      ghost var now, chain := Contents(bufs), ctx.iv[..];
      ctx.DecryptBuffer(bufs[i]);
      DecryptedNext(d, iv0, was, now, i, chain, Contents(bufs), ctx.iv[..]);
    }
    DecryptedEnd(d, iv0, was, Contents(bufs), ctx.iv[..]);
  }

  lemma DecryptedEnd(d: Permutation, iv: Block, was: seq<seq<Byte>>, now: seq<seq<Byte>>, chain: seq<Byte>)
    requires |was| == |now|
    requires forall k :: 0 <= k < |was| ==> |was[k]| % BLOCKLEN == 0 && |now[k]| % BLOCKLEN == 0
    requires DecryptedUpTo(d, iv, was, now, |was|, chain)
    ensures AllBlocks(now) == CbcDecrypt(d, iv, AllBlocks(was)) && chain == Chain(iv, AllBlocks(was))
  {
    assert now[..|was|] == now && was[..|was|] == was;
  }
}
