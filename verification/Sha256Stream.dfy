/** The streaming interface of sha256.c:171-242: a context fed in arbitrary pieces holds the
    compression of all full blocks plus the unprocessed tail, and finishing it yields the
    digest that FIPS 180-4 defines on the whole message. */
module Sha256Stream {
  import opened Common
  import opened Sha256

  const BLOCK: nat := 64

  /** `ctx->bytes` and the bit count have 64 bits. */
  const SIZE: nat := 0x1_0000_0000_0000_0000

  /** The largest value marks a finished context. */
  const INVALID: nat := SIZE - 1

  /** SHA256_INIT, section 5.3.3. */
  const INIT: Regs := Regs(0x6a09e667, 0xbb67ae85, 0x3c6ef372, 0xa54ff53a, 0x510e527f, 0x9b05688c, 0x1f83d9ab,
    0x5be0cd19)

  /** `be32_to_cpu` of four bytes in memory. */
  function Be32(a: Byte, b: Byte, c: Byte, d: Byte): Word
  {
    ((a as Word) << 24) | ((b as Word) << 16) | ((c as Word) << 8) | (d as Word)
  }

  /** The four bytes `cpu_to_be32` leaves in memory. */
  function Be32Bytes(w: Word): (r: seq<Byte>)
    ensures |r| == 4
  {
    [(w >> 24) as Byte, ((w >> 16) & 0xff) as Byte, ((w >> 8) & 0xff) as Byte, (w & 0xff) as Byte]
  }

  function WordAt(bytes: seq<Byte>, i: nat): Word
    requires 4 * i + 4 <= |bytes|
  {
    Be32(bytes[4 * i], bytes[4 * i + 1], bytes[4 * i + 2], bytes[4 * i + 3])
  }

  function BlockWords(bytes: seq<Byte>): (r: seq<Word>)
    requires |bytes| == BLOCK
    ensures |r| == 16
  {
    seq(16, i requires 0 <= i < 16 => WordAt(bytes, i))
  }

  // ----- the standard -----

  /** The hash value after all the blocks of `data`. */
  function HashBlocks(data: seq<Byte>): Regs
    requires |data| % BLOCK == 0
  {
    if |data| == 0 then INIT
    else
      var n := |data| - BLOCK;
      Compress(HashBlocks(data[..n]), BlockWords(data[n..]))
  }

  lemma HashSnoc(data: seq<Byte>, block: seq<Byte>)
    requires |data| % BLOCK == 0 && |block| == BLOCK
    ensures HashBlocks(data + block) == Compress(HashBlocks(data), BlockWords(block))
  {
    hide Compress, BlockWords;
    assert (data + block)[..|data|] == data && (data + block)[|data|..] == block;
  }

  /** Section 5.1.1: zeros fill up to eight bytes short of a block, with the fewest zeros. */
  ghost predicate PadZeros(length: nat, zeros: nat)
  {
    && (length + 1 + zeros) % BLOCK == BLOCK - 8
    && forall z: nat {:trigger (length + 1 + z) % BLOCK} :: z < zeros ==> (length + 1 + z) % BLOCK != BLOCK - 8
  }

  function Zeros(n: nat): (r: seq<Byte>)
    ensures |r| == n
  {
    seq(n, _ => 0)
  }

  function Digit(n: nat): Byte
  {
    (n % 256) as Byte
  }

  function Rest(n: nat): nat
  {
    n / 256
  }

  /** The last k digits of n to the base 256, most significant first. */
  function Be(n: nat, k: nat): (r: seq<Byte>)
    ensures |r| == k
    decreases k
  {
    if k == 0 then [] else Be(Rest(n), k - 1) + [Digit(n)]
  }

  /** `cpu_to_be64` of the low 64 bits of n, as bytes in memory. */
  function Be64(n: nat): (r: seq<Byte>)
    ensures |r| == 8
  {
    Be(n, 8)
  }

  function FromBe(bytes: seq<Byte>): nat
  {
    if |bytes| == 0 then 0 else 256 * FromBe(bytes[..|bytes| - 1]) + bytes[|bytes| - 1] as nat
  }

  function Pow256(k: nat): (p: nat)
    ensures p > 0
  {
    if k == 0 then 1 else 256 * Pow256(k - 1)
  }

  lemma Unfold(n: nat, k: nat)
    requires k > 0
    ensures Be(n, k) == Be(Rest(n), k - 1) + [Digit(n)] && Pow256(k) == 256 * Pow256(k - 1)
  {
  }

  lemma Nothing(n: nat)
    ensures Be(n, 0) == [] && FromBe([]) == 0 && Pow256(0) == 1
  {
  }

  lemma ShiftDigit(n: nat, x: nat)
    ensures Rest(n + 256 * x) == Rest(n) + x && Digit(n + 256 * x) == Digit(n)
  {
  }

  lemma {:induction false} BeShifts(n: nat, k: nat, q: nat)
    ensures Be(n + q * Pow256(k), k) == Be(n, k)
    decreases k
  {
    hide Be, Pow256, Rest, Digit;
    if k == 0 {
      Nothing(n);
      Nothing(n + q * Pow256(k));
    } else {
      var p := Pow256(k - 1);
      BeShifts(Rest(n), k - 1, q);
      Unfold(n, k);
      Unfold(n + q * Pow256(k), k);
      assert q * (256 * p) == 256 * (q * p);
      ShiftDigit(n, q * p);
    }
  }

  lemma SizeIsPower()
    ensures Pow256(8) == SIZE
  {
  }

  /** Only the low 64 bits are written. */
  lemma Be64Wraps(n: nat)
    ensures Be64(n) == Be64(n % SIZE)
  {
    hide Be, Pow256;
    SizeIsPower();
    BeShifts(n % SIZE, 8, n / SIZE);
  }

  lemma FromBeSnoc(bytes: seq<Byte>, x: Byte)
    ensures FromBe(bytes + [x]) == 256 * FromBe(bytes) + x as nat
  {
    assert (bytes + [x])[..|bytes|] == bytes;
  }

  lemma NextByte(b: Byte)
    requires b as nat < 255
    ensures (b + 1) as nat == b as nat + 1
  {
  }

  lemma {:induction false} ByteBack(x: nat)
    requires x < 256
    ensures (x as Byte) as nat == x
  {
    if x > 0 {
      ByteBack(x - 1);
      NextByte((x - 1) as Byte);
    }
  }

  lemma LastDigit(n: nat)
    ensures n == 256 * Rest(n) + Digit(n) as nat && Digit(n) as nat < 256
  {
    var x := n % 256;
    ByteBack(x);
    assert Digit(n) as nat == x;
  }

  lemma OneMoreDigit(n: nat, f: nat, p: nat)
    requires f == Rest(n) <==> Rest(n) < p
    requires f < p
    ensures 256 * f + Digit(n) as nat == n <==> n < 256 * p
    ensures 256 * f + Digit(n) as nat < 256 * p
  {
    hide Rest, Digit;
    LastDigit(n);
  }

  /** The digits are those of n exactly if n has at most k of them. */
  lemma {:induction false} BeExactly(n: nat, k: nat)
    ensures FromBe(Be(n, k)) == n <==> n < Pow256(k)
    ensures FromBe(Be(n, k)) < Pow256(k)
    decreases k
  {
    hide FromBe, Be, Pow256, Rest, Digit;
    if k == 0 {
      Nothing(n);
    } else {
      BeExactly(Rest(n), k - 1);
      Unfold(n, k);
      FromBeSnoc(Be(Rest(n), k - 1), Digit(n));
      OneMoreDigit(n, FromBe(Be(Rest(n), k - 1)), Pow256(k - 1));
    }
  }

  /** The zeros the code adds after the 0x80 byte. */
  function CodeZeros(length: nat): nat
  {
    (128 - 8 - length % BLOCK - 1) % BLOCK
  }

  lemma CodeZerosAreFewest(length: nat)
    ensures PadZeros(length, CodeZeros(length))
  {
  }

  lemma PadZerosUnique(length: nat, a: nat, b: nat)
    requires PadZeros(length, a) && PadZeros(length, b)
    ensures a == b
  {
  }

  lemma PaddedLength(length: nat, zeros: nat)
    requires PadZeros(length, zeros)
    ensures (length + 1 + zeros + 8) % BLOCK == 0
  {
  }

  /** Section 5.1.1.  The standard stops at 2^64 bits; beyond that the length field holds the low 64 bits
      of the bit count. */
  ghost function Padded(msg: seq<Byte>): (r: seq<Byte>)
    ensures |r| % BLOCK == 0
  {
    CodeZerosAreFewest(|msg|);
    var z: nat :| PadZeros(|msg|, z);
    PaddedLength(|msg|, z);
    msg + [0x80] + Zeros(z) + Be64(8 * |msg|)
  }

  ghost function Digest(msg: seq<Byte>): seq<Byte>
  {
    Output(HashBlocks(Padded(msg)))
  }

  function Output(r: Regs): seq<Byte>
  {
    Be32Bytes(r.a) + Be32Bytes(r.b) + Be32Bytes(r.c) + Be32Bytes(r.d) +
    Be32Bytes(r.e) + Be32Bytes(r.f) + Be32Bytes(r.g) + Be32Bytes(r.h)
  }

  // ----- the code -----

  /** The length of the part of a message that fills whole blocks. */
  function Full(n: nat): (r: nat)
    ensures r <= n && r % BLOCK == 0 && n - r == n % BLOCK
  {
    n - n % BLOCK
  }

  /** The length field is the length in bits exactly if the message has fewer than 2^61 bytes. */
  lemma LengthFieldExactly(msg: seq<Byte>)
    ensures FromBe(Be64(8 * |msg|)) == 8 * |msg| <==> |msg| < SIZE / 8
  {
    SizeIsPower();
    BeExactly(8 * |msg|, 8);
  }

  /** What s and the head of buf hold after `msg` has been added. */
  ghost predicate Absorbed(s: seq<Word>, buf: seq<Byte>, msg: seq<Byte>)
  {
    && |s| == 8 && |buf| == BLOCK
    && AsRegs(s) == HashBlocks(msg[..Full(|msg|)])
    && buf[..|msg| % BLOCK] == msg[Full(|msg|)..]
  }

  /** A full buffer, or a full block taken from the source, is one more block of the message. */
  lemma AbsorbBlock(s: seq<Word>, buf: seq<Byte>, msg: seq<Byte>, more: seq<Byte>, block: seq<Byte>, s': seq<Word>,
    buf': seq<Byte>)
    requires Absorbed(s, buf, msg) && |msg| % BLOCK + |more| == BLOCK
    requires block == buf[..|msg| % BLOCK] + more
    requires |s'| == 8 && AsRegs(s') == Compress(AsRegs(s), BlockWords(block)) && |buf'| == BLOCK
    ensures Absorbed(s', buf', msg + more)
  {
    hide Compress, BlockWords, HashBlocks, AsRegs;
    var full := Full(|msg|);
    HashSnoc(msg[..full], block);
    assert msg + more == msg[..full] + block by {
      assert msg == msg[..full] + msg[full..];
    }
    assert |msg + more| % BLOCK == 0 && Full(|msg + more|) == |msg + more|;
    assert (msg + more)[..|msg + more|] == msg[..full] + block;
  }

  lemma AbsorbedShape(s: seq<Word>, buf: seq<Byte>, msg: seq<Byte>)
    requires Absorbed(s, buf, msg)
    ensures |s| == 8 && |buf| == BLOCK
  {
  }

  lemma AbsorbTail(s: seq<Word>, buf: seq<Byte>, msg: seq<Byte>, more: seq<Byte>, buf': seq<Byte>)
    requires Absorbed(s, buf, msg) && |msg| % BLOCK + |more| < BLOCK
    requires |buf'| == BLOCK && buf'[..|msg| % BLOCK + |more|] == buf[..|msg| % BLOCK] + more
    ensures Absorbed(s, buf', msg + more)
  {
    hide HashBlocks, AsRegs;
    var all := msg + more;
    assert Full(|all|) == Full(|msg|) && |all| % BLOCK == |msg| % BLOCK + |more|;
    assert all[..Full(|all|)] == msg[..Full(|msg|)];
    assert all[Full(|all|)..] == msg[Full(|msg|)..] + more;
  }

  ghost predicate Counted(bytes: nat, msg: seq<Byte>)
  {
    bytes == |msg| % SIZE
  }

  lemma CountOn(bytes: nat, msg: seq<Byte>, more: seq<Byte>)
    requires Counted(bytes, msg)
    ensures Counted((bytes + |more|) % SIZE, msg + more)
    ensures (bytes + |more|) % SIZE % BLOCK == (bytes + |more|) % BLOCK
  {
  }

  lemma CountInBlock(bytes: nat, msg: seq<Byte>)
    requires Counted(bytes, msg)
    ensures bytes % BLOCK == |msg| % BLOCK
  {
  }

  class Sha256Ctx {
    const s: array<Word>
    const buf: array<Byte>
    var bytes: nat
    ghost var msg: seq<Byte>

    /** The context is usable and has absorbed `msg`. */
    ghost predicate Valid()
      reads this, s, buf
    {
      && Counted(bytes, msg)
      && s.Length == 8 && buf.Length == BLOCK
      && Absorbed(s[..], buf[..], msg)
    }

    /** `sha256_init` */
    constructor ()
      ensures Valid() && msg == [] && fresh(s) && fresh(buf)
    {
      s := new Word[8][0x6a09e667, 0xbb67ae85, 0x3c6ef372, 0xa54ff53a, 0x510e527f, 0x9b05688c, 0x1f83d9ab, 0x5be0cd19];
      buf := new Byte[64](_ => 0);
      bytes := 0;
      msg := [];
    }

    /** `Transform` on a block of bytes. */
    method TransformBytes(block: seq<Byte>)
      requires s.Length == 8 && |block| == BLOCK
      modifies s
      ensures AsRegs(s[..]) == Compress(AsRegs(old(s[..])), BlockWords(block))
    {
      Transform(s, BlockWords(block));
    }

    /** `memcpy(ctx->buf.u8 + at, data, ..)` */
    method Fill(at: nat, data: seq<Byte>)
      requires buf.Length == BLOCK && at + |data| <= BLOCK
      modifies buf
      ensures buf[..at + |data|] == old(buf[..at]) + data
    {
      forall i | 0 <= i < |data| {
        buf[at + i] := data[i];
      }
    }

    /** The first branch of `add`: fill the buffer and process it. */
    method FillAndProcess(more: seq<Byte>)
      requires Valid() && bytes % BLOCK + |more| == BLOCK
      modifies this, s, buf
      ensures Valid() && msg == old(msg) + more && bytes % BLOCK == 0
    {
      hide HashBlocks, Compress, BlockWords, AsRegs, Absorbed, Counted;
      ghost var s0, buf0 := s[..], buf[..];
      AbsorbedShape(s0, buf0, msg);
      CountInBlock(bytes, msg);
      Fill(bytes % BLOCK, more);
      assert buf[..] == buf[..BLOCK];
      CountOn(bytes, msg, more);
      bytes := (bytes + |more|) % SIZE;
      TransformBytes(buf[..]);
      AbsorbBlock(s0, buf0, msg, more, buf[..], s[..], buf[..]);
      msg := msg + more;
    }

    /** The loop of `add`: a full block is used in place when its address is aligned, and
        through the buffer otherwise. */
    method ProcessBlock(block: seq<Byte>, aligned: bool)
      requires Valid() && bytes % BLOCK == 0 && |block| == BLOCK
      modifies this, s, buf
      ensures Valid() && msg == old(msg) + block && bytes % BLOCK == 0
    {
      hide HashBlocks, Compress, BlockWords, AsRegs, Absorbed, Counted;
      ghost var s0, buf0 := s[..], buf[..];
      AbsorbedShape(s0, buf0, msg);
      CountInBlock(bytes, msg);
      if aligned {
        TransformBytes(block);
      } else {
        Fill(0, block);
        assert buf[..] == buf[..BLOCK];
        TransformBytes(buf[..]);
      }
      assert buf0[..0] + block == block;
      AbsorbBlock(s0, buf0, msg, block, block, s[..], buf[..]);
      CountOn(bytes, msg, block);
      bytes := (bytes + BLOCK) % SIZE;
      msg := msg + block;
    }

    /** The end of `add`: the rest is kept for later. */
    method KeepTail(more: seq<Byte>)
      requires Valid() && bytes % BLOCK + |more| < BLOCK
      modifies this, buf
      ensures Valid() && msg == old(msg) + more
    {
      hide HashBlocks, Compress, BlockWords, AsRegs, Absorbed, Counted;
      ghost var buf0 := buf[..];
      AbsorbedShape(s[..], buf0, msg);
      CountInBlock(bytes, msg);
      Fill(bytes % BLOCK, more);
      AbsorbTail(s[..], buf0, msg, more, buf[..]);
      CountOn(bytes, msg, more);
      bytes := (bytes + |more|) % SIZE;
      msg := msg + more;
    }

    /** `add`.  The alignment of the data is given as a predicate on offsets. */
    method Add(data: seq<Byte>, aligned: nat -> bool)
      requires Valid()
      modifies this, s, buf
      ensures Valid() && msg == old(msg) + data
    {
      hide Absorbed, Counted;
      ghost var start := msg;
      var bufsize, off := bytes % BLOCK, 0;
      assert start + data[..0] == start;
      if bufsize + |data| >= BLOCK {
        off := BLOCK - bufsize;
        FillAndProcess(data[..off]);
        bufsize := 0;
      }
      while |data| - off >= BLOCK
        invariant off <= |data| && msg == start + data[..off] && Valid()
        invariant bytes % BLOCK == bufsize && (bufsize == 0 || |data| - off + bufsize < BLOCK)
      {
        ProcessBlock(data[off..off + BLOCK], aligned(off));
        assert data[..off] + data[off..off + BLOCK] == data[..off + BLOCK];
        off := off + BLOCK;
      }
      if |data| - off > 0 {
        KeepTail(data[off..]);
      }
      assert data[..off] + data[off..] == data;
    }

    /** `sha256_update` */
    method Update(data: seq<Byte>, aligned: nat -> bool)
      requires Valid() && bytes != INVALID
      modifies this, s, buf
      ensures Valid() && msg == old(msg) + data
    {
      Add(data, aligned);
    }

    /** `sha256_done`: the context is unusable afterwards. */
    method Done(aligned: nat -> bool) returns (res: seq<Byte>)
      requires Valid()
      modifies this, s, buf
      ensures res == Digest(old(msg))
      ensures bytes == INVALID && !Valid()
    {
      hide HashBlocks, AsRegs, Padded, Be64, Be32Bytes, PadZeros;
      ghost var m, counted := msg, bytes;
      var pad := [0x80] + Zeros(63);
      var sizedesc := Be64(bytes * 8 % SIZE);
      var zeros := CodeZeros(bytes);
      Add(pad[..1 + zeros], aligned);
      Add(sizedesc, aligned);
      PaddingIsStandard(m, counted, msg);
      res := Be32Bytes(s[0]) + Be32Bytes(s[1]) + Be32Bytes(s[2]) + Be32Bytes(s[3]) +
             Be32Bytes(s[4]) + Be32Bytes(s[5]) + Be32Bytes(s[6]) + Be32Bytes(s[7]);
      OutputWords(s[..]);
      bytes := INVALID;
    }
  }

  lemma OutputWords(s: seq<Word>)
    requires |s| == 8
    ensures Output(AsRegs(s)) == Be32Bytes(s[0]) + Be32Bytes(s[1]) + Be32Bytes(s[2]) + Be32Bytes(s[3]) +
                                 Be32Bytes(s[4]) + Be32Bytes(s[5]) + Be32Bytes(s[6]) + Be32Bytes(s[7])
  {
  }

  lemma BlocksWrap(n: nat)
    ensures CodeZeros(n % SIZE) == CodeZeros(n)
  {
    hide CodeZeros;
    var r, x := n % SIZE, n / SIZE * (SIZE / BLOCK);
    assert n == r + BLOCK * x;
    SameZeros(r, x);
  }

  lemma SameZeros(r: nat, x: nat)
    ensures CodeZeros(r + BLOCK * x) == CodeZeros(r)
  {
    assert (r + BLOCK * x) % BLOCK == r % BLOCK;
  }

  lemma {:induction false} WholeTurns(a: nat, b: nat)
    ensures (a + SIZE * b) % SIZE == a % SIZE
    decreases b
  {
    if b > 0 { WholeTurns(a, b - 1); }
  }

  lemma BitsWrap(n: nat)
    ensures n % SIZE * 8 % SIZE == 8 * n % SIZE
  {
    var r, q := n % SIZE, n / SIZE;
    assert 8 * n == 8 * r + SIZE * (8 * q);
    WholeTurns(8 * r, 8 * q);
  }

  /** The wrapped byte count serves for the zeros and for the bit count. */
  lemma CountServes(bytes: nat, m: seq<Byte>)
    requires Counted(bytes, m)
    ensures CodeZeros(bytes) == CodeZeros(|m|) && Be64(bytes * 8 % SIZE) == Be64(8 * |m|)
  {
    hide Be64, CodeZeros;
    Be64Wraps(8 * |m|);
    BlocksWrap(|m|);
    BitsWrap(|m|);
  }

  /** What `sha256_done` has added is the padding of the standard, and ends on a block. */
  lemma PaddingIsStandard(m: seq<Byte>, bytes: nat, all: seq<Byte>)
    requires Counted(bytes, m)
    requires all == m + ([0x80] + Zeros(63))[..1 + CodeZeros(bytes)] + Be64(bytes * 8 % SIZE)
    ensures all == Padded(m) && Full(|all|) == |all| && all[..|all|] == all
  {
    hide Counted, Be64;
    CountServes(bytes, m);
    var z: nat := CodeZeros(|m|);
    CodeZerosAreFewest(|m|);
    forall y: nat | PadZeros(|m|, y) ensures y == z { PadZerosUnique(|m|, y, z); }
    assert ([0x80] + Zeros(63))[..1 + z] == [0x80] + Zeros(z);
    assert m + ([0x80] + Zeros(z)) == m + [0x80] + Zeros(z);
  }

  function Concat(chunks: seq<seq<Byte>>): seq<Byte>
  {
    if |chunks| == 0 then [] else Concat(chunks[..|chunks| - 1]) + chunks[|chunks| - 1]
  }

  /** However a message is cut into pieces, and wherever they lie in memory, the digest is
      that of the whole message. */
  method HashPieces(chunks: seq<seq<Byte>>, aligned: (nat, nat) -> bool) returns (res: seq<Byte>)
    requires forall i :: 0 <= i < |chunks| ==> |Concat(chunks[..i])| % SIZE != INVALID
    ensures res == Digest(Concat(chunks))
  {
    hide Digest, Absorbed;
    var ctx := new Sha256Ctx();
    for i := 0 to |chunks|
      invariant fresh(ctx) && fresh(ctx.s) && fresh(ctx.buf)
      invariant ctx.Valid() && ctx.msg == Concat(chunks[..i])
    {
      assert chunks[..i + 1][..i] == chunks[..i];
      ctx.Update(chunks[i], (off: nat) => aligned(i, off));
    }
    assert chunks[..|chunks|] == chunks;
    res := ctx.Done((off: nat) => aligned(|chunks|, off));
  }
}
