/** The AES-256 block cipher of aes.c:237-461, in place on sixteen bytes of a buffer, and the
    proof that InvCipher and Cipher undo each other for every array of round keys. */
module AesBlock {
  import opened Common
  import opened AesBytes

  const NR: nat := 14
  const NK: nat := 8
  const KEYLEN: nat := 240

  type RoundKeys = s: seq<Byte> | |s| == KEYLEN witness seq(KEYLEN, _ => 0)

  // ----- the steps, on values (FIPS 197, sections 5.1 and 5.3) -----

  function AddKey(b: Block, rk: RoundKeys, round: nat): Block
    requires round <= NR
  {
    seq(BLOCKLEN, k requires 0 <= k < BLOCKLEN => Plus(b[k], rk[16 * round + k]))
  }

  function Sub(b: Block): Block
  {
    seq(BLOCKLEN, k requires 0 <= k < BLOCKLEN => Sbox(b[k]))
  }

  function InvSub(b: Block): Block
  {
    seq(BLOCKLEN, k requires 0 <= k < BLOCKLEN => InvSbox(b[k]))
  }

  /** Row r is rotated left by r columns. */
  function Shift(b: Block): Block
  {
    [b[0], b[5], b[10], b[15], b[4], b[9], b[14], b[3], b[8], b[13], b[2], b[7], b[12], b[1], b[6], b[11]]
  }

  function InvShift(b: Block): Block
  {
    [b[0], b[13], b[10], b[7], b[4], b[1], b[14], b[11], b[8], b[5], b[2], b[15], b[12], b[9], b[6], b[3]]
  }

  /** Row j + n of a column, counted cyclically. */
  function Cyc(j: nat, n: nat): (r: nat)
    requires j < 4 && n < 4
    ensures r < 4
  {
    if j + n < 4 then j + n else j + n - 4
  }

  function MixAt(b: Block, i: nat, j: nat): Byte
    requires i < 4 && j < 4
  {
    MixCoeffs(b[4 * i + j], b[4 * i + Cyc(j, 1)], b[4 * i + Cyc(j, 2)], b[4 * i + Cyc(j, 3)])
  }

  function InvMixAt(b: Block, i: nat, j: nat): Byte
    requires i < 4 && j < 4
  {
    InvMixCoeffs(b[4 * i + j], b[4 * i + Cyc(j, 1)], b[4 * i + Cyc(j, 2)], b[4 * i + Cyc(j, 3)])
  }

  function Mix(b: Block): Block
  {
    seq(BLOCKLEN, k requires 0 <= k < BLOCKLEN => MixAt(b, k / 4, k % 4))
  }

  function InvMix(b: Block): Block
  {
    seq(BLOCKLEN, k requires 0 <= k < BLOCKLEN => InvMixAt(b, k / 4, k % 4))
  }

  lemma MixIndex(b: Block, i: nat, j: nat)
    requires i < 4 && j < 4
    ensures Mix(b)[4 * i + j] == MixAt(b, i, j) && InvMix(b)[4 * i + j] == InvMixAt(b, i, j)
  {
    hide MixAt, InvMixAt;
    assert (4 * i + j) / 4 == i && (4 * i + j) % 4 == j;
  }

  lemma RowZeroStays(b: Block, c: nat)
    requires c < 4
    ensures Shift(b)[4 * c] == b[4 * c] && InvShift(b)[4 * c] == b[4 * c]
  {
  }

  lemma RowOneRotates(b: Block, c: nat)
    requires c < 4
    ensures Shift(b)[4 * c + 1] == b[4 * Cyc(c, 1) + 1] && InvShift(b)[4 * Cyc(c, 1) + 1] == b[4 * c + 1]
  {
  }

  lemma RowTwoRotates(b: Block, c: nat)
    requires c < 4
    ensures Shift(b)[4 * c + 2] == b[4 * Cyc(c, 2) + 2] && InvShift(b)[4 * Cyc(c, 2) + 2] == b[4 * c + 2]
  {
  }

  lemma RowThreeRotates(b: Block, c: nat)
    requires c < 4
    ensures Shift(b)[4 * c + 3] == b[4 * Cyc(c, 3) + 3] && InvShift(b)[4 * Cyc(c, 3) + 3] == b[4 * c + 3]
  {
  }

  /** The explicit permutations rotate row r by r columns, left and right. */
  lemma ShiftRowsRotates(b: Block, r: nat, c: nat)
    requires r < 4 && c < 4
    ensures Shift(b)[4 * c + r] == b[4 * Cyc(c, r) + r]
    ensures InvShift(b)[4 * Cyc(c, r) + r] == b[4 * c + r]
  {
    hide Shift, InvShift;
    if r == 0 {
      RowZeroStays(b, c);
    } else if r == 1 {
      RowOneRotates(b, c);
    } else if r == 2 {
      RowTwoRotates(b, c);
    } else {
      RowThreeRotates(b, c);
    }
  }

  // ----- each step is undone -----

  lemma AddKeyTwice(b: Block, rk: RoundKeys, round: nat)
    requires round <= NR
    ensures AddKey(AddKey(b, rk, round), rk, round) == b
  {
    hide Plus;
    forall k | 0 <= k < BLOCKLEN ensures AddKey(AddKey(b, rk, round), rk, round)[k] == b[k] {
      PlusTwice(b[k], rk[16 * round + k]);
    }
  }

  lemma SubUndone(b: Block)
    ensures InvSub(Sub(b)) == b && Sub(InvSub(b)) == b
  {
    hide Sbox, InvSbox;
    forall k | 0 <= k < BLOCKLEN ensures InvSub(Sub(b))[k] == b[k] && Sub(InvSub(b))[k] == b[k] {
      SboxesInverse(b[k]);
    }
  }

  lemma ShiftUndone(b: Block)
    ensures InvShift(Shift(b)) == b && Shift(InvShift(b)) == b
  {
  }

  /** Row n of a column, counted from row j, after MixColumns or InvMixColumns. */
  lemma MixAround(b: Block, i: nat, j: nat, n: nat)
    requires i < 4 && j < 4 && n < 4
    ensures var x0, x1 := b[4 * i + Cyc(j, n)], b[4 * i + Cyc(Cyc(j, n), 1)];
      var x2, x3 := b[4 * i + Cyc(Cyc(j, n), 2)], b[4 * i + Cyc(Cyc(j, n), 3)];
            && Mix(b)[4 * i + Cyc(j, n)] == MixCoeffs(x0, x1, x2, x3)
            && InvMix(b)[4 * i + Cyc(j, n)] == InvMixCoeffs(x0, x1, x2, x3)
  {
    hide MixCoeffs, InvMixCoeffs, Mix, InvMix, Cyc;
    MixIndex(b, i, Cyc(j, n));
  }

  lemma UnmixAt(b: Block, i: nat, j: nat)
    requires i < 4 && j < 4
    ensures InvMix(Mix(b))[4 * i + j] == b[4 * i + j]
  {
    hide MixCoeffs, InvMixCoeffs, Mix, InvMix, Cyc, MixAt, InvMixAt;
    Turns(j);
    MixAround(b, i, j, 0);
    MixAround(b, i, j, 1);
    MixAround(b, i, j, 2);
    MixAround(b, i, j, 3);
    MixAround(Mix(b), i, j, 0);
    UnmixByte(b[4 * i + j], b[4 * i + Cyc(j, 1)], b[4 * i + Cyc(j, 2)], b[4 * i + Cyc(j, 3)]);
  }

  lemma RemixAt(b: Block, i: nat, j: nat)
    requires i < 4 && j < 4
    ensures Mix(InvMix(b))[4 * i + j] == b[4 * i + j]
  {
    hide MixCoeffs, InvMixCoeffs, Mix, InvMix, Cyc, MixAt, InvMixAt;
    Turns(j);
    MixAround(b, i, j, 0);
    MixAround(b, i, j, 1);
    MixAround(b, i, j, 2);
    MixAround(b, i, j, 3);
    MixAround(InvMix(b), i, j, 0);
    RemixByte(b[4 * i + j], b[4 * i + Cyc(j, 1)], b[4 * i + Cyc(j, 2)], b[4 * i + Cyc(j, 3)]);
  }

  /** Going round from row j. */
  lemma Turns(j: nat)
    requires j < 4
    ensures Cyc(j, 0) == j && Cyc(Cyc(j, 0), 0) == j
    ensures Cyc(Cyc(j, 1), 1) == Cyc(j, 2) && Cyc(Cyc(j, 1), 2) == Cyc(j, 3) && Cyc(Cyc(j, 1), 3) == j
    ensures Cyc(Cyc(j, 2), 1) == Cyc(j, 3) && Cyc(Cyc(j, 2), 2) == j && Cyc(Cyc(j, 2), 3) == Cyc(j, 1)
    ensures Cyc(Cyc(j, 3), 1) == j && Cyc(Cyc(j, 3), 2) == Cyc(j, 1) && Cyc(Cyc(j, 3), 3) == Cyc(j, 2)
  {
  }

  lemma MixUndone(b: Block)
    ensures InvMix(Mix(b)) == b && Mix(InvMix(b)) == b
  {
    hide Mix, InvMix;
    forall k | 0 <= k < BLOCKLEN ensures InvMix(Mix(b))[k] == b[k] && Mix(InvMix(b))[k] == b[k] {
      UnmixAt(b, k / 4, k % 4);
      RemixAt(b, k / 4, k % 4);
      assert 4 * (k / 4) + k % 4 == k;
    }
  }

  // ----- whole blocks -----

  /** The state after the AddRoundKey of the given round of `Cipher`. */
  function Rounds(b: Block, rk: RoundKeys, round: nat): Block
    requires round <= NR
    decreases round, |b|
  {
    if round == 0 then AddKey(b, rk, 0)
    else if round < NR then AddKey(Mix(Shift(Sub(Rounds(b, rk, round - 1)))), rk, round)
    else AddKey(Shift(Sub(Rounds(b, rk, NR - 1))), rk, NR)
  }

  function Encrypt(b: Block, rk: RoundKeys): Block
  {
    Rounds(b, rk, NR)
  }

  /** The state after the AddRoundKey of the given round of `InvCipher`, counted downwards. */
  function InvRounds(b: Block, rk: RoundKeys, round: nat): Block
    requires round <= NR
    decreases NR - round, |b|
  {
    if round == NR then AddKey(b, rk, NR)
    else
      var before := InvRounds(b, rk, round + 1);
      AddKey(InvSub(InvShift(if round == NR - 1 then before else InvMix(before))), rk, round)
  }

  function Decrypt(b: Block, rk: RoundKeys): Block
  {
    InvRounds(b, rk, 0)
  }

  /** The substituted byte that row r of column c takes from the state s: out of the column r places on. */
  function Taken(s: Block, r: nat, c: nat): Byte
    requires r < 4 && c < 4
  {
    Sbox(s[4 * ((c + r) % 4) + r])
  }

  lemma TakenIs(s: Block, r: nat, c: nat)
    requires r < 4 && c < 4
    ensures Shift(Sub(s))[4 * c + r] == Taken(s, r, c)
  {
    hide Shift, Sbox;
    ShiftRowsRotates(Sub(s), r, c);
    assert Cyc(c, r) == (c + r) % 4;
  }

  /** {02}x + {03}y + z + w */
  function Combined(x: Byte, y: Byte, z: Byte, w: Byte): Byte
  {
    Xtime(x) ^ Xtime(y) ^ y ^ z ^ w
  }

  /** A round byte by byte, sections 5.1.1 to 5.1.4 of FIPS 197 put together: every byte of the new state
      comes from four bytes of the old one and one of the round key. */
  lemma RoundExactly(b: Block, rk: RoundKeys, round: nat, r: nat, c: nat)
    requires 1 <= round <= NR && r < 4 && c < 4
    ensures var s, k := Rounds(b, rk, round - 1), rk[16 * round + 4 * c + r];
      var x := Taken(s, r, c);
      Rounds(b, rk, round)[4 * c + r] == Plus(
        if round == NR then x
        else Combined(x, Taken(s, (r + 1) % 4, c), Taken(s, (r + 2) % 4, c), Taken(s, (r + 3) % 4, c)), k)
  {
    hide Taken, Sub, Shift, Mix, Plus, Combined, AddKey;
    var s := Rounds(b, rk, round - 1);
    if round < NR {
      MixedIs(s, r, c);
      KeyAdded(Mix(Shift(Sub(s))), rk, round, 4 * c + r);
    } else {
      TakenIs(s, r, c);
      KeyAdded(Shift(Sub(s)), rk, round, 4 * c + r);
    }
  }

  lemma KeyAdded(s: Block, rk: RoundKeys, round: nat, k: nat)
    requires round <= NR && k < BLOCKLEN
    ensures AddKey(s, rk, round)[k] == Plus(s[k], rk[16 * round + k])
  {
    hide Plus;
  }

  lemma MixedIs(s: Block, r: nat, c: nat)
    requires r < 4 && c < 4
    ensures Mix(Shift(Sub(s)))[4 * c + r] ==
      Combined(Taken(s, r, c), Taken(s, (r + 1) % 4, c), Taken(s, (r + 2) % 4, c), Taken(s, (r + 3) % 4, c))
  {
    hide Taken, Sub, Shift, Mix, MixAt, Combined;
    var t := Shift(Sub(s));
    MixIndex(t, c, r);
    MixIs(t, r, c);
    TakenIs(s, r, c);
    TakenIs(s, (r + 1) % 4, c);
    TakenIs(s, (r + 2) % 4, c);
    TakenIs(s, (r + 3) % 4, c);
  }

  lemma MixIs(t: Block, r: nat, c: nat)
    requires r < 4 && c < 4
    ensures MixAt(t, c, r) ==
      Combined(t[4 * c + r], t[4 * c + (r + 1) % 4], t[4 * c + (r + 2) % 4], t[4 * c + (r + 3) % 4])
  {
    hide Xtime;
  }

  /** What InvCipher holds before it adds the key of a round it has come down to. */
  function Unkeyed(b: Block, rk: RoundKeys, round: nat): Block
    requires round <= NR
  {
    if round == 0 then b
    else if round < NR then Mix(Shift(Sub(Rounds(b, rk, round - 1))))
    else Shift(Sub(Rounds(b, rk, NR - 1)))
  }

  lemma {:induction false} DecryptUndoesRounds(b: Block, rk: RoundKeys, round: nat)
    requires round <= NR
    ensures InvRounds(Encrypt(b, rk), rk, round) == Unkeyed(b, rk, round)
    decreases NR - round
  {
    hide AddKey, Sub, InvSub, Shift, InvShift, Mix, InvMix;
    AddKeyTwice(Unkeyed(b, rk, round), rk, round);
    if round < NR {
      DecryptUndoesRounds(b, rk, round + 1);
      var s := Rounds(b, rk, round);
      MixUndone(Shift(Sub(s)));
      ShiftUndone(Sub(s));
      SubUndone(s);
    }
  }

  /** Decryption undoes encryption, whatever the round keys. */
  lemma DecryptEncrypt(b: Block, rk: RoundKeys)
    ensures Decrypt(Encrypt(b, rk), rk) == b
  {
    DecryptUndoesRounds(b, rk, 0);
  }

  /** The state of Cipher just after it has added the key of a round, met from the other side. */
  lemma {:induction false} EncryptUndoesRounds(c: Block, rk: RoundKeys, round: nat)
    requires round < NR
    ensures Rounds(Decrypt(c, rk), rk, round) ==
            InvSub(InvShift(if round == NR - 1 then InvRounds(c, rk, NR) else InvMix(InvRounds(c, rk, round + 1))))
  {
    hide AddKey, Sub, InvSub, Shift, InvShift, Mix, InvMix;
    var before := InvRounds(c, rk, round + 1);
    var x := if round == NR - 1 then before else InvMix(before);
    AddKeyTwice(InvSub(InvShift(x)), rk, round);
    if round > 0 {
      EncryptUndoesRounds(c, rk, round - 1);
      var y := InvMix(InvRounds(c, rk, round));
      SubUndone(InvShift(y));
      ShiftUndone(y);
      MixUndone(InvRounds(c, rk, round));
    }
  }

  /** And the other way round: every block is the encryption of its decryption. */
  lemma EncryptDecrypt(c: Block, rk: RoundKeys)
    ensures Encrypt(Decrypt(c, rk), rk) == c
  {
    hide AddKey, Sub, InvSub, Shift, InvShift, Mix, InvMix;
    EncryptUndoesRounds(c, rk, NR - 1);
    var y := InvRounds(c, rk, NR);
    SubUndone(InvShift(y));
    ShiftUndone(y);
    AddKeyTwice(c, rk, NR);
  }

  // ----- the steps, in place -----

  /** The sixteen bytes of the buffer that a `state_t*` at offset `at` points to. */
  function At(s: seq<Byte>, at: nat): Block
    requires at + BLOCKLEN <= |s|
  {
    s[at..at + BLOCKLEN]
  }

  /** The two buffers differ in the block at `at` only. */
  ghost predicate SameOutside(s: seq<Byte>, t: seq<Byte>, at: nat)
  {
    && |s| == |t|
    && at + BLOCKLEN <= |s|
    && forall k :: 0 <= k < |s| && !(at <= k < at + BLOCKLEN) ==> s[k] == t[k]
  }

  lemma AtIs(s: seq<Byte>, at: nat, result: Block)
    requires at + BLOCKLEN <= |s|
    requires forall p :: at <= p < at + BLOCKLEN ==> s[p] == result[p - at]
    ensures At(s, at) == result
  {
    forall k | 0 <= k < BLOCKLEN ensures At(s, at)[k] == result[k] {
      assert s[at + k] == result[at + k - at];
    }
  }

  method AddRoundKey(round: nat, state: array<Byte>, at: nat, rk: RoundKeys)
    requires round <= NR && at + BLOCKLEN <= state.Length
    modifies state
    ensures At(state[..], at) == AddKey(At(old(state[..]), at), rk, round)
    ensures SameOutside(state[..], old(state[..]), at)
  {
    hide Plus;
    ghost var was := state[..];
    var i := 0;
    while i < 4
      invariant 0 <= i <= 4 && SameOutside(state[..], was, at)
      invariant forall p :: at <= p < at + BLOCKLEN ==>
                  state[p] == if p < at + 4 * i then Plus(was[p], rk[16 * round + p - at]) else was[p]
    {
      var j := 0;
      while j < 4
        invariant 0 <= j <= 4 && SameOutside(state[..], was, at)
        invariant forall p :: at <= p < at + BLOCKLEN ==>
                    state[p] == if p < at + 4 * i + j then Plus(was[p], rk[16 * round + p - at]) else was[p]
      {
        state[at + 4 * i + j] := Plus(state[at + 4 * i + j], rk[round * 4 * 4 + i * 4 + j]);
        j := j + 1;
      }
      i := i + 1;
    }
    AtIs(state[..], at, AddKey(At(was, at), rk, round));
  }

  /** The first i rows of the block, and j bytes of the next, hold what is wanted there. */
  ghost predicate RowsDone(now: seq<Byte>, was: seq<Byte>, want: seq<Byte>, at: nat, i: nat, j: nat)
    requires at + BLOCKLEN <= |now| == |was| == |want|
  {
    forall p :: at <= p < at + BLOCKLEN ==>
      now[p] == if (p - at) % 4 < i || ((p - at) % 4 == i && p - at < 4 * j) then want[p] else was[p]
  }

  lemma RowsStart(was: seq<Byte>, want: seq<Byte>, at: nat)
    requires at + BLOCKLEN <= |was| == |want|
    ensures RowsDone(was, was, want, at, 0, 0)
  {
  }

  lemma RowsStep(now: seq<Byte>, was: seq<Byte>, want: seq<Byte>, at: nat, i: nat, j: nat)
    requires i < 4 && j < 4 && at + BLOCKLEN <= |now| == |was| == |want| && RowsDone(now, was, want, at, i, j)
    ensures var p := at + 4 * j + i;
      now[p] == was[p] && RowsDone(now[p := want[p]], was, want, at, i, j + 1)
  {
    var p := at + 4 * j + i;
    assert (p - at) % 4 == i && now[p] == was[p];
  }

  lemma RowsNext(now: seq<Byte>, was: seq<Byte>, want: seq<Byte>, at: nat, i: nat)
    requires at + BLOCKLEN <= |now| == |was| == |want| && RowsDone(now, was, want, at, i, 4)
    ensures RowsDone(now, was, want, at, i + 1, 0)
  {
  }

  lemma RowsAll(now: seq<Byte>, was: seq<Byte>, want: seq<Byte>, at: nat)
    requires at + BLOCKLEN <= |now| == |was| == |want| && RowsDone(now, was, want, at, 4, 0)
    ensures forall p :: at <= p < at + BLOCKLEN ==> now[p] == want[p]
  {
  }

  method SubBytes(state: array<Byte>, at: nat)
    requires at + BLOCKLEN <= state.Length
    modifies state
    ensures At(state[..], at) == Sub(At(old(state[..]), at))
    ensures SameOutside(state[..], old(state[..]), at)
  {
    hide Sbox, RowsDone;
    ghost var was := state[..];
    ghost var want := seq(|was|, p requires 0 <= p < |was| => Sbox(was[p]));
    var i := 0;
    RowsStart(was, want, at);
    while i < 4
      invariant 0 <= i <= 4 && SameOutside(state[..], was, at) && RowsDone(state[..], was, want, at, i, 0)
    {
      var j := 0;
      while j < 4
        invariant 0 <= j <= 4 && SameOutside(state[..], was, at) && RowsDone(state[..], was, want, at, i, j)
      {
        var p := at + 4 * j + i;
        RowsStep(state[..], was, want, at, i, j);
        state[p] := Sbox(state[p]);
        j := j + 1;
      }
      RowsNext(state[..], was, want, at, i);
      i := i + 1;
    }
    RowsAll(state[..], was, want, at);
    AtIs(state[..], at, Sub(At(was, at)));
  }

  method InvSubBytes(state: array<Byte>, at: nat)
    requires at + BLOCKLEN <= state.Length
    modifies state
    ensures At(state[..], at) == InvSub(At(old(state[..]), at))
    ensures SameOutside(state[..], old(state[..]), at)
  {
    hide InvSbox, RowsDone;
    ghost var was := state[..];
    ghost var want := seq(|was|, p requires 0 <= p < |was| => InvSbox(was[p]));
    var i := 0;
    RowsStart(was, want, at);
    while i < 4
      invariant 0 <= i <= 4 && SameOutside(state[..], was, at) && RowsDone(state[..], was, want, at, i, 0)
    {
      var j := 0;
      while j < 4
        invariant 0 <= j <= 4 && SameOutside(state[..], was, at) && RowsDone(state[..], was, want, at, i, j)
      {
        var p := at + 4 * j + i;
        RowsStep(state[..], was, want, at, i, j);
        state[p] := InvSbox(state[p]);
        j := j + 1;
      }
      RowsNext(state[..], was, want, at, i);
      i := i + 1;
    }
    RowsAll(state[..], was, want, at);
    AtIs(state[..], at, InvSub(At(was, at)));
  }

  /** Four bytes move one place round, through one temporary. */
  method Rotate(state: array<Byte>, p: nat, q: nat, r: nat, t: nat)
    requires p < state.Length && q < state.Length && r < state.Length && t < state.Length
    requires p != q && p != r && p != t && q != r && q != t && r != t
    modifies state
    ensures state[p] == old(state[q]) && state[q] == old(state[r]) && state[r] == old(state[t]) &&
      state[t] == old(state[p])
    ensures forall k :: 0 <= k < state.Length && k != p && k != q && k != r && k != t ==> state[k] == old(state[k])
  {
    var temp := state[p];
    state[p] := state[q];
    state[q] := state[r];
    state[r] := state[t];
    state[t] := temp;
  }

  method Swap(state: array<Byte>, p: nat, q: nat)
    requires p < state.Length && q < state.Length && p != q
    modifies state
    ensures state[p] == old(state[q]) && state[q] == old(state[p])
    ensures forall k :: 0 <= k < state.Length && k != p && k != q ==> state[k] == old(state[k])
  {
    var temp := state[p];
    state[p] := state[q];
    state[q] := temp;
  }

  lemma ShiftedBytes(now: seq<Byte>, was: seq<Byte>, at: nat)
    requires |now| == |was| && at + BLOCKLEN <= |was|
    requires now[at + 0] == was[at + 0] && now[at + 1] == was[at + 5] && now[at + 2] == was[at + 10] &&
      now[at + 3] == was[at + 15]
    requires now[at + 4] == was[at + 4] && now[at + 5] == was[at + 9] && now[at + 6] == was[at + 14] &&
      now[at + 7] == was[at + 3]
    requires now[at + 8] == was[at + 8] && now[at + 9] == was[at + 13] && now[at + 10] == was[at + 2] &&
      now[at + 11] == was[at + 7]
    requires now[at + 12] == was[at + 12] && now[at + 13] == was[at + 1] && now[at + 14] == was[at + 6] &&
      now[at + 15] == was[at + 11]
    requires forall k :: 0 <= k < |was| && !(at <= k < at + BLOCKLEN) ==> now[k] == was[k]
    ensures At(now, at) == Shift(At(was, at)) && SameOutside(now, was, at)
  {
  }

  lemma InvShiftedBytes(now: seq<Byte>, was: seq<Byte>, at: nat)
    requires |now| == |was| && at + BLOCKLEN <= |was|
    requires now[at + 0] == was[at + 0] && now[at + 1] == was[at + 13] && now[at + 2] == was[at + 10] &&
      now[at + 3] == was[at + 7]
    requires now[at + 4] == was[at + 4] && now[at + 5] == was[at + 1] && now[at + 6] == was[at + 14] &&
      now[at + 7] == was[at + 11]
    requires now[at + 8] == was[at + 8] && now[at + 9] == was[at + 5] && now[at + 10] == was[at + 2] &&
      now[at + 11] == was[at + 15]
    requires now[at + 12] == was[at + 12] && now[at + 13] == was[at + 9] && now[at + 14] == was[at + 6] &&
      now[at + 15] == was[at + 3]
    requires forall k :: 0 <= k < |was| && !(at <= k < at + BLOCKLEN) ==> now[k] == was[k]
    ensures At(now, at) == InvShift(At(was, at)) && SameOutside(now, was, at)
  {
  }

  method ShiftRows(state: array<Byte>, at: nat)
    requires at + BLOCKLEN <= state.Length
    modifies state
    ensures At(state[..], at) == Shift(At(old(state[..]), at))
    ensures SameOutside(state[..], old(state[..]), at)
  {
    ghost var was := state[..];
    hide At, SameOutside, Shift;
    Rotate(state, at + 1, at + 5, at + 9, at + 13);
    Swap(state, at + 2, at + 10);
    Swap(state, at + 6, at + 14);
    Rotate(state, at + 3, at + 15, at + 11, at + 7);
    ShiftedBytes(state[..], was, at);
  }

  method InvShiftRows(state: array<Byte>, at: nat)
    requires at + BLOCKLEN <= state.Length
    modifies state
    ensures At(state[..], at) == InvShift(At(old(state[..]), at))
    ensures SameOutside(state[..], old(state[..]), at)
  {
    ghost var was := state[..];
    hide At, SameOutside, InvShift;
    Rotate(state, at + 13, at + 9, at + 5, at + 1);
    Swap(state, at + 2, at + 10);
    Swap(state, at + 6, at + 14);
    Rotate(state, at + 3, at + 7, at + 11, at + 15);
    InvShiftedBytes(state[..], was, at);
  }

  /** What the loop of MixColumns has done after i columns. */
  ghost predicate ColumnsDone(now: seq<Byte>, was: seq<Byte>, at: nat, i: nat, result: Block)
  {
    && SameOutside(now, was, at)
    && forall p :: at <= p < at + BLOCKLEN ==> now[p] == if p < at + 4 * i then result[p - at] else was[p]
  }

  method MixColumns(state: array<Byte>, at: nat)
    requires at + BLOCKLEN <= state.Length
    modifies state
    ensures At(state[..], at) == Mix(At(old(state[..]), at))
    ensures SameOutside(state[..], old(state[..]), at)
  {
    hide Plus, Xtime, MixCoeffs, MixByte, Sum4, Mix, ColumnsDone, At, SameOutside;
    ghost var was := state[..];
    ghost var result := Mix(At(was, at));
    var i := 0;
    ColumnsStart(was, at, result);
    while i < 4
      invariant 0 <= i <= 4 && ColumnsDone(state[..], was, at, i, result)
    {
      var p := at + 4 * i;
      ColumnRead(state[..], was, at, i, result);
      var a, b, c, d := state[p], state[p + 1], state[p + 2], state[p + 3];
      MixColumn(At(was, at), i, a, b, c, d);
      ghost var now := state[..];
      ColumnStep(now, was, at, i, result, result[4 * i], result[4 * i + 1], result[4 * i + 2], result[4 * i + 3]);
      var t := state[p];
      var tmp := Sum4(state[p], state[p + 1], state[p + 2], state[p + 3]);
      state[p] := MixByte(state[p], state[p + 1], tmp);
      state[p + 1] := MixByte(state[p + 1], state[p + 2], tmp);
      state[p + 2] := MixByte(state[p + 2], state[p + 3], tmp);
      state[p + 3] := MixByte(state[p + 3], t, tmp);
      assert state[..] == now[p := result[4 * i]][p + 1 := result[4 * i + 1]]
        [p + 2 := result[4 * i + 2]][p + 3 := result[4 * i + 3]];
      i := i + 1;
    }
    ColumnsEnd(state[..], was, at, result);
  }

  lemma ColumnsStart(was: seq<Byte>, at: nat, result: Block)
    requires at + BLOCKLEN <= |was|
    ensures ColumnsDone(was, was, at, 0, result)
  {
  }

  lemma ColumnStep(now: seq<Byte>, was: seq<Byte>, at: nat, i: nat, result: Block, r0: Byte, r1: Byte, r2: Byte,
    r3: Byte)
    requires i < 4 && ColumnsDone(now, was, at, i, result)
    requires r0 == result[4 * i] && r1 == result[4 * i + 1] && r2 == result[4 * i + 2] && r3 == result[4 * i + 3]
    ensures var p := at + 4 * i;
      ColumnsDone(now[p := r0][p + 1 := r1][p + 2 := r2][p + 3 := r3], was, at, i + 1, result)
  {
  }

  lemma ColumnRead(now: seq<Byte>, was: seq<Byte>, at: nat, i: nat, result: Block)
    requires i < 4 && ColumnsDone(now, was, at, i, result)
    ensures var b, p := At(was, at), at + 4 * i;
            now[p] == b[4 * i] && now[p + 1] == b[4 * i + 1] && now[p + 2] == b[4 * i + 2] && now[p + 3] == b[4 * i + 3]
  {
  }

  lemma ColumnsEnd(now: seq<Byte>, was: seq<Byte>, at: nat, result: Block)
    requires ColumnsDone(now, was, at, 4, result)
    ensures At(now, at) == result && SameOutside(now, was, at)
  {
    AtIs(now, at, result);
  }

  lemma MixRows(s: Block, i: nat, a: Byte, b: Byte, c: Byte, d: Byte)
    requires i < 4 && a == s[4 * i] && b == s[4 * i + 1] && c == s[4 * i + 2] && d == s[4 * i + 3]
    ensures Mix(s)[4 * i] == MixCoeffs(a, b, c, d)
    ensures Mix(s)[4 * i + 1] == MixCoeffs(b, c, d, a)
    ensures Mix(s)[4 * i + 2] == MixCoeffs(c, d, a, b)
    ensures Mix(s)[4 * i + 3] == MixCoeffs(d, a, b, c)
  {
    hide MixCoeffs, Mix, InvMix, InvMixAt;
    MixIndex(s, i, 0);
    MixIndex(s, i, 1);
    MixIndex(s, i, 2);
    MixIndex(s, i, 3);
  }

  lemma MixColumn(s: Block, i: nat, a: Byte, b: Byte, c: Byte, d: Byte)
    requires i < 4 && a == s[4 * i] && b == s[4 * i + 1] && c == s[4 * i + 2] && d == s[4 * i + 3]
    ensures var tmp := Sum4(a, b, c, d);
            && Mix(s)[4 * i] == MixByte(a, b, tmp)
            && Mix(s)[4 * i + 1] == MixByte(b, c, tmp)
            && Mix(s)[4 * i + 2] == MixByte(c, d, tmp)
            && Mix(s)[4 * i + 3] == MixByte(d, a, tmp)
  {
    hide Plus, Xtime, MixCoeffs, MixByte, Sum4, Sum3, Mix;
    MixRows(s, i, a, b, c, d);
    MixByteIsCoefficients(a, b, c, d);
    MixByteIsCoefficients(b, c, d, a);
    MixByteIsCoefficients(c, d, a, b);
    MixByteIsCoefficients(d, a, b, c);
    SumRotate(a, b, c, d);
    SumRotate(b, c, d, a);
    SumRotate(c, d, a, b);
  }

  method InvMixColumns(state: array<Byte>, at: nat)
    requires at + BLOCKLEN <= state.Length
    modifies state
    ensures At(state[..], at) == InvMix(At(old(state[..]), at))
    ensures SameOutside(state[..], old(state[..]), at)
  {
    hide Plus, Multiply, InvMixCoeffs, Sum4, InvMix, ColumnsDone, At, SameOutside;
    ghost var was := state[..];
    ghost var result := InvMix(At(was, at));
    var i := 0;
    ColumnsStart(was, at, result);
    while i < 4
      invariant 0 <= i <= 4 && ColumnsDone(state[..], was, at, i, result)
    {
      var p := at + 4 * i;
      ColumnRead(state[..], was, at, i, result);
      var a, b, c, d := state[p], state[p + 1], state[p + 2], state[p + 3];
      InvMixColumn(At(was, at), i, a, b, c, d);
      ghost var now := state[..];
      ColumnStep(now, was, at, i, result, result[4 * i], result[4 * i + 1], result[4 * i + 2], result[4 * i + 3]);
      state[p] := Sum4(Multiply(a, 0x0e), Multiply(b, 0x0b), Multiply(c, 0x0d), Multiply(d, 0x09));
      state[p + 1] := Sum4(Multiply(a, 0x09), Multiply(b, 0x0e), Multiply(c, 0x0b), Multiply(d, 0x0d));
      state[p + 2] := Sum4(Multiply(a, 0x0d), Multiply(b, 0x09), Multiply(c, 0x0e), Multiply(d, 0x0b));
      state[p + 3] := Sum4(Multiply(a, 0x0b), Multiply(b, 0x0d), Multiply(c, 0x09), Multiply(d, 0x0e));
      assert state[..] == now[p := result[4 * i]][p + 1 := result[4 * i + 1]]
        [p + 2 := result[4 * i + 2]][p + 3 := result[4 * i + 3]];
      i := i + 1;
    }
    ColumnsEnd(state[..], was, at, result);
  }

  lemma InvMixRows(s: Block, i: nat, a: Byte, b: Byte, c: Byte, d: Byte)
    requires i < 4 && a == s[4 * i] && b == s[4 * i + 1] && c == s[4 * i + 2] && d == s[4 * i + 3]
    ensures InvMix(s)[4 * i] == InvMixCoeffs(a, b, c, d)
    ensures InvMix(s)[4 * i + 1] == InvMixCoeffs(b, c, d, a)
    ensures InvMix(s)[4 * i + 2] == InvMixCoeffs(c, d, a, b)
    ensures InvMix(s)[4 * i + 3] == InvMixCoeffs(d, a, b, c)
  {
    hide InvMixCoeffs, Mix, InvMix, MixAt;
    MixIndex(s, i, 0);
    MixIndex(s, i, 1);
    MixIndex(s, i, 2);
    MixIndex(s, i, 3);
  }

  lemma InvMixColumn(s: Block, i: nat, a: Byte, b: Byte, c: Byte, d: Byte)
    requires i < 4 && a == s[4 * i] && b == s[4 * i + 1] && c == s[4 * i + 2] && d == s[4 * i + 3]
    ensures InvMix(s)[4 * i] == Sum4(Multiply(a, 0x0e), Multiply(b, 0x0b), Multiply(c, 0x0d), Multiply(d, 0x09))
    ensures InvMix(s)[4 * i + 1] == Sum4(Multiply(a, 0x09), Multiply(b, 0x0e), Multiply(c, 0x0b), Multiply(d, 0x0d))
    ensures InvMix(s)[4 * i + 2] == Sum4(Multiply(a, 0x0d), Multiply(b, 0x09), Multiply(c, 0x0e), Multiply(d, 0x0b))
    ensures InvMix(s)[4 * i + 3] == Sum4(Multiply(a, 0x0b), Multiply(b, 0x0d), Multiply(c, 0x09), Multiply(d, 0x0e))
  {
    hide Multiply, Sum4, Sum3, Plus, InvMix;
    InvMixRows(s, i, a, b, c, d);
    SumRotate(Multiply(a, 0x09), Multiply(b, 0x0e), Multiply(c, 0x0b), Multiply(d, 0x0d));
    SumRotate(Multiply(a, 0x0d), Multiply(b, 0x09), Multiply(c, 0x0e), Multiply(d, 0x0b));
    SumRotate(Multiply(b, 0x09), Multiply(c, 0x0e), Multiply(d, 0x0b), Multiply(a, 0x0d));
    SumRotate(Multiply(d, 0x0e), Multiply(a, 0x0b), Multiply(b, 0x0d), Multiply(c, 0x09));
  }

  /** `Cipher` */
  method Cipher(state: array<Byte>, at: nat, rk: RoundKeys)
    requires at + BLOCKLEN <= state.Length
    modifies state
    ensures At(state[..], at) == Encrypt(At(old(state[..]), at), rk)
    ensures SameOutside(state[..], old(state[..]), at)
  {
    hide AddKey, Sub, Shift, Mix;
    ghost var b := At(state[..], at);
    AddRoundKey(0, state, at, rk);
    var round := 1;
    while true
      invariant 1 <= round <= NR && At(state[..], at) == Rounds(b, rk, round - 1)
      invariant SameOutside(state[..], old(state[..]), at)
      decreases NR - round
    {
      SubBytes(state, at);
      ShiftRows(state, at);
      if round == NR {
        break;
      }
      MixColumns(state, at);
      AddRoundKey(round, state, at, rk);
      round := round + 1;
    }
    AddRoundKey(NR, state, at, rk);
  }

  /** `InvCipher` */
  method InvCipher(state: array<Byte>, at: nat, rk: RoundKeys)
    requires at + BLOCKLEN <= state.Length
    modifies state
    ensures At(state[..], at) == Decrypt(At(old(state[..]), at), rk)
    ensures SameOutside(state[..], old(state[..]), at)
  {
    hide AddKey, InvSub, InvShift, InvMix;
    ghost var b := At(state[..], at);
    AddRoundKey(NR, state, at, rk);
    var round := NR - 1;
    while true
      invariant 0 <= round < NR
      invariant At(state[..], at) == if round == NR - 1 then InvRounds(b, rk, NR)
        else InvMix(InvRounds(b, rk, round + 1))
      invariant SameOutside(state[..], old(state[..]), at)
      decreases round
    {
      InvShiftRows(state, at);
      InvSubBytes(state, at);
      AddRoundKey(round, state, at, rk);
      if round == 0 {
        break;
      }
      InvMixColumns(state, at);
      round := round - 1;
    }
  }
}
