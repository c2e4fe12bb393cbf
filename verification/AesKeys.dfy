/** AES-256 key expansion (aes.c:146-217), against section 5.2 of FIPS 197. */
module AesKeys {
  import opened Common
  import opened AesBytes
  import opened AesBlock

  // ----- key expansion -----

  function Rcon(i: nat): Byte
    requires i < 11
  {
    [0x8d, 0x01, 0x02, 0x04, 0x08, 0x10, 0x20, 0x40, 0x80, 0x1b, 0x36][i]
  }

  type Quad = s: seq<Byte> | |s| == 4 witness [0, 0, 0, 0]

  function RotWord(w: Quad): Quad { [w[1], w[2], w[3], w[0]] }

  function SubWord(w: Quad): Quad { [Sbox(w[0]), Sbox(w[1]), Sbox(w[2]), Sbox(w[3])] }

  function XorWord(v: Quad, w: Quad): Quad { [Plus(v[0], w[0]), Plus(v[1], w[1]), Plus(v[2], w[2]), Plus(v[3], w[3])] }

  /** The i-th word of the key schedule, section 5.2. */
  function ScheduleWord(key: seq<Byte>, i: nat): Quad
    requires |key| == 4 * NK && i < 4 * (NR + 1)
  {
    if i < NK then key[4 * i..4 * i + 4]
    else
      var temp := ScheduleWord(key, i - 1);
      var mixed :=
        if i % NK == 0 then XorWord(SubWord(RotWord(temp)), [Rcon(i / NK), 0, 0, 0])
        else if i % NK == 4 then SubWord(temp)
        else temp;
      XorWord(ScheduleWord(key, i - NK), mixed)
  }

  /** The first n words of the schedule, as bytes. */
  function Schedule(key: seq<Byte>, n: nat): (r: seq<Byte>)
    requires |key| == 4 * NK && n <= 4 * (NR + 1)
    ensures |r| == 4 * n
  {
    if n == 0 then [] else Schedule(key, n - 1) + ScheduleWord(key, n - 1)
  }

  lemma {:induction false} ScheduleAt(key: seq<Byte>, n: nat, i: nat)
    requires |key| == 4 * NK && i < n <= 4 * (NR + 1)
    ensures Schedule(key, n)[4 * i..4 * i + 4] == ScheduleWord(key, i)
  {
    hide ScheduleWord;
    if i < n - 1 {
      ScheduleAt(key, n - 1, i);
      assert Schedule(key, n)[4 * i..4 * i + 4] == Schedule(key, n - 1)[4 * i..4 * i + 4];
    }
  }

  lemma KeyStartsSchedule(key: seq<Byte>, n: nat)
    requires |key| == 4 * NK && n <= NK
    ensures Schedule(key, n) == key[..4 * n]
  {
    if n > 0 { KeyStartsSchedule(key, n - 1); }
  }

  /** The first loop of `KeyExpansion`: the first round key is the key itself. */
  method CopyKey(roundKey: array<Byte>, key: seq<Byte>)
    requires roundKey.Length == KEYLEN && |key| == 4 * NK
    modifies roundKey
    ensures roundKey[..4 * NK] == key
  {
    var i := 0;
    while i < NK
      invariant 0 <= i <= NK && roundKey[..4 * i] == key[..4 * i]
    {
      roundKey[i * 4] := key[i * 4];
      roundKey[i * 4 + 1] := key[i * 4 + 1];
      roundKey[i * 4 + 2] := key[i * 4 + 2];
      roundKey[i * 4 + 3] := key[i * 4 + 3];
      i := i + 1;
    }
    assert key[..4 * i] == key;
  }

  /** What one turn of the second loop makes of the previous word w. */
  function Mixed(w: Quad, i: nat): Quad
    requires NK <= i < 4 * (NR + 1)
  {
    if i % NK == 0 then [Plus(Sbox(w[1]), Rcon(i / NK)), Sbox(w[2]), Sbox(w[3]), Sbox(w[0])]
    else if i % NK == 4 then SubWord(w)
    else w
  }

  method Temporaries(i: nat, w: Quad) returns (t0: Byte, t1: Byte, t2: Byte, t3: Byte)
    requires NK <= i < 4 * (NR + 1)
    ensures [t0, t1, t2, t3] == Mixed(w, i)
  {
    hide Sbox, Plus, Rcon;
    t0, t1, t2, t3 := w[0], w[1], w[2], w[3];
    if i % NK == 0 {
      var u8tmp := t0;
      t0, t1, t2, t3 := t1, t2, t3, u8tmp;
      t0, t1, t2, t3 := Sbox(t0), Sbox(t1), Sbox(t2), Sbox(t3);
      t0 := Plus(t0, Rcon(i / NK));
    }
    if i % NK == 4 {
      t0, t1, t2, t3 := Sbox(t0), Sbox(t1), Sbox(t2), Sbox(t3);
    }
  }

  /** One turn of the second loop. */
  method NextWord(roundKey: array<Byte>, i: nat, ghost key: seq<Byte>)
    requires roundKey.Length == KEYLEN && |key| == 4 * NK && NK <= i < 4 * (NR + 1)
    requires roundKey[..4 * i] == Schedule(key, i)
    modifies roundKey
    ensures roundKey[..4 * (i + 1)] == Schedule(key, i + 1)
  {
    hide ScheduleWord, Schedule, XorWord, Mixed, Plus;
    ghost var v, u := ScheduleWord(key, i - NK), ScheduleWord(key, i - 1);
    ScheduleAt(key, i, i - 1);
    ScheduleAt(key, i, i - NK);
    WordIs(roundKey[..], Schedule(key, i), u, i, i - 1);
    WordIs(roundKey[..], Schedule(key, i), v, i, i - NK);
    var k := (i - 1) * 4;
    var temp: Quad := [roundKey[k], roundKey[k + 1], roundKey[k + 2], roundKey[k + 3]];
    assert temp == u;
    var t0, t1, t2, t3 := Temporaries(i, temp);
    ScheduleStep(key, i, t0, t1, t2, t3);
    XorWordIs(v, [t0, t1, t2, t3]);
    StoreWord(roundKey, i * 4, (i - NK) * 4, t0, t1, t2, t3);
  }

  /** `RoundKey[j + n] = RoundKey[k + n] ^ tempa[n]` */
  method StoreWord(roundKey: array<Byte>, j: nat, k: nat, t0: Byte, t1: Byte, t2: Byte, t3: Byte)
    requires k + 4 <= j && j + 4 <= roundKey.Length
    modifies roundKey
    ensures roundKey[..j + 4] == old(roundKey[..j]) +
            [Plus(old(roundKey[k]), t0), Plus(old(roundKey[k + 1]), t1), Plus(old(roundKey[k + 2]), t2),
              Plus(old(roundKey[k + 3]), t3)]
  {
    hide Plus;
    roundKey[j] := Plus(roundKey[k], t0);
    roundKey[j + 1] := Plus(roundKey[k + 1], t1);
    roundKey[j + 2] := Plus(roundKey[k + 2], t2);
    roundKey[j + 3] := Plus(roundKey[k + 3], t3);
  }

  lemma XorWordIs(v: Quad, w: Quad)
    ensures XorWord(v, w) == [Plus(v[0], w[0]), Plus(v[1], w[1]), Plus(v[2], w[2]), Plus(v[3], w[3])]
  {
  }

  /** `KeyExpansion` */
  method KeyExpansion(roundKey: array<Byte>, key: seq<Byte>)
    requires roundKey.Length == KEYLEN && |key| == 4 * NK
    modifies roundKey
    ensures roundKey[..] == Schedule(key, 4 * (NR + 1))
  {
    hide ScheduleWord, Schedule;
    CopyKey(roundKey, key);
    KeyStartsSchedule(key, NK);
    assert key[..4 * NK] == key;
    var i := NK;
    while i < 4 * (NR + 1)
      invariant NK <= i <= 4 * (NR + 1) && roundKey[..4 * i] == Schedule(key, i)
    {
      NextWord(roundKey, i, key);
      i := i + 1;
    }
    assert roundKey[..4 * i] == roundKey[..];
  }

  lemma WordIs(roundKey: seq<Byte>, done: seq<Byte>, w: Quad, n: nat, i: nat)
    requires 4 * n <= |roundKey| && roundKey[..4 * n] == done && i < n && done[4 * i..4 * i + 4] == w
    ensures roundKey[4 * i] == w[0] && roundKey[4 * i + 1] == w[1] && roundKey[4 * i + 2] == w[2] &&
      roundKey[4 * i + 3] == w[3]
  {
    assert forall j :: 0 <= j < 4 ==> w[j] == done[4 * i + j] == roundKey[..4 * n][4 * i + j];
  }

  /** The four temporaries of the loop are the mixed word of the standard. */
  lemma ScheduleStep(key: seq<Byte>, i: nat, t0: Byte, t1: Byte, t2: Byte, t3: Byte)
    requires |key| == 4 * NK && NK <= i < 4 * (NR + 1)
    requires [t0, t1, t2, t3] == Mixed(ScheduleWord(key, i - 1), i)
    ensures ScheduleWord(key, i) == XorWord(ScheduleWord(key, i - NK), [t0, t1, t2, t3])
    ensures Schedule(key, i + 1) == Schedule(key, i) + ScheduleWord(key, i)
  {
    hide Sbox, Plus, Rcon;
    var w := ScheduleWord(key, i - 1);
    PlusZero(Sbox(w[2]));
    PlusZero(Sbox(w[3]));
    PlusZero(Sbox(w[0]));
    if i % NK == 0 {
      assert XorWord(SubWord(RotWord(w)), [Rcon(i / NK), 0, 0, 0]) == [t0, t1, t2, t3];
    }
  }
}
