/**
 * The extension port cipher of source/wiimote_crypto.c. A key is chosen by searching the index
 * under which the 6 key bytes are the keyed transform of the 10 random bytes; the index selects
 * two neighbouring S-boxes. The S-box contents are a parameter.
 */
module Crypto {
  import opened Bytes

  type SBox = s: seq<byte> | |s| == 256 witness Fill(256, 0)

  /** The constant tables: the key generation S-box and the eight cipher S-boxes. */
  datatype Tables = Tables(keygen: SBox, sboxes: seq<SBox>)
  {
    predicate Valid() { |sboxes| == 8 }
  }

  datatype Key = Key(ft: seq<byte>, sb: seq<byte>)
  {
    predicate Valid() { |ft| == 8 && |sb| == 8 }
  }

  const ZERO_KEY := Key(Fill(8, 0), Fill(8, 0))

  const ANS_TBL: seq<seq<byte>> :=
    [[0xa8, 0x77, 0xa6, 0xe0, 0xf7, 0x43],
     [0x5a, 0x35, 0x85, 0xe2, 0x72, 0x97],
     [0x8f, 0xb7, 0x1a, 0x62, 0x87, 0x38],
     [0x0d, 0x67, 0xc7, 0xbe, 0x4f, 0x3e],
     [0x20, 0x76, 0x37, 0x8f, 0x68, 0xb7],
     [0xa9, 0x26, 0x3f, 0x2b, 0x10, 0xe3],
     [0x30, 0x7e, 0x90, 0x0e, 0x85, 0x0a]]

  const NUM_INDICES := 7

  function At(box: SBox, b: byte): byte {
    box[b as int]
  }

  // The byte operations of the cipher, by name.

  function Xor(a: byte, b: byte): byte { a ^ b }

  function Sub(a: byte, b: byte): byte { a - b }

  function Add(a: byte, b: byte): byte { a + b }

  function Ror8(w: byte, shift: byte): byte {
    var s := shift % 8;
    (w >> s) | (w << (8 - s))
  }

  lemma XorTwice(a: byte, b: byte)
    ensures Xor(Xor(a, b), b) == a
  {
  }

  lemma SubThenAdd(a: byte, b: byte)
    ensures Add(Sub(a, b), b) == a
  {
  }

  lemma Ror8Injective(a: byte, b: byte, shift: byte)
    requires Ror8(a, shift) == Ror8(b, shift)
    ensures a == b
  {
    var s := shift % 8;
    assert s == 0 || s == 1 || s == 2 || s == 3 || s == 4 || s == 5 || s == 6 || s == 7;
  }

  /** One byte of key data: the answer table entry, xored, rotated, shifted and xored again. */
  function Scramble(answer: byte, x: byte, rot: byte, sub: byte, y: byte): byte {
    Xor(Sub(Ror8(Xor(answer, x), rot), sub), y)
  }

  /** Different answers give different key bytes, whatever the random part. */
  lemma ScrambleInjective(a: byte, b: byte, x: byte, rot: byte, sub: byte, y: byte)
    requires Scramble(a, x, rot, sub, y) == Scramble(b, x, rot, sub, y)
    ensures a == b
  {
    var u, v := Ror8(Xor(a, x), rot), Ror8(Xor(b, x), rot);
    XorTwice(Sub(u, sub), y);
    XorTwice(Sub(v, sub), y);
    SubThenAdd(u, sub);
    SubThenAdd(v, sub);
    Ror8Injective(Xor(a, x), Xor(b, x), rot);
    XorTwice(a, x);
    XorTwice(b, x);
  }

  function Substituted(t: Tables, rand: seq<byte>): (t0: seq<byte>)
    ensures |t0| == |rand|
  {
    seq(|rand|, i requires 0 <= i < |rand| => At(t.keygen, rand[i]))
  }

  /** Which substituted random bytes go into key byte k: xored in, rotated by, subtracted, xored. */
  const WIRING: seq<(nat, nat, nat, nat)> :=
    [(5, 2, 9, 4), (1, 0, 5, 7), (6, 8, 2, 0), (4, 7, 3, 2), (1, 6, 3, 4), (7, 8, 5, 9)]

  function KeyByte(t0: seq<byte>, answer: byte, w: (nat, nat, nat, nat)): byte
    requires |t0| == 10 && w.0 < 10 && w.1 < 10 && w.2 < 10 && w.3 < 10
  {
    Scramble(answer, t0[w.0], t0[w.1], t0[w.2], t0[w.3])
  }

  /** generate_key_data: the key bytes index idx makes from the random part. */
  function KeyData(t: Tables, rand: seq<byte>, idx: nat): (key: seq<byte>)
    requires |rand| == 10 && idx < NUM_INDICES
    ensures |key| == 6
  {
    seq(6, k requires 0 <= k < 6 => KeyByte(Substituted(t, rand), ANS_TBL[idx][k], WIRING[k]))
  }

  lemma KeyDataAt(t: Tables, rand: seq<byte>, idx: nat, k: nat)
    requires |rand| == 10 && idx < NUM_INDICES && k < 6
    ensures KeyData(t, rand, idx)[k] == KeyByte(Substituted(t, rand), ANS_TBL[idx][k], WIRING[k])
  {
  }

  /** The six key bytes spelled out. */
  lemma KeyDataBytes(t: Tables, rand: seq<byte>, idx: nat, t0: seq<byte>, ans: seq<byte>)
    requires |rand| == 10 && idx < NUM_INDICES && t0 == Substituted(t, rand) && ans == ANS_TBL[idx]
    ensures KeyData(t, rand, idx) ==
            [Scramble(ans[0], t0[5], t0[2], t0[9], t0[4]), Scramble(ans[1], t0[1], t0[0], t0[5], t0[7]),
             Scramble(ans[2], t0[6], t0[8], t0[2], t0[0]), Scramble(ans[3], t0[4], t0[7], t0[3], t0[2]),
             Scramble(ans[4], t0[1], t0[6], t0[3], t0[4]), Scramble(ans[5], t0[7], t0[8], t0[5], t0[9])]
  {
    KeyDataAt(t, rand, idx, 0);
    KeyDataAt(t, rand, idx, 1);
    KeyDataAt(t, rand, idx, 2);
    KeyDataAt(t, rand, idx, 3);
    KeyDataAt(t, rand, idx, 4);
    KeyDataAt(t, rand, idx, 5);
  }

  lemma AnswersDiffer(i: nat, j: nat)
    requires i < NUM_INDICES && j < NUM_INDICES && ANS_TBL[i][0] == ANS_TBL[j][0]
    ensures i == j
  {
  }

  lemma KeyByteInjective(t0: seq<byte>, a: byte, b: byte, w: (nat, nat, nat, nat))
    requires |t0| == 10 && w.0 < 10 && w.1 < 10 && w.2 < 10 && w.3 < 10
    requires KeyByte(t0, a, w) == KeyByte(t0, b, w)
    ensures a == b
  {
    ScrambleInjective(a, b, t0[w.0], t0[w.1], t0[w.2], t0[w.3]);
  }

  lemma SameFirstByte(t: Tables, rand: seq<byte>, i: nat, j: nat, a: byte, b: byte)
    returns (t0: seq<byte>, w: (nat, nat, nat, nat))
    requires |rand| == 10 && i < NUM_INDICES && j < NUM_INDICES
    requires KeyData(t, rand, i) == KeyData(t, rand, j) && a == ANS_TBL[i][0] && b == ANS_TBL[j][0]
    ensures |t0| == 10 && w.0 < 10 && w.1 < 10 && w.2 < 10 && w.3 < 10
    ensures KeyByte(t0, a, w) == KeyByte(t0, b, w)
  {
    t0, w := Substituted(t, rand), WIRING[0];
    KeyDataAt(t, rand, i, 0);
    KeyDataAt(t, rand, j, 0);
  }

  lemma FirstAnswersAgree(t: Tables, rand: seq<byte>, i: nat, j: nat, a: byte, b: byte)
    requires |rand| == 10 && i < NUM_INDICES && j < NUM_INDICES
    requires KeyData(t, rand, i) == KeyData(t, rand, j) && a == ANS_TBL[i][0] && b == ANS_TBL[j][0]
    ensures a == b
  {
    var t0, w := SameFirstByte(t, rand, i, j, a, b);
    KeyByteInjective(t0, a, b, w);
  }

  /** No two indices produce the same key bytes. */
  lemma KeyDataInjective(t: Tables, rand: seq<byte>, i: nat, j: nat)
    requires |rand| == 10 && i < NUM_INDICES && j < NUM_INDICES
    requires KeyData(t, rand, i) == KeyData(t, rand, j)
    ensures i == j
  {
    FirstAnswersAgree(t, rand, i, j, ANS_TBL[i][0], ANS_TBL[j][0]);
    AnswersDiffer(i, j);
  }

  // The 16 bytes of key data hold the random part and the key, each back to front.

  function RandPart(data: seq<byte>): (r: seq<byte>)
    requires |data| == 16
    ensures |r| == 10
  {
    Reverse(data[..10])
  }

  function KeyPart(data: seq<byte>): (k: seq<byte>)
    requires |data| == 16
    ensures |k| == 6
  {
    Reverse(data[10..])
  }

  /** Key data as a host makes it for an index. */
  function MakeKeyData(t: Tables, rand: seq<byte>, idx: nat): (data: seq<byte>)
    requires |rand| == 10 && idx < NUM_INDICES
    ensures |data| == 16
  {
    Reverse(rand) + Reverse(KeyData(t, rand, idx))
  }

  predicate Matches(t: Tables, data: seq<byte>, idx: nat)
    requires |data| == 16
  {
    idx < NUM_INDICES && KeyPart(data) == KeyData(t, RandPart(data), idx)
  }

  predicate MadeForSomeIndex(t: Tables, data: seq<byte>)
    requires |data| == 16
  {
    exists idx :: 0 <= idx < NUM_INDICES && Matches(t, data, idx)
  }

  lemma MatchesUnique(t: Tables, data: seq<byte>, i: nat, j: nat)
    requires |data| == 16 && Matches(t, data, i) && Matches(t, data, j)
    ensures i == j
  {
    KeyDataInjective(t, RandPart(data), i, j);
  }

  /** Key data matches an index exactly when it is the data a host makes for that index. */
  lemma MatchesIffMade(t: Tables, data: seq<byte>, idx: nat)
    requires |data| == 16 && idx < NUM_INDICES
    ensures Matches(t, data, idx) <==> exists rand: seq<byte> :: |rand| == 10 && data == MakeKeyData(t, rand, idx)
  {
    assert data == data[..10] + data[10..];
    ReverseTwice(data[..10]);
    ReverseTwice(data[10..]);
    if Matches(t, data, idx) {
      assert data == MakeKeyData(t, RandPart(data), idx);
    }
    forall rand: seq<byte> | |rand| == 10 && data == MakeKeyData(t, rand, idx) ensures Matches(t, data, idx) {
      MadeDataParts(t, rand, idx);
    }
  }

  lemma MadeDataParts(t: Tables, rand: seq<byte>, idx: nat)
    requires |rand| == 10 && idx < NUM_INDICES
    ensures RandPart(MakeKeyData(t, rand, idx)) == rand
    ensures KeyPart(MakeKeyData(t, rand, idx)) == KeyData(t, rand, idx)
  {
    var data := MakeKeyData(t, rand, idx);
    assert data[..10] == Reverse(rand) && data[10..] == Reverse(KeyData(t, rand, idx));
    ReverseTwice(rand);
    ReverseTwice(KeyData(t, rand, idx));
  }

  function Mix(a: SBox, b: SBox, x: byte, y: byte): byte {
    Xor(At(a, x), At(b, y))
  }

  /** generate_tables with the S-boxes of index idx and its successor. */
  function KeyFrom(t: Tables, rand: seq<byte>, key: seq<byte>, idx: nat): (k: Key)
    requires t.Valid() && |rand| == 10 && |key| == 6 && idx < NUM_INDICES
    ensures k.Valid()
  {
    var a, b := t.sboxes[idx], t.sboxes[idx + 1];
    Key([Mix(a, b, key[4], rand[3]), Mix(a, b, key[2], rand[5]), Mix(a, b, key[5], rand[7]),
         Mix(a, b, key[0], rand[2]), Mix(a, b, key[1], rand[4]), Mix(a, b, key[3], rand[9]),
         Mix(a, b, rand[0], rand[6]), Mix(a, b, rand[1], rand[8])],
        [Mix(a, b, key[0], rand[1]), Mix(a, b, key[5], rand[4]), Mix(a, b, key[3], rand[0]),
         Mix(a, b, key[2], rand[9]), Mix(a, b, key[4], rand[7]), Mix(a, b, key[1], rand[8]),
         Mix(a, b, rand[3], rand[5]), Mix(a, b, rand[2], rand[6])])
  }

  ghost function IndexOf(t: Tables, data: seq<byte>): (idx: nat)
    requires |data| == 16 && MadeForSomeIndex(t, data)
    ensures Matches(t, data, idx)
  {
    var idx :| 0 <= idx < NUM_INDICES && Matches(t, data, idx);
    idx
  }

  /** The key some key data stands for. */
  ghost function KeyOf(t: Tables, data: seq<byte>): (k: Key)
    requires t.Valid() && |data| == 16 && MadeForSomeIndex(t, data)
    ensures k.Valid()
  {
    KeyFrom(t, RandPart(data), KeyPart(data), IndexOf(t, data))
  }

  /** Key data made for index i is recognised as exactly that: the search inverts the making. */
  lemma SearchInvertsMaking(t: Tables, rand: seq<byte>, idx: nat)
    requires t.Valid() && |rand| == 10 && idx < NUM_INDICES
    ensures var data := MakeKeyData(t, rand, idx);
            && MadeForSomeIndex(t, data)
            && IndexOf(t, data) == idx
            && KeyOf(t, data) == KeyFrom(t, rand, KeyData(t, rand, idx), idx)
  {
    var data := MakeKeyData(t, rand, idx);
    MadeDataParts(t, rand, idx);
    assert Matches(t, data, idx);
    MatchesUnique(t, data, idx, IndexOf(t, data));
  }

  // What a host computes on its side, with the operators written out.

  /** The position of every byte in the sixteen the host writes. */
  lemma MadeBytes(t: Tables, rand: seq<byte>, idx: nat, k: nat)
    requires |rand| == 10 && idx < NUM_INDICES && k < 16
    ensures MakeKeyData(t, rand, idx)[k] == if k < 10 then rand[9 - k] else KeyData(t, rand, idx)[15 - k]
  {
    hide KeyData;
  }

  function Rol8(w: byte, shift: byte): byte {
    var s := shift % 8;
    (w << s) | (w >> (8 - s))
  }

  lemma RolUndoesRor(w: byte, shift: byte)
    ensures Rol8(Ror8(w, shift), shift) == w
  {
    var s := shift % 8;
    assert s == 0 || s == 1 || s == 2 || s == 3 || s == 4 || s == 5 || s == 6 || s == 7;
  }

  /** From a byte of key data back to the answer table entry. */
  function Unscramble(k: byte, y: byte, sub: byte, rot: byte, x: byte): byte {
    Xor(Rol8(Add(Xor(k, y), sub), rot), x)
  }

  lemma Unscrambled(answer: byte, x: byte, rot: byte, sub: byte, y: byte)
    ensures Unscramble(Scramble(answer, x, rot, sub, y), y, sub, rot, x) == answer
  {
    hide Ror8, Rol8, Xor, Sub, Add;
    var u := Ror8(Xor(answer, x), rot);
    XorTwice(Sub(u, sub), y);
    SubThenAdd(u, sub);
    RolUndoesRor(Xor(answer, x), rot);
    XorTwice(answer, x);
  }

  lemma ByOperators(a: byte, y: byte, sub: byte)
    ensures (a ^ y) + sub == Add(Xor(a, y), sub)
  {
  }

  lemma XorByOperator(a: byte, b: byte)
    ensures a ^ b == Xor(a, b)
  {
  }

  /** Key data byte by byte undone: every one gives back its entry of the answer table. */
  lemma KeyDataUndone(t: Tables, rand: seq<byte>, idx: nat)
    requires |rand| == 10 && idx < NUM_INDICES
    ensures var k, s := KeyData(t, rand, idx), seq(10, i requires 0 <= i < 10 => t.keygen[rand[i] as int]);
            && Unscramble(k[0], s[4], s[9], s[2], s[5]) == ANS_TBL[idx][0]
            && Unscramble(k[1], s[7], s[5], s[0], s[1]) == ANS_TBL[idx][1]
            && Unscramble(k[2], s[0], s[2], s[8], s[6]) == ANS_TBL[idx][2]
            && Unscramble(k[3], s[2], s[3], s[7], s[4]) == ANS_TBL[idx][3]
            && Unscramble(k[4], s[4], s[3], s[6], s[1]) == ANS_TBL[idx][4]
            && Unscramble(k[5], s[9], s[5], s[8], s[7]) == ANS_TBL[idx][5]
  {
    hide Scramble, Unscramble, KeyData;
    var s := seq(10, i requires 0 <= i < 10 => t.keygen[rand[i] as int]);
    assert s == Substituted(t, rand);
    var ans := ANS_TBL[idx];
    KeyDataBytes(t, rand, idx, s, ans);
    Unscrambled(ans[0], s[5], s[2], s[9], s[4]);
    Unscrambled(ans[1], s[1], s[0], s[5], s[7]);
    Unscrambled(ans[2], s[6], s[8], s[2], s[0]);
    Unscrambled(ans[3], s[4], s[7], s[3], s[2]);
    Unscrambled(ans[4], s[1], s[6], s[3], s[4]);
    Unscrambled(ans[5], s[7], s[8], s[5], s[9]);
  }

  /** The sixteen bytes of a key, over S-boxes idx and idx + 1, the six key bytes and the ten random
      bytes. */
  predicate HasParts(k: Key, t: Tables, rand: seq<byte>, key: seq<byte>, idx: nat)
    requires t.Valid() && k.Valid() && |rand| == 10 && |key| == 6 && idx < 7
  {
    HasFtParts(k, t, rand, key, idx) && HasSbParts(k, t, rand, key, idx)
  }

  predicate HasFtParts(k: Key, t: Tables, rand: seq<byte>, key: seq<byte>, idx: nat)
    requires t.Valid() && k.Valid() && |rand| == 10 && |key| == 6 && idx < 7
  {
    && k.ft[0] == Xor(t.sboxes[idx][key[4] as int], t.sboxes[idx + 1][rand[3] as int])
    && k.ft[1] == Xor(t.sboxes[idx][key[2] as int], t.sboxes[idx + 1][rand[5] as int])
    && k.ft[2] == Xor(t.sboxes[idx][key[5] as int], t.sboxes[idx + 1][rand[7] as int])
    && k.ft[3] == Xor(t.sboxes[idx][key[0] as int], t.sboxes[idx + 1][rand[2] as int])
    && k.ft[4] == Xor(t.sboxes[idx][key[1] as int], t.sboxes[idx + 1][rand[4] as int])
    && k.ft[5] == Xor(t.sboxes[idx][key[3] as int], t.sboxes[idx + 1][rand[9] as int])
    && k.ft[6] == Xor(t.sboxes[idx][rand[0] as int], t.sboxes[idx + 1][rand[6] as int])
    && k.ft[7] == Xor(t.sboxes[idx][rand[1] as int], t.sboxes[idx + 1][rand[8] as int])
  }

  predicate HasSbParts(k: Key, t: Tables, rand: seq<byte>, key: seq<byte>, idx: nat)
    requires t.Valid() && k.Valid() && |rand| == 10 && |key| == 6 && idx < 7
  {
    && k.sb[0] == Xor(t.sboxes[idx][key[0] as int], t.sboxes[idx + 1][rand[1] as int])
    && k.sb[1] == Xor(t.sboxes[idx][key[5] as int], t.sboxes[idx + 1][rand[4] as int])
    && k.sb[2] == Xor(t.sboxes[idx][key[3] as int], t.sboxes[idx + 1][rand[0] as int])
    && k.sb[3] == Xor(t.sboxes[idx][key[2] as int], t.sboxes[idx + 1][rand[9] as int])
    && k.sb[4] == Xor(t.sboxes[idx][key[4] as int], t.sboxes[idx + 1][rand[7] as int])
    && k.sb[5] == Xor(t.sboxes[idx][key[1] as int], t.sboxes[idx + 1][rand[8] as int])
    && k.sb[6] == Xor(t.sboxes[idx][rand[3] as int], t.sboxes[idx + 1][rand[5] as int])
    && k.sb[7] == Xor(t.sboxes[idx][rand[2] as int], t.sboxes[idx + 1][rand[6] as int])
  }

  lemma KeyFromParts(t: Tables, rand: seq<byte>, key: seq<byte>, idx: nat)
    requires t.Valid() && |rand| == 10 && |key| == 6 && idx < 7
    ensures HasParts(KeyFrom(t, rand, key, idx), t, rand, key, idx)
  {
    hide HasFtParts, HasSbParts, KeyFrom;
    FtParts(t, rand, key, idx);
    SbParts(t, rand, key, idx);
  }

  lemma FtParts(t: Tables, rand: seq<byte>, key: seq<byte>, idx: nat)
    requires t.Valid() && |rand| == 10 && |key| == 6 && idx < 7
    ensures HasFtParts(KeyFrom(t, rand, key, idx), t, rand, key, idx)
  {
    hide Xor;
  }

  lemma SbParts(t: Tables, rand: seq<byte>, key: seq<byte>, idx: nat)
    requires t.Valid() && |rand| == 10 && |key| == 6 && idx < 7
    ensures HasSbParts(KeyFrom(t, rand, key, idx), t, rand, key, idx)
  {
    hide Xor;
  }

  /** The key found for made key data is the one the host derives: for every random part and index,
      byte by byte. */
  lemma KeySelectsTables(t: Tables, rand: seq<byte>, idx: nat)
    requires t.Valid() && |rand| == 10 && idx < 7
    ensures var data := MakeKeyData(t, rand, idx);
            && MadeForSomeIndex(t, data)
            && HasParts(KeyOf(t, data), t, rand, KeyData(t, rand, idx), idx)
  {
    SearchInvertsMaking(t, rand, idx);
    KeyFromParts(t, rand, KeyData(t, rand, idx), idx);
  }

  /** Whoever made the data, with whatever random part and index, k has their sixteen bytes. */
  ghost predicate IsKeyOfMaker(t: Tables, data: seq<byte>, k: Key)
    requires t.Valid() && k.Valid()
  {
    forall rand: seq<byte>, i: nat :: |rand| == 10 && i < 7 && data == MakeKeyData(t, rand, i) ==>
      HasParts(k, t, rand, KeyData(t, rand, i), i)
  }

  lemma PartsOfMadeKey(t: Tables, data: seq<byte>)
    requires t.Valid() && |data| == 16 && MadeForSomeIndex(t, data)
    ensures IsKeyOfMaker(t, data, KeyOf(t, data))
  {
    hide HasParts, KeyData, MakeKeyData, KeyOf;
    forall rand: seq<byte>, i: nat | |rand| == 10 && i < 7 && data == MakeKeyData(t, rand, i)
      ensures HasParts(KeyOf(t, data), t, rand, KeyData(t, rand, i), i)
    {
      KeySelectsTables(t, rand, i);
    }
  }

  /** A host decrypts byte i of an encrypted block by xor and addition, under its own address. */
  lemma HostDecrypts(k: Key, addr: nat, data: seq<byte>, i: nat)
    requires k.Valid() && i < |data|
    ensures (Encrypt(k, addr, data)[i] ^ k.sb[(addr + i) % 8]) + k.ft[(addr + i) % 8] == data[i]
  {
    hide Xor, Sub, Add;
    var ft, sb := k.ft[(addr + i) % 8], k.sb[(addr + i) % 8];
    DecipherInvertsCipher(data[i], ft, sb);
    ByOperators(Encrypt(k, addr, data)[i], sb, ft);
  }

  // ---------------------------------------------------------------- the stream

  function Cipher(b: byte, ft: byte, sb: byte): byte { Xor(Sub(b, ft), sb) }

  function Decipher(b: byte, ft: byte, sb: byte): byte { Add(Xor(b, sb), ft) }

  lemma DecipherInvertsCipher(b: byte, ft: byte, sb: byte)
    ensures Decipher(Cipher(b, ft, sb), ft, sb) == b
  {
    XorTwice(Sub(b, ft), sb);
    SubThenAdd(b, ft);
  }

  function EncryptByte(k: Key, addr: nat, b: byte): byte
    requires k.Valid()
  {
    Cipher(b, k.ft[addr % 8], k.sb[addr % 8])
  }

  function DecryptByte(k: Key, addr: nat, b: byte): byte
    requires k.Valid()
  {
    Decipher(b, k.ft[addr % 8], k.sb[addr % 8])
  }

  /** Data encrypted as one block that starts at addr. */
  function Encrypt(k: Key, addr: nat, data: seq<byte>): (r: seq<byte>)
    requires k.Valid()
    ensures |r| == |data|
  {
    seq(|data|, i requires 0 <= i < |data| => EncryptByte(k, addr + i, data[i]))
  }

  function Decrypt(k: Key, addr: nat, data: seq<byte>): (r: seq<byte>)
    requires k.Valid()
    ensures |r| == |data|
  {
    seq(|data|, i requires 0 <= i < |data| => DecryptByte(k, addr + i, data[i]))
  }

  lemma DecryptInvertsEncrypt(k: Key, addr: nat, data: seq<byte>)
    requires k.Valid()
    ensures Decrypt(k, addr, Encrypt(k, addr, data)) == data
  {
    forall i | 0 <= i < |data| ensures Decrypt(k, addr, Encrypt(k, addr, data))[i] == data[i] {
      DecryptsAt(k, addr, data, i);
    }
  }

  lemma DecryptsAt(k: Key, addr: nat, data: seq<byte>, i: nat)
    requires k.Valid() && i < |data|
    ensures Decrypt(k, addr, Encrypt(k, addr, data))[i] == data[i]
  {
    DecipherInvertsCipher(data[i], k.ft[(addr + i) % 8], k.sb[(addr + i) % 8]);
  }

  /** The cipher is keyed by address, so blocks may be encrypted piece by piece. */
  lemma EncryptInPieces(k: Key, addr: nat, a: seq<byte>, b: seq<byte>)
    requires k.Valid()
    ensures Encrypt(k, addr, a + b) == Encrypt(k, addr, a) + Encrypt(k, addr + |a|, b)
  {
    forall i | |a| <= i < |a| + |b|
      ensures Encrypt(k, addr, a + b)[i] == Encrypt(k, addr + |a|, b)[i - |a|]
    {
      assert addr + i == addr + |a| + (i - |a|);
    }
  }

  // ---------------------------------------------------------------- the code

  method GenerateKeyData(t: Tables, key: array<byte>, rand: array<byte>, idx: nat)
    requires key.Length == 6 && rand.Length == 10 && key != rand && idx < NUM_INDICES
    modifies key
    ensures key[..] == KeyData(t, rand[..], idx)
  {
    hide Scramble, KeyByte, KeyData, Substituted;
    var t0 := Substitute(t, rand);
    KeyDataBytes(t, rand[..], idx, t0[..], ANS_TBL[idx]);
    ScrambleKey(key, t0, ANS_TBL[idx]);
  }

  /** The substitution loop. */
  method Substitute(t: Tables, rand: array<byte>) returns (t0: array<byte>)
    ensures fresh(t0) && t0[..] == Substituted(t, rand[..])
  {
    hide At;
    t0 := new byte[rand.Length];
    for i := 0 to t0.Length
      invariant forall k :: 0 <= k < i ==> t0[k] == At(t.keygen, rand[k])
    {
      t0[i] := At(t.keygen, rand[i]);
    }
  }

  method ScrambleKey(key: array<byte>, t0: array<byte>, ans: seq<byte>)
    requires key.Length == 6 && t0.Length == 10 && key != t0 && |ans| == 6
    modifies key
    ensures key[..] ==
            [Scramble(ans[0], t0[5], t0[2], t0[9], t0[4]), Scramble(ans[1], t0[1], t0[0], t0[5], t0[7]),
             Scramble(ans[2], t0[6], t0[8], t0[2], t0[0]), Scramble(ans[3], t0[4], t0[7], t0[3], t0[2]),
             Scramble(ans[4], t0[1], t0[6], t0[3], t0[4]), Scramble(ans[5], t0[7], t0[8], t0[5], t0[9])]
  {
    hide Scramble;
    key[0] := Scramble(ans[0], t0[5], t0[2], t0[9], t0[4]);
    key[1] := Scramble(ans[1], t0[1], t0[0], t0[5], t0[7]);
    key[2] := Scramble(ans[2], t0[6], t0[8], t0[2], t0[0]);
    key[3] := Scramble(ans[3], t0[4], t0[7], t0[3], t0[2]);
    key[4] := Scramble(ans[4], t0[1], t0[6], t0[3], t0[4]);
    key[5] := Scramble(ans[5], t0[7], t0[8], t0[5], t0[9]);
  }

  /** The search loop and generate_tables. Key data made for no index would run past the tables. */
  method GenerateKey(t: Tables, data: seq<byte>) returns (k: Key)
    requires t.Valid() && |data| == 16 && MadeForSomeIndex(t, data)
    ensures k == KeyOf(t, data)
    ensures k.Valid() && IsKeyOfMaker(t, data, k)
  {
    hide IsKeyOfMaker, KeyFrom, KeyData, MakeKeyData;
    PartsOfMadeKey(t, data);
    var rand, key, check := new byte[10], new byte[6], new byte[6];
    ReverseInto(rand, data[..10]);
    ReverseInto(key, data[10..]);
    ghost var found := IndexOf(t, data);
    var idx := 0;
    while idx != NUM_INDICES
      invariant 0 <= idx <= found
      invariant rand[..] == RandPart(data) && key[..] == KeyPart(data)
      decreases NUM_INDICES - idx
    {
      GenerateKeyData(t, check, rand, idx);
      if key[..] == check[..] {
        break;
      }
      idx := idx + 1;
    }
    MatchesUnique(t, data, idx, found);
    k := KeyFrom(t, rand[..], key[..], idx);
  }

  /** reverse_memcpy */
  method ReverseInto(dst: array<byte>, src: seq<byte>)
    requires dst.Length == |src|
    modifies dst
    ensures dst[..] == Reverse(src)
  {
    for i := 0 to dst.Length
      invariant forall k :: 0 <= k < i ==> dst[k] == src[|src| - 1 - k]
    {
      dst[i] := src[|src| - 1 - i];
    }
  }

  method EncryptInPlace(data: array<byte>, k: Key, addr: nat, size: nat)
    requires k.Valid() && size <= data.Length
    modifies data
    ensures data[..] == Encrypt(k, addr, old(data[..size])) + old(data[size..])
  {
    var a := addr;
    for i := 0 to size
      invariant a == addr + i
      invariant forall j :: 0 <= j < data.Length ==>
                  data[j] == if j < i then EncryptByte(k, addr + j, old(data[j])) else old(data[j])
    {
      data[i] := EncryptByte(k, a, data[i]);
      a := a + 1;
    }
    assert data[..] == Encrypt(k, addr, old(data[..size])) + old(data[size..]);
  }
}
