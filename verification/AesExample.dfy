/** `aes_decrypt_block` as written on an input that it can be given: the AES-128 key of
    sixteen zero bytes, and the block of zero bytes. All values are worked out round by
    round. */
module AesExample {
  import opened AesColumns
  import opened AesTables
  import opened AesCipher
  import opened AesBlocks
  import opened AesKeys
  import opened AesCbc

  /** A state, as its sixteen bytes in a row. */
  function Hex(x: bv128): State {
    State(Column(ByteOfRow(x, 0), ByteOfRow(x, 1), ByteOfRow(x, 2), ByteOfRow(x, 3)),
          Column(ByteOfRow(x, 4), ByteOfRow(x, 5), ByteOfRow(x, 6), ByteOfRow(x, 7)),
          Column(ByteOfRow(x, 8), ByteOfRow(x, 9), ByteOfRow(x, 10), ByteOfRow(x, 11)),
          Column(ByteOfRow(x, 12), ByteOfRow(x, 13), ByteOfRow(x, 14), ByteOfRow(x, 15)))
  }

  /** The round keys of the zero key. */
  const K0 := Hex(0x00000000000000000000000000000000)
  const K1 := Hex(0x62636363626363636263636362636363)
  const K2 := Hex(0x9b9898c9f9fbfbaa9b9898c9f9fbfbaa)
  const K3 := Hex(0x90973450696ccffaf2f457330b0fac99)
  const K4 := Hex(0xee06da7b876a1581759e42b27e91ee2b)
  const K5 := Hex(0x7f2e2b88f8443e098dda7cbbf34b9290)
  const K6 := Hex(0xec614b851425758c99ff09376ab49ba7)
  const K7 := Hex(0x217517873550620bacaf6b3cc61bf09b)
  const K8 := Hex(0x0ef903333ba9613897060a04511dfa9f)
  const K9 := Hex(0xb1d4d8e28a7db9da1d7bb3de4c664941)
  const K10 := Hex(0xb4ef5bcb3e92e21123e951cf6f8f188e)

  /** The states of the rounds of encryption, and the ciphertext. */
  const S0 := Hex(0x00000000000000000000000000000000)
  const S1 := Hex(0x01000000010000000100000001000000)
  const S2 := Hex(0xc6e4e48ba48787e8c6e4e48ba48787e8)
  const S3 := Hex(0x282df3c46af386254a4e90a70890e546)
  const S4 := Hex(0xabd2cdfe375ab54950a0afc0759a6a5f)
  const S5 := Hex(0xd46f4f6c55b896337e05bb3d7979de23)
  const S6 := Hex(0x04f2ca9707782845e22f019649c5d710)
  const S7 := Hex(0xb7aae4c51d252d4f6c920f8194e58150)
  const S8 := Hex(0x23e78c3c132163dbaac0c6572e03cb95)
  const S9 := Hex(0x7ffe0e9551a566350e347c472929eccb)
  const U1 := Hex(0x63636363636363636363636363636363)
  const U2 := Hex(0x7c6363637c6363637c6363637c636363)
  const U3 := Hex(0xb417699b4969173db417699b4969173d)
  const U4 := Hex(0x340d605a022fd91cd6600d3f30d8445c)
  const U5 := Hex(0x62be79cf9ae002bb53b8bd3b9db5d5ba)
  const U6 := Hex(0x486cea26fc6b1d50f3b684c3b6a89027)
  const U7 := Hex(0xf2bc7ccac5150e8898a6746e3b893490)
  const U8 := Hex(0xa93f7653a44f0ca650d9698422acd80c)
  const U9 := Hex(0x26fdb42a7dba1febac7b64b93194fb5b)
  const CIPHERTEXT := Hex(0x66e94bd4ef8a2c3b884cfa59ca342b2e)

  /** The states of the rounds of decryption as written, and what it makes of the ciphertext. */
  const B10 := Hex(0xd206101fd118ce2aaba5ab96a5bb33a0)
  const B9 := Hex(0xbc7d6db2694106ad0736c5a4f7cb9185)
  const B8 := Hex(0x32b6cfc2a77a31e87f29e183b60beca6)
  const B7 := Hex(0x1c3b2acff7823aa4915be8e212a90b98)
  const B6 := Hex(0x63679cf12439aea39cb321f20138069a)
  const B5 := Hex(0xea169b7bae65ae3905a5b0b10709074c)
  const B4 := Hex(0x0bf1421057b032532085821cca93080d)
  const B3 := Hex(0xd59544989715ac8910331b1a7b2625cc)
  const B2 := Hex(0x6c9cd39e114b5b908274ca4b9e3e8ff2)
  const B1 := Hex(0x27e7bc4d5e799b82fc2b394bb5235b41)
  const V9 := Hex(0x7ffe0e9551a566350e347c472929eccb)
  const V8 := Hex(0x78590718e413ac1d38f8b3672624a53e)
  const V7 := Hex(0xa19ee0c8897983416bbd5fc5794c2ea8)
  const V6 := Hex(0xc4b7c81d26499e3bac1195e23957a25f)
  const V5 := Hex(0x00767b71a60aa5041c5b1c37094bbe2b)
  const V4 := Hex(0xbb40fc5bbeff385636bce85d3829be03)
  const V3 := Hex(0x9e221150da2bbfc454fcf6f31067a17c)
  const V2 := Hex(0xb52344f285adc2437c2f86270366aae2)
  const V1 := Hex(0xb8d11096e31c73cc11cca904dfca57df)
  const DECRYPTED := Hex(0x3d325b119db057cc55af78f8d20be865)

  /** Four words of the schedule from the four before. */
  function NextKey(k: State, r: nat): State
    requires 1 <= r <= 10
  {
    var p := Plus(k.p, Plus(SubColumn(RotWord(k.s)), Column(RCON[r - 1], 0, 0, 0)));
    var q := Plus(k.q, p);
    var r := Plus(k.r, q);
    State(p, q, r, Plus(k.s, r))
  }

  lemma Key1()
    ensures NextKey(K0, 1) == K1
  {
  }

  lemma Key2()
    ensures NextKey(K1, 2) == K2
  {
  }

  lemma Key3()
    ensures NextKey(K2, 3) == K3
  {
  }

  lemma Key4()
    ensures NextKey(K3, 4) == K4
  {
  }

  lemma Key5()
    ensures NextKey(K4, 5) == K5
  {
  }

  lemma Key6()
    ensures NextKey(K5, 6) == K6
  {
  }

  lemma Key7()
    ensures NextKey(K6, 7) == K7
  {
  }

  lemma Key8()
    ensures NextKey(K7, 8) == K8
  {
  }

  lemma Key9()
    ensures NextKey(K8, 9) == K9
  {
  }

  lemma Key10()
    ensures NextKey(K9, 10) == K10
  {
  }

  lemma Substitute1()
    ensures Substitute(S0) == U1
  {
  }

  lemma Mix1()
    ensures AddRoundKey(OnColumns(MixColumn, U1), K1) == S1
  {
  }

  lemma Substitute2()
    ensures Substitute(S1) == U2
  {
  }

  lemma Mix2()
    ensures AddRoundKey(OnColumns(MixColumn, U2), K2) == S2
  {
  }

  lemma Substitute3()
    ensures Substitute(S2) == U3
  {
  }

  lemma Mix3()
    ensures AddRoundKey(OnColumns(MixColumn, U3), K3) == S3
  {
  }

  lemma Substitute4()
    ensures Substitute(S3) == U4
  {
  }

  lemma Mix4()
    ensures AddRoundKey(OnColumns(MixColumn, U4), K4) == S4
  {
  }

  lemma Substitute5()
    ensures Substitute(S4) == U5
  {
  }

  lemma Mix5()
    ensures AddRoundKey(OnColumns(MixColumn, U5), K5) == S5
  {
  }

  lemma Substitute6()
    ensures Substitute(S5) == U6
  {
  }

  lemma Mix6()
    ensures AddRoundKey(OnColumns(MixColumn, U6), K6) == S6
  {
  }

  lemma Substitute7()
    ensures Substitute(S6) == U7
  {
  }

  lemma Mix7()
    ensures AddRoundKey(OnColumns(MixColumn, U7), K7) == S7
  {
  }

  lemma Substitute8()
    ensures Substitute(S7) == U8
  {
  }

  lemma Mix8()
    ensures AddRoundKey(OnColumns(MixColumn, U8), K8) == S8
  {
  }

  lemma Substitute9()
    ensures Substitute(S8) == U9
  {
  }

  lemma Mix9()
    ensures AddRoundKey(OnColumns(MixColumn, U9), K9) == S9
  {
  }

  lemma Round10()
    ensures AddRoundKey(Substitute(S9), K10) == CIPHERTEXT
  {
  }

  lemma Unround10()
    ensures AddRoundKey(CIPHERTEXT, K10) == B10
  {
  }

  lemma Unsubstitute9()
    ensures Unsubstitute(B10) == V9
  {
  }

  lemma Unmix9()
    ensures OnColumns(InvMixColumnAsWritten, AddRoundKey(V9, K9)) == B9
  {
  }

  lemma Unsubstitute8()
    ensures Unsubstitute(B9) == V8
  {
  }

  lemma Unmix8()
    ensures OnColumns(InvMixColumnAsWritten, AddRoundKey(V8, K8)) == B8
  {
  }

  lemma Unsubstitute7()
    ensures Unsubstitute(B8) == V7
  {
  }

  lemma Unmix7()
    ensures OnColumns(InvMixColumnAsWritten, AddRoundKey(V7, K7)) == B7
  {
  }

  lemma Unsubstitute6()
    ensures Unsubstitute(B7) == V6
  {
  }

  lemma Unmix6()
    ensures OnColumns(InvMixColumnAsWritten, AddRoundKey(V6, K6)) == B6
  {
  }

  lemma Unsubstitute5()
    ensures Unsubstitute(B6) == V5
  {
  }

  lemma Unmix5()
    ensures OnColumns(InvMixColumnAsWritten, AddRoundKey(V5, K5)) == B5
  {
  }

  lemma Unsubstitute4()
    ensures Unsubstitute(B5) == V4
  {
  }

  lemma Unmix4()
    ensures OnColumns(InvMixColumnAsWritten, AddRoundKey(V4, K4)) == B4
  {
  }

  lemma Unsubstitute3()
    ensures Unsubstitute(B4) == V3
  {
  }

  lemma Unmix3()
    ensures OnColumns(InvMixColumnAsWritten, AddRoundKey(V3, K3)) == B3
  {
  }

  lemma Unsubstitute2()
    ensures Unsubstitute(B3) == V2
  {
  }

  lemma Unmix2()
    ensures OnColumns(InvMixColumnAsWritten, AddRoundKey(V2, K2)) == B2
  {
  }

  lemma Unsubstitute1()
    ensures Unsubstitute(B2) == V1
  {
  }

  lemma Unmix1()
    ensures OnColumns(InvMixColumnAsWritten, AddRoundKey(V1, K1)) == B1
  {
  }

  lemma Unround0()
    ensures AddRoundKey(Unsubstitute(B1), K0) == DECRYPTED
  {
  }

  const ZERO_KEY: seq<bv8> := [0, 0, 0, 0, 0, 0, 0, 0, 0, 0, 0, 0, 0, 0, 0, 0]

  lemma KeyIsWords(w: seq<bv8>, r: nat)
    requires 176 <= |w| && r <= 10
    ensures KeysOf(w, 10)[r] ==
      State(WordAt(w, 4 * r), WordAt(w, 4 * r + 1), WordAt(w, 4 * r + 2), WordAt(w, 4 * r + 3))
  {
  }

  lemma FirstWord(key: seq<bv8>, r: nat, i: nat)
    requires |key| == 16 && 1 <= r <= 10 && i == 4 * r
    ensures ScheduleWord(Aes128, key, i) == Plus(ScheduleWord(Aes128, key, i - 4),
      Plus(SubColumn(RotWord(ScheduleWord(Aes128, key, i - 1))), Column(RCON[r - 1], 0, 0, 0)))
  {
    hide Plus, SubColumn, RotWord, PowerOfX;
    RconArePowers(r - 1);
  }

  lemma OtherWord(key: seq<bv8>, r: nat, i: nat)
    requires |key| == 16 && 1 <= r <= 10 && 4 * r < i < 4 * r + 4
    ensures ScheduleWord(Aes128, key, i) == Plus(ScheduleWord(Aes128, key, i - 4), ScheduleWord(Aes128, key, i - 1))
  {
    hide Plus, SubColumn, RotWord, PowerOfX;
  }

  lemma ScheduledKey(key: seq<bv8>, w: seq<bv8>, r: nat, i: nat)
    requires |key| == 16 && IsSchedule(Aes128, key, w, 44) && r <= 10 && i == 4 * r
    ensures var k := KeysOf(w, 10)[r];
      && k.p == ScheduleWord(Aes128, key, i) && k.q == ScheduleWord(Aes128, key, i + 1)
      && k.r == ScheduleWord(Aes128, key, i + 2) && k.s == ScheduleWord(Aes128, key, i + 3)
  {
    hide ScheduleWord, KeysOf, WordAt;
    KeyIsWords(w, r);
  }

  /** In a schedule for AES-128 each round key follows from the one before. */
  lemma NextKeyOf(key: seq<bv8>, w: seq<bv8>, r: nat)
    requires |key| == 16 && IsSchedule(Aes128, key, w, 44) && 1 <= r <= 10
    ensures KeysOf(w, 10)[r] == NextKey(KeysOf(w, 10)[r - 1], r)
  {
    hide Plus, SubColumn, RotWord, KeysOf, WordAt, ScheduleWord, IsSchedule;
    var i := 4 * r;
    ScheduledKey(key, w, r - 1, i - 4);
    ScheduledKey(key, w, r, i);
    FirstWord(key, r, i);
    OtherWord(key, r, i + 1);
    OtherWord(key, r, i + 2);
    OtherWord(key, r, i + 3);
  }

  ghost predicate AreZeroKeys(keys: seq<State>) {
    && |keys| == 11 && keys[0] == K0 && keys[1] == K1 && keys[2] == K2 && keys[3] == K3 && keys[4] == K4
    && keys[5] == K5 && keys[6] == K6 && keys[7] == K7 && keys[8] == K8 && keys[9] == K9 && keys[10] == K10
  }

  lemma ZeroKeyFirst(w: seq<bv8>)
    requires IsSchedule(Aes128, ZERO_KEY, w, 44)
    ensures KeysOf(w, 10)[0] == K0
  {
    KeyIsWords(w, 0);
    hide KeysOf;
    assert forall i: nat | i < 4 :: WordAt(w, i) == ScheduleWord(Aes128, ZERO_KEY, i) == ZERO;
  }

  lemma ZeroKeys(w: seq<bv8>)
    requires IsSchedule(Aes128, ZERO_KEY, w, 44)
    ensures AreZeroKeys(KeysOf(w, 10))
  {
    ZeroKeyFirst(w);
    hide Hex, NextKey, KeysOf, IsSchedule;
    var keys := KeysOf(w, 10);
    forall r | 1 <= r <= 10
      ensures keys[r] == NextKey(keys[r - 1], r)
    {
      NextKeyOf(ZERO_KEY, w, r);
    }
    KeysToFive(keys);
    KeysFromFive(keys);
  }

  lemma KeysToFive(keys: seq<State>)
    requires |keys| == 11 && keys[0] == K0 && forall r | 1 <= r <= 5 :: keys[r] == NextKey(keys[r - 1], r)
    ensures keys[1] == K1 && keys[2] == K2 && keys[3] == K3 && keys[4] == K4 && keys[5] == K5
  {
    hide Hex, NextKey;
    Key1();
    Key2();
    Key3();
    Key4();
    Key5();
  }

  lemma KeysFromFive(keys: seq<State>)
    requires |keys| == 11 && keys[5] == K5 && forall r | 6 <= r <= 10 :: keys[r] == NextKey(keys[r - 1], r)
    ensures keys[6] == K6 && keys[7] == K7 && keys[8] == K8 && keys[9] == K9 && keys[10] == K10
  {
    hide Hex, NextKey;
    Key6();
    Key7();
    Key8();
    Key9();
    Key10();
  }

  lemma AfterIs(keys: seq<State>, x: State, r: nat)
    requires 1 <= r < |keys|
    ensures AES_AS_WRITTEN.After(keys, x, r) ==
      AddRoundKey(OnColumns(MixColumn, Substitute(AES_AS_WRITTEN.After(keys, x, r - 1))), keys[r])
  {
  }

  lemma BackIs(keys: seq<State>, y: State, r: nat)
    requires 1 <= r < |keys| - 1
    ensures AES_AS_WRITTEN.Back(keys, y, r) ==
      OnColumns(InvMixColumnAsWritten, AddRoundKey(Unsubstitute(AES_AS_WRITTEN.Back(keys, y, r + 1)), keys[r]))
  {
  }

  lemma FirstState()
    ensures AddRoundKey(ZERO_STATE, K0) == S0
  {
  }

  lemma ZeroKeyEncrypts(keys: seq<State>)
    requires AreZeroKeys(keys)
    ensures AES_AS_WRITTEN.Encrypt(keys, ZERO_STATE) == CIPHERTEXT
  {
    hide Hex, AddRoundKey, OnColumns, Substitute;
    FirstState();
    AfterIs(keys, ZERO_STATE, 1);
    Substitute1();
    Mix1();
    AfterIs(keys, ZERO_STATE, 2);
    Substitute2();
    Mix2();
    AfterIs(keys, ZERO_STATE, 3);
    Substitute3();
    Mix3();
    AfterIs(keys, ZERO_STATE, 4);
    Substitute4();
    Mix4();
    AfterIs(keys, ZERO_STATE, 5);
    Substitute5();
    Mix5();
    AfterIs(keys, ZERO_STATE, 6);
    Substitute6();
    Mix6();
    AfterIs(keys, ZERO_STATE, 7);
    Substitute7();
    Mix7();
    AfterIs(keys, ZERO_STATE, 8);
    Substitute8();
    Mix8();
    AfterIs(keys, ZERO_STATE, 9);
    Substitute9();
    Mix9();
    Round10();
  }

  lemma ZeroKeyDecrypts(keys: seq<State>)
    requires AreZeroKeys(keys)
    ensures AES_AS_WRITTEN.Decrypt(keys, CIPHERTEXT) == DECRYPTED
  {
    hide Hex, AddRoundKey, OnColumns, Unsubstitute;
    Unround10();
    BackIs(keys, CIPHERTEXT, 9);
    Unsubstitute9();
    Unmix9();
    BackIs(keys, CIPHERTEXT, 8);
    Unsubstitute8();
    Unmix8();
    BackIs(keys, CIPHERTEXT, 7);
    Unsubstitute7();
    Unmix7();
    BackIs(keys, CIPHERTEXT, 6);
    Unsubstitute6();
    Unmix6();
    BackIs(keys, CIPHERTEXT, 5);
    Unsubstitute5();
    Unmix5();
    BackIs(keys, CIPHERTEXT, 4);
    Unsubstitute4();
    Unmix4();
    BackIs(keys, CIPHERTEXT, 3);
    Unsubstitute3();
    Unmix3();
    BackIs(keys, CIPHERTEXT, 2);
    Unsubstitute2();
    Unmix2();
    BackIs(keys, CIPHERTEXT, 1);
    Unsubstitute1();
    Unmix1();
    Unround0();
  }

  /** With the key schedule that `aes_init` makes for the zero key of AES-128, the zero block
      becomes CIPHERTEXT, as Cipher of FIPS 197 makes it, and decryption as written makes another
      block of it. */
  lemma ScheduledDecryptionLosesABlock(w: seq<bv8>)
    requires IsSchedule(Aes128, ZERO_KEY, w, 4 * (Aes128.Rounds() + 1))
    ensures AES_AS_WRITTEN.Encrypt(KeysOf(w, Aes128.Rounds()), ZERO_STATE) == CIPHERTEXT
    ensures AES_AS_WRITTEN.Decrypt(KeysOf(w, Aes128.Rounds()), CIPHERTEXT) == DECRYPTED != ZERO_STATE
  {
    ZeroKeys(w);
    ZeroKeyEncrypts(KeysOf(w, 10));
    ZeroKeyDecrypts(KeysOf(w, 10));
    assert DECRYPTED.p.a == 0x3d;
  }

  const ZERO_BYTES: Block := [0, 0, 0, 0, 0, 0, 0, 0, 0, 0, 0, 0, 0, 0, 0, 0]

  const CIPHER_BYTES: Block :=
    [0x66, 0xe9, 0x4b, 0xd4, 0xef, 0x8a, 0x2c, 0x3b, 0x88, 0x4c, 0xfa, 0x59, 0xca, 0x34, 0x2b, 0x2e]

  const DECRYPTED_BYTES: Block :=
    [0x3d, 0x32, 0x5b, 0x11, 0x9d, 0xb0, 0x57, 0xcc, 0x55, 0xaf, 0x78, 0xf8, 0xd2, 0x0b, 0xe8, 0x65]

  lemma CipherBytes()
    ensures Store(CIPHERTEXT) == CIPHER_BYTES && Store(ZERO_STATE) == ZERO_BYTES
  {
  }

  lemma DecryptedBytes()
    ensures Store(DECRYPTED) == DECRYPTED_BYTES
  {
  }

  /** The same on bytes: what `aes_encrypt_block` and `aes_decrypt_block` write. */
  lemma ZeroBlockInBytes(w: seq<bv8>)
    requires IsSchedule(Aes128, ZERO_KEY, w, 4 * (Aes128.Rounds() + 1))
    ensures var keys := KeysOf(w, Aes128.Rounds());
      EncryptBytes(keys, ZERO_BYTES) == CIPHER_BYTES && DecryptBytes(keys, CIPHER_BYTES) == DECRYPTED_BYTES
  {
    hide Load, Store, LayersWith, Hex;
    ScheduledDecryptionLosesABlock(w);
    CipherBytes();
    DecryptedBytes();
    LoadStore(ZERO_STATE);
    LoadStore(CIPHERTEXT);
  }

  /** With the zero IV, CBC of this one block is the same. */
  lemma ZeroBlockInCbc(w: seq<bv8>)
    requires IsSchedule(Aes128, ZERO_KEY, w, 4 * (Aes128.Rounds() + 1))
    ensures CbcEncrypt(Encryptor(KeysOf(w, Aes128.Rounds())), ZERO_BYTES, ZERO_BYTES) == CIPHER_BYTES
    ensures CbcDecrypt(Decryptor(KeysOf(w, Aes128.Rounds())), ZERO_BYTES, CIPHER_BYTES) == DECRYPTED_BYTES
  {
    hide EncryptBytes, DecryptBytes, KeysOf, CbcEncrypt, CbcDecrypt, Encryptor, Decryptor;
    ZeroBlockInBytes(w);
    EncryptorIs(KeysOf(w, Aes128.Rounds()), ZERO_BYTES);
    DecryptorIs(KeysOf(w, Aes128.Rounds()), CIPHER_BYTES);
    CbcOfZero(Encryptor(KeysOf(w, Aes128.Rounds())));
    CbcWithoutIv(Decryptor(KeysOf(w, Aes128.Rounds())), CIPHER_BYTES);
  }

  lemma CbcOfZero(e: Block -> Block)
    ensures CbcEncrypt(e, ZERO_BYTES, ZERO_BYTES) == e(ZERO_BYTES)
  {
    hide CbcEncrypt, XorBlocks;
    CbcOfOneBlock(e, ZERO_BYTES, ZERO_BYTES);
    XorBlocksIs(ZERO_BYTES, ZERO_BYTES);
    ZeroBytesAre();
  }

  lemma CbcWithoutIv(d: Block -> Block, b: Block)
    ensures CbcDecrypt(d, ZERO_BYTES, b) == d(b)
  {
    hide CbcDecrypt, XorBlocks;
    CbcDecryptOfOneBlock(d, ZERO_BYTES, b);
    XorBlocksIs(d(b), ZERO_BYTES);
    XorZero(d(b));
  }

  lemma XorZero(b: Block)
    ensures forall i | 0 <= i < 16 :: b[i] ^ ZERO_BYTES[i] == b[i]
  {
    assert forall i | 0 <= i < 16 :: ZERO_BYTES[i] == 0;
  }

  lemma DecryptorIs(keys: seq<State>, b: Block)
    requires 2 <= |keys|
    ensures Decryptor(keys)(b) == DecryptBytes(keys, b)
  {
    hide DecryptBytes;
  }

  lemma EncryptorIs(keys: seq<State>, b: Block)
    requires 2 <= |keys|
    ensures Encryptor(keys)(b) == EncryptBytes(keys, b)
  {
    hide EncryptBytes;
  }

  lemma ZeroBytesAre()
    ensures ZERO_BYTES == seq(BLOCK_SIZE, _ => 0)
  {
  }
}
