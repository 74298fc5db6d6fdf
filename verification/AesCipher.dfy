/** The transformations of the AES state (FIPS 197, sections 5.1 and 5.3), and what the
    column mixing of aes.c means for decryption. */
module AesCipher {
  import opened AesField
  import opened AesColumns
  import opened AesRounds
  import opened AesTables

  /** The state as its four columns. */
  datatype State = State(p: Column, q: Column, r: Column, s: Column)

  const ZERO_STATE := State(ZERO, ZERO, ZERO, ZERO)

  function SubColumn(c: Column): Column {
    Column(Sbox(c.a), Sbox(c.b), Sbox(c.c), Sbox(c.d))
  }

  function SubBytes(s: State): State {
    State(SubColumn(s.p), SubColumn(s.q), SubColumn(s.r), SubColumn(s.s))
  }

  function InvSubColumn(c: Column): Column {
    Column(Rsbox(c.a), Rsbox(c.b), Rsbox(c.c), Rsbox(c.d))
  }

  function InvSubBytes(s: State): State {
    State(InvSubColumn(s.p), InvSubColumn(s.q), InvSubColumn(s.r), InvSubColumn(s.s))
  }

  /** Rows a, b, c and d move 0, 1, 2 and 3 columns to the left. */
  function ShiftRows(s: State): State {
    State(Column(s.p.a, s.q.b, s.r.c, s.s.d), Column(s.q.a, s.r.b, s.s.c, s.p.d),
          Column(s.r.a, s.s.b, s.p.c, s.q.d), Column(s.s.a, s.p.b, s.q.c, s.r.d))
  }

  function InvShiftRows(s: State): State {
    State(Column(s.p.a, s.s.b, s.r.c, s.q.d), Column(s.q.a, s.p.b, s.s.c, s.r.d),
          Column(s.r.a, s.q.b, s.p.c, s.s.d), Column(s.s.a, s.r.b, s.q.c, s.p.d))
  }

  function AddRoundKey(s: State, k: State): State {
    State(Plus(s.p, k.p), Plus(s.q, k.q), Plus(s.r, k.r), Plus(s.s, k.s))
  }

  /** f, applied to each column. */
  function OnColumns(f: Column -> Column, s: State): State {
    State(f(s.p), f(s.q), f(s.r), f(s.s))
  }

  /** InvMixColumns on one column (FIPS 197, section 5.3.3). */
  function InvMixColumn(c: Column): Column {
    Circulant(INV_MIX, c)
  }

  function Substitute(s: State): State {
    ShiftRows(SubBytes(s))
  }

  function Unsubstitute(s: State): State {
    InvSubBytes(InvShiftRows(s))
  }

  /** The layers of Cipher and InvCipher, undoing the mixing of a column with unmix. */
  function LayersWith(unmix: Column -> Column): Layers<State> {
    Layers(Substitute, Unsubstitute, s => OnColumns(MixColumn, s), s => OnColumns(unmix, s), AddRoundKey)
  }

  /** The cipher of FIPS 197. */
  const AES := LayersWith(InvMixColumn)

  /** The cipher of aes.c, whose `inv_mix_columns` is another matrix. */
  const AES_AS_WRITTEN := LayersWith(InvMixColumnAsWritten)

  // Each layer is undone

  lemma SubColumnInverse(c: Column)
    ensures InvSubColumn(SubColumn(c)) == c && SubColumn(InvSubColumn(c)) == c
  {
    SboxesAreInverse(c.a);
    SboxesAreInverse(c.b);
    SboxesAreInverse(c.c);
    SboxesAreInverse(c.d);
  }

  lemma SubstituteInverse(s: State)
    ensures Unsubstitute(Substitute(s)) == s
  {
    SubColumnInverse(s.p);
    SubColumnInverse(s.q);
    SubColumnInverse(s.r);
    SubColumnInverse(s.s);
  }

  lemma PlusInverse(c: Column, k: Column)
    ensures Plus(Plus(c, k), k) == c
  {
    CancelPair(c.a, k.a);
    CancelPair(c.b, k.b);
    CancelPair(c.c, k.c);
    CancelPair(c.d, k.d);
  }

  lemma AddRoundKeyInverse(s: State, k: State)
    ensures AddRoundKey(AddRoundKey(s, k), k) == s
  {
    PlusInverse(s.p, k.p);
    PlusInverse(s.q, k.q);
    PlusInverse(s.r, k.r);
    PlusInverse(s.s, k.s);
  }

  lemma Peeling(unmix: Column -> Column, keys: seq<State>)
    ensures LayersWith(unmix).Peels(keys)
  {
    forall s: State
      ensures Unsubstitute(Substitute(s)) == s
    {
      SubstituteInverse(s);
    }
    forall s: State, k: State | k in keys
      ensures AddRoundKey(AddRoundKey(s, k), k) == s
    {
      AddRoundKeyInverse(s, k);
    }
  }

  /** InvCipher undoes Cipher, for all round keys and every block. */
  lemma InvCipherUndoesCipher(keys: seq<State>, x: State)
    requires 2 <= |keys|
    ensures AES.Decrypt(keys, AES.Encrypt(keys, x)) == x
  {
    Peeling(InvMixColumn, keys);
    forall s: State
      ensures AES.unmix(AES.mix(s)) == s
    {
      InvMixUndoesMix(s.p);
      InvMixUndoesMix(s.q);
      InvMixUndoesMix(s.r);
      InvMixUndoesMix(s.s);
    }
    AES.DecryptUndoesEncrypt(keys, x);
  }

  /** Encryption is the same with either way to undo the mixing. */
  lemma EncryptionsAgree(keys: seq<State>, x: State)
    requires 2 <= |keys|
    ensures AES_AS_WRITTEN.Encrypt(keys, x) == AES.Encrypt(keys, x)
  {
    hide OnColumns, Substitute, AddRoundKey;
    AES.EncryptIgnoresUnmix(AES_AS_WRITTEN.unmix, keys, x, |keys| - 2);
  }

  // What `inv_mix_columns` as written does to decryption

  /** `inv_mix_columns` as written undoes `mix_columns` on the zero state only. */
  lemma WrittenUnmixIff(s: State)
    ensures OnColumns(InvMixColumnAsWritten, OnColumns(MixColumn, s)) == s <==> s == ZERO_STATE
  {
    WrittenInverseUndoesMixIff(s.p);
    WrittenInverseUndoesMixIff(s.q);
    WrittenInverseUndoesMixIff(s.r);
    WrittenInverseUndoesMixIff(s.s);
  }

  function Uniform(x: bv8): State {
    var c := Column(x, x, x, x);
    State(c, c, c, c)
  }

  lemma SboxZero(x: bv8)
    ensures Sbox(x) == 0 <==> x == 0x52
  {
    SboxesAreInverse(x);
    assert Rsbox(0) == 0x52;
  }

  lemma SubstituteZero(s: State)
    ensures Substitute(s) == ZERO_STATE <==> s == Uniform(0x52)
  {
    SboxZero(s.p.a); SboxZero(s.p.b); SboxZero(s.p.c); SboxZero(s.p.d);
    SboxZero(s.q.a); SboxZero(s.q.b); SboxZero(s.q.c); SboxZero(s.q.d);
    SboxZero(s.r.a); SboxZero(s.r.b); SboxZero(s.r.c); SboxZero(s.r.d);
    SboxZero(s.s.a); SboxZero(s.s.b); SboxZero(s.s.c); SboxZero(s.s.d);
  }

  lemma MixAndAddZero(k: State)
    ensures AddRoundKey(OnColumns(MixColumn, ZERO_STATE), k) == k
  {
    AddZeroToColumn(k.p);
    AddZeroToColumn(k.q);
    AddZeroToColumn(k.r);
    AddZeroToColumn(k.s);
    assert MixColumn(ZERO) == ZERO;
  }

  lemma AddZeroToColumn(c: Column)
    ensures Plus(ZERO, c) == c
  {
    AddZero(c.a);
    AddZero(c.b);
    AddZero(c.c);
    AddZero(c.d);
  }

  const FIXED := Uniform(0x52)

  lemma WrittenLayers()
    ensures forall s: State :: AES_AS_WRITTEN.unmix(AES_AS_WRITTEN.mix(s)) == s <==> s == ZERO_STATE
    ensures forall s: State :: AES_AS_WRITTEN.substitute(s) == ZERO_STATE <==> s == FIXED
    ensures forall k: State :: AES_AS_WRITTEN.addKey(AES_AS_WRITTEN.mix(ZERO_STATE), k) == k
  {
    forall s: State {
      WrittenUnmixIff(s);
    }
    forall s: State {
      SubstituteZero(s);
    }
    forall k: State {
      MixAndAddZero(k);
    }
  }

  /** `aes_decrypt_block` goes back through the states of `aes_encrypt_block` exactly
      when there is one round, or the input to the first substitution and all later
      round keys but the last two consist of bytes 0x52. */
  lemma WrittenRetracesIff(keys: seq<State>, x: State)
    requires 2 <= |keys|
    ensures (forall r | 1 <= r < |keys| :: AES_AS_WRITTEN.Retraces(keys, x, r))
       <==> |keys| == 2 || (AddRoundKey(x, keys[0]) == FIXED && forall r | 1 <= r < |keys| - 2 :: keys[r] == FIXED)
  {
    Peeling(InvMixColumnAsWritten, keys);
    WrittenLayers();
    AES_AS_WRITTEN.FrozenRetracesIff(keys, x, ZERO_STATE, FIXED);
  }

  /** Under that condition the block comes back, for all round keys. */
  lemma WrittenDecryptsIf(keys: seq<State>, x: State)
    requires 2 <= |keys|
    requires |keys| == 2 || (AddRoundKey(x, keys[0]) == FIXED && forall r | 1 <= r < |keys| - 2 :: keys[r] == FIXED)
    ensures AES_AS_WRITTEN.Decrypt(keys, AES_AS_WRITTEN.Encrypt(keys, x)) == x
  {
    WrittenRetracesIff(keys, x);
    Peeling(InvMixColumnAsWritten, keys);
    assert AES_AS_WRITTEN.Retraces(keys, x, 1);
    AES_AS_WRITTEN.RetracingDecrypts(keys, x);
  }

  lemma UnsubstituteInverse(s: State)
    ensures Substitute(Unsubstitute(s)) == s
  {
    var t := InvShiftRows(s);
    SubColumnInverse(t.p);
    SubColumnInverse(t.q);
    SubColumnInverse(t.r);
    SubColumnInverse(t.s);
  }

  /** With two rounds, or with later rounds that mix the zero state only, the block
      comes back exactly when the first round mixes the zero state too. */
  lemma WrittenDecryptsIff(keys: seq<State>, x: State)
    requires 3 <= |keys|
    requires |keys| > 3 ==>
      AES_AS_WRITTEN.After(keys, x, 1) == FIXED && forall r | 2 <= r < |keys| - 2 :: keys[r] == FIXED
    ensures AES_AS_WRITTEN.Decrypt(keys, AES_AS_WRITTEN.Encrypt(keys, x)) == x <==> AddRoundKey(x, keys[0]) == FIXED
  {
    Peeling(InvMixColumnAsWritten, keys);
    WrittenLayers();
    forall s: State
      ensures AES_AS_WRITTEN.substitute(AES_AS_WRITTEN.unsubstitute(s)) == s
    {
      UnsubstituteInverse(s);
    }
    AES_AS_WRITTEN.OneLiveRoundIff(keys, x, ZERO_STATE, FIXED);
  }

  /** Round keys for which `aes_decrypt_block` does not bring back the zero block,
      whatever the number of rounds from two on. */
  function LosingKeys(rounds: nat): seq<State>
    requires 2 <= rounds
  {
    seq(rounds + 1, r => if r == 0 then ZERO_STATE else if r == 1 then Uniform(0x31) else FIXED)
  }

  lemma WrittenDecryptionLosesABlock(rounds: nat)
    requires 2 <= rounds
    ensures var keys := LosingKeys(rounds);
            AES_AS_WRITTEN.Decrypt(keys, AES_AS_WRITTEN.Encrypt(keys, ZERO_STATE)) != ZERO_STATE
  {
    var keys := LosingKeys(rounds);
    assert keys[0] == ZERO_STATE && keys[1] == Uniform(0x31);
    MixingUniform();
    assert AES_AS_WRITTEN.After(keys, ZERO_STATE, 0) == ZERO_STATE;
    assert AES_AS_WRITTEN.After(keys, ZERO_STATE, 1) == FIXED;
    WrittenDecryptsIff(keys, ZERO_STATE);
  }

  lemma MixingUniform()
    ensures AddRoundKey(OnColumns(MixColumn, Substitute(ZERO_STATE)), Uniform(0x31)) == FIXED
  {
    assert Substitute(ZERO_STATE) == Uniform(0x63);
    assert OnColumns(MixColumn, Uniform(0x63)) == Uniform(0x63);
    assert Add(0x63, 0x31) == 0x52;
  }
}
