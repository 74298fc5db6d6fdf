/** The in-place code of aes.c for one block, against the ciphers of AesCipher. */
module AesBlocks {
  import opened AesField
  import opened AesColumns
  import opened AesTables
  import opened AesCipher

  const BLOCK_SIZE := 16

  type Block = b: seq<bv8> | |b| == BLOCK_SIZE witness seq(BLOCK_SIZE, i => 0)

  /** The state read from sixteen bytes, column by column (FIPS 197, section 3.4). */
  function Load(b: Block): State {
    State(Column(b[0], b[1], b[2], b[3]), Column(b[4], b[5], b[6], b[7]),
          Column(b[8], b[9], b[10], b[11]), Column(b[12], b[13], b[14], b[15]))
  }

  function Store(s: State): Block {
    [s.p.a, s.p.b, s.p.c, s.p.d, s.q.a, s.q.b, s.q.c, s.q.d,
     s.r.a, s.r.b, s.r.c, s.r.d, s.s.a, s.s.b, s.s.c, s.s.d]
  }

  lemma StoreLoad(b: Block)
    ensures Store(Load(b)) == b
  {
  }

  lemma LoadStore(s: State)
    ensures Load(Store(s)) == s
  {
  }

  method SubBytesInPlace(state: array<bv8>)
    requires state.Length == BLOCK_SIZE
    modifies state
    ensures Load(state[..]) == SubBytes(Load(old(state[..])))
  {
    for i := 0 to BLOCK_SIZE
      invariant forall k | 0 <= k < i :: state[k] == Sbox(old(state[k]))
      invariant forall k | i <= k < BLOCK_SIZE :: state[k] == old(state[k])
    {
      state[i] := Sbox(state[i]);
    }
  }

  method InvSubBytesInPlace(state: array<bv8>)
    requires state.Length == BLOCK_SIZE
    modifies state
    ensures Load(state[..]) == InvSubBytes(Load(old(state[..])))
  {
    for i := 0 to BLOCK_SIZE
      invariant forall k | 0 <= k < i :: state[k] == Rsbox(old(state[k]))
      invariant forall k | i <= k < BLOCK_SIZE :: state[k] == old(state[k])
    {
      state[i] := Rsbox(state[i]);
    }
  }

  method ShiftRowsInPlace(state: array<bv8>)
    requires state.Length == BLOCK_SIZE
    modifies state
    ensures Load(state[..]) == ShiftRows(Load(old(state[..])))
  {
    var temp := state[1];
    state[1] := state[5];
    state[5] := state[9];
    state[9] := state[13];
    state[13] := temp;

    temp := state[2];
    state[2] := state[10];
    state[10] := temp;
    temp := state[6];
    state[6] := state[14];
    state[14] := temp;

    temp := state[15];
    state[15] := state[11];
    state[11] := state[7];
    state[7] := state[3];
    state[3] := temp;
  }

  method InvShiftRowsInPlace(state: array<bv8>)
    requires state.Length == BLOCK_SIZE
    modifies state
    ensures Load(state[..]) == InvShiftRows(Load(old(state[..])))
  {
    var temp := state[13];
    state[13] := state[9];
    state[9] := state[5];
    state[5] := state[1];
    state[1] := temp;

    temp := state[2];
    state[2] := state[10];
    state[10] := temp;
    temp := state[6];
    state[6] := state[14];
    state[14] := temp;

    temp := state[3];
    state[3] := state[7];
    state[7] := state[11];
    state[11] := state[15];
    state[15] := temp;
  }

  /** Column c of sixteen bytes. */
  function ColumnAt(b: Block, c: nat): Column
    requires c < 4
  {
    Column(b[4 * c], b[4 * c + 1], b[4 * c + 2], b[4 * c + 3])
  }

  /** The first n columns of after are f of those of before, and the others the same. */
  ghost predicate Mixed(f: Column -> Column, before: Block, after: Block, n: nat)
    requires n <= 4
  {
    && (forall k: nat | k < n :: ColumnAt(after, k) == f(ColumnAt(before, k)))
    && (forall k: nat | n <= k < 4 :: ColumnAt(after, k) == ColumnAt(before, k))
  }

  lemma MixedStep(f: Column -> Column, before: Block, between: Block, after: Block, i: nat)
    requires i < 4 && Mixed(f, before, between, i)
    requires ColumnAt(after, i) == f(ColumnAt(between, i))
    requires forall k | 0 <= k < BLOCK_SIZE && !(4 * i <= k < 4 * i + 4) :: after[k] == between[k]
    ensures Mixed(f, before, after, i + 1)
  {
  }

  lemma MixedAll(f: Column -> Column, before: Block, after: Block)
    requires Mixed(f, before, after, 4)
    ensures Load(after) == OnColumns(f, Load(before))
  {
    assert ColumnAt(after, 0) == f(ColumnAt(before, 0)) && ColumnAt(after, 1) == f(ColumnAt(before, 1));
    assert ColumnAt(after, 2) == f(ColumnAt(before, 2)) && ColumnAt(after, 3) == f(ColumnAt(before, 3));
  }

  /** The loop body of `mix_columns`. */
  method MixColumnAt(state: array<bv8>, i: nat)
    requires state.Length == BLOCK_SIZE && i < 4
    modifies state
    ensures ColumnAt(state[..], i) == MixColumn(ColumnAt(old(state[..]), i))
    ensures forall k | 0 <= k < BLOCK_SIZE && !(4 * i <= k < 4 * i + 4) :: state[k] == old(state[k])
  {
    hide Xtime, Xor5;
    var a, b, c, d := state[i * 4], state[i * 4 + 1], state[i * 4 + 2], state[i * 4 + 3];
    var temp := new bv8[4];
    temp[0] := Xor5(Xtime(a), Xtime(b), b, c, d);
    temp[1] := Xor5(a, Xtime(b), Xtime(c), c, d);
    temp[2] := Xor5(a, b, Xtime(c), Xtime(d), d);
    temp[3] := Xor5(Xtime(a), a, b, c, Xtime(d));
    state[i * 4] := temp[0];
    state[i * 4 + 1] := temp[1];
    state[i * 4 + 2] := temp[2];
    state[i * 4 + 3] := temp[3];
  }

  method MixColumnsInPlace(state: array<bv8>)
    requires state.Length == BLOCK_SIZE
    modifies state
    ensures Load(state[..]) == OnColumns(MixColumn, Load(old(state[..])))
  {
    for i := 0 to 4
      invariant Mixed(MixColumn, old(state[..]), state[..], i)
    {
      ghost var between := state[..];
      MixColumnAt(state, i);
      MixedStep(MixColumn, old(state[..]), between, state[..], i);
    }
    MixedAll(MixColumn, old(state[..]), state[..]);
  }

  /** The loop body of `inv_mix_columns`. */
  method InvMixColumnAt(state: array<bv8>, i: nat)
    requires state.Length == BLOCK_SIZE && i < 4
    modifies state
    ensures ColumnAt(state[..], i) == InvMixColumnAsWritten(ColumnAt(old(state[..]), i))
    ensures forall k | 0 <= k < BLOCK_SIZE && !(4 * i <= k < 4 * i + 4) :: state[k] == old(state[k])
  {
    hide Xtime, Xor5;
    var a, b, c, d := state[i * 4], state[i * 4 + 1], state[i * 4 + 2], state[i * 4 + 3];
    var e, f, g, h := Xtime(a), Xtime(b), Xtime(c), Xtime(d);
    var ea, fb, gc, hd := Xtime(e), Xtime(f), Xtime(g), Xtime(h);
    var eea, ffb, ggc, hhd := Xtime(ea), Xtime(fb), Xtime(gc), Xtime(hd);
    var temp := new bv8[4];
    temp[0] := Xor5(Xor5(eea, eea, a, ffb, b), gc, c, hd, d);
    temp[1] := Xor5(Xor5(ea, a, ffb, ffb, b), ggc, c, hd, d);
    temp[2] := Xor5(Xor5(ea, a, fb, b, ggc), ggc, c, hhd, d);
    temp[3] := Xor5(Xor5(eea, a, fb, b, gc), c, hhd, hhd, d);
    state[i * 4] := temp[0];
    state[i * 4 + 1] := temp[1];
    state[i * 4 + 2] := temp[2];
    state[i * 4 + 3] := temp[3];
  }

  method InvMixColumnsInPlace(state: array<bv8>)
    requires state.Length == BLOCK_SIZE
    modifies state
    ensures Load(state[..]) == OnColumns(InvMixColumnAsWritten, Load(old(state[..])))
  {
    for i := 0 to 4
      invariant Mixed(InvMixColumnAsWritten, old(state[..]), state[..], i)
    {
      ghost var between := state[..];
      InvMixColumnAt(state, i);
      MixedStep(InvMixColumnAsWritten, old(state[..]), between, state[..], i);
    }
    MixedAll(InvMixColumnAsWritten, old(state[..]), state[..]);
  }

  /** `add_round_key` with the round key that starts at byte `at`. */
  method AddRoundKeyInPlace(state: array<bv8>, key: array<bv8>, at: nat)
    requires state.Length == BLOCK_SIZE && at + BLOCK_SIZE <= key.Length && state != key
    modifies state
    ensures Load(state[..]) == AddRoundKey(Load(old(state[..])), Load(key[at .. at + BLOCK_SIZE]))
  {
    for i := 0 to BLOCK_SIZE
      invariant forall k | 0 <= k < i :: state[k] == Add(old(state[k]), key[at + k])
      invariant forall k | i <= k < BLOCK_SIZE :: state[k] == old(state[k])
    {
      state[i] := Add(state[i], key[at + i]);
    }
  }

  /** `aes_context_t`, as `aes_init` leaves it. */
  class Context {
    const expandedKey: array<bv8>
    var rounds: nat

    ghost predicate Valid()
      reads this
    {
      expandedKey.Length == 240 && 1 <= rounds <= 14
    }

    /** The round keys, one for each round and one before the first. */
    ghost function Keys(): seq<State>
      requires Valid()
      reads this, expandedKey
      ensures |Keys()| == rounds + 1
    {
      KeysOf(expandedKey[..], rounds)
    }

    constructor ()
      ensures fresh(expandedKey) && expandedKey.Length == 240
    {
      expandedKey := new bv8[240];
      rounds := 0;
    }
  }

  /** The first rounds + 1 round keys in a key schedule. */
  function KeysOf(w: seq<bv8>, rounds: nat): (keys: seq<State>)
    requires 16 * (rounds + 1) <= |w|
    ensures |keys| == rounds + 1
    ensures forall r | 0 <= r <= rounds :: keys[r] == Load(w[16 * r .. 16 * r + 16])
  {
    seq(rounds + 1, r requires 0 <= r <= rounds => Load(w[16 * r .. 16 * r + 16]))
  }

  /** The loops that copy one block. */
  method CopyBlock(input: array<bv8>, inAt: nat, output: array<bv8>, outAt: nat)
    requires inAt + BLOCK_SIZE <= input.Length && outAt + BLOCK_SIZE <= output.Length && input != output
    modifies output
    ensures output[..] == old(output[..outAt]) + input[inAt .. inAt + BLOCK_SIZE] + old(output[outAt + BLOCK_SIZE ..])
  {
    for i := 0 to BLOCK_SIZE
      invariant output[..outAt + i] == old(output[..outAt]) + input[inAt .. inAt + i]
      invariant output[outAt + i ..] == old(output[outAt + i ..])
    {
      output[outAt + i] := input[inAt + i];
    }
  }

  /** Adds round key r of the context. */
  method AddKeyOf(ctx: Context, state: array<bv8>, r: nat)
    requires ctx.Valid() && state.Length == BLOCK_SIZE && state != ctx.expandedKey && r <= ctx.rounds
    modifies state
    ensures Load(state[..]) == AddRoundKey(Load(old(state[..])), ctx.Keys()[r])
  {
    AddRoundKeyInPlace(state, ctx.expandedKey, r * BLOCK_SIZE);
  }

  /** The rounds of `aes_encrypt_block`. */
  method EncryptState(ctx: Context, state: array<bv8>)
    requires ctx.Valid() && state.Length == BLOCK_SIZE && state != ctx.expandedKey
    modifies state
    ensures Load(state[..]) == AES_AS_WRITTEN.Encrypt(ctx.Keys(), Load(old(state[..])))
  {
    hide Load, SubBytes, ShiftRows, OnColumns, AddRoundKey, KeysOf, Context.Keys;
    ghost var keys, x := ctx.Keys(), Load(state[..]);
    AddKeyOf(ctx, state, 0);
    for round := 1 to ctx.rounds
      invariant ctx.Keys() == keys
      invariant Load(state[..]) == AES_AS_WRITTEN.After(keys, x, round - 1)
    {
      SubBytesInPlace(state);
      ShiftRowsInPlace(state);
      MixColumnsInPlace(state);
      AddKeyOf(ctx, state, round);
    }
    SubBytesInPlace(state);
    ShiftRowsInPlace(state);
    AddKeyOf(ctx, state, ctx.rounds);
  }

  /** The rounds of `aes_decrypt_block`. */
  method DecryptState(ctx: Context, state: array<bv8>)
    requires ctx.Valid() && state.Length == BLOCK_SIZE && state != ctx.expandedKey
    modifies state
    ensures Load(state[..]) == AES_AS_WRITTEN.Decrypt(ctx.Keys(), Load(old(state[..])))
  {
    hide Load, InvSubBytes, InvShiftRows, OnColumns, AddRoundKey, KeysOf, Context.Keys;
    ghost var keys, y := ctx.Keys(), Load(state[..]);
    AddKeyOf(ctx, state, ctx.rounds);
    for round := ctx.rounds downto 1
      invariant ctx.Keys() == keys
      invariant Load(state[..]) == AES_AS_WRITTEN.Back(keys, y, round)
    {
      InvShiftRowsInPlace(state);
      InvSubBytesInPlace(state);
      AddKeyOf(ctx, state, round);
      InvMixColumnsInPlace(state);
    }
    InvShiftRowsInPlace(state);
    InvSubBytesInPlace(state);
    AddKeyOf(ctx, state, 0);
  }

  /** The bytes of b with those from place at on replaced by those of block. */
  function Splice(b: seq<bv8>, at: nat, block: seq<bv8>): seq<bv8>
    requires at + |block| <= |b|
  {
    b[..at] + block + b[at + |block| ..]
  }

  /** One block through the encryption of FIPS 197. */
  function EncryptBytes(keys: seq<State>, block: Block): Block
    requires 2 <= |keys|
  {
    Store(AES_AS_WRITTEN.Encrypt(keys, Load(block)))
  }

  /** One block through the decryption of aes.c. */
  function DecryptBytes(keys: seq<State>, block: Block): Block
    requires 2 <= |keys|
  {
    Store(AES_AS_WRITTEN.Decrypt(keys, Load(block)))
  }

  /** Under the condition that brings back a state, the bytes come back. */
  lemma BytesDecryptIf(keys: seq<State>, block: Block)
    requires 2 <= |keys|
    requires |keys| == 2 ||
      (AddRoundKey(Load(block), keys[0]) == FIXED && forall r | 1 <= r < |keys| - 2 :: keys[r] == FIXED)
    ensures DecryptBytes(keys, EncryptBytes(keys, block)) == block
  {
    hide Load, Store, LayersWith;
    WrittenDecryptsIf(keys, Load(block));
    LoadStore(AES_AS_WRITTEN.Encrypt(keys, Load(block)));
    StoreLoad(block);
  }

  /** With two rounds, or later rounds that mix the zero state only, the bytes come back
      exactly when the first round mixes the zero state too. */
  lemma BytesDecryptIff(keys: seq<State>, block: Block)
    requires 3 <= |keys|
    requires |keys| > 3 ==>
      AES_AS_WRITTEN.After(keys, Load(block), 1) == FIXED && forall r | 2 <= r < |keys| - 2 :: keys[r] == FIXED
    ensures DecryptBytes(keys, EncryptBytes(keys, block)) == block <==> AddRoundKey(Load(block), keys[0]) == FIXED
  {
    hide Load, Store, LayersWith;
    var x := Load(block);
    var y := AES_AS_WRITTEN.Encrypt(keys, x);
    WrittenDecryptsIff(keys, x);
    LoadStore(y);
    LoadStore(AES_AS_WRITTEN.Decrypt(keys, y));
    StoreLoad(block);
  }

  /** `aes_encrypt_block` on the blocks at the given places of two buffers. */
  method EncryptBlock(ctx: Context, input: array<bv8>, inAt: nat, output: array<bv8>, outAt: nat)
    requires ctx.Valid()
    requires inAt + BLOCK_SIZE <= input.Length && outAt + BLOCK_SIZE <= output.Length
    modifies output
    ensures output[..] == old(Splice(output[..], outAt, EncryptBytes(ctx.Keys(), input[inAt .. inAt + BLOCK_SIZE])))
  {
    hide Load, Store, LayersWith;
    ghost var block := input[inAt .. inAt + BLOCK_SIZE];
    var state := new bv8[BLOCK_SIZE];
    CopyBlock(input, inAt, state, 0);
    assert state[..] == block;
    EncryptState(ctx, state);
    StoreLoad(state[..]);
    CopyBlock(state, 0, output, outAt);
  }

  /** `aes_decrypt_block` on the blocks at the given places of two buffers. */
  method DecryptBlock(ctx: Context, input: array<bv8>, inAt: nat, output: array<bv8>, outAt: nat)
    requires ctx.Valid()
    requires inAt + BLOCK_SIZE <= input.Length && outAt + BLOCK_SIZE <= output.Length
    modifies output
    ensures output[..] == old(Splice(output[..], outAt, DecryptBytes(ctx.Keys(), input[inAt .. inAt + BLOCK_SIZE])))
  {
    hide Load, Store, LayersWith;
    ghost var block := input[inAt .. inAt + BLOCK_SIZE];
    var state := new bv8[BLOCK_SIZE];
    CopyBlock(input, inAt, state, 0);
    assert state[..] == block;
    DecryptState(ctx, state);
    StoreLoad(state[..]);
    CopyBlock(state, 0, output, outAt);
  }
}
