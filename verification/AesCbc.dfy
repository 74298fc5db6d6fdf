/** Cipher block chaining (NIST SP 800-38A, section 6.2) and the CBC loops of aes.c. */
module AesCbc {
  import opened AesField
  import opened AesColumns
  import opened AesCipher
  import opened AesBlocks

  function XorBlocks(a: Block, b: Block): Block {
    seq(BLOCK_SIZE, i requires 0 <= i < BLOCK_SIZE => Add(a[i], b[i]))
  }

  /** Byte by byte it is the exclusive or, so that it is zero for equal blocks only. */
  lemma XorBlocksIs(a: Block, b: Block)
    ensures forall i | 0 <= i < BLOCK_SIZE :: XorBlocks(a, b)[i] == a[i] ^ b[i]
    ensures XorBlocks(a, b) == seq(BLOCK_SIZE, _ => 0) <==> a == b
  {
    var c := XorBlocks(a, b);
    forall i | 0 <= i < BLOCK_SIZE
      ensures c[i] == a[i] ^ b[i] && (c[i] == 0 <==> a[i] == b[i])
    {
      ZeroIffEqual(a[i], b[i]);
    }
    if c == seq(BLOCK_SIZE, _ => 0) {
      assert forall i | 0 <= i < BLOCK_SIZE :: c[i] == 0;
    }
  }

  lemma ZeroIffEqual(x: bv8, y: bv8)
    ensures x ^ y == 0 <==> x == y
  {
  }

  /** CBC encryption of the whole blocks of p with the block function e. */
  function CbcEncrypt(e: Block -> Block, iv: Block, p: seq<bv8>): (c: seq<bv8>)
    ensures |p| % 16 == 0 ==> |c| == |p|
    decreases |p|
  {
    if |p| < BLOCK_SIZE then []
    else
      var c := e(XorBlocks(p[..BLOCK_SIZE], iv));
      c + CbcEncrypt(e, c, p[BLOCK_SIZE..])
  }

  function CbcDecrypt(d: Block -> Block, iv: Block, c: seq<bv8>): (p: seq<bv8>)
    ensures |c| % 16 == 0 ==> |p| == |c|
    decreases |c|
  {
    if |c| < BLOCK_SIZE then []
    else XorBlocks(d(c[..BLOCK_SIZE]), iv) + CbcDecrypt(d, c[..BLOCK_SIZE], c[BLOCK_SIZE..])
  }

  /** The same loop when the plaintext overwrites the ciphertext: the next block is
      chained to the plaintext, since that is what the input now holds. */
  function CbcDecryptInPlace(d: Block -> Block, iv: Block, c: seq<bv8>): (p: seq<bv8>)
    ensures |c| % 16 == 0 ==> |p| == |c|
    decreases |c|
  {
    if |c| < BLOCK_SIZE then []
    else
      var p := XorBlocks(d(c[..BLOCK_SIZE]), iv);
      p + CbcDecryptInPlace(d, p, c[BLOCK_SIZE..])
  }

  /** Block k of a text. */
  function BlockAt(s: seq<bv8>, k: nat): Block
    requires 16 * k + 16 <= |s|
  {
    s[16 * k .. 16 * k + 16]
  }

  /** The block before block k in a chain that begins with the IV. */
  function BlockBefore(iv: Block, s: seq<bv8>, k: nat): Block
    requires 16 * k <= |s|
  {
    if k == 0 then iv else s[16 * k - 16 .. 16 * k]
  }

  lemma ByteBehind(s: seq<bv8>, k: nat, i: nat)
    requires k > 0 && 16 * k + 16 <= |s| && i < 16
    ensures s[16 * k + i] == s[16..][16 * (k - 1) + i]
  {
  }

  lemma BlocksBehind(iv: Block, s: seq<bv8>, k: nat)
    requires k > 0 && 16 * k + 16 <= |s|
    ensures BlockAt(s, k) == BlockAt(s[16..], k - 1)
    ensures BlockBefore(iv, s, k) == BlockBefore(s[..16], s[16..], k - 1)
  {
    var m := 16 * (k - 1);
    assert s[16..][m .. m + 16] == s[m + 16 .. m + 32];
    if k > 1 {
      assert s[16..][m - 16 .. m] == s[m .. m + 16];
    }
  }

  /** The chaining law of NIST SP 800-38A, section 6.2: each block of ciphertext is the
      encryption of the exclusive or, byte by byte, of the plaintext block with the block of
      ciphertext before, which is the IV for the first. */
  lemma {:induction false} CbcEncryptChains(e: Block -> Block, iv: Block, p: seq<bv8>, k: nat)
    requires |p| % 16 == 0 && 16 * k + 16 <= |p|
    ensures var c := CbcEncrypt(e, iv, p); var before := BlockBefore(iv, c, k);
      BlockAt(c, k) == e(seq(16, i requires 0 <= i < 16 => p[16 * k + i] ^ before[i]))
    decreases |p|
  {
    hide XorBlocks, CbcEncrypt;
    CbcEncryptUnfolds(e, iv, p);
    if k == 0 {
      CbcEncryptFirst(e, iv, p);
    } else {
      var c := CbcEncrypt(e, iv, p);
      CbcEncryptChains(e, c[..16], p[16..], k - 1);
      EncryptedBehind(iv, p, c, k);
    }
  }

  lemma CbcEncryptUnfolds(e: Block -> Block, iv: Block, p: seq<bv8>)
    requires |p| % 16 == 0 && p != []
    ensures var c := CbcEncrypt(e, iv, p);
      |c| == |p| && c[..16] == e(XorBlocks(p[..16], iv)) && c[16..] == CbcEncrypt(e, c[..16], p[16..])
  {
    hide XorBlocks;
    var c0 := e(XorBlocks(p[..16], iv));
    assert CbcEncrypt(e, iv, p)[..16] == c0;
  }

  lemma CbcEncryptFirst(e: Block -> Block, iv: Block, p: seq<bv8>)
    requires |p| % 16 == 0 && p != []
    ensures var c := CbcEncrypt(e, iv, p); var before := BlockBefore(iv, c, 0);
      BlockAt(c, 0) == e(seq(16, i requires 0 <= i < 16 => p[16 * 0 + i] ^ before[i]))
  {
    hide XorBlocks, CbcEncrypt;
    CbcEncryptUnfolds(e, iv, p);
    XorBlocksIs(p[..16], iv);
    assert XorBlocks(p[..16], iv) == seq(16, i requires 0 <= i < 16 => p[16 * 0 + i] ^ iv[i]);
  }

  lemma EncryptedBehind(iv: Block, p: seq<bv8>, c: seq<bv8>, k: nat)
    requires k > 0 && 16 * k + 16 <= |p| == |c|
    ensures BlockAt(c, k) == BlockAt(c[16..], k - 1)
    ensures var before := BlockBefore(c[..16], c[16..], k - 1);
      before == BlockBefore(iv, c, k) &&
      seq(16, i requires 0 <= i < 16 => p[16..][16 * (k - 1) + i] ^ before[i])
        == seq(16, i requires 0 <= i < 16 => p[16 * k + i] ^ before[i])
  {
    BlocksBehind(iv, c, k);
    hide BlockAt, BlockBefore;
    var before := BlockBefore(iv, c, k);
    var s := seq(16, i requires 0 <= i < 16 => p[16..][16 * (k - 1) + i] ^ before[i]);
    var t := seq(16, i requires 0 <= i < 16 => p[16 * k + i] ^ before[i]);
    forall i | 0 <= i < 16
      ensures s[i] == t[i]
    {
      ByteBehind(p, k, i);
    }
  }

  lemma CbcOfOneBlock(e: Block -> Block, iv: Block, b: Block)
    ensures CbcEncrypt(e, iv, b) == e(XorBlocks(b, iv))
  {
    hide XorBlocks;
    assert b[..16] == b && b[16..] == [];
    assert CbcEncrypt(e, e(XorBlocks(b, iv)), []) == [];
  }

  lemma CbcDecryptOfOneBlock(d: Block -> Block, iv: Block, b: Block)
    ensures CbcDecrypt(d, iv, b) == XorBlocks(d(b), iv)
  {
    hide XorBlocks;
    assert b[..16] == b && b[16..] == [];
    assert CbcDecrypt(d, b, []) == [];
  }

  lemma CbcDecryptUnfolds(d: Block -> Block, iv: Block, c: seq<bv8>)
    requires |c| % 16 == 0 && c != []
    ensures var p := CbcDecrypt(d, iv, c);
      |p| == |c| && p[..16] == XorBlocks(d(c[..16]), iv) && p[16..] == CbcDecrypt(d, c[..16], c[16..])
  {
    hide XorBlocks;
  }

  /** Each block of plaintext is the decryption of the block of ciphertext, with the block of
      ciphertext before added to it. */
  lemma {:induction false} CbcDecryptChains(d: Block -> Block, iv: Block, c: seq<bv8>, k: nat, i: nat)
    requires |c| % 16 == 0 && 16 * k + 16 <= |c| && i < 16
    ensures CbcDecrypt(d, iv, c)[16 * k + i] == d(BlockAt(c, k))[i] ^ BlockBefore(iv, c, k)[i]
    decreases |c|
  {
    hide XorBlocks, CbcDecrypt;
    CbcDecryptUnfolds(d, iv, c);
    if k == 0 {
      CbcDecryptFirst(d, iv, c, i);
    } else {
      CbcDecryptChains(d, c[..16], c[16..], k - 1, i);
      BlocksBehind(iv, c, k);
      ByteBehind(CbcDecrypt(d, iv, c), k, i);
    }
  }

  lemma CbcDecryptFirst(d: Block -> Block, iv: Block, c: seq<bv8>, i: nat)
    requires |c| % 16 == 0 && c != [] && i < 16
    ensures CbcDecrypt(d, iv, c)[i] == d(BlockAt(c, 0))[i] ^ BlockBefore(iv, c, 0)[i]
  {
    hide XorBlocks;
    XorBlocksIs(d(c[..16]), iv);
  }

  /** Over its own input, the block of plaintext before is added. */
  lemma {:induction false} CbcDecryptInPlaceChains(d: Block -> Block, iv: Block, c: seq<bv8>, k: nat, i: nat)
    requires |c| % 16 == 0 && 16 * k + 16 <= |c| && i < 16
    ensures var p := CbcDecryptInPlace(d, iv, c);
      p[16 * k + i] == d(BlockAt(c, k))[i] ^ BlockBefore(iv, p, k)[i]
    decreases |c|
  {
    hide XorBlocks, CbcDecryptInPlace;
    InPlaceUnfolds(d, iv, c);
    if k == 0 {
      InPlaceFirst(d, iv, c, i);
    } else {
      var p := CbcDecryptInPlace(d, iv, c);
      CbcDecryptInPlaceChains(d, p[..16], c[16..], k - 1, i);
      ChainsBehind(d, iv, c, p, k, i);
    }
  }

  lemma ChainsBehind(d: Block -> Block, iv: Block, c: seq<bv8>, p: seq<bv8>, k: nat, i: nat)
    requires k > 0 && 16 * k + 16 <= |c| == |p| && i < 16
    ensures p[16..][16 * (k - 1) + i] == d(BlockAt(c[16..], k - 1))[i] ^ BlockBefore(p[..16], p[16..], k - 1)[i]
        ==> p[16 * k + i] == d(BlockAt(c, k))[i] ^ BlockBefore(iv, p, k)[i]
  {
    BlocksBehind(iv, c, k);
    BlocksBehind(iv, p, k);
    hide BlockAt, BlockBefore;
    ByteBehind(p, k, i);
  }

  lemma InPlaceUnfolds(d: Block -> Block, iv: Block, c: seq<bv8>)
    requires |c| % 16 == 0 && c != []
    ensures var p := CbcDecryptInPlace(d, iv, c);
      |p| == |c| && p[..16] == XorBlocks(d(c[..16]), iv) && p[16..] == CbcDecryptInPlace(d, p[..16], c[16..])
  {
    hide XorBlocks;
    var p0 := XorBlocks(d(c[..16]), iv);
    assert CbcDecryptInPlace(d, iv, c)[..16] == p0;
  }

  lemma InPlaceFirst(d: Block -> Block, iv: Block, c: seq<bv8>, i: nat)
    requires |c| % 16 == 0 && c != [] && i < 16
    ensures CbcDecryptInPlace(d, iv, c)[i] == d(BlockAt(c, 0))[i] ^ BlockBefore(iv, CbcDecryptInPlace(d, iv, c), 0)[i]
  {
    hide XorBlocks;
    XorBlocksIs(d(c[..16]), iv);
  }

  lemma XorBlocksInverse(a: Block, b: Block)
    ensures XorBlocks(XorBlocks(a, b), b) == a
  {
    forall i | 0 <= i < BLOCK_SIZE
      ensures Add(Add(a[i], b[i]), b[i]) == a[i]
    {
      CancelPair(a[i], b[i]);
    }
  }

  lemma XorBlocksCancel(a: Block, b: Block, c: Block)
    ensures XorBlocks(a, b) == XorBlocks(a, c) <==> b == c
    ensures XorBlocks(b, a) == XorBlocks(c, a) <==> b == c
  {
    XorBlocksCommute(a, b);
    XorBlocksCommute(a, c);
    XorBlocksInverse(b, a);
    XorBlocksInverse(c, a);
  }

  lemma XorBlocksCommute(a: Block, b: Block)
    ensures XorBlocks(a, b) == XorBlocks(b, a)
  {
    forall i | 0 <= i < BLOCK_SIZE
      ensures Add(a[i], b[i]) == Add(b[i], a[i])
    {
      AddCommutes(a[i], b[i]);
    }
  }

  /** Whether d undoes e on every block that CBC encryption of p gives to e. */
  ghost predicate UndoesChain(e: Block -> Block, d: Block -> Block, iv: Block, p: seq<bv8>)
    decreases |p|
  {
    |p| >= BLOCK_SIZE ==>
      var x := XorBlocks(p[..BLOCK_SIZE], iv);
      d(e(x)) == x && UndoesChain(e, d, e(x), p[BLOCK_SIZE..])
  }

  /** CBC decryption undoes CBC encryption exactly when the block functions are inverse
      on the blocks of the chain, for every IV and every whole number of blocks. */
  lemma {:induction false} CbcRoundTripIff(e: Block -> Block, d: Block -> Block, iv: Block, p: seq<bv8>)
    requires |p| % 16 == 0
    ensures CbcDecrypt(d, iv, CbcEncrypt(e, iv, p)) == p <==> UndoesChain(e, d, iv, p)
    decreases |p|
  {
    if |p| >= BLOCK_SIZE {
      var head, rest := p[..BLOCK_SIZE], p[BLOCK_SIZE..];
      var x := XorBlocks(head, iv);
      var c := CbcEncrypt(e, iv, p);
      assert c[..BLOCK_SIZE] == e(x) && c[BLOCK_SIZE..] == CbcEncrypt(e, e(x), rest);
      CbcRoundTripIff(e, d, e(x), rest);
      XorBlocksInverse(head, iv);
      XorBlocksCancel(iv, d(e(x)), x);
      var back := CbcDecrypt(d, iv, c);
      assert back[..BLOCK_SIZE] == XorBlocks(d(e(x)), iv);
      assert back[BLOCK_SIZE..] == CbcDecrypt(d, e(x), c[BLOCK_SIZE..]);
      assert p == head + rest;
    }
  }

  /** Each block of c but the last is its own plaintext. */
  ghost predicate SelfDecrypting(d: Block -> Block, iv: Block, c: seq<bv8>)
    decreases |c|
  {
    |c| >= 2 * BLOCK_SIZE ==>
      XorBlocks(d(c[..BLOCK_SIZE]), iv) == c[..BLOCK_SIZE] && SelfDecrypting(d, c[..BLOCK_SIZE], c[BLOCK_SIZE..])
  }

  /** Decryption over its own input is right only for ciphertext that is its own
      plaintext up to the last block. */
  lemma {:induction false} InPlaceDecryptionIff(d: Block -> Block, iv: Block, c: seq<bv8>)
    requires |c| % 16 == 0
    ensures CbcDecryptInPlace(d, iv, c) == CbcDecrypt(d, iv, c) <==> SelfDecrypting(d, iv, c)
    decreases |c|
  {
    if |c| >= BLOCK_SIZE {
      var head, rest := c[..BLOCK_SIZE], c[BLOCK_SIZE..];
      var p := XorBlocks(d(head), iv);
      var inPlace, apart := CbcDecryptInPlace(d, p, rest), CbcDecrypt(d, head, rest);
      assert CbcDecryptInPlace(d, iv, c)[BLOCK_SIZE..] == inPlace;
      assert CbcDecrypt(d, iv, c)[BLOCK_SIZE..] == apart;
      if |rest| >= BLOCK_SIZE {
        XorBlocksCancel(d(rest[..BLOCK_SIZE]), p, head);
        assert inPlace[..BLOCK_SIZE] == XorBlocks(d(rest[..BLOCK_SIZE]), p);
        assert apart[..BLOCK_SIZE] == XorBlocks(d(rest[..BLOCK_SIZE]), head);
        if p == head {
          InPlaceDecryptionIff(d, head, rest);
        }
      }
    }
  }

  /** output[outAt + j] := input[inAt + j] ^ mask[j] for one block. */
  method XorInto(input: array<bv8>, inAt: nat, mask: array<bv8>, output: array<bv8>, outAt: nat)
    requires mask.Length == BLOCK_SIZE && mask != output && input != output
    requires inAt + BLOCK_SIZE <= input.Length && outAt + BLOCK_SIZE <= output.Length
    modifies output
    ensures output[..] == Splice(old(output[..]), outAt, XorBlocks(input[inAt .. inAt + BLOCK_SIZE], mask[..]))
  {
    hide Add;
    for j := 0 to BLOCK_SIZE
      invariant output[..outAt] == old(output[..outAt])
      invariant forall k | 0 <= k < j :: output[outAt + k] == Add(input[inAt + k], mask[k])
      invariant output[outAt + j ..] == old(output[outAt + j ..])
    {
      output[outAt + j] := Add(input[inAt + j], mask[j]);
    }
    assert output[outAt .. outAt + BLOCK_SIZE] == XorBlocks(input[inAt .. inAt + BLOCK_SIZE], mask[..]);
    assert output[..] == output[..outAt] + output[outAt .. outAt + BLOCK_SIZE] + output[outAt + BLOCK_SIZE ..];
  }

  /** Block encryption with the given round keys. */
  function Encryptor(keys: seq<State>): Block -> Block
    requires 2 <= |keys|
  {
    b => EncryptBytes(keys, b)
  }

  function Decryptor(keys: seq<State>): Block -> Block
    requires 2 <= |keys|
  {
    b => DecryptBytes(keys, b)
  }

  // The loops

  lemma SpliceNext(out: seq<bv8>, done: seq<bv8>, block: seq<bv8>)
    requires |done| + |block| <= |out|
    ensures Splice(done + out[|done|..], |done|, block) == (done + block) + out[|done + block| ..]
  {
  }

  lemma SliceOfRest(before: seq<bv8>, now: seq<bv8>, i: nat, length: nat)
    requires i + BLOCK_SIZE <= length <= |before| && |now| == |before| && now[i..] == before[i..]
    ensures now[i .. i + BLOCK_SIZE] == before[..length][i .. i + BLOCK_SIZE]
  {
    assert now[i .. i + BLOCK_SIZE] == now[i..][..BLOCK_SIZE];
  }

  /** How far a CBC loop has come: in0 and out0 are what the input and the output held
      before, done the bytes written, and rest those still to be written. */
  ghost predicate Progress(result: seq<bv8>, in0: seq<bv8>, out0: seq<bv8>, done: seq<bv8>, rest: seq<bv8>,
                           input: seq<bv8>, output: seq<bv8>)
  {
    && |done| <= |in0| == |input| && |done| <= |out0|
    && result == done + rest
    && input[|done|..] == in0[|done|..]
    && output == done + out0[|done|..]
  }

  lemma ProgressStep(result: seq<bv8>, in0: seq<bv8>, out0: seq<bv8>, done: seq<bv8>, rest: seq<bv8>, block: Block,
                     rest': seq<bv8>, input: seq<bv8>, output: seq<bv8>, input': seq<bv8>, output': seq<bv8>)
    requires Progress(result, in0, out0, done, rest, input, output) && rest == block + rest'
    requires |done| + BLOCK_SIZE <= |in0| && |done| + BLOCK_SIZE <= |out0|
    requires output' == Splice(output, |done|, block)
    requires input' == input || (input' == output' && input == output)
    ensures Progress(result, in0, out0, done + block, rest', input', output')
  {
    SpliceNext(out0, done, block);
  }

  lemma ProgressEnd(result: seq<bv8>, in0: seq<bv8>, out0: seq<bv8>, done: seq<bv8>, input: seq<bv8>, output: seq<bv8>)
    requires Progress(result, in0, out0, done, [], input, output)
    ensures |result| <= |out0| && output == Splice(out0, 0, result)
  {
  }

  lemma EncryptStep(e: Block -> Block, p: seq<bv8>, i: nat, chain: Block, chain': Block)
    requires i + BLOCK_SIZE <= |p| && chain' == e(XorBlocks(p[i .. i + BLOCK_SIZE], chain))
    ensures CbcEncrypt(e, chain, p[i..]) == chain' + CbcEncrypt(e, chain', p[i + BLOCK_SIZE ..])
  {
    assert p[i..][..BLOCK_SIZE] == p[i .. i + BLOCK_SIZE] && p[i..][BLOCK_SIZE..] == p[i + BLOCK_SIZE ..];
  }

  lemma DecryptStep(d: Block -> Block, c: seq<bv8>, i: nat, chain: Block, block: Block)
    requires i + BLOCK_SIZE <= |c| && block == XorBlocks(d(c[i .. i + BLOCK_SIZE]), chain)
    ensures CbcDecrypt(d, chain, c[i..]) == block + CbcDecrypt(d, c[i .. i + BLOCK_SIZE], c[i + BLOCK_SIZE ..])
    ensures CbcDecryptInPlace(d, chain, c[i..]) == block + CbcDecryptInPlace(d, block, c[i + BLOCK_SIZE ..])
  {
    assert c[i..][..BLOCK_SIZE] == c[i .. i + BLOCK_SIZE] && c[i..][BLOCK_SIZE..] == c[i + BLOCK_SIZE ..];
  }

  /** The loop body of `aes_encrypt_cbc`. */
  method EncryptChained(ctx: Context, input: array<bv8>, output: array<bv8>, i: nat,
                        chain: array<bv8>, block: array<bv8>)
    requires ctx.Valid() && ctx.expandedKey !in {output, chain, block}
    requires chain.Length == block.Length == BLOCK_SIZE && chain != block
    requires chain !in {input, output} && block !in {input, output}
    requires i + BLOCK_SIZE <= input.Length && i + BLOCK_SIZE <= output.Length
    modifies output, chain, block
    ensures chain[..] == Encryptor(old(ctx.Keys()))(XorBlocks(old(input[i .. i + BLOCK_SIZE]), old(chain[..])))
    ensures output[..] == Splice(old(output[..]), i, chain[..])
  {
    hide EncryptBytes, XorBlocks;
    XorInto(input, i, chain, block, 0);
    assert block[..] == XorBlocks(old(input[i .. i + BLOCK_SIZE]), old(chain[..]));
    EncryptBlock(ctx, block, 0, output, i);
    assert block[0 .. BLOCK_SIZE] == block[..];
    CopyBlock(output, i, chain, 0);
    assert output[i .. i + BLOCK_SIZE] == chain[..];
  }

  /** The loop body of `aes_decrypt_cbc`. The next block is chained to what the input
      holds after the output is written. */
  method DecryptChained(ctx: Context, input: array<bv8>, output: array<bv8>, i: nat,
                        chain: array<bv8>, temp: array<bv8>)
    requires ctx.Valid() && ctx.expandedKey !in {output, chain, temp}
    requires chain.Length == temp.Length == BLOCK_SIZE && chain != temp
    requires chain !in {input, output} && temp !in {input, output}
    requires i + BLOCK_SIZE <= input.Length && i + BLOCK_SIZE <= output.Length
    modifies output, chain, temp
    ensures var block := XorBlocks(Decryptor(old(ctx.Keys()))(old(input[i .. i + BLOCK_SIZE])), old(chain[..]));
            && output[..] == Splice(old(output[..]), i, block)
            && chain[..] == if input == output then block else input[i .. i + BLOCK_SIZE]
  {
    hide DecryptBytes, XorBlocks;
    DecryptBlock(ctx, input, i, temp, 0);
    assert temp[0 .. BLOCK_SIZE] == temp[..] == Decryptor(old(ctx.Keys()))(old(input[i .. i + BLOCK_SIZE]));
    XorInto(temp, 0, chain, output, i);
    assert output[i .. i + BLOCK_SIZE] == XorBlocks(temp[..], old(chain[..]));
    CopyBlock(input, i, chain, 0);
    assert input[i .. i + BLOCK_SIZE] == chain[..];
  }

  /** The loop of `aes_encrypt_cbc`. The output may be the input. */
  method EncryptLoop(ctx: Context, input: array<bv8>, output: array<bv8>, length: nat, chain: array<bv8>)
    requires ctx.Valid() && ctx.expandedKey !in {output, chain}
    requires chain.Length == BLOCK_SIZE && chain !in {input, output}
    requires length <= input.Length && length <= output.Length && length % 16 == 0
    modifies output, chain
    ensures output[..] == old(Splice(output[..], 0, CbcEncrypt(Encryptor(ctx.Keys()), chain[..], input[..length])))
  {
    hide Encryptor, XorBlocks, KeysOf, Context.Keys, CbcEncrypt, Splice, Progress;
    ghost var keys, e, p := ctx.Keys(), Encryptor(ctx.Keys()), input[..length];
    ghost var in0, out0, done := input[..], output[..], [];
    ghost var c := CbcEncrypt(e, chain[..], p);
    var block := new bv8[BLOCK_SIZE];
    var i := 0;
    assert Progress(c, in0, out0, done, CbcEncrypt(e, chain[..], p[i..]), input[..], output[..]) by {
      StartProgress(c, in0, out0);
      assert p[0..] == p;
    }
    while i < length
      invariant i % 16 == 0 && i == |done| <= length
      invariant ctx.Keys() == keys
      invariant Progress(c, in0, out0, done, CbcEncrypt(e, chain[..], p[i..]), input[..], output[..])
    {
      ghost var chain1, input1, output1 := chain[..], input[..], output[..];
      InputSlice(c, in0, out0, done, CbcEncrypt(e, chain1, p[i..]), input1, output1, length);
      EncryptChained(ctx, input, output, i, chain, block);
      EncryptStep(e, p, i, chain1, chain[..]);
      ProgressStep(c, in0, out0, done, CbcEncrypt(e, chain1, p[i..]), chain[..],
                   CbcEncrypt(e, chain[..], p[i + BLOCK_SIZE ..]), input1, output1, input[..], output[..]);
      done := done + chain[..];
      i := i + BLOCK_SIZE;
    }
    CbcOfNothing(e, chain[..], p[i..]);
    ProgressEnd(c, in0, out0, done, input[..], output[..]);
  }

  lemma StartProgress(result: seq<bv8>, in0: seq<bv8>, out0: seq<bv8>)
    ensures Progress(result, in0, out0, [], result, in0, out0)
  {
  }

  lemma InputSlice(result: seq<bv8>, in0: seq<bv8>, out0: seq<bv8>, done: seq<bv8>, rest: seq<bv8>,
                   input: seq<bv8>, output: seq<bv8>, length: nat)
    requires Progress(result, in0, out0, done, rest, input, output) && |done| + BLOCK_SIZE <= length <= |in0|
    ensures input[|done| .. |done| + BLOCK_SIZE] == in0[..length][|done| .. |done| + BLOCK_SIZE]
  {
    SliceOfRest(in0, input, |done|, length);
  }

  lemma CbcOfNothing(f: Block -> Block, iv: Block, s: seq<bv8>)
    requires s == []
    ensures CbcEncrypt(f, iv, s) == CbcDecrypt(f, iv, s) == CbcDecryptInPlace(f, iv, s) == []
  {
  }

  /** What the loop of `aes_decrypt_cbc` writes, over its own input or elsewhere. */
  function DecryptOver(inPlace: bool, d: Block -> Block, iv: Block, c: seq<bv8>): (p: seq<bv8>)
    ensures |c| % 16 == 0 ==> |p| == |c|
  {
    if inPlace then CbcDecryptInPlace(d, iv, c) else CbcDecrypt(d, iv, c)
  }

  lemma DecryptOverNothing(inPlace: bool, d: Block -> Block, iv: Block, c: seq<bv8>)
    requires c == []
    ensures DecryptOver(inPlace, d, iv, c) == []
  {
    CbcOfNothing(d, iv, c);
  }

  lemma DecryptOverStep(inPlace: bool, d: Block -> Block, c: seq<bv8>, i: nat, chain: Block, block: Block)
    requires i + BLOCK_SIZE <= |c| && block == XorBlocks(d(c[i .. i + BLOCK_SIZE]), chain)
    ensures var chain' := if inPlace then block else c[i .. i + BLOCK_SIZE];
            DecryptOver(inPlace, d, chain, c[i..]) == block + DecryptOver(inPlace, d, chain', c[i + BLOCK_SIZE ..])
  {
    DecryptStep(d, c, i, chain, block);
  }

  /** The loop of `aes_decrypt_cbc`. */
  method DecryptLoop(ctx: Context, input: array<bv8>, output: array<bv8>, length: nat, chain: array<bv8>)
    requires ctx.Valid() && ctx.expandedKey !in {output, chain}
    requires chain.Length == BLOCK_SIZE && chain !in {input, output}
    requires length <= input.Length && length <= output.Length && length % 16 == 0
    modifies output, chain
    ensures output[..] == old(Splice(output[..], 0,
                              DecryptOver(input == output, Decryptor(ctx.Keys()), chain[..], input[..length])))
  {
    hide Decryptor, XorBlocks, KeysOf, Context.Keys, DecryptOver, CbcDecrypt, CbcDecryptInPlace, Splice, Progress;
    ghost var keys, d, c := ctx.Keys(), Decryptor(ctx.Keys()), input[..length];
    ghost var in0, out0, done := input[..], output[..], [];
    ghost var p := DecryptOver(input == output, d, chain[..], c);
    var temp := new bv8[BLOCK_SIZE];
    var i := 0;
    assert Progress(p, in0, out0, done, DecryptOver(input == output, d, chain[..], c[i..]), input[..], output[..]) by {
      StartProgress(p, in0, out0);
      assert c[0..] == c;
    }
    while i < length
      invariant i % 16 == 0 && i == |done| <= length
      invariant ctx.Keys() == keys
      invariant Progress(p, in0, out0, done, DecryptOver(input == output, d, chain[..], c[i..]), input[..], output[..])
    {
      ghost var chain1, input1, output1 := chain[..], input[..], output[..];
      ghost var rest := DecryptOver(input == output, d, chain1, c[i..]);
      InputSlice(p, in0, out0, done, rest, input1, output1, length);
      ghost var block := XorBlocks(d(c[i .. i + BLOCK_SIZE]), chain1);
      DecryptChained(ctx, input, output, i, chain, temp);
      DecryptOverStep(input == output, d, c, i, chain1, block);
      ProgressStep(p, in0, out0, done, rest, block,
                   DecryptOver(input == output, d, chain[..], c[i + BLOCK_SIZE ..]),
                    input1, output1, input[..], output[..]);
      done := done + block;
      i := i + BLOCK_SIZE;
    }
    DecryptOverNothing(input == output, d, chain[..], c[i..]);
    ProgressEnd(p, in0, out0, done, input[..], output[..]);
  }

  /** `aes_encrypt_cbc`. */
  method EncryptCbc(ctx: Context?, iv: array?<bv8>, input: array?<bv8>, output: array?<bv8>, length: nat)
    returns (status: int)
    requires ctx != null ==> ctx.Valid() && ctx.expandedKey != output
    requires iv != null ==> iv.Length == BLOCK_SIZE
    requires input != null ==> length <= input.Length
    requires output != null ==> length <= output.Length
    modifies output
    ensures status == if ctx == null || iv == null || input == null || output == null then -1
                      else if length % 16 != 0 then -2 else 0
    ensures status == 0 ==>
      output[..] == old(Splice(output[..], 0, CbcEncrypt(Encryptor(ctx.Keys()), iv[..], input[..length])))
    ensures status != 0 && output != null ==> output[..] == old(output[..])
  {
    if ctx == null || iv == null || input == null || output == null {
      return -1;
    }
    if length % 16 != 0 {
      return -2;
    }
    var chain := new bv8[BLOCK_SIZE];
    CopyBlock(iv, 0, chain, 0);
    assert chain[..] == iv[..];
    EncryptLoop(ctx, input, output, length, chain);
    return 0;
  }

  /** `aes_decrypt_cbc`. */
  method DecryptCbc(ctx: Context?, iv: array?<bv8>, input: array?<bv8>, output: array?<bv8>, length: nat)
    returns (status: int)
    requires ctx != null ==> ctx.Valid() && ctx.expandedKey != output
    requires iv != null ==> iv.Length == BLOCK_SIZE
    requires input != null ==> length <= input.Length
    requires output != null ==> length <= output.Length
    modifies output
    ensures status == if ctx == null || iv == null || input == null || output == null then -1
                      else if length % 16 != 0 then -2 else 0
    ensures status == 0 ==>
      output[..] == old(Splice(output[..], 0,
                        if input == output then CbcDecryptInPlace(Decryptor(ctx.Keys()), iv[..], input[..length])
                        else CbcDecrypt(Decryptor(ctx.Keys()), iv[..], input[..length])))
    ensures status != 0 && output != null ==> output[..] == old(output[..])
  {
    if ctx == null || iv == null || input == null || output == null {
      return -1;
    }
    if length % 16 != 0 {
      return -2;
    }
    var chain := new bv8[BLOCK_SIZE];
    CopyBlock(iv, 0, chain, 0);
    assert chain[..] == iv[..];
    DecryptLoop(ctx, input, output, length, chain);
    return 0;
  }

  // What the loops mean together

  /** As written, CBC decryption brings a text back exactly if block decryption as written
      brings back every block that is encrypted. */
  lemma WrittenCbcRoundTripIff(keys: seq<State>, iv: Block, p: seq<bv8>)
    requires 2 <= |keys| && |p| % 16 == 0
    ensures CbcDecrypt(Decryptor(keys), iv, CbcEncrypt(Encryptor(keys), iv, p)) == p <==>
      UndoesChain(b => EncryptBytes(keys, b), b => DecryptBytes(keys, b), iv, p)
  {
    hide EncryptBytes, DecryptBytes, CbcEncrypt, CbcDecrypt;
    CbcRoundTripIff(Encryptor(keys), Decryptor(keys), iv, p);
    SameChain(Encryptor(keys), Decryptor(keys), b => EncryptBytes(keys, b), b => DecryptBytes(keys, b), iv, p);
  }

  lemma {:induction false} SameChain(e: Block -> Block, d: Block -> Block, e': Block -> Block, d': Block -> Block,
                                     iv: Block, p: seq<bv8>)
    requires forall b: Block :: e(b) == e'(b) && d(b) == d'(b)
    ensures UndoesChain(e, d, iv, p) <==> UndoesChain(e', d', iv, p)
    decreases |p|
  {
    if |p| >= BLOCK_SIZE {
      SameChain(e, d, e', d', e(XorBlocks(p[..BLOCK_SIZE], iv)), p[BLOCK_SIZE..]);
    }
  }

  /** One block through InvCipher of FIPS 197. */
  function InvCipherOf(keys: seq<State>): Block -> Block
    requires 2 <= |keys|
  {
    b => Store(AES.Decrypt(keys, Load(b)))
  }

  lemma BlockRoundTrip(keys: seq<State>, b: Block)
    requires 2 <= |keys|
    ensures InvCipherOf(keys)(Encryptor(keys)(b)) == b
  {
    hide Load, Store, LayersWith;
    var x := Load(b);
    EncryptionsAgree(keys, x);
    LoadStore(AES.Encrypt(keys, x));
    InvCipherUndoesCipher(keys, x);
    StoreLoad(b);
  }

  lemma {:induction false} UndoesAll(e: Block -> Block, d: Block -> Block, iv: Block, p: seq<bv8>)
    requires forall b: Block :: d(e(b)) == b
    ensures UndoesChain(e, d, iv, p)
    decreases |p|
  {
    if |p| >= BLOCK_SIZE {
      UndoesAll(e, d, e(XorBlocks(p[..BLOCK_SIZE], iv)), p[BLOCK_SIZE..]);
    }
  }

  /** With InvCipher for its block function, CBC decryption brings back every text of
      whole blocks that `aes_encrypt_cbc` encrypts, for every IV and all round keys. */
  lemma CbcRoundTrip(keys: seq<State>, iv: Block, p: seq<bv8>)
    requires 2 <= |keys| && |p| % 16 == 0
    ensures CbcDecrypt(InvCipherOf(keys), iv, CbcEncrypt(Encryptor(keys), iv, p)) == p
  {
    hide InvCipherOf, Encryptor;
    var e, d := Encryptor(keys), InvCipherOf(keys);
    forall b: Block
      ensures d(e(b)) == b
    {
      BlockRoundTrip(keys, b);
    }
    UndoesAll(e, d, iv, p);
    CbcRoundTripIff(e, d, iv, p);
  }
}
