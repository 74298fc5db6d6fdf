/** The constant tables of aes.c. */
module AesTables {
  import opened AesField

  /** Row hi of `sbox`, its sixteen bytes from left to right. */
  function SboxRow(hi: bv8): bv128 {
    if hi == 0x0 then 0x637c777bf26b6fc53001672bfed7ab76 else
    if hi == 0x1 then 0xca82c97dfa5947f0add4a2af9ca472c0 else
    if hi == 0x2 then 0xb7fd9326363ff7cc34a5e5f171d83115 else
    if hi == 0x3 then 0x04c723c31896059a071280e2eb27b275 else
    if hi == 0x4 then 0x09832c1a1b6e5aa0523bd6b329e32f84 else
    if hi == 0x5 then 0x53d100ed20fcb15b6acbbe394a4c58cf else
    if hi == 0x6 then 0xd0efaafb434d338545f9027f503c9fa8 else
    if hi == 0x7 then 0x51a3408f929d38f5bcb6da2110fff3d2 else
    if hi == 0x8 then 0xcd0c13ec5f974417c4a77e3d645d1973 else
    if hi == 0x9 then 0x60814fdc222a908846eeb814de5e0bdb else
    if hi == 0xa then 0xe0323a0a4906245cc2d3ac629195e479 else
    if hi == 0xb then 0xe7c8376d8dd54ea96c56f4ea657aae08 else
    if hi == 0xc then 0xba78252e1ca6b4c6e8dd741f4bbd8b8a else
    if hi == 0xd then 0x703eb5664803f60e613557b986c11d9e else
    if hi == 0xe then 0xe1f8981169d98e949b1e87e9ce5528df else
    0x8ca1890dbfe6426841992d0fb054bb16
  }

  /** Row hi of `rsbox`. */
  function RsboxRow(hi: bv8): bv128 {
    if hi == 0x0 then 0x52096ad53036a538bf40a39e81f3d7fb else
    if hi == 0x1 then 0x7ce339829b2fff87348e4344c4dee9cb else
    if hi == 0x2 then 0x547b9432a6c2233dee4c950b42fac34e else
    if hi == 0x3 then 0x082ea16628d924b2765ba2496d8bd125 else
    if hi == 0x4 then 0x72f8f66486689816d4a45ccc5d65b692 else
    if hi == 0x5 then 0x6c704850fdedb9da5e154657a78d9d84 else
    if hi == 0x6 then 0x90d8ab008cbcd30af7e45805b8b34506 else
    if hi == 0x7 then 0xd02c1e8fca3f0f02c1afbd0301138a6b else
    if hi == 0x8 then 0x3a9111414f67dcea97f2cfcef0b4e673 else
    if hi == 0x9 then 0x96ac7422e7ad3585e2f937e81c75df6e else
    if hi == 0xa then 0x47f11a711d29c5896fb7620eaa18be1b else
    if hi == 0xb then 0xfc563e4bc6d279209adbc0fe78cd5af4 else
    if hi == 0xc then 0x1fdda8338807c731b11210592780ec5f else
    if hi == 0xd then 0x60517fa919b54a0d2de57a9f93c99cef else
    if hi == 0xe then 0xa0e03b4dae2af5b0c8ebbb3c83539961 else
    0x172b047eba77d626e169146355210c7d
  }

  /** Byte lo of a table row. */
  function ByteOfRow(row: bv128, lo: bv8): bv8
    requires lo < 16
  {
    ((row >> (120 - (lo as bv128 << 3))) & 0xff) as bv8
  }

  /** `sbox[x]`. */
  function Sbox(x: bv8): bv8 {
    ByteOfRow(SboxRow(x >> 4), x & 15)
  }

  /** `rsbox[x]`. */
  function Rsbox(x: bv8): bv8 {
    ByteOfRow(RsboxRow(x >> 4), x & 15)
  }

  lemma RsboxUndoesSboxLow(x: bv8)
    requires x < 0x80
    ensures Rsbox(Sbox(x)) == x
  {
  }

  lemma RsboxUndoesSboxHigh(x: bv8)
    requires x >= 0x80
    ensures Rsbox(Sbox(x)) == x
  {
  }

  lemma SboxUndoesRsboxLow(x: bv8)
    requires x < 0x80
    ensures Sbox(Rsbox(x)) == x
  {
  }

  lemma SboxUndoesRsboxHigh(x: bv8)
    requires x >= 0x80
    ensures Sbox(Rsbox(x)) == x
  {
  }

  /** The two tables are inverse permutations of the bytes. */
  lemma SboxesAreInverse(x: bv8)
    ensures Rsbox(Sbox(x)) == x
    ensures Sbox(Rsbox(x)) == x
  {
    if x < 0x80 {
      RsboxUndoesSboxLow(x);
      SboxUndoesRsboxLow(x);
    } else {
      RsboxUndoesSboxHigh(x);
      SboxUndoesRsboxHigh(x);
    }
  }

  // The S-box of FIPS 197, section 5.1.1: an affine map of the inverse in GF(2^8).

  function RotateLeft(x: bv8, n: bv8): bv8
    requires n < 8
  {
    (x << n) | (x >> (8 - n))
  }

  function Affine(x: bv8): bv8 {
    x ^ RotateLeft(x, 1) ^ RotateLeft(x, 2) ^ RotateLeft(x, 3) ^ RotateLeft(x, 4) ^ 0x63
  }

  function InverseAffine(x: bv8): bv8 {
    RotateLeft(x, 1) ^ RotateLeft(x, 3) ^ RotateLeft(x, 6) ^ 0x05
  }

  lemma AffineInverse(x: bv8)
    ensures Affine(InverseAffine(x)) == x
  {
  }

  /** Mul, with its eight terms written out. */
  function MulByBits(k: bv8, x: bv8): bv8 {
    var x1 := Xtime(x);
    var x2 := Xtime(x1);
    var x3 := Xtime(x2);
    var x4 := Xtime(x3);
    var x5 := Xtime(x4);
    var x6 := Xtime(x5);
    Add(LowTerm(k, x), Add(LowTerm(k >> 1, x1), Add(LowTerm(k >> 2, x2), Add(LowTerm(k >> 3, x3),
    Add(LowTerm(k >> 4, x4), Add(LowTerm(k >> 5, x5), Add(LowTerm(k >> 6, x6), LowTerm(k >> 7, Xtime(x6)))))))))
  }

  lemma ShiftsCompose(k: bv8)
    ensures k >> 1 >> 1 == k >> 2 && k >> 2 >> 1 == k >> 3 && k >> 3 >> 1 == k >> 4
    ensures k >> 4 >> 1 == k >> 5 && k >> 5 >> 1 == k >> 6 && k >> 6 >> 1 == k >> 7 && k >> 7 >> 1 == 0
  {
  }

  lemma MulByBitsIsMul(k: bv8, x: bv8)
    ensures Mul(k, x) == MulByBits(k, x)
  {
    var x1 := Xtime(x);
    var x2 := Xtime(x1);
    var x3 := Xtime(x2);
    var x4 := Xtime(x3);
    var x5 := Xtime(x4);
    var x6 := Xtime(x5);
    ShiftsCompose(k);
    MulUnfold(k, x);
    MulUnfold(k >> 1, x1);
    MulUnfold(k >> 2, x2);
    MulUnfold(k >> 3, x3);
    MulUnfold(k >> 4, x4);
    MulUnfold(k >> 5, x5);
    MulUnfold(k >> 6, x6);
    MulUnfold(k >> 7, Xtime(x6));
    AddZero(LowTerm(k >> 7, Xtime(x6)));
  }

  lemma SboxInverseLow(x: bv8)
    requires x < 0x80
    ensures x == 0 ==> InverseAffine(Sbox(x)) == 0
    ensures x != 0 ==> MulByBits(x, InverseAffine(Sbox(x))) == 1
  {
  }

  lemma SboxInverseMiddle(x: bv8)
    requires 0x80 <= x < 0xc0
    ensures MulByBits(x, InverseAffine(Sbox(x))) == 1
  {
    var y := InverseAffine(Sbox(x));
    assert MulByBits(x, y) == 1;
  }

  lemma SboxInverseHigh(x: bv8)
    requires x >= 0xc0
    ensures MulByBits(x, InverseAffine(Sbox(x))) == 1
  {
    var y := InverseAffine(Sbox(x));
    assert MulByBits(x, y) == 1;
  }

  lemma SboxInverseByBits(x: bv8)
    ensures x == 0 ==> InverseAffine(Sbox(x)) == 0
    ensures x != 0 ==> MulByBits(x, InverseAffine(Sbox(x))) == 1
  {
    hide Sbox, MulByBits, InverseAffine;
    if x < 0x80 {
      SboxInverseLow(x);
    } else if x < 0xc0 {
      SboxInverseMiddle(x);
    } else {
      SboxInverseHigh(x);
    }
  }

  /** The table `sbox` is the S-box of FIPS 197, section 5.1.1: the affine map of
      y, where y is 0 for x = 0 and otherwise the inverse of x. */
  lemma SboxIsAffineOfInverse(x: bv8) returns (y: bv8)
    ensures Sbox(x) == Affine(y)
    ensures if x == 0 then y == 0 else Mul(x, y) == 1
  {
    y := InverseAffine(Sbox(x));
    AffineInverse(Sbox(x));
    SboxInverseByBits(x);
    MulByBitsIsMul(x, y);
  }

  /** `rcon`. */
  const RCON: seq<bv8> := [0x01, 0x02, 0x04, 0x08, 0x10, 0x20, 0x40, 0x80, 0x1b, 0x36]

  /** The powers of x that FIPS 197, section 5.2 asks for. */
  function PowerOfX(n: nat): bv8 {
    if n == 0 then 1 else Xtime(PowerOfX(n - 1))
  }

  lemma {:induction false} RconArePowers(n: nat)
    requires n < |RCON|
    ensures RCON[n] == PowerOfX(n)
  {
    if n > 0 {
      RconArePowers(n - 1);
      assert Xtime(RCON[n - 1]) == RCON[n];
    }
  }
}
