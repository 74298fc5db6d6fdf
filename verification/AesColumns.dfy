module AesColumns {
  import opened AesField

  /** The four bytes of one column of the AES state, top to bottom; also the
      first row of a circulant matrix. */
  datatype Column = Column(a: bv8, b: bv8, c: bv8, d: bv8)

  const ZERO := Column(0, 0, 0, 0)
  const ONE := Column(1, 0, 0, 0)

  /** First row of the MixColumns matrix (FIPS 197, section 5.1.3). */
  const MIX := Column(2, 3, 1, 1)

  /** First row of the InvMixColumns matrix (FIPS 197, section 5.3.3). */
  const INV_MIX := Column(0xe, 0xb, 0xd, 0x9)

  function Plus(s: Column, t: Column): Column {
    Column(Add(s.a, t.a), Add(s.b, t.b), Add(s.c, t.c), Add(s.d, t.d))
  }

  function Scale(k: bv8, s: Column): Column {
    Column(Mul(k, s.a), Mul(k, s.b), Mul(k, s.c), Mul(k, s.d))
  }

  function Sum(w: bv8, x: bv8, y: bv8, z: bv8): bv8 {
    Add(Add(w, x), Add(y, z))
  }

  function Dot(m: Column, s: Column): bv8 {
    Sum(Mul(m.a, s.a), Mul(m.b, s.b), Mul(m.c, s.c), Mul(m.d, s.d))
  }

  /** The next row of a circulant matrix. */
  function NextRow(m: Column): Column {
    Column(m.d, m.a, m.b, m.c)
  }

  /** The product of the circulant matrix with first row m and the column s. */
  function Circulant(m: Column, s: Column): Column {
    var m1 := NextRow(m);
    var m2 := NextRow(m1);
    Column(Dot(m, s), Dot(m1, s), Dot(m2, s), Dot(NextRow(m2), s))
  }

  /** The first row of the product of the circulant matrices of p and q. */
  function Compose(p: Column, q: Column): Column {
    var q1 := NextRow(q);
    var q2 := NextRow(q1);
    Plus(Plus(Scale(p.a, q), Scale(p.b, q1)), Plus(Scale(p.c, q2), Scale(p.d, NextRow(q2))))
  }

  lemma SumAdd(w: bv8, x: bv8, y: bv8, z: bv8, w': bv8, x': bv8, y': bv8, z': bv8)
    ensures Sum(Add(w, w'), Add(x, x'), Add(y, y'), Add(z, z')) == Add(Sum(w, x, y, z), Sum(w', x', y', z'))
  {
    AddInterchange(w, w', x, x');
    AddInterchange(y, y', z, z');
    AddInterchange(Add(w, x), Add(w', x'), Add(y, z), Add(y', z'));
  }

  lemma SumRotates(w: bv8, x: bv8, y: bv8, z: bv8)
    ensures Sum(w, x, y, z) == Sum(x, y, z, w)
  {
    AddAssociates(w, x, Add(y, z));
    AddAssociates(x, y, z);
    AddCommutes(w, Add(x, Add(y, z)));
    AddAssociates(Add(x, y), z, w);
  }

  lemma DotPlus(m: Column, n: Column, s: Column)
    ensures Dot(Plus(m, n), s) == Add(Dot(m, s), Dot(n, s))
  {
    AddMul(m.a, n.a, s.a);
    AddMul(m.b, n.b, s.b);
    AddMul(m.c, n.c, s.c);
    AddMul(m.d, n.d, s.d);
    SumAdd(Mul(m.a, s.a), Mul(m.b, s.b), Mul(m.c, s.c), Mul(m.d, s.d),
           Mul(n.a, s.a), Mul(n.b, s.b), Mul(n.c, s.c), Mul(n.d, s.d));
  }

  lemma MulSum(k: bv8, w: bv8, x: bv8, y: bv8, z: bv8)
    ensures Mul(k, Sum(w, x, y, z)) == Sum(Mul(k, w), Mul(k, x), Mul(k, y), Mul(k, z))
  {
    MulAdd(k, w, x);
    MulAdd(k, y, z);
    MulAdd(k, Add(w, x), Add(y, z));
  }

  lemma DotScale(k: bv8, m: Column, s: Column)
    ensures Dot(Scale(k, m), s) == Mul(k, Dot(m, s))
  {
    MulAssociates(k, m.a, s.a);
    MulAssociates(k, m.b, s.b);
    MulAssociates(k, m.c, s.c);
    MulAssociates(k, m.d, s.d);
    MulSum(k, Mul(m.a, s.a), Mul(m.b, s.b), Mul(m.c, s.c), Mul(m.d, s.d));
  }

  lemma DotCompose(p: Column, q: Column, s: Column)
    ensures Dot(p, Circulant(q, s)) == Dot(Compose(p, q), s)
  {
    var q1 := NextRow(q);
    var q2 := NextRow(q1);
    var q3 := NextRow(q2);
    DotScale(p.a, q, s);
    DotScale(p.b, q1, s);
    DotScale(p.c, q2, s);
    DotScale(p.d, q3, s);
    var ab := Plus(Scale(p.a, q), Scale(p.b, q1));
    var cd := Plus(Scale(p.c, q2), Scale(p.d, q3));
    DotPlus(Scale(p.a, q), Scale(p.b, q1), s);
    DotPlus(Scale(p.c, q2), Scale(p.d, q3), s);
    DotPlus(ab, cd, s);
  }

  lemma ComposeNextRow(p: Column, q: Column)
    ensures Compose(NextRow(p), q) == NextRow(Compose(p, q))
  {
    SumRotates(Mul(p.d, q.a), Mul(p.a, q.d), Mul(p.b, q.c), Mul(p.c, q.b));
    SumRotates(Mul(p.d, q.b), Mul(p.a, q.a), Mul(p.b, q.d), Mul(p.c, q.c));
    SumRotates(Mul(p.d, q.c), Mul(p.a, q.b), Mul(p.b, q.a), Mul(p.c, q.d));
    SumRotates(Mul(p.d, q.d), Mul(p.a, q.c), Mul(p.b, q.b), Mul(p.c, q.a));
  }

  /** Circulant matrices multiply by multiplying their first rows. */
  lemma CirculantCompose(p: Column, q: Column, s: Column)
    ensures Circulant(p, Circulant(q, s)) == Circulant(Compose(p, q), s)
  {
    var p1 := NextRow(p);
    var p2 := NextRow(p1);
    var p3 := NextRow(p2);
    DotCompose(p, q, s);
    DotCompose(p1, q, s);
    DotCompose(p2, q, s);
    DotCompose(p3, q, s);
    ComposeNextRow(p, q);
    ComposeNextRow(p1, q);
    ComposeNextRow(p2, q);
  }

  lemma CirculantOne(s: Column)
    ensures Circulant(ONE, s) == s
  {
    SmallFactors(s.a);
    SmallFactors(s.b);
    SmallFactors(s.c);
    SmallFactors(s.d);
  }

  lemma CirculantPlus(m: Column, n: Column, s: Column)
    ensures Circulant(Plus(m, n), s) == Plus(Circulant(m, s), Circulant(n, s))
  {
    var m1, n1 := NextRow(m), NextRow(n);
    var m2, n2 := NextRow(m1), NextRow(n1);
    DotPlus(m, n, s);
    DotPlus(m1, n1, s);
    DotPlus(m2, n2, s);
    DotPlus(NextRow(m2), NextRow(n2), s);
  }

  lemma {:induction false} MulZero(k: bv8)
    ensures Mul(k, 0) == 0
    decreases k
  {
    if k != 0 {
      MulZero(k >> 1);
    }
  }

  lemma CirculantZero(m: Column)
    ensures Circulant(m, ZERO) == ZERO
  {
    MulZero(m.a);
    MulZero(m.b);
    MulZero(m.c);
    MulZero(m.d);
  }

  // The column steps of aes.c

  /** v ^ w ^ x ^ y ^ z. */
  function Xor5(v: bv8, w: bv8, x: bv8, y: bv8, z: bv8): bv8 {
    Add(Add(Add(Add(v, w), x), y), z)
  }

  /** One pass of the loop of `mix_columns`. */
  function MixColumn(s: Column): Column {
    Column(Xor5(Xtime(s.a), Xtime(s.b), s.b, s.c, s.d),
           Xor5(s.a, Xtime(s.b), Xtime(s.c), s.c, s.d),
           Xor5(s.a, s.b, Xtime(s.c), Xtime(s.d), s.d),
           Xor5(Xtime(s.a), s.a, s.b, s.c, Xtime(s.d)))
  }

  /** One pass of the loop of `inv_mix_columns`, with the terms it repeats. */
  function InvMixColumnAsWritten(s: Column): Column {
    var ea, fb, gc, hd := Xtime(Xtime(s.a)), Xtime(Xtime(s.b)), Xtime(Xtime(s.c)), Xtime(Xtime(s.d));
    var eea, ffb, ggc, hhd := Xtime(ea), Xtime(fb), Xtime(gc), Xtime(hd);
    Column(Xor5(Xor5(eea, eea, s.a, ffb, s.b), gc, s.c, hd, s.d),
           Xor5(Xor5(ea, s.a, ffb, ffb, s.b), ggc, s.c, hd, s.d),
           Xor5(Xor5(ea, s.a, fb, s.b, ggc), ggc, s.c, hhd, s.d),
           Xor5(Xor5(eea, s.a, fb, s.b, gc), s.c, hhd, hhd, s.d))
  }

  /** First row of the matrix that `inv_mix_columns` really applies. */
  const WRITTEN := Column(1, 9, 5, 5)

  lemma AbsorbPair(t: bv8, p: bv8, q: bv8)
    ensures Add(Add(t, p), q) == Add(t, Add(p, q)) == Add(t, Add(q, p))
  {
    AddAssociates(t, p, q);
    AddCommutes(p, q);
  }

  lemma CancelPair(t: bv8, p: bv8)
    ensures Add(Add(t, p), p) == t
  {
    AddAssociates(t, p, p);
    AddZero(p);
    AddZero(t);
  }

  lemma SumFromLeft(w: bv8, x: bv8, y: bv8, z: bv8)
    ensures Sum(w, x, y, z) == Add(Add(Add(w, x), y), z)
  {
    AddAssociates(Add(w, x), y, z);
  }

  /** `mix_columns` is the matrix of FIPS 197, section 5.1.3. */
  lemma MixColumnIsMatrix(s: Column)
    ensures MixColumn(s) == Circulant(MIX, s)
  {
    var a2, b2, c2, d2 := Xtime(s.a), Xtime(s.b), Xtime(s.c), Xtime(s.d);
    SmallFactors(s.a);
    SmallFactors(s.b);
    SmallFactors(s.c);
    SmallFactors(s.d);
    AbsorbPair(a2, b2, s.b);
    SumFromLeft(a2, Add(s.b, b2), s.c, s.d);
    AbsorbPair(Add(s.a, b2), c2, s.c);
    SumFromLeft(s.a, b2, Add(s.c, c2), s.d);
    AbsorbPair(Add(Add(s.a, s.b), c2), d2, s.d);
    SumFromLeft(s.a, s.b, c2, Add(s.d, d2));
    AddCommutes(a2, s.a);
    SumFromLeft(Add(s.a, a2), s.b, s.c, d2);
  }

  lemma FactorsOfWritten(x: bv8)
    ensures Mul(5, x) == Add(x, Xtime(Xtime(x)))
    ensures Mul(9, x) == Add(x, Xtime(Xtime(Xtime(x))))
  {
    SmallFactors(Xtime(Xtime(x)));
    SmallFactors(Xtime(Xtime(Xtime(x))));
    assert Mul(5, x) == Add(x, Mul(2, Xtime(x)));
    assert Mul(9, x) == Add(x, Mul(4, Xtime(x))) && Mul(4, Xtime(x)) == Mul(2, Xtime(Xtime(x)));
  }

  lemma WrittenFirstRow(a: bv8, a8: bv8, b: bv8, b8: bv8, c: bv8, c4: bv8, d: bv8, d4: bv8)
    ensures Xor5(Xor5(a8, a8, a, b8, b), c4, c, d4, d) == Sum(a, Add(b, b8), Add(c, c4), Add(d, d4))
  {
    AddZero(a8);
    AddZero(a);
    var ab := Add(a, Add(b, b8));
    AbsorbPair(a, b8, b);
    AbsorbPair(ab, c4, c);
    AbsorbPair(Add(ab, Add(c, c4)), d4, d);
    SumFromLeft(a, Add(b, b8), Add(c, c4), Add(d, d4));
  }

  lemma WrittenSecondRow(a: bv8, a4: bv8, b: bv8, b8: bv8, c: bv8, c8: bv8, d: bv8, d4: bv8)
    ensures Xor5(Xor5(a4, a, b8, b8, b), c8, c, d4, d) == Sum(Add(a, a4), b, Add(c, c8), Add(d, d4))
  {
    AddCommutes(a4, a);
    var ab := Add(Add(a, a4), b);
    CancelPair(Add(a, a4), b8);
    AbsorbPair(ab, c8, c);
    AbsorbPair(Add(ab, Add(c, c8)), d4, d);
    SumFromLeft(Add(a, a4), b, Add(c, c8), Add(d, d4));
  }

  lemma WrittenThirdRow(a: bv8, a4: bv8, b: bv8, b4: bv8, c: bv8, c8: bv8, d: bv8, d8: bv8)
    ensures Xor5(Xor5(a4, a, b4, b, c8), c8, c, d8, d) == Sum(Add(a, a4), Add(b, b4), c, Add(d, d8))
  {
    AddCommutes(a4, a);
    var ab := Add(Add(a, a4), Add(b, b4));
    AbsorbPair(Add(a, a4), b4, b);
    CancelPair(ab, c8);
    AbsorbPair(Add(ab, c), d8, d);
    SumFromLeft(Add(a, a4), Add(b, b4), c, Add(d, d8));
  }

  lemma WrittenFourthRow(a: bv8, a8: bv8, b: bv8, b4: bv8, c: bv8, c4: bv8, d: bv8, d8: bv8)
    ensures Xor5(Xor5(a8, a, b4, b, c4), c, d8, d8, d) == Sum(Add(a, a8), Add(b, b4), Add(c, c4), d)
  {
    AddCommutes(a8, a);
    var ab := Add(Add(a, a8), Add(b, b4));
    AbsorbPair(Add(a, a8), b4, b);
    AbsorbPair(ab, c4, c);
    CancelPair(Add(ab, Add(c, c4)), d8);
    SumFromLeft(Add(a, a8), Add(b, b4), Add(c, c4), d);
  }

  lemma FactorsOfColumn(s: Column)
    ensures Scale(1, s) == s
    ensures Scale(5, s) == Plus(s, Column(Xtime(Xtime(s.a)), Xtime(Xtime(s.b)), Xtime(Xtime(s.c)), Xtime(Xtime(s.d))))
    ensures Scale(9, s) == Plus(s, Column(Xtime(Xtime(Xtime(s.a))), Xtime(Xtime(Xtime(s.b))),
                                          Xtime(Xtime(Xtime(s.c))), Xtime(Xtime(Xtime(s.d)))))
  {
    SmallFactors(s.a);
    SmallFactors(s.b);
    SmallFactors(s.c);
    SmallFactors(s.d);
    FactorsOfWritten(s.a);
    FactorsOfWritten(s.b);
    FactorsOfWritten(s.c);
    FactorsOfWritten(s.d);
  }

  /** The repeated terms of `inv_mix_columns` cancel, which leaves a matrix other
      than that of FIPS 197, section 5.3.3. */
  lemma WrittenIsMatrix(s: Column)
    ensures InvMixColumnAsWritten(s) == Circulant(WRITTEN, s)
  {
    var ea, fb, gc, hd := Xtime(Xtime(s.a)), Xtime(Xtime(s.b)), Xtime(Xtime(s.c)), Xtime(Xtime(s.d));
    var eea, ffb, ggc, hhd := Xtime(ea), Xtime(fb), Xtime(gc), Xtime(hd);
    FactorsOfColumn(s);
    WrittenFirstRow(s.a, eea, s.b, ffb, s.c, gc, s.d, hd);
    WrittenSecondRow(s.a, ea, s.b, ffb, s.c, ggc, s.d, hd);
    WrittenThirdRow(s.a, ea, s.b, fb, s.c, ggc, s.d, hhd);
    WrittenFourthRow(s.a, eea, s.b, fb, s.c, gc, s.d, hhd);
    assert Mul(9, s.b) == Scale(9, s).b;
  }

  lemma MixConstants()
    ensures Compose(INV_MIX, MIX) == ONE
    ensures Compose(MIX, INV_MIX) == ONE
  {
  }

  lemma CubeConstants()
    ensures Compose(MIX, Compose(MIX, MIX)) == INV_MIX
  {
  }

  /** What is left of the written inverse after mixing, less the identity. */
  const DEFECT := Column(0, 0x11, 0x15, 0x0d)

  /** The inverse of the circulant matrix DEFECT. */
  const DEFECT_INVERSE := Column(0xb5, 0x1e, 0xe7, 0x03)

  lemma DefectConstants()
    ensures Compose(WRITTEN, MIX) == Plus(ONE, DEFECT)
  {
  }

  lemma MulByNibbles(k: bv8, x: bv8)
    ensures Mul(k, x) == Add(Mul(k & 15, x), Mul(k >> 4, Xtime(Xtime(Xtime(Xtime(x))))))
  {
    var x2 := Xtime(Xtime(x));
    NibblesOf(k);
    AddMul(k & 15, k & 0xf0, x);
    MulUnfold(k & 0xf0, x);
    MulUnfold((k & 0xf0) >> 1, Xtime(x));
    MulUnfold((k & 0xf0) >> 1 >> 1, x2);
    MulUnfold((k & 0xf0) >> 1 >> 1 >> 1, Xtime(x2));
    AddZero(Mul((k & 0xf0) >> 1, Xtime(x)));
    AddZero(Mul((k & 0xf0) >> 1 >> 1, x2));
    AddZero(Mul((k & 0xf0) >> 1 >> 1 >> 1, Xtime(x2)));
    AddZero(Mul(k >> 4, Xtime(Xtime(x2))));
  }

  lemma NibblesOf(k: bv8)
    ensures k == Add(k & 15, k & 0xf0)
    ensures (k & 0xf0) & 1 == 0 && ((k & 0xf0) >> 1) & 1 == 0
    ensures ((k & 0xf0) >> 1 >> 1) & 1 == 0 && ((k & 0xf0) >> 1 >> 1 >> 1) & 1 == 0
    ensures (k & 0xf0) >> 1 >> 1 >> 1 >> 1 == k >> 4
  {
  }

  lemma DefectFirstHalf()
    ensures Scale(0xb5, DEFECT) == Column(0, 0x10, 0xf2, 0x88)
    ensures Scale(0x1e, NextRow(DEFECT)) == Column(0x96, 0, 0xe5, 0x9d)
  {
    MulZero(0xb5);
    MulZero(0x1e);
    MulByNibbles(0xb5, 0x11);
    assert Mul(0x5, 0x11) == 0x55 && Mul(0xb, 0x0b) == 0x45;
    MulByNibbles(0xb5, 0x15);
    assert Mul(0x5, 0x15) == 0x41 && Mul(0xb, 0x4b) == 0xb3;
    MulByNibbles(0xb5, 0x0d);
    assert Mul(0x5, 0x0d) == 0x39 && Mul(0xb, 0xd0) == 0xb1;
    MulByNibbles(0x1e, 0x11);
    assert Mul(0x7, 0x22) == 0xee;
    assert Mul(0xe, 0x11) == 0xee && Mul(0x1, 0x0b) == 0x0b;
    MulByNibbles(0x1e, 0x15);
    assert Mul(0x7, 0x2a) == 0xd6;
    assert Mul(0xe, 0x15) == 0xd6 && Mul(0x1, 0x4b) == 0x4b;
    MulByNibbles(0x1e, 0x0d);
    assert Mul(0x7, 0x1a) == 0x46;
    assert Mul(0xe, 0x0d) == 0x46 && Mul(0x1, 0xd0) == 0xd0;
  }

  lemma DefectSecondHalf()
    ensures Scale(0xe7, NextRow(NextRow(DEFECT))) == Column(0xa4, 0x2f, 0, 0x15)
    ensures Scale(0x03, NextRow(NextRow(NextRow(DEFECT)))) == Column(0x33, 0x3f, 0x17, 0)
  {
    MulZero(0xe7);
    MulZero(0x03);
    MulByNibbles(0xe7, 0x11);
    assert Mul(0x7, 0x11) == 0x77 && Mul(0xe, 0x0b) == 0x62;
    MulByNibbles(0xe7, 0x15);
    assert Mul(0x7, 0x15) == 0x6b && Mul(0xe, 0x4b) == 0xcf;
    MulByNibbles(0xe7, 0x0d);
    assert Mul(0x7, 0x0d) == 0x23 && Mul(0xe, 0xd0) == 0x0c;
  }

  lemma DefectInverts()
    ensures Compose(DEFECT_INVERSE, DEFECT) == ONE
  {
    DefectFirstHalf();
    DefectSecondHalf();
  }

  /** InvMixColumns undoes `mix_columns` on every column, and the other way round. */
  lemma InvMixUndoesMix(s: Column)
    ensures Circulant(INV_MIX, MixColumn(s)) == s
    ensures MixColumn(Circulant(INV_MIX, s)) == s
  {
    MixColumnIsMatrix(s);
    MixColumnIsMatrix(Circulant(INV_MIX, s));
    MixConstants();
    CirculantCompose(INV_MIX, MIX, s);
    CirculantCompose(MIX, INV_MIX, s);
    CirculantOne(s);
  }

  /** Mixing three times is InvMixColumns, so mixing four times is the identity. */
  lemma MixColumnHasOrderFour(s: Column)
    ensures MixColumn(MixColumn(MixColumn(s))) == Circulant(INV_MIX, s)
    ensures MixColumn(MixColumn(MixColumn(MixColumn(s)))) == s
  {
    MixColumnIsMatrix(s);
    MixColumnIsMatrix(MixColumn(s));
    MixColumnIsMatrix(MixColumn(MixColumn(s)));
    CirculantCompose(MIX, MIX, s);
    CirculantCompose(MIX, Compose(MIX, MIX), s);
    CubeConstants();
    InvMixUndoesMix(s);
  }

  lemma AddCancels(x: bv8, y: bv8)
    ensures Add(x, y) == x <==> y == 0
  {
    AddZero(x);
    AddZero(y);
    AddAssociates(x, x, y);
  }

  lemma PlusCancels(s: Column, t: Column)
    ensures Plus(s, t) == s <==> t == ZERO
  {
    AddCancels(s.a, t.a);
    AddCancels(s.b, t.b);
    AddCancels(s.c, t.c);
    AddCancels(s.d, t.d);
  }

  /** An invertible circulant matrix sends only the zero column to zero. */
  lemma KernelOfInvertible(m: Column, m': Column, s: Column)
    requires Compose(m', m) == ONE
    ensures Circulant(m, s) == ZERO <==> s == ZERO
  {
    CirculantZero(m);
    CirculantZero(m');
    CirculantCompose(m', m, s);
    CirculantOne(s);
  }

  lemma DefectKernel(s: Column)
    ensures Circulant(DEFECT, s) == ZERO <==> s == ZERO
  {
    DefectInverts();
    KernelOfInvertible(DEFECT, DEFECT_INVERSE, s);
  }

  /** `inv_mix_columns` as written undoes `mix_columns` on the zero column only. */
  lemma WrittenInverseUndoesMixIff(s: Column)
    ensures InvMixColumnAsWritten(MixColumn(s)) == s <==> s == ZERO
  {
    MixColumnIsMatrix(s);
    WrittenIsMatrix(MixColumn(s));
    CirculantCompose(WRITTEN, MIX, s);
    DefectConstants();
    CirculantPlus(ONE, DEFECT, s);
    CirculantOne(s);
    PlusCancels(s, Circulant(DEFECT, s));
    DefectKernel(s);
  }
}
