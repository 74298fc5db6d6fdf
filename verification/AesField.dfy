/** Arithmetic of bytes as polynomials over GF(2) modulo x^8 + x^4 + x^3 + x + 1
    (FIPS 197, section 4), and the one-line `xtime` of aes.c. */
module AesField {

  /** Addition in GF(2^8) (FIPS 197, section 4.1). Naming it keeps the algebra
      below equational. */
  function Add(x: bv8, y: bv8): bv8 {
    x ^ y
  }

  /** `xtime` as aes.c computes it: multiplication by the polynomial x. */
  function Xtime(x: bv8): bv8 {
    (x << 1) ^ (((x >> 7) & 1) * 0x1b)
  }

  /** Multiplication in GF(2^8): the sum of x * 2^i over the bits i of k
      (FIPS 197, sections 4.2 and 4.2.1). */
  function Mul(k: bv8, x: bv8): bv8
    decreases k
  {
    if k == 0 then 0
    else if k & 1 == 1 then Add(x, Mul(k >> 1, Xtime(x)))
    else Mul(k >> 1, Xtime(x))
  }

  lemma AddZero(x: bv8)
    ensures Add(x, 0) == x && Add(0, x) == x && Add(x, x) == 0
  {
  }

  lemma AddCommutes(x: bv8, y: bv8)
    ensures Add(x, y) == Add(y, x)
  {
  }

  lemma AddAssociates(x: bv8, y: bv8, z: bv8)
    ensures Add(Add(x, y), z) == Add(x, Add(y, z))
  {
  }

  lemma AddInterchange(p: bv8, q: bv8, r: bv8, s: bv8)
    ensures Add(Add(p, q), Add(r, s)) == Add(Add(p, r), Add(q, s))
  {
    AddAssociates(p, q, Add(r, s));
    AddAssociates(q, r, s);
    AddCommutes(q, r);
    AddAssociates(r, q, s);
    AddAssociates(p, r, Add(q, s));
  }

  lemma XtimeAdd(x: bv8, y: bv8)
    ensures Xtime(Add(x, y)) == Add(Xtime(x), Xtime(y))
  {
  }

  /** Multiplication distributes over addition on the right. */
  lemma {:induction false} MulAdd(k: bv8, x: bv8, y: bv8)
    ensures Mul(k, Add(x, y)) == Add(Mul(k, x), Mul(k, y))
    decreases k
  {
    if k != 0 {
      XtimeAdd(x, y);
      MulAdd(k >> 1, Xtime(x), Xtime(y));
      AddInterchange(x, y, Mul(k >> 1, Xtime(x)), Mul(k >> 1, Xtime(y)));
    }
  }

  lemma AddBits(k: bv8, l: bv8)
    ensures Add(k, l) >> 1 == Add(k >> 1, l >> 1)
    ensures Add(k, l) & 1 == Add(k & 1, l & 1)
    ensures k & 1 == 0 || k & 1 == 1
  {
  }

  /** x times the lowest bit of k. */
  function LowTerm(k: bv8, x: bv8): bv8 {
    if k & 1 == 1 then x else 0
  }

  lemma MulUnfold(k: bv8, x: bv8)
    ensures Mul(k, x) == Add(LowTerm(k, x), Mul(k >> 1, Xtime(x)))
  {
    AddZero(Mul(k >> 1, Xtime(x)));
  }

  lemma LowTermAdd(k: bv8, l: bv8, x: bv8)
    ensures LowTerm(Add(k, l), x) == Add(LowTerm(k, x), LowTerm(l, x))
  {
  }

  /** Multiplication distributes over addition on the left. */
  lemma {:induction false} AddMul(k: bv8, l: bv8, x: bv8)
    ensures Mul(Add(k, l), x) == Add(Mul(k, x), Mul(l, x))
    decreases k, l
  {
    if k == 0 || l == 0 {
      AddZero(if k == 0 then l else k);
      AddZero(Mul(Add(k, l), x));
    } else {
      AddBits(k, l);
      AddMul(k >> 1, l >> 1, Xtime(x));
      MulUnfold(k, x);
      MulUnfold(l, x);
      MulUnfold(Add(k, l), x);
      LowTermAdd(k, l, x);
      AddInterchange(LowTerm(k, x), LowTerm(l, x), Mul(k >> 1, Xtime(x)), Mul(l >> 1, Xtime(x)));
    }
  }

  lemma {:induction false} MulXtime(k: bv8, x: bv8)
    ensures Mul(k, Xtime(x)) == Xtime(Mul(k, x))
    decreases k
  {
    if k != 0 {
      MulXtime(k >> 1, Xtime(x));
      XtimeAdd(x, Mul(k >> 1, Xtime(x)));
    }
  }

  lemma MulBy0x80(x: bv8)
    ensures Mul(0x80, x) == Xtime(Xtime(Xtime(Xtime(Xtime(Xtime(Xtime(x)))))))
  {
    var x3 := Xtime(Xtime(Xtime(x)));
    assert Mul(0x80, x) == Mul(0x40, Xtime(x)) == Mul(0x20, Xtime(Xtime(x))) == Mul(0x10, x3);
    var x6 := Xtime(Xtime(Xtime(x3)));
    assert Mul(0x10, x3) == Mul(8, Xtime(x3)) == Mul(4, Xtime(Xtime(x3))) == Mul(2, x6);
  }

  lemma MulBy0x1b(x: bv8)
    ensures var x3 := Xtime(Xtime(Xtime(x)));
            Mul(0x1b, x) == Add(x, Add(Xtime(x), Add(x3, Xtime(x3))))
  {
    assert Mul(0x0d, Xtime(x)) == Add(Xtime(x), Mul(3, Xtime(Xtime(Xtime(x)))));
  }

  /** x^8 reduces to x^4 + x^3 + x + 1. */
  lemma ReductionStep(x: bv8)
    ensures Xtime(Mul(0x80, x)) == Mul(0x1b, x)
  {
    MulBy0x80(x);
    MulBy0x1b(x);
    EighthPower(x);
  }

  lemma EighthPower(x: bv8)
    ensures var x3 := Xtime(Xtime(Xtime(x)));
            Xtime(Xtime(Xtime(Xtime(Xtime(x3))))) == Add(x, Add(Xtime(x), Add(x3, Xtime(x3))))
  {
  }

  lemma SmallFactors(x: bv8)
    ensures Mul(1, x) == x
    ensures Mul(2, x) == Xtime(x)
    ensures Mul(3, x) == Add(x, Xtime(x))
  {
    AddZero(x);
    AddZero(Xtime(x));
  }

  /** `xtime` twice and three times are multiplications by 4 and 8. */
  lemma DoubledFactors(x: bv8)
    ensures Mul(4, x) == Xtime(Xtime(x))
    ensures Mul(8, x) == Xtime(Xtime(Xtime(x)))
  {
    assert Mul(4, x) == Mul(2, Xtime(x)) && Mul(8, x) == Mul(4, Xtime(x)) == Mul(2, Xtime(Xtime(x)));
    SmallFactors(Xtime(x));
    SmallFactors(Xtime(Xtime(x)));
  }

  lemma XtimeShift(k: bv8)
    ensures k < 0x80 ==> Xtime(k) == k << 1 && (k << 1) >> 1 == k && (k << 1) & 1 == 0
    ensures k >= 0x80 ==> k == Add(0x80, k & 0x7f)
    ensures Xtime(0x80) == 0x1b
    ensures k & 0x7f < 0x80
  {
  }

  lemma XtimeMulSmall(k: bv8, x: bv8)
    requires k < 0x80
    ensures Mul(Xtime(k), x) == Xtime(Mul(k, x))
  {
    XtimeShift(k);
    MulXtime(k, x);
  }

  lemma XtimeMul(k: bv8, x: bv8)
    ensures Mul(Xtime(k), x) == Xtime(Mul(k, x))
  {
    XtimeShift(k);
    if k < 0x80 {
      XtimeMulSmall(k, x);
    } else {
      var l := k & 0x7f;
      XtimeMulSmall(l, x);
      ReductionStep(x);
      XtimeAdd(0x80, l);
      AddMul(0x1b, Xtime(l), x);
      AddMul(0x80, l, x);
      XtimeAdd(Mul(0x80, x), Mul(l, x));
    }
  }

  /** Multiplication associates. */
  lemma {:induction false} MulAssociates(k: bv8, l: bv8, x: bv8)
    ensures Mul(Mul(k, l), x) == Mul(k, Mul(l, x))
    decreases k
  {
    if k != 0 {
      MulUnfold(k, l);
      MulUnfold(k, Mul(l, x));
      MulAssociates(k >> 1, Xtime(l), x);
      XtimeMul(l, x);
      AddMul(LowTerm(k, l), Mul(k >> 1, Xtime(l)), x);
    }
  }
}
