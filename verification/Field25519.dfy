/** The prime field of Curve25519: residues modulo P = 2^255 - 19. */
module Field25519 {
  const P: int := 0x7fff_ffff_ffff_ffff_ffff_ffff_ffff_ffff_ffff_ffff_ffff_ffff_ffff_ffff_ffff_ffed

  type Fe = x: int | 0 <= x < P

  function Red(x: int): Fe { x % P }

  function Add(a: Fe, b: Fe): Fe { if a + b < P then a + b else a + b - P }

  function Sub(a: Fe, b: Fe): Fe { if a >= b then a - b else a - b + P }

  /** Repeated addition; MulIsProduct says that this is the residue of the product. */
  function Mul(a: Fe, b: Fe): Fe {
    if b == 0 then 0 else Add(a, Mul(a, b - 1))
  }

  function Sqr(a: Fe): Fe { Mul(a, a) }

  function Pow(x: Fe, n: nat): Fe {
    if n == 0 then 1 else Mul(x, Pow(x, n - 1))
  }

  /** Residues agree when the numbers differ by a multiple of P. */
  lemma SameRed(a: int, b: int, k: int)
    requires a == b + k * P
    ensures Red(a) == Red(b)
  { }

  lemma SmallRed(x: Fe)
    ensures Red(x) == x
  { }

  lemma AddIsSum(a: Fe, b: Fe)
    ensures Add(a, b) == Red(a + b)
  {
    SameRed(a + b, Add(a, b), if a + b < P then 0 else 1);
  }

  lemma SubIsDifference(a: Fe, b: Fe)
    ensures Sub(a, b) == Red(a - b)
  {
    SameRed(a - b, Sub(a, b), if a >= b then 0 else -1);
  }

  lemma RedAdd(a: int, b: int)
    ensures Red(a + b) == Add(Red(a), Red(b))
  {
    AddIsSum(Red(a), Red(b));
    SameRed(a + b, Red(a) + Red(b), a / P + b / P);
  }

  lemma RedSub(a: int, b: int)
    ensures Red(a - b) == Sub(Red(a), Red(b))
  {
    SubIsDifference(Red(a), Red(b));
    SameRed(a - b, Red(a) - Red(b), a / P - b / P);
  }

  lemma {:induction false} MulIsProduct(a: Fe, b: Fe)
    ensures Mul(a, b) == Red(a * b)
  {
    if b > 0 {
      MulIsProduct(a, b - 1);
      hide Red;
      assert a * b == a + a * (b - 1);
      RedAdd(a, a * (b - 1));
      SmallRed(a);
    }
  }

  lemma RedMul(a: int, b: int)
    ensures Red(a * b) == Mul(Red(a), Red(b))
  {
    var x, y, r, s := a / P, b / P, Red(a), Red(b);
    assert a * b == r * b + (x * b) * P by {
      assert a == x * P + r;
    }
    SameRed(a * b, r * b, x * b);
    assert r * b == r * s + (r * y) * P by {
      assert b == y * P + s;
    }
    SameRed(r * b, r * s, r * y);
    MulIsProduct(r, s);
  }

  lemma MulComm(a: Fe, b: Fe)
    ensures Mul(a, b) == Mul(b, a)
  {
    hide Mul, Red;
    MulIsProduct(a, b);
    MulIsProduct(b, a);
  }

  lemma MulRed(x: int, c: Fe)
    ensures Mul(Red(x), c) == Red(x * c)
  {
    hide Mul;
    RedMul(x, c);
    assert Red(c) == c;
  }

  lemma MulAssoc(a: Fe, b: Fe, c: Fe)
    ensures Mul(Mul(a, b), c) == Mul(a, Mul(b, c))
  {
    hide Mul, Red;
    calc {
      Mul(Mul(a, b), c);
      { MulIsProduct(a, b); MulRed(a * b, c); }
      Red((a * b) * c);
      { assert (a * b) * c == (b * c) * a; }
      Red((b * c) * a);
      { MulIsProduct(b, c); MulRed(b * c, a); }
      Mul(Mul(b, c), a);
      { MulComm(Mul(b, c), a); }
      Mul(a, Mul(b, c));
    }
  }

  lemma MulOne(a: Fe)
    ensures Mul(1, a) == a && Mul(a, 1) == a
  {
    hide Mul;
    MulIsProduct(1, a);
    MulIsProduct(a, 1);
  }

  /** Exchanges the middle factors of a product of two products. */
  lemma MulSwap(a: Fe, b: Fe, c: Fe, d: Fe)
    ensures Mul(Mul(a, b), Mul(c, d)) == Mul(Mul(a, c), Mul(b, d))
  {
    hide Mul;
    MulAssoc(a, b, Mul(c, d));
    MulAssoc(b, c, d);
    MulComm(b, c);
    MulAssoc(c, b, d);
    MulAssoc(a, c, Mul(b, d));
  }

  lemma MulOfAdd(s: Fe, a: Fe, b: Fe)
    ensures Mul(s, Add(a, b)) == Add(Mul(s, a), Mul(s, b))
  {
    hide Mul, Red;
    MulIsProduct(s, a);
    MulIsProduct(s, b);
    calc {
      Mul(s, Add(a, b));
      { AddIsSum(a, b); MulComm(s, Add(a, b)); }
      Mul(Red(a + b), s);
      { MulRed(a + b, s); }
      Red((a + b) * s);
      { assert (a + b) * s == s * a + s * b; }
      Red(s * a + s * b);
      { RedAdd(s * a, s * b); }
      Add(Mul(s, a), Mul(s, b));
    }
  }

  lemma MulOfSub(s: Fe, a: Fe, b: Fe)
    ensures Mul(s, Sub(a, b)) == Sub(Mul(s, a), Mul(s, b))
  {
    hide Mul, Red;
    MulIsProduct(s, a);
    MulIsProduct(s, b);
    calc {
      Mul(s, Sub(a, b));
      { SubIsDifference(a, b); MulComm(s, Sub(a, b)); }
      Mul(Red(a - b), s);
      { MulRed(a - b, s); }
      Red((a - b) * s);
      { assert (a - b) * s == s * a - s * b; }
      Red(s * a - s * b);
      { RedSub(s * a, s * b); }
      Sub(Mul(s, a), Mul(s, b));
    }
  }

  lemma MulDistrib(s: Fe, a: Fe, b: Fe)
    ensures Mul(s, Add(a, b)) == Add(Mul(s, a), Mul(s, b))
    ensures Mul(s, Sub(a, b)) == Sub(Mul(s, a), Mul(s, b))
  {
    hide Mul, Add, Sub;
    MulOfAdd(s, a, b);
    MulOfSub(s, a, b);
  }

  /** Squaring does not see the order of a difference. */
  lemma SqrSub(a: Fe, b: Fe)
    ensures Sqr(Sub(a, b)) == Sqr(Sub(b, a))
  {
    hide Mul, Red;
    SubIsDifference(a, b);
    SubIsDifference(b, a);
    RedMul(a - b, a - b);
    RedMul(b - a, b - a);
    assert (a - b) * (a - b) == (b - a) * (b - a);
  }

  lemma {:induction false} PowAdd(x: Fe, m: nat, n: nat)
    ensures Pow(x, m + n) == Mul(Pow(x, m), Pow(x, n))
  {
    hide Mul;
    if m == 0 {
      MulOne(Pow(x, n));
    } else {
      PowAdd(x, m - 1, n);
      MulAssoc(x, Pow(x, m - 1), Pow(x, n));
    }
  }

  lemma {:induction false} PowMul(x: Fe, m: nat, n: nat)
    ensures Pow(Pow(x, m), n) == Pow(x, m * n)
  {
    hide Mul;
    if n == 0 {
      assert m * n == 0;
    } else {
      PowMul(x, m, n - 1);
      PowAdd(x, m, m * (n - 1));
      assert m + m * (n - 1) == m * n;
    }
  }

  lemma {:induction false} PowOfMul(a: Fe, b: Fe, n: nat)
    ensures Pow(Mul(a, b), n) == Mul(Pow(a, n), Pow(b, n))
  {
    hide Mul;
    if n == 0 {
      MulOne(1);
    } else {
      PowOfMul(a, b, n - 1);
      MulSwap(a, b, Pow(a, n - 1), Pow(b, n - 1));
    }
  }

  lemma {:induction false} PowOfOne(n: nat)
    ensures Pow(1, n) == 1
  {
    hide Mul;
    if n > 0 {
      MulOne(1);
      PowOfOne(n - 1);
    }
  }

  lemma PowSqr(x: Fe)
    ensures Pow(x, 1) == x && Pow(x, 2) == Sqr(x)
  {
    hide Mul;
    MulOne(x);
    assert Pow(x, 1) == Mul(x, Pow(x, 0));
  }
}
