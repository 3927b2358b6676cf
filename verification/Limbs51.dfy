/** Field elements as five 51-bit limbs: the algebra behind libjl777/curve25519-donna-c64.c. */
module Limbs51 {
  import opened Field25519
  import opened Bits

  const W1: int := 0x8_0000_0000_0000
  const W2: int := W1 * W1
  const W3: int := W1 * W2
  const W4: int := W1 * W3
  const W5: int := W1 * W4

  /** Limb bounds: what a multiplication returns, and what it accepts. */
  const TIGHT: int := W1
  const LOOSE: int := 0x48_0000_0000_0000

  datatype Five = Five(v0: int, v1: int, v2: int, v3: int, v4: int)

  /** The number five limbs stand for. */
  function Poly(a: Five): int {
    a.v0 + W1 * a.v1 + W2 * a.v2 + W3 * a.v3 + W4 * a.v4
  }

  predicate Within(a: Five, bound: int) {
    0 <= a.v0 <= bound && 0 <= a.v1 <= bound && 0 <= a.v2 <= bound && 0 <= a.v3 <= bound && 0 <= a.v4 <= bound
  }

  function Times(k: int, a: Five): Five {
    Five(k * a.v0, k * a.v1, k * a.v2, k * a.v3, k * a.v4)
  }

  /** The five product columns, with those of weight 2^255 and above folded back by 19. */
  function Columns(r: Five, s: Five): Five {
    Five(r.v0 * s.v0 + 19 * (r.v4 * s.v1 + r.v1 * s.v4 + r.v2 * s.v3 + r.v3 * s.v2),
         r.v0 * s.v1 + r.v1 * s.v0 + 19 * (r.v4 * s.v2 + r.v2 * s.v4 + r.v3 * s.v3),
         r.v0 * s.v2 + r.v2 * s.v0 + r.v1 * s.v1 + 19 * (r.v4 * s.v3 + r.v3 * s.v4),
         r.v0 * s.v3 + r.v3 * s.v0 + r.v1 * s.v2 + r.v2 * s.v1 + 19 * (r.v4 * s.v4),
         r.v0 * s.v4 + r.v4 * s.v0 + r.v3 * s.v1 + r.v1 * s.v3 + r.v2 * s.v2)
  }

  lemma PolyTimes(k: int, a: Five)
    ensures Poly(Times(k, a)) == k * Poly(a)
  { }

  function Plus(a: Five, b: Five): Five {
    Five(a.v0 + b.v0, a.v1 + b.v1, a.v2 + b.v2, a.v3 + b.v3, a.v4 + b.v4)
  }

  /** a - b, limb by limb, plus 8 * P spread over the limbs */
  function Minus(a: Five, b: Five): Five {
    Five(a.v0 + 0x3f_ffff_ffff_ff68 - b.v0, a.v1 + 0x3f_ffff_ffff_fff8 - b.v1, a.v2 + 0x3f_ffff_ffff_fff8 - b.v2,
         a.v3 + 0x3f_ffff_ffff_fff8 - b.v3, a.v4 + 0x3f_ffff_ffff_fff8 - b.v4)
  }

  lemma PlusIsAdd(a: Five, b: Five)
    ensures Red(Poly(Plus(a, b))) == Add(Red(Poly(a)), Red(Poly(b)))
  {
    RedAdd(Poly(a), Poly(b));
    hide Red;
    assert Poly(Plus(a, b)) == Poly(a) + Poly(b);
  }

  lemma MinusIsSub(a: Five, b: Five)
    ensures Red(Poly(Minus(a, b))) == Sub(Red(Poly(a)), Red(Poly(b)))
  {
    RedSub(Poly(a), Poly(b));
    hide Red;
    SameRed(Poly(Minus(a, b)), Poly(a) - Poly(b), 8);
  }

  lemma PolyScale(a: Five, y: int)
    ensures Poly(a) * y == Poly(Five(a.v0 * y, a.v1 * y, a.v2 * y, a.v3 * y, a.v4 * y))
  { }

  /** Schoolbook multiplication, one row per limb of r. */
  lemma PolyRows(r: Five, s: Five)
    ensures Poly(r) * Poly(s) ==
            Poly(Five(Poly(Times(r.v0, s)), Poly(Times(r.v1, s)), Poly(Times(r.v2, s)), Poly(Times(r.v3, s)),
                      Poly(Times(r.v4, s))))
  {
    hide Times;
    PolyTimes(r.v0, s);
    PolyTimes(r.v1, s);
    PolyTimes(r.v2, s);
    PolyTimes(r.v3, s);
    PolyTimes(r.v4, s);
    hide Poly;
    PolyScale(r, Poly(s));
  }

  /** Folding the columns is linear in the rows, whatever their entries are. */
  lemma FoldColumns(p0: Five, p1: Five, p2: Five, p3: Five, p4: Five)
    ensures
      var folded := Five(p0.v0 + 19 * (p4.v1 + p1.v4 + p2.v3 + p3.v2),
                         p0.v1 + p1.v0 + 19 * (p4.v2 + p2.v4 + p3.v3),
                         p0.v2 + p2.v0 + p1.v1 + 19 * (p4.v3 + p3.v4),
                         p0.v3 + p3.v0 + p1.v2 + p2.v1 + 19 * p4.v4,
                         p0.v4 + p4.v0 + p3.v1 + p1.v3 + p2.v2);
      Red(Poly(Five(Poly(p0), Poly(p1), Poly(p2), Poly(p3), Poly(p4)))) == Red(Poly(folded))
  {
    var folded := Five(p0.v0 + 19 * (p4.v1 + p1.v4 + p2.v3 + p3.v2),
                       p0.v1 + p1.v0 + 19 * (p4.v2 + p2.v4 + p3.v3),
                       p0.v2 + p2.v0 + p1.v1 + 19 * (p4.v3 + p3.v4),
                       p0.v3 + p3.v0 + p1.v2 + p2.v1 + 19 * p4.v4,
                       p0.v4 + p4.v0 + p3.v1 + p1.v3 + p2.v2);
    var k := p4.v1 + p1.v4 + p2.v3 + p3.v2 + W1 * (p4.v2 + p2.v4 + p3.v3) + W2 * (p4.v3 + p3.v4) + W3 * p4.v4;
    SameRed(Poly(Five(Poly(p0), Poly(p1), Poly(p2), Poly(p3), Poly(p4))), Poly(folded), k);
  }

  /** The folded columns represent the product. */
  lemma ColumnsMul(r: Five, s: Five)
    ensures Red(Poly(Columns(r, s))) == Mul(Red(Poly(r)), Red(Poly(s)))
  {
    FoldColumns(Times(r.v0, s), Times(r.v1, s), Times(r.v2, s), Times(r.v3, s), Times(r.v4, s));
    PolyRows(r, s);
    RedMul(Poly(r), Poly(s));
    hide Poly, Red, Mul;
  }

  /** One pass of carries t -> r, with the carry out of the top limb folded back by 19. */
  lemma CarryPass(t: Five, r: Five, c: Five)
    requires t.v0 == r.v0 + W1 * c.v0 && t.v1 + c.v0 == r.v1 + W1 * c.v1 && t.v2 + c.v1 == r.v2 + W1 * c.v2
    requires t.v3 + c.v2 == r.v3 + W1 * c.v3 && t.v4 + c.v3 == r.v4 + W1 * c.v4
    ensures Poly(t) == Poly(r) + W5 * c.v4
    ensures Red(Poly(t)) == Red(Poly(r.(v0 := r.v0 + 19 * c.v4)))
  {
    SameRed(Poly(t), Poly(r.(v0 := r.v0 + 19 * c.v4)), c.v4);
  }

  /** Every limb is a 51-bit digit. */
  predicate Proper(t: Five) {
    0 <= t.v0 < W1 && 0 <= t.v1 < W1 && 0 <= t.v2 < W1 && 0 <= t.v3 < W1 && 0 <= t.v4 < W1
  }

  lemma ProperBound(t: Five)
    requires Proper(t)
    ensures t.v0 <= Poly(t) < W5
  { }

  function Bump(t: Five, x: int): Five { t.(v0 := t.v0 + x) }

  lemma BumpPoly(t: Five, x: int)
    ensures Poly(Bump(t, x)) == Poly(t) + x
  { }

  /** A second carry pass leaves proper limbs even after its own carry is folded back. */
  lemma SecondPass(u: Five, d: int, t: Five, c: int)
    requires Proper(u) && Proper(t) && 0 <= d <= 1000 && 0 <= c
    requires Poly(Bump(u, d)) == Poly(t) + W5 * c
    ensures c <= 1 && Proper(Bump(t, 19 * c))
  {
    ProperBound(u);
    ProperBound(t);
    BumpPoly(u, d);
    hide Poly;
  }

  /** Adding 19 carries out of the top exactly when the value is at least P. */
  lemma ThirdPass(v: Five, t: Five, c: int)
    requires Proper(v) && Proper(t) && 0 <= c && Poly(Bump(v, 19)) == Poly(t) + W5 * c
    ensures c == if Poly(v) >= P then 1 else 0
  {
    ProperBound(v);
    ProperBound(t);
    BumpPoly(v, 19);
    hide Poly;
  }

  /** Adding 2^255 - 19 limb by limb and dropping the carry subtracts 19 again. */
  function AddTop(t: Five): Five {
    Five(t.v0 + W1 - 19, t.v1 + W1 - 1, t.v2 + W1 - 1, t.v3 + W1 - 1, t.v4 + W1 - 1)
  }

  lemma FourthPass(x: int, t: Five, r: Five, c: int)
    requires Proper(r) && 0 <= c && 0 <= x < P && Poly(t) == x + 19 && Poly(AddTop(t)) == Poly(r) + W5 * c
    ensures Poly(r) == x
  {
    assert Poly(AddTop(t)) == Poly(t) + W5 - 19;
    ProperBound(r);
    hide Poly;
  }

  /** The five base-2^51 digits of a number. */
  function Digits(n: nat): Five {
    Five(n % W1, n / W1 % W1, n / W2 % W1, n / W3 % W1, n / W4 % W1)
  }

  lemma DigitStep(n: nat, q: nat, w: nat)
    requires w > 0 && q == n / w
    ensures n == q * w + n % w && n / (w * W1) == q / W1
  {
    DivMod(n, w);
    DivDiv(n, w, W1);
  }

  lemma DigitsPoly(n: nat)
    ensures Poly(Digits(n)) == n % W5
  {
    var q1, q2, q3, q4, q5 := n / W1, n / W2, n / W3, n / W4, n / W5;
    DigitStep(n, n, 1);
    DivDiv(n, W1, W1);
    DivDiv(n, W2, W1);
    DivDiv(n, W3, W1);
    DivDiv(n, W4, W1);
    assert q2 == q1 / W1 && q3 == q2 / W1 && q4 == q3 / W1 && q5 == q4 / W1;
    assert n == Poly(Digits(n)) + W5 * q5;
    assert 0 <= Poly(Digits(n)) < W5;
    DivUnique(n, W5, q5, Poly(Digits(n)));
  }
}
