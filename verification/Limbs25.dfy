/** Field elements as ten signed limbs of alternately 26 and 25 bits: the algebra behind
    libjl777/curve25519-donna.c. */
module Limbs25 {
  import opened Field25519
  import opened Bits

  const R26: int := 0x400_0000
  const R25: int := 0x200_0000
  const W1: int := R26
  const W2: int := R25 * W1
  const W3: int := R26 * W2
  const W4: int := R25 * W3
  const W5: int := R26 * W4
  const W6: int := R25 * W5
  const W7: int := R26 * W6
  const W8: int := R25 * W7
  const W9: int := R26 * W8
  const W10: int := R25 * W9

  datatype Ten = Ten(v0: int, v1: int, v2: int, v3: int, v4: int, v5: int, v6: int, v7: int, v8: int, v9: int)

  /** The number ten limbs stand for. */
  function Poly(a: Ten): int {
    a.v0 + W1 * a.v1 + W2 * a.v2 + W3 * a.v3 + W4 * a.v4 + W5 * a.v5 + W6 * a.v6 + W7 * a.v7 + W8 * a.v8 + W9 * a.v9
  }

  /** Every limb is smaller than the bound in absolute value. */
  predicate Under(a: Ten, b: int) {
    && -b < a.v0 < b && -b < a.v1 < b && -b < a.v2 < b && -b < a.v3 < b && -b < a.v4 < b
    && -b < a.v5 < b && -b < a.v6 < b && -b < a.v7 < b && -b < a.v8 < b && -b < a.v9 < b
  }

  function Times(k: int, a: Ten): Ten {
    Ten(IMul(k, a.v0), IMul(k, a.v1), IMul(k, a.v2), IMul(k, a.v3), IMul(k, a.v4), IMul(k, a.v5), IMul(k, a.v6),
        IMul(k, a.v7), IMul(k, a.v8), IMul(k, a.v9))
  }

  function IMul(a: int, b: int): int { a * b }

  function Plus(a: Ten, b: Ten): Ten {
    Ten(a.v0 + b.v0, a.v1 + b.v1, a.v2 + b.v2, a.v3 + b.v3, a.v4 + b.v4, a.v5 + b.v5, a.v6 + b.v6, a.v7 + b.v7,
        a.v8 + b.v8, a.v9 + b.v9)
  }

  function Minus(a: Ten, b: Ten): Ten {
    Ten(a.v0 - b.v0, a.v1 - b.v1, a.v2 - b.v2, a.v3 - b.v3, a.v4 - b.v4, a.v5 - b.v5, a.v6 - b.v6, a.v7 - b.v7,
        a.v8 - b.v8, a.v9 - b.v9)
  }

  /** A product before reduction: nineteen columns, the upper nine of weight 2^255 and more. */
  datatype Long = Long(lo: Ten, hi: Ten)

  /** Columns of a schoolbook product whose rows are given: odd limbs meet with an extra factor 2. */
  function Gather(r0: Ten, r1: Ten, r2: Ten, r3: Ten, r4: Ten, r5: Ten, r6: Ten, r7: Ten, r8: Ten, r9: Ten): Long {
    Long(Ten(r0.v0,
             r0.v1 + r1.v0,
             r0.v2 + r2.v0 + 2 * (r1.v1),
             r0.v3 + r1.v2 + r2.v1 + r3.v0,
             r0.v4 + r2.v2 + r4.v0 + 2 * (r1.v3 + r3.v1),
             r0.v5 + r1.v4 + r2.v3 + r3.v2 + r4.v1 + r5.v0,
             r0.v6 + r2.v4 + r4.v2 + r6.v0 + 2 * (r1.v5 + r3.v3 + r5.v1),
             r0.v7 + r1.v6 + r2.v5 + r3.v4 + r4.v3 + r5.v2 + r6.v1 + r7.v0,
             r0.v8 + r2.v6 + r4.v4 + r6.v2 + r8.v0 + 2 * (r1.v7 + r3.v5 + r5.v3 + r7.v1),
             r0.v9 + r1.v8 + r2.v7 + r3.v6 + r4.v5 + r5.v4 + r6.v3 + r7.v2 + r8.v1 + r9.v0),
         Ten(r2.v8 + r4.v6 + r6.v4 + r8.v2 + 2 * (r1.v9 + r3.v7 + r5.v5 + r7.v3 + r9.v1),
             r2.v9 + r3.v8 + r4.v7 + r5.v6 + r6.v5 + r7.v4 + r8.v3 + r9.v2,
             r4.v8 + r6.v6 + r8.v4 + 2 * (r3.v9 + r5.v7 + r7.v5 + r9.v3),
             r4.v9 + r5.v8 + r6.v7 + r7.v6 + r8.v5 + r9.v4,
             r6.v8 + r8.v6 + 2 * (r5.v9 + r7.v7 + r9.v5),
             r6.v9 + r7.v8 + r8.v7 + r9.v6,
             r8.v8 + 2 * (r7.v9 + r9.v7),
             r8.v9 + r9.v8,
             2 * (r9.v9),
             0))
  }

  function Product(a: Ten, b: Ten): Long {
    Gather(Times(a.v0, b), Times(a.v1, b), Times(a.v2, b), Times(a.v3, b), Times(a.v4, b), Times(a.v5, b),
           Times(a.v6, b), Times(a.v7, b), Times(a.v8, b), Times(a.v9, b))
  }

  predicate UnderLong(l: Long, b: int) { Under(l.lo, b) && Under(l.hi, b) }

  /** Products of one element with itself do not depend on the order of the limbs. */
  lemma Symmetric(a: Ten)
    ensures IMul(a.v1, a.v0) == IMul(a.v0, a.v1)
    ensures IMul(a.v2, a.v0) == IMul(a.v0, a.v2) && IMul(a.v2, a.v1) == IMul(a.v1, a.v2)
    ensures IMul(a.v3, a.v0) == IMul(a.v0, a.v3) && IMul(a.v3, a.v1) == IMul(a.v1, a.v3)
            && IMul(a.v3, a.v2) == IMul(a.v2, a.v3)
    ensures IMul(a.v4, a.v0) == IMul(a.v0, a.v4) && IMul(a.v4, a.v1) == IMul(a.v1, a.v4)
            && IMul(a.v4, a.v2) == IMul(a.v2, a.v4) && IMul(a.v4, a.v3) == IMul(a.v3, a.v4)
    ensures IMul(a.v5, a.v0) == IMul(a.v0, a.v5) && IMul(a.v5, a.v1) == IMul(a.v1, a.v5)
            && IMul(a.v5, a.v2) == IMul(a.v2, a.v5) && IMul(a.v5, a.v3) == IMul(a.v3, a.v5)
            && IMul(a.v5, a.v4) == IMul(a.v4, a.v5)
    ensures IMul(a.v6, a.v0) == IMul(a.v0, a.v6) && IMul(a.v6, a.v1) == IMul(a.v1, a.v6)
            && IMul(a.v6, a.v2) == IMul(a.v2, a.v6) && IMul(a.v6, a.v3) == IMul(a.v3, a.v6)
            && IMul(a.v6, a.v4) == IMul(a.v4, a.v6) && IMul(a.v6, a.v5) == IMul(a.v5, a.v6)
    ensures IMul(a.v7, a.v0) == IMul(a.v0, a.v7) && IMul(a.v7, a.v1) == IMul(a.v1, a.v7)
            && IMul(a.v7, a.v2) == IMul(a.v2, a.v7) && IMul(a.v7, a.v3) == IMul(a.v3, a.v7)
            && IMul(a.v7, a.v4) == IMul(a.v4, a.v7) && IMul(a.v7, a.v5) == IMul(a.v5, a.v7)
            && IMul(a.v7, a.v6) == IMul(a.v6, a.v7)
    ensures IMul(a.v8, a.v0) == IMul(a.v0, a.v8) && IMul(a.v8, a.v1) == IMul(a.v1, a.v8)
            && IMul(a.v8, a.v2) == IMul(a.v2, a.v8) && IMul(a.v8, a.v3) == IMul(a.v3, a.v8)
            && IMul(a.v8, a.v4) == IMul(a.v4, a.v8) && IMul(a.v8, a.v5) == IMul(a.v5, a.v8)
            && IMul(a.v8, a.v6) == IMul(a.v6, a.v8) && IMul(a.v8, a.v7) == IMul(a.v7, a.v8)
    ensures IMul(a.v9, a.v0) == IMul(a.v0, a.v9) && IMul(a.v9, a.v1) == IMul(a.v1, a.v9)
            && IMul(a.v9, a.v2) == IMul(a.v2, a.v9) && IMul(a.v9, a.v3) == IMul(a.v3, a.v9)
            && IMul(a.v9, a.v4) == IMul(a.v4, a.v9) && IMul(a.v9, a.v5) == IMul(a.v5, a.v9)
            && IMul(a.v9, a.v6) == IMul(a.v6, a.v9) && IMul(a.v9, a.v7) == IMul(a.v7, a.v9)
            && IMul(a.v9, a.v8) == IMul(a.v8, a.v9)
  { }

  function Whole(l: Long): int { Poly(l.lo) + W10 * Poly(l.hi) }

  lemma PolyTimes(k: int, a: Ten)
    ensures Poly(Times(k, a)) == k * Poly(a)
  { }

  lemma GatherPoly(r0: Ten, r1: Ten, r2: Ten, r3: Ten, r4: Ten, r5: Ten, r6: Ten, r7: Ten, r8: Ten, r9: Ten)
    ensures Whole(Gather(r0, r1, r2, r3, r4, r5, r6, r7, r8, r9)) ==
            Poly(Ten(Poly(r0), Poly(r1), Poly(r2), Poly(r3), Poly(r4), Poly(r5), Poly(r6), Poly(r7), Poly(r8),
                     Poly(r9)))
  { }

  lemma PolyScale(a: Ten, y: int)
    ensures Poly(a) * y
            == Poly(Ten(a.v0 * y, a.v1 * y, a.v2 * y, a.v3 * y, a.v4 * y, a.v5 * y, a.v6 * y, a.v7 * y, a.v8 * y,
                        a.v9 * y))
  { }

  /** The nineteen columns represent the product exactly. */
  lemma ProductPoly(a: Ten, b: Ten)
    ensures Whole(Product(a, b)) == Poly(a) * Poly(b)
  {
    GatherPoly(Times(a.v0, b), Times(a.v1, b), Times(a.v2, b), Times(a.v3, b), Times(a.v4, b), Times(a.v5, b),
               Times(a.v6, b), Times(a.v7, b), Times(a.v8, b), Times(a.v9, b));
    hide Times, Gather;
    PolyTimes(a.v0, b);
    PolyTimes(a.v1, b);
    PolyTimes(a.v2, b);
    PolyTimes(a.v3, b);
    PolyTimes(a.v4, b);
    PolyTimes(a.v5, b);
    PolyTimes(a.v6, b);
    PolyTimes(a.v7, b);
    PolyTimes(a.v8, b);
    PolyTimes(a.v9, b);
    hide Poly;
    PolyScale(a, Poly(b));
  }

  /** Folding the upper columns down by 19. */
  function Folded(l: Long): Ten {
    Ten(l.lo.v0 + 19 * l.hi.v0, l.lo.v1 + 19 * l.hi.v1, l.lo.v2 + 19 * l.hi.v2, l.lo.v3 + 19 * l.hi.v3,
        l.lo.v4 + 19 * l.hi.v4, l.lo.v5 + 19 * l.hi.v5, l.lo.v6 + 19 * l.hi.v6, l.lo.v7 + 19 * l.hi.v7,
            l.lo.v8 + 19 * l.hi.v8, l.lo.v9 + 19 * l.hi.v9)
  }

  lemma FoldedRed(l: Long)
    ensures Red(Poly(Folded(l))) == Red(Whole(l))
  {
    SameRed(Whole(l), Poly(Folded(l)), Poly(l.hi));
  }

  lemma ProductMul(a: Ten, b: Ten)
    ensures Red(Poly(Folded(Product(a, b)))) == Mul(Red(Poly(a)), Red(Poly(b)))
  {
    FoldedRed(Product(a, b));
    ProductPoly(a, b);
    RedMul(Poly(a), Poly(b));
    hide Poly, Product, Red, Mul, Folded, Whole;
  }

  lemma PlusIsAdd(a: Ten, b: Ten)
    ensures Red(Poly(Plus(a, b))) == Add(Red(Poly(a)), Red(Poly(b)))
  {
    RedAdd(Poly(a), Poly(b));
    hide Red;
    assert Poly(Plus(a, b)) == Poly(a) + Poly(b);
  }

  lemma MinusIsSub(a: Ten, b: Ten)
    ensures Red(Poly(Minus(a, b))) == Sub(Red(Poly(a)), Red(Poly(b)))
  {
    RedSub(Poly(a), Poly(b));
    hide Red;
    assert Poly(Minus(a, b)) == Poly(a) - Poly(b);
  }

  // ----- limbs by index -----

  function Radix(i: nat): int { if i % 2 == 0 then R26 else R25 }

  /** Mixed-radix value of a limb sequence whose first limb has index i. */
  function Eval(s: seq<int>, i: nat): int {
    if s == [] then 0 else s[0] + Radix(i) * Eval(s[1..], i + 1)
  }

  /** Moving q units of limb k + 1 to or from limb k keeps the value. */
  lemma {:induction false} EvalMove(s: seq<int>, k: nat, i: nat, q: int)
    requires k + 1 < |s|
    ensures Eval(s[k := s[k] - Radix(i + k) * q][k + 1 := s[k + 1] + q], i) == Eval(s, i)
  {
    var t := s[k := s[k] - Radix(i + k) * q][k + 1 := s[k + 1] + q];
    if k == 0 {
      assert t[1..][1..] == s[1..][1..];
      assert Eval(t[1..], i + 1) == Eval(s[1..], i + 1) + q;
    } else {
      EvalMove(s[1..], k - 1, i + 1, q);
      assert t[1..] == s[1..][k - 1 := s[1..][k - 1] - Radix(i + 1 + k - 1) * q][k := s[1..][k] + q];
    }
  }

  lemma EvalSplit(s: seq<int>, i: nat)
    requires |s| >= 2 && i % 2 == 0
    ensures Eval(s, i) == s[0] + R26 * (s[1] + R25 * Eval(s[2..], i + 2))
  {
    assert s[1..][1..] == s[2..];
  }

  lemma EvalShort(s: seq<int>, i: nat)
    requires |s| <= 1
    ensures Eval(s, i) == if |s| == 1 then s[0] else 0
  {
    if |s| == 1 {
      assert s[1..] == [];
    }
  }

  function ToTen(s: seq<int>): Ten
    requires |s| >= 10
  {
    Ten(s[0], s[1], s[2], s[3], s[4], s[5], s[6], s[7], s[8], s[9])
  }

  /** Ten limbs, and an eleventh of weight 2^255. */
  lemma EvalTen(s: seq<int>)
    requires |s| == 10 || |s| == 11
    ensures Eval(s, 0) == Poly(ToTen(s)) + (if |s| == 11 then W10 * s[10] else 0)
  {
    hide Eval;
    EvalSplit(s, 0);
    EvalSplit(s[2..], 2);
    EvalSplit(s[4..], 4);
    EvalSplit(s[6..], 6);
    EvalSplit(s[8..], 8);
    assert s[2..][2..] == s[4..] && s[4..][2..] == s[6..] && s[6..][2..] == s[8..] && s[8..][2..] == s[10..];
    EvalShort(s[10..], 10);
  }

  /** Folding an eleventh limb into limb 0 keeps the residue. */
  lemma FoldEleventh(a: Ten, top: int)
    ensures Red(Poly(a.(v0 := a.v0 + 19 * top))) == Red(Poly(a) + W10 * top)
  {
    SameRed(Poly(a) + W10 * top, Poly(a.(v0 := a.v0 + 19 * top)), top);
  }

  lemma BumpPoly(a: Ten, x: int)
    ensures Poly(a.(v0 := a.v0 + x)) == Poly(a) + x
  { }

  // ----- canonical form -----

  /** Every limb is a proper digit of its width. */
  predicate Proper(t: Ten) {
    && 0 <= t.v0 < R26 && 0 <= t.v1 < R25 && 0 <= t.v2 < R26 && 0 <= t.v3 < R25 && 0 <= t.v4 < R26
    && 0 <= t.v5 < R25 && 0 <= t.v6 < R26 && 0 <= t.v7 < R25 && 0 <= t.v8 < R26 && 0 <= t.v9 < R25
  }

  function Bump(t: Ten, x: int): Ten { t.(v0 := t.v0 + x) }

  lemma ProperBound(t: Ten)
    requires Proper(t)
    ensures t.v0 <= Poly(t) < W10
  { }

  /** A second carry pass leaves proper limbs even after its own carry is folded back. */
  lemma SecondPass(u: Ten, d: int, t: Ten, c: int)
    requires Proper(u) && Proper(t) && 0 <= d <= 1000 && 0 <= c
    requires Poly(Bump(u, d)) == Poly(t) + W10 * c
    ensures c <= 1 && Proper(Bump(t, 19 * c))
  {
    ProperBound(u);
    ProperBound(t);
    BumpPoly(u, d);
    hide Poly;
  }

  /** The limbs of P, and when a proper element is at least P. */
  const PRIME: Ten := Ten(0x3ff_ffed, 0x1ff_ffff, 0x3ff_ffff, 0x1ff_ffff, 0x3ff_ffff, 0x1ff_ffff, 0x3ff_ffff,
                          0x1ff_ffff, 0x3ff_ffff,
                          0x1ff_ffff)

  predicate TopAllOnes(t: Ten) {
    && t.v1 == 0x1ff_ffff && t.v2 == 0x3ff_ffff && t.v3 == 0x1ff_ffff && t.v4 == 0x3ff_ffff && t.v5 == 0x1ff_ffff
    && t.v6 == 0x3ff_ffff && t.v7 == 0x1ff_ffff && t.v8 == 0x3ff_ffff && t.v9 == 0x1ff_ffff
  }

  lemma MinusPrime(t: Ten)
    ensures Poly(Minus(t, PRIME)) == Poly(t) - P
  { }

  /** Any number of proper upper limbs is at most P's, and each missing unit costs at least R26. */
  lemma AtLeastPrime(t: Ten)
    requires Proper(t)
    ensures Poly(t) >= P <==> t.v0 >= 0x3ff_ffed && TopAllOnes(t)
    ensures Poly(Minus(t, PRIME)) == Poly(t) - P
  {
    MinusPrime(t);
    var d := Minus(t, PRIME);
    assert Poly(d)
           == d.v0 + R26 * (d.v1 + R25 * (d.v2 + R26 * (d.v3 + R25 * (d.v4 + R26 * (d.v5 + R25 * (d.v6 + R26 * (d.v7
                      + R25 * (d.v8 + R26 * d.v9))))))));
  }

  /** The ten mixed-radix digits of a number. */
  function Digits(n: nat): Ten {
    Ten(n % R26, n / W1 % R25, n / W2 % R26, n / W3 % R25, n / W4 % R26, n / W5 % R25, n / W6 % R26, n / W7 % R25,
        n / W8 % R26,
        n / W9 % R25)
  }

  lemma DigitChain(n: nat)
    ensures n / W2 == n / W1 / R25 && n / W3 == n / W2 / R26 && n / W4 == n / W3 / R25 && n / W5 == n / W4 / R26
    ensures n / W6 == n / W5 / R25 && n / W7 == n / W6 / R26 && n / W8 == n / W7 / R25 && n / W9 == n / W8 / R26
    ensures n / W10 == n / W9 / R25
  {
    DivDiv(n, W1, R25);
    DivDiv(n, W2, R26);
    DivDiv(n, W3, R25);
    DivDiv(n, W4, R26);
    DivDiv(n, W5, R25);
    DivDiv(n, W6, R26);
    DivDiv(n, W7, R25);
    DivDiv(n, W8, R26);
    DivDiv(n, W9, R25);
  }

  lemma ChainPoly(n: int, q1: int, q2: int, q3: int, q4: int, q5: int, q6: int, q7: int, q8: int, q9: int, q10: int,
                  d: Ten)
    requires n == q1 * R26 + d.v0 && q1 == q2 * R25 + d.v1 && q2 == q3 * R26 + d.v2 && q3 == q4 * R25 + d.v3
    requires q4 == q5 * R26 + d.v4 && q5 == q6 * R25 + d.v5 && q6 == q7 * R26 + d.v6 && q7 == q8 * R25 + d.v7
    requires q8 == q9 * R26 + d.v8 && q9 == q10 * R25 + d.v9
    ensures n == Poly(d) + W10 * q10
  { }

  lemma DigitsPoly(n: nat)
    ensures Proper(Digits(n)) && Poly(Digits(n)) == n % W10
  {
    DigitChain(n);
    ChainPoly(n, n / W1, n / W2, n / W3, n / W4, n / W5, n / W6, n / W7, n / W8, n / W9, n / W10, Digits(n));
    ProperBound(Digits(n));
    DivUnique(n, W10, n / W10, Poly(Digits(n)));
  }
}
