/** How large the limbs of a five-limb multiplication may be: the carries of
    libjl777/curve25519-donna-c64.c as its 64-bit variables hold them, and as they should be. */
module Donna64Limits {
  import opened Machine
  import opened Field25519
  import opened Limbs51
  import Donna64

  const M64: int := 0x1_0000_0000_0000_0000

  /** What the 64-bit variables hold: the five carries, and limb 0 after the top carry was folded in. */
  datatype Carries = Carries(c0: int, c1: int, c2: int, c3: int, c4: int, fold: int)

  function Carry(u: int): int { u / W1 }

  function Low(u: int): (lo: int)
    ensures 0 <= lo < W1
  { u % W1 }

  /** Conversion to 64 bits. */
  function Cast(x: int): int { x % M64 }

  function TrueCarries(t: Five): Carries {
    var c0 := Carry(t.v0);
    var c1 := Carry(t.v1 + c0);
    var c2 := Carry(t.v2 + c1);
    var c3 := Carry(t.v3 + c2);
    var c4 := Carry(t.v4 + c3);
    Carries(c0, c1, c2, c3, c4, Low(t.v0) + 19 * c4)
  }

  /** Every carry is cast to 64 bits, and the fold is computed in 64 bits. */
  function CodeCarries(t: Five): Carries {
    var c0 := Cast(Carry(t.v0));
    var c1 := Cast(Carry(t.v1 + c0));
    var c2 := Cast(Carry(t.v2 + c1));
    var c3 := Cast(Carry(t.v3 + c2));
    var c4 := Cast(Carry(t.v4 + c3));
    Carries(c0, c1, c2, c3, c4, Cast(Low(t.v0) + Cast(19 * c4)))
  }

  /** The limbs that the carries leave. */
  function Carried(t: Five, c: Carries): Five {
    var x1 := Low(t.v1 + c.c0) + c.fold / W1;
    Five(c.fold % W1, x1 % W1, Low(t.v2 + c.c1) + x1 / W1, Low(t.v3 + c.c2), Low(t.v4 + c.c3))
  }

  predicate Nonnegative(t: Five) { t.v0 >= 0 && t.v1 >= 0 && t.v2 >= 0 && t.v3 >= 0 && t.v4 >= 0 }

  /** The running columns stay below 2^115 and the folded limb below 2^64. */
  predicate Fits(t: Five) {
    var c := TrueCarries(t);
    && t.v0 < W1 * M64 && t.v1 + c.c0 < W1 * M64 && t.v2 + c.c1 < W1 * M64 && t.v3 + c.c2 < W1 * M64
    && t.v4 + c.c3 < W1 * M64 && c.fold < M64
  }

  lemma CastExactly(u: int)
    requires u >= 0
    ensures Carry(u) >= 0 && (Cast(Carry(u)) == Carry(u) <==> u < W1 * M64)
  { }

  lemma FoldExactly(x: int, c: int)
    requires x >= 0 && c >= 0
    ensures Cast(x + Cast(19 * c)) == x + 19 * c <==> x + 19 * c < M64
  { }

  /** No cast and no sum of the carry chain loses anything if and only if the columns fit. */
  lemma LosslessExactly(t: Five)
    requires Nonnegative(t)
    ensures CodeCarries(t) == TrueCarries(t) <==> Fits(t)
  {
    hide Carry, Low, Cast;
    var c := TrueCarries(t);
    CastExactly(t.v0);
    CastExactly(t.v1 + c.c0);
    CastExactly(t.v2 + c.c1);
    CastExactly(t.v3 + c.c2);
    CastExactly(t.v4 + c.c3);
    FoldExactly(Low(t.v0), c.c4);
  }

  lemma CarryParts(u: int)
    ensures u == Low(u) + W1 * Carry(u)
  { }

  // ----- what is lost -----

  /** What the casts cut off the first three carries and the fold, in units of 2^64. */
  function CutOff(t: Five): Five {
    var c := CodeCarries(t);
    Five((Low(t.v0) + 19 * c.c4) / M64, Over(t.v0), Over(t.v1 + c.c0), Over(t.v2 + c.c1), 0)
  }

  function Over(u: int): int { Carry(u) / M64 }

  /** The last two carries are not cut. Columns of limbs below 2^55 are so, and columns that fit. */
  predicate Moderate(t: Five) {
    && 0 <= t.v0 < 0x8000 * W2 && 0 <= t.v1 < 0x8000 * W2 && 0 <= t.v2 < 0x8000 * W2
    && 0 <= t.v3 < 0x2000 * W2 - CodeCarries(t).c2 && 0 <= t.v4 < 0x2000 * W2 - CodeCarries(t).c3
  }

  lemma CastParts(u: int)
    requires 0 <= u < 0x1_0000 * W2
    ensures u - W1 * M64 * Over(u) == Low(u) + W1 * Cast(Carry(u))
    ensures 0 <= Cast(Carry(u)) < M64 && 0 <= Over(u) < 0x10
    ensures u < 0x2000 * W2 ==> Over(u) == 0
    ensures Over(u) == 0 <==> Cast(Carry(u)) == Carry(u)
  {
    CarryParts(u);
    var q := Carry(u);
    assert q == Cast(q) + M64 * (q / M64);
  }

  lemma FoldParts(x: int, c: int)
    requires 0 <= x < W1 && 0 <= c < M64
    ensures x + 19 * c == Cast(x + Cast(19 * c)) + M64 * ((x + 19 * c) / M64)
    ensures 0 <= (x + 19 * c) / M64 < 0x20
  { }

  /** Nothing is cut off if and only if the columns fit. */
  lemma CutExactly(t: Five)
    requires Moderate(t)
    ensures Within(CutOff(t), 0x20) && (CutOff(t) == Five(0, 0, 0, 0, 0) <==> Fits(t))
  {
    hide Carry, Low, Cast, Fits, Over;
    var c := CodeCarries(t);
    CastParts(t.v0);
    CastParts(t.v1 + c.c0);
    CastParts(t.v2 + c.c1);
    CastParts(t.v3 + c.c2);
    CastParts(t.v4 + c.c3);
    FoldParts(Low(t.v0), c.c4);
    LosslessExactly(t);
    ghost var q := Low(t.v0) + 19 * c.c4;
    assert q / M64 == 0 <==> c.fold == q;
  }

  lemma CutPoly(t: Five, x: Five, k: Five, f: int)
    requires k.v4 == 0
    ensures Poly(t) == Poly(Kept(t, k)) + M64 * (Poly(k) - k.v0)
    ensures Poly(x.(v0 := f + M64 * k.v0)) == Poly(x.(v0 := f)) + M64 * k.v0
  { }

  lemma CutBound(k: Five)
    requires Within(k, 0x20) && k.v4 == 0
    ensures 0 <= M64 * Poly(k) < P
  { }

  lemma CutRed(a: int, b: int, d: int, e: int)
    requires Red(a + d) == Red(b)
    ensures Red(a + (d + e)) == Red(b + e)
  {
    hide Red;
    RedAdd(a + d, e);
    RedAdd(b, e);
    assert a + (d + e) == (a + d) + e;
  }

  /** The limbs before the fold, and the columns without what is cut off. */
  function Lows(t: Five, c: Carries): Five {
    Five(Low(t.v0), Low(t.v1 + c.c0), Low(t.v2 + c.c1), Low(t.v3 + c.c2), Low(t.v4 + c.c3))
  }

  function Kept(t: Five, k: Five): Five {
    Five(t.v0 - W1 * M64 * k.v1, t.v1 - W1 * M64 * k.v2, t.v2 - W1 * M64 * k.v3, t.v3, t.v4)
  }

  lemma KeptPass(t: Five)
    requires Moderate(t)
    ensures var c := CodeCarries(t);
            Red(Poly(Kept(t, CutOff(t)))) == Red(Poly(Lows(t, c).(v0 := c.fold + M64 * CutOff(t).v0)))
  {
    hide Red, Carry, Low, Cast, Poly, Over;
    var c, k := CodeCarries(t), CutOff(t);
    CodeCarriesBounds(t);
    var kept, x := Kept(t, k), Lows(t, c);
    assert kept.v0 == x.v0 + W1 * c.c0 by { CastParts(t.v0); }
    assert kept.v1 + c.c0 == x.v1 + W1 * c.c1 by { CastParts(t.v1 + c.c0); }
    assert kept.v2 + c.c1 == x.v2 + W1 * c.c2 by { CastParts(t.v2 + c.c1); }
    assert kept.v3 + c.c2 == x.v3 + W1 * c.c3 by { CastParts(t.v3 + c.c2); }
    assert kept.v4 + c.c3 == x.v4 + W1 * c.c4 by { CastParts(t.v4 + c.c3); }
    FoldParts(x.v0, c.c4);
    hide Kept, Lows;
    CarryPass(kept, x, Five(c.c0, c.c1, c.c2, c.c3, c.c4));
  }

  lemma CodeCarriesBounds(t: Five)
    ensures var c := CodeCarries(t);
            Within(Five(c.c0, c.c1, c.c2, c.c3, c.c4), M64 - 1)
  {
    hide Carry;
  }

  /** The limbs together with what was cut off still stand for the columns. */
  lemma CarriedPoly(t: Five)
    requires Moderate(t)
    ensures Red(Poly(Carried(t, CodeCarries(t))) + M64 * Poly(CutOff(t))) == Red(Poly(t))
    ensures 0 <= M64 * Poly(CutOff(t)) < P
  {
    hide Red, CodeCarries, Poly, Kept;
    var c, k := CodeCarries(t), CutOff(t);
    CutExactly(t);
    KeptPass(t);
    FoldPoly(Lows(t, c), c.fold);
    CutPoly(t, Lows(t, c), k, c.fold);
    hide CutOff, Lows;
    CutBound(k);
    CutRed(Poly(Carried(t, c)), Poly(Kept(t, k)), M64 * k.v0, M64 * (Poly(k) - k.v0));
  }

  lemma FoldPoly(x: Five, f: int)
    ensures var x1 := x.v1 + f / W1;
            Poly(Five(f % W1, x1 % W1, x.v2 + x1 / W1, x.v3, x.v4)) == Poly(x.(v0 := f))
  {
    var x1 := x.v1 + f / W1;
    assert f == f % W1 + W1 * (f / W1) && x1 == x1 % W1 + W1 * (x1 / W1);
  }

  /** The carry chain as fmul writes it, casts included, on any columns that leave room for a carry. */
  method CarryChain(t0: u128, t1: u128, t2: u128, t3: u128, t4: u128)
    returns (r0: u64, r1: u64, r2: u64, r3: u64, r4: u64)
    requires Within(Five(t0 as int, t1 as int, t2 as int, t3 as int, t4 as int), W1 * W1 * 0x100_0000)
    ensures var t := Five(t0 as int, t1 as int, t2 as int, t3 as int, t4 as int);
            Five(r0 as int, r1 as int, r2 as int, r3 as int, r4 as int) == Carried(t, CodeCarries(t))
  {
    hide Carry, Cast;
    var c: u64;
    r0, c := SplitCast(t0);
    r1, c := SplitCast(t1 + c as u128);
    r2, c := SplitCast(t2 + c as u128);
    r3, c := SplitCast(t3 + c as u128);
    r4, c := SplitCast(t4 + c as u128);
    r0 := FoldCast(r0, c);
    r0, r1, r2 := LastCarries(r0, r1, r2);
  }

  /** r0 += c * 19 in 64 bits. */
  method FoldCast(r0: u64, c: u64) returns (f: u64)
    ensures f as int == Cast(r0 as int + Cast(19 * c as int))
  {
    var folded := (c as u128 * 19 % 0x1_0000_0000_0000_0000) as u64;
    f := ((r0 as u128 + folded as u128) % 0x1_0000_0000_0000_0000) as u64;
  }

  method LastCarries(f: u64, x1: u64, x2: u64) returns (r0: u64, r1: u64, r2: u64)
    requires x1 as int < W1 && x2 as int < W1
    ensures var y := x1 as int + f as int / W1;
            r0 as int == f as int % W1 && r1 as int == y % W1 && r2 as int == x2 as int + y / W1
  {
    var c := f / 0x8_0000_0000_0000;
    r0 := f % 0x8_0000_0000_0000;
    r1 := x1 + c;
    c := r1 / 0x8_0000_0000_0000;
    r1 := r1 % 0x8_0000_0000_0000;
    r2 := x2 + c;
  }

  /** The low 51 bits of a column, and its carry cut to 64 bits. */
  method SplitCast(t: u128) returns (lo: u64, c: u64)
    ensures lo as int == t as int % W1 && c as int == Cast(Carry(t as int))
  {
    lo := (t % 0x8_0000_0000_0000) as u64;
    c := (t / 0x8_0000_0000_0000 % 0x1_0000_0000_0000_0000) as u64;
  }

  // ----- when the product is right -----

  function Uniform(b: int): Five { Five(b, b, b, b, b) }

  /** What the comment of fmul allows: limbs below 2^55. */
  predicate Allowed(r: Five) { Within(r, 0x7f_ffff_ffff_ffff) }

  lemma AllowedColumns(r: Five, s: Five)
    requires Allowed(r) && Allowed(s)
    ensures Within(Columns(r, s), 0x8000 * W2 - 1) && Columns(r, s).v3 < 0x1800 * W2 && Columns(r, s).v4 < 0x1800 * W2
  {
    forall x, y | 0 <= x <= 0x7f_ffff_ffff_ffff && 0 <= y <= 0x7f_ffff_ffff_ffff
      ensures 0 <= x * y <= 0x7f_ffff_ffff_ffff * 0x7f_ffff_ffff_ffff {
      Donna64.MulLe(x, y, 0x7f_ffff_ffff_ffff, 0x7f_ffff_ffff_ffff);
    }
  }

  /** The limbs that fmul computes from r and s. */
  function CodeProduct(r: Five, s: Five): Five { Carried(Columns(r, s), CodeCarries(Columns(r, s))) }

  ghost predicate Right(r: Five, s: Five) {
    Red(Poly(CodeProduct(r, s))) == Red(Poly(r) * Poly(s))
  }

  lemma ShiftedRed(a: int, d: int)
    requires 0 <= d < P
    ensures Red(a + d) == Red(a) <==> d == 0
  { }

  /** The residue of the limbs is that of the columns exactly if nothing is cut off. */
  lemma SameResidue(t: Five)
    requires Moderate(t)
    ensures Red(Poly(Carried(t, CodeCarries(t)))) == Red(Poly(t)) <==> Fits(t)
  {
    hide Red, Poly, Fits, CodeCarries, CutOff;
    CarriedPoly(t);
    CutExactly(t);
    ShiftedRed(Poly(Carried(t, CodeCarries(t))), M64 * Poly(CutOff(t)));
    SmallPoly(CutOff(t));
  }

  /** On limbs that the comment allows the product is right if and only if the columns fit. */
  lemma RightExactly(r: Five, s: Five)
    requires Allowed(r) && Allowed(s)
    ensures Right(r, s) <==> Fits(Columns(r, s))
  {
    hide Columns, Mul, Red, Poly, Fits, CodeCarries;
    AllowedColumns(r, s);
    CodeCarriesBounds(Columns(r, s));
    SameResidue(Columns(r, s));
    ColumnsMul(r, s);
    RedMul(Poly(r), Poly(s));
  }

  /** On all limbs it is right if the columns fit. */
  lemma LosslessProduct(r: Five, s: Five, t: Five)
    requires t == Columns(r, s) && Nonnegative(t) && Fits(t)
    ensures Red(Poly(Carried(t, CodeCarries(t)))) == Red(Poly(r) * Poly(s))
  {
    hide Columns, Mul, Red, Poly;
    LosslessExactly(t);
    hide CodeCarries;
    SameResidue(t);
    ColumnsMul(r, s);
    RedMul(Poly(r), Poly(s));
  }

  lemma SmallPoly(k: Five)
    requires Within(k, 0x20)
    ensures Poly(k) == 0 <==> k == Five(0, 0, 0, 0, 0)
  { }

  lemma CommentColumns(x: Five)
    requires x == Uniform(0x7f_ffff_ffff_ffff)
    ensures Columns(x, x) == Five(0x13_3fff_ffff_ffff_b300_0000_0000_004d, 0xe_bfff_ffff_ffff_c500_0000_0000_003b,
                                  0xa_3fff_ffff_ffff_d700_0000_0000_0029, 0x5_bfff_ffff_ffff_e900_0000_0000_0017,
                                  0x1_3fff_ffff_ffff_fb00_0000_0000_0005)
  { }

  /** Limbs just below 2^55, which the comment allows: carries are cut off and the result is not the product. */
  lemma CommentTooLoose(x: Five)
    requires x == Uniform(0x7f_ffff_ffff_ffff)
    ensures Allowed(x) && !Fits(Columns(x, x)) && !Right(x, x)
  {
    hide Columns, Right;
    CommentColumns(x);
    RightExactly(x, x);
  }

  /** fmul with its casts, on all limbs whose columns stay below 2^128: output := in2 * in1. */
  method Multiply(output: array<u64>, in2: array<u64>, in1: array<u64>)
    requires output.Length == 5 && in2.Length == 5 && in1.Length == 5
    requires Within(Donna64.Limbs(in2), 0x800_0000_0000_0000) && Within(Donna64.Limbs(in1), 0x800_0000_0000_0000)
    modifies output
    ensures Donna64.Limbs(output) == CodeProduct(old(Donna64.Limbs(in1)), old(Donna64.Limbs(in2)))
    ensures old(Allowed(Donna64.Limbs(in1)) && Allowed(Donna64.Limbs(in2))) ==>
              (Donna64.Value(output) == Mul(old(Donna64.Value(in2)), old(Donna64.Value(in1))) <==>
               Fits(Columns(old(Donna64.Limbs(in1)), old(Donna64.Limbs(in2)))))
  {
    hide Columns, Carried, CodeCarries, Fits, Red, Poly, Mul;
    ghost var r, s := Donna64.Limbs(in1), Donna64.Limbs(in2);
    Donna64.AreaBound(0x800_0000_0000_0000);
    var t0, t1, t2, t3, t4 :=
      Donna64.Products(in1[0], in1[1], in1[2], in1[3], in1[4], in2[0], in2[1], in2[2], in2[3], in2[4],
                       0x800_0000_0000_0000);
    var r0, r1, r2, r3, r4 := CarryChain(t0, t1, t2, t3, t4);
    output[0], output[1], output[2], output[3], output[4] := r0, r1, r2, r3, r4;
    MulComm(Red(Poly(r)), Red(Poly(s)));
    RedMul(Poly(r), Poly(s));
    if Allowed(r) && Allowed(s) {
      RightExactly(r, s);
    }
  }

  /** A squaring that the comment allows, and that fmul gets wrong. */
  method MultiplyTooLoose() returns (x: array<u64>, output: array<u64>)
    ensures x.Length == 5 && output.Length == 5 && Donna64.Limbs(x) == Uniform(0x7f_ffff_ffff_ffff)
    ensures Donna64.Value(output) != Sqr(Donna64.Value(x))
  {
    hide Columns, Carried, CodeCarries, Fits, Red, Poly, Mul;
    x, output := new u64[5], new u64[5];
    x[0], x[1], x[2], x[3], x[4] :=
      0x7f_ffff_ffff_ffff, 0x7f_ffff_ffff_ffff, 0x7f_ffff_ffff_ffff, 0x7f_ffff_ffff_ffff, 0x7f_ffff_ffff_ffff;
    CommentTooLoose(Donna64.Limbs(x));
    Multiply(output, x, x);
  }
}
