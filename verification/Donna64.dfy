/** The 64-bit implementation of X25519, libjl777/curve25519-donna-c64.c.
    A field element is an array of five unsigned 64-bit limbs; products are 128 bits wide.
    Masking by 2^51 - 1 is written as a remainder and a right shift as a division. */
module Donna64 {
  import opened Machine
  import opened Field25519
  import opened Limbs51
  import opened X25519
  import opened Bits

  // ----- field elements held in arrays -----

  ghost function Limbs(a: array<u64>): Five
    reads a
    requires a.Length == 5
  {
    Five(a[0] as int, a[1] as int, a[2] as int, a[3] as int, a[4] as int)
  }

  ghost function Value(a: array<u64>): Fe
    reads a
    requires a.Length == 5
  {
    Red(Poly(Limbs(a)))
  }

  /** What a multiplication accepts; a difference of reduced elements has such limbs. */
  ghost predicate Loose(a: array<u64>)
    reads a
    ensures Loose(a) ==> a.Length == 5
  {
    a.Length == 5 && Within(Limbs(a), LOOSE)
  }

  /** A sum of two elements. */
  ghost predicate Summed(a: array<u64>)
    reads a
    ensures Summed(a) ==> Loose(a)
  {
    a.Length == 5 && Within(Limbs(a), 2 * TIGHT + 0x1000_0000)
  }

  /** A scalar product: limb 0 has taken the last carry. */
  ghost predicate Scaled(a: array<u64>)
    reads a
    ensures Scaled(a) ==> Summed(a)
  {
    a.Length == 5 && Within(Limbs(a), TIGHT + 0x1000_0000)
  }

  /** Reduced coefficients, as a multiplication returns them. */
  ghost predicate Tight(a: array<u64>)
    reads a
    ensures Tight(a) ==> Scaled(a)
  {
    a.Length == 5 && Within(Limbs(a), TIGHT)
  }

  /** memcpy of five limbs */
  method Copy(a: array<u64>) returns (b: array<u64>)
    requires Tight(a)
    ensures fresh(b) && Tight(b) && Value(b) == Value(a)
  {
    b := new u64[5];
    b[0], b[1], b[2], b[3], b[4] := a[0], a[1], a[2], a[3], a[4];
    assert Limbs(b) == Limbs(a);
  }

  /** output += input */
  method Sum(output: array<u64>, input: array<u64>)
    requires output != input && Scaled(output) && Tight(input)
    modifies output
    ensures Summed(output)
    ensures Value(output) == Add(old(Value(output)), Value(input))
  {
    hide Red, Poly;
    PlusIsAdd(Limbs(output), Limbs(input));
    output[0], output[1], output[2], output[3], output[4] :=
      output[0] + input[0], output[1] + input[1], output[2] + input[2], output[3] + input[3], output[4] + input[4];
  }

  /** out := input - out, with 8 * P added so that no limb underflows */
  method DifferenceBackwards(out: array<u64>, input: array<u64>)
    requires out != input && Summed(out) && Tight(input)
    modifies out
    ensures Loose(out) && Value(out) == Sub(Value(input), old(Value(out)))
  {
    hide Red, Poly;
    MinusIsSub(Limbs(input), Limbs(out));
    var two54m152, two54m8: u64 := 0x3f_ffff_ffff_ff68, 0x3f_ffff_ffff_fff8;
    out[0], out[1], out[2], out[3], out[4] :=
      input[0] + two54m152 - out[0], input[1] + two54m8 - out[1], input[2] + two54m8 - out[2],
      input[3] + two54m8 - out[3], input[4] + two54m8 - out[4];
  }

  /** Splits a 128-bit column into its low 51 bits and a 64-bit carry. */
  method Split(t: u128) returns (lo: u64, c: u64)
    requires t as int < W1 * 0x1_0000_0000_0000_0000
    ensures t as int == lo as int + W1 * c as int
    ensures lo as int < W1
  {
    lo := (t % 0x8_0000_0000_0000) as u64;
    c := (t / 0x8_0000_0000_0000) as u64;
  }

  /** output := input * scalar */
  method ScalarProduct(output: array<u64>, input: array<u64>, scalar: u64)
    requires output.Length == 5 && Loose(input) && scalar as int <= 0x2_0000
    modifies output
    ensures Scaled(output)
    ensures Value(output) == Mul(old(Value(input)), Red(scalar as int))
  {
    hide Red, Mul;
    ghost var x, k := Limbs(input), scalar as int;
    var c0, c1, c2, c3, c4;
    var i0, i1, i2, i3, i4 := input[0], input[1], input[2], input[3], input[4];
    var r0, r1, r2, r3, r4;
    ScaledBounds(k, x);
    r0, c0 := Split(i0 as u128 * scalar as u128);
    r1, c1 := Split(i1 as u128 * scalar as u128 + c0 as u128);
    r2, c2 := Split(i2 as u128 * scalar as u128 + c1 as u128);
    r3, c3 := Split(i3 as u128 * scalar as u128 + c2 as u128);
    r4, c4 := Split(i4 as u128 * scalar as u128 + c3 as u128);
    output[0], output[1], output[2], output[3], output[4] := r0 + c4 * 19, r1, r2, r3, r4;
    CarryPass(Times(k, x), Five(r0 as int, r1 as int, r2 as int, r3 as int, r4 as int),
              Five(c0 as int, c1 as int, c2 as int, c3 as int, c4 as int));
    PolyTimes(k, x);
    RedMul(Poly(x), k);
  }

  lemma ScaledBounds(k: int, x: Five)
    requires 0 <= k <= 0x2_0000 && Within(x, LOOSE)
    ensures Within(Times(k, x), 0x2_0000 * LOOSE)
  {
    MulLe(k, x.v0, 0x2_0000, LOOSE);
    MulLe(k, x.v1, 0x2_0000, LOOSE);
    MulLe(k, x.v2, 0x2_0000, LOOSE);
    MulLe(k, x.v3, 0x2_0000, LOOSE);
    MulLe(k, x.v4, 0x2_0000, LOOSE);
  }

  lemma MulLe(a: int, b: int, x: int, y: int)
    requires 0 <= a <= x && 0 <= b <= y
    ensures 0 <= a * b <= x * y
  {
    assert a * b <= a * y <= x * y;
  }

  ghost function Area(b: int): int { b * b }

  lemma AreaBound(b: int)
    requires 0 <= b <= 0x800_0000_0000_0000
    ensures 0 <= Area(b) <= 0x40_0000_0000_0000_0000_0000_0000_0000
  {
    MulLe(b, b, 0x800_0000_0000_0000, 0x800_0000_0000_0000);
  }

  /** The 64 by 64 to 128 bit product; `a` is known to be `m` times the limb `x`, and limbs are at most `bound`. */
  method WideMul(a: u64, b: u64, ghost m: int, ghost x: int, ghost bound: int) returns (p: u128)
    requires a as int == m * x && 0 <= m <= 38 && 0 <= x <= bound && b as int <= bound <= 0x800_0000_0000_0000
    ensures p as int == m * (x * b as int)
    ensures 0 <= x * b as int <= Area(bound)
  {
    MulLe(x, b as int, bound, bound);
    AreaBound(bound);
    MulLe(m, x * b as int, 38, Area(bound));
    assert a as int * b as int == m * (x * b as int);
    p := a as u128 * b as u128;
  }

  ghost predicate ColumnBounds(t: Five, bound: int) {
    && 0 <= t.v0 <= 77 * Area(bound) && 0 <= t.v1 <= 59 * Area(bound) && 0 <= t.v2 <= 41 * Area(bound)
    && 0 <= t.v3 <= 23 * Area(bound) && 0 <= t.v4 <= 5 * Area(bound)
  }

  /** The column sums t[0..4] of a multiplication of limbs up to `bound`. */
  method Products(a0: u64, a1: u64, a2: u64, a3: u64, a4: u64, s0: u64, s1: u64, s2: u64, s3: u64, s4: u64,
                  ghost bound: int)
    returns (t0: u128, t1: u128, t2: u128, t3: u128, t4: u128)
    requires bound <= 0x800_0000_0000_0000
    requires Within(Five(a0 as int, a1 as int, a2 as int, a3 as int, a4 as int), bound)
    requires Within(Five(s0 as int, s1 as int, s2 as int, s3 as int, s4 as int), bound)
    ensures Five(t0 as int, t1 as int, t2 as int, t3 as int, t4 as int) ==
            Columns(Five(a0 as int, a1 as int, a2 as int, a3 as int, a4 as int),
                    Five(s0 as int, s1 as int, s2 as int, s3 as int, s4 as int))
    ensures ColumnBounds(Five(t0 as int, t1 as int, t2 as int, t3 as int, t4 as int), bound)
  {
    AreaBound(bound);
    hide Area;
    var r1, r2, r3, r4 := a1, a2, a3, a4;
    var p00 := WideMul(a0, s0, 1, a0 as int, bound);
    var p01 := WideMul(a0, s1, 1, a0 as int, bound);
    var p10 := WideMul(r1, s0, 1, r1 as int, bound);
    var p02 := WideMul(a0, s2, 1, a0 as int, bound);
    var p20 := WideMul(r2, s0, 1, r2 as int, bound);
    var p11 := WideMul(r1, s1, 1, r1 as int, bound);
    var p03 := WideMul(a0, s3, 1, a0 as int, bound);
    var p30 := WideMul(r3, s0, 1, r3 as int, bound);
    var p12 := WideMul(r1, s2, 1, r1 as int, bound);
    var p21 := WideMul(r2, s1, 1, r2 as int, bound);
    var p04 := WideMul(a0, s4, 1, a0 as int, bound);
    var p40 := WideMul(r4, s0, 1, r4 as int, bound);
    var p31 := WideMul(r3, s1, 1, r3 as int, bound);
    var p13 := WideMul(r1, s3, 1, r1 as int, bound);
    var p22 := WideMul(r2, s2, 1, r2 as int, bound);
    t0 := p00;
    t1 := p01 + p10;
    t2 := p02 + p20 + p11;
    t3 := p03 + p30 + p12 + p21;
    t4 := p04 + p40 + p31 + p13 + p22;

    r4, r1, r2, r3 := r4 * 19, r1 * 19, r2 * 19, r3 * 19;

    var q41 := WideMul(r4, s1, 19, a4 as int, bound);
    var q14 := WideMul(r1, s4, 19, a1 as int, bound);
    var q23 := WideMul(r2, s3, 19, a2 as int, bound);
    var q32 := WideMul(r3, s2, 19, a3 as int, bound);
    var q42 := WideMul(r4, s2, 19, a4 as int, bound);
    var q24 := WideMul(r2, s4, 19, a2 as int, bound);
    var q33 := WideMul(r3, s3, 19, a3 as int, bound);
    var q43 := WideMul(r4, s3, 19, a4 as int, bound);
    var q34 := WideMul(r3, s4, 19, a3 as int, bound);
    var q44 := WideMul(r4, s4, 19, a4 as int, bound);
    t0 := t0 + (q41 + q14 + q23 + q32);
    t1 := t1 + (q42 + q24 + q33);
    t2 := t2 + (q43 + q34);
    t3 := t3 + q44;
  }

  /** The column sums of a squaring: equal products are added once, doubled. */
  method Squares(r0: u64, r1: u64, r2: u64, r3: u64, r4: u64)
    returns (t0: u128, t1: u128, t2: u128, t3: u128, t4: u128)
    requires Within(Five(r0 as int, r1 as int, r2 as int, r3 as int, r4 as int), LOOSE)
    ensures Five(t0 as int, t1 as int, t2 as int, t3 as int, t4 as int) ==
            Columns(Five(r0 as int, r1 as int, r2 as int, r3 as int, r4 as int),
                    Five(r0 as int, r1 as int, r2 as int, r3 as int, r4 as int))
    ensures ColumnBounds(Five(t0 as int, t1 as int, t2 as int, t3 as int, t4 as int), LOOSE)
  {
    var d0 := r0 * 2;
    var d1 := r1 * 2;
    var d2 := r2 * 2 * 19;
    var d419 := r4 * 19;
    var d4 := d419 * 2;

    var p00 := WideMul(r0, r0, 1, r0 as int, LOOSE);
    var q41 := WideMul(d4, r1, 38, r4 as int, LOOSE);
    var q23 := WideMul(d2, r3, 38, r2 as int, LOOSE);
    var p01 := WideMul(d0, r1, 2, r0 as int, LOOSE);
    var q42 := WideMul(d4, r2, 38, r4 as int, LOOSE);
    var q33 := WideMul(r3 * 19, r3, 19, r3 as int, LOOSE);
    var p02 := WideMul(d0, r2, 2, r0 as int, LOOSE);
    var p11 := WideMul(r1, r1, 1, r1 as int, LOOSE);
    var q43 := WideMul(d4, r3, 38, r4 as int, LOOSE);
    var p03 := WideMul(d0, r3, 2, r0 as int, LOOSE);
    var p12 := WideMul(d1, r2, 2, r1 as int, LOOSE);
    var q44 := WideMul(d419, r4, 19, r4 as int, LOOSE);
    var p04 := WideMul(d0, r4, 2, r0 as int, LOOSE);
    var p13 := WideMul(d1, r3, 2, r1 as int, LOOSE);
    var p22 := WideMul(r2, r2, 1, r2 as int, LOOSE);
    t0 := p00 + q41 + q23;
    t1 := p01 + q42 + q33;
    t2 := p02 + p11 + q43;
    t3 := p03 + p12 + q44;
    t4 := p04 + p13 + p22;
  }

  /** Folds the top carry into limb 0 and carries twice more. */
  method FoldTop(x0: u64, x1: u64, x2: u64, c4: u64) returns (r0: u64, r1: u64, r2: u64)
    requires x0 as int < W1 && x1 as int < W1 && x2 as int < W1 && 19 * c4 as int <= 124 * 0x200_0000_0000_0000
    ensures r0 as int <= TIGHT && r1 as int <= TIGHT && r2 as int <= TIGHT
    ensures r0 as int + W1 * r1 as int + W2 * r2 as int == x0 as int + 19 * c4 as int + W1 * x1 as int + W2 * x2 as int
  {
    r0 := x0 + c4 * 19;
    var c := r0 / 0x8_0000_0000_0000;
    r0 := r0 % 0x8_0000_0000_0000;
    r1 := x1 + c;
    c := r1 / 0x8_0000_0000_0000;
    r1 := r1 % 0x8_0000_0000_0000;
    r2 := x2 + c;
  }

  /** Carries five columns down to reduced limbs; every 64-bit cast of a carry is lossless. */
  method Carry(t0: u128, t1: u128, t2: u128, t3: u128, t4: u128) returns (r0: u64, r1: u64, r2: u64, r3: u64, r4: u64)
    requires ColumnBounds(Five(t0 as int, t1 as int, t2 as int, t3 as int, t4 as int), LOOSE)
    ensures Within(Five(r0 as int, r1 as int, r2 as int, r3 as int, r4 as int), TIGHT)
    ensures Red(Poly(Five(r0 as int, r1 as int, r2 as int, r3 as int, r4 as int))) ==
            Red(Poly(Five(t0 as int, t1 as int, t2 as int, t3 as int, t4 as int)))
  {
    var c0, c1, c2, c3, c4;
    r0, c0 := Split(t0);
    r1, c1 := Split(t1 + c0 as u128);
    r2, c2 := Split(t2 + c1 as u128);
    r3, c3 := Split(t3 + c2 as u128);
    r4, c4 := Split(t4 + c3 as u128);
    CarryPass(Five(t0 as int, t1 as int, t2 as int, t3 as int, t4 as int),
              Five(r0 as int, r1 as int, r2 as int, r3 as int, r4 as int),
              Five(c0 as int, c1 as int, c2 as int, c3 as int, c4 as int));
    ghost var x := Five(r0 as int + 19 * c4 as int, r1 as int, r2 as int, r3 as int, r4 as int);
    r0, r1, r2 := FoldTop(r0, r1, r2, c4);
    assert Poly(Five(r0 as int, r1 as int, r2 as int, r3 as int, r4 as int)) == Poly(x);
  }

  /** output := in2 * in1 */
  method Multiply(output: array<u64>, in2: array<u64>, in1: array<u64>)
    requires output.Length == 5 && Loose(in2) && Loose(in1)
    modifies output
    ensures Tight(output) && Value(output) == Mul(old(Value(in2)), old(Value(in1)))
  {
    ghost var r, s := Limbs(in1), Limbs(in2);
    var t0, t1, t2, t3, t4 := Products(in1[0], in1[1], in1[2], in1[3], in1[4], in2[0], in2[1], in2[2], in2[3], in2[4],
                                      LOOSE);
    var r0, r1, r2, r3, r4 := Carry(t0, t1, t2, t3, t4);
    output[0], output[1], output[2], output[3], output[4] := r0, r1, r2, r3, r4;
    ColumnsMul(r, s);
    MulComm(Red(Poly(r)), Red(Poly(s)));
  }

  /** How often the do-while loop of fsquare_times runs: its counter is decremented before the test. */
  function Rounds(count: u64): nat {
    if count == 0 then 0x1_0000_0000_0000_0000 else count as nat
  }

  /** output := input squared count times */
  method SquareTimes(output: array<u64>, input: array<u64>, count: u64)
    requires output.Length == 5 && Loose(input)
    modifies output
    ensures Tight(output) && Value(output) == Squarings(old(Value(input)), Rounds(count))
  {
    hide Poly, Red, Mul;
    ghost var v, done := Value(input), 0;
    var r0, r1, r2, r3, r4 := input[0], input[1], input[2], input[3], input[4];
    var left := count;
    var more := true;
    while more
      invariant Within(Five(r0 as int, r1 as int, r2 as int, r3 as int, r4 as int), LOOSE)
      invariant Red(Poly(Five(r0 as int, r1 as int, r2 as int, r3 as int, r4 as int))) == Squarings(v, done)
      invariant more ==> Rounds(left) == Rounds(count) - done
      invariant !more ==> done == Rounds(count) && Within(Five(r0 as int, r1 as int, r2 as int, r3 as int, r4 as int),
                                                          TIGHT)
      decreases more, Rounds(left)
    {
      ghost var x := Five(r0 as int, r1 as int, r2 as int, r3 as int, r4 as int);
      var t0, t1, t2, t3, t4 := Squares(r0, r1, r2, r3, r4);
      r0, r1, r2, r3, r4 := Carry(t0, t1, t2, t3, t4);
      ColumnsMul(x, x);
      done := done + 1;
      left := if left == 0 then 0xffff_ffff_ffff_ffff else left - 1;
      more := left != 0;
    }
    output[0], output[1], output[2], output[3], output[4] := r0, r1, r2, r3, r4;
  }

  /** output := input * input */
  method Square(output: array<u64>, input: array<u64>)
    requires output.Length == 5 && Loose(input)
    modifies output
    ensures Tight(output) && Value(output) == Sqr(old(Value(input)))
  {
    SquareTimes(output, input, 1);
  }

  // ----- the ladder -----

  /** x, z := x + z, x - z */
  method SumAndDifference(x: array<u64>, z: array<u64>)
    requires x != z && Tight(x) && Tight(z)
    modifies x, z
    ensures Summed(x) && Value(x) == Add(old(Value(x)), old(Value(z)))
    ensures Loose(z) && Value(z) == Sub(old(Value(x)), old(Value(z)))
  {
    hide Limbs, Value, Loose, Summed, Scaled, Tight, Add, Sub;
    var origx := Copy(x);
    Sum(x, z);
    DifferenceBackwards(z, origx);
  }

  /** x3 : z3 := the differential addition, from the sums and differences of both points. */
  method MontyAdd(x3: array<u64>, z3: array<u64>, a: array<u64>, b: array<u64>, c: array<u64>, d: array<u64>,
                  qmqp: array<u64>)
    requires x3 != z3 && qmqp != x3 && x3.Length == z3.Length == 5
    requires Loose(a) && Loose(b) && Loose(c) && Loose(d) && Tight(qmqp)
    modifies x3, z3
    ensures Tight(x3) && Tight(z3)
    ensures
      var cb, da := Mul(old(Value(c)), old(Value(b))), Mul(old(Value(a)), old(Value(d)));
      Value(x3) == Sqr(Add(cb, da)) && Value(z3) == Mul(Sqr(Sub(cb, da)), old(Value(qmqp)))
  {
    hide Limbs, Value, Loose, Summed, Scaled, Tight, Add, Sub, Mul;
    var xxprime, zzprime, zzzprime := new u64[5], new u64[5], new u64[5];
    Multiply(xxprime, c, b);
    Multiply(zzprime, a, d);
    SumAndDifference(xxprime, zzprime);
    Square(x3, xxprime);
    Square(zzzprime, zzprime);
    Multiply(z3, zzzprime, qmqp);
  }

  /** x2 : z2 := the doubling, from the sum a and difference b. */
  method MontyDouble(x2: array<u64>, z2: array<u64>, a: array<u64>, b: array<u64>)
    requires x2 != z2 && x2.Length == z2.Length == 5 && Loose(a) && Loose(b)
    modifies x2, z2
    ensures Tight(x2) && Tight(z2)
    ensures
      var aa, bb := Sqr(old(Value(a))), Sqr(old(Value(b)));
      var e := Sub(aa, bb);
      Value(x2) == Mul(aa, bb) && Value(z2) == Mul(e, Add(Mul(e, A24), aa))
  {
    assert Red(121665) == A24;
    hide Limbs, Value, Loose, Summed, Scaled, Tight, Add, Sub, Mul, Red;
    var xx, zz, zzz := new u64[5], new u64[5], new u64[5];
    Square(xx, a);
    Square(zz, b);
    Multiply(x2, xx, zz);
    DifferenceBackwards(zz, xx);
    ScalarProduct(zzz, zz, 121665);
    Sum(zzz, xx);
    Multiply(z2, zz, zzz);
  }

  /** One ladder step: x2 : z2 doubles (x : z), x3 : z3 adds (xprime : zprime); the inputs are destroyed. */
  method Monty(x2: array<u64>, z2: array<u64>, x3: array<u64>, z3: array<u64>, x: array<u64>, z: array<u64>,
               xprime: array<u64>, zprime: array<u64>, qmqp: array<u64>)
    requires x2.Length == z2.Length == x3.Length == z3.Length == 5
    requires x2 != z2 && x2 != x3 && x2 != z3 && z2 != x3 && z2 != z3 && x3 != z3
    requires x3 != x && x3 != z && z3 != x && z3 != z
    requires x != z && x != xprime && x != zprime && z != xprime && z != zprime && xprime != zprime
    requires qmqp != x && qmqp != z && qmqp != xprime && qmqp != zprime && qmqp != x3
    requires Tight(x) && Tight(z) && Tight(xprime) && Tight(zprime) && Tight(qmqp)
    modifies x2, z2, x3, z3, x, z, xprime, zprime
    ensures Tight(x2) && Tight(z2) && Tight(x3) && Tight(z3)
    ensures Ladder(Value(x2), Value(z2), Value(x3), Value(z3)) ==
            Step(old(Value(qmqp)), Ladder(old(Value(x)), old(Value(z)), old(Value(xprime)), old(Value(zprime))))
  {
    StepByCode(Value(qmqp), Value(x), Value(z), Value(xprime), Value(zprime));
    hide Limbs, Value, Loose, Summed, Scaled, Tight, Add, Sub, Mul, Step;
    SumAndDifference(x, z);
    SumAndDifference(xprime, zprime);
    MontyAdd(x3, z3, x, z, xprime, zprime, qmqp);
    MontyDouble(x2, z2, x, z);
  }

  /** The mask -iswap, in 64 bits. */
  function Mask(iswap: u64): u64 { if iswap == 0 then 0 else 0xffff_ffff_ffff_ffff - (iswap - 1) }

  /** The exclusive-or exchange of one pair of limbs under a mask. */
  function Exchanged(a: u64, b: u64, swap: u64): (u64, u64) {
    WordExp2();
    XorBound(a as nat, b as nat, 64);
    AndBelow(swap as nat, Xor(a as nat, b as nat));
    var x := And(swap as nat, Xor(a as nat, b as nat));
    XorBound(a as nat, x, 64);
    XorBound(b as nat, x, 64);
    (Xor(a as nat, x) as u64, Xor(b as nat, x) as u64)
  }

  lemma {:induction false} AndBelow(a: nat, b: nat)
    ensures And(a, b) <= a && And(a, b) <= b
  {
    if a > 0 {
      AndBelow(a / 2, b / 2);
    }
  }

  /** Exchanges a and b without branching when iswap is 1; any other flag but 0 exchanges some of the bits. */
  method SwapConditional(a: array<u64>, b: array<u64>, iswap: u64)
    requires a != b && a.Length == b.Length == 5
    modifies a, b
    ensures forall j | 0 <= j < 5 :: (a[j], b[j]) == Exchanged(old(a[j]), old(b[j]), Mask(iswap))
    ensures iswap <= 1 && old(Tight(a)) && old(Tight(b)) ==> Tight(a) && Tight(b)
    ensures iswap <= 1 ==> Value(a) == if iswap == 0 then old(Value(a)) else old(Value(b))
    ensures iswap <= 1 ==> Value(b) == if iswap == 0 then old(Value(b)) else old(Value(a))
  {
    hide Exchanged;
    var swap: u64 := if iswap == 0 then 0 else 0xffff_ffff_ffff_ffff - (iswap - 1);
    for i := 0 to 5
      invariant forall j | 0 <= j < i :: (a[j], b[j]) == Exchanged(old(a[j]), old(b[j]), swap)
      invariant forall j | i <= j < 5 :: a[j] == old(a[j]) && b[j] == old(b[j])
    {
      var (x, y) := Exchanged(a[i], b[i], swap);
      a[i], b[i] := x, y;
    }
    forall j | iswap <= 1 && 0 <= j < 5
      ensures (a[j], b[j]) == if iswap == 0 then (old(a[j]), old(b[j])) else (old(b[j]), old(a[j]))
    {
      FlagResult(old(a[j]), old(b[j]), iswap);
    }
  }

  /** The flags 0 and 1 keep and exchange. */
  lemma FlagResult(a: u64, b: u64, iswap: u64)
    requires iswap <= 1
    ensures Exchanged(a, b, Mask(iswap)) == if iswap == 0 then (a, b) else (b, a)
  {
    hide Exp2, And, Xor;
    WordExp2();
    MaskedXor(a as nat, b as nat, 64);
  }

  /** The flag is one that exchanges, or keeps, every pair of limbs. */
  ghost predicate AlwaysSwaps(iswap: u64) { forall a, b :: Exchanged(a, b, Mask(iswap)) == (b, a) }
  ghost predicate AlwaysKeeps(iswap: u64) { forall a, b :: Exchanged(a, b, Mask(iswap)) == (a, b) }

  /** Under a mask m, limbs of zeros and ones become m and its complement. */
  lemma ZerosAndOnes(m: u64)
    ensures Exchanged(0, 0xffff_ffff_ffff_ffff, m).0 == m
  {
    hide Exp2, And, Xor;
    WordExp2();
    XorComm(0, 0xffff_ffff_ffff_ffff);
    XorZero(0xffff_ffff_ffff_ffff);
    AndComm(m as nat, 0xffff_ffff_ffff_ffff);
    AndMask(m as nat, 64);
    XorComm(0, m as nat);
    XorZero(m as nat);
  }

  /** It swaps everything if and only if the flag is 1, and keeps everything if and only if it is 0. */
  lemma FlagExactly(iswap: u64)
    ensures AlwaysSwaps(iswap) <==> iswap == 1
    ensures AlwaysKeeps(iswap) <==> iswap == 0
  {
    hide Exchanged;
    ZerosAndOnes(Mask(iswap));
    if iswap <= 1 {
      forall a, b ensures Exchanged(a, b, Mask(iswap)) == if iswap == 0 then (a, b) else (b, a) {
        FlagResult(a, b, iswap);
      }
    }
  }

  /** The flag 2 is not zero and does not exchange 1 and 0. */
  lemma FlagTwo()
    ensures Exchanged(1, 0, Mask(2)) == (1, 0)
  {
    hide And, Xor, Exp2;
    XorZero(1);
    XorZero(0);
    AndHalf(0xffff_ffff_ffff_fffe, 1);
    AndNone(0x7fff_ffff_ffff_ffff);
  }

  ghost predicate Apart(a: array<u64>, b: array<u64>, c: array<u64>, d: array<u64>, e: array<u64>, f: array<u64>,
                        g: array<u64>, h: array<u64>)
  {
    && a != b && a != c && a != d && a != e && a != f && a != g && a != h
    && b != c && b != d && b != e && b != f && b != g && b != h
    && c != d && c != e && c != f && c != g && c != h
    && d != e && d != f && d != g && d != h
    && e != f && e != g && e != h && f != g && f != h && g != h
  }

  /** The body of cmult's inner loop: swap, step, swap back. */
  method ProcessBit(bit: u64, q: array<u64>, nqx: array<u64>, nqz: array<u64>, nqpqx: array<u64>, nqpqz: array<u64>,
                    nqx2: array<u64>, nqz2: array<u64>, nqpqx2: array<u64>, nqpqz2: array<u64>)
    requires bit <= 1 && Apart(nqx, nqz, nqpqx, nqpqz, nqx2, nqz2, nqpqx2, nqpqz2)
    requires q !in {nqx, nqz, nqpqx, nqpqz, nqx2, nqz2, nqpqx2, nqpqz2}
    requires nqx2.Length == nqz2.Length == nqpqx2.Length == nqpqz2.Length == 5
    requires Tight(q) && Tight(nqx) && Tight(nqz) && Tight(nqpqx) && Tight(nqpqz)
    modifies nqx, nqz, nqpqx, nqpqz, nqx2, nqz2, nqpqx2, nqpqz2
    ensures Tight(nqx2) && Tight(nqz2) && Tight(nqpqx2) && Tight(nqpqz2)
    ensures Ladder(Value(nqx2), Value(nqz2), Value(nqpqx2), Value(nqpqz2)) ==
            LadderBit(bit as nat, Value(q), Ladder(old(Value(nqx)), old(Value(nqz)), old(Value(nqpqx)),
                                                   old(Value(nqpqz))))
  {
    hide Limbs, Value, Loose, Summed, Scaled, Tight, Step;
    SwapConditional(nqx, nqpqx, bit);
    SwapConditional(nqz, nqpqz, bit);
    Monty(nqx2, nqz2, nqpqx2, nqpqz2, nqx, nqz, nqpqx, nqpqz, q);
    SwapConditional(nqx2, nqpqx2, bit);
    SwapConditional(nqz2, nqpqz2, bit);
  }

  /** Eight rounds of cmult's inner loop: the bits of byte m of the scalar, from the top.
      The buffers trade places after every bit, so after eight the results are back where they started. */
  method ProcessByte(n: seq<u8>, m: nat, q: array<u64>, nqx: array<u64>, nqz: array<u64>, nqpqx: array<u64>,
                     nqpqz: array<u64>,
                     nqx2: array<u64>, nqz2: array<u64>, nqpqx2: array<u64>, nqpqz2: array<u64>)
    requires m < |n| && Apart(nqx, nqz, nqpqx, nqpqz, nqx2, nqz2, nqpqx2, nqpqz2)
    requires q !in {nqx, nqz, nqpqx, nqpqz, nqx2, nqz2, nqpqx2, nqpqz2}
    requires nqx2.Length == nqz2.Length == nqpqx2.Length == nqpqz2.Length == 5
    requires Tight(q) && Tight(nqx) && Tight(nqz) && Tight(nqpqx) && Tight(nqpqz)
    modifies nqx, nqz, nqpqx, nqpqz, nqx2, nqz2, nqpqx2, nqpqz2
    ensures Tight(nqx) && Tight(nqz) && Tight(nqpqx) && Tight(nqpqz)
    ensures Run(Value(q), LE(n), 8 * m, Ladder(Value(nqx), Value(nqz), Value(nqpqx), Value(nqpqz))) ==
            Run(Value(q), LE(n), 8 * m + 8, Ladder(old(Value(nqx)), old(Value(nqz)), old(Value(nqpqx)),
                                                   old(Value(nqpqz))))
  {
    hide Limbs, Value, Loose, Summed, Scaled, Tight, LadderBit, Bit, Run, LE;
    var x, z, px, pz := nqx, nqz, nqpqx, nqpqz;
    var x2, z2, px2, pz2 := nqx2, nqz2, nqpqx2, nqpqz2;
    ghost var u, k := Value(q), LE(n);
    ghost var goal := Run(u, k, 8 * m + 8, Ladder(Value(x), Value(z), Value(px), Value(pz)));
    var byte := n[m];
    for j := 0 to 8
      invariant (x, z, px, pz) == if j % 2 == 0 then (nqx, nqz, nqpqx, nqpqz) else (nqx2, nqz2, nqpqx2, nqpqz2)
      invariant (x2, z2, px2, pz2) == if j % 2 == 0 then (nqx2, nqz2, nqpqx2, nqpqz2) else (nqx, nqz, nqpqx, nqpqz)
      invariant x2.Length == z2.Length == px2.Length == pz2.Length == 5
      invariant Tight(q) && Value(q) == u && Tight(x) && Tight(z) && Tight(px) && Tight(pz)
      invariant Run(u, k, 8 * m + 8 - j, Ladder(Value(x), Value(z), Value(px), Value(pz))) == goal
      invariant byte as nat == Shifted(n[m] as nat, j)
    {
      var bit := (byte / 128) as u64;
      TopBit(n, m, j);
      RunUnfold(u, k, 8 * m + 8 - j, Ladder(Value(x), Value(z), Value(px), Value(pz)));
      ProcessBit(bit, q, x, z, px, pz, x2, z2, px2, pz2);
      x, x2 := x2, x;
      z, z2 := z2, z;
      px, px2 := px2, px;
      pz, pz2 := pz2, pz;
      byte := (byte % 128) * 2;
    }
  }

  /** A small constant as a field element. */
  method Constant(k: u64) returns (a: array<u64>)
    requires k <= 1
    ensures fresh(a) && Tight(a) && Value(a) == k as int
  {
    a := new u64[5];
    a[0], a[1], a[2], a[3], a[4] := k, 0, 0, 0, 0;
    assert Poly(Limbs(a)) == k as int;
  }

  /** The 256-step ladder over the bits of the little-endian scalar n. */
  method CMult(n: seq<u8>, q: array<u64>) returns (resultx: array<u64>, resultz: array<u64>)
    requires |n| == 32 && Tight(q)
    ensures fresh(resultx) && fresh(resultz) && resultx != resultz && Tight(resultx) && Tight(resultz)
    ensures
      var st := Run(Value(q), LE(n), 256, Start(Value(q)));
      Value(resultx) == st.x2 && Value(resultz) == st.z2
  {
    hide Limbs, Value, Loose, Summed, Scaled, Tight, LadderBit, Bit, Run, LE;
    ghost var u, k := Value(q), LE(n);
    var nqpqx := Copy(q);
    var nqpqz := Constant(1);
    var nqx := Constant(1);
    var nqz := Constant(0);
    var nqpqx2, nqpqz2, nqx2, nqz2 := new u64[5], new u64[5], new u64[5], new u64[5];
    for i := 0 to 32
      invariant Tight(q) && Value(q) == u && Tight(nqx) && Tight(nqz) && Tight(nqpqx) && Tight(nqpqz)
      invariant Run(u, k, 256 - 8 * i, Ladder(Value(nqx), Value(nqz), Value(nqpqx), Value(nqpqz)))
                == Run(u, k, 256, Start(u))
    {
      ProcessByte(n, 31 - i, q, nqx, nqz, nqpqx, nqpqz, nqx2, nqz2, nqpqx2, nqpqz2);
    }
    RunUnfold(u, k, 0, Ladder(Value(nqx), Value(nqz), Value(nqpqx), Value(nqpqz)));
    resultx := Copy(nqx);
    resultz := Copy(nqz);
  }

  // ----- inversion -----

  /** One link of the addition chain: n squarings, then a multiplication. */
  method Extend(out: array<u64>, t0: array<u64>, x: array<u64>, n: u64, y: array<u64>, ghost v: Fe, ghost m: nat)
    requires out.Length == t0.Length == 5 && t0 != y && Tight(x) && Tight(y) && n > 0
    requires Value(x) == Rep(v, m) && Value(y) == Rep(v, n as nat)
    modifies out, t0
    ensures Tight(out) && Value(out) == Rep(v, m + n as nat)
  {
    hide Limbs, Value, Loose, Summed, Scaled, Tight, Mul, Rep, Squarings;
    SquareTimes(t0, x, n);
    Multiply(out, t0, y);
    ChainStep(v, m, n as nat);
  }

  /** a, b := z^11, z^31 */
  method RecipStart(a: array<u64>, b: array<u64>, t0: array<u64>, z: array<u64>)
    requires a.Length == b.Length == t0.Length == 5 && Tight(z)
    requires a != b && a != t0 && b != t0 && z != a && z != b && z != t0
    modifies a, b, t0
    ensures Tight(a) && Value(a) == Pow(Value(z), 11)
    ensures Tight(b) && Value(b) == Rep(Value(z), 5)
  {
    hide Limbs, Value, Loose, Summed, Scaled, Tight, Mul, Pow, Rep, Squarings;
    SmallPowers(Value(z));
    Square(a, z);
    SquareTimes(t0, a, 2);
    Multiply(b, t0, z);
    Multiply(a, b, a);
    Square(t0, a);
    Multiply(b, t0, b);
  }

  /** b := v^(2^50 - 1), from v^31 in b */
  method RecipFifty(b: array<u64>, c: array<u64>, t0: array<u64>, ghost v: Fe)
    requires b != c && b != t0 && c != t0 && c.Length == t0.Length == 5 && Tight(b) && Value(b) == Rep(v, 5)
    modifies b, c, t0
    ensures Tight(b) && Value(b) == Rep(v, 50)
  {
    hide Limbs, Value, Loose, Summed, Scaled, Tight, Rep;
    Extend(b, t0, b, 5, b, v, 5);
    Extend(c, t0, b, 10, b, v, 10);
    Extend(t0, t0, c, 20, c, v, 20);
    Extend(b, t0, t0, 10, b, v, 40);
  }

  /** t0 := v^(2^250 - 1), from v^(2^50 - 1) in b */
  method RecipTwoFifty(b: array<u64>, c: array<u64>, t0: array<u64>, ghost v: Fe)
    requires b != c && b != t0 && c != t0 && c.Length == t0.Length == 5 && Tight(b) && Value(b) == Rep(v, 50)
    modifies c, t0
    ensures Tight(t0) && Value(t0) == Rep(v, 250)
  {
    hide Limbs, Value, Loose, Summed, Scaled, Tight, Rep;
    Extend(c, t0, b, 50, b, v, 50);
    Extend(t0, t0, c, 100, c, v, 100);
    Extend(t0, t0, t0, 50, b, v, 200);
  }

  /** out := z^(2^255 - 21) */
  method CRecip(out: array<u64>, z: array<u64>)
    requires out.Length == 5 && Tight(z)
    modifies out
    ensures Tight(out) && Value(out) == Pow(old(Value(z)), P - 2)
  {
    hide Limbs, Value, Loose, Summed, Scaled, Tight, Mul, Pow, Rep, Squarings;
    ghost var v := Value(z);
    FinalPower(v);
    var a, t0, b, c := new u64[5], new u64[5], new u64[5], new u64[5];
    RecipStart(a, b, t0, z);
    RecipFifty(b, c, t0, v);
    RecipTwoFifty(b, c, t0, v);
    SquareTimes(t0, t0, 5);
    Multiply(out, t0, a);
  }
}
