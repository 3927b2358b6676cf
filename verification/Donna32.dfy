/** The portable implementation of X25519, libjl777/curve25519-donna.c.
    A field element is an array of signed 64-bit limbs of which the first ten count; products
    use all nineteen. Left shifts are written as multiplications; `>>` on a signed number
    rounds down, as division by a positive number does here. */
module Donna32 {
  import opened Machine
  import opened Field25519
  import opened Limbs25
  import opened X25519
  import opened Bits

  // ----- field elements held in arrays -----

  ghost function Limbs(a: array<s64>): Ten
    reads a
    requires a.Length >= 10
  {
    Ten(a[0] as int, a[1] as int, a[2] as int, a[3] as int, a[4] as int, a[5] as int, a[6] as int, a[7] as int,
        a[8] as int, a[9] as int)
  }

  ghost function Value(a: array<s64>): Fe
    reads a
    requires a.Length >= 10
  {
    Red(Poly(Limbs(a)))
  }

  ghost function Columns(a: array<s64>): Long
    reads a
    requires a.Length >= 19
  {
    Long(Limbs(a), Ten(a[10] as int, a[11] as int, a[12] as int, a[13] as int, a[14] as int, a[15] as int,
                       a[16] as int, a[17] as int, a[18] as int, 0))
  }

  /** What a product accepts: sums and differences of reduced elements. */
  ghost predicate Loose(a: array<s64>)
    reads a
    ensures Loose(a) ==> a.Length >= 10
  {
    a.Length >= 10 && Under(Limbs(a), 0x800_0000)
  }

  /** Reduced coefficients. */
  ghost predicate Tight(a: array<s64>)
    reads a
    ensures Tight(a) ==> Loose(a)
  {
    a.Length >= 10 && Under(Limbs(a), 0x400_0000)
  }

  /** output += input */
  method Sum(output: array<s64>, input: array<s64>)
    requires output != input && Tight(output) && Tight(input)
    modifies output
    ensures Loose(output) && Value(output) == Add(old(Value(output)), Value(input))
    ensures output[10..] == old(output[10..])
  {
    hide Red, Poly;
    PlusIsAdd(Limbs(output), Limbs(input));
    for i := 0 to 5
      invariant forall j | 0 <= j < 2 * i :: output[j] as int == old(output[j]) as int + input[j] as int
      invariant forall j | 2 * i <= j < output.Length :: output[j] == old(output[j])
    {
      output[2 * i] := output[2 * i] + input[2 * i];
      output[2 * i + 1] := output[2 * i + 1] + input[2 * i + 1];
    }
    assert Limbs(output) == Plus(old(Limbs(output)), Limbs(input));
  }

  /** output := input - output */
  method Difference(output: array<s64>, input: array<s64>)
    requires output != input && Tight(output) && Tight(input)
    modifies output
    ensures Loose(output) && Value(output) == Sub(Value(input), old(Value(output)))
    ensures output[10..] == old(output[10..])
  {
    hide Red, Poly;
    MinusIsSub(Limbs(input), Limbs(output));
    for i := 0 to 10
      invariant forall j | 0 <= j < i :: output[j] as int == input[j] as int - old(output[j]) as int
      invariant forall j | i <= j < output.Length :: output[j] == old(output[j])
    {
      output[i] := input[i] - output[i];
    }
    assert Limbs(output) == Minus(Limbs(input), old(Limbs(output)));
  }

  // ----- products -----

  /** A 32 by 32 to 64 bit product. */
  function Wide(x: s32, y: s32): (p: s64)
    requires -0x800_0000 < x < 0x800_0000 && -0x800_0000 < y < 0x800_0000
    ensures p as int == IMul(x as int, y as int)
    ensures -0x40_0000_0000_0000 < p < 0x40_0000_0000_0000
  {
    ProductBound(x as int, y as int, 0x800_0000);
    x as s64 * y as s64
  }

  lemma ProductBound(x: int, y: int, b: int)
    requires -b < x < b && -b < y < b
    ensures -(b * b) < x * y < b * b
  {
    assert (b - x) * (b + y) > 0 && (b + x) * (b - y) > 0;
    assert (b - x) * (b - y) > 0 && (b + x) * (b + y) > 0;
  }

  /** The limbs cast to 32 bits, as the products read them. */
  datatype Ten32 = Ten32(v0: s32, v1: s32, v2: s32, v3: s32, v4: s32, v5: s32, v6: s32, v7: s32, v8: s32, v9: s32)

  function Ints(a: Ten32): Ten {
    Ten(a.v0 as int, a.v1 as int, a.v2 as int, a.v3 as int, a.v4 as int, a.v5 as int, a.v6 as int, a.v7 as int,
        a.v8 as int, a.v9 as int)
  }

  method Cast(a: array<s64>) returns (c: Ten32)
    requires Loose(a)
    ensures Ints(c) == Limbs(a)
  {
    c := Ten32(a[0] as s32, a[1] as s32, a[2] as s32, a[3] as s32, a[4] as s32, a[5] as s32, a[6] as s32, a[7] as s32,
               a[8] as s32,
               a[9] as s32);
  }

  /** No column sums more than 14 products of two 27-bit limbs. */
  const BOUND: int := 14 * 0x40_0000_0000_0000

  /** Columns 0 to 6 of a product. */
  method Product0(a: Ten32, b: Ten32) returns (t0: s64, t1: s64, t2: s64, t3: s64, t4: s64, t5: s64, t6: s64)
    requires Under(Ints(a), 0x800_0000) && Under(Ints(b), 0x800_0000)
    ensures t0 as int == Product(Ints(a), Ints(b)).lo.v0 && -BOUND < t0 as int < BOUND
    ensures t1 as int == Product(Ints(a), Ints(b)).lo.v1 && -BOUND < t1 as int < BOUND
    ensures t2 as int == Product(Ints(a), Ints(b)).lo.v2 && -BOUND < t2 as int < BOUND
    ensures t3 as int == Product(Ints(a), Ints(b)).lo.v3 && -BOUND < t3 as int < BOUND
    ensures t4 as int == Product(Ints(a), Ints(b)).lo.v4 && -BOUND < t4 as int < BOUND
    ensures t5 as int == Product(Ints(a), Ints(b)).lo.v5 && -BOUND < t5 as int < BOUND
    ensures t6 as int == Product(Ints(a), Ints(b)).lo.v6 && -BOUND < t6 as int < BOUND
  {
    hide Wide, IMul;
    t0 := Wide(a.v0, b.v0);
    t1 := Wide(a.v0, b.v1) + Wide(a.v1, b.v0);
    t2 := 2 * Wide(a.v1, b.v1) + Wide(a.v0, b.v2) + Wide(a.v2, b.v0);
    t3 := Wide(a.v1, b.v2) + Wide(a.v2, b.v1) + Wide(a.v0, b.v3) + Wide(a.v3, b.v0);
    t4 := Wide(a.v2, b.v2) + 2 * (Wide(a.v1, b.v3) + Wide(a.v3, b.v1)) + Wide(a.v0, b.v4) + Wide(a.v4, b.v0);
    t5 := Wide(a.v2, b.v3) + Wide(a.v3, b.v2) + Wide(a.v1, b.v4) + Wide(a.v4, b.v1) + Wide(a.v0, b.v5) +
      Wide(a.v5, b.v0);
    t6 := 2 * (Wide(a.v3, b.v3) + Wide(a.v1, b.v5) + Wide(a.v5, b.v1)) + Wide(a.v2, b.v4) + Wide(a.v4, b.v2) +
      Wide(a.v0, b.v6) + Wide(a.v6, b.v0);
  }

  /** Columns 7 to 9 of a product. */
  method Product1(a: Ten32, b: Ten32) returns (t7: s64, t8: s64, t9: s64)
    requires Under(Ints(a), 0x800_0000) && Under(Ints(b), 0x800_0000)
    ensures t7 as int == Product(Ints(a), Ints(b)).lo.v7 && -BOUND < t7 as int < BOUND
    ensures t8 as int == Product(Ints(a), Ints(b)).lo.v8 && -BOUND < t8 as int < BOUND
    ensures t9 as int == Product(Ints(a), Ints(b)).lo.v9 && -BOUND < t9 as int < BOUND
  {
    hide Wide, IMul;
    t7 := Wide(a.v3, b.v4) + Wide(a.v4, b.v3) + Wide(a.v2, b.v5) + Wide(a.v5, b.v2) + Wide(a.v1, b.v6) +
      Wide(a.v6, b.v1) + Wide(a.v0, b.v7) + Wide(a.v7, b.v0);
    t8 := Wide(a.v4, b.v4) + 2 * (Wide(a.v3, b.v5) + Wide(a.v5, b.v3) + Wide(a.v1, b.v7) + Wide(a.v7, b.v1)) +
      Wide(a.v2, b.v6) + Wide(a.v6, b.v2) + Wide(a.v0, b.v8) + Wide(a.v8, b.v0);
    t9 := Wide(a.v4, b.v5) + Wide(a.v5, b.v4) + Wide(a.v3, b.v6) + Wide(a.v6, b.v3) + Wide(a.v2, b.v7) +
      Wide(a.v7, b.v2) + Wide(a.v1, b.v8) + Wide(a.v8, b.v1) + Wide(a.v0, b.v9) + Wide(a.v9, b.v0);
  }

  /** Columns 10 to 12 of a product. */
  method Product2(a: Ten32, b: Ten32) returns (t10: s64, t11: s64, t12: s64)
    requires Under(Ints(a), 0x800_0000) && Under(Ints(b), 0x800_0000)
    ensures t10 as int == Product(Ints(a), Ints(b)).hi.v0 && -BOUND < t10 as int < BOUND
    ensures t11 as int == Product(Ints(a), Ints(b)).hi.v1 && -BOUND < t11 as int < BOUND
    ensures t12 as int == Product(Ints(a), Ints(b)).hi.v2 && -BOUND < t12 as int < BOUND
  {
    hide Wide, IMul;
    t10 := 2 * (Wide(a.v5, b.v5) + Wide(a.v3, b.v7) + Wide(a.v7, b.v3) + Wide(a.v1, b.v9) + Wide(a.v9, b.v1)) +
      Wide(a.v4, b.v6) + Wide(a.v6, b.v4) + Wide(a.v2, b.v8) + Wide(a.v8, b.v2);
    t11 := Wide(a.v5, b.v6) + Wide(a.v6, b.v5) + Wide(a.v4, b.v7) + Wide(a.v7, b.v4) + Wide(a.v3, b.v8) +
      Wide(a.v8, b.v3) + Wide(a.v2, b.v9) + Wide(a.v9, b.v2);
    t12 := Wide(a.v6, b.v6) + 2 * (Wide(a.v5, b.v7) + Wide(a.v7, b.v5) + Wide(a.v3, b.v9) + Wide(a.v9, b.v3)) +
      Wide(a.v4, b.v8) + Wide(a.v8, b.v4);
  }

  /** Columns 13 to 18 of a product. */
  method Product3(a: Ten32, b: Ten32) returns (t13: s64, t14: s64, t15: s64, t16: s64, t17: s64, t18: s64)
    requires Under(Ints(a), 0x800_0000) && Under(Ints(b), 0x800_0000)
    ensures t13 as int == Product(Ints(a), Ints(b)).hi.v3 && -BOUND < t13 as int < BOUND
    ensures t14 as int == Product(Ints(a), Ints(b)).hi.v4 && -BOUND < t14 as int < BOUND
    ensures t15 as int == Product(Ints(a), Ints(b)).hi.v5 && -BOUND < t15 as int < BOUND
    ensures t16 as int == Product(Ints(a), Ints(b)).hi.v6 && -BOUND < t16 as int < BOUND
    ensures t17 as int == Product(Ints(a), Ints(b)).hi.v7 && -BOUND < t17 as int < BOUND
    ensures t18 as int == Product(Ints(a), Ints(b)).hi.v8 && -BOUND < t18 as int < BOUND
  {
    hide Wide, IMul;
    t13 := Wide(a.v6, b.v7) + Wide(a.v7, b.v6) + Wide(a.v5, b.v8) + Wide(a.v8, b.v5) + Wide(a.v4, b.v9) +
      Wide(a.v9, b.v4);
    t14 := 2 * (Wide(a.v7, b.v7) + Wide(a.v5, b.v9) + Wide(a.v9, b.v5)) + Wide(a.v6, b.v8) + Wide(a.v8, b.v6);
    t15 := Wide(a.v7, b.v8) + Wide(a.v8, b.v7) + Wide(a.v6, b.v9) + Wide(a.v9, b.v6);
    t16 := Wide(a.v8, b.v8) + 2 * (Wide(a.v7, b.v9) + Wide(a.v9, b.v7));
    t17 := Wide(a.v8, b.v9) + Wide(a.v9, b.v8);
    t18 := 2 * Wide(a.v9, b.v9);
  }

  /** Columns 0 to 7 of a square, with equal products merged. */
  method Square0(a: Ten32) returns (t0: s64, t1: s64, t2: s64, t3: s64, t4: s64, t5: s64, t6: s64, t7: s64)
    requires Under(Ints(a), 0x800_0000)
    ensures t0 as int == Product(Ints(a), Ints(a)).lo.v0 && -BOUND < t0 as int < BOUND
    ensures t1 as int == Product(Ints(a), Ints(a)).lo.v1 && -BOUND < t1 as int < BOUND
    ensures t2 as int == Product(Ints(a), Ints(a)).lo.v2 && -BOUND < t2 as int < BOUND
    ensures t3 as int == Product(Ints(a), Ints(a)).lo.v3 && -BOUND < t3 as int < BOUND
    ensures t4 as int == Product(Ints(a), Ints(a)).lo.v4 && -BOUND < t4 as int < BOUND
    ensures t5 as int == Product(Ints(a), Ints(a)).lo.v5 && -BOUND < t5 as int < BOUND
    ensures t6 as int == Product(Ints(a), Ints(a)).lo.v6 && -BOUND < t6 as int < BOUND
    ensures t7 as int == Product(Ints(a), Ints(a)).lo.v7 && -BOUND < t7 as int < BOUND
  {
    Symmetric(Ints(a));
    hide Wide, IMul;
    t0 := Wide(a.v0, a.v0);
    t1 := 2 * Wide(a.v0, a.v1);
    t2 := 2 * (Wide(a.v1, a.v1) + Wide(a.v0, a.v2));
    t3 := 2 * (Wide(a.v1, a.v2) + Wide(a.v0, a.v3));
    t4 := Wide(a.v2, a.v2) + 4 * Wide(a.v1, a.v3) + 2 * Wide(a.v0, a.v4);
    t5 := 2 * (Wide(a.v2, a.v3) + Wide(a.v1, a.v4) + Wide(a.v0, a.v5));
    t6 := 2 * (Wide(a.v3, a.v3) + Wide(a.v2, a.v4) + Wide(a.v0, a.v6) + 2 * Wide(a.v1, a.v5));
    t7 := 2 * (Wide(a.v3, a.v4) + Wide(a.v2, a.v5) + Wide(a.v1, a.v6) + Wide(a.v0, a.v7));
  }

  /** Columns 8 to 11 of a square, with equal products merged. */
  method Square1(a: Ten32) returns (t8: s64, t9: s64, t10: s64, t11: s64)
    requires Under(Ints(a), 0x800_0000)
    ensures t8 as int == Product(Ints(a), Ints(a)).lo.v8 && -BOUND < t8 as int < BOUND
    ensures t9 as int == Product(Ints(a), Ints(a)).lo.v9 && -BOUND < t9 as int < BOUND
    ensures t10 as int == Product(Ints(a), Ints(a)).hi.v0 && -BOUND < t10 as int < BOUND
    ensures t11 as int == Product(Ints(a), Ints(a)).hi.v1 && -BOUND < t11 as int < BOUND
  {
    Symmetric(Ints(a));
    hide Wide, IMul;
    t8 := Wide(a.v4, a.v4) + 2 * (Wide(a.v2, a.v6) + Wide(a.v0, a.v8) + 2 * (Wide(a.v1, a.v7) + Wide(a.v3, a.v5)));
    t9 := 2 * (Wide(a.v4, a.v5) + Wide(a.v3, a.v6) + Wide(a.v2, a.v7) + Wide(a.v1, a.v8) + Wide(a.v0, a.v9));
    t10 := 2 * (Wide(a.v5, a.v5) + Wide(a.v4, a.v6) + Wide(a.v2, a.v8) + 2 * (Wide(a.v3, a.v7) + Wide(a.v1, a.v9)));
    t11 := 2 * (Wide(a.v5, a.v6) + Wide(a.v4, a.v7) + Wide(a.v3, a.v8) + Wide(a.v2, a.v9));
  }

  /** Columns 12 to 18 of a square, with equal products merged. */
  method Square2(a: Ten32) returns (t12: s64, t13: s64, t14: s64, t15: s64, t16: s64, t17: s64, t18: s64)
    requires Under(Ints(a), 0x800_0000)
    ensures t12 as int == Product(Ints(a), Ints(a)).hi.v2 && -BOUND < t12 as int < BOUND
    ensures t13 as int == Product(Ints(a), Ints(a)).hi.v3 && -BOUND < t13 as int < BOUND
    ensures t14 as int == Product(Ints(a), Ints(a)).hi.v4 && -BOUND < t14 as int < BOUND
    ensures t15 as int == Product(Ints(a), Ints(a)).hi.v5 && -BOUND < t15 as int < BOUND
    ensures t16 as int == Product(Ints(a), Ints(a)).hi.v6 && -BOUND < t16 as int < BOUND
    ensures t17 as int == Product(Ints(a), Ints(a)).hi.v7 && -BOUND < t17 as int < BOUND
    ensures t18 as int == Product(Ints(a), Ints(a)).hi.v8 && -BOUND < t18 as int < BOUND
  {
    Symmetric(Ints(a));
    hide Wide, IMul;
    t12 := Wide(a.v6, a.v6) + 2 * (Wide(a.v4, a.v8) + 2 * (Wide(a.v5, a.v7) + Wide(a.v3, a.v9)));
    t13 := 2 * (Wide(a.v6, a.v7) + Wide(a.v5, a.v8) + Wide(a.v4, a.v9));
    t14 := 2 * (Wide(a.v7, a.v7) + Wide(a.v6, a.v8) + 2 * Wide(a.v5, a.v9));
    t15 := 2 * (Wide(a.v7, a.v8) + Wide(a.v6, a.v9));
    t16 := Wide(a.v8, a.v8) + 4 * Wide(a.v7, a.v9);
    t17 := 2 * Wide(a.v8, a.v9);
    t18 := 2 * Wide(a.v9, a.v9);
  }

  method Store(output: array<s64>, t: seq<s64>)
    requires |t| <= output.Length
    modifies output
    ensures forall i | 0 <= i < |t| :: output[i] == t[i]
    ensures forall i | |t| <= i < output.Length :: output[i] == old(output[i])
  {
    for i := 0 to |t|
      invariant forall j | 0 <= j < i :: output[j] == t[j]
      invariant forall j | i <= j < output.Length :: output[j] == old(output[j])
    {
      output[i] := t[i];
    }
  }

  /** The nineteen columns of in2 * in1. */
  method FProduct(output: array<s64>, in2: array<s64>, in1: array<s64>)
    requires output.Length >= 19 && output != in2 && output != in1 && Loose(in2) && Loose(in1)
    modifies output
    ensures Columns(output) == Product(Limbs(in2), Limbs(in1)) && UnderLong(Columns(output), BOUND)
  {
    var a := Cast(in2);
    var b := Cast(in1);
    hide Product, IMul;
    var t0, t1, t2, t3, t4, t5, t6 := Product0(a, b);
    var t7, t8, t9 := Product1(a, b);
    var t10, t11, t12 := Product2(a, b);
    var t13, t14, t15, t16, t17, t18 := Product3(a, b);
    Store(output, [t0, t1, t2, t3, t4, t5, t6, t7, t8, t9, t10, t11, t12, t13, t14, t15, t16, t17, t18]);
    ProductTop(Ints(a), Ints(b));
  }

  /** The nineteen columns of in1 * in1. */
  method FSquareInner(output: array<s64>, in1: array<s64>)
    requires output.Length >= 19 && output != in1 && Loose(in1)
    modifies output
    ensures Columns(output) == Product(Limbs(in1), Limbs(in1)) && UnderLong(Columns(output), BOUND)
  {
    var a := Cast(in1);
    hide Product, IMul;
    var t0, t1, t2, t3, t4, t5, t6, t7 := Square0(a);
    var t8, t9, t10, t11 := Square1(a);
    var t12, t13, t14, t15, t16, t17, t18 := Square2(a);
    Store(output, [t0, t1, t2, t3, t4, t5, t6, t7, t8, t9, t10, t11, t12, t13, t14, t15, t16, t17, t18]);
    ProductTop(Ints(a), Ints(a));
  }

  lemma ProductTop(a: Ten, b: Ten)
    ensures Product(a, b).hi.v9 == 0
  { }

  // ----- reduction -----

  /** output[k] += 19 * output[10 + k], by shifts and adds. */
  method FoldLimb(output: array<s64>, k: nat)
    requires output.Length >= 19 && k < 9
    requires -BOUND < output[k] as int < BOUND && -BOUND < output[10 + k] as int < BOUND
    modifies output
    ensures output[k] as int == old(output[k]) as int + 19 * output[10 + k] as int
    ensures forall j | 0 <= j < output.Length && j != k :: output[j] == old(output[j])
  {
    output[k] := output[k] + output[10 + k] * 16;
    output[k] := output[k] + output[10 + k] * 2;
    output[k] := output[k] + output[10 + k];
  }

  /** Folds the nine upper columns back by 19. */
  method ReduceDegree(output: array<s64>)
    requires output.Length >= 19 && UnderLong(Columns(output), BOUND)
    modifies output
    ensures Limbs(output) == Folded(old(Columns(output))) && Under(Limbs(output), 20 * BOUND)
  {
    FoldLimb(output, 8);
    FoldLimb(output, 7);
    FoldLimb(output, 6);
    FoldLimb(output, 5);
    FoldLimb(output, 4);
    FoldLimb(output, 3);
    FoldLimb(output, 2);
    FoldLimb(output, 1);
    FoldLimb(output, 0);
  }

  /** Two's-complement reinterpretations. */
  function Unsigned64(v: s64): nat { if v < 0 then v as int + 0x1_0000_0000_0000_0000 else v as int }

  function Signed32(u: nat): int
    requires u < 0x1_0000_0000
  {
    if u < 0x8000_0000 then u else u - 0x1_0000_0000
  }

  function Unsigned32(v: int): nat
    requires -0x8000_0000 <= v < 0x8000_0000
  {
    if v < 0 then v + 0x1_0000_0000 else v
  }

  /** v / 2^26 rounded towards zero, by adding 2^26 - 1 to negative numbers before an arithmetic shift. */
  function DivBy26(v: s64): (q: s64)
    ensures -R26 < v as int - q as int * R26 < R26
    ensures if v >= 0 then 0 <= q as int * R26 <= v as int else v as int <= q as int * R26 <= 0
  {
    var highword := Unsigned64(v) / 0x1_0000_0000;
    var sign := Signed32(highword) / 0x8000_0000;
    var roundoff := Unsigned32(sign) / 64;
    (v + roundoff as s64) / 0x400_0000
  }

  /** v / 2^25 rounded towards zero. */
  function DivBy25(v: s64): (q: s64)
    ensures -R25 < v as int - q as int * R25 < R25
    ensures if v >= 0 then 0 <= q as int * R25 <= v as int else v as int <= q as int * R25 <= 0
  {
    var highword := Unsigned64(v) / 0x1_0000_0000;
    var sign := Signed32(highword) / 0x8000_0000;
    var roundoff := Unsigned32(sign) / 128;
    (v + roundoff as s64) / 0x200_0000
  }

  function IntSeq(s: seq<s64>): (r: seq<int>)
    ensures |r| == |s| && forall i | 0 <= i < |s| :: r[i] == s[i] as int
  {
    seq(|s|, i requires 0 <= i < |s| => s[i] as int)
  }

  ghost function Eval11(a: array<s64>): int
    reads a
    requires a.Length >= 11
  {
    Eval(IntSeq(a[..11]), 0)
  }

  function Abs(x: int): nat { if x < 0 then -x else x }

  /** Carries limb k into limb k + 1. */
  method CarryLimb(output: array<s64>, k: nat)
    requires output.Length >= 11 && k < 10
    requires -0x4800_0000_0000_0000 <= output[k + 1] < 0x4800_0000_0000_0000
    requires -0x7fff_ffff_ffff_ffff <= output[k]
    modifies output
    ensures Eval11(output) == old(Eval11(output))
    ensures -Radix(k) < output[k] as int < Radix(k)
    ensures R25 * Abs(output[k + 1] as int - old(output[k + 1]) as int) <= Abs(old(output[k]) as int)
    ensures forall j | 0 <= j < output.Length && j != k && j != k + 1 :: output[j] == old(output[j])
  {
    hide DivBy26, DivBy25;
    ghost var was := IntSeq(output[..11]);
    var over: s64;
    if k % 2 == 0 {
      over := DivBy26(output[k]);
      output[k] := output[k] - over * 0x400_0000;
    } else {
      over := DivBy25(output[k]);
      output[k] := output[k] - over * 0x200_0000;
    }
    output[k + 1] := output[k + 1] + over;
    EvalMove(was, k, 0, over as int);
    hide Eval;
    assert IntSeq(output[..11]) == was[k := was[k] - Radix(k) * over as int][k + 1 := was[k + 1] + over as int];
  }

  lemma Eval11Poly(a: array<s64>)
    requires a.Length >= 11
    ensures Eval11(a) == Poly(Limbs(a)) + W10 * a[10] as int
  {
    EvalTen(IntSeq(a[..11]));
    assert ToTen(IntSeq(a[..11])) == Limbs(a);
  }

  const ENTRY: int := 20 * BOUND

  /** The carry loop: every limb but the eleventh ends up inside its radix. */
  method CarryAll(output: array<s64>)
    requires output.Length >= 11 && Under(Limbs(output), ENTRY) && output[10] == 0
    modifies output
    ensures Eval11(output) == old(Eval11(output))
    ensures forall j | 0 <= j < 10 :: -Radix(j) < output[j] as int < Radix(j)
    ensures -0x48_0000_0000 < output[10] as int < 0x48_0000_0000
    ensures forall j | 11 <= j < output.Length :: output[j] == old(output[j])
  {
    hide Eval11;
    var i := 0;
    while i < 10
      invariant i % 2 == 0 && 0 <= i <= 10
      invariant Eval11(output) == old(Eval11(output))
      invariant forall j | 0 <= j < i :: -Radix(j) < output[j] as int < Radix(j)
      invariant i < 10 ==> -ENTRY - 0x1_0000_0000_0000 < output[i] as int < ENTRY + 0x1_0000_0000_0000
      invariant forall j | i < j < 10 :: -ENTRY < output[j] as int < ENTRY
      invariant if i < 10 then output[10] == 0 else -0x48_0000_0000 < output[10] as int < 0x48_0000_0000
      invariant forall j | 11 <= j < output.Length :: output[j] == old(output[j])
    {
      CarryLimb(output, i);
      CarryLimb(output, i + 1);
      i := i + 2;
    }
  }

  /** Brings every coefficient below 2^26 in absolute value. */
  method ReduceCoefficients(output: array<s64>)
    requires output.Length >= 11 && Under(Limbs(output), ENTRY)
    modifies output
    ensures Tight(output) && Value(output) == old(Value(output))
    ensures forall j | 11 <= j < output.Length :: output[j] == old(output[j])
  {
    hide Poly, Red, Eval11;
    output[10] := 0;
    Eval11Poly(output);
    CarryAll(output);
    Eval11Poly(output);
    FoldEleventh(Limbs(output), output[10] as int);
    ghost var x, top := Limbs(output), output[10] as int;
    output[0] := output[0] + output[10] * 16;
    output[0] := output[0] + output[10] * 2;
    output[0] := output[0] + output[10];
    output[10] := 0;
    assert Limbs(output) == x.(v0 := x.v0 + 19 * top);
    Eval11Poly(output);
    CarryLimb(output, 0);
    Eval11Poly(output);
  }

  /** The sequence fproduct, freduce_degree, freduce_coefficients. */
  method ProductReduced(output: array<s64>, in2: array<s64>, in1: array<s64>)
    requires output.Length >= 19 && output != in2 && output != in1 && Loose(in2) && Loose(in1)
    modifies output
    ensures Tight(output) && Value(output) == Mul(Value(in2), Value(in1))
  {
    ProductMul(Limbs(in2), Limbs(in1));
    hide Product, Poly, Red, Mul, Folded;
    FProduct(output, in2, in1);
    ReduceDegree(output);
    ReduceCoefficients(output);
  }

  /** output := in1 * in2 */
  method Multiply(output: array<s64>, in1: array<s64>, in2: array<s64>)
    requires output.Length >= 10 && Loose(in1) && Loose(in2)
    modifies output
    ensures Tight(output) && Value(output) == Mul(old(Value(in1)), old(Value(in2)))
  {
    hide Limbs, Value, Tight, Loose, Mul;
    var t := new s64[19];
    ProductReduced(t, in1, in2);
    CopyLimbs(output, t);
  }

  /** output := input * input */
  method Square(output: array<s64>, input: array<s64>)
    requires output.Length >= 10 && Loose(input)
    modifies output
    ensures Tight(output) && Value(output) == Sqr(old(Value(input)))
  {
    ProductMul(Limbs(input), Limbs(input));
    hide Product, Poly, Red, Mul, Folded;
    var t := new s64[19];
    FSquareInner(t, input);
    ReduceDegree(t);
    ReduceCoefficients(t);
    CopyLimbs(output, t);
  }

  /** memcpy of ten limbs */
  method CopyLimbs(output: array<s64>, a: array<s64>)
    requires output.Length >= 10 && Tight(a) && output != a
    modifies output
    ensures Tight(output) && Value(output) == Value(a)
    ensures forall j | 10 <= j < output.Length :: output[j] == old(output[j])
  {
    Store(output, a[..10]);
    assert Limbs(output) == Limbs(a);
  }

  lemma ScaleBound(k: int, x: int)
    requires 0 <= k <= 0x2_0000 && -0x800_0000 < x < 0x800_0000
    ensures -0x1000_0000_0000 <= IMul(k, x) <= 0x1000_0000_0000
  {
    Nonneg(k, 0x800_0000 - x);
    Nonneg(k, 0x800_0000 + x);
  }

  /** output := input * scalar, not yet carried */
  method ScalarProduct(output: array<s64>, input: array<s64>, scalar: s64)
    requires output.Length >= 10 && output != input && Loose(input) && 0 <= scalar <= 0x2_0000
    modifies output
    ensures Under(Limbs(output), ENTRY) && Value(output) == Mul(Value(input), Red(scalar as int))
    ensures forall j | 10 <= j < output.Length :: output[j] == old(output[j])
  {
    ghost var x, k := Limbs(input), scalar as int;
    PolyTimes(k, x);
    RedMul(Poly(x), k);
    hide Poly, Red, Mul;
    for i := 0 to 10
      invariant forall j | 0 <= j < i ::
          output[j] as int == IMul(k, input[j] as int) && -0x1000_0000_0000 <= output[j] <= 0x1000_0000_0000
      invariant forall j | i <= j < output.Length :: output[j] == old(output[j])
    {
      ScaleBound(k, input[i] as int);
      output[i] := input[i] * scalar;
    }
    hide IMul;
    assert Limbs(output) == Times(k, x);
  }

  // ----- the ladder -----

  /** x, z := x + z, x - z */
  method SumAndDifference(x: array<s64>, z: array<s64>)
    requires x != z && Tight(x) && Tight(z)
    modifies x, z
    ensures Loose(x) && Value(x) == Add(old(Value(x)), old(Value(z)))
    ensures Loose(z) && Value(z) == Sub(old(Value(x)), old(Value(z)))
  {
    hide Limbs, Value, Tight, Loose, Add, Sub;
    var origx := new s64[10];
    CopyLimbs(origx, x);
    Sum(x, z);
    Difference(z, origx);
  }

  /** x3 : z3 := the differential addition, from the sums and differences of both points. */
  method MontyAdd(x3: array<s64>, z3: array<s64>, a: array<s64>, b: array<s64>, c: array<s64>, d: array<s64>,
                  qmqp: array<s64>)
    requires x3 != z3 && qmqp != x3 && x3.Length >= 10 && z3.Length >= 10
    requires Loose(a) && Loose(b) && Loose(c) && Loose(d) && Tight(qmqp)
    modifies x3, z3
    ensures Tight(x3) && Tight(z3)
    ensures
      var cb, da := Mul(old(Value(c)), old(Value(b))), Mul(old(Value(a)), old(Value(d)));
      Value(x3) == Sqr(Add(cb, da)) && Value(z3) == Mul(Sqr(Sub(cb, da)), old(Value(qmqp)))
  {
    hide Limbs, Value, Tight, Loose, Add, Sub, Mul;
    var xxprime, zzprime, zzzprime, xxxprime := new s64[19], new s64[19], new s64[19], new s64[19];
    ProductReduced(xxprime, c, b);
    ProductReduced(zzprime, a, d);
    SumAndDifference(xxprime, zzprime);
    Square(xxxprime, xxprime);
    Square(zzzprime, zzprime);
    ProductReduced(zzprime, zzzprime, qmqp);
    CopyLimbs(x3, xxxprime);
    CopyLimbs(z3, zzprime);
  }

  /** x2 : z2 := the doubling, from the sum a and difference b. */
  method MontyDouble(x2: array<s64>, z2: array<s64>, a: array<s64>, b: array<s64>)
    requires x2 != z2 && x2.Length >= 19 && z2.Length >= 19 && Loose(a) && Loose(b)
    modifies x2, z2
    ensures Tight(x2) && Tight(z2)
    ensures
      var aa, bb := Sqr(old(Value(a))), Sqr(old(Value(b)));
      var e := Sub(aa, bb);
      Value(x2) == Mul(aa, bb) && Value(z2) == Mul(e, Add(Mul(e, A24), aa))
  {
    assert Red(121665) == A24;
    hide Limbs, Value, Tight, Loose, Add, Sub, Mul, Red;
    var xx, zz, zzz := new s64[19], new s64[19], new s64[19];
    Square(xx, a);
    Square(zz, b);
    ProductReduced(x2, xx, zz);
    Difference(zz, xx);
    ScalarProduct(zzz, zz, 121665);
    ReduceCoefficients(zzz);
    Sum(zzz, xx);
    ProductReduced(z2, zz, zzz);
  }

  /** One ladder step: x2 : z2 doubles (x : z), x3 : z3 adds (xprime : zprime); the inputs are destroyed. */
  method Monty(x2: array<s64>, z2: array<s64>, x3: array<s64>, z3: array<s64>, x: array<s64>, z: array<s64>,
               xprime: array<s64>, zprime: array<s64>, qmqp: array<s64>)
    requires x2.Length >= 19 && z2.Length >= 19 && x3.Length >= 10 && z3.Length >= 10
    requires x2 != z2 && x2 != x3 && x2 != z3 && z2 != x3 && z2 != z3 && x3 != z3
    requires x3 != x && x3 != z && z3 != x && z3 != z
    requires x != z && x != xprime && x != zprime && z != xprime && z != zprime && xprime != zprime
    requires qmqp != x && qmqp != z && qmqp != xprime && qmqp != zprime && qmqp != x3
    requires Tight(x) && Tight(z) && Tight(xprime) && Tight(zprime) && Tight(qmqp)
    modifies x2, z2, x3, z3, x, z, xprime, zprime
    ensures Tight(x2) && Tight(z2) && Tight(x3) && Tight(z3)
    ensures Ladder(Value(x2), Value(z2), Value(x3), Value(z3)) ==
            Step(old(Value(qmqp)), Ladder(old(Value(x)), old(Value(z)), old(Value(xprime)), old(Value(zprime))))
  {
    StepByCode(Value(qmqp), Value(x), Value(z), Value(xprime), Value(zprime));
    hide Limbs, Value, Tight, Loose, Add, Sub, Mul, Step;
    SumAndDifference(x, z);
    SumAndDifference(xprime, zprime);
    MontyAdd(x3, z3, x, z, xprime, zprime, qmqp);
    MontyDouble(x2, z2, x, z);
  }

  /** The exclusive-or exchange of one pair of limbs, on their 32-bit two's-complement patterns. */
  method MaskedSwap(a: s64, b: s64, swap: nat) returns (a': s64, b': s64)
    requires swap == 0 || swap == 0xffff_ffff
    requires -0x8000_0000 <= a < 0x8000_0000 && -0x8000_0000 <= b < 0x8000_0000
    ensures a' == if swap == 0 then a else b
    ensures b' == if swap == 0 then b else a
  {
    WordExp2();
    hide Exp2, And, Xor;
    var x, y := Unsigned32(a as int), Unsigned32(b as int);
    MaskedXor(x, y, 32);
    var m := And(swap, Xor(x, y));
    a' := Signed32(Xor(x, m)) as s64;
    b' := Signed32(Xor(y, m)) as s64;
  }

  /** Exchanges a and b without branching when iswap is 1. */
  method SwapConditional(a: array<s64>, b: array<s64>, iswap: s64)
    requires a != b && Tight(a) && Tight(b) && 0 <= iswap <= 1
    modifies a, b
    ensures Tight(a) && Tight(b)
    ensures Value(a) == if iswap == 0 then old(Value(a)) else old(Value(b))
    ensures Value(b) == if iswap == 0 then old(Value(b)) else old(Value(a))
  {
    hide Poly, Red;
    var swap := Unsigned32(-iswap as int);
    for i := 0 to 10
      invariant forall j | 0 <= j < i :: a[j] == if iswap == 0 then old(a[j]) else old(b[j])
      invariant forall j | 0 <= j < i :: b[j] == if iswap == 0 then old(b[j]) else old(a[j])
      invariant forall j | i <= j < 10 :: a[j] == old(a[j]) && b[j] == old(b[j])
    {
      a[i], b[i] := MaskedSwap(a[i], b[i], swap);
    }
    assert Limbs(a) == if iswap == 0 then old(Limbs(a)) else old(Limbs(b));
    assert Limbs(b) == if iswap == 0 then old(Limbs(b)) else old(Limbs(a));
  }

  ghost predicate Apart(a: array<s64>, b: array<s64>, c: array<s64>, d: array<s64>, e: array<s64>, f: array<s64>,
                        g: array<s64>, h: array<s64>)
  {
    && a != b && a != c && a != d && a != e && a != f && a != g && a != h
    && b != c && b != d && b != e && b != f && b != g && b != h
    && c != d && c != e && c != f && c != g && c != h
    && d != e && d != f && d != g && d != h
    && e != f && e != g && e != h && f != g && f != h && g != h
  }

  /** The body of cmult's inner loop: swap, step, swap back. */
  method ProcessBit(bit: s64, q: array<s64>, nqx: array<s64>, nqz: array<s64>, nqpqx: array<s64>, nqpqz: array<s64>,
                    nqx2: array<s64>, nqz2: array<s64>, nqpqx2: array<s64>, nqpqz2: array<s64>)
    requires 0 <= bit <= 1 && Apart(nqx, nqz, nqpqx, nqpqz, nqx2, nqz2, nqpqx2, nqpqz2)
    requires q !in {nqx, nqz, nqpqx, nqpqz, nqx2, nqz2, nqpqx2, nqpqz2}
    requires nqx2.Length == nqz2.Length == nqpqx2.Length == nqpqz2.Length == 19
    requires nqx.Length == nqz.Length == nqpqx.Length == nqpqz.Length == 19
    requires Tight(q) && Tight(nqx) && Tight(nqz) && Tight(nqpqx) && Tight(nqpqz)
    modifies nqx, nqz, nqpqx, nqpqz, nqx2, nqz2, nqpqx2, nqpqz2
    ensures Tight(nqx2) && Tight(nqz2) && Tight(nqpqx2) && Tight(nqpqz2)
    ensures Ladder(Value(nqx2), Value(nqz2), Value(nqpqx2), Value(nqpqz2)) ==
            LadderBit(bit as nat, Value(q), Ladder(old(Value(nqx)), old(Value(nqz)), old(Value(nqpqx)),
                                                   old(Value(nqpqz))))
  {
    hide Limbs, Value, Loose, Tight, Step;
    SwapConditional(nqx, nqpqx, bit);
    SwapConditional(nqz, nqpqz, bit);
    Monty(nqx2, nqz2, nqpqx2, nqpqz2, nqx, nqz, nqpqx, nqpqz, q);
    SwapConditional(nqx2, nqpqx2, bit);
    SwapConditional(nqz2, nqpqz2, bit);
  }

  /** Eight rounds of cmult's inner loop: the bits of byte m of the scalar, from the top.
      The buffers trade places after every bit, so after eight the results are back where they started. */
  method ProcessByte(n: seq<u8>, m: nat, q: array<s64>, nqx: array<s64>, nqz: array<s64>, nqpqx: array<s64>,
                     nqpqz: array<s64>,
                     nqx2: array<s64>, nqz2: array<s64>, nqpqx2: array<s64>, nqpqz2: array<s64>)
    requires m < |n| && Apart(nqx, nqz, nqpqx, nqpqz, nqx2, nqz2, nqpqx2, nqpqz2)
    requires q !in {nqx, nqz, nqpqx, nqpqz, nqx2, nqz2, nqpqx2, nqpqz2}
    requires nqx2.Length == nqz2.Length == nqpqx2.Length == nqpqz2.Length == 19
    requires nqx.Length == nqz.Length == nqpqx.Length == nqpqz.Length == 19
    requires Tight(q) && Tight(nqx) && Tight(nqz) && Tight(nqpqx) && Tight(nqpqz)
    modifies nqx, nqz, nqpqx, nqpqz, nqx2, nqz2, nqpqx2, nqpqz2
    ensures Tight(nqx) && Tight(nqz) && Tight(nqpqx) && Tight(nqpqz)
    ensures Run(Value(q), LE(n), 8 * m, Ladder(Value(nqx), Value(nqz), Value(nqpqx), Value(nqpqz))) ==
            Run(Value(q), LE(n), 8 * m + 8, Ladder(old(Value(nqx)), old(Value(nqz)), old(Value(nqpqx)),
                                                   old(Value(nqpqz))))
  {
    hide Limbs, Value, Loose, Tight, LadderBit, Bit, Run, LE;
    var x, z, px, pz := nqx, nqz, nqpqx, nqpqz;
    var x2, z2, px2, pz2 := nqx2, nqz2, nqpqx2, nqpqz2;
    ghost var u, k := Value(q), LE(n);
    ghost var goal := Run(u, k, 8 * m + 8, Ladder(Value(x), Value(z), Value(px), Value(pz)));
    var byte := n[m];
    for j := 0 to 8
      invariant (x, z, px, pz) == if j % 2 == 0 then (nqx, nqz, nqpqx, nqpqz) else (nqx2, nqz2, nqpqx2, nqpqz2)
      invariant (x2, z2, px2, pz2) == if j % 2 == 0 then (nqx2, nqz2, nqpqx2, nqpqz2) else (nqx, nqz, nqpqx, nqpqz)
      invariant x2.Length == z2.Length == px2.Length == pz2.Length == 19
      invariant Tight(q) && Value(q) == u && Tight(x) && Tight(z) && Tight(px) && Tight(pz)
      invariant Run(u, k, 8 * m + 8 - j, Ladder(Value(x), Value(z), Value(px), Value(pz))) == goal
      invariant byte as nat == Shifted(n[m] as nat, j)
    {
      var bit := (byte / 128) as s64;
      TopBit(n, m, j);
      RunUnfold(u, k, 8 * m + 8 - j, Ladder(Value(x), Value(z), Value(px), Value(pz)));
      ProcessBit(bit, q, x, z, px, pz, x2, z2, px2, pz2);
      x, x2 := x2, x;
      z, z2 := z2, z;
      px, px2 := px2, px;
      pz, pz2 := pz2, pz;
      byte := (byte % 128) * 2;
    }
  }

  /** A fresh buffer holding a small constant. */
  method Constant(k: s64) returns (a: array<s64>)
    requires 0 <= k <= 1
    ensures fresh(a) && a.Length == 19 && Tight(a) && Value(a) == k as int
  {
    a := new s64[19](i => 0);
    a[0] := k;
    assert Poly(Limbs(a)) == k as int;
  }

  /** The 256 ladder steps, on buffers that hold the starting points. */
  method LadderLoop(n: seq<u8>, q: array<s64>, nqx: array<s64>, nqz: array<s64>, nqpqx: array<s64>, nqpqz: array<s64>)
    requires |n| == 32 && Tight(q) && q !in {nqx, nqz, nqpqx, nqpqz}
    requires nqx != nqz && nqx != nqpqx && nqx != nqpqz && nqz != nqpqx && nqz != nqpqz && nqpqx != nqpqz
    requires nqx.Length == nqz.Length == nqpqx.Length == nqpqz.Length == 19
    requires Tight(nqx) && Tight(nqz) && Tight(nqpqx) && Tight(nqpqz)
    modifies nqx, nqz, nqpqx, nqpqz
    ensures Tight(nqx) && Tight(nqz) && Tight(nqpqx) && Tight(nqpqz)
    ensures Ladder(Value(nqx), Value(nqz), Value(nqpqx), Value(nqpqz)) ==
            Run(Value(q), LE(n), 256, Ladder(old(Value(nqx)), old(Value(nqz)), old(Value(nqpqx)), old(Value(nqpqz))))
  {
    hide Limbs, Value, Loose, Tight, LadderBit, Bit, Run, LE;
    ghost var u, k := Value(q), LE(n);
    ghost var start := Ladder(Value(nqx), Value(nqz), Value(nqpqx), Value(nqpqz));
    var nqpqx2, nqpqz2, nqx2, nqz2 := new s64[19], new s64[19], new s64[19], new s64[19];
    for i := 0 to 32
      invariant Tight(q) && Value(q) == u && Tight(nqx) && Tight(nqz) && Tight(nqpqx) && Tight(nqpqz)
      invariant Run(u, k, 256 - 8 * i, Ladder(Value(nqx), Value(nqz), Value(nqpqx), Value(nqpqz)))
                == Run(u, k, 256, start)
    {
      ProcessByte(n, 31 - i, q, nqx, nqz, nqpqx, nqpqz, nqx2, nqz2, nqpqx2, nqpqz2);
    }
    RunUnfold(u, k, 0, Ladder(Value(nqx), Value(nqz), Value(nqpqx), Value(nqpqz)));
  }

  /** The ladder for the little-endian scalar n and the point q. */
  method CMult(n: seq<u8>, q: array<s64>) returns (resultx: array<s64>, resultz: array<s64>)
    requires |n| == 32 && Tight(q)
    ensures fresh(resultx) && fresh(resultz) && resultx != resultz && Tight(resultx) && Tight(resultz)
    ensures
      var st := Run(Value(q), LE(n), 256, Start(Value(q)));
      Value(resultx) == st.x2 && Value(resultz) == st.z2
  {
    hide Limbs, Value, Loose, Tight, Run, LE;
    var nqpqx := new s64[19];
    CopyLimbs(nqpqx, q);
    var nqpqz := Constant(1);
    var nqx := Constant(1);
    var nqz := Constant(0);
    LadderLoop(n, q, nqx, nqz, nqpqx, nqpqz);
    resultx, resultz := new s64[10], new s64[11];
    CopyLimbs(resultx, nqx);
    CopyLimbs(resultz, nqz);
  }

  // ----- inversion -----

  /** t1 := x squared n times, two squarings to a round, t0 being scratch. */
  method SquareRounds(t0: array<s64>, t1: array<s64>, x: array<s64>, n: nat)
    requires t0.Length == t1.Length == 10 && t0 != t1 && Tight(x) && n >= 2 && n % 2 == 0
    modifies t0, t1
    ensures Tight(t1) && Value(t1) == Squarings(old(Value(x)), n)
  {
    hide Limbs, Value, Loose, Tight, Mul, Squarings;
    ghost var v := Value(x);
    SquaringsTwo(v, 0);
    Square(t0, x);
    Square(t1, t0);
    var i := 2;
    while i < n
      invariant 2 <= i <= n && i % 2 == 0
      invariant Tight(t1) && Value(t1) == Squarings(v, i)
    {
      SquaringsTwo(v, i);
      Square(t0, t1);
      Square(t1, t0);
      i := i + 2;
    }
  }

  /** t0 := x squared five times, t1 being scratch. */
  method SquareFive(t0: array<s64>, t1: array<s64>, x: array<s64>)
    requires t0.Length == t1.Length == 10 && t0 != t1 && Tight(x)
    modifies t0, t1
    ensures Tight(t0) && Value(t0) == Squarings(old(Value(x)), 5)
  {
    hide Limbs, Value, Loose, Tight, Mul, Squarings;
    SquaringsTwo(Value(x), 1);
    SquaringsTwo(Value(x), 3);
    Square(t0, x);
    Square(t1, t0);
    Square(t0, t1);
    Square(t1, t0);
    Square(t0, t1);
  }

  /** out := v^(2^(m+n) - 1), from v^(2^m - 1) in x and v^(2^n - 1) in y: n squarings and a product. */
  method Extend(out: array<s64>, t0: array<s64>, t1: array<s64>, x: array<s64>, n: nat, y: array<s64>, ghost v: Fe,
                ghost m: nat)
    requires out.Length == t0.Length == t1.Length == 10 && t0 != t1 && y != t0 && y != t1 && Tight(x) && Tight(y)
    requires n >= 2 && n % 2 == 0 && Value(x) == Rep(v, m) && Value(y) == Rep(v, n)
    modifies out, t0, t1
    ensures Tight(out) && Value(out) == Rep(v, m + n)
  {
    hide Limbs, Value, Loose, Tight, Mul, Rep, Squarings;
    SquareRounds(t0, t1, x, n);
    Multiply(out, t1, y);
    ChainStep(v, m, n);
  }

  /** z11, z2_5_0 := z^11, z^31 */
  method RecipStart(z11: array<s64>, z2_5_0: array<s64>, t0: array<s64>, t1: array<s64>, z: array<s64>)
    requires z11.Length == z2_5_0.Length == t0.Length == t1.Length == 10 && Tight(z)
    requires z11 != z2_5_0 && z11 != t0 && z11 != t1 && z2_5_0 != t0 && z2_5_0 != t1 && t0 != t1
    requires z !in {z11, z2_5_0, t0, t1}
    modifies z11, z2_5_0, t0, t1
    ensures Tight(z11) && Value(z11) == Pow(Value(z), 11)
    ensures Tight(z2_5_0) && Value(z2_5_0) == Rep(Value(z), 5)
  {
    hide Limbs, Value, Loose, Tight, Mul, Pow, Rep, Squarings;
    SmallPowers(Value(z));
    SquaringsTwo(Sqr(Value(z)), 0);
    var z2, z9 := new s64[10], new s64[10];
    Square(z2, z);
    Square(t1, z2);
    Square(t0, t1);
    Multiply(z9, t0, z);
    Multiply(z11, z9, z2);
    Square(t0, z11);
    Multiply(z2_5_0, t0, z9);
  }

  /** z2_50_0 := v^(2^50 - 1), from v^31 */
  method RecipFifty(z2_50_0: array<s64>, z2_5_0: array<s64>, t0: array<s64>, t1: array<s64>, ghost v: Fe)
    requires z2_50_0.Length == t0.Length == t1.Length == 10 && t0 != t1 && z2_50_0 !in {t0, t1, z2_5_0}
             && z2_5_0 !in {t0, t1}
    requires Tight(z2_5_0) && Value(z2_5_0) == Rep(v, 5)
    modifies z2_50_0, t0, t1
    ensures Tight(z2_50_0) && Value(z2_50_0) == Rep(v, 50)
  {
    hide Limbs, Value, Loose, Tight, Mul, Rep, Squarings;
    var z2_10_0, z2_20_0 := new s64[10], new s64[10];
    SquareFive(t0, t1, z2_5_0);
    Multiply(z2_10_0, t0, z2_5_0);
    ChainStep(v, 5, 5);
    Extend(z2_20_0, t0, t1, z2_10_0, 10, z2_10_0, v, 10);
    Extend(t0, t0, t1, z2_20_0, 20, z2_20_0, v, 20);
    Extend(z2_50_0, t1, t0, t0, 10, z2_10_0, v, 40);
  }

  /** t0 := v^(2^250 - 1), from v^(2^50 - 1) */
  method RecipTwoFifty(z2_50_0: array<s64>, t0: array<s64>, t1: array<s64>, ghost v: Fe)
    requires t0.Length == t1.Length == 10 && t0 != t1 && z2_50_0 !in {t0, t1}
    requires Tight(z2_50_0) && Value(z2_50_0) == Rep(v, 50)
    modifies t0, t1
    ensures Tight(t0) && Value(t0) == Rep(v, 250)
  {
    hide Limbs, Value, Loose, Tight, Mul, Rep, Squarings;
    var z2_100_0 := new s64[10];
    Extend(z2_100_0, t0, t1, z2_50_0, 50, z2_50_0, v, 50);
    Extend(t1, t1, t0, z2_100_0, 100, z2_100_0, v, 100);
    Extend(t0, t0, t1, t1, 50, z2_50_0, v, 200);
  }

  /** out := z^(2^255 - 21) */
  method CRecip(out: array<s64>, z: array<s64>)
    requires out.Length == 10 && Tight(z)
    modifies out
    ensures Tight(out) && Value(out) == Pow(old(Value(z)), P - 2)
  {
    hide Limbs, Value, Loose, Tight, Mul, Pow, Rep, Squarings;
    ghost var v := Value(z);
    FinalPower(v);
    var z11, z2_5_0, z2_50_0, t0, t1 := new s64[10], new s64[10], new s64[10], new s64[10], new s64[10];
    RecipStart(z11, z2_5_0, t0, t1, z);
    RecipFifty(z2_50_0, z2_5_0, t0, t1, v);
    RecipTwoFifty(z2_50_0, t0, t1, v);
    SquareFive(t1, t0, t0);
    Multiply(out, t1, z11);
  }
}
