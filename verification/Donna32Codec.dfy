/** Bytes to limbs and back, and the entry point of libjl777/curve25519-donna.c. */
module Donna32Codec {
  import opened Machine
  import opened Field25519
  import opened Limbs25
  import opened X25519
  import opened Bits
  import opened Donna32

  // ----- bytes to limbs -----

  /** A little-endian 32-bit load, built from shifts and ors. */
  function Load32(b: seq<u8>, at: nat): nat
    requires at + 4 <= |b|
  {
    Or(Or(Or(b[at] as nat, b[at + 1] as nat * 0x100), b[at + 2] as nat * 0x1_0000), b[at + 3] as nat * 0x100_0000)
  }

  lemma Load32Value(b: seq<u8>, at: nat)
    requires at + 4 <= |b|
    ensures Load32(b, at) == LE(b[at..at + 4])
  {
    assert b[at..at + 4][4..] == [];
    assert LE([]) == 0;
    hide Exp2, Or, LE;
    ByteExp2();
    LEOfFour(b[at..at + 4]);
    var c1 := b[at] as nat + b[at + 1] as nat * 0x100;
    var c2 := c1 + b[at + 2] as nat * 0x1_0000;
    OrShifted(b[at] as nat, b[at + 1] as nat, 8, 0x100);
    OrShifted(c1, b[at + 2] as nat, 16, 0x1_0000);
    OrShifted(c2, b[at + 3] as nat, 24, 0x100_0000);
  }

  /** A shifted and masked load reads w bits of the whole number. */
  lemma LimbBits(b: seq<u8>, at: nat, s: nat, w: nat)
    requires at + 4 <= |b| && s + w <= 32
    ensures Exp2(s) > 0 && Exp2(8 * at + s) > 0 && Exp2(w) > 0
    ensures Load32(b, at) / Exp2(s) % Exp2(w) == LE(b) / Exp2(8 * at + s) % Exp2(w)
  {
    hide Exp2, LE, Load32;
    Exp2Positive(8 * at);
    Exp2Positive(s);
    Exp2Add(8 * at, s);
    Load32Value(b, at);
    LEWindow(b, at, 4);
    DivMod(LE(b), Exp2(8 * at));
    WindowBits(LE(b) / Exp2(8 * at), 32, s, w);
    DivDiv(LE(b), Exp2(8 * at), Exp2(s));
  }

  lemma LimbExp2()
    ensures Exp2(0) == 1 && Exp2(1) == 2 && Exp2(2) == 4 && Exp2(3) == 8 && Exp2(4) == 16 && Exp2(5) == 32
            && Exp2(6) == 64
    ensures Exp2(25) == R25 && Exp2(26) == R26 && Exp2(51) == W2 && Exp2(77) == W3 && Exp2(102) == W4 && Exp2(128) == W5
    ensures Exp2(153) == W6 && Exp2(179) == W7 && Exp2(204) == W8 && Exp2(230) == W9
  {
    SmallExp2();
    ByteExp2();
    hide Exp2;
    Exp2Add(24, 1);
    Exp2Add(24, 2);
    Exp2Add(25, 26);
    Exp2Add(51, 26);
    Exp2Add(77, 25);
    Exp2Add(102, 26);
    Exp2Add(128, 25);
    Exp2Add(153, 26);
    Exp2Add(179, 25);
    Exp2Add(204, 26);
  }

  lemma LoadedDigits(b: seq<u8>)
    requires |b| == 32
    ensures Ten(Load32(b, 0) / 1 % R26, Load32(b, 3) / 4 % R25, Load32(b, 6) / 8 % R26, Load32(b, 9) / 32 % R25,
                Load32(b, 12) / 64 % R26, Load32(b, 16) / 1 % R25, Load32(b, 19) / 2 % R26, Load32(b, 22) / 8 % R25,
                Load32(b, 25) / 16 % R26, Load32(b, 28) / 64 % R25) == Digits(LE(b))
  {
    hide Exp2, LE, Load32;
    LimbExp2();
    LimbBits(b, 0, 0, 26);
    LimbBits(b, 3, 2, 25);
    LimbBits(b, 6, 3, 26);
    LimbBits(b, 9, 5, 25);
    LimbBits(b, 12, 6, 26);
    LimbBits(b, 16, 0, 25);
    LimbBits(b, 19, 1, 26);
    LimbBits(b, 22, 3, 25);
    LimbBits(b, 25, 4, 26);
    LimbBits(b, 28, 6, 25);
  }

  /** Splits 32 bytes into limbs, dropping the top bit. */
  method Expand(b: seq<u8>) returns (output: array<s64>)
    requires |b| == 32
    ensures fresh(output) && output.Length == 10 && Tight(output) && Poly(Limbs(output)) == LE(b) % W10
  {
    LoadedDigits(b);
    DigitsPoly(LE(b));
    hide LE, Load32, Poly;
    var d0, d1, d2, d3, d4 := Load32(b, 0) % R26, Load32(b, 3) / 4 % R25, Load32(b, 6) / 8 % R26,
        Load32(b, 9) / 32 % R25,
      Load32(b, 12) / 64 % R26;
    var d5, d6, d7, d8, d9 := Load32(b, 16) % R25, Load32(b, 19) / 2 % R26, Load32(b, 22) / 8 % R25,
        Load32(b, 25) / 16 % R26,
      Load32(b, 28) / 64 % R25;
    assert Ten(d0, d1, d2, d3, d4, d5, d6, d7, d8, d9) == Digits(LE(b));
    hide Digits;
    output := new s64[10];
    Store(output, [d0 as s64, d1 as s64, d2 as s64, d3 as s64, d4 as s64, d5 as s64, d6 as s64, d7 as s64, d8 as s64,
                   d9 as s64]);
    assert Limbs(output) == Ten(d0, d1, d2, d3, d4, d5, d6, d7, d8, d9);
  }

  // ----- canonical limbs -----

  function IntSeq32(s: seq<s32>): (r: seq<int>)
    ensures |r| == |s| && forall i | 0 <= i < |s| :: r[i] == s[i] as int
  {
    seq(|s|, i requires 0 <= i < |s| => s[i] as int)
  }

  ghost function Word(a: array<s32>): Ten
    reads a
    requires a.Length == 10
  {
    ToTen(IntSeq32(a[..]))
  }

  /** How many units must be borrowed from the next limb to make x non-negative. */
  function Borrow(x: s32, radix: int): (c: int)
    requires radix == R26 || radix == R25
    ensures x >= 0 ==> c == 0
    ensures x < 0 ==> c > 0 && 0 <= x as int + c * radix < radix
  {
    var mask := x as int / 0x8000_0000;
    -((if mask == -1 then x as int else 0) / radix)
  }

  lemma MovePoly(s: seq<int>, k: nat, q: int)
    requires |s| == 10 && k < 9
    ensures Poly(ToTen(s[k := s[k] - Radix(k) * q][k + 1 := s[k + 1] + q])) == Poly(ToTen(s))
  {
    hide Poly, Eval;
    EvalMove(s, k, 0, q);
    EvalTen(s);
    EvalTen(s[k := s[k] - Radix(k) * q][k + 1 := s[k + 1] + q]);
  }

  /** Moves q units of limb i + 1 out of limb i. */
  method MoveLimb(input: array<s32>, i: nat, q: int)
    requires input.Length == 10 && i < 9 && -4 <= q <= 4
    requires -0x410_0000 <= input[i] < 0x410_0000 && -0x410_0000 <= input[i + 1] < 0x410_0000
    modifies input
    ensures Poly(Word(input)) == old(Poly(Word(input)))
    ensures input[i] as int == old(input[i]) as int - Radix(i) * q
            && input[i + 1] as int == old(input[i + 1]) as int + q
    ensures forall j | 0 <= j < 10 && j != i && j != i + 1 :: input[j] == old(input[j])
  {
    hide Poly;
    ghost var was := IntSeq32(input[..]);
    MovePoly(was, i, q);
    input[i] := (input[i] as int - Radix(i) * q) as s32;
    input[i + 1] := (input[i + 1] as int + q) as s32;
    assert IntSeq32(input[..]) == was[i := was[i] - Radix(i) * q][i + 1 := was[i + 1] + q];
  }

  /** Makes limb i non-negative by borrowing from limb i + 1. */
  method BorrowLimb(input: array<s32>, i: nat)
    requires input.Length == 10 && i < 9
    requires -0x400_0003 <= input[i] < 0x400_0000 && -0x400_0003 <= input[i + 1] < 0x400_0000
    modifies input
    ensures Poly(Word(input)) == old(Poly(Word(input)))
    ensures old(input[i]) >= 0 ==> input[..] == old(input[..])
    ensures old(input[i]) < 0 ==> 0 <= input[i] as int < Radix(i)
    ensures old(input[i]) < 0 ==> old(input[i + 1]) - 3 <= input[i + 1] < old(input[i + 1])
    ensures -Radix(i) <= old(input[i]) as int < 0 ==>
              input[i] as int == old(input[i]) as int + Radix(i) && input[i + 1] == old(input[i + 1]) - 1
    ensures forall j | 0 <= j < 10 && j != i && j != i + 1 :: input[j] == old(input[j])
  {
    hide Poly, Word, Borrow;
    var carry := Borrow(input[i], if i % 2 == 1 then R25 else R26);
    MoveLimb(input, i, -carry);
  }

  /** Nothing but limb 0 is negative, and that by less than 100. */
  ghost predicate Settled(s: seq<s32>) {
    |s| == 10 && -100 <= s[0] < 0x400_0000 && forall j | 1 <= j < 10 :: 0 <= s[j] < 0x400_0000
  }

  /** The borrowing loop over limbs 0 to 8. */
  method BorrowAll(input: array<s32>)
    requires input.Length == 10 && forall j | 0 <= j < 10 :: -0x400_0000 < input[j] < 0x400_0000
    modifies input
    ensures Poly(Word(input)) == old(Poly(Word(input)))
    ensures forall j | 0 <= j < 9 :: 0 <= input[j] < 0x400_0000
    ensures -0x400_0003 <= input[9] < 0x400_0000
    ensures old(Settled(input[..])) ==> input[9] >= -1
    ensures old(Settled(input[..])) && old(input[0]) >= 0 ==> input[..] == old(input[..])
    ensures old(Settled(input[..])) && old(input[0]) < 0 ==> input[0] == old(input[0]) + 0x400_0000
  {
    hide Poly, Word;
    ghost var was := input[..];
    for i := 0 to 9
      invariant Poly(Word(input)) == old(Poly(Word(input)))
      invariant forall j | 0 <= j < i :: 0 <= input[j] < 0x400_0000
      invariant was[i] - 3 <= input[i] <= was[i]
      invariant forall j | i < j < 10 :: input[j] == was[j]
      invariant i == 0 ==> input[..] == was
      invariant Settled(was) && i > 0 ==> input[i] >= was[i] - 1
      invariant Settled(was) && was[0] >= 0 ==> input[..] == was
      invariant Settled(was) && was[0] < 0 && i > 0 ==> input[0] == was[0] + 0x400_0000
    {
      BorrowLimb(input, i);
    }
  }

  /** Borrowing for limb 9 from limb 0, at 19 to one. */
  method BorrowTop(input: array<s32>)
    requires input.Length == 10 && -0x400_0003 <= input[9] && 0 <= input[0]
    modifies input
    ensures Red(Poly(Word(input))) == old(Red(Poly(Word(input))))
    ensures input[9] >= 0 && (old(input[9]) >= 0 ==> input[..] == old(input[..]))
    ensures old(input[9]) < 0 ==> input[9] < 0x200_0000 && old(input[0]) - 57 <= input[0] < old(input[0])
    ensures old(input[9]) == -1 ==> input[0] == old(input[0]) - 19
    ensures forall j | 1 <= j < 9 :: input[j] == old(input[j])
  {
    hide Borrow, Poly, Red;
    ghost var x := Word(input);
    var carry := Borrow(input[9], R25);
    input[9] := (input[9] as int + carry * 0x200_0000) as s32;
    input[0] := (input[0] as int - carry * 19) as s32;
    assert Word(input) == x.(v9 := x.v9 + carry * R25, v0 := x.v0 - 19 * carry);
    TopBorrow(x, carry);
  }

  lemma TopBorrow(x: Ten, c: int)
    ensures Red(Poly(x.(v9 := x.v9 + c * R25, v0 := x.v0 - 19 * c))) == Red(Poly(x))
  {
    SameRed(Poly(x.(v9 := x.v9 + c * R25, v0 := x.v0 - 19 * c)), Poly(x), c);
  }

  /** One whole borrow pass. */
  method BorrowPass(input: array<s32>)
    requires input.Length == 10 && forall j | 0 <= j < 10 :: -0x400_0000 < input[j] < 0x400_0000
    modifies input
    ensures Red(Poly(Word(input))) == old(Red(Poly(Word(input)))) && Settled(input[..])
    ensures old(Settled(input[..])) ==> input[0] >= 0
  {
    hide Poly, Word, Red;
    BorrowAll(input);
    BorrowTop(input);
  }

  /** Carries limb i of a non-negative element into limb i + 1. */
  method CarryLimb(input: array<s32>, i: nat)
    requires input.Length == 10 && i < 9 && 0 <= input[i] < 0x410_0000 && 0 <= input[i + 1] < 0x410_0000
    modifies input
    ensures Poly(Word(input)) == old(Poly(Word(input)))
    ensures 0 <= input[i] as int < Radix(i) && old(input[i + 1]) <= input[i + 1] <= old(input[i + 1]) + 2
    ensures forall j | 0 <= j < 10 && j != i && j != i + 1 :: input[j] == old(input[j])
  {
    hide Poly, Word;
    var carry := if i % 2 == 1 then input[i] / 0x200_0000 else input[i] / 0x400_0000;
    MoveLimb(input, i, carry as int);
  }

  /** One whole carry pass; c is what left limb 9 and came back into limb 0 times 19. */
  method CarryPass(input: array<s32>) returns (c: s32)
    requires input.Length == 10 && forall j | 0 <= j < 10 :: 0 <= input[j] < 0x400_0100
    modifies input
    ensures 0 <= c <= 3
    ensures
      var mid := Bump(Word(input), -19 * c as int);
      Proper(mid) && old(Poly(Word(input))) == Poly(mid) + W10 * c as int
  {
    hide Poly;
    ghost var was := input[..];
    for i := 0 to 9
      invariant Poly(Word(input)) == old(Poly(Word(input)))
      invariant forall j | 0 <= j < i :: 0 <= input[j] as int < Radix(j)
      invariant was[i] <= input[i] <= was[i] + 2
      invariant forall j | i < j < 10 :: input[j] == was[j]
    {
      CarryLimb(input, i);
    }
    ghost var x := Word(input);
    c := input[9] / 0x200_0000;
    input[9] := input[9] % 0x200_0000;
    input[0] := input[0] + 19 * c;
    TopCarry(x, c as int);
    assert Bump(Word(input), -19 * c as int) == x.(v9 := x.v9 - R25 * c as int);
  }

  lemma TopCarry(x: Ten, c: int)
    ensures Poly(x) == Poly(x.(v9 := x.v9 - R25 * c)) + W10 * c
  { }

  // ----- branch-free comparison -----

  lemma EqualPatterns(u: nat, v: nat)
    requires u < 0x1_0000_0000 && v < 0x1_0000_0000
    ensures Xor(u, v) < 0x1_0000_0000
    ensures var y := FoldAll(0xffff_ffff - Xor(u, v)); y < 0x1_0000_0000 && (y >= 0x8000_0000 <==> u == v)
  {
    WordExp2();
    hide Exp2, Xor, FoldAll, Bit;
    XorBound(u, v, 32);
    XorIsZero(u, v);
    var x := 0xffff_ffff - Xor(u, v);
    FoldAllTop(x);
    FoldAllLe(x);
    TopBit32(FoldAll(x));
  }

  /** All ones when a and b are equal, else zero. */
  function S32Eq(a: s32, b: s32): (r: s32)
    ensures r == if a == b then -1 else 0
  {
    EqualPatterns(Unsigned32(a as int), Unsigned32(b as int));
    var x := 0xffff_ffff - Xor(Unsigned32(a as int), Unsigned32(b as int));
    (Signed32(FoldAll(x)) / 0x8000_0000) as s32
  }

  /** All ones when a >= b, else zero; both are non-negative. */
  function S32Gte(a: s32, b: s32): (r: s32)
    requires 0 <= a && 0 <= b
    ensures r == if a >= b then -1 else 0
  {
    -1 - ((a - b) as int / 0x8000_0000) as s32
  }

  lemma FullMask(x: nat)
    requires x < 0x1_0000_0000
    ensures And(0xffff_ffff, x) == x && And(0, x) == 0
  {
    hide Exp2, And;
    WordExp2();
    AndNothing(x);
    AndMask(x, 32);
  }

  lemma AndNothing(x: nat)
    ensures And(0, x) == 0
  { }

  /** Bitwise and of two's-complement patterns, one of them a mask of zeros or ones. */
  function MaskWith(mask: s32, x: s32): (r: s32)
    requires mask == 0 || mask == -1
    ensures r == if mask == 0 then 0 else x
  {
    FullMask(Unsigned32(x as int));
    Signed32(And(Unsigned32(mask as int), Unsigned32(x as int))) as s32
  }

  function MaxLimb(i: nat): s32 { if i % 2 == 1 then 0x1ff_ffff else 0x3ff_ffff }

  /** Subtracts P when the proper element in input is at least P. */
  method SubtractPrime(input: array<s32>)
    requires input.Length == 10 && Proper(Word(input))
    modifies input
    ensures Proper(Word(input)) && Poly(Word(input)) == old(Red(Poly(Word(input))))
  {
    hide Poly, Red, S32Eq, MaskWith;
    ghost var x := Word(input);
    ghost var was := input[..];
    var mask := S32Gte(input[0], 0x3ff_ffed);
    for i := 1 to 10
      invariant mask == if was[0] >= 0x3ff_ffed && (forall j | 1 <= j < i :: was[j] == MaxLimb(j)) then -1 else 0
    {
      mask := MaskWith(mask, S32Eq(input[i], MaxLimb(i)));
    }
    ghost var over := mask == -1;
    AtLeastPrime(x);
    assert over <==> Poly(x) >= P by {
      assert TopAllOnes(x) <==> forall j | 1 <= j < 10 :: was[j] == MaxLimb(j);
    }
    input[0] := input[0] - MaskWith(mask, 0x3ff_ffed);
    for i := 1 to 10
      invariant input[0] == if over then was[0] - 0x3ff_ffed else was[0]
      invariant forall j | 1 <= j < i :: input[j] == if over then 0 else was[j]
      invariant forall j | i <= j < 10 :: input[j] == was[j]
    {
      input[i] := input[i] - MaskWith(mask, MaxLimb(i));
    }
    assert Word(input) == if over then Minus(x, PRIME) else x;
    ProperBound(x);
    SameRed(Poly(x), Poly(Word(input)), if over then 1 else 0);
    SmallRed(Poly(Word(input)));
  }

  /** Two borrow passes and one last borrow leave no limb negative. */
  method MakeNonNegative(input: array<s32>)
    requires input.Length == 10 && forall j | 0 <= j < 10 :: -0x400_0000 < input[j] < 0x400_0000
    modifies input
    ensures Red(Poly(Word(input))) == old(Red(Poly(Word(input))))
    ensures forall j | 0 <= j < 10 :: 0 <= input[j] < 0x400_0000
  {
    hide Poly, Red, Word;
    for j := 0 to 2
      invariant Red(Poly(Word(input))) == old(Red(Poly(Word(input))))
      invariant forall k | 0 <= k < 10 :: -0x400_0000 < input[k] < 0x400_0000
      invariant j > 0 ==> Settled(input[..])
      invariant j > 1 ==> input[0] >= 0
    {
      BorrowPass(input);
    }
    BorrowLimb(input, 0);
  }

  /** Two carry passes leave proper limbs. */
  method MakeProper(input: array<s32>)
    requires input.Length == 10 && forall j | 0 <= j < 10 :: 0 <= input[j] < 0x400_0000
    modifies input
    ensures Proper(Word(input)) && Red(Poly(Word(input))) == old(Red(Poly(Word(input))))
  {
    hide Poly, Red;
    ghost var x := Word(input);
    var d := CarryPass(input);
    ghost var y := Word(input);
    assert forall j | 0 <= j < 10 :: input[j] as int == IntSeq32(input[..])[j];
    hide Word;
    var c := CarryPass(input);
    TwoPasses(x, y, Word(input), d as int, c as int);
  }

  lemma TwoPasses(x: Ten, y: Ten, z: Ten, d: int, c: int)
    requires 0 <= d <= 3 && 0 <= c <= 3
    requires Proper(Bump(y, -19 * d)) && Poly(x) == Poly(Bump(y, -19 * d)) + W10 * d
    requires Proper(Bump(z, -19 * c)) && Poly(y) == Poly(Bump(z, -19 * c)) + W10 * c
    ensures Proper(z) && Red(Poly(z)) == Red(Poly(x))
  {
    hide Poly, Red;
    var u, mid := Bump(y, -19 * d), Bump(z, -19 * c);
    assert Bump(u, 19 * d) == y && Bump(mid, 19 * c) == z;
    BumpPoly(u, 19 * d);
    BumpPoly(mid, 19 * c);
    SecondPass(u, 19 * d, mid, c);
    SameRed(Poly(x), Poly(z), c + d);
  }

  /** The unique proper limbs of the residue in [0, P). */
  method Freeze(input: array<s32>)
    requires input.Length == 10 && forall j | 0 <= j < 10 :: -0x400_0000 < input[j] < 0x400_0000
    modifies input
    ensures Proper(Word(input)) && Poly(Word(input)) == old(Red(Poly(Word(input))))
  {
    hide Poly, Red, Word;
    MakeNonNegative(input);
    MakeProper(input);
    SubtractPrime(input);
  }

  // ----- limbs to bytes -----

  /** v << k on a non-negative limb, kept to 32 bits. */
  function ShiftLeft(v: s32, m: int): s32
    requires 0 <= v && 1 <= m <= 64
  {
    Signed32(v as int * m % 0x1_0000_0000) as s32
  }

  /** Byte k of a two's-complement pattern: (v >> 8k) & 0xff. */
  function ByteAt(v: s32, k: int): u8
    requires k == 0x1 || k == 0x100 || k == 0x1_0000 || k == 0x100_0000
  {
    (v as int / k % 0x100) as u8
  }

  /** The four byte stores of one limb; the first or-s into what the previous limb left. */
  method Emit(output: array<u8>, v: s32, s: nat)
    requires output.Length == 32 && s + 4 <= 32
    modifies output
    ensures output[s] as nat == Or(old(output[s]) as nat, ByteAt(v, 1) as nat)
    ensures output[s + 1] == ByteAt(v, 0x100) && output[s + 2] == ByteAt(v, 0x1_0000)
            && output[s + 3] == ByteAt(v, 0x100_0000)
    ensures forall j | 0 <= j < 32 && !(s <= j < s + 4) :: output[j] == old(output[j])
  {
    OrByte(output[s] as nat, ByteAt(v, 1) as nat);
    output[s] := Or(output[s] as nat, ByteAt(v, 1) as nat) as u8;
    output[s + 1] := ByteAt(v, 0x100);
    output[s + 2] := ByteAt(v, 0x1_0000);
    output[s + 3] := ByteAt(v, 0x100_0000);
  }

  lemma OrByte(a: nat, b: nat)
    requires a < 256 && b < 256
    ensures Or(a, b) < 256
  {
    SmallExp2();
    OrBound(a, b, 8);
  }

  /** The sixteen bytes five overlapping limbs leave behind. */
  ghost predicate IsHalf(w: seq<u8>, v0: s32, v1: s32, v2: s32, v3: s32, v4: s32) {
    && |w| == 16
    && w[0] == ByteAt(v0, 1) && w[1] == ByteAt(v0, 0x100) && w[2] == ByteAt(v0, 0x1_0000)
    && w[3] as nat == Or(ByteAt(v0, 0x100_0000) as nat, ByteAt(v1, 1) as nat)
    && w[4] == ByteAt(v1, 0x100) && w[5] == ByteAt(v1, 0x1_0000)
    && w[6] as nat == Or(ByteAt(v1, 0x100_0000) as nat, ByteAt(v2, 1) as nat)
    && w[7] == ByteAt(v2, 0x100) && w[8] == ByteAt(v2, 0x1_0000)
    && w[9] as nat == Or(ByteAt(v2, 0x100_0000) as nat, ByteAt(v3, 1) as nat)
    && w[10] == ByteAt(v3, 0x100) && w[11] == ByteAt(v3, 0x1_0000)
    && w[12] as nat == Or(ByteAt(v3, 0x100_0000) as nat, ByteAt(v4, 1) as nat)
    && w[13] == ByteAt(v4, 0x100) && w[14] == ByteAt(v4, 0x1_0000) && w[15] == ByteAt(v4, 0x100_0000)
  }

  method EmitHalf(output: array<u8>, base: nat, v0: s32, v1: s32, v2: s32, v3: s32, v4: s32)
    requires output.Length == 32 && base + 16 <= 32 && output[base] == 0
    modifies output
    ensures IsHalf(output[base..base + 16], v0, v1, v2, v3, v4)
    ensures forall j | 0 <= j < 32 && !(base <= j < base + 16) :: output[j] == old(output[j])
  {
    hide Or, ByteAt;
    OrZero(ByteAt(v0, 1) as nat);
    Emit(output, v0, base);
    Emit(output, v1, base + 3);
    Emit(output, v2, base + 6);
    Emit(output, v3, base + 9);
    Emit(output, v4, base + 12);
    ghost var w := output[base..base + 16];
    assert forall j | 0 <= j < 16 :: w[j] == output[base + j];
    assert w[0] == ByteAt(v0, 1) && w[1] == ByteAt(v0, 0x100) && w[2] == ByteAt(v0, 0x1_0000);
    assert w[4] == ByteAt(v1, 0x100) && w[5] == ByteAt(v1, 0x1_0000);
    assert w[7] == ByteAt(v2, 0x100) && w[8] == ByteAt(v2, 0x1_0000);
    assert w[10] == ByteAt(v3, 0x100) && w[11] == ByteAt(v3, 0x1_0000);
  }

  /** A limb shifted by log2 m still fits 32 bits; its pattern is the product. */
  lemma ShiftedPattern(v: s32, m: int)
    requires 0 <= v && 1 <= m <= 64 && v as int * m < 0x1_0000_0000
    ensures Unsigned32(ShiftLeft(v, m) as int) == v as int * m
  {
    Nonneg(v as int, m);
  }

  /** A negative pattern has the same bytes as the unsigned one. */
  lemma SignedByte(x: nat, k: nat, m: nat)
    requires k > 0 && k * (256 * m) == 0x1_0000_0000
    ensures (x - 0x1_0000_0000) / k % 256 == x / k % 256
  {
    DivMod(x, k);
    assert x - 0x1_0000_0000 == (x / k - 256 * m) * k + x % k by {
      assert (x / k - 256 * m) * k == (x / k) * k - k * (256 * m);
    }
    DivUnique(x - 0x1_0000_0000, k, x / k - 256 * m, x % k);
    DivUnique(x / k - 256 * m, 256, x / k / 256 - m, x / k % 256);
  }

  lemma FourDigits(x: nat)
    requires x < 0x1_0000_0000
    ensures x % 0x100 + 0x100 * (x / 0x100 % 0x100) + 0x1_0000 * (x / 0x1_0000 % 0x100)
            + 0x100_0000 * (x / 0x100_0000 % 0x100) == x
    ensures x / 0x100_0000 % 0x100 == x / 0x100_0000
  {
    DivDiv(x, 0x100, 0x100);
    DivDiv(x, 0x1_0000, 0x100);
  }

  lemma ByteOf(v: s32, k: nat, m: nat)
    requires k == 0x1 || k == 0x100 || k == 0x1_0000 || k == 0x100_0000
    requires k * (256 * m) == 0x1_0000_0000
    ensures ByteAt(v, k) as nat == Unsigned32(v as int) / k % 256
  {
    if v < 0 {
      SignedByte(Unsigned32(v as int), k, m);
    }
  }

  lemma ByteSum(v: s32)
    ensures ByteAt(v, 1) as nat + 0x100 * ByteAt(v, 0x100) as nat + 0x1_0000 * ByteAt(v, 0x1_0000) as nat
            + 0x100_0000 * ByteAt(v, 0x100_0000) as nat == Unsigned32(v as int)
    ensures ByteAt(v, 1) as nat == Unsigned32(v as int) % 0x100
    ensures ByteAt(v, 0x100_0000) as nat == Unsigned32(v as int) / 0x100_0000
  {
    ByteOf(v, 1, 0x100_0000);
    ByteOf(v, 0x100, 0x1_0000);
    ByteOf(v, 0x1_0000, 0x100);
    ByteOf(v, 0x100_0000, 1);
    FourDigits(Unsigned32(v as int));
    hide ByteAt, Unsigned32;
  }

  /** The shared byte of two neighbouring limbs: the low one stays below m, the high one is a multiple of m. */
  lemma SharedByte(lo: s32, v: s32, m: nat, k: nat, sh: nat)
    requires m * k == 256 && 1 <= m <= 64 && Exp2(sh) == m && 0 <= v && v as int * m < 0x1_0000_0000
    requires Unsigned32(lo as int) < 0x100_0000 * m
    ensures Or(ByteAt(lo, 0x100_0000) as nat, ByteAt(ShiftLeft(v, m), 1) as nat) ==
            ByteAt(lo, 0x100_0000) as nat + ByteAt(ShiftLeft(v, m), 1) as nat
  {
    hide Or, Exp2;
    ByteSum(lo);
    ByteSum(ShiftLeft(v, m));
    ShiftedPattern(v, m);
    hide ByteAt, ShiftLeft;
    LowByte(v as int, m, k);
    OrShifted(ByteAt(lo, 0x100_0000) as nat, v as int % k, sh, m);
  }

  lemma LowByte(a: nat, m: nat, k: nat)
    requires m > 0 && k > 0 && m * k == 256
    ensures a * m % 256 == a % k * m
  {
    DivMod(a, k);
    Nonneg(k - 1 - a % k, m);
    Nonneg(a % k, m);
    assert a * m == (a / k) * (m * k) + (a % k) * m by {
      assert ((a / k) * k + a % k) * m == (a / k) * (m * k) + (a % k) * m;
    }
    assert (k - 1 - a % k) * m == m * k - m - (a % k) * m;
    DivUnique(a * m, 256, a / k, (a % k) * m);
  }

  /** When neighbours share no bits the sixteen bytes are the weighted sum of the limbs. */
  lemma HalfValue(w: seq<u8>, v0: s32, v1: s32, v2: s32, v3: s32, v4: s32)
    requires IsHalf(w, v0, v1, v2, v3, v4)
    requires Or(ByteAt(v0, 0x100_0000) as nat, ByteAt(v1, 1) as nat)
             == ByteAt(v0, 0x100_0000) as nat + ByteAt(v1, 1) as nat
    requires Or(ByteAt(v1, 0x100_0000) as nat, ByteAt(v2, 1) as nat)
             == ByteAt(v1, 0x100_0000) as nat + ByteAt(v2, 1) as nat
    requires Or(ByteAt(v2, 0x100_0000) as nat, ByteAt(v3, 1) as nat)
             == ByteAt(v2, 0x100_0000) as nat + ByteAt(v3, 1) as nat
    requires Or(ByteAt(v3, 0x100_0000) as nat, ByteAt(v4, 1) as nat)
             == ByteAt(v3, 0x100_0000) as nat + ByteAt(v4, 1) as nat
    ensures LE(w) == Unsigned32(v0 as int) + 0x100_0000 * Unsigned32(v1 as int)
            + 0x1_0000_0000_0000 * Unsigned32(v2 as int)
                     + 0x100_0000_0000_0000_0000 * Unsigned32(v3 as int)
                         + 0x1_0000_0000_0000_0000_0000_0000 * Unsigned32(v4 as int)
  {
    ByteSum(v0);
    ByteSum(v1);
    ByteSum(v2);
    ByteSum(v3);
    ByteSum(v4);
    WordExp2();
    hide Or, ByteAt, Exp2, LE;
    LEOfEight(w[..8]);
    LEOfEight(w[8..]);
    LEConcat(w[..8], w[8..]);
    assert w == w[..8] + w[8..];
  }

  /** The neighbours of a proper element share no bits after the shifts. */
  lemma NoOverlap(a: s32, m: nat, b: s32, n: nat, k: nat, sh: nat, top: nat)
    requires 0 <= a && 0 <= b && 1 <= m <= 64 && 1 <= n <= 64 && n * k == 256 && Exp2(sh) == n
    requires a as int < top && top * m <= 0x100_0000 * n && b as int * n < 0x1_0000_0000
    ensures Or(ByteAt(ShiftLeft(a, m), 0x100_0000) as nat, ByteAt(ShiftLeft(b, n), 1) as nat) ==
            ByteAt(ShiftLeft(a, m), 0x100_0000) as nat + ByteAt(ShiftLeft(b, n), 1) as nat
  {
    hide Or, Exp2, ByteAt;
    Nonneg(top - 1 - a as int, m);
    assert (top - 1 - a as int) * m == top * m - m - a as int * m;
    ShiftedPattern(a, m);
    hide ShiftLeft;
    SharedByte(ShiftLeft(a, m), b, n, k, sh);
  }

  /** Bytes 0 to 15 hold limbs 0 to 4. */
  lemma LowHalf(w: seq<u8>, v0: s32, v1: s32, v2: s32, v3: s32, v4: s32)
    requires 0 <= v0 < 0x400_0000 && 0 <= v1 < 0x200_0000 && 0 <= v2 < 0x400_0000 && 0 <= v3 < 0x200_0000
             && 0 <= v4 < 0x400_0000
    requires IsHalf(w, ShiftLeft(v0, 1), ShiftLeft(v1, 4), ShiftLeft(v2, 8), ShiftLeft(v3, 32), ShiftLeft(v4, 64))
    ensures LE(w) == v0 as int + W1 * v1 as int + W2 * v2 as int + W3 * v3 as int + W4 * v4 as int
  {
    SmallExp2();
    hide Or, Exp2, ByteAt, LE, IsHalf;
    NoOverlap(v0, 1, v1, 4, 64, 2, 0x400_0000);
    NoOverlap(v1, 4, v2, 8, 32, 3, 0x200_0000);
    NoOverlap(v2, 8, v3, 32, 8, 5, 0x400_0000);
    NoOverlap(v3, 32, v4, 64, 4, 6, 0x200_0000);
    ShiftedPattern(v0, 1);
    ShiftedPattern(v1, 4);
    ShiftedPattern(v2, 8);
    ShiftedPattern(v3, 32);
    ShiftedPattern(v4, 64);
    hide ShiftLeft;
    HalfValue(w, ShiftLeft(v0, 1), ShiftLeft(v1, 4), ShiftLeft(v2, 8), ShiftLeft(v3, 32), ShiftLeft(v4, 64));
  }

  /** Bytes 16 to 31 hold limbs 5 to 9. */
  lemma HighHalf(w: seq<u8>, v5: s32, v6: s32, v7: s32, v8: s32, v9: s32)
    requires 0 <= v5 < 0x200_0000 && 0 <= v6 < 0x400_0000 && 0 <= v7 < 0x200_0000 && 0 <= v8 < 0x400_0000
             && 0 <= v9 < 0x200_0000
    requires IsHalf(w, ShiftLeft(v5, 1), ShiftLeft(v6, 2), ShiftLeft(v7, 8), ShiftLeft(v8, 16), ShiftLeft(v9, 64))
    ensures W5 * LE(w) == W5 * v5 as int + W6 * v6 as int + W7 * v7 as int + W8 * v8 as int + W9 * v9 as int
  {
    SmallExp2();
    hide Or, Exp2, ByteAt, LE, IsHalf;
    NoOverlap(v5, 1, v6, 2, 128, 1, 0x200_0000);
    NoOverlap(v6, 2, v7, 8, 32, 3, 0x400_0000);
    NoOverlap(v7, 8, v8, 16, 16, 4, 0x200_0000);
    NoOverlap(v8, 16, v9, 64, 4, 6, 0x400_0000);
    ShiftedPattern(v5, 1);
    ShiftedPattern(v6, 2);
    ShiftedPattern(v7, 8);
    ShiftedPattern(v8, 16);
    ShiftedPattern(v9, 64);
    hide ShiftLeft;
    HalfValue(w, ShiftLeft(v5, 1), ShiftLeft(v6, 2), ShiftLeft(v7, 8), ShiftLeft(v8, 16), ShiftLeft(v9, 64));
  }

  lemma ShiftByOne(v: s32)
    requires 0 <= v
    ensures ShiftLeft(v, 1) == v
  { }

  /** Writes proper limbs as 32 little-endian bytes. */
  method Pack(output: array<u8>, input: array<s32>)
    requires output.Length == 32 && input.Length == 10 && Proper(Word(input))
    modifies output
    ensures LE(output[..]) == Poly(Word(input))
  {
    hide LE, IsHalf, Poly;
    output[0] := 0;
    output[16] := 0;
    ShiftByOne(input[0]);
    ShiftByOne(input[5]);
    EmitHalf(output, 0, input[0], ShiftLeft(input[1], 4), ShiftLeft(input[2], 8), ShiftLeft(input[3], 32),
             ShiftLeft(input[4], 64));
    ghost var low := output[0..16];
    EmitHalf(output, 16, input[5], ShiftLeft(input[6], 2), ShiftLeft(input[7], 8), ShiftLeft(input[8], 16),
             ShiftLeft(input[9], 64));
    hide ShiftLeft;
    assert output[0..16] == low;
    LowHalf(low, input[0], input[1], input[2], input[3], input[4]);
    HighHalf(output[16..32], input[5], input[6], input[7], input[8], input[9]);
    JoinHalves(low, output[16..32], Word(input));
    assert output[..] == low + output[16..32];
  }

  lemma JoinHalves(lo: seq<u8>, hi: seq<u8>, x: Ten)
    requires |lo| == |hi| == 16
    requires LE(lo) == x.v0 + W1 * x.v1 + W2 * x.v2 + W3 * x.v3 + W4 * x.v4
    requires W5 * LE(hi) == W5 * x.v5 + W6 * x.v6 + W7 * x.v7 + W8 * x.v8 + W9 * x.v9
    ensures LE(lo + hi) == Poly(x)
  {
    hide LE;
    LimbExp2();
    hide Exp2;
    LEConcat(lo, hi);
  }

  /** Writes the canonical 32-byte little-endian form of the residue. */
  method Contract(output: array<u8>, inputLimbs: array<s64>)
    requires output.Length == 32 && Tight(inputLimbs)
    modifies output
    ensures LE(output[..]) == Value(inputLimbs)
  {
    hide LE, Poly, Red;
    var input := new s32[10];
    for i := 0 to 10
      invariant forall j | 0 <= j < i :: input[j] as int == inputLimbs[j] as int && -0x400_0000 < input[j] < 0x400_0000
    {
      input[i] := inputLimbs[i] as s32;
    }
    assert Word(input) == Limbs(inputLimbs);
    Freeze(input);
    Pack(output, input);
  }

  /** The public entry point: the output bytes encode X25519 of the clamped secret and the base point. */
  method Curve25519Donna(mypublic: array<u8>, secret: seq<u8>, basepoint: seq<u8>)
    requires mypublic.Length == 32 && |secret| == 32 && |basepoint| == 32
    modifies mypublic
    ensures LE(mypublic[..]) == Curve25519(secret, basepoint)
  {
    hide And, Or, Limbs, Loose, Tight, Mul, Pow, LE, Run, Poly, Red;
    var e := ClampScalar(secret);
    var bp := Expand(basepoint);
    assert Value(bp) == DecodeU(basepoint);
    hide Value;
    var x, z := CMult(e, bp);
    var zmone := new s64[10];
    CRecip(zmone, z);
    Multiply(z, x, zmone);
    Contract(mypublic, z);
  }
}
