/** Bytes to limbs and back, and the entry point of libjl777/curve25519-donna-c64.c. */
module Donna64Codec {
  import opened Machine
  import opened Field25519
  import opened Limbs51
  import opened X25519
  import opened Bits
  import opened Donna64

  /** An unaligned little-endian 64-bit load, built from shifts and ors. */
  function LoadLimb(b: seq<u8>, at: nat): nat
    requires at + 8 <= |b|
  {
    Or(Or(Or(Or(Or(Or(Or(b[at] as nat, b[at + 1] as nat * 0x100), b[at + 2] as nat * 0x1_0000),
                   b[at + 3] as nat * 0x100_0000),
                b[at + 4] as nat * 0x1_0000_0000), b[at + 5] as nat * 0x100_0000_0000),
                    b[at + 6] as nat * 0x1_0000_0000_0000),
       b[at + 7] as nat * 0x100_0000_0000_0000)
  }

  lemma LoadLimbValue(b: seq<u8>, at: nat)
    requires at + 8 <= |b|
    ensures LoadLimb(b, at) == LE(b[at..at + 8])
  {
    ByteExp2();
    hide Exp2, Or;
    var c0 := b[at] as nat;
    OrSum(c0, b[at + 1] as nat, 8);
    var c1 := c0 + b[at + 1] as nat * 0x100;
    OrSum(c1, b[at + 2] as nat, 16);
    var c2 := c1 + b[at + 2] as nat * 0x1_0000;
    OrSum(c2, b[at + 3] as nat, 24);
    var c3 := c2 + b[at + 3] as nat * 0x100_0000;
    OrSum(c3, b[at + 4] as nat, 32);
    var c4 := c3 + b[at + 4] as nat * 0x1_0000_0000;
    OrSum(c4, b[at + 5] as nat, 40);
    var c5 := c4 + b[at + 5] as nat * 0x100_0000_0000;
    OrSum(c5, b[at + 6] as nat, 48);
    var c6 := c5 + b[at + 6] as nat * 0x1_0000_0000_0000;
    OrSum(c6, b[at + 7] as nat, 56);
    LEOfEight(b[at..at + 8]);
  }

  /** A shifted and masked load reads 51 bits of the whole number. */
  lemma LimbBits(b: seq<u8>, at: nat, s: nat)
    requires at + 8 <= |b| && s <= 13
    ensures Exp2(s) > 0 && Exp2(8 * at + s) > 0 && Exp2(51) > 0
    ensures LoadLimb(b, at) / Exp2(s) % Exp2(51) == LE(b) / Exp2(8 * at + s) % Exp2(51)
  {
    hide Exp2, LE, LoadLimb;
    Exp2Positive(8 * at);
    Exp2Positive(s);
    Exp2Add(8 * at, s);
    LoadLimbValue(b, at);
    LEWindow(b, at, 8);
    DivMod(LE(b), Exp2(8 * at));
    WindowBits(LE(b) / Exp2(8 * at), 64, s, 51);
    DivDiv(LE(b), Exp2(8 * at), Exp2(s));
  }

  lemma LimbExp2()
    ensures Exp2(51) == W1 && Exp2(102) == W2 && Exp2(153) == W3 && Exp2(204) == W4
    ensures Exp2(0) == 1 && Exp2(3) == 8 && Exp2(6) == 64 && Exp2(1) == 2 && Exp2(12) == 0x1000
  {
    SmallExp2();
    ByteExp2();
    hide Exp2;
    Exp2Add(48, 3);
    Exp2Add(51, 51);
    Exp2Add(102, 51);
    Exp2Add(153, 51);
    Exp2Add(6, 6);
  }

  lemma LoadedDigits(b: seq<u8>)
    requires |b| == 32
    ensures Five(LoadLimb(b, 0) % W1, LoadLimb(b, 6) / 8 % W1, LoadLimb(b, 12) / 64 % W1, LoadLimb(b, 19) / 2 % W1,
                 LoadLimb(b, 24) / 0x1000 % W1) == Digits(LE(b))
  {
    hide Exp2, LE, LoadLimb;
    LimbExp2();
    LimbBits(b, 0, 0);
    LimbBits(b, 6, 3);
    LimbBits(b, 12, 6);
    LimbBits(b, 19, 1);
    LimbBits(b, 24, 12);
  }

  /** Splits 32 bytes into limbs, dropping the top bit. */
  method Expand(b: seq<u8>) returns (output: array<u64>)
    requires |b| == 32
    ensures fresh(output) && Tight(output) && Poly(Limbs(output)) == LE(b) % W5
  {
    LoadedDigits(b);
    DigitsPoly(LE(b));
    hide LE, LoadLimb, Poly;
    output := new u64[5];
    output[0] := (LoadLimb(b, 0) % 0x8_0000_0000_0000) as u64;
    output[1] := (LoadLimb(b, 6) / 8 % 0x8_0000_0000_0000) as u64;
    output[2] := (LoadLimb(b, 12) / 64 % 0x8_0000_0000_0000) as u64;
    output[3] := (LoadLimb(b, 19) / 2 % 0x8_0000_0000_0000) as u64;
    output[4] := (LoadLimb(b, 24) / 0x1000 % 0x8_0000_0000_0000) as u64;
    assert Limbs(output) == Digits(LE(b));
  }

  function Wide(t0: u128, t1: u128, t2: u128, t3: u128, t4: u128): Five {
    Five(t0 as int, t1 as int, t2 as int, t3 as int, t4 as int)
  }

  /** One pass of carries over 128-bit limbs; c is what leaves the top. */
  method Pass(u0: u128, u1: u128, u2: u128, u3: u128, u4: u128)
    returns (t0: u128, t1: u128, t2: u128, t3: u128, t4: u128, c: u128)
    requires Within(Wide(u0, u1, u2, u3, u4), 20 * W1)
    ensures Proper(Wide(t0, t1, t2, t3, t4)) && c as int <= 21
    ensures Poly(Wide(u0, u1, u2, u3, u4)) == Poly(Wide(t0, t1, t2, t3, t4)) + W5 * c as int
  {
    t0 := u0 % 0x8_0000_0000_0000;
    var c0 := u0 / 0x8_0000_0000_0000;
    t1 := (u1 + c0) % 0x8_0000_0000_0000;
    var c1 := (u1 + c0) / 0x8_0000_0000_0000;
    t2 := (u2 + c1) % 0x8_0000_0000_0000;
    var c2 := (u2 + c1) / 0x8_0000_0000_0000;
    t3 := (u3 + c2) % 0x8_0000_0000_0000;
    var c3 := (u3 + c2) / 0x8_0000_0000_0000;
    t4 := (u4 + c3) % 0x8_0000_0000_0000;
    c := (u4 + c3) / 0x8_0000_0000_0000;
    CarryPass(Wide(u0, u1, u2, u3, u4), Wide(t0, t1, t2, t3, t4), Wide(c0, c1, c2, c3, c));
  }

  /** The unique limbs of the residue in [0, P). */
  method Freeze(i0: u128, i1: u128, i2: u128, i3: u128, i4: u128)
      returns (t0: u128, t1: u128, t2: u128, t3: u128, t4: u128)
    requires Within(Wide(i0, i1, i2, i3, i4), LOOSE)
    ensures Proper(Wide(t0, t1, t2, t3, t4))
    ensures Poly(Wide(t0, t1, t2, t3, t4)) == Red(Poly(Wide(i0, i1, i2, i3, i4)))
  {
    hide Poly;
    var c, d;
    t0, t1, t2, t3, t4, d := Pass(i0, i1, i2, i3, i4);
    ghost var u := Wide(t0, t1, t2, t3, t4);
    BumpPoly(u, 19 * d as int);
    t0, t1, t2, t3, t4, c := Pass(t0 + 19 * d, t1, t2, t3, t4);
    SecondPass(u, 19 * d as int, Wide(t0, t1, t2, t3, t4), c as int);
    BumpPoly(Wide(t0, t1, t2, t3, t4), 19 * c as int);
    t0 := t0 + 19 * c;
    ghost var v := Wide(t0, t1, t2, t3, t4);
    ProperBound(v);
    assert Poly(Wide(i0, i1, i2, i3, i4)) == Poly(v) + (c as int + d as int) * P;
    SameRed(Poly(Wide(i0, i1, i2, i3, i4)), Poly(v), c as int + d as int);
    t0, t1, t2, t3, t4 := FreezeProper(t0, t1, t2, t3, t4);
  }

  method FreezeProper(v0: u128, v1: u128, v2: u128, v3: u128, v4: u128)
      returns (t0: u128, t1: u128, t2: u128, t3: u128, t4: u128)
    requires Proper(Wide(v0, v1, v2, v3, v4))
    ensures Proper(Wide(t0, t1, t2, t3, t4))
    ensures Poly(Wide(t0, t1, t2, t3, t4)) == Red(Poly(Wide(v0, v1, v2, v3, v4)))
  {
    hide Poly;
    ghost var v := Wide(v0, v1, v2, v3, v4);
    var c;
    t0, t1, t2, t3, t4, c := Pass(v0 + 19, v1, v2, v3, v4);
    ThirdPass(v, Wide(t0, t1, t2, t3, t4), c as int);
    BumpPoly(v, 19);
    BumpPoly(Wide(t0, t1, t2, t3, t4), 19 * c as int);
    t0 := t0 + 19 * c;
    ProperBound(v);
    ghost var x := if Poly(v) >= P then Poly(v) - P else Poly(v);
    ghost var t := Wide(t0, t1, t2, t3, t4);
    t0, t1, t2, t3, t4, c := Pass(t0 + 0x7_ffff_ffff_ffed, t1 + 0x7_ffff_ffff_ffff, t2 + 0x7_ffff_ffff_ffff,
                                  t3 + 0x7_ffff_ffff_ffff, t4 + 0x7_ffff_ffff_ffff);
    FourthPass(x, t, Wide(t0, t1, t2, t3, t4), c as int);
    SameRed(Poly(v), x, if Poly(v) >= P then 1 else 0);
    SmallRed(x);
  }

  /** The 8 bytes of a word, low byte first. */
  function Bytes8(w: u64): seq<u8> {
    [(w % 0x100) as u8, (w / 0x100 % 0x100) as u8, (w / 0x1_0000 % 0x100) as u8, (w / 0x100_0000 % 0x100) as u8,
     (w / 0x1_0000_0000 % 0x100) as u8, (w / 0x100_0000_0000 % 0x100) as u8, (w / 0x1_0000_0000_0000 % 0x100) as u8,
     (w / 0x100_0000_0000_0000 % 0x100) as u8]
  }

  lemma Base256(x: nat, q1: nat, q2: nat, q3: nat, q4: nat, q5: nat, q6: nat, q7: nat)
    requires q1 == x / 256 && q2 == q1 / 256 && q3 == q2 / 256 && q4 == q3 / 256 && q5 == q4 / 256 && q6 == q5 / 256
    requires q7 == q6 / 256
    ensures x == x % 256 + q1 % 256 * 0x100 + q2 % 256 * 0x1_0000 + q3 % 256 * 0x100_0000 + q4 % 256 * 0x1_0000_0000
                 + q5 % 256 * 0x100_0000_0000 + q6 % 256 * 0x1_0000_0000_0000 + q7 * 0x100_0000_0000_0000
  { }

  lemma QuotientChain(x: nat)
    ensures x / 0x1_0000 == x / 0x100 / 0x100 && x / 0x100_0000 == x / 0x1_0000 / 0x100
    ensures x / 0x1_0000_0000 == x / 0x100_0000 / 0x100 && x / 0x100_0000_0000 == x / 0x1_0000_0000 / 0x100
    ensures x / 0x1_0000_0000_0000 == x / 0x100_0000_0000 / 0x100
    ensures x / 0x100_0000_0000_0000 == x / 0x1_0000_0000_0000 / 0x100
  {
    DivDiv(x, 0x100, 0x100);
    DivDiv(x, 0x1_0000, 0x100);
    DivDiv(x, 0x100_0000, 0x100);
    DivDiv(x, 0x1_0000_0000, 0x100);
    DivDiv(x, 0x100_0000_0000, 0x100);
    DivDiv(x, 0x1_0000_0000_0000, 0x100);
  }

  lemma EightDigits(x: nat)
    requires x < 0x1_0000_0000_0000_0000
    ensures x == x % 256 + x / 0x100 % 256 * 0x100 + x / 0x1_0000 % 256 * 0x1_0000 + x / 0x100_0000 % 256 * 0x100_0000
                 + x / 0x1_0000_0000 % 256 * 0x1_0000_0000 + x / 0x100_0000_0000 % 256 * 0x100_0000_0000
                 + x / 0x1_0000_0000_0000 % 256 * 0x1_0000_0000_0000 + x / 0x100_0000_0000_0000 * 0x100_0000_0000_0000
    ensures x / 0x100_0000_0000_0000 < 256
  {
    QuotientChain(x);
    Base256(x, x / 0x100, x / 0x1_0000, x / 0x100_0000, x / 0x1_0000_0000, x / 0x100_0000_0000, x / 0x1_0000_0000_0000,
            x / 0x100_0000_0000_0000);
  }

  lemma Bytes8Value(w: u64)
    ensures LE(Bytes8(w)) == w as nat
  {
    hide LE;
    EightDigits(w as nat);
    LEOfEight(Bytes8(w));
  }

  method StoreLimb(out: array<u8>, at: nat, w: u64)
    requires at + 8 <= out.Length
    modifies out
    ensures out[..] == old(out[..at]) + Bytes8(w) + old(out[at + 8..])
  {
    var b := Bytes8(w);
    hide Bytes8;
    Bytes8Length(w);
    for i := 0 to 8
      invariant forall j | 0 <= j < i :: out[at + j] == b[j]
      invariant forall j | 0 <= j < out.Length && !(at <= j < at + i) :: out[j] == old(out[j])
    {
      out[at + i] := b[i];
    }
  }

  /** An output word of fcontract: (x | y << s) cut to 64 bits, with p = 2^s. */
  function PackWord(x: nat, y: nat, p: nat): nat {
    Or(x, y * p) % 0x1_0000_0000_0000_0000
  }

  /** The word holds x and as many low bits of y as fit above it. */
  lemma PackWordValue(x: nat, y: nat, s: nat, p: nat, q: nat)
    requires p * q == 0x1_0000_0000_0000_0000 && x < p && q > 0 && Exp2(s) == p
    ensures PackWord(x, y, p) == x + y % q * p && y == y / q * q + y % q
  {
    hide Or, Exp2;
    OrShifted(x, y, s, p);
    DivMod(y, q);
    Nonneg(q - 1 - y % q, p);
    Nonneg(y % q, p);
    assert (q - 1 - y % q) * p == p * q - p - y % q * p;
    assert x + y * p == (y / q) * (p * q) + (x + y % q * p) by {
      assert (y / q * q + y % q) * p == (y / q) * (p * q) + y % q * p;
    }
    DivUnique(x + y * p, p * q, y / q, x + y % q * p);
  }

  /** Packs 51-bit limbs into the four 64-bit words of the output. */
  function Words(t: Five): (nat, nat, nat, nat)
    requires Proper(t)
  {
    (PackWord(t.v0, t.v1, 0x8_0000_0000_0000), PackWord(t.v1 / 0x2000, t.v2, 0x40_0000_0000),
     PackWord(t.v2 / 0x400_0000, t.v3, 0x200_0000), PackWord(t.v3 / 0x80_0000_0000, t.v4, 0x1000))
  }

  lemma WordsValue(t: Five)
    requires Proper(t)
    ensures
      var (w0, w1, w2, w3) := Words(t);
      w0 + 0x1_0000_0000_0000_0000 * (w1 + 0x1_0000_0000_0000_0000 * (w2 + 0x1_0000_0000_0000_0000 * w3)) == Poly(t)
  {
    hide Exp2, PackWord, Poly;
    PackExp2();
    PackWordValue(t.v0, t.v1, 51, 0x8_0000_0000_0000, 0x2000);
    PackWordValue(t.v1 / 0x2000, t.v2, 38, 0x40_0000_0000, 0x400_0000);
    PackWordValue(t.v2 / 0x400_0000, t.v3, 25, 0x200_0000, 0x80_0000_0000);
    PackWordValue(t.v3 / 0x80_0000_0000, t.v4, 12, 0x1000, 0x10_0000_0000_0000);
    PackSum(t, t.v1 / 0x2000, t.v1 % 0x2000, t.v2 / 0x400_0000, t.v2 % 0x400_0000, t.v3 / 0x80_0000_0000,
            t.v3 % 0x80_0000_0000);
  }

  lemma PackExp2()
    ensures Exp2(51) == 0x8_0000_0000_0000 && Exp2(38) == 0x40_0000_0000 && Exp2(25) == 0x200_0000 && Exp2(12) == 0x1000
  {
    SmallExp2();
    ByteExp2();
    hide Exp2;
    Exp2Add(48, 3);
    Exp2Add(32, 6);
    Exp2Add(24, 1);
    Exp2Add(8, 4);
  }

  lemma PackSum(t: Five, h1: int, l1: int, h2: int, l2: int, h3: int, l3: int)
    requires t.v1 == h1 * 0x2000 + l1 && t.v2 == h2 * 0x400_0000 + l2 && t.v3 == h3 * 0x80_0000_0000 + l3
    ensures
      var m := 0x1_0000_0000_0000_0000;
      t.v0 + l1 * 0x8_0000_0000_0000 + m * (h1 + l2 * 0x40_0000_0000
                                            + m * (h2 + l3 * 0x200_0000 + m * (h3 + t.v4 * 0x1000)))
      == Poly(t)
  { }

  lemma LEOfWords(w0: u64, w1: u64, w2: u64, w3: u64)
    ensures LE(Bytes8(w0) + Bytes8(w1) + Bytes8(w2) + Bytes8(w3)) == w0 as int + 0x1_0000_0000_0000_0000 *
            (w1 as int + 0x1_0000_0000_0000_0000 * (w2 as int + 0x1_0000_0000_0000_0000 * w3 as int))
  {
    WordExp2();
    hide Exp2, LE, Bytes8;
    Bytes8Value(w0);
    Bytes8Value(w1);
    Bytes8Value(w2);
    Bytes8Value(w3);
    Bytes8Length(w0);
    Bytes8Length(w1);
    Bytes8Length(w2);
    LEConcat(Bytes8(w2), Bytes8(w3));
    LEConcat(Bytes8(w1), Bytes8(w2) + Bytes8(w3));
    LEConcat(Bytes8(w0), Bytes8(w1) + (Bytes8(w2) + Bytes8(w3)));
    assert Bytes8(w0) + Bytes8(w1) + Bytes8(w2) + Bytes8(w3) == Bytes8(w0) + (Bytes8(w1) + (Bytes8(w2) + Bytes8(w3)));
  }

  lemma Bytes8Length(w: u64)
    ensures |Bytes8(w)| == 8
  { }

  /** Writes the canonical 32-byte little-endian form of the residue. */
  method Contract(output: array<u8>, input: array<u64>)
    requires output.Length == 32 && Loose(input)
    modifies output
    ensures LE(output[..]) == old(Value(input))
  {
    hide Or, Red, LE, Bytes8;
    var t0, t1, t2, t3, t4 := Freeze(input[0] as u128, input[1] as u128, input[2] as u128, input[3] as u128,
                                     input[4] as u128);
    ghost var v := Value(input);
    assert Poly(Wide(t0, t1, t2, t3, t4)) == v;
    hide Poly, Value;
    var (w0, w1, w2, w3) := Words(Wide(t0, t1, t2, t3, t4));
    WordsValue(Wide(t0, t1, t2, t3, t4));
    LEOfWords(w0 as u64, w1 as u64, w2 as u64, w3 as u64);
    Bytes8Length(w0 as u64);
    Bytes8Length(w1 as u64);
    Bytes8Length(w2 as u64);
    Bytes8Length(w3 as u64);
    StoreLimb(output, 0, w0 as u64);
    StoreLimb(output, 8, w1 as u64);
    StoreLimb(output, 16, w2 as u64);
    StoreLimb(output, 24, w3 as u64);
    assert output[..] == Bytes8(w0 as u64) + Bytes8(w1 as u64) + Bytes8(w2 as u64) + Bytes8(w3 as u64);
  }

  /** The public entry point: the output bytes encode X25519 of the clamped secret and the base point. */
  method Curve25519Donna(mypublic: array<u8>, secret: seq<u8>, basepoint: seq<u8>)
    requires mypublic.Length == 32 && |secret| == 32 && |basepoint| == 32
    modifies mypublic
    ensures LE(mypublic[..]) == Curve25519(secret, basepoint)
  {
    hide And, Or, Limbs, Loose, Summed, Scaled, Tight, Mul, Pow, LE, Run, Poly, Red;
    var e := ClampScalar(secret);
    var bp := Expand(basepoint);
    assert Value(bp) == DecodeU(basepoint);
    hide Value;
    var x, z := CMult(e, bp);
    var zmone := new u64[5];
    CRecip(zmone, z);
    Multiply(z, x, zmone);
    Contract(mypublic, z);
  }
}
