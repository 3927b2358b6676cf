/** Powers of two, little-endian numbers, and bitwise operators on naturals of any width. */
module Bits {
  import opened Machine

  function Exp2(n: nat): nat {
    if n == 0 then 1 else 2 * Exp2(n - 1)
  }

  lemma {:induction false} Exp2Positive(t: nat)
    ensures Exp2(t) > 0
  {
    if t > 0 {
      Exp2Positive(t - 1);
    }
  }

  lemma {:induction false} Exp2Add(m: nat, n: nat)
    ensures Exp2(m + n) == Exp2(m) * Exp2(n)
  {
    if m > 0 {
      Exp2Add(m - 1, n);
      assert 2 * (Exp2(m - 1) * Exp2(n)) == (2 * Exp2(m - 1)) * Exp2(n);
    }
  }

  lemma SmallExp2()
    ensures Exp2(0) == 1 && Exp2(1) == 2 && Exp2(2) == 4 && Exp2(3) == 8
    ensures Exp2(4) == 16 && Exp2(5) == 32 && Exp2(6) == 64 && Exp2(7) == 128 && Exp2(8) == 256
  {
    assert Exp2(3) == 8;
    assert Exp2(6) == 64;
  }

  /** Doubling an exponent squares the power: how the large powers below are computed. */
  lemma Exp2Double(n: nat, p: nat)
    requires Exp2(n) == p
    ensures Exp2(2 * n) == p * p
  {
    Exp2Add(n, n);
  }

  lemma WordExp2()
    ensures Exp2(16) == 0x1_0000 && Exp2(32) == 0x1_0000_0000 && Exp2(64) == 0x1_0000_0000_0000_0000
  {
    SmallExp2();
    hide Exp2;
    Exp2Double(8, 256);
    Exp2Double(16, 0x1_0000);
    Exp2Double(32, 0x1_0000_0000);
  }

  // ----- division by powers of two -----

  lemma MulAtLeast(a: int, d: int)
    requires a >= 1 && d >= 0
    ensures a * d >= d
  {
    assert (a - 1) * d >= 0;
  }

  lemma DivUnique(x: int, d: int, q: int, r: int)
    requires d > 0 && x == q * d + r && 0 <= r < d
    ensures x / d == q && x % d == r
  {
    var q', r' := x / d, x % d;
    assert x == q' * d + r';
    assert (q - q') * d == r' - r && (q' - q) * d == r - r';
    if q > q' {
      MulAtLeast(q - q', d);
    } else if q < q' {
      MulAtLeast(q' - q, d);
    }
  }

  lemma DivAbove(c: nat, y: nat, d: nat)
    requires d > 0
    ensures (c + y * d) / d == c / d + y && (c + y * d) % d == c % d
  {
    DivMod(c, d);
    assert (c / d + y) * d == (c / d) * d + y * d;
    DivUnique(c + y * d, d, c / d + y, c % d);
  }

  lemma NestedRemainder(a: nat, b: nat, q: nat, r: nat, s: nat, t: nat)
    requires r < a && t < b && q == s * b + t
    ensures q * a + r == s * (a * b) + (t * a + r)
    ensures 0 <= t * a + r < a * b
  {
    assert (s * b + t) * a == s * (a * b) + t * a;
    Nonneg(t, a);
    Nonneg(b - 1 - t, a);
    assert (b - 1 - t) * a == a * b - a - t * a;
  }

  lemma DivDiv(x: nat, a: nat, b: nat)
    requires a > 0 && b > 0
    ensures a * b > 0 && x / a / b == x / (a * b)
  {
    MulAtLeast(a, b);
    var q, r := x / a, x % a;
    DivMod(x, a);
    DivMod(q, b);
    NestedRemainder(a, b, q, r, q / b, q % b);
    DivUnique(x, a * b, q / b, (q % b) * a + r);
  }

  lemma DivMod(x: nat, d: nat)
    requires d > 0
    ensures x == (x / d) * d + x % d && 0 <= x / d && 0 <= x % d < d
  { }

  lemma Regroup(h: nat, s: nat, f: nat, w: nat)
    ensures h * (s * (f * w)) == ((h * f) * w) * s && (h * f) * w >= 0 && h * f >= 0
  {
    Nonneg(h, f);
    Nonneg(h * f, w);
    assert s * (f * w) == (f * w) * s;
    assert h * ((f * w) * s) == (h * (f * w)) * s;
    assert h * (f * w) == (h * f) * w;
  }

  /** Bits s .. s+w of x can be read from any window of at least s + w low bits. */
  lemma WindowBits(x: nat, width: nat, s: nat, w: nat)
    requires s + w <= width
    ensures Exp2(width) > 0 && Exp2(s) > 0 && Exp2(w) > 0
    ensures (x % Exp2(width)) / Exp2(s) % Exp2(w) == x / Exp2(s) % Exp2(w)
  {
    hide Exp2;
    Exp2Positive(width);
    Exp2Positive(s);
    Exp2Positive(w);
    var f := Exp2(width - s - w);
    Exp2Add(s, width - s);
    Exp2Add(width - s - w, w);
    WindowCore(x, Exp2(width), Exp2(s), f, Exp2(w));
  }

  lemma WindowCore(x: nat, e: nat, s: nat, f: nat, w: nat)
    requires e == s * (f * w) && e > 0 && s > 0 && w > 0
    ensures (x % e) / s % w == x / s % w
  {
    var h, l := x / e, x % e;
    DivMod(x, e);
    Regroup(h, s, f, w);
    DivAbove(l, (h * f) * w, s);
    DivMod(l, s);
    DivAbove(l / s, h * f, w);
  }

  lemma Nonneg(a: int, b: int)
    requires a >= 0 && b >= 0
    ensures a * b >= 0
  { }

  // ----- little-endian byte strings -----

  /** The number a little-endian byte string stands for. */
  function LE(b: seq<u8>): nat {
    if b == [] then 0 else b[0] as nat + 256 * LE(b[1..])
  }

  lemma ConcatStep(c: int, x: int, e: int, y: int)
    ensures c + 256 * (x + e * y) == c + 256 * x + (256 * e) * y
  { }

  lemma {:induction false} LEConcat(a: seq<u8>, b: seq<u8>)
    ensures LE(a + b) == LE(a) + Exp2(8 * |a|) * LE(b)
  {
    if a == [] {
      assert a + b == b;
      assert Exp2(0) == 1;
    } else {
      hide Exp2;
      LEConcat(a[1..], b);
      Exp2Byte(|a|);
      ConcatStep(a[0] as int, LE(a[1..]), Exp2(8 * |a| - 8), LE(b));
      calc {
        LE(a + b);
        { assert (a + b)[1..] == a[1..] + b; }
        a[0] as nat + 256 * LE(a[1..] + b);
        LE(a) + Exp2(8 * |a|) * LE(b);
      }
    }
  }

  lemma Exp2Byte(n: nat)
    requires n > 0
    ensures Exp2(8 * n) == 256 * Exp2(8 * n - 8)
  {
    Exp2Add(8, 8 * n - 8);
    SmallExp2();
  }

  lemma {:induction false} LEBound(b: seq<u8>)
    ensures LE(b) < Exp2(8 * |b|)
  {
    if b != [] {
      LEBound(b[1..]);
      Exp2Byte(|b|);
    }
  }

  /** A byte string is determined by its length and its number. */
  lemma {:induction false} LEInjective(a: seq<u8>, b: seq<u8>)
    requires |a| == |b| && LE(a) == LE(b)
    ensures a == b
  {
    if a != [] {
      assert a[0] == b[0] && LE(a[1..]) == LE(b[1..]);
      LEInjective(a[1..], b[1..]);
      assert a == [a[0]] + a[1..] && b == [b[0]] + b[1..];
    }
  }

  lemma MiddleDigits(lo: nat, mid: nat, hi: nat, e: nat, g: nat)
    requires lo < e && mid < g
    ensures (lo + e * (mid + g * hi)) / e % g == mid
  {
    var rest := mid + g * hi;
    Nonneg(g, hi);
    DivUnique(lo + e * rest, e, rest, lo);
    DivUnique(rest, g, hi, mid);
  }

  /** A run of bytes of a string is a window of the bits of its number. */
  lemma LEWindow(b: seq<u8>, at: nat, len: nat)
    requires at + len <= |b|
    ensures Exp2(8 * at) > 0 && Exp2(8 * len) > 0
    ensures LE(b[at..at + len]) == LE(b) / Exp2(8 * at) % Exp2(8 * len)
  {
    hide Exp2, LE;
    var lo, mid, hi := b[..at], b[at..at + len], b[at + len..];
    assert b == lo + (mid + hi);
    LEMiddle(lo, mid, hi);
  }

  lemma LEMiddle(lo: seq<u8>, mid: seq<u8>, hi: seq<u8>)
    ensures Exp2(8 * |lo|) > 0 && Exp2(8 * |mid|) > 0
    ensures LE(mid) == LE(lo + (mid + hi)) / Exp2(8 * |lo|) % Exp2(8 * |mid|)
  {
    hide Exp2, LE;
    Exp2Positive(8 * |lo|);
    Exp2Positive(8 * |mid|);
    LEConcat(lo, mid + hi);
    LEConcat(mid, hi);
    LEBound(lo);
    LEBound(mid);
    MiddleDigits(LE(lo), LE(mid), LE(hi), Exp2(8 * |lo|), Exp2(8 * |mid|));
  }

  lemma ByteExp2()
    ensures Exp2(8) == 0x100 && Exp2(16) == 0x1_0000 && Exp2(24) == 0x100_0000 && Exp2(32) == 0x1_0000_0000
    ensures Exp2(40) == 0x100_0000_0000 && Exp2(48) == 0x1_0000_0000_0000 && Exp2(56) == 0x100_0000_0000_0000
  {
    SmallExp2();
    WordExp2();
    hide Exp2;
    Exp2Add(16, 8);
    Exp2Add(32, 8);
    Exp2Add(32, 16);
    Exp2Add(48, 8);
  }

  lemma LEOfEight(w: seq<u8>)
    requires |w| == 8
    ensures LE(w) == w[0] as nat + w[1] as nat * 0x100 + w[2] as nat * 0x1_0000 + w[3] as nat * 0x100_0000
                     + w[4] as nat * 0x1_0000_0000 + w[5] as nat * 0x100_0000_0000 + w[6] as nat * 0x1_0000_0000_0000
                     + w[7] as nat * 0x100_0000_0000_0000
  {
    LEOfFour(w);
    LEOfFour(w[4..]);
    assert LE(w[4..][4..]) == 0;
  }

  lemma LEOfFour(w: seq<u8>)
    requires |w| >= 4
    ensures LE(w) == w[0] as nat + w[1] as nat * 0x100 + w[2] as nat * 0x1_0000 + w[3] as nat * 0x100_0000
                     + 0x1_0000_0000 * LE(w[4..])
  {
    assert w[1..][1..] == w[2..] && w[2..][1..] == w[3..] && w[3..][1..] == w[4..];
    assert LE(w) == w[0] as nat + 256 * LE(w[1..]);
    assert LE(w[1..]) == w[1] as nat + 256 * LE(w[2..]);
    assert LE(w[2..]) == w[2] as nat + 256 * LE(w[3..]);
    assert LE(w[3..]) == w[3] as nat + 256 * LE(w[4..]);
  }

  // ----- single bits -----

  function Bit(k: nat, t: nat): (b: nat)
    ensures b < 2
  {
    Exp2Positive(t);
    (k / Exp2(t)) % 2
  }

  /** Bit 8m + r of a little-endian number is bit r of byte m. */
  lemma BitOfLE(n: seq<u8>, m: nat, r: nat)
    requires m < |n| && r < 8
    ensures Bit(LE(n), 8 * m + r) == Bit(n[m] as nat, r)
  {
    Exp2Positive(8 * m);
    Exp2Positive(r);
    LEWindow(n, m, 1);
    assert n[m..m + 1] == [n[m]];
    assert LE([n[m]]) == n[m] as nat;
    SmallExp2();
    hide LE, Exp2;
    DivMod(LE(n), Exp2(8 * m));
    WindowBits(LE(n) / Exp2(8 * m), 8, r, 1);
    Exp2Add(8 * m, r);
    DivDiv(LE(n), Exp2(8 * m), Exp2(r));
  }

  /** A byte after j left shifts, as the ladder loops hold it. */
  function Shifted(b: nat, j: nat): nat {
    if j == 0 then b else Shifted(b, j - 1) % 128 * 2
  }

  /** A left shift of a byte moves bit r to bit r + 1. */
  lemma ShiftBit(x: nat, r: nat)
    requires r < 7
    ensures Bit(x % 128 * 2, r + 1) == Bit(x, r)
  {
    var l, d := x % 128, Exp2(r);
    Exp2Positive(r);
    SmallExp2();
    WindowBits(x, 7, r, 1);
    DivDiv(2 * l, 2, d);
  }

  lemma {:induction false} ShiftedBit(b: nat, j: nat, r: nat)
    requires b < 256 && j <= r < 8
    ensures Shifted(b, j) < 256 && Bit(Shifted(b, j), r) == Bit(b, r - j)
  {
    if j > 0 {
      ShiftedBit(b, j - 1, r - 1);
      ShiftBit(Shifted(b, j - 1), r - 1);
    }
  }

  /** The top bit of the shifted byte is the next bit of the scalar. */
  lemma TopBit(n: seq<u8>, m: nat, j: nat)
    requires m < |n| && j < 8
    ensures Shifted(n[m] as nat, j) / 128 == Bit(LE(n), 8 * m + 7 - j)
  {
    hide LE, Bit, Shifted;
    BitOfLE(n, m, 7 - j);
    ShiftedBit(n[m] as nat, j, 7);
    BitSeven(Shifted(n[m] as nat, j));
  }

  lemma BitSeven(x: nat)
    requires x < 256
    ensures Bit(x, 7) == x / 128
  {
    SmallExp2();
  }

  // ----- bitwise operators -----

  function Xor(a: nat, b: nat): nat
    decreases a + b
  {
    if a == 0 && b == 0 then 0
    else (if a % 2 == b % 2 then 0 else 1) + 2 * Xor(a / 2, b / 2)
  }

  function And(a: nat, b: nat): nat {
    if a == 0 then 0
    else (if a % 2 == 1 && b % 2 == 1 then 1 else 0) + 2 * And(a / 2, b / 2)
  }

  function Or(a: nat, b: nat): nat
    decreases a + b
  {
    if a == 0 && b == 0 then 0
    else (if a % 2 == 1 || b % 2 == 1 then 1 else 0) + 2 * Or(a / 2, b / 2)
  }

  lemma {:induction false} XorZero(a: nat)
    ensures Xor(a, 0) == a
  {
    if a > 0 {
      XorZero(a / 2);
    }
  }

  lemma {:induction false} XorComm(a: nat, b: nat)
    ensures Xor(a, b) == Xor(b, a)
    decreases a + b
  {
    if a != 0 || b != 0 {
      XorComm(a / 2, b / 2);
    }
  }

  lemma {:induction false} AndNone(a: nat)
    ensures And(a, 0) == 0
  {
    if a > 0 {
      AndNone(a / 2);
    }
  }

  lemma {:induction false} AndComm(a: nat, b: nat)
    ensures And(a, b) == And(b, a)
  {
    if a == 0 {
      AndNone(b);
    } else {
      AndComm(a / 2, b / 2);
      if b == 0 {
        AndNone(a);
      }
    }
  }

  lemma {:induction false} XorCancel(a: nat, b: nat)
    ensures Xor(a, Xor(a, b)) == b && Xor(b, Xor(a, b)) == a
    decreases a + b
  {
    if a != 0 || b != 0 {
      XorCancel(a / 2, b / 2);
      assert Xor(a, b) / 2 == Xor(a / 2, b / 2);
      XorHalf(a, Xor(a, b));
      XorHalf(b, Xor(a, b));
    }
  }

  lemma XorHalf(a: nat, b: nat)
    ensures Xor(a, b) == (if a % 2 == b % 2 then 0 else 1) + 2 * Xor(a / 2, b / 2)
  { }

  /** Bit by bit, exclusive or adds without carry. */
  lemma {:induction false} XorBit(a: nat, b: nat, t: nat)
    ensures Bit(Xor(a, b), t) == (Bit(a, t) + Bit(b, t)) % 2
    decreases t
  {
    hide Bit;
    XorHalf(a, b);
    HalfBit(a, t);
    HalfBit(b, t);
    HalfBit(Xor(a, b), t);
    if t > 0 {
      XorBit(a / 2, b / 2, t - 1);
    }
  }

  lemma HalfBit(x: nat, t: nat)
    ensures Bit(x, t) == if t == 0 then x % 2 else Bit(x / 2, t - 1)
  {
    if t == 0 {
      assert Exp2(0) == 1;
    } else {
      Exp2Positive(t - 1);
      DivDiv(x, 2, Exp2(t - 1));
    }
  }

  lemma {:induction false} XorBound(a: nat, b: nat, n: nat)
    requires a < Exp2(n) && b < Exp2(n)
    ensures Xor(a, b) < Exp2(n)
  {
    if n > 0 && (a != 0 || b != 0) {
      XorBound(a / 2, b / 2, n - 1);
    }
  }

  lemma LowBits(b: nat, e: nat)
    requires e > 0
    ensures b % (2 * e) == b % 2 + 2 * (b / 2 % e)
  {
    DivMod(b / 2, e);
    DivUnique(b, 2 * e, b / 2 / e, b % 2 + 2 * (b / 2 % e));
  }

  lemma Exp2Succ(n: nat)
    requires n > 0
    ensures Exp2(n) == 2 * Exp2(n - 1)
  { }

  lemma AndMaskStep(b: nat, e: nat)
    requires e > 0 && And(e - 1, b / 2) == b / 2 % e
    ensures And(2 * e - 1, b) == b % (2 * e)
  {
    hide And;
    LowBits(b, e);
    AndHalf(2 * e - 1, b);
    assert (2 * e - 1) / 2 == e - 1 && (2 * e - 1) % 2 == 1;
  }

  /** Masking with n ones takes the low n bits. */
  lemma {:induction false} AndMask(b: nat, n: nat)
    ensures Exp2(n) > 0 && And(Exp2(n) - 1, b) == b % Exp2(n)
  {
    Exp2Positive(n);
    if n == 0 {
      assert Exp2(0) == 1;
    } else {
      hide Exp2, And;
      Exp2Succ(n);
      AndMask(b / 2, n - 1);
      AndMaskStep(b, Exp2(n - 1));
    }
  }

  /** The masked exclusive-or exchange: a full mask swaps, an empty one does nothing. */
  lemma MaskedXor(a: nat, b: nat, n: nat)
    requires a < Exp2(n) && b < Exp2(n)
    ensures var x := And(Exp2(n) - 1, Xor(a, b)); Xor(a, x) == b && Xor(b, x) == a
    ensures var x := And(0, Xor(a, b)); Xor(a, x) == a && Xor(b, x) == b
  {
    XorBound(a, b, n);
    AndMask(Xor(a, b), n);
    XorCancel(a, b);
    XorZero(a);
    XorZero(b);
    hide Exp2, Xor;
    DivUnique(Xor(a, b), Exp2(n), 0, Xor(a, b));
  }

  lemma DoubleMul(e: int, b: int)
    ensures (2 * e) * b == 2 * (e * b)
  { }

  /** An or of parts that share no bit is their sum. */
  lemma {:induction false} OrSum(a: nat, b: nat, n: nat)
    requires a < Exp2(n)
    ensures Or(a, Exp2(n) * b) == a + Exp2(n) * b
  {
    hide Or;
    if n == 0 {
      OrZero(b);
    } else {
      var e := Exp2(n - 1);
      assert Exp2(n) == 2 * e;
      hide Exp2;
      DoubleMul(e, b);
      Nonneg(e, b);
      OrSum(a / 2, b, n - 1);
      OrHalf(a, 2 * (e * b));
    }
  }

  /** The same with the power of two as a number. */
  lemma OrShifted(a: nat, b: nat, n: nat, p: nat)
    requires Exp2(n) == p && a < p
    ensures Or(a, b * p) == a + b * p
  {
    OrSum(a, b, n);
    assert Exp2(n) * b == b * p;
  }

  lemma AndHalf(a: nat, b: nat)
    ensures And(a, b) == (if a % 2 == 1 && b % 2 == 1 then 1 else 0) + 2 * And(a / 2, b / 2)
  { }

  lemma OrHalf(a: nat, b: nat)
    ensures Or(a, b) == (if a % 2 == 1 || b % 2 == 1 then 1 else 0) + 2 * Or(a / 2, b / 2)
  { }

  /** e & 248 clears the low three bits. */
  lemma And248(b: nat)
    requires b < 256
    ensures And(248, b) == b - b % 8
  {
    SmallExp2();
    hide And, Exp2;
    AndHalf(248, b);
    AndHalf(124, b / 2);
    AndHalf(62, b / 2 / 2);
    AndMask(b / 2 / 2 / 2, 5);
  }

  lemma {:induction false} OrTop(l: nat, n: nat)
    requires l < Exp2(n)
    ensures Or(l + Exp2(n), Exp2(n)) == l + Exp2(n)
  {
    if n == 0 {
      OrZero(0);
      OrHalf(1, 1);
    } else {
      OrTop(l / 2, n - 1);
      OrHalf(l + Exp2(n), Exp2(n));
    }
  }

  /** e | 64 sets bit 6. */
  lemma Or64(x: nat)
    requires x < 128
    ensures Or(x, 64) == x % 64 + 64
  {
    SmallExp2();
    hide Or, Exp2;
    if x < 64 {
      OrShifted(x, 1, 6, 64);
    } else {
      OrTop(x - 64, 6);
    }
  }

  /** (e & 127) | 64 clears bit 7 and sets bit 6. */
  lemma And127Or64(b: nat)
    requires b < 256
    ensures And(127, b) == b % 128 && Or(And(127, b), 64) == b % 64 + 64
  {
    SmallExp2();
    hide Or, And, Exp2;
    AndMask(b, 7);
    Or64(b % 128);
  }

  lemma {:induction false} OrZero(b: nat)
    ensures Or(0, b) == b
  {
    if b > 0 {
      OrZero(b / 2);
    }
  }

  // ----- comparing two 32-bit patterns without branching -----

  lemma BitZero(x: nat)
    ensures Bit(x, 0) == x % 2
  {
    assert Exp2(0) == 1;
  }

  lemma BitHalf(x: nat, t: nat)
    requires t > 0
    ensures Bit(x, t) == Bit(x / 2, t - 1)
  {
    Exp2Positive(t - 1);
    DivDiv(x, 2, Exp2(t - 1));
  }

  lemma {:induction false} BitAnd(a: nat, b: nat, t: nat)
    ensures Bit(And(a, b), t) == if Bit(a, t) == 1 && Bit(b, t) == 1 then 1 else 0
  {
    hide Bit, And;
    AndHalf(a, b);
    if t == 0 {
      BitZero(a);
      BitZero(b);
      BitZero(And(a, b));
    } else {
      BitAnd(a / 2, b / 2, t - 1);
      BitHalf(a, t);
      BitHalf(b, t);
      BitHalf(And(a, b), t);
    }
  }

  /** A left shift truncated to 32 bits. */
  function Shl32(x: nat, s: nat): nat { x * Exp2(s) % 0x1_0000_0000 }

  lemma BitShl32(x: nat, s: nat, t: nat)
    requires s <= t < 32
    ensures Bit(Shl32(x, s), t) == Bit(x, t - s)
  {
    WordExp2();
    SmallExp2();
    hide Exp2;
    Exp2Positive(s);
    Exp2Positive(t);
    Exp2Positive(t - s);
    Nonneg(x, Exp2(s));
    WindowBits(x * Exp2(s), 32, t, 1);
    Exp2Add(s, t - s);
    DivDiv(x * Exp2(s), Exp2(s), Exp2(t - s));
    DivUnique(x * Exp2(s), Exp2(s), x, 0);
  }

  /** a &= a << s */
  function AndShift(x: nat, s: nat): nat { And(x, Shl32(x, s)) }

  lemma BitAndShift(x: nat, s: nat, t: nat)
    requires t < 32
    ensures Bit(x, t) == 0 ==> Bit(AndShift(x, s), t) == 0
    ensures s <= t ==> Bit(AndShift(x, s), t) == if Bit(x, t) == 1 && Bit(x, t - s) == 1 then 1 else 0
  {
    hide Bit, And, Shl32;
    BitAnd(x, Shl32(x, s), t);
    if s <= t {
      BitShl32(x, s, t);
    }
  }

  /** The five folding steps of s32_eq. */
  function FoldAll(x: nat): nat { AndShift(AndShift(AndShift(AndShift(AndShift(x, 16), 8), 4), 2), 1) }

  predicate TopOnes(x: nat, from: nat) { forall t | from <= t < 32 :: Bit(x, t) == 1 }

  lemma OnesStep(x: nat, s: nat)
    requires s <= 16 && TopOnes(x, 32 - 2 * s)
    ensures TopOnes(AndShift(x, s), 32 - s)
  {
    hide Bit, AndShift;
    forall t | 32 - s <= t < 32 ensures Bit(AndShift(x, s), t) == 1 {
      BitAndShift(x, s, t);
    }
  }

  /** A zero bit climbs by s, or is already within s of the top. */
  lemma ZeroStep(x: nat, s: nat, z: nat) returns (z': nat)
    requires 32 - 2 * s <= z < 32 && Bit(x, z) == 0 && s <= 16
    ensures 32 - s <= z' < 32 && Bit(AndShift(x, s), z') == 0
  {
    hide Bit, AndShift;
    z' := if z + s < 32 then z + s else z;
    BitAndShift(x, s, z');
  }

  lemma {:induction false} AllOnesBit(n: nat, t: nat)
    requires t < n
    ensures Exp2(n) > 0 && Bit(Exp2(n) - 1, t) == 1
  {
    Exp2Positive(n);
    hide Bit;
    if t == 0 {
      BitZero(Exp2(n) - 1);
    } else {
      assert (Exp2(n) - 1) / 2 == Exp2(n - 1) - 1;
      hide Exp2;
      AllOnesBit(n - 1, t - 1);
      BitHalf(Exp2(n) - 1, t);
    }
  }

  lemma {:induction false} FindZero(x: nat, n: nat) returns (z: nat)
    requires x + 1 < Exp2(n)
    ensures z < n && Bit(x, z) == 0
  {
    hide Bit;
    if x % 2 == 0 {
      z := 0;
      BitZero(x);
      assert n > 0;
    } else {
      z := FindZero(x / 2, n - 1);
      z := z + 1;
      BitHalf(x, z);
    }
  }

  /** The top bit survives the folding exactly when every bit was set. */
  lemma FoldAllTop(x: nat)
    requires x < 0x1_0000_0000
    ensures Bit(FoldAll(x), 31) == if x == 0xffff_ffff then 1 else 0
  {
    WordExp2();
    hide Exp2, Bit, AndShift;
    var x1 := AndShift(x, 16);
    var x2 := AndShift(x1, 8);
    var x3 := AndShift(x2, 4);
    var x4 := AndShift(x3, 2);
    if x == 0xffff_ffff {
      forall t | 0 <= t < 32 ensures Bit(x, t) == 1 {
        AllOnesBit(32, t);
      }
      OnesStep(x, 16);
      OnesStep(x1, 8);
      OnesStep(x2, 4);
      OnesStep(x3, 2);
      OnesStep(x4, 1);
    } else {
      var z := FindZero(x, 32);
      z := ZeroStep(x, 16, z);
      z := ZeroStep(x1, 8, z);
      z := ZeroStep(x2, 4, z);
      z := ZeroStep(x3, 2, z);
      z := ZeroStep(x4, 1, z);
    }
  }

  lemma {:induction false} XorSelf(a: nat)
    ensures Xor(a, a) == 0
  {
    if a > 0 {
      XorSelf(a / 2);
    }
  }

  lemma XorIsZero(a: nat, b: nat)
    ensures Xor(a, b) == 0 <==> a == b
  {
    XorSelf(a);
    XorCancel(a, b);
    XorZero(a);
  }

  lemma {:induction false} OrBound(a: nat, b: nat, n: nat)
    requires a < Exp2(n) && b < Exp2(n)
    ensures Or(a, b) < Exp2(n)
  {
    if n > 0 && (a != 0 || b != 0) {
      OrBound(a / 2, b / 2, n - 1);
    }
  }

  lemma {:induction false} AndLe(a: nat, b: nat)
    ensures And(a, b) <= a
  {
    if a > 0 {
      AndLe(a / 2, b / 2);
    }
  }

  lemma FoldAllLe(x: nat)
    ensures FoldAll(x) <= x
  {
    hide And, Shl32;
    var x1 := AndShift(x, 16);
    var x2 := AndShift(x1, 8);
    var x3 := AndShift(x2, 4);
    var x4 := AndShift(x3, 2);
    AndLe(x, Shl32(x, 16));
    AndLe(x1, Shl32(x1, 8));
    AndLe(x2, Shl32(x2, 4));
    AndLe(x3, Shl32(x3, 2));
    AndLe(x4, Shl32(x4, 1));
  }

  lemma TopBit32(y: nat)
    requires y < 0x1_0000_0000
    ensures Bit(y, 31) == if y >= 0x8000_0000 then 1 else 0
  {
    WordExp2();
    assert Exp2(32) == 2 * Exp2(31);
    hide Exp2;
  }
}
