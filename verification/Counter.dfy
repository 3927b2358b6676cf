/** The counter block and the exclusive or of counter mode (section 6.5 of NIST SP 800-38A), as
    libjl777/ciphers.h computes them: byte by byte with a carry, and a machine word at a time. */
module Counter {
  import opened Machine
  import opened Bits

  // ----- bytes and numbers -----

  /** The n low bytes of v, least significant first. */
  function ToBytes(v: nat, n: nat): (b: seq<u8>)
    ensures |b| == n
  {
    if n == 0 then [] else [(v % 256) as u8] + ToBytes(v / 256, n - 1)
  }

  lemma {:induction false} ToBytesValue(v: nat, n: nat)
    ensures Exp2(8 * n) > 0 && LE(ToBytes(v, n)) == v % Exp2(8 * n)
  {
    Exp2Positive(8 * n);
    if n == 0 {
      assert Exp2(0) == 1;
    } else {
      var e, b := Exp2(8 * n - 8), ToBytes(v, n);
      ToBytesValue(v / 256, n - 1);
      Exp2Byte(n);
      assert b[1..] == ToBytes(v / 256, n - 1);
      hide Exp2;
      LowByte(v, e);
    }
  }

  lemma LowByte(v: nat, e: nat)
    requires e > 0
    ensures v % (256 * e) == v % 256 + 256 * (v / 256 % e)
  {
    DivMod(v / 256, e);
    DivUnique(v, 256 * e, v / 256 / e, v % 256 + 256 * (v / 256 % e));
  }

  lemma SmallMod(x: nat, e: nat)
    requires x < e
    ensures x % e == x
  {
    DivUnique(x, e, 0, x);
  }

  // ----- the counter -----

  /** Adds one with carry; wraps around to zero. */
  function Increment(f: seq<u8>): (r: seq<u8>)
    ensures |r| == |f|
  {
    if f == [] then []
    else if f[0] == 255 then [0] + Increment(f[1..])
    else [f[0] + 1] + f[1..]
  }

  /** The field k values further on. */
  function Advance(f: seq<u8>, k: nat): (r: seq<u8>)
    ensures |r| == |f|
  {
    ToBytes(LE(f) + k, |f|)
  }

  lemma {:induction false} IncrementValue(f: seq<u8>)
    ensures Exp2(8 * |f|) > 0 && LE(Increment(f)) == (LE(f) + 1) % Exp2(8 * |f|)
  {
    Exp2Positive(8 * |f|);
    if f == [] {
      assert Exp2(0) == 1;
    } else {
      var e, r, v, w := Exp2(8 * |f| - 8), Increment(f), LE(f), LE(f[1..]);
      IncrementValue(f[1..]);
      Exp2Byte(|f|);
      LEBound(f[1..]);
      assert r[1..] == if f[0] == 255 then Increment(f[1..]) else f[1..];
      assert v == f[0] as nat + 256 * w && LE(r) == r[0] as nat + 256 * LE(r[1..]);
      hide Exp2, LE, Increment;
      LowByte(v + 1, e);
      if f[0] == 255 {
        assert (v + 1) / 256 == w + 1 && (v + 1) % 256 == 0;
      } else {
        assert (v + 1) / 256 == w && (v + 1) % 256 == f[0] as nat + 1;
        SmallMod(w, e);
      }
    }
  }

  lemma AdvanceNone(f: seq<u8>)
    ensures Advance(f, 0) == f
  {
    hide LE, Exp2, ToBytes;
    ToBytesValue(LE(f) + 0, |f|);
    LEBound(f);
    SmallMod(LE(f), Exp2(8 * |f|));
    LEInjective(Advance(f, 0), f);
  }

  lemma AdvanceOne(f: seq<u8>, k: nat)
    ensures Increment(Advance(f, k)) == Advance(f, k + 1)
  {
    hide LE, Exp2, Increment, ToBytes;
    var a, e := Advance(f, k), Exp2(8 * |f|);
    IncrementValue(a);
    ToBytesValue(LE(f) + k, |f|);
    ToBytesValue(LE(f) + (k + 1), |f|);
    ModSucc(LE(f) + k, e);
    LEInjective(Increment(a), Advance(f, k + 1));
  }

  lemma ModSucc(x: nat, e: nat)
    requires e > 0
    ensures (x % e + 1) % e == (x + 1) % e
  {
    DivMod(x, e);
    DivMod(x % e + 1, e);
    var q, r := (x % e + 1) / e, (x % e + 1) % e;
    assert x + 1 == (x / e) * e + q * e + r;
    assert (x / e + q) * e == (x / e) * e + q * e;
    DivUnique(x + 1, e, x / e + q, r);
  }

  // ----- exclusive or -----

  function XorByte(a: u8, b: u8): u8 {
    SmallExp2();
    XorBound(a as nat, b as nat, 8);
    Xor(a as nat, b as nat) as u8
  }

  lemma XorTwice(a: u8, k: u8)
    ensures XorByte(XorByte(a, k), k) == a
  {
    XorComm(XorByte(a, k) as nat, k as nat);
    XorCancel(a as nat, k as nat);
  }

  function XorBytes(a: seq<u8>, b: seq<u8>): (r: seq<u8>)
    requires |a| == |b|
    ensures |r| == |a|
  {
    seq(|a|, i requires 0 <= i < |a| => XorByte(a[i], b[i]))
  }

  lemma {:induction false} XorSplit(x: nat, y: nat, a: nat, b: nat, n: nat)
    requires x < Exp2(n) && y < Exp2(n)
    ensures Xor(x + Exp2(n) * a, y + Exp2(n) * b) == Xor(x, y) + Exp2(n) * Xor(a, b)
    decreases n
  {
    if n == 0 {
      assert Exp2(0) == 1 && x == 0 && y == 0 && Xor(0, 0) == 0;
      hide Xor, Exp2;
      assert Exp2(0) * a == a && Exp2(0) * b == b && Exp2(0) * Xor(a, b) == Xor(a, b);
    } else {
      var e := Exp2(n - 1);
      Exp2Succ(n);
      Nonneg(e, a);
      Nonneg(e, b);
      HalfBelow(x, e);
      HalfBelow(y, e);
      hide Exp2, Xor;
      XorSplit(x / 2, y / 2, a, b, n - 1);
      SplitStep(x, y, a, b, e);
    }
  }

  lemma HalfBelow(x: nat, e: nat)
    requires x < 2 * e
    ensures x / 2 < e
  { }

  lemma SplitStep(x: nat, y: nat, a: nat, b: nat, e: nat)
    requires e * a >= 0 && e * b >= 0 && Xor(x / 2 + e * a, y / 2 + e * b) == Xor(x / 2, y / 2) + e * Xor(a, b)
    ensures (2 * e) * a >= 0 && (2 * e) * b >= 0 && Xor(x + (2 * e) * a, y + (2 * e) * b)
            == Xor(x, y) + (2 * e) * Xor(a, b)
  {
    hide Xor;
    HalfSplit(x, e, a);
    HalfSplit(y, e, b);
    XorHalf(x + (2 * e) * a, y + (2 * e) * b);
    XorHalf(x, y);
    HalfSplit(0, e, Xor(a, b));
  }

  lemma HalfSplit(x: nat, e: nat, a: nat)
    ensures (2 * e) * a == 2 * (e * a) && e * a >= 0
    ensures (x + (2 * e) * a) % 2 == x % 2 && (x + (2 * e) * a) / 2 == x / 2 + e * a
  {
    Nonneg(e, a);
    TwiceProduct(e, a);
    HalfPlus(x, e * a);
  }

  lemma TwiceProduct(e: nat, a: nat)
    ensures (2 * e) * a == 2 * (e * a)
  { }

  lemma HalfPlus(x: nat, k: nat)
    ensures (x + 2 * k) % 2 == x % 2 && (x + 2 * k) / 2 == x / 2 + k
  { }

  /** A word-wide exclusive or is the exclusive or of its bytes. */
  lemma {:induction false} XorWords(a: seq<u8>, b: seq<u8>)
    requires |a| == |b|
    ensures Xor(LE(a), LE(b)) == LE(XorBytes(a, b))
  {
    if a != [] {
      XorWords(a[1..], b[1..]);
      SmallExp2();
      XorSplit(a[0] as nat, b[0] as nat, LE(a[1..]), LE(b[1..]), 8);
      assert XorBytes(a, b)[1..] == XorBytes(a[1..], b[1..]);
      hide Xor, Exp2;
    } else {
      assert Xor(0, 0) == 0;
    }
  }

  /** Loading two words, combining and storing them. */
  lemma WordXor(a: seq<u8>, b: seq<u8>)
    requires |a| == |b|
    ensures ToBytes(Xor(LE(a), LE(b)), |a|) == XorBytes(a, b)
  {
    hide LE, Xor, ToBytes, XorBytes, Exp2;
    XorWords(a, b);
    ToBytesValue(Xor(LE(a), LE(b)), |a|);
    LEBound(XorBytes(a, b));
    SmallMod(LE(XorBytes(a, b)), Exp2(8 * |a|));
    LEInjective(ToBytes(Xor(LE(a), LE(b)), |a|), XorBytes(a, b));
  }
}
