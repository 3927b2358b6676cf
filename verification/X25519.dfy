/** The X25519 function of section 5 of RFC 7748, over the field and over bytes. */
module X25519 {
  import opened Machine
  import opened Field25519
  import opened Bits

  const A24: Fe := 121665

  /** decodeUCoordinate: the top bit of the last byte is ignored. */
  function DecodeU(b: seq<u8>): Fe
    requires |b| == 32
  {
    Red(LE(b) % (P + 19))
  }

  /** decodeScalar25519: clear the low three bits and bit 255, set bit 254. */
  function Clamp(s: seq<u8>): (e: seq<u8>)
    requires |s| == 32
    ensures |e| == 32
  {
    s[0 := s[0] - s[0] % 8][31 := s[31] % 64 + 64]
  }

  /** The three masking assignments with which both implementations clamp. */
  method ClampScalar(secret: seq<u8>) returns (e: seq<u8>)
    requires |secret| == 32
    ensures e == Clamp(secret)
  {
    hide And, Or;
    And248(secret[0] as nat);
    And127Or64(secret[31] as nat);
    e := secret;
    e := e[0 := And(248, e[0] as nat) as u8];
    e := e[31 := And(127, e[31] as nat) as u8];
    e := e[31 := Or(e[31] as nat, 64) as u8];
  }

  // ----- the Montgomery ladder -----

  datatype Ladder = Ladder(x2: Fe, z2: Fe, x3: Fe, z3: Fe)

  function CSwap(bit: nat, st: Ladder): Ladder {
    if bit == 0 then st else Ladder(st.x3, st.z3, st.x2, st.z2)
  }

  /** One doubling and one differential addition, variable by variable as in the RFC. */
  function Step(u: Fe, st: Ladder): Ladder {
    var a := Add(st.x2, st.z2);
    var aa := Sqr(a);
    var b := Sub(st.x2, st.z2);
    var bb := Sqr(b);
    var e := Sub(aa, bb);
    var c := Add(st.x3, st.z3);
    var d := Sub(st.x3, st.z3);
    var da := Mul(d, a);
    var cb := Mul(c, b);
    Ladder(Mul(aa, bb), Mul(e, Add(aa, Mul(A24, e))), Sqr(Add(da, cb)), Mul(u, Sqr(Sub(da, cb))))
  }

  /** The ladder step in the order in which both fmonty functions multiply. */
  lemma StepByCode(u: Fe, x: Fe, z: Fe, x': Fe, z': Fe)
    ensures
      var cb, da := Mul(Add(x', z'), Sub(x, z)), Mul(Add(x, z), Sub(x', z'));
      var aa, bb := Sqr(Add(x, z)), Sqr(Sub(x, z));
      var e := Sub(aa, bb);
      Step(u, Ladder(x, z, x', z')) ==
      Ladder(Mul(aa, bb), Mul(e, Add(Mul(e, A24), aa)), Sqr(Add(cb, da)), Mul(Sqr(Sub(cb, da)), u))
  {
    hide Red;
    var cb, da := Mul(Add(x', z'), Sub(x, z)), Mul(Add(x, z), Sub(x', z'));
    MulComm(Sub(x', z'), Add(x, z));
    SqrSub(cb, da);
    MulComm(Sqr(Sub(cb, da)), u);
    MulComm(A24, Sub(Sqr(Add(x, z)), Sqr(Sub(x, z))));
  }

  /** A step with the swap undone straight after it. */
  function LadderBit(bit: nat, u: Fe, st: Ladder): Ladder {
    CSwap(bit, Step(u, CSwap(bit, st)))
  }

  /** Processes bits t-1 down to 0 of k. */
  function Run(u: Fe, k: nat, t: nat, st: Ladder): Ladder {
    if t == 0 then st else Run(u, k, t - 1, LadderBit(Bit(k, t - 1), u, st))
  }

  lemma RunUnfold(u: Fe, k: nat, t: nat, st: Ladder)
    ensures Run(u, k, 0, st) == st
    ensures t > 0 ==> Run(u, k, t, st) == Run(u, k, t - 1, LadderBit(Bit(k, t - 1), u, st))
  { }

  function Start(u: Fe): Ladder { Ladder(1, 0, u, 1) }

  function Affine(st: Ladder): Fe { Mul(st.x2, Pow(st.z2, P - 2)) }

  /** What both implementations compute: a 256-bit ladder, then x2 * z2^(P-2). */
  function Scalarmult(k: nat, u: Fe): Fe { Affine(Run(u, k, 256, Start(u))) }

  /** The number encoded by the output bytes for a secret and a base point. */
  function Curve25519(secret: seq<u8>, basepoint: seq<u8>): Fe
    requires |secret| == 32 && |basepoint| == 32
  {
    Scalarmult(LE(Clamp(secret)), DecodeU(basepoint))
  }

  lemma SmallPowers(v: Fe)
    ensures Mul(Squarings(Sqr(v), 2), v) == Pow(v, 9)
    ensures Mul(Pow(v, 9), Sqr(v)) == Pow(v, 11)
    ensures Mul(Sqr(Pow(v, 11)), Pow(v, 9)) == Rep(v, 5)
  {
    SmallExp2();
    hide Mul, Exp2;
    PowSqr(v);
    SquaringsPow(Sqr(v), 2);
    PowMul(v, 2, 4);
    PowAdd(v, 8, 1);
    PowAdd(v, 9, 2);
    PowSqr(Pow(v, 11));
    PowMul(v, 11, 2);
    PowAdd(v, 22, 9);
  }

  /** x^(2^m - 1), the shape of the intermediate powers of the inversion chains. */
  function Rep(x: Fe, m: nat): Fe
  {
    Exp2Positive(m);
    Pow(x, Exp2(m) - 1)
  }

  /** n squarings in a row */
  function Squarings(x: Fe, n: nat): Fe {
    if n == 0 then x else Sqr(Squarings(x, n - 1))
  }

  lemma SquaringsTwo(x: Fe, n: nat)
    ensures Squarings(x, 0) == x && Squarings(x, 1) == Sqr(x) && Squarings(x, n + 2) == Sqr(Sqr(Squarings(x, n)))
  { }

  lemma {:induction false} SquaringsPow(x: Fe, n: nat)
    ensures Squarings(x, n) == Pow(x, Exp2(n))
  {
    hide Mul;
    if n == 0 {
      PowSqr(x);
    } else {
      SquaringsPow(x, n - 1);
      PowSqr(Pow(x, Exp2(n - 1)));
      PowMul(x, Exp2(n - 1), 2);
    }
  }

  /** One link of an inversion chain: (2^m - 1) * 2^n + (2^n - 1) = 2^(m+n) - 1. */
  lemma ChainStep(x: Fe, m: nat, n: nat)
    ensures Mul(Squarings(Rep(x, m), n), Rep(x, n)) == Rep(x, m + n)
  {
    hide Pow, Mul, Squarings;
    var a, b := Exp2(m), Exp2(n);
    Exp2Positive(m);
    Exp2Positive(n);
    Exp2Add(m, n);
    hide Exp2;
    SquaringsPow(Rep(x, m), n);
    PowMul(x, a - 1, b);
    PowAdd(x, (a - 1) * b, b - 1);
    assert (a - 1) * b + (b - 1) == a * b - 1;
  }

  /** The last link, with n = 250: (2^n - 1) * 2^5 + 11 = 2^255 - 21. */
  lemma LastStep(x: Fe, n: nat)
    requires 32 * Exp2(n) == P + 19
    ensures Mul(Squarings(Rep(x, n), 5), Pow(x, 11)) == Pow(x, P - 2)
  {
    SmallExp2();
    hide Pow, Mul, Squarings, Exp2;
    SquaringsPow(Rep(x, n), 5);
    PowMul(x, Exp2(n) - 1, 32);
    PowAdd(x, (Exp2(n) - 1) * 32, 11);
  }

  lemma Exp2Top(a: nat)
    requires Exp2(a) == 32
    ensures 32 * Exp2(50 * a) == P + 19
  {
    hide Exp2;
    Exp2Add(a, a);
    Exp2Add(2 * a, a);
    Exp2Add(3 * a, 3 * a);
    Exp2Add(6 * a, 6 * a);
    Exp2Add(12 * a, 12 * a);
    Exp2Add(24 * a, a);
    Exp2Add(25 * a, 25 * a);
  }

  lemma FinalPower(x: Fe)
    ensures Mul(Squarings(Rep(x, 250), 5), Pow(x, 11)) == Pow(x, P - 2)
  {
    hide Pow, Mul, Squarings, Rep;
    SmallExp2();
    Exp2Top(5);
    LastStep(x, 250);
  }

  // ----- the RFC's own loop: 255 bits and a pending swap -----

  datatype Lazy = Lazy(st: Ladder, swap: nat)

  function RfcRun(u: Fe, k: nat, t: nat, s: Lazy): Lazy {
    if t == 0 then s
    else
      var kt := Bit(k, t - 1);
      RfcRun(u, k, t - 1, Lazy(Step(u, CSwap((s.swap + kt) % 2, s.st)), kt))
  }

  function RfcX25519(k: nat, u: Fe): Fe {
    var s := RfcRun(u, k, 255, Lazy(Start(u), 0));
    Affine(CSwap(s.swap, s.st))
  }

  /** Delaying each swap into the next iteration does not change the ladder. */
  lemma {:induction false} LazySwap(u: Fe, k: nat, t: nat, s: Lazy)
    requires s.swap < 2
    ensures
      var r := RfcRun(u, k, t, s);
      CSwap(r.swap, r.st) == Run(u, k, t, CSwap(s.swap, s.st))
    decreases t
  {
    hide Step, Bit;
    if t > 0 {
      var kt := Bit(k, t - 1);
      var next := Lazy(Step(u, CSwap((s.swap + kt) % 2, s.st)), kt);
      LazySwap(u, k, t - 1, next);
      assert CSwap(kt, CSwap(s.swap, s.st)) == CSwap((s.swap + kt) % 2, s.st);
    }
  }

  // ----- homogeneity -----

  function Scale(st: Ladder, a: Fe, b: Fe): Ladder {
    Ladder(Mul(a, st.x2), Mul(a, st.z2), Mul(b, st.x3), Mul(b, st.z3))
  }

  lemma SqrMul(a: Fe, b: Fe)
    ensures Sqr(Mul(a, b)) == Mul(Sqr(a), Sqr(b))
  {
    MulSwap(a, b, a, b);
  }

  lemma ScaleDouble(a: Fe, x: Fe, z: Fe)
    ensures
      var aa, bb := Sqr(Add(x, z)), Sqr(Sub(x, z));
      var aa', bb' := Sqr(Add(Mul(a, x), Mul(a, z))), Sqr(Sub(Mul(a, x), Mul(a, z)));
      && aa' == Mul(Sqr(a), aa) && bb' == Mul(Sqr(a), bb)
      && Mul(aa', bb') == Mul(Sqr(Sqr(a)), Mul(aa, bb))
      && Mul(Sub(aa', bb'), Add(aa', Mul(A24, Sub(aa', bb')))) ==
         Mul(Sqr(Sqr(a)), Mul(Sub(aa, bb), Add(aa, Mul(A24, Sub(aa, bb)))))
  {
    var aa, bb, s := Sqr(Add(x, z)), Sqr(Sub(x, z)), Sqr(a);
    MulDistrib(a, x, z);
    SqrMul(a, Add(x, z));
    SqrMul(a, Sub(x, z));
    MulSwap(s, aa, s, bb);
    var e := Sub(aa, bb);
    MulDistrib(s, aa, bb);
    MulLeftComm(A24, s, e);
    MulDistrib(s, aa, Mul(A24, e));
    MulSwap(s, e, s, Add(aa, Mul(A24, e)));
  }

  lemma MulLeftComm(a: Fe, b: Fe, c: Fe)
    ensures Mul(a, Mul(b, c)) == Mul(b, Mul(a, c))
  {
    MulAssoc(a, b, c);
    MulComm(a, b);
    MulAssoc(b, a, c);
  }

  lemma ScaleAdd(u: Fe, a: Fe, b: Fe, x2: Fe, z2: Fe, x3: Fe, z3: Fe)
    ensures
      var da, cb := Mul(Sub(x3, z3), Add(x2, z2)), Mul(Add(x3, z3), Sub(x2, z2));
      var da' := Mul(Sub(Mul(b, x3), Mul(b, z3)), Add(Mul(a, x2), Mul(a, z2)));
      var cb' := Mul(Add(Mul(b, x3), Mul(b, z3)), Sub(Mul(a, x2), Mul(a, z2)));
      && Sqr(Add(da', cb')) == Mul(Sqr(Mul(b, a)), Sqr(Add(da, cb)))
      && Mul(u, Sqr(Sub(da', cb'))) == Mul(Sqr(Mul(b, a)), Mul(u, Sqr(Sub(da, cb))))
  {
    var da, cb := Mul(Sub(x3, z3), Add(x2, z2)), Mul(Add(x3, z3), Sub(x2, z2));
    var s := Mul(b, a);
    MulDistrib(a, x2, z2);
    MulDistrib(b, x3, z3);
    MulSwap(b, Sub(x3, z3), a, Add(x2, z2));
    MulSwap(b, Add(x3, z3), a, Sub(x2, z2));
    MulDistrib(s, da, cb);
    SqrMul(s, Add(da, cb));
    SqrMul(s, Sub(da, cb));
    MulLeftComm(u, Sqr(s), Sqr(Sub(da, cb)));
  }

  /** Step is homogeneous: of degree 4 in the doubled point and (2, 2) in the added one. */
  lemma StepScale(u: Fe, st: Ladder, a: Fe, b: Fe)
    ensures Step(u, Scale(st, a, b)) == Scale(Step(u, st), Sqr(Sqr(a)), Sqr(Mul(b, a)))
  {
    ScaleDouble(a, st.x2, st.z2);
    ScaleAdd(u, a, b, st.x2, st.z2, st.x3, st.z3);
  }

  lemma StepScalePow(u: Fe, st: Ladder, s: Fe, i: nat, j: nat)
    ensures Step(u, Scale(st, Pow(s, i), Pow(s, j))) == Scale(Step(u, st), Pow(s, 4 * i), Pow(s, 2 * (j + i)))
  {
    hide Step, Scale, Pow, Mul;
    StepScale(u, st, Pow(s, i), Pow(s, j));
    PowAdd(s, i, i);
    PowAdd(s, 2 * i, 2 * i);
    PowAdd(s, j, i);
    PowAdd(s, j + i, j + i);
  }

  lemma CSwapScale(bit: nat, st: Ladder, a: Fe, b: Fe)
    ensures CSwap(bit, Scale(st, a, b)) == if bit == 0 then Scale(st, a, b) else Scale(CSwap(bit, st), b, a)
  { }

  lemma LadderBitScale(bit: nat, u: Fe, st: Ladder, s: Fe, m: nat, n: nat) returns (e: nat, f: nat)
    ensures LadderBit(bit, u, Scale(st, Pow(s, m), Pow(s, n))) == Scale(LadderBit(bit, u, st), Pow(s, e), Pow(s, f))
  {
    hide Step, Scale, Pow;
    CSwapScale(bit, st, Pow(s, m), Pow(s, n));
    if bit == 0 {
      StepScalePow(u, st, s, m, n);
      e, f := 4 * m, 2 * (n + m);
    } else {
      StepScalePow(u, CSwap(bit, st), s, n, m);
      e, f := 2 * (m + n), 4 * n;
      CSwapScale(bit, Step(u, CSwap(bit, st)), Pow(s, f), Pow(s, e));
    }
  }

  /** Scaling both points by powers of s scales the result of a whole run by powers of s. */
  lemma {:induction false} RunScale(u: Fe, k: nat, t: nat, st: Ladder, s: Fe, m: nat, n: nat) returns (e: nat, f: nat)
    ensures Run(u, k, t, Scale(st, Pow(s, m), Pow(s, n))) == Scale(Run(u, k, t, st), Pow(s, e), Pow(s, f))
    decreases t
  {
    hide LadderBit, Scale, Pow, Bit;
    if t == 0 {
      e, f := m, n;
    } else {
      e, f := LadderBitScale(Bit(k, t - 1), u, st, s, m, n);
      e, f := RunScale(u, k, t - 1, LadderBit(Bit(k, t - 1), u, st), s, e, f);
    }
  }

  lemma LeadingZeroX(u: Fe)
    ensures Sqr(Add(Sub(u, 1), Add(u, 1))) == Mul(Red(4 * u), u)
  {
    hide Mul, Add, Sub, Red;
    SubIsDifference(u, 1);
    AddIsSum(u, 1);
    RedAdd(u - 1, u + 1);
    assert u - 1 + (u + 1) == 2 * u;
    RedMul(2 * u, 2 * u);
    MulRed(4 * u, u);
    assert (2 * u) * (2 * u) == (4 * u) * u;
  }

  lemma LeadingZeroZ(u: Fe)
    ensures Mul(u, Sqr(Sub(Sub(u, 1), Add(u, 1)))) == Red(4 * u)
  {
    hide Mul, Add, Sub;
    SubIsDifference(u, 1);
    AddIsSum(u, 1);
    RedSub(u - 1, u + 1);
    assert u - 1 - (u + 1) == -2;
    RedMul(-2, -2);
    SmallRed(4);
    MulIsProduct(u, 4);
  }

  /** A leading zero bit leaves (1 : 0) alone and turns (u : 1) into (4u^2 : 4u). */
  lemma LeadingZero(u: Fe)
    ensures LadderBit(0, u, Start(u)) == Scale(Start(u), 1, Red(4 * u))
  {
    hide Mul;
    LeadingZeroX(u);
    LeadingZeroZ(u);
    MulOne(Sub(u, 1));
    MulOne(Add(u, 1));
    MulOne(Red(4 * u));
    hide Red;
    assert Step(u, Start(u)).x2 == 1 && Step(u, Start(u)).z2 == 0 by {
      StepInfinity(u, u, 1, 0, 1);
    }
    MulOne(1);
    assert Mul(1, 0) == 0 && Add(1, 0) == 1 && Sub(1, 0) == 1 by {
      MulOne(0);
      OneZero();
    }
  }

  lemma OneZero()
    ensures Add(1, 0) == 1 && Sub(1, 0) == 1
  { }

  /** Doubling the point at infinity (1 : 0) gives it back. */
  lemma StepInfinity(u: Fe, x3: Fe, z3: Fe, o: Fe, i: Fe)
    requires o == 0 && i == 1
    ensures Step(u, Ladder(i, o, x3, z3)).x2 == i && Step(u, Ladder(i, o, x3, z3)).z2 == o
  {
    hide Add, Sub, Mul;
    UnitTable(o, i);
    MulZero(Add(i, Mul(A24, o)));
  }

  /** The states a ladder for u = 0 can be in between two bits. */
  predicate ZeroState(st: Ladder) {
    st == Ladder(1, 0, 0, 1) || st == Ladder(1, 0, 0, 0) || st == Ladder(0, 0, 1, 0) || st == Ladder(0, 0, 0, 0)
  }

  lemma MulZero(x: Fe)
    ensures Mul(0, x) == 0 && Mul(x, 0) == 0
  {
    hide Mul;
    MulIsProduct(0, x);
    MulIsProduct(x, 0);
  }

  /** The values of 0 and 1 are passed as variables: the verifier would otherwise compute with them. */
  lemma UnitTable(o: Fe, i: Fe)
    requires o == 0 && i == 1
    ensures Add(o, o) == o && Add(i, o) == i && Add(o, i) == i
    ensures Sub(o, o) == o && Sub(i, o) == i && Sub(i, i) == o
    ensures Red(0) == o && Red(1) == i && Mul(i, i) == i
  {
    hide Red, Mul;
    SmallRed(o);
    SmallRed(i);
    MulOne(i);
  }

  lemma MinusOne(o: Fe, i: Fe, m: Fe)
    requires o == 0 && i == 1 && m == Sub(o, i)
    ensures Add(m, i) == o && Add(i, m) == o && Sqr(m) == i && Mul(m, i) == m && Mul(i, m) == m
  {
    hide Mul;
    assert Sqr(m) == i by {
      SqrSub(o, i);
      UnitTable(o, i);
    }
    assert Mul(m, i) == m && Mul(i, m) == m by {
      MulOne(m);
    }
    assert m == P - 1;
  }

  lemma StepZero(o: Fe, i: Fe)
    requires o == 0 && i == 1
    ensures Step(o, Ladder(i, o, o, i)) == Ladder(i, o, o, o)
    ensures Step(o, Ladder(o, i, i, o)) == Ladder(i, o, o, o)
    ensures Step(o, Ladder(i, o, o, o)) == Ladder(i, o, o, o)
    ensures Step(o, Ladder(o, o, i, o)) == Ladder(o, o, o, o)
    ensures Step(o, Ladder(o, o, o, o)) == Ladder(o, o, o, o)
  {
    hide Add, Sub, Mul;
    UnitTable(o, i);
    MinusOne(o, i, Sub(o, i));
    forall x: Fe ensures Mul(o, x) == o && Mul(x, o) == o {
      MulZero(x);
    }
  }

  /** With u = 0 the accumulated point always has z = 0. */
  lemma {:induction false} RunZero(k: nat, t: nat, st: Ladder)
    requires ZeroState(st)
    ensures Run(0, k, t, st).z2 == 0
    decreases t
  {
    hide Step, Bit;
    if t > 0 {
      StepZero(0, 1);
      RunZero(k, t - 1, LadderBit(Bit(k, t - 1), 0, st));
    }
  }

  /** Fermat's little theorem for P; true because P is prime. */
  ghost predicate Fermat() {
    forall s: Fe :: s != 0 ==> FermatAt(s)
  }

  ghost predicate FermatAt(s: Fe) {
    Pow(s, P - 1) == 1
  }

  lemma AffineScale(st: Ladder, s: Fe, e: nat, f: nat)
    requires Fermat() && s != 0
    ensures Affine(Scale(st, Pow(s, e), Pow(s, f))) == Affine(st)
  {
    hide Mul;
    var a := Pow(s, e);
    assert FermatAt(s);
    PowOfMul(a, st.z2, P - 2);
    MulSwap(a, st.x2, Pow(a, P - 2), Pow(st.z2, P - 2));
    assert Mul(a, Pow(a, P - 2)) == Pow(a, P - 1);
    PowMul(s, e, P - 1);
    PowMul(s, P - 1, e);
    assert e * (P - 1) == (P - 1) * e;
    PowOfOne(e);
    MulOne(Affine(st));
  }

  /** For u = 0 both ladder lengths give 0. */
  lemma ZeroPoint(k: nat, t: nat)
    ensures Affine(Run(0, k, t, Start(0))) == 0
  {
    hide Run, Mul;
    RunZero(k, t, Start(0));
    MulZero(Pow(0, P - 3));
    assert Pow(0, P - 2) == Mul(0, Pow(0, P - 3));
    MulZero(Run(0, k, t, Start(0)).x2);
  }

  /** The 256-bit ladder of the implementations is the RFC's X25519 on every scalar below 2^255. */
  lemma ScalarmultIsRfc(k: nat, u: Fe)
    requires Fermat()
    requires Bit(k, 255) == 0
    ensures Scalarmult(k, u) == RfcX25519(k, u)
  {
    var s := Red(4 * u);
    FourTimes(u);
    hide LadderBit, Scale, Start, Mul, Pow, Bit, RfcRun, Red, Affine;
    LazySwap(u, k, 255, Lazy(Start(u), 0));
    if u == 0 {
      ZeroPoint(k, 255);
      ZeroPoint(k, 256);
    } else {
      LeadingZero(u);
      assert Run(u, k, 256, Start(u)) == Run(u, k, 255, LadderBit(0, u, Start(u)));
      hide Run;
      PowSqr(s);
      assert Pow(s, 0) == 1 by { PowZero(s); }
      var e, f := RunScale(u, k, 255, Start(u), s, 0, 1);
      AffineScale(Run(u, k, 255, Start(u)), s, e, f);
    }
  }

  lemma FourTimes(u: Fe)
    ensures Red(4 * u) == 0 ==> u == 0
  {
    var j := 4 * u / P;
    assert 4 * u == j * P + Red(4 * u);
    assert j == 0 || j == 1 || j == 2 || j == 3;
  }

  lemma PowZero(s: Fe)
    ensures Pow(s, 0) == 1
  { }
}
