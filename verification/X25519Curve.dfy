/** The curve of the ladder, v^2 = u^3 + 486662 u^2 + u: the ladder step in libjl777/curve25519-donna.c is its group
    law on the coordinate u, and a whole run counts multiples of the base point. */
module X25519Curve {
  import Machine
  import opened Field25519
  import opened Bits
  import opened X25519

  // ----- residues of sums and products -----

  lemma Ring(a: Fe, b: Fe, x: int, y: int)
    requires a == Red(x) && b == Red(y)
    ensures Add(a, b) == Red(x + y) && Sub(a, b) == Red(x - y) && Mul(a, b) == Red(x * y)
  {
    hide Red, Mul, Add, Sub;
    RedAdd(x, y);
    RedSub(x, y);
    RedMul(x, y);
  }

  // ----- the step -----

  /** The double of (x : z). */
  function Doubled(x: Fe, z: Fe): (Fe, Fe) {
    var xz, xx, zz := Mul(x, z), Sqr(x), Sqr(z);
    (Sqr(Sub(xx, zz)), Mul(4, Mul(xz, Add(Add(xx, Mul(486662, xz)), zz))))
  }

  /** The sum of (x : z) and (x' : z'), whose difference has the coordinate u. */
  function Added(u: Fe, x: Fe, z: Fe, x': Fe, z': Fe): (Fe, Fe) {
    (Mul(4, Sqr(Sub(Mul(x, x'), Mul(z, z')))), Mul(4, Mul(u, Sqr(Sub(Mul(x', z), Mul(z', x))))))
  }

  lemma DoubledX(x: Fe, z: Fe)
    ensures Doubled(x, z).0 == Red((x * x - z * z) * (x * x - z * z))
  {
    hide Red, Mul, Sub, Add;
    SmallRed(x);
    SmallRed(z);
    Ring(x, x, x, x);
    Ring(z, z, z, z);
    Ring(Sqr(x), Sqr(z), x * x, z * z);
    var d := Sub(Sqr(x), Sqr(z));
    Ring(d, d, x * x - z * z, x * x - z * z);
  }

  lemma DoubledZ(x: Fe, z: Fe)
    ensures Doubled(x, z).1 == Red(4 * x * z * (x * x + 486662 * x * z + z * z))
  {
    hide Red, Mul, Sub, Add;
    SmallRed(x);
    SmallRed(z);
    SmallRed(4);
    SmallRed(486662);
    Ring(x, x, x, x);
    Ring(z, z, z, z);
    Ring(x, z, x, z);
    var p := x * z;
    Ring(486662, Mul(x, z), 486662, p);
    Ring(Sqr(x), Mul(486662, Mul(x, z)), x * x, 486662 * p);
    var f := Add(Sqr(x), Mul(486662, Mul(x, z)));
    Ring(f, Sqr(z), x * x + 486662 * p, z * z);
    Ring(Mul(x, z), Add(f, Sqr(z)), p, x * x + 486662 * p + z * z);
    Ring(4, Mul(Mul(x, z), Add(f, Sqr(z))), 4, p * (x * x + 486662 * p + z * z));
    assert 486662 * x * z == 486662 * p;
    Regrouped(x, z, x * x + 486662 * p + z * z);
  }

  lemma Regrouped(x: int, z: int, f: int)
    ensures 4 * x * z * f == 4 * ((x * z) * f)
  { }

  lemma AddedX(u: Fe, x: Fe, z: Fe, x': Fe, z': Fe)
    ensures Added(u, x, z, x', z').0 == Red(4 * ((x * x' - z * z') * (x * x' - z * z')))
  {
    hide Red, Mul, Sub, Add;
    SmallRed(x);
    SmallRed(z);
    SmallRed(x');
    SmallRed(z');
    SmallRed(4);
    Ring(x, x', x, x');
    Ring(z, z', z, z');
    Ring(Mul(x, x'), Mul(z, z'), x * x', z * z');
    var d, e := Sub(Mul(x, x'), Mul(z, z')), x * x' - z * z';
    Ring(d, d, e, e);
    Ring(4, Sqr(d), 4, e * e);
  }

  lemma AddedZ(u: Fe, x: Fe, z: Fe, x': Fe, z': Fe)
    ensures Added(u, x, z, x', z').1 == Red(4 * (u * ((x' * z - z' * x) * (x' * z - z' * x))))
  {
    hide Red, Mul, Sub, Add;
    SmallRed(u);
    SmallRed(x);
    SmallRed(z);
    SmallRed(x');
    SmallRed(z');
    SmallRed(4);
    Ring(x', z, x', z);
    Ring(z', x, z', x);
    Ring(Mul(x', z), Mul(z', x), x' * z, z' * x);
    var d, e := Sub(Mul(x', z), Mul(z', x)), x' * z - z' * x;
    Ring(d, d, e, e);
    Ring(u, Sqr(d), u, e * e);
    Ring(4, Mul(u, Sqr(d)), 4, u * (e * e));
  }

  lemma SqrOfSum(x: Fe, z: Fe)
    ensures Sqr(Add(x, z)) == Red((x + z) * (x + z)) && Sqr(Sub(x, z)) == Red((x - z) * (x - z))
  {
    hide Red, Mul, Add, Sub;
    SmallRed(x);
    SmallRed(z);
    Ring(x, z, x, z);
    Ring(Add(x, z), Add(x, z), x + z, x + z);
    Ring(Sub(x, z), Sub(x, z), x - z, x - z);
  }

  lemma SumTimesDifference(x: int, z: int)
    ensures ((x + z) * (x + z)) * ((x - z) * (x - z)) == (x * x - z * z) * (x * x - z * z)
    ensures (x + z) * (x + z) - (x - z) * (x - z) == 4 * (x * z)
  {
    var a, b := x + z, x - z;
    assert a * b == x * x - z * z;
    assert (a * a) * (b * b) == (a * b) * (a * b);
  }

  lemma DoubleIdentity(x: int, z: int)
    ensures (4 * (x * z)) * ((x + z) * (x + z) + 121665 * (4 * (x * z))) ==
            4 * x * z * (x * x + 486662 * x * z + z * z)
  {
    var f := x * x + 486662 * (x * z) + z * z;
    assert (x + z) * (x + z) + 121665 * (4 * (x * z)) == f;
    assert x * x + 486662 * x * z + z * z == f;
    Regrouped(x, z, f);
    assert (4 * (x * z)) * f == 4 * ((x * z) * f);
  }

  /** One half of the step doubles. */
  lemma StepDoubles(u: Fe, x: Fe, z: Fe, x': Fe, z': Fe)
    ensures var st := Step(u, Ladder(x, z, x', z')); (st.x2, st.z2) == Doubled(x, z)
  {
    hide Red, Mul, Sub, Add, Doubled;
    var s, d, e := (x + z) * (x + z), (x - z) * (x - z), 4 * (x * z);
    var aa, bb := Sqr(Add(x, z)), Sqr(Sub(x, z));
    SqrOfSum(x, z);
    SumTimesDifference(x, z);
    Ring(aa, bb, s, d);
    DoubledX(x, z);
    SmallRed(121665);
    Ring(121665, Sub(aa, bb), 121665, e);
    Ring(aa, Mul(121665, Sub(aa, bb)), s, 121665 * e);
    Ring(Sub(aa, bb), Add(aa, Mul(121665, Sub(aa, bb))), e, s + 121665 * e);
    DoubledZ(x, z);
    DoubleIdentity(x, z);
  }

  lemma CrossSquares(u: int, x: int, z: int, x': int, z': int)
    ensures var da, cb := (x' - z') * (x + z), (x' + z') * (x - z);
            var p, q := x * x' - z * z', x' * z - z' * x;
            (da + cb) * (da + cb) == 4 * (p * p) && u * ((da - cb) * (da - cb)) == 4 * (u * (q * q))
  {
    var da, cb := (x' - z') * (x + z), (x' + z') * (x - z);
    var p, q := x * x' - z * z', x' * z - z' * x;
    assert da + cb == 2 * p && da - cb == 2 * q;
    assert (2 * p) * (2 * p) == 4 * (p * p) && u * ((2 * q) * (2 * q)) == 4 * (u * (q * q));
  }

  /** The other half adds. */
  lemma StepAdds(u: Fe, x: Fe, z: Fe, x': Fe, z': Fe)
    ensures var st := Step(u, Ladder(x, z, x', z')); (st.x3, st.z3) == Added(u, x, z, x', z')
  {
    hide Red, Mul, Sub, Add, Added;
    var da, cb := (x' - z') * (x + z), (x' + z') * (x - z);
    SmallRed(u);
    SmallRed(x);
    SmallRed(z);
    SmallRed(x');
    SmallRed(z');
    Ring(x, z, x, z);
    Ring(x', z', x', z');
    Ring(Sub(x', z'), Add(x, z), x' - z', x + z);
    Ring(Add(x', z'), Sub(x, z), x' + z', x - z);
    var a, b := Mul(Sub(x', z'), Add(x, z)), Mul(Add(x', z'), Sub(x, z));
    Ring(a, b, da, cb);
    Ring(Add(a, b), Add(a, b), da + cb, da + cb);
    Ring(Sub(a, b), Sub(a, b), da - cb, da - cb);
    Ring(u, Sqr(Sub(a, b)), u, (da - cb) * (da - cb));
    CrossSquares(u, x, z, x', z');
    AddedX(u, x, z, x', z');
    AddedZ(u, x, z, x', z');
  }

  // ----- the step is the group law -----

  /** The right side of the curve equation. */
  function Cubic(u: Fe): Fe { Add(Add(Mul(u, Sqr(u)), Mul(486662, Sqr(u))), u) }

  /** (u, v) lies on the curve. */
  predicate OnCurve(u: Fe, v: Fe) { Sqr(v) == Cubic(u) }

  lemma CubicValue(u: Fe)
    ensures Cubic(u) == Red(u * (u * u) + 486662 * (u * u) + u)
  {
    hide Red, Mul, Sub, Add;
    SmallRed(u);
    SmallRed(486662);
    Ring(u, u, u, u);
    Ring(u, Sqr(u), u, u * u);
    Ring(486662, Sqr(u), 486662, u * u);
    Ring(Mul(u, Sqr(u)), Mul(486662, Sqr(u)), u * (u * u), 486662 * (u * u));
    Ring(Add(Mul(u, Sqr(u)), Mul(486662, Sqr(u))), u, u * (u * u) + 486662 * (u * u), u);
  }

  /** The numerator of the slope of the tangent at (u, v); its denominator is 2v. */
  function Slope(u: Fe): Fe { Add(Add(Mul(3, Sqr(u)), Mul(973324, u)), 1) }

  lemma SlopeValue(u: Fe)
    ensures Slope(u) == Red(3 * (u * u) + 973324 * u + 1)
  {
    hide Red, Mul, Sub, Add;
    SmallRed(u);
    SmallRed(3);
    SmallRed(973324);
    SmallRed(1);
    Ring(u, u, u, u);
    Ring(3, Sqr(u), 3, u * u);
    Ring(973324, u, 973324, u);
    Ring(Mul(3, Sqr(u)), Mul(973324, u), 3 * (u * u), 973324 * u);
    Ring(Add(Mul(3, Sqr(u)), Mul(973324, u)), 1, 3 * (u * u) + 973324 * u, 1);
  }

  lemma TangentIdentity(u: int)
    ensures var slope, c := 3 * (u * u) + 973324 * u + 1, u * (u * u) + 486662 * (u * u) + u;
            && slope * slope - (486662 + (u + u)) * (4 * c) == (u * u - 1 * 1) * (u * u - 1 * 1)
            && 4 * c == 4 * u * 1 * (u * u + 486662 * u * 1 + 1 * 1)
  { }

  /** Doubling (u, v) gives the point where the tangent meets the curve again, slope^2 - 486662 - 2u, written with
      the denominator (2v)^2. */
  lemma DoublingIsTangent(u: Fe, v: Fe)
    requires OnCurve(u, v)
    ensures Doubled(u, 1).1 == Mul(4, Sqr(v))
    ensures Doubled(u, 1).0 == Sub(Sqr(Slope(u)), Mul(Add(486662, Add(u, u)), Mul(4, Sqr(v))))
  {
    hide Red, Mul, Sub, Add, Doubled, Slope, Cubic;
    var slope, c := 3 * (u * u) + 973324 * u + 1, u * (u * u) + 486662 * (u * u) + u;
    TangentIdentity(u);
    DoubledX(u, 1);
    DoubledZ(u, 1);
    CubicValue(u);
    SlopeValue(u);
    SmallRed(u);
    SmallRed(4);
    SmallRed(486662);
    Ring(4, Cubic(u), 4, c);
    Ring(u, u, u, u);
    Ring(486662, Add(u, u), 486662, u + u);
    Ring(Add(486662, Add(u, u)), Mul(4, Cubic(u)), 486662 + (u + u), 4 * c);
    Ring(Slope(u), Slope(u), slope, slope);
    Ring(Sqr(Slope(u)), Mul(Add(486662, Add(u, u)), Mul(4, Cubic(u))), slope * slope, (486662 + (u + u)) * (4 * c));
  }

  // ----- two points -----

  /** (486662 + u + u') (u - u')^2 */
  function Offset(u: Fe, u': Fe): Fe { Mul(Add(486662, Add(u, u')), Sqr(Sub(u, u'))) }

  /** The lines through (u, v) and (u', v'), and through (u, v) and (u', -v'), meet the curve again in the sum and in
      the difference of both points; these are their coordinates times (u - u')^2. */
  function SumTimes(u: Fe, v: Fe, u': Fe, v': Fe): Fe { Sub(Sqr(Sub(v, v')), Offset(u, u')) }

  function DifferenceTimes(u: Fe, v: Fe, u': Fe, v': Fe): Fe { Sub(Sqr(Add(v, v')), Offset(u, u')) }

  lemma ChordProduct(v: int, v': int, c: int)
    ensures ((v - v') * (v - v') - c) * ((v + v') * (v + v') - c) ==
            (v * v + v' * v' - c) * (v * v + v' * v' - c) - 4 * ((v * v) * (v' * v'))
  {
    var a, b := v * v + v' * v' - c, 2 * (v * v');
    assert (v - v') * (v - v') - c == a - b && (v + v') * (v + v') - c == a + b;
    assert (a - b) * (a + b) == a * a - b * b;
    assert b * b == 4 * ((v * v) * (v' * v'));
  }

  /** With V = v^2 and V' = v'^2 the product of both is (V + V' - c)^2 - 4VV'. */
  lemma FieldChord(v: Fe, v': Fe, c: Fe)
    ensures Mul(Sub(Sqr(Sub(v, v')), c), Sub(Sqr(Add(v, v')), c)) == Discriminant(Sqr(v), Sqr(v'), c)
  {
    hide Red, Mul, Sub, Add, Discriminant;
    SmallRed(v);
    SmallRed(v');
    SmallRed(c);
    SqrOfSum(v, v');
    var s, d := (v + v') * (v + v'), (v - v') * (v - v');
    Ring(Sqr(Sub(v, v')), c, d, c);
    Ring(Sqr(Add(v, v')), c, s, c);
    Ring(Sub(Sqr(Sub(v, v')), c), Sub(Sqr(Add(v, v')), c), d - c, s - c);
    ChordProduct(v, v', c);
    Ring(v, v, v, v);
    Ring(v', v', v', v');
    DiscriminantValue(Sqr(v), Sqr(v'), c, v * v, v' * v', c);
  }

  function Discriminant(w: Fe, w': Fe, c: Fe): Fe { Sub(Sqr(Sub(Add(w, w'), c)), Mul(4, Mul(w, w'))) }

  lemma DiscriminantValue(w: Fe, w': Fe, c: Fe, x: int, x': int, y: int)
    requires w == Red(x) && w' == Red(x') && c == Red(y)
    ensures Discriminant(w, w', c) == Red((x + x' - y) * (x + x' - y) - 4 * (x * x'))
  {
    hide Red, Mul, Sub, Add;
    SmallRed(4);
    Ring(w, w', x, x');
    Ring(Add(w, w'), c, x + x', y);
    var m := Sub(Add(w, w'), c);
    Ring(m, m, x + x' - y, x + x' - y);
    Ring(4, Mul(w, w'), 4, x * x');
    Ring(Sqr(m), Mul(4, Mul(w, w')), (x + x' - y) * (x + x' - y), 4 * (x * x'));
  }

  function IntCubic(u: int): int { u * (u * u) + 486662 * (u * u) + u }

  lemma SquareOfDifference(u: int, u': int)
    ensures (u - u') * (u - u') == u * u - 2 * (u * u') + u' * u'
    ensures (u - u') * (u - u') == (u + u') * (u + u') - 4 * (u * u')
  { }

  lemma SumOfCubes(u: int, u': int)
    ensures (u + u') * ((u - u') * (u - u')) == u * u * u + u' * u' * u' - (u + u') * (u * u')
  { }

  lemma SumOfCubics(u: int, u': int)
    ensures var d, s, p := (u - u') * (u - u'), u + u', u * u';
            IntCubic(u) + IntCubic(u') - (486662 * d + s * d) == s * p + s + 2 * 486662 * p
  {
    hide IntCubic;
    var d, s, p := (u - u') * (u - u'), u + u', u * u';
    SquareOfDifference(u, u');
    SumOfCubes(u, u');
    CubicParts(u);
    CubicParts(u');
    SumParts(u * u * u, u' * u' * u', u * u, u' * u', u, u', p, d, s * d, s * p);
  }

  lemma CubicParts(u: int)
    ensures IntCubic(u) == u * u * u + 486662 * (u * u) + u
  { }

  lemma SumParts(c: int, c': int, q: int, q': int, u: int, u': int, p: int, d: int, sd: int, sp: int)
    requires d == q - 2 * p + q' && sd == c + c' - sp
    ensures (c + 486662 * q + u) + (c' + 486662 * q' + u') - (486662 * d + sd) == sp + (u + u') + 2 * 486662 * p
  { }

  lemma Distribute(a: int, b: int, c: int)
    ensures (a + b) * c == a * c + b * c
  { }

  /** (u^2 + Au + 1) (u'^2 + Au' + 1) in the sum s and the product p of u and u', with A = 486662. */
  function Quadratics(s: int, p: int): int {
    p * p + 486662 * (p * s) + s * s - 2 * p + 486662 * 486662 * p + 486662 * s + 1
  }

  lemma TimesQuadratic(x: int, u: int)
    ensures x * (u * u + 486662 * u + 1) == x * (u * u) + 486662 * (x * u) + x
  { }

  lemma ProductOfQuadratics(u: int, u': int)
    ensures (u * u + 486662 * u + 1) * (u' * u' + 486662 * u' + 1) == Quadratics(u + u', u * u')
  {
    var f, p := u' * u' + 486662 * u' + 1, u * u';
    TimesQuadratic(f, u);
    TimesQuadratic(u * u, u');
    TimesQuadratic(u, u');
    assert f * (u * u) == (u * u) * f && f * u == u * f;
    assert (u * u) * (u' * u') == p * p && (u * u) * u' == p * u && u * (u' * u') == p * u';
    assert p * (u + u') == p * u + p * u';
    assert (u + u') * (u + u') == u * u + 2 * p + u' * u';
  }

  lemma ProductOfCubics(u: int, u': int)
    ensures IntCubic(u) * IntCubic(u') == (u * u') * Quadratics(u + u', u * u')
  {
    hide Quadratics, Cubic;
    CubicFactor(u);
    CubicFactor(u');
    ProductOfQuadratics(u, u');
    MiddleSwap(u, u * u + 486662 * u + 1, u', u' * u' + 486662 * u' + 1);
  }

  lemma CubicFactor(u: int)
    ensures IntCubic(u) == u * (u * u + 486662 * u + 1)
  { }

  lemma MiddleSwap(a: int, b: int, c: int, d: int)
    ensures (a * b) * (c * d) == (a * c) * (b * d)
  { }

  lemma ChordAlgebra(s: int, p: int)
    ensures var m := s * p + s + 2 * 486662 * p;
            m * m - 4 * (p * Quadratics(s, p)) == (p - 1) * (p - 1) * (s * s - 4 * p)
  { }

  lemma ChordIdentity(u: int, u': int)
    ensures var d := (u - u') * (u - u');
            var m := IntCubic(u) + IntCubic(u') - (486662 * d + (u + u') * d);
            m * m - 4 * (IntCubic(u) * IntCubic(u')) == (u * u' - 1) * (u * u' - 1) * d
  {
    hide IntCubic, Quadratics;
    SquareOfDifference(u, u');
    SumOfCubics(u, u');
    ProductOfCubics(u, u');
    ChordAlgebra(u + u', u * u');
  }

  /** The coordinates of the sum and of the difference of two points multiply to (uu' - 1)^2 / (u - u')^2. */
  lemma ChordLaw(u: Fe, v: Fe, u': Fe, v': Fe)
    requires OnCurve(u, v) && OnCurve(u', v')
    ensures Mul(SumTimes(u, v, u', v'), DifferenceTimes(u, v, u', v')) ==
            Mul(Sqr(Sub(Mul(u, u'), 1)), Sqr(Sub(u, u')))
  {
    hide Red, Mul, Sub, Add, Cubic, Discriminant;
    var d := (u - u') * (u - u');
    SmallRed(u);
    SmallRed(u');
    FieldChord(v, v', Offset(u, u'));
    CubicValue(u);
    CubicValue(u');
    SmallRed(486662);
    SqrOfSum(u, u');
    Ring(u, u', u, u');
    Ring(486662, Add(u, u'), 486662, u + u');
    Ring(Add(486662, Add(u, u')), Sqr(Sub(u, u')), 486662 + (u + u'), d);
    Distribute(486662, u + u', d);
    assert Offset(u, u') == Red(486662 * d + (u + u') * d);
    DiscriminantValue(Cubic(u), Cubic(u'), Offset(u, u'), IntCubic(u), IntCubic(u'), 486662 * d + (u + u') * d);
    ChordIdentity(u, u');
    SmallRed(1);
    Ring(Mul(u, u'), 1, u * u', 1);
    var q := Sub(Mul(u, u'), 1);
    Ring(q, q, u * u' - 1, u * u' - 1);
    Ring(Sqr(q), Sqr(Sub(u, u')), (u * u' - 1) * (u * u' - 1), d);
  }

  /** Adding (u, v) and (u', v') gives the point where the line through them meets the curve again, if w is the
      coordinate of their difference. */
  lemma AdditionIsChord(w: Fe, u: Fe, v: Fe, u': Fe, v': Fe)
    requires OnCurve(u, v) && OnCurve(u', v')
    requires Mul(w, Sqr(Sub(u, u'))) == DifferenceTimes(u, v, u', v')
    ensures var (x, z) := Added(w, u, 1, u', 1);
            Mul(x, Sqr(Sub(u, u'))) == Mul(SumTimes(u, v, u', v'), z)
  {
    hide Red, Mul, Sub, Add, OnCurve, SumTimes, DifferenceTimes;
    var d, sum, diff := Sqr(Sub(u, u')), SumTimes(u, v, u', v'), DifferenceTimes(u, v, u', v');
    var q := Sqr(Sub(Mul(u, u'), 1));
    ChordLaw(u, v, u', v');
    MulOne(1);
    MulOne(u);
    MulOne(u');
    SqrSub(u', u);
    assert Added(w, u, 1, u', 1) == (Mul(4, q), Mul(4, Mul(w, d)));
    MulAssoc(4, q, d);
    MulAssoc(sum, 4, diff);
    MulComm(sum, 4);
    MulAssoc(4, sum, diff);
  }

  // ----- a run counts multiples -----

  /** rel(n, x, z) is to say that (x : z) is n times the base point: doubling and adding take such points to such
      points. */
  ghost predicate GroupLaw(u: Fe, rel: (nat, Fe, Fe) -> bool) {
    && (forall m: nat, x: Fe, z: Fe | rel(m, x, z) :: rel(2 * m, Doubled(x, z).0, Doubled(x, z).1))
    && (forall m: nat, x: Fe, z: Fe, x': Fe, z': Fe | rel(m, x, z) && rel(m + 1, x', z') ::
          rel(2 * m + 1, Added(u, x, z, x', z').0, Added(u, x, z, x', z').1))
  }

  lemma AddedCommutes(u: Fe, x: Fe, z: Fe, x': Fe, z': Fe)
    ensures Added(u, x', z', x, z) == Added(u, x, z, x', z')
  {
    hide Mul, Add, Sub;
    MulComm(x', x);
    MulComm(z', z);
    MulComm(x, z');
    MulComm(z, x');
    SqrSub(Mul(x', z), Mul(z', x));
  }

  lemma StepFollowsLaw(u: Fe, rel: (nat, Fe, Fe) -> bool, m: nat, x: Fe, z: Fe, x': Fe, z': Fe)
    requires GroupLaw(u, rel) && rel(m, x, z) && rel(m + 1, x', z')
    ensures StepRelated(u, rel, m, x, z, x', z')
  {
    hide Step, Red;
    StepDoubles(u, x, z, x', z');
    StepDoubles(u, x', z', x, z);
    StepAdds(u, x, z, x', z');
    StepAdds(u, x', z', x, z);
    AddedCommutes(u, x, z, x', z');
    hide Doubled, Added;
    assert 2 * (m + 1) == 2 * m + 2;
  }

  ghost predicate StepRelated(u: Fe, rel: (nat, Fe, Fe) -> bool, m: nat, x: Fe, z: Fe, x': Fe, z': Fe) {
    var low, high := Step(u, Ladder(x, z, x', z')), Step(u, Ladder(x', z', x, z));
    && rel(2 * m, low.x2, low.z2) && rel(2 * m + 1, low.x3, low.z3)
    && rel(2 * m + 2, high.x2, high.z2) && rel(2 * m + 1, high.x3, high.z3)
  }

  ghost predicate Consecutive(rel: (nat, Fe, Fe) -> bool, m: nat, st: Ladder) {
    rel(m, st.x2, st.z2) && rel(m + 1, st.x3, st.z3)
  }

  lemma BitCounts(u: Fe, rel: (nat, Fe, Fe) -> bool, m: nat, bit: nat, st: Ladder)
    requires GroupLaw(u, rel) && Consecutive(rel, m, st) && bit < 2
    ensures Consecutive(rel, 2 * m + bit, LadderBit(bit, u, st))
  {
    hide Step, GroupLaw;
    StepFollowsLaw(u, rel, m, st.x2, st.z2, st.x3, st.z3);
  }

  /** From m and m + 1 times the base point a run over the bits of k comes to (m 2^t + k) times the base point. */
  lemma {:induction false} RunCounts(u: Fe, rel: (nat, Fe, Fe) -> bool, k: nat, t: nat, m: nat, st: Ladder)
    requires GroupLaw(u, rel) && Consecutive(rel, m, st)
    ensures Exp2(t) > 0 && Consecutive(rel, m * Exp2(t) + k % Exp2(t), Run(u, k, t, st))
    decreases t
  {
    hide LadderBit, GroupLaw, Consecutive;
    Exp2Positive(t);
    if t == 0 {
      assert m * Exp2(0) + k % Exp2(0) == m;
    } else {
      var bit := Bit(k, t - 1);
      BitCounts(u, rel, m, bit, st);
      RunCounts(u, rel, k, t - 1, 2 * m + bit, LadderBit(bit, u, st));
      TopBitOf(k, t - 1, Exp2(t - 1), bit, m);
    }
  }

  lemma TopBitOf(k: nat, t: nat, e: nat, bit: nat, m: nat)
    requires e == Exp2(t) && e > 0 && bit == (k / e) % 2
    ensures (2 * m + bit) * e + k % e == m * (2 * e) + k % (2 * e)
  {
    hide Exp2;
    DivMod(k, e);
    Halves(k / e, bit, e, k % e);
    DivUnique(k, 2 * e, k / e / 2, bit * e + k % e);
    Distribute(2 * m, bit, e);
    assert (2 * m) * e == m * (2 * e);
  }

  lemma Halves(q: nat, bit: nat, e: nat, r: nat)
    requires bit == q % 2 && r < e
    ensures q * e + r == (q / 2) * (2 * e) + (bit * e + r) && 0 <= bit * e + r < 2 * e
  {
    var h := q / 2;
    assert q == 2 * h + bit;
    Distribute(2 * h, bit, e);
    assert (2 * h) * e == h * (2 * e);
    assert bit == 0 || bit == 1;
  }

  /** So the ladder of the implementations, from 0 and 1 times the base point, computes k times the base point. */
  lemma LadderCounts(u: Fe, rel: (nat, Fe, Fe) -> bool, k: nat, n: nat)
    requires GroupLaw(u, rel) && rel(0, 1, 0) && rel(1, u, 1) && n == 256 && k < Exp2(n)
    ensures var st := Run(u, k, n, Start(u)); rel(k, st.x2, st.z2)
  {
    hide Run, Exp2, GroupLaw;
    RunCounts(u, rel, k, n, 0, Start(u));
    DivUnique(k, Exp2(n), 0, k);
  }

  /** The result is the quotient x / z, and 0 for the point at infinity. */
  lemma AffineIsQuotient(st: Ladder)
    requires Fermat()
    ensures st.z2 != 0 ==> Mul(Affine(st), st.z2) == st.x2
    ensures st.z2 == 0 ==> Affine(st) == 0
  {
    hide Mul;
    if st.z2 == 0 {
      MulZero(Pow(0, P - 3));
      assert Pow(0, P - 2) == Mul(0, Pow(0, P - 3));
      MulZero(st.x2);
    } else {
      assert FermatAt(st.z2);
      MulAssoc(st.x2, Pow(st.z2, P - 2), st.z2);
      MulComm(Pow(st.z2, P - 2), st.z2);
      assert Pow(st.z2, P - 1) == Mul(st.z2, Pow(st.z2, P - 2));
      MulOne(st.x2);
    }
  }

  // ----- the scalar -----

  lemma ClampParts(s: seq<Machine.u8>, mid: seq<Machine.u8>, n: nat)
    requires |s| == 32 && mid == s[1..31] && n == Exp2(248)
    ensures LE(s) == s[0] as nat + 256 * LE(mid) + n * s[31] as nat && s[0] as nat + 256 * LE(mid) < n && n % 256 == 0
  {
    hide LE, Exp2;
    assert s == [s[0]] + (mid + [s[31]]);
    LEConcat([s[0]], mid + [s[31]]);
    LEConcat(mid, [s[31]]);
    LEBound(mid);
    LEOne(s[0]);
    LEOne(s[31]);
    ByteAbove(240);
    ConcatStep(s[0] as int, LE(mid), Exp2(240), s[31] as int);
  }

  lemma ByteAbove(m: nat)
    ensures Exp2(8) == 256 && Exp2(8 + m) == 256 * Exp2(m)
  {
    Exp2Add(8, m);
    SmallExp2();
  }

  lemma LEOne(b: Machine.u8)
    ensures LE([b]) == b as nat
  { }

  lemma LowBits(b: nat, m: nat, n: nat, h: nat)
    requires n % 256 == 0
    ensures (b + 256 * m + n * h) % 8 == b % 8
  {
    var q := n / 256;
    assert n * h == 256 * (q * h) by { assert n == 256 * q; }
    LowThree(32 * m + 32 * (q * h), b);
  }

  lemma HighBits(l: nat, n: nat, h: nat)
    requires l < n
    ensures (l + n * h) % (64 * n) == l + n * (h % 64)
  {
    NestedRemainder(n, 64, h, l, h / 64, h % 64);
    assert h * n == n * h && (h % 64) * n == n * (h % 64);
    DivUnique(l + n * h, 64 * n, h / 64, l + n * (h % 64));
  }

  lemma ClampSum(b: nat, m: nat, n: nat, h: nat, x: nat, y: nat)
    requires b < 256 && b + 256 * m < n && n % 256 == 0 && h < 256 && x == b + 256 * m + n * h
    requires y == (b - b % 8) + 256 * m + n * (h % 64 + 64)
    ensures y == 64 * n + x % (64 * n) - x % 8 && y % 8 == 0 && 64 * n <= y < 2 * (64 * n)
  {
    LowBits(b, m, n, h);
    HighBits(b + 256 * m, n, h);
    assert n * (h % 64 + 64) == n * (h % 64) + 64 * n;
    ClampRange(x, 64 * n, n);
  }

  lemma ClampBytes(s: seq<Machine.u8>)
    requires |s| == 32
    ensures Clamp(s)[1..31] == s[1..31]
    ensures Clamp(s)[0] as nat == s[0] as nat - s[0] as nat % 8 && Clamp(s)[31] as nat == s[31] as nat % 64 + 64
  { }

  lemma SixAbove(n: nat)
    ensures Exp2(6 + n) == 64 * Exp2(n) && Exp2(6 + n) > 0
  {
    Exp2Add(6, n);
    SmallExp2();
    Exp2Positive(n);
  }

  /** The clamped scalar: 2^254 plus bits 3 to 253 of the secret. It is a multiple of 8 in [2^254, 2^255). */
  lemma ClampValue(secret: seq<Machine.u8>)
    requires |secret| == 32
    ensures Exp2(254) > 0 && LE(Clamp(secret)) == Exp2(254) + LE(secret) % Exp2(254) - LE(secret) % 8
    ensures LE(Clamp(secret)) % 8 == 0 && Exp2(254) <= LE(Clamp(secret)) < 2 * Exp2(254)
  {
    hide LE, Exp2, Clamp;
    var s, e, n := secret, Clamp(secret), Exp2(248);
    SixAbove(248);
    ClampBytes(s);
    ClampParts(s, s[1..31], n);
    ClampParts(e, s[1..31], n);
    ClampSum(s[0] as nat, LE(s[1..31]), n, s[31] as nat, LE(s), LE(e));
  }

  lemma ClampRange(x: nat, e: nat, n: nat)
    requires e == 64 * n && e > 0
    ensures (e + x % e - x % 8) % 8 == 0 && e <= e + x % e - x % 8 < 2 * e
  {
    DivMod(x, e);
    var y, g := x % e, 8 * n * (x / e);
    assert (x / e) * e == 8 * g;
    assert x == 8 * g + y;
    LowThree(g, y);
    assert (e + y - y % 8) == 8 * (8 * n + y / 8);
  }

  lemma LowThree(g: int, y: nat)
    ensures (8 * g + y) % 8 == y % 8 && y == 8 * (y / 8) + y % 8
  { }
}
