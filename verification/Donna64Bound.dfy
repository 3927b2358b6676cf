/** The largest limbs for which fmul of libjl777/curve25519-donna-c64.c is right on all inputs.
    Near that bound only the folded limb can exceed 64 bits. It does so if the top carry is almost maximal, which
    leaves few inputs, and if column 0 is just below a multiple of 2^51; the first such input is found by
    looking at a lattice. */
module Donna64Bound {
  import opened Field25519
  import opened Limbs51
  import opened Donna64Limits
  import Donna64

  /** About 1.16 * 2^54. */
  const LIMIT: int := 0x4a_48c3_8947_6ad3

  // ----- limbs below the bound -----

  predicate AtMost(t: Five, u: Five) {
    0 <= t.v0 <= u.v0 && 0 <= t.v1 <= u.v1 && 0 <= t.v2 <= u.v2 && 0 <= t.v3 <= u.v3 && 0 <= t.v4 <= u.v4
  }

  lemma CarryMonotone(u: int, v: int)
    requires 0 <= u <= v
    ensures 0 <= Carry(u) <= Carry(v)
    ensures Carry(v) < M64 ==> u < W1 * M64
  { }

  predicate CarriesBelow(c: Carries) { c.c0 < M64 && c.c1 < M64 && c.c2 < M64 && c.c3 < M64 && c.c4 < M64 }

  /** Smaller columns have smaller carries, and fit when the folded limb does. */
  lemma CarriesMonotone(t: Five, u: Five)
    requires AtMost(t, u)
    ensures 0 <= TrueCarries(t).c3 <= TrueCarries(u).c3
    ensures CarriesBelow(TrueCarries(u)) ==> (Fits(t) <==> TrueCarries(t).fold < M64)
  {
    hide Carry, Low;
    var c, d := TrueCarries(t), TrueCarries(u);
    CarryMonotone(t.v0, u.v0);
    CarryMonotone(t.v1 + c.c0, u.v1 + d.c0);
    CarryMonotone(t.v2 + c.c1, u.v2 + d.c1);
    CarryMonotone(t.v3 + c.c2, u.v3 + d.c2);
    CarryMonotone(t.v4 + c.c3, u.v4 + d.c3);
  }

  /** Larger limbs have larger columns. */
  lemma ColumnsMonotone(r: Five, s: Five, b: int)
    requires Within(r, b) && Within(s, b)
    ensures AtMost(Columns(r, s), Columns(Uniform(b), Uniform(b)))
  {
    forall x, y | 0 <= x <= b && 0 <= y <= b ensures 0 <= x * y <= b * b {
      Donna64.MulLe(x, y, b, b);
    }
  }

  lemma LimitColumns()
    ensures Columns(Uniform(LIMIT), Uniform(LIMIT)) ==
            Five(77 * LIMIT * LIMIT, 59 * LIMIT * LIMIT, 41 * LIMIT * LIMIT, 23 * LIMIT * LIMIT, 5 * LIMIT * LIMIT)
  { }

  lemma LimitCarries(u: Five)
    requires u == Five(77 * LIMIT * LIMIT, 59 * LIMIT * LIMIT, 41 * LIMIT * LIMIT, 23 * LIMIT * LIMIT,
                       5 * LIMIT * LIMIT)
    ensures var c := TrueCarries(u);
            CarriesBelow(c) && c.c3 == 0x3df8_ac76_9199_91f6
  { }

  // ----- how far a pair of factors is below the bound -----

  /** The limbs of r and s are i and j below the bound. */
  function Below(i: Five): Five {
    Five(LIMIT - i.v0, LIMIT - i.v1, LIMIT - i.v2, LIMIT - i.v3, LIMIT - i.v4)
  }

  function Total(i: Five): int { i.v0 + i.v1 + i.v2 + i.v3 + i.v4 }

  /** What r and s are below the bound: in limb 0, and in the others. */
  function First(i: Five, j: Five): int { i.v0 + j.v0 }

  function Rest(i: Five, j: Five): int { Total(i) + Total(j) - First(i, j) }

  lemma ColumnsBelow(i: Five, j: Five)
    ensures Columns(Below(i), Below(j)).v0 ==
            77 * LIMIT * LIMIT - LIMIT * (First(i, j) + 19 * Rest(i, j)) + Columns(i, j).v0
    ensures Columns(Below(i), Below(j)).v4 ==
            5 * LIMIT * LIMIT - LIMIT * (First(i, j) + Rest(i, j)) + Columns(i, j).v4
  { }

  lemma SquareOfSum(x: int, y: int)
    ensures 4 * (x * y) <= (x + y) * (x + y)
  {
    assert (x + y) * (x + y) - 4 * (x * y) == (x - y) * (x - y);
  }

  lemma ColumnZero(i: Five, j: Five)
    requires Nonnegative(i) && Nonnegative(j)
    ensures 0 <= 4 * Columns(i, j).v0 <= First(i, j) * First(i, j) + 19 * (Rest(i, j) * Rest(i, j))
  {
    var x, y := i.v1 + i.v2 + i.v3 + i.v4, j.v1 + j.v2 + j.v3 + j.v4;
    SquareOfSum(i.v0, j.v0);
    SquareOfSum(x, y);
    var cross := i.v4 * j.v1 + i.v1 * j.v4 + i.v2 * j.v3 + i.v3 * j.v2;
    assert x * y == cross + i.v1 * (j.v1 + j.v2 + j.v3) + i.v2 * (j.v1 + j.v2 + j.v4) + i.v3 * (j.v1 + j.v3 + j.v4)
                    + i.v4 * (j.v2 + j.v3 + j.v4);
    assert 0 <= cross <= x * y;
    assert Rest(i, j) == x + y;
  }

  lemma ColumnFour(i: Five, j: Five)
    requires Within(i, 0x2_0000) && Within(j, 0x2_0000)
    ensures 0 <= Columns(i, j).v4 <= 0x14_0000_0000
  {
    forall x, y | 0 <= x <= 0x2_0000 && 0 <= y <= 0x2_0000 ensures 0 <= x * y <= 0x4_0000_0000 {
      Donna64.MulLe(x, y, 0x2_0000, 0x2_0000);
    }
  }

  lemma HalfProduct(x: int, y: int)
    requires 0 <= x <= LIMIT && 0 <= y <= LIMIT
    ensures 2 * ((LIMIT - x) * (LIMIT - y)) <= 2 * LIMIT * LIMIT - LIMIT * (x + y)
  {
    Donna64.MulLe(LIMIT - x, LIMIT - y, LIMIT, LIMIT - y);
    Donna64.MulLe(LIMIT - x, LIMIT - y, LIMIT - x, LIMIT);
  }

  /** However far below the bound, half the distance is lost from column 4. */
  lemma ColumnFourHalf(i: Five, j: Five)
    requires Within(i, LIMIT) && Within(j, LIMIT)
    ensures 2 * Columns(Below(i), Below(j)).v4 <= 10 * LIMIT * LIMIT - LIMIT * (Total(i) + Total(j))
  {
    HalfProduct(i.v0, j.v4);
    HalfProduct(i.v4, j.v0);
    HalfProduct(i.v3, j.v1);
    HalfProduct(i.v1, j.v3);
    HalfProduct(i.v2, j.v2);
  }

  // ----- which pairs fold above 64 bits -----

  /** 2^102 - 2^115 + 19 * (5 * LIMIT^2 + c3): room left by the top carry, for column 0. */
  const EDGE: int := 0x2ca_2dd2_7eb1_e5d0_22b9

  /** A folded limb that exceeds 64 bits leaves little room on either side. */
  lemma FoldAbove(t: Five)
    requires TrueCarries(t).c3 <= 0x3df8_ac76_9199_91f6 && TrueCarries(t).fold >= M64
    ensures W1 * (W1 - Low(t.v0)) <= EDGE + 19 * (t.v4 - 5 * LIMIT * LIMIT)
  {
    hide Low;
    CarryParts(t.v4 + TrueCarries(t).c3);
    hide Carry;
  }

  lemma FewBelow(i: Five, j: Five)
    requires Within(i, LIMIT) && Within(j, LIMIT)
    requires W1 <= EDGE + 19 * (Columns(Below(i), Below(j)).v4 - 5 * LIMIT * LIMIT)
    ensures Within(i, 0x2_0000) && Within(j, 0x2_0000)
  {
    hide Columns;
    ColumnFourHalf(i, j);
  }

  /** Points of the lattice of column 0 in a box: two points. */
  lemma LatticePoints(n: int, e: int, h: int)
    requires 77 * LIMIT * LIMIT - LIMIT * n + e == W1 * h && 0 <= n <= 630059 && 1 <= e <= 5229197200
    ensures (n == 198283 && e == 4838659964) || (n == 512433 && e == 3456320462)
  {
    var g := 0xcf78_2b1d_a460_4c2f - h;
    var a, b := 412949 * g - 3834450 * (n - 512433), 2917049 * (n - 512433) - 314150 * g;
    assert n - 512433 == 314150 * a + 412949 * b;
    assert e - 3456320462 == -1382339502 * a + 5350832719 * b;
    assert -1 <= b <= 1;
  }

  /** Neither of the two comes from limbs below the bound. */
  lemma FirstPoint(x: int, y: int, q: int, w: int)
    requires 0 <= x && 0 <= y && x + y <= 33161 && 0 <= 4 * q <= x * x + 19 * (y * y)
    requires x + 19 * y == 198283 && w <= 5850600
    ensures q + w != 4838659964
  {
    Donna64.MulLe(x, x, 33161, 33161);
    Donna64.MulLe(y, y, 10435, 10435);
  }

  lemma SecondPoint(x: int, y: int, q: int, w: int)
    requires 0 <= x && 0 <= y && x + y <= 33161 && 0 <= 4 * q <= x * x + 19 * (y * y)
    requires x + 19 * y == 512433 && W1 * w <= EDGE - 19 * LIMIT * (x + y) + 19 * 0x14_0000_0000
    ensures q + w != 3456320462
  {
    var z := 26970 - y;
    assert x == 3 + 19 * z && 0 <= z <= 343;
    assert x * x + 19 * (y * y) == 9 + 19 * 26970 * 26970 + z * (380 * z - 1024746);
    Donna64.MulLe(z, 1024746 - 380 * z, 343, 1024746);
  }

  lemma SquaresOfParts(x: int, y: int)
    requires 0 <= x && 0 <= y && x + y <= 33161
    ensures x * x + 19 * (y * y) <= 19 * 33161 * 33161
  {
    Donna64.MulLe(x + y, x + y, 33161, 33161);
    assert (x + y) * (x + y) == x * x + y * y + 2 * (x * y);
    Donna64.MulLe(0, 0, x, y);
  }

  /** So column 0 is not just below a multiple of 2^51 when the top carry is that large. */
  lemma NoPair(x: int, y: int, q: int, w: int, h: int)
    requires 0 <= x && 0 <= y && 0 <= 4 * q <= x * x + 19 * (y * y) && 1 <= w
    requires W1 * w <= EDGE - 19 * LIMIT * (x + y) + 19 * 0x14_0000_0000
    ensures 77 * LIMIT * LIMIT - LIMIT * (x + 19 * y) + q + w != W1 * h
  {
    if 77 * LIMIT * LIMIT - LIMIT * (x + 19 * y) + q + w == W1 * h {
      SquaresOfParts(x, y);
      LatticePoints(x + 19 * y, q + w, h);
      if x + 19 * y == 198283 {
        FirstPoint(x, y, q, w);
      } else {
        SecondPoint(x, y, q, w);
      }
    }
  }

  lemma BelowMultiple(u: int)
    ensures u + (W1 - Low(u)) == W1 * (u / W1 + 1) && 1 <= W1 - Low(u)
  { }

  /** The folded limb of factors up to the bound stays below 2^64. */
  lemma NoFold(i: Five, j: Five)
    requires Within(i, LIMIT) && Within(j, LIMIT)
    requires TrueCarries(Columns(Below(i), Below(j))).c3 <= 0x3df8_ac76_9199_91f6
    ensures TrueCarries(Columns(Below(i), Below(j))).fold < M64
  {
    hide Columns, TrueCarries, Low, Below, First, Rest;
    var t := Columns(Below(i), Below(j));
    if TrueCarries(t).fold >= M64 {
      FoldAbove(t);
      BelowMultiple(t.v0);
      FewBelow(i, j);
      ColumnsBelow(i, j);
      ColumnFour(i, j);
      ColumnZero(i, j);
      FirstRest(i, j);
      NoPair(First(i, j), Rest(i, j), Columns(i, j).v0, W1 - Low(t.v0), t.v0 / W1 + 1);
    }
  }

  lemma FirstRest(i: Five, j: Five)
    requires Nonnegative(i) && Nonnegative(j)
    ensures 0 <= First(i, j) && 0 <= Rest(i, j)
  { }

  lemma LimitFits(r: Five, s: Five)
    requires Within(r, LIMIT) && Within(s, LIMIT)
    ensures Fits(Columns(r, s))
  {
    hide Columns, TrueCarries, Fits;
    var u := Columns(Uniform(LIMIT), Uniform(LIMIT));
    ColumnsMonotone(r, s, LIMIT);
    LimitColumns();
    LimitCarries(u);
    CarriesMonotone(Columns(r, s), u);
    var i, j := Below(r), Below(s);
    assert Below(i) == r && Below(j) == s;
    NoFold(i, j);
  }

  // ----- the bound is exact -----

  lemma NextColumns(r: Five, s: Five)
    requires r == Five(LIMIT + 1, LIMIT + 1, LIMIT + 1, LIMIT + 1, LIMIT + 1 - 13488)
    requires s == Five(LIMIT + 1 - 43, LIMIT + 1 - 13488, LIMIT + 1, LIMIT + 1, LIMIT + 1)
    ensures Columns(r, s) == Five(0x6_7bc1_58ed_2302_6177_ffff_fffc_6534, 0x4_f7c2_b1da_4697_2b8c_2783_1539_9194,
                                  0x3_73c4_0ac7_6918_c450_ed57_061d_1974, 0x1_efc5_63b4_8b9a_5d15_b32a_f700_a154,
                                  0x6bc6_bca1_af2f_2729_daae_da4e_2244)
  { }

  lemma NextCarries(t: Five)
    requires t == Five(0x6_7bc1_58ed_2302_6177_ffff_fffc_6534, 0x4_f7c2_b1da_4697_2b8c_2783_1539_9194,
                       0x3_73c4_0ac7_6918_c450_ed57_061d_1974, 0x1_efc5_63b4_8b9a_5d15_b32a_f700_a154,
                       0x6bc6_bca1_af2f_2729_daae_da4e_2244)
    ensures TrueCarries(t).fold == 0x1_0000_0000_000c_f560
  {
    assert Carry(t.v0) == 0xcf78_2b1d_a460_4c2e;
    assert Carry(t.v1 + 0xcf78_2b1d_a460_4c2e) == 0x9ef8_563b_48d2_ff60;
    assert Carry(t.v2 + 0x9ef8_563b_48d2_ff60) == 0x6e78_8158_ed23_2c69;
    assert Carry(t.v3 + 0x6e78_8158_ed23_2c69) == 0x3df8_ac76_9173_5971;
    assert Carry(t.v4 + 0x3df8_ac76_9173_5971) == 0xd78_d794_35e5_eca4;
    assert Low(t.v0) == 0x7_ffff_fffc_6534;
    hide Carry, Low;
  }

  /** Factors with limbs up to LIMIT + 1 whose folded limb is 2^64 + 0xcf560. */
  lemma NextFolds(r: Five, s: Five)
    requires r == Five(LIMIT + 1, LIMIT + 1, LIMIT + 1, LIMIT + 1, LIMIT + 1 - 13488)
    requires s == Five(LIMIT + 1 - 43, LIMIT + 1 - 13488, LIMIT + 1, LIMIT + 1, LIMIT + 1)
    ensures TrueCarries(Columns(r, s)).fold == 0x1_0000_0000_000c_f560 && !Fits(Columns(r, s))
  {
    hide Columns, TrueCarries;
    NextColumns(r, s);
    NextCarries(Columns(r, s));
  }

  /** fmul is right on all limbs up to b. */
  ghost predicate RightUpTo(b: int) {
    forall r, s | Within(r, b) && Within(s, b) :: Right(r, s)
  }

  /** Within what its comment allows or beyond, fmul is right on all limbs up to b if and only if b is at most LIMIT. */
  lemma LargestBound(b: int)
    ensures RightUpTo(b) <==> b <= LIMIT
  {
    hide Columns, Right, Fits;
    if b <= LIMIT {
      forall r, s | Within(r, b) && Within(s, b) ensures Right(r, s) {
        LimitFits(r, s);
        RightExactly(r, s);
      }
    } else {
      var r := Five(LIMIT + 1, LIMIT + 1, LIMIT + 1, LIMIT + 1, LIMIT + 1 - 13488);
      var s := Five(LIMIT + 1 - 43, LIMIT + 1 - 13488, LIMIT + 1, LIMIT + 1, LIMIT + 1);
      NextFolds(r, s);
      RightExactly(r, s);
      assert Within(r, b) && Within(s, b) && !Right(r, s);
    }
  }
}
