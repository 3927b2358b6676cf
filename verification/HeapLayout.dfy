/** The layout of the heap part of libjl777/heap.c: blocks between the heap bottom and the end of the
    arena, some of them threaded on free lists. Addresses count aligned words of eight bytes; 0 is the
    null pointer. A block starts with a word for its size; a block on the big list keeps its link in the
    second word, a block on a bucket list in the first. */
module HeapLayout {
  /** The sizes of all blocks, by address, walked from lo to hi. */
  ghost predicate Tiles(sizes: map<nat, nat>, lo: nat, hi: nat)
    decreases hi - lo
  {
    if lo >= hi then lo == hi && sizes == map[]
    else lo in sizes && sizes[lo] > 0 && Tiles(sizes - {lo}, lo + sizes[lo], hi)
  }

  /** Every block lies between the ends, and no two overlap. */
  lemma {:induction false} TilesDisjoint(sizes: map<nat, nat>, lo: nat, hi: nat)
    requires Tiles(sizes, lo, hi)
    ensures lo <= hi
    ensures forall a | a in sizes :: lo <= a && sizes[a] > 0 && a + sizes[a] <= hi
    ensures forall a, b | a in sizes && b in sizes && a < b :: a + sizes[a] <= b
    decreases hi - lo
  {
    if lo < hi {
      var rest := sizes - {lo};
      TilesDisjoint(rest, lo + sizes[lo], hi);
      forall a | a in sizes ensures a == lo || (a in rest && rest[a] == sizes[a]) {
      }
    }
  }

  /** Every word between the ends lies in exactly one block. */
  lemma {:induction false} TilesCover(sizes: map<nat, nat>, lo: nat, hi: nat, x: nat) returns (a: nat)
    requires Tiles(sizes, lo, hi) && lo <= x < hi
    ensures a in sizes && a <= x < a + sizes[a]
    ensures forall b | b in sizes && b <= x < b + sizes[b] :: b == a
    decreases hi - lo
  {
    if x < lo + sizes[lo] {
      a := lo;
    } else {
      a := TilesCover(sizes - {lo}, lo + sizes[lo], hi, x);
    }
    TilesDisjoint(sizes, lo, hi);
  }

  /** A new block below the lowest one. */
  lemma TilesGrow(sizes: map<nat, nat>, lo: nat, hi: nat, n: nat)
    requires Tiles(sizes, lo, hi) && 0 < n <= lo
    ensures Tiles(sizes[lo - n := n], lo - n, hi)
  {
    TilesDisjoint(sizes, lo, hi);
    assert lo - n !in sizes;
    assert sizes[lo - n := n] - {lo - n} == sizes;
  }

  /** The lowest block taken away. */
  lemma TilesShrink(sizes: map<nat, nat>, lo: nat, hi: nat)
    requires Tiles(sizes, lo, hi) && lo in sizes
    ensures Tiles(sizes - {lo}, lo + sizes[lo], hi)
  {
    TilesDisjoint(sizes, lo, hi);
  }

  /** The block at a gives up its last k words. */
  ghost function Split(sizes: map<nat, nat>, a: nat, k: nat): map<nat, nat>
    requires a in sizes && k <= sizes[a]
  {
    sizes[a := sizes[a] - k][a + (sizes[a] - k) := k]
  }

  /** A walk that starts with the block at lo. */
  lemma TilesFrom(sizes: map<nat, nat>, lo: nat, hi: nat)
    ensures lo < hi && lo in sizes && sizes[lo] > 0 && Tiles(sizes - {lo}, lo + sizes[lo], hi) ==> Tiles(sizes, lo, hi)
    ensures lo < hi && Tiles(sizes, lo, hi) ==> lo in sizes && sizes[lo] > 0 && Tiles(sizes - {lo}, lo + sizes[lo], hi)
  { }

  lemma SplitLowest(sizes: map<nat, nat>, lo: nat, hi: nat, k: nat)
    requires Tiles(sizes, lo, hi) && lo in sizes && 0 < k < sizes[lo]
    ensures Tiles(Split(sizes, lo, k), lo, hi)
  {
    TilesDisjoint(sizes, lo, hi);
    TilesFrom(sizes, lo, hi);
    hide Tiles;
    var c, rest := lo + (sizes[lo] - k), sizes - {lo};
    assert rest[c := k] - {c} == rest;
    TilesFrom(rest[c := k], c, hi);
    assert Split(sizes, lo, k) - {lo} == rest[c := k];
    TilesFrom(Split(sizes, lo, k), lo, hi);
  }

  lemma SplitHigher(sizes: map<nat, nat>, lo: nat, hi: nat, a: nat, k: nat)
    requires lo in sizes && lo < hi && sizes[lo] > 0 && a in sizes && 0 < k < sizes[a] && lo < a
    requires Tiles(Split(sizes - {lo}, a, k), lo + sizes[lo], hi)
    ensures Tiles(Split(sizes, a, k), lo, hi)
  {
    hide Tiles;
    assert Split(sizes, a, k) - {lo} == Split(sizes - {lo}, a, k);
    TilesFrom(Split(sizes, a, k), lo, hi);
  }

  lemma {:induction false} TilesSplit(sizes: map<nat, nat>, lo: nat, hi: nat, a: nat, k: nat)
    requires Tiles(sizes, lo, hi) && a in sizes && 0 < k < sizes[a]
    ensures a + (sizes[a] - k) !in sizes
    ensures Tiles(Split(sizes, a, k), lo, hi)
    decreases hi - lo
  {
    TilesDisjoint(sizes, lo, hi);
    if a == lo {
      SplitLowest(sizes, lo, hi, k);
    } else {
      TilesFrom(sizes, lo, hi);
      hide Tiles, Split;
      TilesSplit(sizes - {lo}, lo + sizes[lo], hi, a, k);
      SplitHigher(sizes, lo, hi, a, k);
    }
  }

  // ----- free lists -----

  /** Lists 0 to 7 are the buckets, list 8 is the big one. A block in use is at home on none. */
  const BIG: nat := 8
  const LIVE: nat := 9

  /** The word of a block that holds its link. */
  function Off(k: nat): nat { if k == BIG then 1 else 0 }

  predicate Distinct(list: seq<nat>) { forall i, j | 0 <= i < j < |list| :: list[i] != list[j] }

  function Nth(list: seq<nat>, i: nat): nat { if i < |list| then list[i] else 0 }

  /** The list is threaded through the words at the given offset of its blocks. */
  ghost predicate Chain(m: seq<int>, head: nat, list: seq<nat>, off: nat) {
    head == Nth(list, 0) && forall i | 0 <= i < |list| :: Linked(m, list, i, off)
  }

  ghost predicate Linked(m: seq<int>, list: seq<nat>, i: nat, off: nat)
    requires i < |list|
  {
    list[i] + off < |m| && m[list[i] + off] == Nth(list, i + 1)
  }

  /** A list holds the blocks that are at home on it, once each. */
  ghost predicate OnList(home: map<nat, nat>, list: seq<nat>, k: nat) {
    && Distinct(list)
    && (forall a | a in list :: a in home && home[a] == k)
    && (forall a | a in home && home[a] == k :: a in list)
  }

  datatype Layout = Layout(sizes: map<nat, nat>, home: map<nat, nat>, lists: seq<seq<nat>>)

  ghost predicate Blocks(l: Layout, lo: nat, hi: nat) {
    Tiles(l.sizes, lo, hi) && l.home.Keys == l.sizes.Keys && lo > 0 && forall a | a in l.sizes ::
              l.sizes[a] >= 2 && l.home[a] <= LIVE
  }

  ghost predicate Listed(l: Layout) {
    |l.lists| == LIVE && forall k | 0 <= k < LIVE :: OnList(l.home, l.lists[k], k)
  }

  /** Blocks on a bucket list have the size of the bucket; all others know their size. */
  ghost predicate Sized(m: seq<int>, l: Layout) {
    forall a | a in l.home && a in l.sizes ::
      if l.home[a] < BIG then 2 * l.sizes[a] == l.home[a] else a < |m| && m[a] == l.sizes[a]
  }

  ghost predicate Threaded(m: seq<int>, l: Layout, heads: seq<nat>) {
    |heads| == |l.lists| == LIVE && forall k | 0 <= k < LIVE :: Chain(m, heads[k], l.lists[k], Off(k))
  }

  ghost predicate WellFormed(m: seq<int>, l: Layout, heads: seq<nat>, lo: nat, hi: nat) {
    |heads| == |l.lists| == LIVE && Blocks(l, lo, hi) && hi <= |m| && Listed(l) && Sized(m, l) && Threaded(m, l, heads)
  }

  // ----- single lists -----

  lemma ChainFrame(m: seq<int>, m': seq<int>, head: nat, list: seq<nat>, off: nat)
    requires Chain(m, head, list, off) && |m'| == |m|
    requires forall a | a in list && a + off < |m| :: m'[a + off] == m[a + off]
    ensures Chain(m', head, list, off)
  {
    forall i | 0 <= i < |list| ensures Linked(m', list, i, off) {
      assert Linked(m, list, i, off) && list[i] in list;
    }
  }

  function Without(list: seq<nat>, i: nat): seq<nat>
    requires i < |list|
  {
    list[..i] + list[i + 1..]
  }

  lemma ChainTakeFirst(m: seq<int>, head: nat, list: seq<nat>, off: nat)
    requires Chain(m, head, list, off) && list != []
    ensures Linked(m, list, 0, off) && m[head + off] >= 0 && Chain(m, m[head + off], Without(list, 0), off)
  {
    assert Linked(m, list, 0, off) && Without(list, 0) == list[1..];
    forall i | 0 <= i < |list| - 1 ensures Linked(m, list[1..], i, off) {
      assert Linked(m, list, i + 1, off);
    }
  }

  lemma ChainTakeLater(m: seq<int>, head: nat, list: seq<nat>, off: nat, i: nat)
    requires Chain(m, head, list, off) && 0 < i < |list| && Distinct(list)
    ensures Linked(m, list, i - 1, off) && Linked(m, list, i, off)
    ensures Chain(m[list[i - 1] + off := m[list[i] + off]], head, Without(list, i), off)
  {
    assert Linked(m, list, i - 1, off) && Linked(m, list, i, off);
    var m', list' := m[list[i - 1] + off := m[list[i] + off]], Without(list, i);
    forall j | 0 <= j < |list'| ensures Linked(m', list', j, off) {
      var j0 := if j < i then j else j + 1;
      assert Linked(m, list, j0, off) && list'[j] == list[j0];
      assert Nth(list', j + 1) == Nth(list, if j + 1 < i then j + 1 else j + 2);
      if j != i - 1 {
        assert list[j0] != list[i - 1];
      }
    }
  }

  lemma ChainPut(m: seq<int>, head: nat, list: seq<nat>, off: nat, a: nat)
    requires Chain(m, head, list, off) && a + off < |m| && a !in list
    ensures Chain(m[a + off := head], a, [a] + list, off)
  {
    var m', list' := m[a + off := head], [a] + list;
    forall j | 0 <= j < |list'| ensures Linked(m', list', j, off) {
      if j > 0 {
        assert Linked(m, list, j - 1, off) && list[j - 1] in list;
      }
    }
  }

  lemma OnListTake(home: map<nat, nat>, list: seq<nat>, k: nat, i: nat)
    requires OnList(home, list, k) && i < |list| && k < LIVE
    ensures OnList(home[list[i] := LIVE], Without(list, i), k)
  {
    var list', home' := Without(list, i), home[list[i] := LIVE];
    assert forall j | 0 <= j < |list'| :: list'[j] == list[if j < i then j else j + 1];
    forall a | a in home' && home'[a] == k ensures a in list' {
      var j :| 0 <= j < |list| && list[j] == a;
      assert list'[if j < i then j else j - 1] == a;
    }
  }

  lemma OnListPut(home: map<nat, nat>, list: seq<nat>, k: nat, a: nat)
    requires OnList(home, list, k) && (a in home ==> home[a] != k)
    ensures OnList(home[a := k], [a] + list, k)
  {
    assert a !in list;
  }

  /** A block that moves between other lists. */
  lemma OnListOther(home: map<nat, nat>, list: seq<nat>, k: nat, a: nat, v: nat)
    requires OnList(home, list, k) && v != k && (a in home ==> home[a] != k)
    ensures OnList(home[a := v], list, k)
  { }

  // ----- the whole layout -----

  /** The first two words of different blocks are different words. */
  lemma Apart(l: Layout, lo: nat, hi: nat, a: nat, c: nat)
    requires Blocks(l, lo, hi) && a in l.sizes && c in l.sizes && a != c
    ensures a + 1 != c && c + 1 != a && a > 0 && a + 1 < hi
  {
    TilesDisjoint(l.sizes, lo, hi);
  }

  lemma OnListHome(l: Layout, lo: nat, hi: nat, k: nat, i: nat)
    requires Blocks(l, lo, hi) && Listed(l) && k < LIVE && i < |l.lists[k]|
    ensures var a := l.lists[k][i]; a in l.home && l.home[a] == k && a in l.sizes && 0 < a && a + 1 < hi
  {
    assert OnList(l.home, l.lists[k], k) && l.lists[k][i] in l.lists[k];
    TilesDisjoint(l.sizes, lo, hi);
  }

  /** A change of words that no chain runs through and no header lies in keeps everything. */
  lemma Frame(m: seq<int>, m': seq<int>, l: Layout, heads: seq<nat>, lo: nat, hi: nat)
    requires WellFormed(m, l, heads, lo, hi) && |m'| == |m|
    requires forall a | a in l.home && a + 1 < |m| :: m'[a] == m[a] && (l.home[a] == BIG ==> m'[a + 1] == m[a + 1])
    ensures WellFormed(m', l, heads, lo, hi)
  {
    TilesDisjoint(l.sizes, lo, hi);
    assert Sized(m', l);
    forall k | 0 <= k < LIVE ensures Chain(m', heads[k], l.lists[k], Off(k)) {
      assert OnList(l.home, l.lists[k], k) && Chain(m, heads[k], l.lists[k], Off(k));
      hide Chain;
      ChainFrame(m, m', heads[k], l.lists[k], Off(k));
    }
  }

  /** Filling the body of a block in use. */
  lemma WriteBody(m: seq<int>, m': seq<int>, l: Layout, heads: seq<nat>, lo: nat, hi: nat, a: nat)
    requires WellFormed(m, l, heads, lo, hi) && |m'| == |m|
    requires a in l.home && l.home[a] == LIVE
    requires forall x | 0 <= x < |m| && !(a < x < a + l.sizes[a]) :: m'[x] == m[x]
    ensures WellFormed(m', l, heads, lo, hi)
  {
    TilesDisjoint(l.sizes, lo, hi);
    forall b | b in l.home && b + 1 < |m| ensures m'[b] == m[b] && (l.home[b] == BIG ==> m'[b + 1] == m[b + 1]) {
      if b != a {
        assert b + l.sizes[b] <= a || a + l.sizes[a] <= b;
      }
    }
    hide WellFormed;
    Frame(m, m', l, heads, lo, hi);
  }

  /** Writing below the heap. */
  lemma WriteBelow(m: seq<int>, m': seq<int>, l: Layout, heads: seq<nat>, lo: nat, hi: nat)
    requires WellFormed(m, l, heads, lo, hi) && |m'| == |m| && forall x | lo <= x < |m| :: m'[x] == m[x]
    ensures WellFormed(m', l, heads, lo, hi)
  {
    TilesDisjoint(l.sizes, lo, hi);
    hide WellFormed;
    Frame(m, m', l, heads, lo, hi);
  }

  // ----- a block leaves a list and comes into use -----

  ghost function Unlinked(m: seq<int>, list: seq<nat>, off: nat, i: nat): seq<int>
    requires i < |list| && Linked(m, list, i, off) && (i > 0 ==> Linked(m, list, i - 1, off))
  {
    if i == 0 then m else m[list[i - 1] + off := m[list[i] + off]]
  }

  ghost function Taken(l: Layout, k: nat, i: nat): (r: Layout)
    requires k < |l.lists| && i < |l.lists[k]|
    ensures |r.lists| == |l.lists|
  {
    l.(home := l.home[l.lists[k][i] := LIVE], lists := l.lists[k := Without(l.lists[k], i)])
  }

  lemma TakeBlocks(l: Layout, lo: nat, hi: nat, k: nat, i: nat)
    requires Blocks(l, lo, hi) && k < |l.lists| && i < |l.lists[k]| && l.lists[k][i] in l.sizes
    ensures Blocks(Taken(l, k, i), lo, hi)
  {
    hide Tiles;
  }

  lemma TakeListed(l: Layout, k: nat, i: nat)
    requires Listed(l) && k < LIVE && i < |l.lists[k]|
    ensures Listed(Taken(l, k, i))
  {
    var a, l' := l.lists[k][i], Taken(l, k, i);
    assert OnList(l.home, l.lists[k], k) && a in l.lists[k];
    forall j | 0 <= j < LIVE ensures OnList(l'.home, l'.lists[j], j) {
      assert OnList(l.home, l.lists[j], j);
      hide OnList;
      if j == k {
        OnListTake(l.home, l.lists[k], k, i);
      } else {
        OnListOther(l.home, l.lists[j], j, a, LIVE);
      }
    }
  }

  lemma TakeChains(m: seq<int>, m': seq<int>, l: Layout, heads: seq<nat>, lo: nat, hi: nat, k: nat, i: nat)
    requires WellFormed(m, l, heads, lo, hi) && k < LIVE && i < |l.lists[k]|
    requires Linked(m, l.lists[k], i, Off(k)) && (i > 0 ==> Linked(m, l.lists[k], i - 1, Off(k)))
    requires m' == Unlinked(m, l.lists[k], Off(k), i)
    ensures m[l.lists[k][i] + Off(k)] >= 0
    ensures Threaded(m', Taken(l, k, i), if i == 0 then heads[k := m[l.lists[k][i] + Off(k)]] else heads)
  {
    var list, l' := l.lists[k], Taken(l, k, i);
    var heads' := if i == 0 then heads[k := m[list[i] + Off(k)]] else heads;
    assert OnList(l.home, list, k);
    forall j | 0 <= j < LIVE ensures Chain(m', heads'[j], l'.lists[j], Off(j)) {
      assert Chain(m, heads[j], l.lists[j], Off(j));
      hide Chain;
      if j != k {
        if i > 0 {
          OnListHome(l, lo, hi, k, i - 1);
          forall c | c in l.lists[j] && c + Off(j) < |m| ensures m'[c + Off(j)] == m[c + Off(j)] {
            assert OnList(l.home, l.lists[j], j);
            Apart(l, lo, hi, list[i - 1], c);
          }
        }
        ChainFrame(m, m', heads[j], l.lists[j], Off(j));
      } else if i == 0 {
        ChainTakeFirst(m, heads[k], list, Off(k));
      } else {
        ChainTakeLater(m, heads[k], list, Off(k), i);
      }
    }
  }

  /** Setting the size of a block in use. */
  lemma SetHeader(m: seq<int>, l: Layout, heads: seq<nat>, lo: nat, hi: nat, a: nat)
    requires Blocks(l, lo, hi) && hi <= |m| && Listed(l) && Threaded(m, l, heads) && a in l.home && l.home[a] == LIVE
             && a < |m|
    requires forall b | b in l.home && b != a ::
               if l.home[b] < BIG then 2 * l.sizes[b] == l.home[b] else b < |m| && m[b] == l.sizes[b]
    ensures WellFormed(m[a := l.sizes[a]], l, heads, lo, hi)
  {
    var m' := m[a := l.sizes[a]];
    forall k | 0 <= k < LIVE ensures Chain(m', heads[k], l.lists[k], Off(k)) {
      assert OnList(l.home, l.lists[k], k) && Chain(m, heads[k], l.lists[k], Off(k));
      hide Chain;
      forall c | c in l.lists[k] && c + Off(k) < |m| ensures m'[c + Off(k)] == m[c + Off(k)] {
        Apart(l, lo, hi, a, c);
      }
      ChainFrame(m, m', heads[k], l.lists[k], Off(k));
    }
  }

  /** Taking a block off a list leaves the sizes of the others. */
  lemma TakeOthers(m: seq<int>, l: Layout, heads: seq<nat>, lo: nat, hi: nat, k: nat, i: nat, b: nat)
    requires WellFormed(m, l, heads, lo, hi) && k < LIVE && i < |l.lists[k]| && b in l.home
    requires Linked(m, l.lists[k], i, Off(k)) && (i > 0 ==> Linked(m, l.lists[k], i - 1, Off(k)))
    ensures var m' := Unlinked(m, l.lists[k], Off(k), i);
            if l.home[b] < BIG then 2 * l.sizes[b] == l.home[b] else b < |m'| && m'[b] == l.sizes[b]
  {
    hide Threaded, Tiles;
    if i > 0 && l.home[b] >= BIG {
      OnListHome(l, lo, hi, k, i - 1);
      if b != l.lists[k][i - 1] {
        Apart(l, lo, hi, l.lists[k][i - 1], b);
      }
    }
  }

  /** What is known of block i of list k. */
  lemma NodeFacts(m: seq<int>, l: Layout, heads: seq<nat>, lo: nat, hi: nat, k: nat, i: nat)
    requires WellFormed(m, l, heads, lo, hi) && k < LIVE && i < |l.lists[k]|
    ensures var list: seq<nat> := l.lists[k];
            && Linked(m, list, i, Off(k)) && (i > 0 ==> Linked(m, list, i - 1, Off(k)))
            && list[i] in l.sizes && list[i] in l.home && l.home[list[i]] == k && list[i] + 1 < hi
            && (k == BIG ==> m[list[i]] == l.sizes[list[i]]) && (k < BIG ==> 2 * l.sizes[list[i]] == k)
  {
    assert Chain(m, heads[k], l.lists[k], Off(k));
    OnListHome(l, lo, hi, k, i);
  }

  /** Taking block i off list k and setting its size. */
  lemma Take(m: seq<int>, l: Layout, heads: seq<nat>, lo: nat, hi: nat, k: nat, i: nat)
    requires WellFormed(m, l, heads, lo, hi) && k < LIVE && i < |l.lists[k]|
    ensures var list: seq<nat> := l.lists[k];
            && Linked(m, list, i, Off(k)) && (i > 0 ==> Linked(m, list, i - 1, Off(k)))
            && list[i] in l.sizes && list[i] in l.home && l.home[list[i]] == k && list[i] + 1 < hi
                && m[list[i] + Off(k)] >= 0
            && (k == BIG ==> m[list[i]] == l.sizes[list[i]]) && (k < BIG ==> 2 * l.sizes[list[i]] == k)
            && WellFormed(Unlinked(m, list, Off(k), i)[list[i] := l.sizes[list[i]]], Taken(l, k, i),
                          if i == 0 then heads[k := m[list[i] + Off(k)]] else heads, lo, hi)
  {
    hide Threaded, Listed, Tiles, Sized, Without;
    NodeFacts(m, l, heads, lo, hi, k, i);
    var list, a := l.lists[k], l.lists[k][i];
    var m', l' := Unlinked(m, list, Off(k), i), Taken(l, k, i);
    TakeChains(m, m', l, heads, lo, hi, k, i);
    TakeListed(l, k, i);
    TakeBlocks(l, lo, hi, k, i);
    forall b | b in l'.home && b != a
      ensures if l'.home[b] < BIG then 2 * l'.sizes[b] == l'.home[b] else b < |m'| && m'[b] == l'.sizes[b]
    {
      TakeOthers(m, l, heads, lo, hi, k, i, b);
    }
    SetHeader(m', l', if i == 0 then heads[k := m[a + Off(k)]] else heads, lo, hi, a);
  }

  // ----- a block is put on a list -----

  ghost function Given(l: Layout, k: nat, a: nat): (r: Layout)
    requires k < |l.lists|
    ensures |r.lists| == |l.lists|
  {
    l.(home := l.home[a := k], lists := l.lists[k := [a] + l.lists[k]])
  }

  lemma GiveListed(l: Layout, k: nat, a: nat)
    requires Listed(l) && k < LIVE && a in l.home && l.home[a] == LIVE
    ensures Listed(Given(l, k, a))
  {
    var l' := Given(l, k, a);
    forall j | 0 <= j < LIVE ensures OnList(l'.home, l'.lists[j], j) {
      assert OnList(l.home, l.lists[j], j);
      hide OnList;
      if j == k {
        OnListPut(l.home, l.lists[k], k, a);
      } else {
        OnListOther(l.home, l.lists[j], j, a, k);
      }
    }
  }

  lemma GiveChains(m: seq<int>, l: Layout, heads: seq<nat>, lo: nat, hi: nat, k: nat, a: nat)
    requires WellFormed(m, l, heads, lo, hi) && k < LIVE && a in l.home && l.home[a] == LIVE && a + 1 < |m|
    ensures Threaded(m[a + Off(k) := heads[k]], Given(l, k, a), heads[k := a])
  {
    var l', m', heads' := Given(l, k, a), m[a + Off(k) := heads[k]], heads[k := a];
    forall j | 0 <= j < LIVE ensures Chain(m', heads'[j], l'.lists[j], Off(j)) {
      assert Chain(m, heads[j], l.lists[j], Off(j)) && OnList(l.home, l.lists[j], j);
      hide Chain;
      if j == k {
        ChainPut(m, heads[k], l.lists[k], Off(k), a);
      } else {
        forall c | c in l.lists[j] && c + Off(j) < |m| ensures m'[c + Off(j)] == m[c + Off(j)] {
          Apart(l, lo, hi, a, c);
        }
        ChainFrame(m, m', heads[j], l.lists[j], Off(j));
      }
    }
  }

  /** Putting a block in use on the big list, or on the bucket list of its size. */
  lemma Give(m: seq<int>, l: Layout, heads: seq<nat>, lo: nat, hi: nat, k: nat, a: nat)
    requires WellFormed(m, l, heads, lo, hi) && k < LIVE && a in l.home && l.home[a] == LIVE
    requires k < BIG ==> k == 2 * l.sizes[a]
    ensures a + 1 < hi
    ensures WellFormed(m[a + Off(k) := heads[k]], Given(l, k, a), heads[k := a], lo, hi)
  {
    TilesDisjoint(l.sizes, lo, hi);
    GiveListed(l, k, a);
    GiveChains(m, l, heads, lo, hi, k, a);
    hide Threaded, Listed, Tiles;
    var l', m' := Given(l, k, a), m[a + Off(k) := heads[k]];
    forall b | b in l'.home
      ensures if l'.home[b] < BIG then 2 * l'.sizes[b] == l'.home[b] else b < |m'| && m'[b] == l'.sizes[b]
    {
      if b != a {
        Apart(l, lo, hi, a, b);
      }
    }
  }

  // ----- blocks are made and unmade -----

  /** A block that was not there before comes into use; the other sizes may change with it. */
  ghost function Added(l: Layout, sizes: map<nat, nat>, c: nat): (r: Layout)
    ensures r.lists == l.lists
  {
    l.(sizes := sizes, home := l.home[c := LIVE])
  }

  lemma AddListed(l: Layout, sizes: map<nat, nat>, c: nat)
    requires Listed(l) && c !in l.home
    ensures Listed(Added(l, sizes, c))
  {
    forall j | 0 <= j < LIVE ensures OnList(l.home[c := LIVE], l.lists[j], j) {
      assert OnList(l.home, l.lists[j], j);
      hide OnList;
      OnListOther(l.home, l.lists[j], j, c, LIVE);
    }
  }

  /** The last n words of block i of the big list become a block in use. */
  lemma SplitBig(m: seq<int>, l: Layout, heads: seq<nat>, lo: nat, hi: nat, i: nat, n: nat)
    requires WellFormed(m, l, heads, lo, hi) && i < |l.lists[BIG]|
    requires l.lists[BIG][i] in l.sizes && 2 <= n && n + 2 <= l.sizes[l.lists[BIG][i]]
    ensures var a: nat := l.lists[BIG][i];
            var s := l.sizes[a] - n;
            && a + s !in l.sizes && a + s + n <= hi && a < |m| && m[a] == l.sizes[a]
            && WellFormed(m[a := s][a + s := n], Added(l, Split(l.sizes, a, n), a + s), heads, lo, hi)
  {
    hide Listed, Chain, Split, Tiles;
    NodeFacts(m, l, heads, lo, hi, BIG, i);
    var a: nat := l.lists[BIG][i];
    var s := l.sizes[a] - n;
    TilesDisjoint(l.sizes, lo, hi);
    var c, m' := a + s, m[a := s][a + s := n];
    SplitBlocks(l, lo, hi, a, n);
    SplitSized(m, l, a, n);
    assert m[a] == l.sizes[a];
    AddListed(l, Split(l.sizes, a, n), c);
    var l' := Added(l, Split(l.sizes, a, n), c);
    hide Listed, Sized, Chain, Split, Blocks;
    forall k | 0 <= k < LIVE ensures Chain(m', heads[k], l'.lists[k], Off(k)) {
      SplitChain(m, m', l, heads, lo, hi, a, c, k);
    }
  }

  lemma SplitBlocks(l: Layout, lo: nat, hi: nat, a: nat, n: nat)
    requires Blocks(l, lo, hi) && a in l.sizes && 2 <= n && n + 2 <= l.sizes[a]
    ensures var c := a + (l.sizes[a] - n); c !in l.sizes && Blocks(Added(l, Split(l.sizes, a, n), c), lo, hi)
  {
    TilesSplit(l.sizes, lo, hi, a, n);
    hide Tiles;
  }

  lemma SplitSized(m: seq<int>, l: Layout, a: nat, n: nat)
    requires Sized(m, l) && l.home.Keys == l.sizes.Keys && a in l.home && l.home[a] == BIG && 0 < n
             && n + 2 <= l.sizes[a] && a + l.sizes[a] <= |m|
    requires a + (l.sizes[a] - n) !in l.sizes
    ensures var s := l.sizes[a] - n; Sized(m[a := s][a + s := n], Added(l, Split(l.sizes, a, n), a + s))
  { }

  lemma SplitChain(m: seq<int>, m': seq<int>, l: Layout, heads: seq<nat>, lo: nat, hi: nat, a: nat, c: nat, k: nat)
    requires WellFormed(m, l, heads, lo, hi) && k < LIVE && a in l.home && l.home[a] == BIG
             && a + 2 <= c < a + l.sizes[a]
    requires |m'| == |m| && forall x | 0 <= x < |m| && x != a && x != c :: m'[x] == m[x]
    ensures Chain(m', heads[k], l.lists[k], Off(k))
  {
    assert OnList(l.home, l.lists[k], k) && Chain(m, heads[k], l.lists[k], Off(k));
    TilesDisjoint(l.sizes, lo, hi);
    hide Chain, Tiles;
    forall b | b in l.lists[k] && b + Off(k) < |m| ensures m'[b + Off(k)] == m[b + Off(k)] {
      if b != a {
        assert b + l.sizes[b] <= a || a + l.sizes[a] <= b;
      }
    }
    ChainFrame(m, m', heads[k], l.lists[k], Off(k));
  }

  /** The heap grows down by a block in use. */
  lemma Grow(m: seq<int>, l: Layout, heads: seq<nat>, lo: nat, hi: nat, n: nat)
    requires WellFormed(m, l, heads, lo, hi) && 2 <= n < lo
    ensures lo - n !in l.sizes && lo - n < |m| && lo <= hi
    ensures WellFormed(m[lo - n := n], Added(l, l.sizes[lo - n := n], lo - n), heads, lo - n, hi)
  {
    var c := lo - n;
    TilesDisjoint(l.sizes, lo, hi);
    TilesGrow(l.sizes, lo, hi, n);
    AddListed(l, l.sizes[c := n], c);
    var l', m' := Added(l, l.sizes[c := n], c), m[c := n];
    assert Blocks(l', c, hi);
    assert Sized(m', l') by {
      hide Threaded, Listed, Tiles;
    }
    forall k | 0 <= k < LIVE ensures Chain(m', heads[k], l.lists[k], Off(k)) {
      assert OnList(l.home, l.lists[k], k) && Chain(m, heads[k], l.lists[k], Off(k));
      hide Chain;
      ChainFrame(m, m', heads[k], l.lists[k], Off(k));
    }
  }

  ghost function Removed(l: Layout, a: nat): (r: Layout)
    ensures r.lists == l.lists
  {
    l.(sizes := l.sizes - {a}, home := l.home - {a})
  }

  /** The lowest block, in use, goes back to the free space. */
  lemma Shrink(m: seq<int>, l: Layout, heads: seq<nat>, lo: nat, hi: nat)
    requires WellFormed(m, l, heads, lo, hi) && lo in l.home && l.home[lo] == LIVE
    ensures WellFormed(m, Removed(l, lo), heads, lo + l.sizes[lo], hi)
  {
    TilesShrink(l.sizes, lo, hi);
    var l' := Removed(l, lo);
    forall k | 0 <= k < LIVE ensures OnList(l'.home, l.lists[k], k) {
      assert OnList(l.home, l.lists[k], k);
    }
    assert Blocks(l', lo + l.sizes[lo], hi);
    hide Tiles, Chain, OnList;
  }
}
