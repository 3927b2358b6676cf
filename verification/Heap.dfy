/** The stack and heap allocator of libjl777/heap.c: one arena, the stack growing up from its start and
    the heap growing down from its end. Addresses and sizes count words of eight bytes. */
module Heap {
  import Bits
  import opened Basics
  import opened HeapLayout

  /** MEM_ALIGN, in words: as few as hold the bytes. */
  function Words(size: nat): (n: nat)
    ensures 8 * n >= size && (n > 0 ==> 8 * (n - 1) < size)
  {
    (size + 7) / 8
  }

  /** The words of a block for a request of the given bytes: the aligned request and the size word, and
      never less than a list node needs. */
  function AllocWords(size: nat): (n: nat)
    ensures n >= 2 && 8 * (n - 1) >= size && (n > 2 ==> 8 * (n - 2) < size)
  {
    if Words(size) + 1 < 2 then 2 else Words(size) + 1
  }

  const FREELIST_BUCKETS: nat := 8
  const SPLIT_MEM_THRESHOLD: nat := 2

  // ----- what an operation may do to blocks in use -----

  predicate IsLive(l: Layout, a: nat) { a in l.home && l.home[a] == LIVE && a in l.sizes }

  /** Block a, of at least n words, came into use, and nothing else changed for the blocks in use. */
  ghost predicate Gained(l: Layout, l': Layout, a: nat, n: nat) {
    && IsLive(l', a) && !IsLive(l, a) && l'.sizes[a] >= n
    && (forall b | IsLive(l, b) :: IsLive(l', b) && l'.sizes[b] == l.sizes[b])
    && (forall b | IsLive(l', b) && b != a :: IsLive(l, b))
  }

  /** The words of the blocks in use are unchanged. */
  ghost predicate Kept(l: Layout, m: seq<int>, m': seq<int>) {
    |m'| == |m| && forall b: nat, x: nat | IsLive(l, b) && b <= x < b + l.sizes[b] && x < |m| :: m'[x] == m[x]
  }

  /** A change inside a block that is not in use. */
  lemma KeptElsewhere(l: Layout, lo: nat, hi: nat, m: seq<int>, m': seq<int>, f: nat)
    requires Blocks(l, lo, hi) && f in l.sizes && !IsLive(l, f) && |m'| == |m|
    requires forall x | 0 <= x < |m| && !(f <= x < f + l.sizes[f]) :: m'[x] == m[x]
    ensures Kept(l, m, m')
  {
    TilesDisjoint(l.sizes, lo, hi);
    hide Blocks;
    forall b: nat, x: nat | IsLive(l, b) && b <= x < b + l.sizes[b] && x < |m| ensures m'[x] == m[x] {
      assert b + l.sizes[b] <= f || f + l.sizes[f] <= b;
    }
  }

  /** Everything a caller of an allocation step may rely on. */
  ghost predicate Allocated(m: seq<int>, m': seq<int>, l: Layout, l': Layout, lo: nat, lo': nat, a: nat, n: nat) {
    && Gained(l, l', a, n) && Kept(l, m, m') && lo' <= lo && 0 < a && lo' <= a
    && forall x | 0 <= x < lo' && x < |m| :: m'[x] == m[x]
  }

  lemma TakenAllocates(m: seq<int>, m': seq<int>, l: Layout, lo: nat, hi: nat, k: nat, i: nat, n: nat)
    requires Blocks(l, lo, hi) && |l.lists| == LIVE && k < LIVE && i < |l.lists[k]| && |m'| == |m|
    requires var a: nat := l.lists[k][i]; a in l.home && l.home[a] == k && l.sizes[a] >= n
    requires Kept(l, m, m') && forall x | 0 <= x < lo && x < |m| :: m'[x] == m[x]
    ensures Allocated(m, m', l, Taken(l, k, i), lo, lo, l.lists[k][i], n)
  {
    TilesDisjoint(l.sizes, lo, hi);
    hide Tiles, Kept;
  }

  lemma BucketTake(m: seq<int>, l: Layout, heads: seq<nat>, lo: nat, hi: nat, n: nat)
    requires WellFormed(m, l, heads, lo, hi) && 2 * n < BIG && heads[2 * n] != 0
    ensures var a := heads[2 * n];
            && l.lists[2 * n] != [] && l.lists[2 * n][0] == a && a < |m| && m[a] >= 0
            && a in l.home && l.home[a] == 2 * n && a in l.sizes && l.sizes[a] == n && lo <= a
            && WellFormed(m[a := n], Taken(l, 2 * n, 0), heads[2 * n := m[a]], lo, hi)
  {
    HeadOf(m, l, heads, lo, hi, 2 * n);
    Take(m, l, heads, lo, hi, 2 * n, 0);
    TilesDisjoint(l.sizes, lo, hi);
    hide Chain, Listed, Tiles, Threaded, Sized, Linked, Taken, Blocks, Without;
  }

  lemma BucketStep(m: seq<int>, l: Layout, heads: seq<nat>, lo: nat, hi: nat, n: nat)
    requires WellFormed(m, l, heads, lo, hi) && 2 * n < BIG && heads[2 * n] != 0
    ensures var a := heads[2 * n];
            && l.lists[2 * n] != [] && a < |m| && m[a] >= 0
            && WellFormed(m[a := n], Taken(l, 2 * n, 0), heads[2 * n := m[a]], lo, hi)
            && Allocated(m, m[a := n], l, Taken(l, 2 * n, 0), lo, lo, a, n)
  {
    BucketTake(m, l, heads, lo, hi, n);
    var a := heads[2 * n];
    KeptElsewhere(l, lo, hi, m, m[a := n], a);
    TakenAllocates(m, m[a := n], l, lo, hi, 2 * n, 0, n);
    hide *;
  }

  lemma HeadOf(m: seq<int>, l: Layout, heads: seq<nat>, lo: nat, hi: nat, k: nat)
    requires WellFormed(m, l, heads, lo, hi) && k < LIVE
    ensures heads[k] == 0 <==> l.lists[k] == []
    ensures l.lists[k] != [] ==> heads[k] == l.lists[k][0]
  {
    assert Chain(m, heads[k], l.lists[k], Off(k));
    if l.lists[k] != [] {
      OnListHome(l, lo, hi, k, 0);
    }
  }

  lemma BigTake(m: seq<int>, l: Layout, heads: seq<nat>, lo: nat, hi: nat, i: nat, n: nat)
    requires WellFormed(m, l, heads, lo, hi) && i < |l.lists[BIG]| && l.lists[BIG][i] in l.sizes
             && l.sizes[l.lists[BIG][i]] >= n
    ensures var a: nat := l.lists[BIG][i];
            && a + 1 < |m| && m[a + 1] >= 0 && m[a] == l.sizes[a]
            && (i > 0 ==> l.lists[BIG][i - 1] + 1 < |m|)
            && var m' := if i == 0 then m else m[l.lists[BIG][i - 1] + 1 := m[a + 1]];
               && WellFormed(m', Taken(l, BIG, i), if i == 0 then heads[BIG := m[a + 1]] else heads, lo, hi)
               && Allocated(m, m', l, Taken(l, BIG, i), lo, lo, a, n)
  {
    var a: nat := l.lists[BIG][i];
    Take(m, l, heads, lo, hi, BIG, i);
    TilesDisjoint(l.sizes, lo, hi);
    var m' := Unlinked(m, l.lists[BIG], 1, i);
    assert m'[a := l.sizes[a]] == m' by {
      if i > 0 {
        OnListHome(l, lo, hi, BIG, i - 1);
        assert OnList(l.home, l.lists[BIG], BIG);
        Apart(l, lo, hi, l.lists[BIG][i - 1], a);
      }
    }
    if i > 0 {
      OnListHome(l, lo, hi, BIG, i - 1);
      KeptElsewhere(l, lo, hi, m, m', l.lists[BIG][i - 1]);
    }
    assert Kept(l, m, m');
    hide WellFormed, Kept, Taken;
    TakenAllocates(m, m', l, lo, hi, BIG, i, n);
  }

  lemma BigSplit(m: seq<int>, l: Layout, heads: seq<nat>, lo: nat, hi: nat, i: nat, n: nat)
    requires WellFormed(m, l, heads, lo, hi) && i < |l.lists[BIG]| && l.lists[BIG][i] in l.sizes
    requires 2 <= n && n + 2 <= l.sizes[l.lists[BIG][i]]
    ensures var a: nat := l.lists[BIG][i];
            var s := l.sizes[a] - n;
            && a + s + n <= |m| && m[a] == l.sizes[a]
            && var m', l' := m[a := s][a + s := n], Added(l, Split(l.sizes, a, n), a + s);
               WellFormed(m', l', heads, lo, hi) && Allocated(m, m', l, l', lo, lo, a + s, n)
  {
    var a: nat := l.lists[BIG][i];
    var s := l.sizes[a] - n;
    OnListHome(l, lo, hi, BIG, i);
    SplitBig(m, l, heads, lo, hi, i, n);
    TilesDisjoint(l.sizes, lo, hi);
    var m', l' := m[a := s][a + s := n], Added(l, Split(l.sizes, a, n), a + s);
    KeptElsewhere(l, lo, hi, m, m', a);
    hide WellFormed, Kept, Blocks;
    assert Gained(l, l', a + s, n);
  }

  lemma GrowStep(m: seq<int>, l: Layout, heads: seq<nat>, lo: nat, hi: nat, n: nat)
    requires WellFormed(m, l, heads, lo, hi) && 2 <= n < lo
    ensures var c, m', l' := lo - n, m[lo - n := n], Added(l, l.sizes[lo - n := n], lo - n);
            lo <= |m| && WellFormed(m', l', heads, c, hi) && Allocated(m, m', l, l', lo, c, c, n)
  {
    Grow(m, l, heads, lo, hi, n);
    TilesDisjoint(l.sizes, lo, hi);
    hide WellFormed;
    assert Gained(l, Added(l, l.sizes[lo - n := n], lo - n), lo - n, n);
    assert Kept(l, m, m[lo - n := n]);
  }

  predicate BigTooSmall(l: Layout, n: nat) {
    BIG < |l.lists| && forall a | a in l.lists[BIG] && a in l.sizes :: l.sizes[a] < n
  }

  /** A node of the big list: its size and its link. */
  lemma BigNode(m: seq<int>, l: Layout, heads: seq<nat>, lo: nat, hi: nat, i: nat)
    requires WellFormed(m, l, heads, lo, hi) && i < |l.lists[BIG]|
    ensures var a: nat := l.lists[BIG][i];
            0 < a && a + 1 < |m| && a in l.sizes && m[a] == l.sizes[a] && m[a + 1] == Nth(l.lists[BIG], i + 1)
  {
    OnListHome(l, lo, hi, BIG, i);
    assert Chain(m, heads[BIG], l.lists[BIG], Off(BIG)) && Linked(m, l.lists[BIG], i, 1);
  }

  /** Block a is not in use any more, and nothing else changed for the blocks in use. */
  ghost predicate Lost(l: Layout, l': Layout, a: nat) {
    !IsLive(l', a) && forall b | b != a :: IsLive(l', b) == IsLive(l, b) && (IsLive(l, b) ==> l'.sizes[b] == l.sizes[b])
  }

  lemma KeptAfterGive(l: Layout, l': Layout, lo: nat, hi: nat, m: seq<int>, a: nat, off: nat, v: int)
    requires Blocks(l, lo, hi) && hi <= |m| && IsLive(l, a) && off < 2 && a + off < |m| && Lost(l, l', a)
    ensures Kept(l', m, m[a + off := v])
  {
    TilesDisjoint(l.sizes, lo, hi);
    hide Blocks;
    var m' := m[a + off := v];
    forall b: nat, x: nat | IsLive(l', b) && b <= x < b + l'.sizes[b] && x < |m| ensures m'[x] == m[x] {
      assert IsLive(l, b) && b != a;
      assert b + l.sizes[b] <= a || a + l.sizes[a] <= b;
    }
  }

  lemma GiveStep(m: seq<int>, l: Layout, heads: seq<nat>, lo: nat, hi: nat, a: nat, k: nat)
    requires WellFormed(m, l, heads, lo, hi) && IsLive(l, a) && k <= BIG && (k < BIG ==> k == 2 * l.sizes[a])
    ensures a + 1 < |m| && lo <= a
    ensures var m', l' := m[a + Off(k) := heads[k]], Given(l, k, a);
            WellFormed(m', l', heads[k := a], lo, hi) && Lost(l, l', a) && Kept(l', m, m')
  {
    Give(m, l, heads, lo, hi, k, a);
    TilesDisjoint(l.sizes, lo, hi);
    assert Lost(l, Given(l, k, a), a);
    hide Lost, Given, Tiles, Listed, Sized, Threaded, Kept;
    KeptAfterGive(l, Given(l, k, a), lo, hi, m, a, Off(k), heads[k]);
  }

  lemma ShrinkStep(m: seq<int>, l: Layout, heads: seq<nat>, lo: nat, hi: nat)
    requires WellFormed(m, l, heads, lo, hi) && IsLive(l, lo)
    ensures lo < |m| && m[lo] == l.sizes[lo] && lo + l.sizes[lo] <= hi
    ensures WellFormed(m, Removed(l, lo), heads, lo + l.sizes[lo], hi) && Lost(l, Removed(l, lo), lo)
  {
    Shrink(m, l, heads, lo, hi);
    TilesDisjoint(l.sizes, lo, hi);
    assert m[lo] == l.sizes[lo];
    hide WellFormed;
  }

  lemma LiveInside(m: seq<int>, l: Layout, heads: seq<nat>, lo: nat, hi: nat, a: nat)
    requires WellFormed(m, l, heads, lo, hi) && IsLive(l, a)
    ensures lo <= a && a + l.sizes[a] <= hi
  {
    TilesDisjoint(l.sizes, lo, hi);
  }

  /** The size word of a block in use. */
  lemma LiveHeader(m: seq<int>, l: Layout, heads: seq<nat>, lo: nat, hi: nat, a: nat)
    requires WellFormed(m, l, heads, lo, hi) && IsLive(l, a)
    ensures a + 1 < |m| && lo <= a && m[a] == l.sizes[a] >= 2
  {
    TilesDisjoint(l.sizes, lo, hi);
  }

  lemma GainedLive(l: Layout, l': Layout, a: nat, n: nat)
    requires Gained(l, l', a, n)
    ensures IsLive(l', a) && l'.sizes[a] >= n
  { }

  // ----- stack frames -----

  function LastFrame(frames: seq<nat>, base: nat): nat { if frames == [] then base else frames[|frames| - 1] }

  /** The frames pushed so far, each holding the address of the one before. */
  ghost predicate Framed(m: seq<int>, frames: seq<nat>, base: nat, top: nat, frame: nat) {
    && frame == LastFrame(frames, base) && top <= |m|
    && (forall i | 0 <= i < |frames| :: base <= frames[i] < top && m[frames[i]] == LastFrame(frames[..i], base))
    && (forall i, j | 0 <= i < j < |frames| :: frames[i] < frames[j])
  }

  /** Frames lie below the top of the stack. */
  lemma FramesKept(m: seq<int>, m': seq<int>, frames: seq<nat>, base: nat, top: nat, frame: nat)
    requires Framed(m, frames, base, top, frame) && |m'| == |m| && forall x | 0 <= x < top :: m'[x] == m[x]
    ensures Framed(m', frames, base, top, frame)
  { }

  /** Clearing the new block touches no other block in use. */
  lemma ClearKeeps(l: Layout, l': Layout, heads: seq<nat>, lo: nat, hi: nat, m: seq<int>, m1: seq<int>, m2: seq<int>,
                   a: nat, n: nat)
    requires Gained(l, l', a, n) && Kept(l, m, m1) && WellFormed(m2, l', heads, lo, hi) && |m2| == |m1|
    requires forall x | 0 <= x < |m1| && !(a < x < a + n) :: m2[x] == m1[x]
    ensures Kept(l, m, m2)
  {
    TilesDisjoint(l'.sizes, lo, hi);
    hide WellFormed;
    forall b: nat, x: nat | IsLive(l, b) && b <= x < b + l.sizes[b] && x < |m| ensures m2[x] == m[x] {
      assert IsLive(l', b) && b != a;
      assert b + l'.sizes[b] <= a || a + l'.sizes[a] <= b;
    }
  }

  /** 256 to the power n, for the bytes of a word. */
  function LowBytes(n: nat): nat
    requires n < 8
    ensures LowBytes(n) > 0
  {
    Bits.Exp2Positive(8 * n);
    Bits.Exp2(8 * n)
  }

  lemma LowCleared(w: int, p: nat)
    requires p > 0
    ensures (w - w % p) % p == 0
  {
    assert w - w % p == p * (w / p);
    MultipleMod(w / p, p);
  }

  lemma MultipleMod(q: int, p: nat)
    requires p > 0
    ensures (p * q) % p == 0
  {
    Bits.DivUnique(p * q, p, q, 0);
  }

  /** The stack grows above all frames. */
  lemma FramesUp(m: seq<int>, m': seq<int>, frames: seq<nat>, base: nat, top: nat, top': nat, frame: nat)
    requires Framed(m, frames, base, top, frame) && |m'| == |m| && top <= top' <= |m| && forall x | 0 <= x < top ::
              m'[x] == m[x]
    ensures Framed(m', frames, base, top', frame)
  { }

  lemma FramesPush(m: seq<int>, m': seq<int>, frames: seq<nat>, base: nat, top: nat, frame: nat)
    requires Framed(m, frames, base, top, frame) && base <= top < |m| && m' == m[top := frame]
    ensures Framed(m', frames + [top], base, top + 1, top)
  {
    var frames' := frames + [top];
    forall i | 0 <= i < |frames'| ensures base <= frames'[i] < top + 1
        && m'[frames'[i]] == LastFrame(frames'[..i], base) {
      assert frames'[..i] == frames[..i];
      assert i == |frames| ==> frames[..i] == frames;
    }
  }

  lemma FramesPop(m: seq<int>, frames: seq<nat>, base: nat, top: nat, frame: nat)
    requires Framed(m, frames, base, top, frame) && frames != [] && 0 < base
    ensures frame < |m| && m[frame] > 0 && base <= frame < top
    ensures Framed(m, frames[..|frames| - 1], base, frame, m[frame])
  {
    var frames' := frames[..|frames| - 1];
    assert frame == frames[|frames| - 1];
    forall i | 0 <= i < |frames'| ensures base <= frames'[i] < frame && m[frames'[i]] == LastFrame(frames'[..i], base) {
      assert frames'[..i] == frames[..i];
    }
  }

  lemma FramesStore(m: seq<int>, frames: seq<nat>, base: nat, top: nat, frame: nat, x: nat, v: int)
    requires Framed(m, frames, base, top, frame) && x < |m| && x !in frames
    ensures Framed(m[x := v], frames, base, top, frame)
  { }

  /** A store into the stack below the heap, or into the body of a block in use, disturbs no list. */
  lemma StoreStep(m: seq<int>, l: Layout, heads: seq<nat>, lo: nat, hi: nat, x: nat, v: int, onStack: bool)
    requires WellFormed(m, l, heads, lo, hi)
    requires if onStack then x < lo else exists a: nat | IsLive(l, a) :: a < x < a + l.sizes[a]
    ensures x < |m| && (!onStack ==> lo < x) && WellFormed(m[x := v], l, heads, lo, hi)
  {
    TilesDisjoint(l.sizes, lo, hi);
    hide WellFormed;
    if onStack {
      WriteBelow(m, m[x := v], l, heads, lo, hi);
    } else {
      var a: nat :| IsLive(l, a) && a < x < a + l.sizes[a];
      WriteBody(m, m[x := v], l, heads, lo, hi, a);
    }
  }

  class Heap {
    const mem: array<int>
    const base: nat
    const end: nat
    var heapBottom: nat
    var stackTop: nat
    var stackFrame: nat
    var freeListBucket: seq<nat>
    var freeListBig: nat
    ghost var layout: Layout
    ghost var frames: seq<nat>

    ghost function Heads(): seq<nat>
      reads this
    {
      freeListBucket + [freeListBig]
    }

    ghost predicate HeapOk()
      reads this, mem
    {
      && |freeListBucket| == FREELIST_BUCKETS && 0 < base <= stackTop <= heapBottom <= end <= mem.Length
      && |layout.lists| == LIVE && WellFormed(mem[..], layout, Heads(), heapBottom, end)
    }

    ghost predicate Valid()
      reads this, mem
    {
      HeapOk() && Framed(mem[..], frames, base, stackTop, stackFrame)
    }

    constructor (size: nat)
      requires size >= 16 && size % 8 == 0
      ensures Valid() && fresh(mem) && frames == [] && stackTop == stackFrame == base && heapBottom == end
      ensures layout.sizes == map[] && end - base == size / 8 - 1
    {
      var arena := new int[1 + size / 8];
      arena[1] := 0;
      mem, base, end := arena, 1, size / 8;
      stackFrame, stackTop, heapBottom := 1, 1, size / 8;
      freeListBig, freeListBucket := 0, seq(8, _ => 0);
      layout, frames := Layout(map[], map[], seq(9, _ => [])), [];
    }

    /** No bucket block of the right size, no big block large enough, and too little space in the middle. */
    ghost predicate NoRoom(n: nat)
      reads this
    {
      && |layout.lists| == LIVE && (2 * n < FREELIST_BUCKETS ==> layout.lists[2 * n] == [])
      && BigTooSmall(layout, n) && heapBottom < stackTop + n
    }

    method TakeFromBucket(n: nat) returns (a: nat)
      requires HeapOk() && 2 <= n && 2 * n < FREELIST_BUCKETS && freeListBucket[2 * n] != 0
      modifies this`freeListBucket, this`layout, mem
      ensures HeapOk() && Allocated(old(mem[..]), mem[..], old(layout), layout, heapBottom, heapBottom, a, n)
    {
      hide WellFormed, Allocated, Taken;
      ghost var m, heads := mem[..], Heads();
      BucketStep(m, layout, heads, heapBottom, end, n);
      layout := Taken(layout, 2 * n, 0);
      a := freeListBucket[2 * n];
      freeListBucket := freeListBucket[2 * n := mem[a]];
      mem[a] := n;
      assert mem[..] == m[a := n] && Heads() == heads[2 * n := m[a]];
    }

    /** First fit: walks the big list to the first block that is large enough. prev is the node before
        it, 0 at the head of the list. */
    method FindBig(n: nat) returns (prev: nat, cur: nat, ghost i: nat)
      requires HeapOk()
      ensures i <= |layout.lists[BIG]| && cur == Nth(layout.lists[BIG], i) && (i < |layout.lists[BIG]| ==> cur != 0)
      ensures prev == if i == 0 then 0 else layout.lists[BIG][i - 1]
      ensures forall j | 0 <= j < i :: layout.lists[BIG][j] in layout.sizes && layout.sizes[layout.lists[BIG][j]] < n
      ensures i < |layout.lists[BIG]| ==> cur < mem.Length && cur in layout.sizes && mem[cur] == layout.sizes[cur] >= n
    {
      ghost var list := layout.lists[BIG];
      HeadOf(mem[..], layout, Heads(), heapBottom, end, BIG);
      assert Heads()[BIG] == freeListBig;
      prev, cur, i := 0, freeListBig, 0;
      if list != [] {
        BigNode(mem[..], layout, Heads(), heapBottom, end, 0);
      }
      while cur != 0 && mem[cur] < n
        invariant i <= |list| && cur == Nth(list, i) && prev == (if i == 0 then 0 else list[i - 1])
        invariant i < |list| ==> 0 < cur && cur + 1 < mem.Length && cur in layout.sizes
        invariant i < |list| ==> mem[cur] == layout.sizes[cur] && mem[cur + 1] == Nth(list, i + 1)
        invariant forall j | 0 <= j < i :: list[j] in layout.sizes && layout.sizes[list[j]] < n
        decreases |list| - i
      {
        prev, cur, i := cur, mem[cur + 1], i + 1;
        if i < |list| {
          BigNode(mem[..], layout, Heads(), heapBottom, end, i);
        }
      }
    }

    /** Takes the whole block: it is close in size. */
    method UnlinkBig(prev: nat, cur: nat, ghost i: nat, n: nat)
      requires HeapOk() && i < |layout.lists[BIG]| && cur == layout.lists[BIG][i] && cur in layout.sizes
               && layout.sizes[cur] >= n
      requires prev == if i == 0 then 0 else layout.lists[BIG][i - 1]
      requires i > 0 ==> prev != 0
      modifies this`freeListBig, this`layout, mem
      ensures HeapOk() && Allocated(old(mem[..]), mem[..], old(layout), layout, heapBottom, heapBottom, cur, n)
    {
      hide WellFormed, Allocated, Taken;
      ghost var m, l, heads := mem[..], layout, Heads();
      BigTake(m, l, heads, heapBottom, end, i, n);
      layout := Taken(l, BIG, i);
      if prev == 0 {
        freeListBig := mem[cur + 1];
      } else {
        mem[prev + 1] := mem[cur + 1];
      }
      assert mem[..] == if i == 0 then m else m[prev + 1 := m[cur + 1]];
      assert Heads() == if i == 0 then heads[BIG := m[cur + 1]] else heads;
    }

    /** Cuts the end off a block that stays on the list. */
    method CarveBig(cur: nat, ghost i: nat, n: nat) returns (a: nat)
      requires HeapOk() && i < |layout.lists[BIG]| && cur == layout.lists[BIG][i] && cur in layout.sizes
      requires 2 <= n && n + SPLIT_MEM_THRESHOLD <= layout.sizes[cur]
      modifies this`layout, mem
      ensures HeapOk() && Allocated(old(mem[..]), mem[..], old(layout), layout, heapBottom, heapBottom, a, n)
    {
      hide WellFormed, Allocated, Added, Split;
      ghost var m, l, heads := mem[..], layout, Heads();
      BigSplit(m, l, heads, heapBottom, end, i, n);
      a := cur + mem[cur] - n;
      layout := Added(l, Split(l.sizes, cur, n), a);
      mem[cur] := mem[cur] - n;
      mem[a] := n;
      assert mem[..] == m[cur := l.sizes[cur] - n][a := n];
    }

    method TakeFromBig(n: nat) returns (a: nat)
      requires HeapOk() && 2 <= n
      modifies this`freeListBig, this`layout, mem
      ensures HeapOk() && (a == 0 <==> BigTooSmall(old(layout), n))
      ensures a == 0 ==> layout == old(layout) && freeListBig == old(freeListBig) && mem[..] == old(mem[..])
      ensures a != 0 ==> Allocated(old(mem[..]), mem[..], old(layout), layout, heapBottom, heapBottom, a, n)
    {
      var prev, cur;
      ghost var i;
      prev, cur, i := FindBig(n);
      if cur == 0 {
        return 0;
      }
      ghost var l := layout;
      assert l.lists[BIG][i] == cur && cur in l.lists[BIG] && !BigTooSmall(l, n);
      if i > 0 {
        BigNode(mem[..], layout, Heads(), heapBottom, end, i - 1);
      }
      hide HeapOk;
      if mem[cur] < n + SPLIT_MEM_THRESHOLD {
        UnlinkBig(prev, cur, i, n);
        a := cur;
      } else {
        a := CarveBig(cur, i, n);
      }
    }

    method GrowHeap(n: nat) returns (a: nat)
      requires HeapOk() && 2 <= n
      modifies this`heapBottom, this`layout, mem
      ensures HeapOk() && (a == 0 <==> old(heapBottom) < stackTop + n)
      ensures a == 0 ==> heapBottom == old(heapBottom) && layout == old(layout) && mem[..] == old(mem[..])
      ensures a != 0 ==> Allocated(old(mem[..]), mem[..], old(layout), layout, old(heapBottom), heapBottom, a, n)
    {
      if heapBottom < stackTop + n {
        return 0;
      }
      hide WellFormed, Allocated, Added;
      ghost var m, l := mem[..], layout;
      GrowStep(m, l, Heads(), heapBottom, end, n);
      layout := Added(l, l.sizes[heapBottom - n := n], heapBottom - n);
      heapBottom := heapBottom - n;
      a := heapBottom;
      mem[a] := n;
      assert mem[..] == m[a := n];
    }

    /** Clears the body of a block in use. */
    method Clear(a: nat, n: nat)
      requires HeapOk() && IsLive(layout, a) && layout.sizes[a] >= n
      modifies mem
      ensures HeapOk() && forall x | a < x < a + n && x < mem.Length :: mem[x] == 0
      ensures forall x | 0 <= x < mem.Length && !(a < x < a + n) :: mem[x] == old(mem[x])
    {
      LiveInside(mem[..], layout, Heads(), heapBottom, end, a);
      hide WellFormed;
      ghost var m := mem[..];
      var x := a + 1;
      while x < a + n
        invariant a < x && (x <= a + n || n == 0) && (n == 0 ==> x == a + 1)
        invariant forall y | a < y < x && y < mem.Length :: y < a + n ==> mem[y] == 0
        invariant forall y | 0 <= y < mem.Length && !(a < y < a + n) :: mem[y] == m[y]
      {
        mem[x] := 0;
        x := x + 1;
      }
      WriteBody(m, mem[..], layout, Heads(), heapBottom, end, a);
    }

    /** A block of n words: from its bucket, else from the big list, else from the space in the middle. */
    method FindBlock(n: nat) returns (a: nat)
      requires HeapOk() && 2 <= n
      modifies this`heapBottom, this`freeListBucket, this`freeListBig, this`layout, mem
      ensures HeapOk() && (a == 0 <==> old(NoRoom(n)))
      ensures a == 0 ==> layout == old(layout) && Heads() == old(Heads()) && heapBottom == old(heapBottom)
      ensures a == 0 ==> mem[..] == old(mem[..])
      ensures a != 0 ==> Allocated(old(mem[..]), mem[..], old(layout), layout, old(heapBottom), heapBottom, a, n)
    {
      ghost var l, bottom := layout, heapBottom;
      HeadOf(mem[..], l, Heads(), heapBottom, end, if 2 * n < FREELIST_BUCKETS then 2 * n else BIG);
      HeadOf(mem[..], l, Heads(), heapBottom, end, BIG);
      assert (2 * n < FREELIST_BUCKETS ==> Heads()[2 * n] == freeListBucket[2 * n]) && Heads()[BIG] == freeListBig;
      assert |l.lists| == LIVE;
      hide HeapOk;
      a := 0;
      if 2 * n < FREELIST_BUCKETS && freeListBucket[2 * n] != 0 {
        a := TakeFromBucket(n);
        assert a != 0;
      } else if freeListBig != 0 {
        a := TakeFromBig(n);
      }
      if a == 0 {
        a := GrowHeap(n);
      }
    }

    /** Allocates a cleared block for size bytes; ptr is the word after its size word. */
    method HeapAllocMem(size: nat) returns (ptr: nat)
      requires Valid()
      modifies this`heapBottom, this`freeListBucket, this`freeListBig, this`layout, mem
      ensures Valid()
      ensures ptr == 0 <==> size == 0 || old(NoRoom(AllocWords(size)))
      ensures ptr == 0 ==> layout == old(layout) && heapBottom == old(heapBottom) && mem[..] == old(mem[..])
      ensures ptr != 0 ==> IsLive(layout, ptr - 1) && 8 * (layout.sizes[ptr - 1] - 1) >= size
      ensures ptr != 0 ==>
                && Gained(old(layout), layout, ptr - 1, AllocWords(size))
                && Kept(old(layout), old(mem[..]), mem[..])
                && (forall x | ptr <= x < ptr - 1 + AllocWords(size) && x < mem.Length :: mem[x] == 0)
                && (forall x | 0 <= x < stackTop :: mem[x] == old(mem[x]))
    {
      hide WellFormed, Kept, AllocWords, Gained, NoRoom;
      if size == 0 {
        return 0;
      }
      ghost var m, l := mem[..], layout;
      var n := AllocWords(size);
      var a := FindBlock(n);
      if a == 0 {
        return 0;
      }
      ghost var m1 := mem[..];
      assert forall x | 0 <= x < stackTop :: m1[x] == m[x];
      GainedLive(l, layout, a, n);
      Clear(a, n);
      assert forall x | 0 <= x < stackTop :: mem[..][x] == m[x];
      ClearKeeps(l, layout, Heads(), heapBottom, end, m, m1, mem[..], a, n);
      FramesKept(m, mem[..], frames, base, stackTop, stackFrame);
      ptr := a + 1;
    }

    /** The lowest block goes back to the space in the middle. */
    method PopBottom()
      requires HeapOk() && IsLive(layout, heapBottom)
      modifies this`heapBottom, this`layout
      ensures HeapOk() && heapBottom > old(heapBottom) && Lost(old(layout), layout, old(heapBottom))
    {
      ShrinkStep(mem[..], layout, Heads(), heapBottom, end);
      LiveHeader(mem[..], layout, Heads(), heapBottom, end, heapBottom);
      hide WellFormed, Lost, Removed;
      layout, heapBottom := Removed(layout, heapBottom), heapBottom + mem[heapBottom];
    }

    method FreeToBucket(node: nat)
      requires HeapOk() && IsLive(layout, node) && 2 * layout.sizes[node] < FREELIST_BUCKETS
      modifies this`freeListBucket, this`layout, mem
      ensures HeapOk() && Lost(old(layout), layout, node) && Kept(layout, old(mem[..]), mem[..])
      ensures forall x | 0 <= x < heapBottom :: mem[x] == old(mem[x])
    {
      ghost var m, l, heads := mem[..], layout, Heads();
      LiveHeader(m, l, heads, heapBottom, end, node);
      var bucket := 2 * mem[node];
      GiveStep(m, l, heads, heapBottom, end, node, bucket);
      hide WellFormed, Lost, Kept, Given;
      mem[node] := freeListBucket[bucket];
      freeListBucket := freeListBucket[bucket := node];
      layout := Given(l, bucket, node);
      assert mem[..] == m[node := heads[bucket]] && Heads() == heads[bucket := node];
    }

    method FreeToBig(node: nat)
      requires HeapOk() && IsLive(layout, node)
      modifies this`freeListBig, this`layout, mem
      ensures HeapOk() && Lost(old(layout), layout, node) && Kept(layout, old(mem[..]), mem[..])
      ensures forall x | 0 <= x < heapBottom :: mem[x] == old(mem[x])
    {
      ghost var m, l, heads := mem[..], layout, Heads();
      GiveStep(m, l, heads, heapBottom, end, node, BIG);
      hide WellFormed, Lost, Kept, Given;
      mem[node + 1] := freeListBig;
      freeListBig := node;
      layout := Given(l, BIG, node);
      assert mem[..] == m[node + 1 := heads[BIG]] && Heads() == heads[BIG := node];
    }

    /** Gives a block back: to the space in the middle if it is the lowest, else to a list. */
    method HeapFreeMem(ptr: nat)
      requires Valid() && ptr > 0 && IsLive(layout, ptr - 1)
      modifies this`heapBottom, this`freeListBucket, this`freeListBig, this`layout, mem
      ensures Valid() && heapBottom >= old(heapBottom)
      ensures Lost(old(layout), layout, ptr - 1) && Kept(layout, old(mem[..]), mem[..])
      ensures forall x | 0 <= x < stackTop :: mem[x] == old(mem[x])
    {
      var node := ptr - 1;
      ghost var m := mem[..];
      LiveHeader(m, layout, Heads(), heapBottom, end, node);
      hide WellFormed, Lost;
      if node == heapBottom {
        PopBottom();
      } else if 2 * mem[node] < FREELIST_BUCKETS {
        FreeToBucket(node);
      } else {
        FreeToBig(node);
      }
      FramesKept(m, mem[..], frames, base, stackTop, stackFrame);
    }

    // ----- the stack -----

    /** Allocates on the stack and clears as many bytes as were asked for. */
    method HeapAllocStack(size: nat) returns (ptr: nat)
      requires Valid()
      modifies this`stackTop, mem
      ensures Valid()
      ensures ptr == 0 <==> old(stackTop) + Words(size) > heapBottom
      ensures ptr == 0 ==> stackTop == old(stackTop) && mem[..] == old(mem[..])
      ensures ptr != 0 ==> ptr == old(stackTop) && stackTop == ptr + Words(size)
      ensures ptr != 0 ==> forall x | ptr <= x < ptr + size / 8 :: mem[x] == 0
      ensures ptr != 0 && size % 8 > 0 ==> mem[ptr + size / 8] % LowBytes(size % 8) == 0
      ensures forall x | 0 <= x < mem.Length && !(ptr != 0 && ptr <= x < ptr + Words(size)) :: mem[x] == old(mem[x])
    {
      hide WellFormed, LowBytes, Framed;
      var newTop := stackTop + Words(size);
      if newTop > heapBottom {
        return 0;
      }
      ptr := stackTop;
      ghost var m := mem[..];
      var full := size / 8;
      for i := 0 to full
        invariant forall x | ptr <= x < ptr + i :: mem[x] == 0
        invariant forall x | 0 <= x < mem.Length && !(ptr <= x < ptr + i) :: mem[x] == m[x]
      {
        mem[ptr + i] := 0;
      }
      if size % 8 > 0 {
        var last := mem[ptr + full];
        mem[ptr + full] := last - last % LowBytes(size % 8);
        LowCleared(last, LowBytes(size % 8));
      }
      WriteBelow(m, mem[..], layout, Heads(), heapBottom, end);
      stackTop := newTop;
      FramesUp(m, mem[..], frames, base, ptr, newTop, stackFrame);
    }

    /** Takes back space that was popped; the source does not check that there is any. */
    method HeapUnpopStack(size: nat)
      requires Valid() && stackTop + Words(size) <= heapBottom
      modifies this`stackTop
      ensures Valid() && stackTop == old(stackTop) + Words(size)
    {
      hide WellFormed;
      stackTop := stackTop + Words(size);
    }

    /** Pops what was pushed since the last frame. */
    method HeapPopStack(addr: nat, size: nat) returns (ok: bool)
      requires Valid() && (base + Words(size) <= stackTop ==> frames == [] || stackFrame < stackTop - Words(size))
      requires addr == 0 || stackTop == addr + Words(size)
      modifies this`stackTop
      ensures Valid() && (ok <==> base + Words(size) <= old(stackTop))
      ensures stackTop == if ok then old(stackTop) - Words(size) else old(stackTop)
    {
      hide WellFormed;
      var toLose := Words(size);
      if toLose > stackTop - base {
        return false;
      }
      stackTop := stackTop - toLose;
      return true;
    }

    method HeapPushStackFrame()
      requires Valid() && stackTop < heapBottom
      modifies this`stackTop, this`stackFrame, this`frames, mem
      ensures Valid() && frames == old(frames) + [old(stackTop)]
      ensures stackFrame == old(stackTop) && stackTop == old(stackTop) + 1
      ensures mem[..] == old(mem[..])[old(stackTop) := old(stackFrame)]
    {
      hide WellFormed, Framed;
      ghost var m := mem[..];
      mem[stackTop] := stackFrame;
      assert mem[..] == m[stackTop := stackFrame];
      WriteBelow(m, mem[..], layout, Heads(), heapBottom, end);
      FramesPush(m, mem[..], frames, base, stackTop, stackFrame);
      frames := frames + [stackTop];
      stackFrame := stackTop;
      stackTop := stackTop + 1;
    }

    /** Drops the current frame with everything in it. */
    method HeapPopStackFrame() returns (ok: bool)
      requires Valid() && frames != []
      modifies this`stackTop, this`stackFrame, this`frames
      ensures Valid() && ok && frames == old(frames)[..|old(frames)| - 1]
      ensures stackTop == old(frames)[|old(frames)| - 1] && stackFrame == LastFrame(frames, base)
    {
      hide WellFormed;
      FramesPop(mem[..], frames, base, stackTop, stackFrame);
      if mem[stackFrame] != 0 {
        stackTop := stackFrame;
        stackFrame := mem[stackFrame];
        frames := frames[..|frames| - 1];
        return true;
      }
      return false;
    }

    /** A store by the program: into the body of a block in use, or into its stack space. */
    ghost predicate MayStore(x: nat)
      reads this
    {
      || (base <= x < stackTop && x !in frames)
      || (exists a: nat | IsLive(layout, a) :: a < x < a + layout.sizes[a])
    }

    method Store(x: nat, v: int)
      requires Valid() && MayStore(x)
      modifies mem
      ensures Valid() && x < mem.Length && mem[x] == v
      ensures forall y | 0 <= y < mem.Length && y != x :: mem[y] == old(mem[y])
    {
      ghost var m := mem[..];
      StoreStep(m, layout, Heads(), heapBottom, end, x, v, base <= x < stackTop && x !in frames);
      hide WellFormed, IsLive;
      assert x !in frames;
      FramesStore(m, frames, base, stackTop, stackFrame, x, v);
      mem[x] := v;
      assert mem[..] == m[x := v];
    }
  }

  // ----- whole runs -----

  /** What a program asks for. Blocks it holds are named by their place in its list of them. */
  datatype Op =
    | AllocStack(size: nat)
    | UnpopStack(size: nat)
    | PopStack(size: nat)
    | StoreStack(x: nat, v: int)
    | AllocMem(size: nat)
    | FreeMem(i: nat)
    | StoreMem(i: nat, offset: nat, v: int)
    | InFrame(body: Ops)
  datatype Ops = NoOp | Then(op: Op, next: Ops)

  datatype Held = Gone | Held(ptr: nat, words: nat)

  /** The program holds different blocks, all of them in use. */
  ghost predicate Holding(l: Layout, held: seq<Held>) {
    && (forall i | 0 <= i < |held| && held[i].Held? ::
          held[i].ptr > 0 && IsLive(l, held[i].ptr - 1) && held[i].words < l.sizes[held[i].ptr - 1])
    && (forall i, j | 0 <= i < j < |held| && held[i].Held? && held[j].Held? :: held[i].ptr != held[j].ptr)
  }

  lemma HoldMore(l: Layout, l': Layout, held: seq<Held>, ptr: nat, words: nat)
    requires Holding(l, held) && ptr > 0 && Gained(l, l', ptr - 1, words + 1)
    ensures Holding(l', held + [Held(ptr, words)])
  { }

  lemma HoldLess(l: Layout, l': Layout, held: seq<Held>, i: nat)
    requires Holding(l, held) && i < |held| && held[i].Held? && Lost(l, l', held[i].ptr - 1)
    ensures Holding(l', held[i := Gone])
  { }

  // ----- what a program leaves alone -----

  /** The step stores into the block at place i, or frees it. */
  predicate Touches(op: Op, i: nat) {
    match op
    case FreeMem(j) => j == i
    case StoreMem(j, _, _) => j == i
    case InFrame(body) => TouchesAny(body, i)
    case _ => false
  }

  predicate TouchesAny(ops: Ops, i: nat) { ops.Then? && (Touches(ops.op, i) || TouchesAny(ops.next, i)) }

  /** What is held at place i is still held there, and its words are unchanged. */
  ghost predicate SameBlock(held: seq<Held>, held': seq<Held>, i: nat, m: seq<int>, m': seq<int>) {
    && i < |held| <= |held'| && held'[i] == held[i] && |m'| == |m|
    && (held[i].Held? ==> forall x | held[i].ptr <= x < held[i].ptr + held[i].words && x < |m| :: m'[x] == m[x])
  }

  ghost predicate LeftAlone(op: Op, held: seq<Held>, held': seq<Held>, m: seq<int>, m': seq<int>) {
    |held| <= |held'| && forall i | 0 <= i < |held| && !Touches(op, i) :: SameBlock(held, held', i, m, m')
  }

  ghost predicate AllLeftAlone(ops: Ops, held: seq<Held>, held': seq<Held>, m: seq<int>, m': seq<int>) {
    |held| <= |held'| && forall i | 0 <= i < |held| && !TouchesAny(ops, i) :: SameBlock(held, held', i, m, m')
  }

  ghost predicate SameBelow(n: nat, m: seq<int>, m': seq<int>) {
    |m'| == |m| && forall x | 0 <= x < n && x < |m| :: m'[x] == m[x]
  }

  lemma LeftAloneThen(ops: Ops, held: seq<Held>, held1: seq<Held>, held2: seq<Held>, m: seq<int>, m1: seq<int>,
                      m2: seq<int>)
    requires ops.Then? && LeftAlone(ops.op, held, held1, m, m1) && AllLeftAlone(ops.next, held1, held2, m1, m2)
    ensures AllLeftAlone(ops, held, held2, m, m2)
  {
    forall i | 0 <= i < |held| && !TouchesAny(ops, i) ensures SameBlock(held, held2, i, m, m2) {
      assert SameBlock(held, held1, i, m, m1) && SameBlock(held1, held2, i, m1, m2);
    }
  }

  /** A step that keeps the blocks in use. */
  lemma KeptLeavesAlone(op: Op, l: Layout, held: seq<Held>, held': seq<Held>, m: seq<int>, m': seq<int>)
    requires Holding(l, held') && Kept(l, m, m') && |held| <= |held'|
    requires forall i | 0 <= i < |held| && !Touches(op, i) :: held'[i] == held[i]
    ensures LeftAlone(op, held, held', m, m')
  {
    hide Touches;
    forall i | 0 <= i < |held| && !Touches(op, i) ensures SameBlock(held, held', i, m, m') {
      if held'[i].Held? {
        assert IsLive(l, held'[i].ptr - 1);
      }
    }
  }

  lemma LeftAloneAfter(ops: Ops, l: Layout, held: seq<Held>, held': seq<Held>, m: seq<int>, m1: seq<int>, m2: seq<int>)
    requires Holding(l, held) && Kept(l, m, m1) && AllLeftAlone(ops, held, held', m1, m2)
    ensures AllLeftAlone(ops, held, held', m, m2)
  {
    forall i | 0 <= i < |held| && !TouchesAny(ops, i) ensures SameBlock(held, held', i, m, m2) {
      assert SameBlock(held, held', i, m1, m2);
      if held[i].Held? {
        assert IsLive(l, held[i].ptr - 1);
      }
    }
  }

  lemma KeptAbove(m: seq<int>, l: Layout, heads: seq<nat>, lo: nat, hi: nat, m': seq<int>)
    requires WellFormed(m, l, heads, lo, hi) && |m'| == |m| && forall x | lo <= x < |m| :: m'[x] == m[x]
    ensures Kept(l, m, m')
  {
    TilesDisjoint(l.sizes, lo, hi);
  }

  lemma StoreLeavesAlone(m: seq<int>, l: Layout, heads: seq<nat>, lo: nat, hi: nat, held: seq<Held>, op: Op)
    requires WellFormed(m, l, heads, lo, hi) && Holding(l, held)
    requires op.StoreMem? && op.i < |held| && held[op.i].Held? && op.offset < held[op.i].words
    requires held[op.i].ptr + op.offset < |m|
    ensures LeftAlone(op, held, held, m, m[held[op.i].ptr + op.offset := op.v])
  {
    TilesDisjoint(l.sizes, lo, hi);
    hide WellFormed;
    var y := held[op.i].ptr + op.offset;
    forall i | 0 <= i < |held| && i != op.i && held[i].Held?
      ensures !(held[i].ptr <= y < held[i].ptr + held[i].words) {
      var a, b := held[i].ptr - 1, held[op.i].ptr - 1;
      assert a != b && (a + l.sizes[a] <= b || b + l.sizes[b] <= a);
    }
  }

  method AllocMemStep(h: Heap, held: seq<Held>, op: Op) returns (held': seq<Held>)
    requires h.Valid() && Holding(h.layout, held) && op.AllocMem?
    modifies h, h.mem
    ensures h.Valid() && h.frames == old(h.frames) && h.stackFrame == old(h.stackFrame) && Holding(h.layout, held')
    ensures LeftAlone(op, held, held', old(h.mem[..]), h.mem[..]) && SameBelow(h.stackTop, old(h.mem[..]), h.mem[..])
  {
    hide WellFormed, Framed, Gained, Kept, Holding, AllocWords;
    ghost var l, m := h.layout, h.mem[..];
    var ptr := h.HeapAllocMem(op.size);
    if ptr == 0 {
      return held;
    }
    HoldMore(l, h.layout, held, ptr, AllocWords(op.size) - 1);
    KeptLeavesAlone(op, l, held, held, m, h.mem[..]);
    held' := held + [Held(ptr, AllocWords(op.size) - 1)];
    assert forall i | 0 <= i < |held| :: held'[i] == held[i] && SameBlock(held, held, i, m, h.mem[..]);
  }

  method FreeMemStep(h: Heap, held: seq<Held>, op: Op) returns (held': seq<Held>)
    requires h.Valid() && Holding(h.layout, held) && op.FreeMem?
    modifies h, h.mem
    ensures h.Valid() && h.frames == old(h.frames) && h.stackFrame == old(h.stackFrame) && Holding(h.layout, held')
    ensures LeftAlone(op, held, held', old(h.mem[..]), h.mem[..]) && SameBelow(h.stackTop, old(h.mem[..]), h.mem[..])
  {
    hide WellFormed, Framed, Lost, Kept;
    var i := op.i;
    if i >= |held| || held[i].Gone? {
      return held;
    }
    ghost var l, m := h.layout, h.mem[..];
    h.HeapFreeMem(held[i].ptr);
    HoldLess(l, h.layout, held, i);
    held' := held[i := Gone];
    KeptLeavesAlone(op, h.layout, held, held', m, h.mem[..]);
  }

  /** The first word of the stack that belongs to the current frame. */
  ghost function Floor(h: Heap, depth: nat): nat
    reads h
  {
    if depth == 0 then h.base else h.stackFrame + 1
  }

  method StoreOwn(h: Heap, depth: nat, held: seq<Held>, op: Op)
    requires h.Valid() && depth == |h.frames| && Holding(h.layout, held) && (op.StoreStack? || op.StoreMem?)
    modifies h.mem
    ensures h.Valid() && LeftAlone(op, held, held, old(h.mem[..]), h.mem[..])
    ensures SameBelow(Floor(h, depth), old(h.mem[..]), h.mem[..])
  {
    hide WellFormed;
    ghost var m := h.mem[..];
    if op.StoreMem? {
      if op.i < |held| && held[op.i].Held? && op.offset < held[op.i].words {
        ghost var a := held[op.i].ptr - 1;
        assert IsLive(h.layout, a) && a < held[op.i].ptr + op.offset < a + h.layout.sizes[a];
        LiveInside(m, h.layout, h.Heads(), h.heapBottom, h.end, a);
        StoreLeavesAlone(m, h.layout, h.Heads(), h.heapBottom, h.end, held, op);
        h.Store(held[op.i].ptr + op.offset, op.v);
        assert h.mem[..] == m[held[op.i].ptr + op.offset := op.v];
      }
    } else if (if depth == 0 then h.base <= op.x else h.stackFrame < op.x) && op.x < h.stackTop {
      h.Store(op.x, op.v);
      KeptAbove(m, h.layout, h.Heads(), h.heapBottom, h.end, h.mem[..]);
      KeptLeavesAlone(op, h.layout, held, held, m, h.mem[..]);
    }
  }

  method AllocStackStep(h: Heap, held: seq<Held>, op: Op)
    requires h.Valid() && Holding(h.layout, held) && op.AllocStack?
    modifies h, h.mem
    ensures h.Valid() && h.frames == old(h.frames) && h.stackFrame == old(h.stackFrame) && h.layout == old(h.layout)
    ensures LeftAlone(op, held, held, old(h.mem[..]), h.mem[..])
    ensures SameBelow(old(h.stackTop), old(h.mem[..]), h.mem[..])
  {
    hide WellFormed, Framed, Holding;
    ghost var m := h.mem[..];
    var _ := h.HeapAllocStack(op.size);
    KeptAbove(m, h.layout, h.Heads(), h.heapBottom, h.end, h.mem[..]);
    KeptLeavesAlone(op, h.layout, held, held, m, h.mem[..]);
  }

  /** Takes one step of a program in a frame at the given depth, if well-nested use allows it: room for
      what the source does not check, pops above the current frame, stores into own space only. */
  method Perform(h: Heap, depth: nat, held: seq<Held>, op: Op) returns (held': seq<Held>)
    requires h.Valid() && depth == |h.frames| && Holding(h.layout, held)
    modifies h, h.mem
    ensures h.Valid() && h.frames == old(h.frames) && h.stackFrame == old(h.stackFrame) && Holding(h.layout, held')
    ensures op.InFrame? ==> h.stackTop == old(h.stackTop)
    ensures LeftAlone(op, held, held', old(h.mem[..]), h.mem[..])
    ensures SameBelow(Floor(h, depth), old(h.mem[..]), h.mem[..])
    decreases op
  {
    FloorBelow(h, depth);
    hide WellFormed, Framed, Holding;
    held' := held;
    match op
    case AllocStack(_) =>
      AllocStackStep(h, held, op);
    case UnpopStack(size) =>
      if h.stackTop + Words(size) <= h.heapBottom {
        h.HeapUnpopStack(size);
      }
    case PopStack(size) =>
      if depth == 0 || h.stackFrame + Words(size) < h.stackTop {
        var _ := h.HeapPopStack(0, size);
      }
    case AllocMem(_) =>
      held' := AllocMemStep(h, held, op);
    case FreeMem(_) =>
      held' := FreeMemStep(h, held, op);
    case InFrame(body) =>
      if h.stackTop < h.heapBottom {
        held' := CallInFrame(h, depth, held, body);
      }
    case _ =>
      StoreOwn(h, depth, held, op);
  }

  lemma KeptByPush(h: Heap, m': seq<int>)
    requires h.Valid() && h.stackTop < h.heapBottom && m' == h.mem[..][h.stackTop := h.stackFrame]
    ensures Kept(h.layout, h.mem[..], m')
  {
    KeptAbove(h.mem[..], h.layout, h.Heads(), h.heapBottom, h.end, m');
  }

  /** Whatever a program does in a frame, popping the frame restores the stack top and the frame pointer; the
      stack of the caller is as it was. */
  method CallInFrame(h: Heap, depth: nat, held: seq<Held>, body: Ops) returns (held': seq<Held>)
    requires h.Valid() && depth == |h.frames| && Holding(h.layout, held) && h.stackTop < h.heapBottom
    modifies h, h.mem
    ensures h.Valid() && h.frames == old(h.frames) && Holding(h.layout, held')
    ensures h.stackTop == old(h.stackTop) && h.stackFrame == old(h.stackFrame)
    ensures AllLeftAlone(body, held, held', old(h.mem[..]), h.mem[..])
    ensures SameBelow(h.stackTop, old(h.mem[..]), h.mem[..])
    decreases body, 1
  {
    assert h.stackFrame == LastFrame(h.frames, h.base);
    hide WellFormed, Framed, Holding, AllLeftAlone, Kept;
    ghost var m := h.mem[..];
    KeptByPush(h, m[h.stackTop := h.stackFrame]);
    h.HeapPushStackFrame();
    ghost var m1 := h.mem[..];
    held' := PerformAll(h, depth + 1, held, body);
    LeftAloneAfter(body, old(h.layout), held, held', m, m1, h.mem[..]);
    var ok := h.HeapPopStackFrame();
  }

  /** Every run of a program keeps stack and heap apart, the heap tiled by blocks in use and listed
      blocks, and the blocks it holds its own. Blocks that it neither stores into nor frees keep their words, and
      so do the frames below its own. */
  method PerformAll(h: Heap, depth: nat, held: seq<Held>, ops: Ops) returns (held': seq<Held>)
    requires h.Valid() && depth == |h.frames| && Holding(h.layout, held)
    modifies h, h.mem
    ensures h.Valid() && h.frames == old(h.frames) && h.stackFrame == old(h.stackFrame) && Holding(h.layout, held')
    ensures AllLeftAlone(ops, held, held', old(h.mem[..]), h.mem[..])
    ensures SameBelow(Floor(h, depth), old(h.mem[..]), h.mem[..])
    decreases ops, 0
  {
    held' := held;
    if ops.Then? {
      ghost var m := h.mem[..];
      var held1 := Perform(h, depth, held, ops.op);
      ghost var m1 := h.mem[..];
      held' := PerformAll(h, depth, held1, ops.next);
      LeftAloneThen(ops, held, held1, held', m, m1, h.mem[..]);
    }
  }

  lemma FloorBelow(h: Heap, depth: nat)
    requires h.Valid() && depth == |h.frames|
    ensures Floor(h, depth) <= h.stackTop
  { }

  /** In a valid heap every word above the heap bottom lies in exactly one block, and that block is either
      in use or on exactly one free list, at one place. */
  lemma OneBlock(m: seq<int>, l: Layout, heads: seq<nat>, lo: nat, hi: nat, x: nat) returns (a: nat, k: nat, i: nat)
    requires WellFormed(m, l, heads, lo, hi) && lo <= x < hi
    ensures a in l.sizes && a <= x < a + l.sizes[a] && forall b | b in l.sizes && b <= x < b + l.sizes[b] :: b == a
    ensures IsLive(l, a) || (k < LIVE && i < |l.lists[k]| && l.lists[k][i] == a)
    ensures forall k', i' | 0 <= k' < LIVE && 0 <= i' < |l.lists[k']| && l.lists[k'][i'] == a ::
              !IsLive(l, a) && k' == k && i' == i
  {
    a := TilesCover(l.sizes, lo, hi, x);
    k, i := l.home[a], 0;
    if k < LIVE {
      assert OnList(l.home, l.lists[k], k);
      i :| 0 <= i < |l.lists[k]| && l.lists[k][i] == a;
    }
    forall k', i' | 0 <= k' < LIVE && 0 <= i' < |l.lists[k']| && l.lists[k'][i'] == a ensures !IsLive(l, a) && k' == k
        && i' == i {
      assert OnList(l.home, l.lists[k'], k') && a in l.lists[k'];
    }
  }
}
