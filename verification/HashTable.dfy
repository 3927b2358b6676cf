/** The open-addressing hash table of libjl777/jl777hash.h: linear probing, growth by a factor of
    three. A slot is a pointer to an object that carries its own key; an object is its identity. */
module HashTable {
  import opened Basics

  datatype Slot = Empty | Full(id: nat, key: string)

  const M64: nat := 0x1_0000_0000_0000_0000

  // ----- the hash of a key -----

  function DigitFold(c: char, a: nat, h: nat): nat {
    if '0' <= c <= '9' then (h * a + (c as int - '0' as int)) % M64 else h
  }

  /** The fold over the rest of a key, with the running multiplier a and the hash so far. */
  function HashRest(key: string, a: nat, h: nat): (r: nat)
    requires h < M64
    ensures r < M64
  {
    if key == "" then h else HashRest(key[1..], a * 378551 % M64, DigitFold(key[0], a, h))
  }

  function Hash(key: string): (r: nat)
    ensures r < M64
  {
    HashRest(key, 63689, 0)
  }

  method CalcDecimalHash(key: string) returns (hashval: nat)
    ensures hashval == Hash(key)
  {
    hashval := 0;
    var a: nat, b: nat := 63689, 378551;
    for i := 0 to |key|
      invariant hashval < M64 && HashRest(key[i..], a, hashval) == Hash(key)
    {
      var c := key[i];
      assert key[i..][1..] == key[i + 1..];
      if '0' <= c <= '9' {
        hashval := (hashval * a + (c as int - '0' as int)) % M64;
      }
      a := a * b % M64;
    }
  }

  function Power(b: nat, n: nat): nat { if n == 0 then 1 else b * Power(b, n - 1) }

  /** The hash without bounds: a digit in place n multiplies what came before by 63689 * 378551^n and is added;
      other characters only take a place. */
  function Unbounded(key: string): nat {
    if key == "" then 0
    else
      var n := |key| - 1;
      if '0' <= key[n] <= '9' then Unbounded(key[..n]) * (63689 * Power(378551, n)) + (key[n] as int - '0' as int)
      else Unbounded(key[..n])
  }

  lemma {:induction false} HashLast(key: string, a: nat, h: nat)
    requires key != "" && h < M64
    ensures var n := |key| - 1;
            HashRest(key, a, h) == DigitFold(key[n], Multiplier(a, n), HashRest(key[..n], a, h))
    decreases |key|
  {
    var n := |key| - 1;
    if n == 0 {
      assert key[..0] == "" && key[1..] == "";
    } else {
      assert key[..n][1..] == key[1..][..n - 1] && key[1..][n - 1] == key[n] && key[..n][0] == key[0];
      HashLast(key[1..], a * 378551 % M64, DigitFold(key[0], a, h));
    }
  }

  /** The multiplier n places on. */
  function Multiplier(a: nat, n: nat): nat
    decreases n
  {
    if n == 0 then a else Multiplier(a * 378551 % M64, n - 1)
  }

  lemma {:induction false} MultiplierPower(a: nat, n: nat)
    ensures Multiplier(a, n) % M64 == a * Power(378551, n) % M64
    decreases n
  {
    if n > 0 {
      var b := a * 378551;
      PowerStep(a, b, n);
      MultiplierPower(b % M64, n - 1);
      hide Power, Multiplier;
      ModMul(b, b % M64, Power(378551, n - 1), Power(378551, n - 1));
    }
  }

  lemma PowerStep(a: nat, b: nat, n: nat)
    requires n > 0 && b == a * 378551
    ensures b * Power(378551, n - 1) == a * Power(378551, n)
    ensures Multiplier(a, n) == Multiplier(b % M64, n - 1)
  {
    Regrouped(a, Power(378551, n - 1));
  }

  lemma Regrouped(a: nat, p: nat)
    ensures (a * 378551) * p == a * (378551 * p)
  { }

  lemma AddMultiple(k: nat, z: nat)
    ensures (M64 * k + z) % M64 == z % M64
  { }

  lemma Product(p: nat, r: nat, y: nat)
    ensures (M64 * p + r) * y == M64 * (p * y) + r * y && r * y >= 0 && p * y >= 0
  { }

  lemma ModMul(x: nat, x': nat, y: nat, y': nat)
    requires x % M64 == x' % M64 && y % M64 == y' % M64
    ensures (x * y) % M64 == (x' * y') % M64
  {
    var r, t := x % M64, y % M64;
    Product(x / M64, r, y);
    Product(y / M64, t, r);
    Product(x' / M64, r, y');
    Product(y' / M64, t, r);
    assert r * y == y * r && r * y' == y' * r;
    AddMultiple((x / M64) * y, r * y);
    AddMultiple((y / M64) * r, t * r);
    AddMultiple((x' / M64) * y', r * y');
    AddMultiple((y' / M64) * r, t * r);
  }

  lemma ModAdd(x: nat, x': nat, d: nat)
    requires x % M64 == x' % M64
    ensures (x + d) % M64 == (x' + d) % M64
  {
    AddMultiple(x / M64, x % M64 + d);
    AddMultiple(x' / M64, x' % M64 + d);
  }

  /** The hash is the unbounded one modulo 2^64. */
  lemma {:induction false} HashValue(key: string)
    ensures Hash(key) == Unbounded(key) % M64
    decreases |key|
  {
    if key == "" {
      HashNothing();
    } else {
      var n := |key| - 1;
      HashValue(key[..n]);
      HashLast(key, 63689, 0);
      MultiplierPower(63689, n);
      UnboundedLast(key);
      hide HashRest, Power, Multiplier, Unbounded;
      LastDigit(key[n], HashRest(key[..n], 63689, 0), Unbounded(key[..n]), Multiplier(63689, n),
                63689 * Power(378551, n));
    }
  }

  lemma UnboundedLast(key: string)
    requires key != ""
    ensures var n := |key| - 1;
            var u := Unbounded(key[..n]);
            Unbounded(key) == if '0' <= key[n] <= '9' then u * (63689 * Power(378551, n)) + (key[n] as int - '0' as int)
                              else u
  { }

  lemma LastDigit(c: char, h: nat, u: nat, m: nat, a: nat)
    requires h == u % M64 && m % M64 == a % M64
    ensures DigitFold(c, m, h) == (if '0' <= c <= '9' then u * a + (c as int - '0' as int) else u) % M64
  {
    if '0' <= c <= '9' {
      ModMul(h, u, m, a);
      ModAdd(h * m, u * a, c as int - '0' as int);
    }
  }

  lemma HashNothing()
    ensures Hash("") == 0
  { }

  // ----- probing -----

  function Home(key: string, n: nat): (h: nat)
    requires n > 0
    ensures h < n
  {
    Hash(key) % n
  }

  /** The slot d places after h, cyclically. */
  function At(h: nat, d: nat, n: nat): nat
    requires h < n && d < n
  {
    if h + d < n then h + d else h + d - n
  }

  /** How many places i is after h, cyclically. */
  function Off(h: nat, i: nat, n: nat): (d: nat)
    requires h < n && i < n
    ensures d < n && At(h, d, n) == i
  {
    if i >= h then i - h else i + n - h
  }

  predicate Holds(s: Slot, key: string) { s.Full? && s.key == key }

  /** The first slot from offset d on that is empty or holds the key. */
  function Probe(slots: seq<Slot>, key: string, d: nat): Option<nat>
    requires |slots| > 0 && d <= |slots|
    decreases |slots| - d
  {
    if d == |slots| then None
    else
      var i := At(Home(key, |slots|), d, |slots|);
      if slots[i].Empty? || Holds(slots[i], key) then Some(i) else Probe(slots, key, d + 1)
  }

  /** None stands for HASHSEARCH_ERROR. */
  function Search(slots: seq<Slot>, key: string): Option<nat>
    requires |slots| > 0
  {
    if key == "" then None else Probe(slots, key, 0)
  }

  method SearchHashtable(slots: seq<Slot>, key: string) returns (r: Option<nat>)
    requires |slots| > 0
    ensures r == Search(slots, key)
  {
    if key == "" {
      return None;
    }
    var hashval := CalcDecimalHash(key);
    var ind := hashval % |slots|;
    for i := 0 to |slots|
      invariant ind == (if i == 0 then Home(key, |slots|) else At(Home(key, |slots|), i - 1, |slots|) + 1)
      invariant Probe(slots, key, i) == Search(slots, key)
    {
      if ind >= |slots| {
        ind := 0;
      }
      if slots[ind].Empty? {
        return Some(ind);
      }
      if slots[ind].key == key {
        return Some(ind);
      }
      ind := ind + 1;
    }
    return None;
  }

  // ----- the table invariant -----

  predicate UniqueKeys(slots: seq<Slot>) {
    forall i, j | 0 <= i < j < |slots| :: slots[i].Full? && slots[j].Full? ==> slots[i].key != slots[j].key
  }

  /** No gap between a key's home and the slot that holds it. */
  predicate NoGap(slots: seq<Slot>, i: nat)
    requires i < |slots|
  {
    slots[i].Full? ==>
      forall d | 0 <= d < Off(Home(slots[i].key, |slots|), i, |slots|) ::
                slots[At(Home(slots[i].key, |slots|), d, |slots|)].Full?
  }

  predicate WellFormed(slots: seq<Slot>) {
    && |slots| > 0 && UniqueKeys(slots)
    && (forall i | 0 <= i < |slots| :: NoGap(slots, i))
    && (forall i | 0 <= i < |slots| :: slots[i].Full? ==> slots[i].key != "")
  }

  function Count(slots: seq<Slot>): (n: nat)
    ensures n <= |slots|
  {
    if slots == [] then 0 else Count(slots[..|slots| - 1]) + (if slots[|slots| - 1].Full? then 1 else 0)
  }

  /** The finite map a table stands for. */
  function Contents(slots: seq<Slot>): map<string, nat> {
    if slots == [] then map[]
    else
      var m := Contents(slots[..|slots| - 1]);
      match slots[|slots| - 1]
      case Empty => m
      case Full(id, key) => m[key := id]
  }

  lemma {:induction false} ContentsOf(slots: seq<Slot>, key: string)
    requires UniqueKeys(slots)
    ensures key in Contents(slots) <==> exists i | 0 <= i < |slots| :: Holds(slots[i], key)
    ensures forall i | 0 <= i < |slots| :: Holds(slots[i], key) ==> Contents(slots)[key] == slots[i].id
  {
    if slots != [] {
      var init := slots[..|slots| - 1];
      ContentsOf(init, key);
      if exists i | 0 <= i < |slots| :: Holds(slots[i], key) {
        var i :| 0 <= i < |slots| && Holds(slots[i], key);
        if i < |init| {
          assert Holds(init[i], key);
        }
      }
    }
  }

  lemma {:induction false} CountUpdate(slots: seq<Slot>, i: nat, s: Slot)
    requires i < |slots| && slots[i].Empty? && s.Full?
    ensures Count(slots[i := s]) == Count(slots) + 1
  {
    var n := |slots| - 1;
    var u := slots[i := s];
    if i == n {
      assert u[..n] == slots[..n];
    } else {
      CountUpdate(slots[..n], i, s);
      assert u[..n] == slots[..n][i := s];
    }
  }

  lemma {:induction false} CountFull(slots: seq<Slot>)
    requires forall i | 0 <= i < |slots| :: slots[i].Full?
    ensures Count(slots) == |slots|
  {
    if slots != [] {
      CountFull(slots[..|slots| - 1]);
    }
  }

  /** What a probe finds: everything before it is full of other keys. */
  lemma {:induction false} ProbeResult(slots: seq<Slot>, key: string, d: nat)
    requires |slots| > 0 && d <= |slots|
    requires forall e | 0 <= e < d :: PassedOver(slots, key, e)
    ensures
      match Probe(slots, key, d)
      case None => forall e | 0 <= e < |slots| :: PassedOver(slots, key, e)
      case Some(i) =>
        && i < |slots| && (slots[i].Empty? || Holds(slots[i], key))
        && forall e | 0 <= e < Off(Home(key, |slots|), i, |slots|) :: PassedOver(slots, key, e)
    decreases |slots| - d
  {
    if d < |slots| {
      var i := At(Home(key, |slots|), d, |slots|);
      if !(slots[i].Empty? || Holds(slots[i], key)) {
        ProbeResult(slots, key, d + 1);
      }
    }
  }

  predicate PassedOver(slots: seq<Slot>, key: string, e: nat)
    requires |slots| > 0 && e < |slots|
  {
    var s := slots[At(Home(key, |slots|), e, |slots|)];
    s.Full? && s.key != key
  }

  /** Search decides membership in the map, finds the object, and fails only on a full table. */
  lemma SearchResult(slots: seq<Slot>, key: string)
    requires WellFormed(slots) && key != ""
    ensures
      match Search(slots, key)
      case None => key !in Contents(slots) && Count(slots) == |slots|
      case Some(i) => i < |slots| && (if key in Contents(slots) then slots[i] == Full(Contents(slots)[key], key)
                                      else slots[i].Empty?)
  {
    hide Contents, Count, Probe, Home;
    var n, h := |slots|, Home(key, |slots|);
    ProbeResult(slots, key, 0);
    ContentsOf(slots, key);
    match Search(slots, key)
    case None =>
      forall i | 0 <= i < n ensures slots[i].Full? && slots[i].key != key {
        assert PassedOver(slots, key, Off(h, i, n));
      }
      CountFull(slots);
    case Some(i) =>
      if key in Contents(slots) {
        var j :| 0 <= j < n && Holds(slots[j], key);
        assert !PassedOver(slots, key, Off(h, j, n));
        assert Off(h, i, n) <= Off(h, j, n);
        assert NoGap(slots, j);
        assert slots[At(h, Off(h, i, n), n)].Full?;
      }
  }

  /** Filling the empty slot a search returned keeps the table well formed and adds one pair to the map. */
  lemma InsertResult(slots: seq<Slot>, key: string, i: nat, id: nat)
    requires WellFormed(slots) && key != "" && Search(slots, key) == Some(i) && i < |slots| && slots[i].Empty?
    ensures WellFormed(slots[i := Full(id, key)])
    ensures Contents(slots[i := Full(id, key)]) == Contents(slots)[key := id] && key !in Contents(slots)
    ensures Count(slots[i := Full(id, key)]) == Count(slots) + 1
  {
    SearchResult(slots, key);
    var slots', n := slots[i := Full(id, key)], |slots|;
    CountUpdate(slots, i, Full(id, key));
    ContentsOf(slots, key);
    assert UniqueKeys(slots') by {
      forall j | 0 <= j < n && j != i ensures !Holds(slots[j], key) {
        assert Holds(slots[j], key) ==> key in Contents(slots);
      }
    }
    ProbeResult(slots, key, 0);
    forall j | 0 <= j < n ensures NoGap(slots', j) {
      if j == i {
        var h := Home(key, n);
        forall d | 0 <= d < Off(h, i, n) ensures slots'[At(h, d, n)].Full? {
          assert PassedOver(slots, key, d);
        }
      } else {
        assert NoGap(slots, j);
      }
    }
    InsertContents(slots, key, i, id);
  }

  lemma InsertContents(slots: seq<Slot>, key: string, i: nat, id: nat)
    requires i < |slots| && slots[i].Empty? && key !in Contents(slots)
    requires UniqueKeys(slots) && UniqueKeys(slots[i := Full(id, key)])
    ensures Contents(slots[i := Full(id, key)]) == Contents(slots)[key := id]
  {
    hide Contents;
    var slots' := slots[i := Full(id, key)];
    var m, m' := Contents(slots), Contents(slots');
    forall k ensures k in m' <==> k in m[key := id] {
      ContentsOf(slots, k);
      ContentsOf(slots', k);
      if k in m {
        var j :| 0 <= j < |slots| && Holds(slots[j], k);
        assert Holds(slots'[j], k);
      }
      if k in m' {
        var j :| 0 <= j < |slots| && Holds(slots'[j], k);
        assert j != i ==> Holds(slots[j], k);
      }
      if k == key {
        assert Holds(slots'[i], k);
      }
    }
    forall k | k in m' ensures m'[k] == m[key := id][k] {
      ContentsOf(slots, k);
      ContentsOf(slots', k);
      var j :| 0 <= j < |slots| && Holds(slots'[j], k);
      assert j != i ==> Holds(slots[j], k);
    }
  }

  // ----- resizing -----

  lemma {:induction false} EmptyTable(n: nat)
    requires n > 0
    ensures var t := seq(n, _ => Empty); WellFormed(t) && Count(t) == 0 && Contents(t) == map[]
  {
    EmptySlots(seq(n, _ => Empty));
  }

  lemma {:induction false} EmptySlots(slots: seq<Slot>)
    requires forall i | 0 <= i < |slots| :: slots[i].Empty?
    ensures Count(slots) == 0 && Contents(slots) == map[]
  {
    if slots != [] {
      EmptySlots(slots[..|slots| - 1]);
    }
  }

  lemma ContentsStep(slots: seq<Slot>, ind: nat)
    requires ind < |slots| && UniqueKeys(slots)
    ensures Count(slots[..ind + 1]) == Count(slots[..ind]) + (if slots[ind].Full? then 1 else 0)
    ensures Contents(slots[..ind + 1]) ==
            if slots[ind].Full? then Contents(slots[..ind])[slots[ind].key := slots[ind].id] else Contents(slots[..ind])
    ensures slots[ind].Full? ==> slots[ind].key !in Contents(slots[..ind])
  {
    assert slots[..ind + 1][..ind] == slots[..ind];
    if slots[ind].Full? {
      ContentsOf(slots[..ind], slots[ind].key);
    }
  }

  lemma {:induction false} CountMonotone(slots: seq<Slot>, i: nat)
    requires i <= |slots|
    ensures Count(slots[..i]) <= Count(slots)
    decreases |slots| - i
  {
    if i < |slots| {
      assert slots[..i + 1][..i] == slots[..i];
      CountMonotone(slots, i + 1);
    } else {
      assert slots[..i] == slots;
    }
  }

  /** Reinserts every object into a larger table: the map, and so every object identity, is kept. */
  method ResizeHashtable(slots: seq<Slot>, newsize: nat) returns (newslots: seq<Slot>, newitems: nat)
    requires WellFormed(slots) && newsize >= |slots|
    ensures |newslots| == newsize && WellFormed(newslots)
    ensures Contents(newslots) == Contents(slots) && newitems == Count(newslots) == Count(slots)
  {
    newslots, newitems := seq(newsize, _ => Empty), 0;
    EmptyTable(newsize);
    hide Contents, Count, Search;
    assert Contents(slots[..0]) == map[] && Count(slots[..0]) == 0 by {
      EmptySlots(slots[..0]);
    }
    for ind := 0 to |slots|
      invariant |newslots| == newsize && WellFormed(newslots)
      invariant Contents(newslots) == Contents(slots[..ind]) && newitems == Count(newslots) == Count(slots[..ind])
    {
      ContentsStep(slots, ind);
      CountMonotone(slots, ind + 1);
      var ptr := slots[ind];
      if ptr.Full? {
        var newind := SearchHashtable(newslots, ptr.key);
        SearchResult(newslots, ptr.key);
        if newind.Some? && newslots[newind.value].Empty? {
          InsertResult(newslots, ptr.key, newind.value, ptr.id);
          newslots := newslots[newind.value := ptr];
          newitems := newitems + 1;
        }
      }
    }
    assert slots[..|slots|] == slots;
  }

  // ----- the table object -----

  /** numitems > hashsize * .666, in integers */
  predicate Crowded(numitems: nat, hashsize: nat) { 1000 * numitems > 666 * hashsize }

  predicate LegalKey(key: string, keysize: nat) { key != "" && |key| < keysize }

  /** An illegal key is replaced by a fixed one. */
  function EffectiveKey(key: string, keysize: nat): string {
    if LegalKey(key, keysize) then key else "123456"
  }

  /** Different keys have different objects, all of them older than the next one. */
  predicate Separate(objects: map<string, nat>, nextId: nat) {
    && (forall k | k in objects :: objects[k] < nextId)
    && (forall k, j | k in objects && j in objects :: objects[k] == objects[j] ==> k == j)
  }

  class Hashtable {
    var slots: seq<Slot>
    var numitems: nat
    const keysize: nat
    /** The next object calloc will return. */
    var nextId: nat

    ghost predicate Valid()
      reads this
    {
      WellFormed(slots) && numitems == Count(slots) && Separate(Contents(slots), nextId)
    }

    ghost function Map(): map<string, nat>
      reads this
    {
      Contents(slots)
    }

    constructor (hashsize: nat, keysize: nat)
      requires hashsize > 0
      ensures Valid() && Map() == map[] && this.keysize == keysize && nextId == 0
    {
      slots, numitems, nextId := seq(hashsize, _ => Empty), 0, 0;
      this.keysize := keysize;
      EmptyTable(hashsize);
    }

    /** Finds or creates the object for a key; it never reports a full table. */
    method AddHashtable(key: string) returns (ptr: Option<nat>, created: bool)
      requires Valid()
      modifies this
      ensures Valid() && ptr.Some?
      ensures
        var k := EffectiveKey(key, keysize);
        && created == (k !in old(Map()))
        && (created ==> ptr.value == old(nextId) && nextId == old(nextId) + 1 && Map() == old(Map())[k := ptr.value])
        && (!created ==> ptr.value == old(Map())[k] && nextId == old(nextId) && Map() == old(Map()))
      ensures |slots| == if 1000 * old(numitems) > 666 * old(|slots|) then 3 * old(|slots|) else old(|slots|)
    {
      hide Contents, Count, Search;
      var k := EffectiveKey(key, keysize);
      created := false;
      if Crowded(numitems, |slots|) {
        slots, numitems := ResizeHashtable(slots, 3 * |slots|);
      }
      var ind := SearchHashtable(slots, k);
      SearchResult(slots, k);
      if ind.None? {
        return None, false;
      }
      match slots[ind.value]
      case Full(id, _) =>
        ptr := Some(id);
      case Empty =>
        InsertResult(slots, k, ind.value, nextId);
        ptr := Some(nextId);
        slots := slots[ind.value := Full(nextId, k)];
        nextId := nextId + 1;
        numitems := numitems + 1;
        created := true;
    }

    /** The index form of the lookup, as the search request returns it. */
    method Find(key: string) returns (r: Option<nat>)
      requires Valid()
      ensures key == "" ==> r == None
      ensures key != "" ==>
                match r
                case None => key !in Map() && numitems == |slots|
                case Some(i) => i < |slots| && (if key in Map() then slots[i] == Full(Map()[key], key)
                                                else slots[i].Empty?)
    {
      r := SearchHashtable(slots, key);
      if key != "" {
        SearchResult(slots, key);
      }
    }
  }
}
