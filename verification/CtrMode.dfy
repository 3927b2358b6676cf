/** The counter mode of libjl777/ciphers.h: a cipher context that keeps the counter block, the pad it
    encrypts to and how much of the pad is used up. The block cipher is any function on blocks. */
module CtrMode {
  import opened Machine
  import opened Bits
  import opened Counter
  import opened Basics

  datatype Mode = LittleEndian | BigEndian
  datatype Cipher = Cipher(blocklen: nat, ecb: seq<u8> -> seq<u8>)

  const MAXBLOCKSIZE: nat := 128

  ghost predicate ValidCipher(c: Cipher) {
    1 <= c.blocklen <= MAXBLOCKSIZE && forall b: seq<u8> :: |b| == c.blocklen ==> |c.ecb(b)| == c.blocklen
  }

  /** The counter is the first ctrlen bytes of a little-endian block, and all but the first ctrlen bytes
      of a big-endian one. */
  datatype Params = Params(cipher: Cipher, ctrlen: nat, mode: Mode)

  /** The word size of the fast path divides the block length, or there is no fast path. */
  predicate WordFits(c: Cipher, word: nat) { word == 0 || c.blocklen % word == 0 }

  ghost predicate ValidParams(p: Params) { ValidCipher(p.cipher) && p.ctrlen <= p.cipher.blocklen }

  function Reverse(s: seq<u8>): (r: seq<u8>)
    ensures |r| == |s|
  {
    seq(|s|, i requires 0 <= i < |s| => s[|s| - 1 - i])
  }

  /** The block whose counter field is k values after that of the initial vector. */
  function CounterBlock(p: Params, iv: seq<u8>, k: nat): (b: seq<u8>)
    requires p.ctrlen <= |iv|
    ensures |b| == |iv|
  {
    match p.mode
    case LittleEndian => Advance(iv[..p.ctrlen], k) + iv[p.ctrlen..]
    case BigEndian => iv[..p.ctrlen] + Reverse(Advance(Reverse(iv[p.ctrlen..]), k))
  }

  /** Byte i of the keystream: the encryptions of successive counter blocks, one after the other. */
  ghost function KeyByte(p: Params, iv: seq<u8>, i: nat): u8
    requires ValidParams(p) && |iv| == p.cipher.blocklen
  {
    var b := p.cipher.blocklen;
    p.cipher.ecb(CounterBlock(p, iv, i / b))[i % b]
  }

  /** Exclusive or with the keystream from a position on. */
  ghost function Crypt(p: Params, iv: seq<u8>, pos: nat, data: seq<u8>): (r: seq<u8>)
    requires ValidParams(p) && |iv| == p.cipher.blocklen
    ensures |r| == |data|
  {
    seq(|data|, i requires 0 <= i < |data| => XorByte(data[i], KeyByte(p, iv, pos + i)))
  }

  // ----- incrementing the counter in place -----

  /** What one increment does to a whole block. */
  function Next(p: Params, b: seq<u8>): (r: seq<u8>)
    requires p.ctrlen <= |b|
    ensures |r| == |b|
  {
    match p.mode
    case LittleEndian => Increment(b[..p.ctrlen]) + b[p.ctrlen..]
    case BigEndian => b[..p.ctrlen] + Reverse(Increment(Reverse(b[p.ctrlen..])))
  }

  lemma ReverseTwice(s: seq<u8>)
    ensures Reverse(Reverse(s)) == s
  { }

  lemma CounterStart(p: Params, iv: seq<u8>)
    requires p.ctrlen <= |iv|
    ensures CounterBlock(p, iv, 0) == iv
  {
    hide Advance, Reverse;
    AdvanceNone(iv[..p.ctrlen]);
    AdvanceNone(Reverse(iv[p.ctrlen..]));
    ReverseTwice(iv[p.ctrlen..]);
  }

  lemma CounterStep(p: Params, iv: seq<u8>, k: nat)
    requires p.ctrlen <= |iv|
    ensures Next(p, CounterBlock(p, iv, k)) == CounterBlock(p, iv, k + 1)
  {
    hide Advance, Reverse, Increment;
    var b := CounterBlock(p, iv, k);
    if p.mode == LittleEndian {
      assert b[..p.ctrlen] == Advance(iv[..p.ctrlen], k) && b[p.ctrlen..] == iv[p.ctrlen..];
      AdvanceOne(iv[..p.ctrlen], k);
    } else {
      var f := Reverse(iv[p.ctrlen..]);
      assert b[..p.ctrlen] == iv[..p.ctrlen] && b[p.ctrlen..] == Reverse(Advance(f, k));
      ReverseTwice(Advance(f, k));
      AdvanceOne(f, k);
    }
  }

  /** The number in a byte string with the most significant byte first. */
  function BE(s: seq<u8>): nat {
    if s == [] then 0 else 256 * BE(s[..|s| - 1]) + s[|s| - 1] as nat
  }

  lemma {:induction false} ReverseValue(s: seq<u8>)
    ensures LE(Reverse(s)) == BE(s)
  {
    if s != [] {
      var n := |s| - 1;
      ReverseValue(s[..n]);
      assert Reverse(s)[1..] == Reverse(s[..n]);
    }
  }

  lemma AdvanceValue(f: seq<u8>, k: nat, e: nat)
    requires e == Exp2(8 * |f|) && e > 0
    ensures LE(Advance(f, k)) == (LE(f) + k) % e
  {
    hide LE, Exp2, ToBytes;
    ToBytesValue(LE(f) + k, |f|);
  }

  /** The counter field of a block is k further on than that of the initial vector, as a number with the least
      significant byte first or last, and wraps around; the other bytes are those of the initial vector. */
  lemma CounterBlockValue(p: Params, iv: seq<u8>, k: nat)
    requires p.ctrlen <= |iv|
    ensures var b, w := CounterBlock(p, iv, k), p.ctrlen;
            Exp2(8 * w) > 0 && Exp2(8 * (|iv| - w)) > 0 &&
            if p.mode == LittleEndian then
              LE(b[..w]) == (LE(iv[..w]) + k) % Exp2(8 * w) && b[w..] == iv[w..]
            else
              b[..w] == iv[..w] && BE(b[w..]) == (BE(iv[w..]) + k) % Exp2(8 * (|iv| - w))
  {
    hide LE, BE, Exp2, Advance;
    Exp2Positive(8 * p.ctrlen);
    Exp2Positive(8 * (|iv| - p.ctrlen));
    if p.mode == LittleEndian {
      LittleBlockValue(p, iv, k);
    } else {
      BigBlockValue(p, iv, k);
    }
  }

  lemma LittleBlockValue(p: Params, iv: seq<u8>, k: nat)
    requires p.ctrlen <= |iv| && p.mode == LittleEndian
    ensures var b, w := CounterBlock(p, iv, k), p.ctrlen;
            Exp2(8 * w) > 0 && LE(b[..w]) == (LE(iv[..w]) + k) % Exp2(8 * w) && b[w..] == iv[w..]
  {
    hide LE, Exp2, Advance;
    var b, w := CounterBlock(p, iv, k), p.ctrlen;
    Exp2Positive(8 * w);
    AdvanceValue(iv[..w], k, Exp2(8 * w));
    assert b[..w] == Advance(iv[..w], k) && b[w..] == iv[w..];
  }

  lemma BigBlockValue(p: Params, iv: seq<u8>, k: nat)
    requires p.ctrlen <= |iv| && p.mode == BigEndian
    ensures var b, w := CounterBlock(p, iv, k), p.ctrlen;
            Exp2(8 * (|iv| - w)) > 0 &&
            b[..w] == iv[..w] && BE(b[w..]) == (BE(iv[w..]) + k) % Exp2(8 * (|iv| - w))
  {
    hide LE, BE, Exp2, Advance, Reverse, CounterBlock;
    BigSlices(p, iv, k);
    var f := iv[p.ctrlen..];
    var r := Reverse(f);
    Exp2Positive(8 * |f|);
    ReversedAdvance(f, k, r, LE(Advance(r, k)));
    AdvanceValue(r, k, Exp2(8 * |f|));
  }

  lemma BigSlices(p: Params, iv: seq<u8>, k: nat)
    requires p.ctrlen <= |iv| && p.mode == BigEndian
    ensures CounterBlock(p, iv, k)[..p.ctrlen] == iv[..p.ctrlen]
    ensures CounterBlock(p, iv, k)[p.ctrlen..] == Reverse(Advance(Reverse(iv[p.ctrlen..]), k))
  {
    hide Advance, Reverse;
  }

  lemma ReversedValue(g: seq<u8>)
    ensures BE(Reverse(g)) == LE(g) && |Reverse(g)| == |g|
  {
    hide LE, BE, Reverse;
    ReverseValue(Reverse(g));
    ReverseTwice(g);
  }

  lemma ReversedAdvance(f: seq<u8>, k: nat, r: seq<u8>, x: nat)
    requires r == Reverse(f) && x == LE(Advance(r, k))
    ensures LE(r) == BE(f) && |r| == |f| && BE(Reverse(Advance(r, k))) == x
  {
    hide LE, BE, Exp2, Advance, Reverse;
    ReverseValue(f);
    ReversedValue(f);
    ReversedValue(Advance(r, k));
  }

  function Bump(b: u8): u8 { if b == 255 then 0 else b + 1 }

  predicate Full(f: seq<u8>, i: nat)
    requires i <= |f|
  {
    forall j | 0 <= j < i :: f[j] == 255
  }

  /** A byte changes exactly when all bytes below it are full. */
  lemma {:induction false} IncrementAt(f: seq<u8>, i: nat)
    requires i < |f|
    ensures Increment(f)[i] == if Full(f, i) then Bump(f[i]) else f[i]
  {
    if i > 0 && f[0] == 255 {
      IncrementAt(f[1..], i - 1);
      assert Full(f, i) == Full(f[1..], i - 1) by {
        assert forall j | 0 <= j < i - 1 :: f[1..][j] == f[j + 1];
        assert Full(f, i) ==> Full(f[1..], i - 1);
        assert Full(f[1..], i - 1) ==> forall j | 0 <= j < i :: j == 0 || f[j] == f[1..][j - 1] == 255;
      }
    }
  }

  method IncrementLittle(ctr: array<u8>, ctrlen: nat)
    requires ctrlen <= ctr.Length
    modifies ctr
    ensures ctr[..] == Increment(old(ctr[..ctrlen])) + old(ctr[ctrlen..])
  {
    hide Increment;
    ghost var f := ctr[..ctrlen];
    forall i | 0 <= i < ctrlen ensures Increment(f)[i] == if Full(f, i) then Bump(f[i]) else f[i] {
      IncrementAt(f, i);
    }
    var x := 0;
    while x < ctrlen
      invariant x <= ctrlen && Full(f, x)
      invariant forall i | 0 <= i < x :: ctr[i] == 0
      invariant forall i | x <= i < ctr.Length :: ctr[i] == old(ctr[i])
    {
      ctr[x] := Bump(ctr[x]);
      if ctr[x] != 0 {
        break;
      }
      x := x + 1;
    }
    assert forall i | 0 <= i < ctrlen :: ctr[i] == Increment(f)[i];
  }

  method IncrementBig(ctr: array<u8>, ctrlen: nat)
    requires ctrlen <= ctr.Length
    modifies ctr
    ensures ctr[..] == old(ctr[..ctrlen]) + Reverse(Increment(Reverse(old(ctr[ctrlen..]))))
  {
    hide Increment;
    ghost var n := ctr.Length;
    ghost var f := Reverse(ctr[ctrlen..]);
    assert forall i | 0 <= i < n - ctrlen :: f[i] == ctr[n - 1 - i];
    hide Reverse;
    var x := ctr.Length - 1;
    while x >= ctrlen
      invariant ctrlen - 1 <= x < n && Full(f, n - 1 - x)
      invariant forall i | x < i < n :: ctr[i] == 0
      invariant forall i | 0 <= i <= x :: ctr[i] == old(ctr[i])
    {
      assert ctr[x] == f[n - 1 - x];
      ctr[x] := Bump(ctr[x]);
      if ctr[x] != 0 {
        break;
      }
      x := x - 1;
    }
    forall i | 0 <= i < n - ctrlen ensures ctr[n - 1 - i] == Increment(f)[i] {
      IncrementAt(f, i);
    }
    MirrorImage(ctr[..], ctrlen, Increment(f));
  }

  lemma MirrorImage(b: seq<u8>, ctrlen: nat, r: seq<u8>)
    requires ctrlen <= |b| && |r| == |b| - ctrlen && forall i | 0 <= i < |r| :: b[|b| - 1 - i] == r[i]
    ensures b == b[..ctrlen] + Reverse(r)
  {
    forall i | ctrlen <= i < |b| ensures b[i] == Reverse(r)[i - ctrlen] {
      assert b[|b| - 1 - (|b| - 1 - i)] == r[|b| - 1 - i];
    }
  }

  method IncrementBlock(p: Params, ctr: array<u8>)
    requires p.ctrlen <= ctr.Length
    modifies ctr
    ensures ctr[..] == Next(p, old(ctr[..]))
  {
    ghost var b := ctr[..];
    assert b[..p.ctrlen] == ctr[..p.ctrlen] && b[p.ctrlen..] == ctr[p.ctrlen..];
    if p.mode == LittleEndian {
      IncrementLittle(ctr, p.ctrlen);
    } else {
      IncrementBig(ctr, p.ctrlen);
    }
  }

  /** Combines a block with the pad, a machine word at a time. */
  method XorBlock(block: seq<u8>, pad: array<u8>, ct: array<u8>, at: nat, word: nat)
    requires |block| == pad.Length && at + |block| <= ct.Length && ct != pad && word > 0 && |block| % word == 0
    modifies ct
    ensures forall i | 0 <= i < |block| :: ct[at + i] == XorByte(block[i], pad[i])
    ensures forall i | 0 <= i < ct.Length && !(at <= i < at + |block|) :: ct[i] == old(ct[i])
  {
    hide XorByte, ToBytes, LE, Xor;
    var x := 0;
    while x < |block|
      invariant 0 <= x <= |block| && x % word == 0
      invariant forall i | 0 <= i < x :: ct[at + i] == XorByte(block[i], pad[i])
      invariant forall i | 0 <= i < ct.Length && !(at <= i < at + x) :: ct[i] == old(ct[i])
    {
      WordInside(x, word, |block|);
      var w := ToBytes(Xor(LE(block[x..x + word]), LE(pad[x..x + word])), word);
      WordXor(block[x..x + word], pad[x..x + word]);
      assert forall i | x <= i < x + word :: w[i - x] == XorByte(block[i], pad[i]);
      StoreWord(ct, at + x, w);
      forall i | x <= i < x + word ensures ct[at + i] == XorByte(block[i], pad[i]) {
        assert ct[at + x + (i - x)] == w[i - x];
      }
      x := x + word;
    }
  }

  // ----- the context -----

  lemma PositionParts(b: nat, n: nat, r: nat)
    requires r < b
    ensures n * b >= 0 && (n * b + r) / b == n && (n * b + r) % b == r
  {
    Nonneg(n, b);
    DivUnique(n * b + r, b, n, r);
  }

  class SymmetricCTR {
    const params: Params
    const ctr: array<u8>
    const pad: array<u8>
    var padlen: nat
    /** The initial vector, and how often the counter has been incremented since. */
    ghost const iv: seq<u8>
    ghost var index: nat

    ghost predicate Valid()
      reads this, ctr, pad
    {
      && ValidParams(params) && |iv| == params.cipher.blocklen
      && ctr.Length == pad.Length == params.cipher.blocklen && ctr != pad && padlen <= params.cipher.blocklen
      && ctr[..] == CounterBlock(params, iv, index) && pad[..] == params.cipher.ecb(ctr[..])
    }

    /** How many bytes of the keystream are used up. */
    ghost function Position(): nat
      reads this
    {
      Nonneg(index, params.cipher.blocklen);
      index * params.cipher.blocklen + padlen
    }

    constructor (p: Params, initial: seq<u8>, rfc3686: bool)
      requires ValidParams(p) && |initial| == p.cipher.blocklen
      ensures Valid() && params == p && padlen == 0 && Position() == 0 && fresh(ctr) && fresh(pad)
      ensures iv == if rfc3686 then CounterBlock(p, initial, 1) else initial
    {
      params, padlen, index := p, 0, 0;
      var block := new u8[p.cipher.blocklen](i requires 0 <= i < |initial| => initial[i]);
      assert block[..] == initial;
      ctr := block;
      iv := if rfc3686 then CounterBlock(p, initial, 1) else initial;
      var empty := new u8[p.cipher.blocklen];
      pad := empty;
      new;
      CounterStart(p, initial);
      if rfc3686 {
        IncrementBlock(p, ctr);
        CounterStep(p, initial, 0);
      }
      CounterStart(p, iv);
      EncryptPad();
    }

    /** Encrypts the counter block into the pad. */
    method EncryptPad()
      requires ValidParams(params) && ctr.Length == pad.Length == params.cipher.blocklen && ctr != pad
      modifies pad
      ensures pad[..] == params.cipher.ecb(ctr[..])
    {
      var block := params.cipher.ecb(ctr[..]);
      for i := 0 to pad.Length
        invariant pad[..i] == block[..i] && ctr[..] == old(ctr[..])
      {
        pad[i] := block[i];
      }
    }

    /** Moves to the next counter value when the pad is used up. */
    method NextPad()
      requires Valid() && padlen == params.cipher.blocklen
      modifies this, ctr, pad
      ensures Valid() && padlen == 0 && Position() == old(Position())
    {
      CounterStep(params, iv, index);
      IncrementBlock(params, ctr);
      EncryptPad();
      index, padlen := index + 1, 0;
      assert index * params.cipher.blocklen == (index - 1) * params.cipher.blocklen + params.cipher.blocklen;
    }

    /** The pad holds the keystream at the current position. */
    lemma PadIsKeystream(i: nat)
      requires Valid() && padlen + i < params.cipher.blocklen
      ensures pad[padlen + i] == KeyByte(params, iv, Position() + i)
    {
      hide CounterBlock;
      PositionParts(params.cipher.blocklen, index, padlen + i);
      assert pad[padlen + i] == pad[..][padlen + i];
    }

    /** One byte: combines with the pad and uses up one byte of it. */
    method CryptByte(c: u8, ct: array<u8>, at: nat)
      requires Valid() && padlen < params.cipher.blocklen && at < ct.Length && ct != ctr && ct != pad
      modifies this`padlen, ct
      ensures Valid() && Position() == old(Position()) + 1
      ensures ct[at] == XorByte(c, KeyByte(params, iv, old(Position())))
      ensures forall i | 0 <= i < ct.Length && i != at :: ct[i] == old(ct[i])
    {
      PadIsKeystream(0);
      ct[at] := XorByte(c, pad[padlen]);
      padlen := padlen + 1;
    }

    /** A whole block, a machine word at a time. */
    method CryptBlock(block: seq<u8>, ct: array<u8>, at: nat, word: nat)
      requires Valid() && padlen == 0 && |block| == params.cipher.blocklen && at + |block| <= ct.Length && ct != ctr
               && ct != pad
      requires word > 0 && WordFits(params.cipher, word)
      modifies this`padlen, ct
      ensures Valid() && Position() == old(Position()) + |block|
      ensures forall i | 0 <= i < |block| :: ct[at + i] == XorByte(block[i], KeyByte(params, iv, old(Position()) + i))
      ensures forall i | 0 <= i < ct.Length && !(at <= i < at + |block|) :: ct[i] == old(ct[i])
    {
      hide XorByte, KeyByte, CounterBlock;
      ghost var pos, key := Position(), pad[..];
      assert forall i | 0 <= i < |block| :: key[i] == KeyByte(params, iv, pos + i) by {
        forall i | 0 <= i < |block| ensures key[i] == KeyByte(params, iv, pos + i) {
          PadIsKeystream(i);
        }
      }
      XorBlock(block, pad, ct, at, word);
      padlen := params.cipher.blocklen;
    }

    /** One turn of the loop: a whole block where that is possible, else a byte. */
    method CryptSome(pt: seq<u8>, done: nat, ct: array<u8>, at: nat, word: nat) returns (done': nat)
      requires Valid() && done < |pt| && at + |pt| <= ct.Length && ct != ctr && ct != pad
      requires WordFits(params.cipher, word)
      modifies this, ctr, pad, ct
      ensures Valid() && done < done' <= |pt| && Position() == old(Position()) + (done' - done)
      ensures forall i | done <= i < done' ::
                ct[at + i] == XorByte(pt[i], KeyByte(params, iv, old(Position()) + (i - done)))
      ensures forall i | 0 <= i < ct.Length && !(at + done <= i < at + done') :: ct[i] == old(ct[i])
    {
      hide XorByte, KeyByte, CounterBlock, WordFits;
      ghost var pos := Position();
      if padlen == params.cipher.blocklen {
        NextPad();
      }
      if word != 0 && padlen == 0 && |pt| - done >= params.cipher.blocklen {
        done' := done + params.cipher.blocklen;
        CryptBlock(pt[done..done'], ct, at + done, word);
        forall i | done <= i < done' ensures ct[at + i] == XorByte(pt[i], KeyByte(params, iv, pos + (i - done))) {
          ghost var j := i - done;
          assert ct[at + done + j] == XorByte(pt[done..done'][j], KeyByte(params, iv, pos + j));
        }
      } else {
        CryptByte(pt[done], ct, at + done);
        done' := done + 1;
      }
    }

    /** ctr_encrypt: word is the size of LTC_FAST_TYPE, or 0 where the fast path is not compiled in. */
    method Encrypt(pt: seq<u8>, ct: array<u8>, at: nat, word: nat) returns (ok: bool)
      requires Valid() && at + |pt| <= ct.Length && ct != ctr && ct != pad
      modifies this, ctr, pad, ct
      ensures ok <==> WordFits(params.cipher, word)
      ensures Valid() && Position() == old(Position()) + (if ok then |pt| else 0)
      ensures ok ==> ct[at..at + |pt|] == Crypt(params, iv, old(Position()), pt)
      ensures forall i | 0 <= i < ct.Length && !(ok && at <= i < at + |pt|) :: ct[i] == old(ct[i])
    {
      hide XorByte, KeyByte, CounterBlock, WordFits, Position;
      if !WordFits(params.cipher, word) {
        return false;
      }
      ghost var pos := Position();
      var done := 0;
      while done < |pt|
        invariant 0 <= done <= |pt| && Valid() && Position() == pos + done
        invariant forall i | 0 <= i < done :: ct[at + i] == XorByte(pt[i], KeyByte(params, iv, pos + i))
        invariant forall i | 0 <= i < ct.Length && !(at <= i < at + done) :: ct[i] == old(ct[i])
      {
        ghost var d := done;
        done := CryptSome(pt, done, ct, at, word);
        forall i | d <= i < done ensures ct[at + i] == XorByte(pt[i], KeyByte(params, iv, pos + i)) {
          assert pos + d + (i - d) == pos + i;
        }
      }
      return true;
    }
  }

  lemma WordInside(x: nat, word: nat, n: nat)
    requires word > 0 && x % word == 0 && n % word == 0 && x < n
    ensures x + word <= n && (x + word) % word == 0
  {
    var q, m := x / word, n / word;
    assert x == q * word && n == m * word;
    if m <= q {
      MulAtLeastTimes(m, q, word);
    } else {
      MulAtLeastTimes(q + 1, m, word);
      assert (q + 1) * word == q * word + word;
    }
    DivUnique(x + word, word, q + 1, 0);
  }

  lemma MulAtLeastTimes(a: nat, b: nat, w: nat)
    requires a <= b
    ensures a * w <= b * w
  { }

  method StoreWord(ct: array<u8>, at: nat, w: seq<u8>)
    requires at + |w| <= ct.Length
    modifies ct
    ensures forall i | 0 <= i < |w| :: ct[at + i] == w[i]
    ensures forall i | 0 <= i < ct.Length && !(at <= i < at + |w|) :: ct[i] == old(ct[i])
  {
    for i := 0 to |w|
      invariant forall j | 0 <= j < i :: ct[at + j] == w[j]
      invariant forall j | 0 <= j < ct.Length && !(at <= j < at + i) :: ct[j] == old(ct[j])
    {
      ct[at + i] := w[i];
    }
  }
}
