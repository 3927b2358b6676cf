/** What counter mode is for: chunks of a message can be processed one by one, decryption undoes
    encryption, and ciphers_codec of libjl777/ciphers.h stacks any number of such layers. */
module CtrCodec {
  import opened Machine
  import opened Bits
  import opened Counter
  import opened CtrMode
  import opened Basics

  // ----- chunks -----

  lemma CryptConcat(p: Params, iv: seq<u8>, pos: nat, a: seq<u8>, b: seq<u8>)
    requires ValidParams(p) && |iv| == p.cipher.blocklen
    ensures Crypt(p, iv, pos, a + b) == Crypt(p, iv, pos, a) + Crypt(p, iv, pos + |a|, b)
  {
    hide KeyByte, XorByte;
    var l, r := Crypt(p, iv, pos, a + b), Crypt(p, iv, pos, a) + Crypt(p, iv, pos + |a|, b);
    forall i | 0 <= i < |a + b| ensures l[i] == r[i] {
      if i >= |a| {
        assert pos + |a| + (i - |a|) == pos + i;
      }
    }
  }

  function Flatten(chunks: seq<seq<u8>>): seq<u8> {
    if chunks == [] then [] else Flatten(chunks[..|chunks| - 1]) + chunks[|chunks| - 1]
  }

  lemma FlattenStep(chunks: seq<seq<u8>>, k: nat)
    requires k < |chunks|
    ensures Flatten(chunks[..k + 1]) == Flatten(chunks[..k]) + chunks[k]
  {
    assert chunks[..k + 1][..k] == chunks[..k];
  }

  /** One call with an output buffer of its own. */
  method EncryptChunk(ctr: SymmetricCTR, chunk: seq<u8>, word: nat) returns (out: seq<u8>, ok: bool)
    requires ctr.Valid()
    modifies ctr, ctr.ctr, ctr.pad
    ensures ok <==> WordFits(ctr.params.cipher, word)
    ensures ctr.Valid() && ctr.Position() == old(ctr.Position()) + (if ok then |chunk| else 0)
    ensures ok ==> out == Crypt(ctr.params, ctr.iv, old(ctr.Position()), chunk)
  {
    hide Crypt;
    var ct := new u8[|chunk|];
    ok := ctr.Encrypt(chunk, ct, 0, word);
    assert ct[0..0 + |chunk|] == ct[..];
    out := ct[..];
  }

  /** However a message is cut, the outputs put together are the message combined with the keystream. */
  method EncryptChunks(p: Params, initial: seq<u8>, chunks: seq<seq<u8>>, word: nat) returns (out: seq<u8>, ok: bool)
    requires ValidParams(p) && |initial| == p.cipher.blocklen
    ensures ok <==> chunks == [] || WordFits(p.cipher, word)
    ensures ok ==> out == Crypt(p, initial, 0, Flatten(chunks))
  {
    hide WordFits, Crypt, CounterBlock, Flatten, ValidParams;
    NothingYet(p, initial, chunks);
    var ctr := new SymmetricCTR(p, initial, false);
    out, ok := [], true;
    ghost var before: seq<u8> := [];
    for k := 0 to |chunks|
      invariant ctr.Valid() && ctr.params == p && ctr.iv == initial && fresh(ctr) && fresh(ctr.ctr) && fresh(ctr.pad)
      invariant ok && (k > 0 ==> WordFits(p.cipher, word)) && before == Flatten(chunks[..k])
      invariant ctr.Position() == |before| && out == Crypt(p, initial, 0, before)
    {
      FlattenStep(chunks, k);
      CryptConcat(p, initial, 0, before, chunks[k]);
      var ct;
      ct, ok := EncryptChunk(ctr, chunks[k], word);
      if !ok {
        return;
      }
      out, before := out + ct, before + chunks[k];
    }
    assert chunks[..|chunks|] == chunks;
  }

  lemma NothingYet(p: Params, iv: seq<u8>, chunks: seq<seq<u8>>)
    requires ValidParams(p) && |iv| == p.cipher.blocklen
    ensures Crypt(p, iv, 0, []) == [] && Flatten(chunks[..0]) == []
  { }

  /** Applying the keystream twice gives the message back. */
  lemma CryptTwice(p: Params, iv: seq<u8>, pos: nat, data: seq<u8>)
    requires ValidParams(p) && |iv| == p.cipher.blocklen
    ensures Crypt(p, iv, pos, Crypt(p, iv, pos, data)) == data
  {
    hide KeyByte, XorByte;
    var c := Crypt(p, iv, pos, data);
    forall i | 0 <= i < |data| ensures Crypt(p, iv, pos, c)[i] == data[i] {
      XorTwice(data[i], KeyByte(p, iv, pos + i));
    }
  }

  /** ctr_start: a counter width of 0 means the whole block, one wider than the block is refused. */
  method CtrStart(cipher: Cipher, initial: seq<u8>, width: nat, mode: Mode, rfc3686: bool)
    returns (r: Option<SymmetricCTR>)
    requires ValidCipher(cipher) && |initial| == cipher.blocklen && width < 256
    ensures r == None <==> width > cipher.blocklen
    ensures r.Some? ==>
              var w := if width == 0 then cipher.blocklen else width;
              var p := Params(cipher, if mode == BigEndian then cipher.blocklen - w else w, mode);
              && fresh(r.value) && fresh(r.value.ctr) && fresh(r.value.pad)
              && r.value.Valid() && r.value.params == p && r.value.Position() == 0
              && r.value.iv == if rfc3686 then CounterBlock(p, initial, 1) else initial
  {
    var ctrlen := if width != 0 then width else cipher.blocklen;
    if ctrlen > cipher.blocklen {
      return None;
    }
    if mode == BigEndian {
      ctrlen := cipher.blocklen - ctrlen;
    }
    var ctr := new SymmetricCTR(Params(cipher, ctrlen, mode), initial, rfc3686);
    r := Some(ctr);
  }

  // ----- one layer -----

  function LayerParams(c: Cipher): Params { Params(c, c.blocklen, LittleEndian) }

  /** The initial vector, then the message combined with its keystream. */
  ghost function Sealed(c: Cipher, iv: seq<u8>, data: seq<u8>): seq<u8>
    requires ValidCipher(c) && |iv| == c.blocklen
  {
    iv + Crypt(LayerParams(c), iv, 0, data)
  }

  /** Nothing is returned when no message follows the initial vector. */
  ghost function Opened(c: Cipher, data: seq<u8>): Option<seq<u8>>
    requires ValidCipher(c)
  {
    if |data| <= c.blocklen then None
    else Some(Crypt(LayerParams(c), data[..c.blocklen], 0, data[c.blocklen..]))
  }

  /** The block is k further on than the initial vector: one number with the least significant byte first. */
  predicate IsCounter(block: seq<u8>, iv: seq<u8>, k: nat) {
    Exp2Positive(8 * |iv|);
    |block| == |iv| && LE(block) == (LE(iv) + k) % Exp2(8 * |iv|)
  }

  /** Byte i of a message, combined with byte i of the encrypted counter blocks. */
  ghost predicate CombinedAt(c: Cipher, iv: seq<u8>, data: seq<u8>, out: seq<u8>, i: nat)
    requires ValidCipher(c) && |iv| == c.blocklen && i < |data| == |out|
  {
    exists block: seq<u8> ::
      IsCounter(block, iv, i / c.blocklen) && out[i] == XorByte(data[i], c.ecb(block)[i % c.blocklen])
  }

  /** The message combined, byte by byte, with the encryptions of the initial vector, the one after it, and so on. */
  ghost predicate Combined(c: Cipher, iv: seq<u8>, data: seq<u8>, out: seq<u8>)
    requires ValidCipher(c) && |iv| == c.blocklen
  {
    |out| == |data| && forall i | 0 <= i < |data| :: CombinedAt(c, iv, data, out, i)
  }

  lemma LayerBlock(c: Cipher, iv: seq<u8>, k: nat)
    requires |iv| == c.blocklen
    ensures IsCounter(CounterBlock(LayerParams(c), iv, k), iv, k)
  {
    hide LE, Exp2, CounterBlock;
    var b := CounterBlock(LayerParams(c), iv, k);
    CounterBlockValue(LayerParams(c), iv, k);
    assert b[..|iv|] == b && iv[..|iv|] == iv;
  }

  lemma CounterUnique(a: seq<u8>, b: seq<u8>, iv: seq<u8>, k: nat)
    requires IsCounter(a, iv, k) && IsCounter(b, iv, k)
    ensures a == b
  {
    LEInjective(a, b);
  }

  /** What a layer computes is the message combined with the counter blocks, and nothing else is. */
  lemma LayerExactly(c: Cipher, iv: seq<u8>, data: seq<u8>, out: seq<u8>)
    requires ValidCipher(c) && |iv| == c.blocklen
    ensures Combined(c, iv, data, out) <==> out == Crypt(LayerParams(c), iv, 0, data)
  {
    hide CombinedAt, KeyByte, XorByte;
    var s := Crypt(LayerParams(c), iv, 0, data);
    if |out| == |data| {
      forall i | 0 <= i < |data| ensures CombinedAt(c, iv, data, out, i) <==> out[i] == s[i] {
        LayerAt(c, iv, data, out, i);
      }
    }
  }

  lemma LayerAt(c: Cipher, iv: seq<u8>, data: seq<u8>, out: seq<u8>, i: nat)
    requires ValidCipher(c) && |iv| == c.blocklen && i < |data| == |out|
    ensures CombinedAt(c, iv, data, out, i) <==> out[i] == XorByte(data[i], KeyByte(LayerParams(c), iv, i))
  {
    hide LE, Exp2, CounterBlock, XorByte;
    var k := i / c.blocklen;
    var block := CounterBlock(LayerParams(c), iv, k);
    LayerBlock(c, iv, k);
    if CombinedAt(c, iv, data, out, i) {
      var b: seq<u8> :| IsCounter(b, iv, k) && out[i] == XorByte(data[i], c.ecb(b)[i % c.blocklen]);
      CounterUnique(b, block, iv, k);
    }
  }

  lemma OpenSealed(c: Cipher, iv: seq<u8>, data: seq<u8>)
    requires ValidCipher(c) && |iv| == c.blocklen
    ensures Opened(c, Sealed(c, iv, data)) == if data == [] then None else Some(data)
  {
    hide Crypt;
    var s := Sealed(c, iv, data);
    assert s[..c.blocklen] == iv && s[c.blocklen..] == Crypt(LayerParams(c), iv, 0, data);
    CryptTwice(LayerParams(c), iv, 0, data);
  }

  method EncryptCipher(c: Cipher, iv: seq<u8>, data: seq<u8>, word: nat) returns (r: Option<seq<u8>>)
    requires ValidCipher(c) && |iv| == c.blocklen
    ensures r == if WordFits(c, word) then Some(Sealed(c, iv, data)) else None
    ensures r.Some? ==> |r.value| == c.blocklen + |data| && r.value[..c.blocklen] == iv
    ensures r.Some? ==> Combined(c, iv, data, r.value[c.blocklen..])
  {
    hide Crypt, Combined;
    LayerExactly(c, iv, data, Crypt(LayerParams(c), iv, 0, data));
    var ctr := CtrStart(c, iv, 0, LittleEndian, false);
    var encoded := new u8[|data| + c.blocklen];
    var ok := FillEncoded(ctr.value, encoded, iv, data, word);
    r := if ok then Some(encoded[..]) else None;
    assert ok ==> encoded[..][c.blocklen..] == Crypt(LayerParams(c), iv, 0, data);
  }

  /** Writes the initial vector, then the message combined with the keystream after it. */
  method FillEncoded(ctr: SymmetricCTR, encoded: array<u8>, iv: seq<u8>, data: seq<u8>, word: nat) returns (ok: bool)
    requires ctr.Valid() && encoded != ctr.ctr && encoded != ctr.pad && encoded.Length == |iv| + |data|
             && ctr.Position() == 0
    modifies ctr, ctr.ctr, ctr.pad, encoded
    ensures ok <==> WordFits(ctr.params.cipher, word)
    ensures ok ==> encoded[..] == iv + Crypt(ctr.params, ctr.iv, 0, data)
  {
    hide Crypt;
    StoreWord(encoded, 0, iv);
    assert forall i | 0 <= i < |iv| :: encoded[i] == encoded[0 + i] == iv[i];
    ok := ctr.Encrypt(data, encoded, |iv|, word);
    assert encoded[..|iv|] == iv;
    assert encoded[..] == encoded[..|iv|] + encoded[|iv|..|iv| + |data|];
  }

  method DecryptCipher(c: Cipher, data: seq<u8>, word: nat) returns (r: Option<seq<u8>>)
    requires ValidCipher(c)
    ensures r == if WordFits(c, word) then Opened(c, data) else None
    ensures r.Some? ==> |data| > c.blocklen && Combined(c, data[..c.blocklen], data[c.blocklen..], r.value)
  {
    hide Crypt, Combined;
    if |data| <= c.blocklen {
      return None;
    }
    var iv, rest := data[..c.blocklen], data[c.blocklen..];
    LayerExactly(c, iv, rest, Crypt(LayerParams(c), iv, 0, rest));
    var ctr := CtrStart(c, iv, 0, LittleEndian, false);
    var plaintext, ok := EncryptChunk(ctr.value, rest, word);
    r := if ok then Some(plaintext) else None;
  }

  // ----- any number of layers -----

  ghost predicate ValidLayers(layers: seq<Cipher>, word: nat) {
    forall i | 0 <= i < |layers| :: ValidCipher(layers[i]) && WordFits(layers[i], word)
  }

  ghost predicate ValidIvs(layers: seq<Cipher>, ivs: seq<seq<u8>>) {
    |ivs| == |layers| && forall i | 0 <= i < |layers| :: |ivs[i]| == layers[i].blocklen
  }

  /** Layer 0 is applied first. */
  ghost function SealAll(layers: seq<Cipher>, ivs: seq<seq<u8>>, data: seq<u8>): (r: seq<u8>)
    requires ValidLayers(layers, 0) && ValidIvs(layers, ivs)
    ensures layers != [] ==> r != []
  {
    if layers == [] then data
    else
      var n := |layers| - 1;
      Sealed(layers[n], ivs[n], SealAll(layers[..n], ivs[..n], data))
  }

  ghost function OpenAll(layers: seq<Cipher>, data: seq<u8>): Option<seq<u8>>
    requires ValidLayers(layers, 0)
  {
    if layers == [] then Some(data)
    else
      var n := |layers| - 1;
      match Opened(layers[n], data)
      case None => None
      case Some(d) => OpenAll(layers[..n], d)
  }

  /** An empty result counts as a failure. */
  function Filled(r: Option<seq<u8>>): Option<seq<u8>> { if r == Some([]) then None else r }

  ghost function Coded(decrypt: bool, layers: seq<Cipher>, ivs: seq<seq<u8>>, data: seq<u8>): Option<seq<u8>>
    requires ValidLayers(layers, 0) && (!decrypt ==> ValidIvs(layers, ivs))
  {
    Filled(if decrypt then OpenAll(layers, data) else Some(SealAll(layers, ivs, data)))
  }

  /** The first layer is the innermost. */
  lemma {:induction false} SealFirst(c: Cipher, iv: seq<u8>, layers: seq<Cipher>, ivs: seq<seq<u8>>, data: seq<u8>)
    requires ValidLayers([c] + layers, 0) && ValidLayers(layers, 0) && ValidIvs(layers, ivs) && |iv| == c.blocklen
    requires ValidCipher(c) && ValidIvs([c] + layers, [iv] + ivs)
    ensures SealAll([c] + layers, [iv] + ivs, data) == SealAll(layers, ivs, Sealed(c, iv, data))
    decreases |layers|
  {
    hide Sealed, ValidCipher;
    var all, vs, n := [c] + layers, [iv] + ivs, |layers|;
    if n > 0 {
      assert all[..n] == [c] + layers[..n - 1] && vs[..n] == [iv] + ivs[..n - 1];
      SealFirst(c, iv, layers[..n - 1], ivs[..n - 1], data);
    } else {
      assert all[..0] == [] && vs[..0] == [];
    }
  }

  /** Decrypting undoes the last layer first. */
  lemma {:induction false} OpenLast(c: Cipher, layers: seq<Cipher>, data: seq<u8>)
    requires ValidLayers([c] + layers, 0) && ValidLayers(layers, 0) && ValidCipher(c)
    ensures OpenAll([c] + layers, data) ==
            match OpenAll(layers, data)
            case None => None
            case Some(d) => Opened(c, d)
    decreases |layers|
  {
    hide Opened, ValidCipher;
    var all, n := [c] + layers, |layers|;
    if n > 0 {
      assert all[..n] == [c] + layers[..n - 1] && all[n] == layers[n - 1];
      var d := Opened(layers[n - 1], data);
      if d.Some? {
        OpenLast(c, layers[..n - 1], d.value);
      }
    } else {
      assert all[..0] == [];
    }
  }

  lemma {:induction false} OpenUndoesSeal(layers: seq<Cipher>, ivs: seq<seq<u8>>, data: seq<u8>)
    requires ValidLayers(layers, 0) && ValidIvs(layers, ivs)
    ensures Filled(OpenAll(layers, SealAll(layers, ivs, data))) == if data == [] then None else Some(data)
  {
    if layers != [] {
      var n := |layers| - 1;
      hide Sealed, Opened, ValidCipher;
      OpenSealed(layers[n], ivs[n], SealAll(layers[..n], ivs[..n], data));
      OpenUndoesSeal(layers[..n], ivs[..n], data);
    }
  }

  /** For any number of layers, decoding what was encoded gives the data back exactly when there is any. */
  lemma CodecRoundTrip(layers: seq<Cipher>, ivs: seq<seq<u8>>, data: seq<u8>)
    requires ValidLayers(layers, 0) && ValidIvs(layers, ivs)
    ensures var e := Coded(false, layers, ivs, data);
            (e.Some? && Coded(true, layers, [], e.value) == Some(data)) <==> data != []
  {
    OpenUndoesSeal(layers, ivs, data);
    if layers != [] {
      hide SealAll, OpenAll;
    }
  }

  /** ciphers_codec: the layers in order, or in reverse order when decrypting. */
  method CiphersCodec(decrypt: bool, layers: seq<Cipher>, ivs: seq<seq<u8>>, data: seq<u8>, word: nat)
      returns (r: Option<seq<u8>>)
    requires ValidLayers(layers, word) && (!decrypt ==> ValidIvs(layers, ivs))
    ensures r == Coded(decrypt, layers, ivs, data)
  {
    hide Sealed, Opened, ValidCipher;
    var cur, n := data, |layers|;
    assert layers[..0] == [] && layers[..n] == layers;
    for j := 0 to n
      invariant !decrypt ==> cur == SealAll(layers[..j], ivs[..j], data)
      invariant decrypt ==> OpenAll(layers[..n - j], cur) == OpenAll(layers, data)
    {
      var i := if decrypt then n - 1 - j else j;
      if decrypt {
        assert layers[..i + 1][..i] == layers[..i];
        var next := DecryptCipher(layers[i], cur, word);
        if next.None? {
          return None;
        }
        cur := next.value;
      } else {
        assert layers[..i + 1][..i] == layers[..i] && ivs[..i + 1][..i] == ivs[..i];
        var next := EncryptCipher(layers[i], ivs[i], cur, word);
        cur := next.value;
      }
    }
    assert !decrypt ==> ivs[..n] == ivs;
    if cur == [] {
      return None;
    }
    return Some(cur);
  }
}
