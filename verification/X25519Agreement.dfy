/** The two implementations of X25519 against each other and against RFC 7748. */
module X25519Agreement {
  import opened Machine
  import opened Field25519
  import opened Bits
  import opened X25519
  import opened X25519Curve
  import Donna32Codec
  import Donna64Codec

  /** On every secret and every base point both implementations write the same 32 bytes. */
  method BothWriteTheSameBytes(secret: seq<u8>, basepoint: seq<u8>) returns (portable: seq<u8>, wide: seq<u8>)
    requires |secret| == 32 && |basepoint| == 32
    ensures portable == wide && |portable| == 32
    ensures LE(portable) == Curve25519(secret, basepoint)
  {
    var a, b := new u8[32], new u8[32];
    Donna32Codec.Curve25519Donna(a, secret, basepoint);
    Donna64Codec.Curve25519Donna(b, secret, basepoint);
    LEInjective(a[..], b[..]);
    portable, wide := a[..], b[..];
  }

  /** Expanding and contracting clears the top bit and reduces modulo P, in both forms. */
  method ExpandThenContract(b: seq<u8>) returns (portable: seq<u8>, wide: seq<u8>)
    requires |b| == 32
    ensures |portable| == 32 && LE(portable) == LE(b) % (P + 19) % P && wide == portable
  {
    var out32, out64 := new u8[32], new u8[32];
    var x := Donna32Codec.Expand(b);
    Donna32Codec.Contract(out32, x);
    var y := Donna64Codec.Expand(b);
    Donna64Codec.Contract(out64, y);
    LEInjective(out32[..], out64[..]);
    portable, wide := out32[..], out64[..];
  }

  /** Clamping clears bit 255, so the first of the 256 ladder steps always sees a zero bit. */
  lemma ClampedTopBit(secret: seq<u8>)
    requires |secret| == 32
    ensures Bit(LE(Clamp(secret)), 255) == 0
  {
    hide LE, Bit;
    BitOfLE(Clamp(secret), 31, 7);
    BitSeven(Clamp(secret)[31] as nat);
  }

  /** Both implementations compute the X25519 function of RFC 7748 section 5. */
  lemma ImplementsRfc(secret: seq<u8>, basepoint: seq<u8>)
    requires |secret| == 32 && |basepoint| == 32 && Fermat()
    ensures Curve25519(secret, basepoint) == RfcX25519(LE(Clamp(secret)), DecodeU(basepoint))
  {
    hide LE, Bit, Run, RfcX25519, Clamp, DecodeU;
    ClampedTopBit(secret);
    ScalarmultIsRfc(LE(Clamp(secret)), DecodeU(basepoint));
  }

  /** The scalar in a secret: bit 254 is set, bits 3 to 253 are those of the secret. */
  ghost function Scalar(secret: seq<u8>): nat {
    Exp2Positive(254);
    Exp2(254) + (LE(secret) % Exp2(254) - LE(secret) % 8)
  }

  lemma ClampIsScalar(secret: seq<u8>, n: nat)
    requires |secret| == 32 && n == 256
    ensures LE(Clamp(secret)) == Scalar(secret) < Exp2(n)
  {
    hide LE, Exp2, Clamp;
    ClampValue(secret);
    Exp2Add(254, 2);
    SmallExp2();
  }

  /** What both implementations compute, in terms of the curve alone: if rel(n, x, z) is closed under its doubling and
      addition and starts with (1 : 0) and (u : 1), then the result is the coordinate x / z of a point that
      rel names as the scalar times the base point, or 0 if that is at infinity. */
  lemma ComputesMultiple(secret: seq<u8>, basepoint: seq<u8>, rel: (nat, Fe, Fe) -> bool) returns (x: Fe, z: Fe)
    requires |secret| == 32 && |basepoint| == 32 && Fermat()
    requires var u := Red(LE(basepoint) % (P + 19)); GroupLaw(u, rel) && rel(0, 1, 0) && rel(1, u, 1)
    ensures rel(Scalar(secret), x, z)
    ensures if z == 0 then Curve25519(secret, basepoint) == 0 else Mul(Curve25519(secret, basepoint), z) == x
  {
    hide LE, Run, Clamp, Exp2, GroupLaw, Affine, Mul, Fermat, Scalar;
    var k, u := LE(Clamp(secret)), DecodeU(basepoint);
    var st := Run(u, k, 256, Start(u));
    ClampIsScalar(secret, 256);
    LadderCounts(u, rel, k, 256);
    AffineIsQuotient(st);
    x, z := st.x2, st.z2;
  }
}
