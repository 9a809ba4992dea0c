/** Ed25519 signing and verifying over an abstract group. */
module Ed25519 {
  import opened Common
  import opened Radix

  const L: nat := 0x1000_0000_0000_0000_0000_0000_0000_0000_14de_f9de_a2f7_9cd6_5812_631a_5cf5_d3ed

  const TWO_254: nat := 0x4000_0000_0000_0000_0000_0000_0000_0000_0000_0000_0000_0000_0000_0000_0000_0000

  /**
   * The curve and SHA-512 of sections 5.1.6 and 5.1.7 of RFC 8032: point formulas and hash are
   * parameters, the scalar arithmetic is concrete.
   */
  datatype Curve<!Point(!new,==)> = Curve(
    zero: Point,
    add: (Point, Point) -> Point,
    neg: Point -> Point,
    base: Point,
    compress: Point -> seq<byte>,
    decompress: seq<byte> -> Option<Point>,
    sha512: seq<byte> -> seq<byte>)
  {
    // The group laws, one instance each; the quantifiers below trigger on these names only.
    predicate Unit(p: Point) { add(zero, p) == p && add(p, zero) == p }
    predicate Inverse(p: Point) { add(p, neg(p)) == zero }
    predicate Commutes(p: Point, q: Point) { add(p, q) == add(q, p) }
    predicate Associates(p: Point, q: Point, r: Point) { add(add(p, q), r) == add(p, add(q, r)) }

    ghost predicate GroupLaws()
    {
      && (forall p :: Unit(p))
      && (forall p :: Inverse(p))
      && (forall p, q :: Commutes(p, q))
      && (forall p, q, r :: Associates(p, q, r))
    }

    /** Every point has an encoding of 32 bytes that decodes to it; what else decodes is left open. */
    ghost predicate EncodingLaws()
    {
      && (forall p :: |compress(p)| == 32 && decompress(compress(p)) == Some(p))
      && (forall m :: |sha512(m)| == 64)
    }

    /** The group, its encoding, and a base point of order L. */
    ghost predicate Lawful()
    {
      && GroupLaws()
      && EncodingLaws()
      && (forall n: nat :: OrderAt(n))
    }

    predicate OrderAt(n: nat) { Times(n, base) == zero <==> n % L == 0 }

    /** [n]p as n additions. */
    function Times(n: nat, p: Point): Point
    {
      if n == 0 then zero else add(p, Times(n - 1, p))
    }

    // ---- Scalar multiplication --------------------------------------------------

    lemma {:induction false} TimesAdds(m: nat, n: nat, p: Point)
      requires GroupLaws()
      ensures Times(m + n, p) == add(Times(m, p), Times(n, p))
    {
      if m > 0 {
        TimesAdds(m - 1, n, p);
        assert Associates(p, Times(m - 1, p), Times(n, p));
      } else {
        assert Unit(Times(n, p));
      }
    }

    lemma {:induction false} TimesDouble(n: nat, p: Point)
      requires GroupLaws()
      ensures Times(2 * n, p) == Times(n, add(p, p))
    {
      if n > 0 {
        TimesDouble(n - 1, p);
        assert Times(2 * n, p) == add(p, add(p, Times(2 * n - 2, p)));
        assert Associates(p, p, Times(2 * n - 2, p));
      }
    }

    lemma {:induction false} TimesTimes(m: nat, n: nat, p: Point)
      requires GroupLaws()
      ensures Times(m * n, p) == Times(m, Times(n, p))
    {
      if m > 0 {
        TimesTimes(m - 1, n, p);
        var rest := (m - 1) * n;
        assert m * n == n + rest;
        TimesAdds(n, rest, p);
      }
    }

    /** (p + t) + (q + u) = (p + q) + (t + u). */
    lemma Rearrange(p: Point, t: Point, q: Point, u: Point)
      requires GroupLaws()
      ensures add(add(p, t), add(q, u)) == add(add(p, q), add(t, u))
    {
      assert Associates(p, t, add(q, u)) && Associates(t, q, u);
      assert Commutes(t, q) && Associates(q, t, u) && Associates(p, q, add(t, u));
    }

    lemma {:induction false} TimesNegated(n: nat, p: Point)
      requires GroupLaws()
      ensures add(Times(n, p), Times(n, neg(p))) == zero
    {
      if n > 0 {
        TimesNegated(n - 1, p);
        Rearrange(p, Times(n - 1, p), neg(p), Times(n - 1, neg(p)));
        assert Inverse(p);
      }
      assert Unit(zero);
    }

    /** `mul`: double-and-add is repeated addition. */
    method Mul(s: nat, p: Point) returns (q: Point)
      requires GroupLaws()
      ensures q == Times(s, p)
    {
      var t, d := s, p;
      q := zero;
      assert Unit(Times(s, p));
      while t > 0
        invariant add(q, Times(t, d)) == Times(s, p)
      {
        TimesDouble(t / 2, d);
        if t % 2 == 1 {
          assert Associates(q, d, Times(t - 1, d));
          q := add(q, d);
        }
        d, t := add(d, d), t / 2;
      }
      assert Unit(q);
    }

    lemma OrderReduces(n: nat)
      requires Lawful()
      ensures Times(n % L, base) == Times(n, base)
    {
      var whole, rest := WholePart(n);
      assert OrderAt(whole);
      TimesAdds(whole, rest, base);
      assert Unit(Times(rest, base));
    }

    // ---- Keys and signatures ----------------------------------------------------

    function HashInt(m: seq<byte>): nat
    {
      LittleEndianValue(sha512(m))
    }

    function SecretScalar(seed: seq<byte>): nat
      requires EncodingLaws()
    {
      Clamp(LittleEndianValue(sha512(seed)[..32]))
    }

    function PublicKey(seed: seq<byte>): (pub: seq<byte>)
      requires EncodingLaws()
      ensures |pub| == 32
    {
      compress(Times(SecretScalar(seed), base))
    }

    /** The signature with secret scalar a and nonce r. */
    function SignWith(a: nat, r: nat, pub: seq<byte>, msg: seq<byte>): (sig: seq<byte>)
      requires EncodingLaws()
      ensures |sig| == 64
    {
      var encodedR := compress(Times(r, base));
      var k := HashInt(encodedR + pub + msg) % L;
      encodedR + LittleEndian((r + k * a) % L, 32)
    }

    function Sign(seed: seq<byte>, msg: seq<byte>): (sig: seq<byte>)
      requires EncodingLaws()
      ensures |sig| == 64
    {
      SignWith(SecretScalar(seed), HashInt(sha512(seed)[32..] + msg) % L, PublicKey(seed), msg)
    }

    /** Cofactorless: the encoding of [S]B - [k]A must be R byte for byte, and S < L. */
    predicate Verify(pub: seq<byte>, msg: seq<byte>, sig: seq<byte>)
    {
      |sig| == 64 &&
      var a := decompress(pub);
      var s := LittleEndianValue(sig[32..]);
      a.Some? && s < L &&
      var k := HashInt(sig[..32] + pub + msg) % L;
      compress(add(Times(s, base), Times(k, neg(a.value)))) == sig[..32]
    }

    predicate SmallOrder(p: Point)
    {
      Times(8, p) == zero
    }

    /** If [s]B = [r]B + [k]A then [s]B - [k]A = [r]B. */
    lemma Cancels(s: nat, r: nat, k: nat, a: Point)
      requires GroupLaws() && Times(s, base) == add(Times(r, base), Times(k, a))
      ensures add(Times(s, base), Times(k, neg(a))) == Times(r, base)
    {
      TimesNegated(k, a);
      assert Associates(Times(r, base), Times(k, a), Times(k, neg(a)));
      assert Unit(Times(r, base));
    }

    /** [r + ka]B = [r]B + [k]([a]B), also after r + ka is reduced modulo L. */
    lemma SigningEquation(r: nat, k: nat, a: nat)
      requires Lawful()
      ensures Times((r + k * a) % L, base) == add(Times(r, base), Times(k, Times(a, base)))
    {
      OrderReduces(r + k * a);
      TimesAdds(r, k * a, base);
      TimesTimes(k, a, base);
    }

    lemma VerifiesIf(pub: seq<byte>, msg: seq<byte>, encodedR: seq<byte>, a: Point, s: nat, k: nat)
      requires |encodedR| == 32 && decompress(pub) == Some(a)
      requires s < L && k == HashInt(encodedR + pub + msg) % L
      requires compress(add(Times(s, base), Times(k, neg(a)))) == encodedR
      ensures Verify(pub, msg, encodedR + LittleEndian(s, 32))
    {
      ScalarBytes(s);
      var sig := encodedR + LittleEndian(s, 32);
      assert sig[..32] == encodedR && sig[32..] == LittleEndian(s, 32);
    }

    /** The equation a verifier checks, for the scalars a signer uses. */
    lemma SignedEquation(r: nat, k: nat, a: nat, s: nat)
      requires Lawful() && s == (r + k * a) % L
      ensures s < L && add(Times(s, base), Times(k, neg(Times(a, base)))) == Times(r, base)
    {
      SigningEquation(r, k, a);
      Cancels(s, r, k, Times(a, base));
    }

    lemma ScalarBytes(s: nat)
      requires s < L
      ensures |LittleEndian(s, 32)| == 32 && LittleEndianValue(LittleEndian(s, 32)) == s
    {
      LIsShort();
      LittleEndianRoundTrip(s, 32);
    }

    /** What a signer sends verifies, for any nonce r and any secret scalar a. */
    lemma SignatureHolds(a: nat, r: nat, pub: seq<byte>, msg: seq<byte>)
      requires Lawful() && decompress(pub) == Some(Times(a, base))
      ensures Verify(pub, msg, SignWith(a, r, pub, msg))
    {
      var encodedR := compress(Times(r, base));
      var k := HashInt(encodedR + pub + msg) % L;
      var s := (r + k * a) % L;
      SignedEquation(r, k, a, s);
      VerifiesIf(pub, msg, encodedR, Times(a, base), s, k);
    }

    /** Every signature made with a seed verifies under the seed's public key. */
    lemma SignedVerifies(seed: seq<byte>, msg: seq<byte>)
      requires Lawful()
      ensures Verify(PublicKey(seed), msg, Sign(seed, msg))
    {
      SignatureHolds(SecretScalar(seed), HashInt(sha512(seed)[32..] + msg) % L, PublicKey(seed), msg);
    }

    /** No seed gives a key of small order. */
    lemma PublicKeyIsSound(seed: seq<byte>)
      requires Lawful()
      ensures decompress(PublicKey(seed)) == Some(Times(SecretScalar(seed), base))
      ensures !SmallOrder(Times(SecretScalar(seed), base))
    {
      var h := LittleEndianValue(sha512(seed)[..32]);
      TimesTimes(8, Clamp(h), base);
      ClampedOrder(h);
      assert OrderAt(8 * Clamp(h));
    }
  }

  /** `expand` on the low half of the hash: bits 0-2 cleared, bit 254 set, bit 255 cleared. */
  function Clamp(h: nat): (a: nat)
    ensures TWO_254 <= a < 2 * TWO_254 && a % 8 == 0
  {
    TWO_254 + h % TWO_254 / 8 * 8
  }

  lemma WholePart(n: nat) returns (whole: nat, rest: nat)
    ensures whole % L == 0 && rest == n % L && whole + rest == n
  {
    whole, rest := n - n % L, n % L;
  }

  /** An odd number of L's is odd, so 64 divides m * L only if it divides m. */
  lemma OddMultiple(m: nat, t: nat)
    requires m * L == 64 * t
    ensures m % 64 == 0
  {
    var q := L / 64;
    assert L == 64 * q + 45;
    assert m * L == 64 * (m * q) + 45 * m;
    assert 45 * m == 64 * (t - m * q);
    assert 45 * 37 * m == 64 * (37 * (t - m * q));
    assert m == 64 * (37 * (t - m * q) - 26 * m);
  }

  /** [8] of a clamped multiple of the base is never the identity. */
  lemma ClampedOrder(h: nat)
    ensures (8 * Clamp(h)) % L != 0
  {
    var a := Clamp(h);
    if (8 * a) % L == 0 {
      var m := 8 * a / L;
      assert m * L == 64 * (a / 8);
      OddMultiple(m, a / 8);
    }
  }

  lemma LIsShort()
    ensures L < Pow256(32)
  {
    Pow256At8();
    PowAdds(8, 8);
    PowAdds(16, 16);
  }

  lemma Pow256At8()
    ensures Pow256(8) == 0x1_0000_0000_0000_0000
  {
  }

  lemma {:induction false} PowAdds(i: nat, j: nat)
    ensures Pow256(i + j) == Pow256(i) * Pow256(j)
  {
    if i > 0 {
      PowAdds(i - 1, j);
      assert Pow256(i + j) == 256 * Pow256(i - 1 + j);
    }
  }

  // ---- The laws have a model ----------------------------------------------------

  newtype Residue = n: int | 0 <= n < L

  function ResidueCurve(): Curve<Residue>
  {
    Curve(0,
          (p: Residue, q: Residue) => if p as int + q as int < L then (p as int + q as int) as Residue
                                      else (p as int + q as int - L) as Residue,
          (p: Residue) => if p == 0 then 0 else (L - p as int) as Residue,
          1,
          (p: Residue) => LittleEndian(p as int, 32),
          (b: seq<byte>) => if |b| == 32 && LittleEndianValue(b) < L
                            then Some(LittleEndianValue(b) as Residue) else None,
          (m: seq<byte>) => seq(64, _ => 0))
  }

  lemma {:induction false} ResidueTimes(n: nat)
    ensures ResidueCurve().Times(n, 1) as int == n % L
  {
    if n > 0 {
      ResidueTimes(n - 1);
      NextResidue(n);
    }
  }

  lemma NextResidue(n: nat)
    requires n > 0
    ensures (1 + (n - 1) % L) % L == n % L
  {
  }

  lemma ResidueGroup()
    ensures ResidueCurve().GroupLaws()
  {
    var c := ResidueCurve();
    assert forall p :: c.Unit(p);
    assert forall p :: c.Inverse(p);
    assert forall p, q :: c.Commutes(p, q);
    assert forall p, q, r :: c.Associates(p, q, r);
  }

  lemma ResidueEncoding()
    ensures ResidueCurve().EncodingLaws()
  {
    var c := ResidueCurve();
    LIsShort();
    forall p ensures c.decompress(c.compress(p)) == Some(p) {
      LittleEndianRoundTrip(p as int, 32);
    }
  }

  /** The integers modulo L satisfy every law assumed of the curve. */
  lemma LawsAreConsistent()
    ensures ResidueCurve().Lawful()
  {
    ResidueGroup();
    ResidueEncoding();
    forall n: nat ensures ResidueCurve().OrderAt(n) {
      ResidueTimes(n);
    }
  }
}
