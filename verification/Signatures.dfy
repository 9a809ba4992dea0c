/** When a signature verifies. */
module Signatures {
  import opened Common
  import opened Radix
  import opened Ed25519

  // ---- Verifying --------------------------------------------------------------------------

  /** The order of the base point: 2 ** 252 + 27742317777372353535851937790883648493. */
  lemma OrderIs()
    ensures L == 7237005577332262213973186563042994240829374041602535252466099000494570602496
               + 27742317777372353535851937790883648493
  {
  }

  /** [s]B = R + [k]A. */
  ghost predicate Equation<Point(!new)>(c: Curve<Point>, s: nat, r: Point, k: nat, a: Point)
  {
    c.Times(s, c.base) == c.add(r, c.Times(k, a))
  }

  lemma Isolates<Point(!new)>(c: Curve<Point>, s: nat, r: Point, k: nat, a: Point)
    requires c.GroupLaws()
    ensures Equation(c, s, r, k, a) <==> c.add(c.Times(s, c.base), c.Times(k, c.neg(a))) == r
  {
    var q, m, n := c.Times(s, c.base), c.Times(k, a), c.Times(k, c.neg(a));
    c.TimesNegated(k, a);
    assert c.Commutes(m, n) && c.Associates(r, m, n) && c.Associates(q, n, m) && c.Unit(r) && c.Unit(q);
  }

  /** The challenge: the hash of R, public key and message, reduced modulo the order. */
  ghost function Challenge<Point(!new)>(c: Curve<Point>, encodedR: seq<byte>, pub: seq<byte>, msg: seq<byte>): nat
  {
    FullChallenge(c, encodedR, pub, msg) % L
  }

  /** The equation holds of the points that key and signature stand for. */
  ghost predicate Holds<Point(!new)>(c: Curve<Point>, pub: seq<byte>, msg: seq<byte>, sig: seq<byte>, a: Point,
                                     r: Point)
    requires |sig| == 64
  {
    && c.decompress(pub) == Some(a) && c.compress(r) == sig[..32]
    && Equation(c, LittleEndianValue(sig[32..]), r, Challenge(c, sig[..32], pub, msg), a)
  }

  /** A signature verifies exactly if it is 64 bytes, S is reduced and [S]B = R + [k]A. */
  lemma VerifiesExactlyIf<Point(!new)>(c: Curve<Point>, pub: seq<byte>, msg: seq<byte>, sig: seq<byte>)
    requires c.GroupLaws() && c.EncodingLaws()
    ensures c.Verify(pub, msg, sig)
       <==> |sig| == 64 && LittleEndianValue(sig[32..]) < L && exists a, r :: Holds(c, pub, msg, sig, a, r)
  {
    if |sig| == 64 && c.decompress(pub).Some? {
      var a, s, k := c.decompress(pub).value, LittleEndianValue(sig[32..]), Challenge(c, sig[..32], pub, msg);
      var r := c.add(c.Times(s, c.base), c.Times(k, c.neg(a)));
      Isolates(c, s, r, k, a);
      assert c.compress(r) == sig[..32] ==> Holds(c, pub, msg, sig, a, r);
      if a', r' :| Holds(c, pub, msg, sig, a', r') {
        Isolates(c, s, r', k, a);
      }
    }
  }

  // ---- Signing ------------------------------------------------------------------------------

  /** 2 ** 251 */
  const TWO_251: nat := 0x0800_0000_0000_0000_0000_0000_0000_0000_0000_0000_0000_0000_0000_0000_0000_0000

  /** The clamped scalar has bit 254 set, bits 0 to 2 clear, and bits 3 to 253 of the hash; there are no others. */
  lemma ClampKeepsBits(h: nat)
    ensures TWO_254 == 8 * TWO_251 && Clamp(h) == TWO_254 + 8 * (h / 8 % TWO_251)
  {
    var q, r := h / TWO_254, h % TWO_254;
    assert h == q * TWO_254 + r;
    EighthOf(h, q, r);
    DivideBack(q, TWO_251, r / 8);
  }

  lemma EighthOf(h: nat, q: nat, r: nat)
    requires h == q * TWO_254 + r && r < TWO_254
    ensures h / 8 == q * TWO_251 + r / 8 && r / 8 < TWO_251
  {
    assert q * TWO_254 == 8 * (q * TWO_251);
  }

  /** Two seeds have the same secret scalar exactly if their hashes agree in bits 3 to 253. */
  lemma SameScalar<Point(!new)>(c: Curve<Point>, seed: seq<byte>, other: seq<byte>)
    requires c.EncodingLaws()
    ensures var h, g := LittleEndianValue(c.sha512(seed)[..32]), LittleEndianValue(c.sha512(other)[..32]);
            c.SecretScalar(seed) == c.SecretScalar(other) <==> h / 8 % TWO_251 == g / 8 % TWO_251
  {
    ClampKeepsBits(LittleEndianValue(c.sha512(seed)[..32]));
    ClampKeepsBits(LittleEndianValue(c.sha512(other)[..32]));
  }

  /** s is r + k a modulo the order. */
  ghost predicate AddsUp(s: int, r: int, k: int, a: int)
  {
    (s - (r + k * a)) % L == 0
  }

  lemma WholePartOf(n: nat)
    ensures n == n / L * L + n % L
  {
  }

  lemma ReducedParts(q: int, r: int, p: int, k: int, a: int, w: int)
    ensures r + k * a - w * L - (q * L + r + (p * L + k) * a) == (-w - q - p * a) * L
  {
    assert (p * L + k) * a == p * a * L + k * a;
  }

  lemma IsMultiple(k: int, d: int)
    requires d == k * L
    ensures d % L == 0
  {
  }

  /** [(r mod L) + (k mod L) a] is r + k a. */
  lemma ReducedSum(r: nat, k: nat, a: nat, t: nat)
    requires t == r % L + k % L * a
    ensures AddsUp(t % L, r, k, a)
  {
    WholePartOf(r);
    WholePartOf(k);
    WholePartOf(t);
    ReducedParts(r / L, r % L, k / L, k % L, a, t / L);
    IsMultiple(-(t / L) - r / L - k / L * a, t % L - (r + k * a));
  }

  /** The hash of the second half of the seed's hash and the message. */
  ghost function Nonce<Point(!new)>(c: Curve<Point>, seed: seq<byte>, msg: seq<byte>): nat
    requires c.EncodingLaws()
  {
    LittleEndianValue(c.sha512(c.sha512(seed)[32..] + msg))
  }

  /** The hash of R, public key and message. */
  ghost function FullChallenge<Point(!new)>(c: Curve<Point>, encodedR: seq<byte>, pub: seq<byte>, msg: seq<byte>): nat
  {
    LittleEndianValue(c.sha512(encodedR + pub + msg))
  }

  /** R is the nonce times the base, S the nonce plus challenge times secret scalar. */
  ghost predicate IsSignature<Point(!new)>(c: Curve<Point>, sig: seq<byte>, nonce: nat, a: nat, pub: seq<byte>,
                                           msg: seq<byte>)
  {
    && |sig| == 64 && sig[..32] == c.compress(c.Times(nonce, c.base))
    && LittleEndianValue(sig[32..]) < L
    && AddsUp(LittleEndianValue(sig[32..]), nonce, FullChallenge(c, sig[..32], pub, msg), a)
  }

  /** Neither nonce nor challenge need be reduced to say what a signature is. */
  lemma SignatureIs<Point(!new)>(c: Curve<Point>, seed: seq<byte>, msg: seq<byte>)
    requires c.Lawful()
    ensures IsSignature(c, c.Sign(seed, msg), Nonce(c, seed, msg), c.SecretScalar(seed), c.PublicKey(seed), msg)
  {
    c.OrderReduces(Nonce(c, seed, msg));
    SignedWith(c, c.SecretScalar(seed), Nonce(c, seed, msg), Nonce(c, seed, msg) % L, c.PublicKey(seed), msg,
               c.Sign(seed, msg), c.compress(c.Times(Nonce(c, seed, msg) % L, c.base)));
  }

  lemma SignatureParts<Point(!new)>(c: Curve<Point>, a: nat, r: nat, pub: seq<byte>, msg: seq<byte>,
                                    encodedR: seq<byte>, k: nat, s: nat)
    requires c.EncodingLaws() && encodedR == c.compress(c.Times(r, c.base))
    requires k == FullChallenge(c, encodedR, pub, msg) % L && s == (r + k * a) % L
    ensures c.SignWith(a, r, pub, msg) == encodedR + LittleEndian(s, 32)
  {
  }

  lemma TwoHalves(encodedR: seq<byte>, rest: seq<byte>, sig: seq<byte>)
    requires |encodedR| == 32 && |rest| == 32 && sig == encodedR + rest
    ensures |sig| == 64 && sig[..32] == encodedR && sig[32..] == rest
  {
  }

  lemma ReadsParts<Point(!new)>(c: Curve<Point>, sig: seq<byte>, nonce: nat, a: nat, pub: seq<byte>, msg: seq<byte>,
                                encodedR: seq<byte>, k: nat, s: nat)
    requires c.EncodingLaws() && sig == encodedR + LittleEndian(s, 32) && s < L
    requires encodedR == c.compress(c.Times(nonce, c.base)) && k == FullChallenge(c, encodedR, pub, msg)
    requires AddsUp(s, nonce, k, a)
    ensures IsSignature(c, sig, nonce, a, pub, msg)
  {
    c.ScalarBytes(s);
    TwoHalves(encodedR, LittleEndian(s, 32), sig);
  }

  /** The scalars a signer computes, one after the other. */
  lemma Scalars(nonce: nat, k: nat, a: nat) returns (r: nat, reduced: nat, s: nat)
    ensures r == nonce % L && reduced == k % L && s == (r + reduced * a) % L
    ensures s < L && AddsUp(s, nonce, k, a)
  {
    r, reduced := nonce % L, k % L;
    var t := r + reduced * a;
    s := t % L;
    ReducedSum(nonce, k, a, t);
  }

  lemma SignedWith<Point(!new)>(c: Curve<Point>, a: nat, nonce: nat, r: nat, pub: seq<byte>, msg: seq<byte>,
                                sig: seq<byte>, encodedR: seq<byte>)
    requires c.EncodingLaws() && r == nonce % L && encodedR == c.compress(c.Times(r, c.base))
    requires encodedR == c.compress(c.Times(nonce, c.base)) && sig == c.SignWith(a, r, pub, msg)
    ensures IsSignature(c, sig, nonce, a, pub, msg)
  {
    var k := FullChallenge(c, encodedR, pub, msg);
    var r', reduced, s := Scalars(nonce, k, a);
    SignatureParts(c, a, r, pub, msg, encodedR, reduced, s);
    ReadsParts(c, sig, nonce, a, pub, msg, encodedR, k, s);
  }
}
