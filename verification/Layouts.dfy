/** Numbers as bytes, digits and groups of bits, place by place. */
module Layouts {
  import opened Common
  import opened Radix
  import Varint
  import Base58
  import GeneId

  // ---- Digit strings ------------------------------------------------------------------

  function Power(base: nat, n: nat): nat
  {
    if n == 0 then 1 else base * Power(base, n - 1)
  }

  lemma Distributes(v: nat, p: nat, w: nat, base: nat, d: nat)
    ensures (v * p + w) * base + d == v * (base * p) + (w * base + d)
  {
  }

  /** The first digits count the most: what stands before n digits counts for base to the n as much. */
  lemma {:induction false} ValueOfConcat(a: seq<nat>, b: seq<nat>, base: nat)
    ensures Value(a + b, base) == Value(a, base) * Power(base, |b|) + Value(b, base)
  {
    if b == [] {
      assert a + b == a;
    } else {
      var front, last := b[..|b| - 1], b[|b| - 1];
      assert a + b == (a + front) + [last];
      ValueOfSnoc(a + front, last, base);
      ValueOfConcat(a, front, base);
      assert |front| == |b| - 1;
      Distributes(Value(a, base), Power(base, |front|), Value(front, base), base, last);
    }
  }

  lemma Euclid(n: nat, a: nat)
    requires a > 0
    ensures n == n / a * a + n % a && 0 <= n % a < a && n / a >= 0
  {
  }

  lemma TwoQuotients(a: nat, b: nat, c: nat, u: nat, v: nat, r: nat)
    requires v < b && r < a && c == a * b
    ensures (u * b + v) * a + r == u * c + (v * a + r) && v * a + r < c
  {
    assert (u * b + v) * a == u * (a * b) + v * a;
    MulMonotone(v + 1, b, a);
  }

  lemma DivideTwice(n: nat, a: nat, b: nat, c: nat)
    requires a > 0 && b > 0 && c == a * b
    ensures c > 0 && n / a / b == n / c
  {
    MulMonotone(1, b, a);
    var q := n / a;
    Euclid(n, a);
    Euclid(q, b);
    TwoQuotients(a, b, c, q / b, q % b, n % a);
    DivideBack(q / b, c, q % b * a + n % a);
  }

  /** Byte i of a big-endian number counts for 256 to the number of bytes behind it. */
  lemma {:induction false} BigEndianByte(n: nat, len: nat, i: nat)
    requires i < len
    ensures BigEndian(n, len)[i] == n / Pow256(len - 1 - i) % 256
  {
    if i < len - 1 {
      BigEndianByte(n / 256, len - 1, i);
      DivideTwice(n, 256, Pow256(len - 2 - i), Pow256(len - 1 - i));
    }
  }

  /** Byte i of a little-endian number counts for 256 to the i. */
  lemma {:induction false} LittleEndianByte(n: nat, len: nat, i: nat)
    requires i < len
    ensures LittleEndian(n, len)[i] == n / Pow256(i) % 256
  {
    if i > 0 {
      LittleEndianByte(n / 256, len - 1, i - 1);
      DivideTwice(n, 256, Pow256(i - 1), Pow256(i));
    }
  }

  // ---- Groups of seven bits -----------------------------------------------------------

  /** The low seven bits of each byte, the first least significant. */
  function Groups(s: seq<byte>): nat
  {
    if s == [] then 0 else s[0] % 128 + 128 * Groups(s[1..])
  }

  /** The high bit says that more follows: it is set in every byte but the last. */
  ghost predicate Marked(s: seq<byte>)
  {
    s != [] && s[|s| - 1] < 128 && forall i :: 0 <= i < |s| - 1 ==> s[i] >= 128
  }

  /** The groups add up to n. */
  ghost predicate Spells(s: seq<byte>, n: nat)
  {
    Marked(s) && Groups(s) == n
  }

  lemma MarkedMore(b: byte, s: seq<byte>)
    requires s != []
    ensures Marked([b] + s) <==> b >= 128 && Marked(s)
  {
    var t := [b] + s;
    assert t[0] == b && forall i :: 0 <= i < |s| ==> t[i + 1] == s[i];
    if b >= 128 && Marked(s) {
      forall i | 0 <= i < |t| - 1 ensures t[i] >= 128 {
        assert i > 0 ==> t[i] == s[i - 1];
      }
    }
    if Marked(t) {
      forall i | 0 <= i < |s| - 1 ensures s[i] >= 128 {
        assert t[i + 1] == s[i];
      }
    }
  }

  lemma SpellsMore(b: byte, s: seq<byte>, n: nat)
    requires s != []
    ensures Spells([b] + s, n) <==> b >= 128 && Spells(s, Groups(s)) && n == b - 128 + 128 * Groups(s)
  {
    MarkedMore(b, s);
    assert ([b] + s)[1..] == s && Groups([b] + s) == b % 128 + 128 * Groups(s);
  }

  lemma SpellsOne(b: byte, n: nat)
    ensures Spells([b], n) <==> b < 128 && n == b
  {
    var s := [b];
    assert s[1..] == [] && s[|s| - 1] == b && Groups(s) == b % 128;
  }

  /** The written varint: groups of seven bits, each but the last marked, and no empty group at the end. */
  lemma {:induction false} VarintIsGroups(n: nat)
    ensures Spells(Varint.Encode(n), n)
    ensures var s := Varint.Encode(n); |s| > 1 ==> s[|s| - 1] > 0
    decreases n
  {
    if n < 128 {
      SpellsOne(n, n);
    } else {
      var rest := Varint.Encode(n / 128);
      VarintIsGroups(n / 128);
      SpellsMore(n % 128 + 128, rest, n);
      assert Varint.Encode(n) == [n % 128 + 128] + rest;
    }
  }

  /** A varint whose first i bytes have been read: at most ten bytes in all, and one bit in the tenth. */
  ghost predicate Varies(s: seq<byte>, i: nat, n: nat)
  {
    Spells(s, n) && i + |s| <= 10 && (i + |s| == 10 ==> s[|s| - 1] <= 1)
  }

  lemma VariesMore(b: byte, s: seq<byte>, i: nat, n: nat)
    requires s != []
    ensures Varies([b] + s, i, n) <==> b >= 128 && Varies(s, i + 1, Groups(s)) && n == b - 128 + 128 * Groups(s)
  {
    SpellsMore(b, s, n);
    assert ([b] + s)[|s|] == s[|s| - 1];
  }

  /** What is accepted is a varint. */
  lemma {:induction false} ReadsVarint(buf: seq<byte>, pos: nat, i: nat)
    requires i <= 9 && Varint.ReadFrom(buf, pos, i).Some?
    ensures var (n, after) := Varint.ReadFrom(buf, pos, i).value; Varies(buf[pos..after], i, n)
    decreases 9 - i
  {
    var (n, after) := Varint.ReadFrom(buf, pos, i).value;
    if buf[pos] < 128 {
      SpellsOne(buf[pos], n);
      assert buf[pos..after] == [buf[pos]];
    } else {
      ReadsVarint(buf, pos + 1, i + 1);
      assert buf[pos..after] == [buf[pos]] + buf[pos + 1..after];
      VariesMore(buf[pos], buf[pos + 1..after], i, n);
    }
  }

  /** Every varint is accepted, with its value, whatever follows it. */
  lemma {:induction false} VarintIsRead(buf: seq<byte>, pos: nat, i: nat, s: seq<byte>, n: nat)
    requires i <= 9 && pos + |s| <= |buf| && buf[pos..pos + |s|] == s && Varies(s, i, n)
    ensures Varint.ReadFrom(buf, pos, i) == Some((n, pos + |s|))
    decreases |s|
  {
    assert buf[pos] == s[0];
    if |s| == 1 {
      assert s == [s[0]];
      SpellsOne(s[0], n);
    } else {
      assert s == [s[0]] + s[1..] && buf[pos + 1..pos + |s|] == s[1..];
      VariesMore(s[0], s[1..], i, n);
      VarintIsRead(buf, pos + 1, i + 1, s[1..], Groups(s[1..]));
    }
  }

  /** A reader takes exactly the varints there are: any number of groups up to ten bytes and 64 bits. */
  lemma ReadsExactlyVarints(buf: seq<byte>, pos: nat, n: nat, after: nat)
    ensures Varint.ReadFrom(buf, pos, 0) == Some((n, after))
       <==> pos < after <= |buf| && Varies(buf[pos..after], 0, n)
  {
    if Varint.ReadFrom(buf, pos, 0) == Some((n, after)) {
      ReadsVarint(buf, pos, 0);
    }
    if pos < after <= |buf| && Varies(buf[pos..after], 0, n) {
      VarintIsRead(buf, pos, 0, buf[pos..after], n);
    }
  }

  lemma {:induction false} ReadsLeb(buf: seq<byte>)
    requires GeneId.Leb128(buf).Some?
    ensures var (n, k) := GeneId.Leb128(buf).value; Spells(buf[..k], n)
  {
    var (n, k) := GeneId.Leb128(buf).value;
    if buf[0] < 128 {
      SpellsOne(buf[0], n);
      assert buf[..k] == [buf[0]];
    } else {
      ReadsLeb(buf[1..]);
      assert buf[..k] == [buf[0]] + buf[1..][..k - 1];
      SpellsMore(buf[0], buf[1..][..k - 1], n);
    }
  }

  lemma {:induction false} LebIsRead(buf: seq<byte>, s: seq<byte>, n: nat)
    requires |s| <= |buf| && buf[..|s|] == s && Spells(s, n)
    ensures GeneId.Leb128(buf) == Some((n, |s|))
    decreases |s|
  {
    assert buf[0] == s[0];
    if |s| == 1 {
      assert s == [s[0]];
      SpellsOne(s[0], n);
    } else {
      assert s == [s[0]] + s[1..] && buf[1..][..|s| - 1] == s[1..];
      SpellsMore(s[0], s[1..], n);
      LebIsRead(buf[1..], s[1..], Groups(s[1..]));
    }
  }

  /** A LEB128 number is groups of seven bits, however many. */
  lemma LebExactlyGroups(buf: seq<byte>, n: nat, k: nat)
    ensures GeneId.Leb128(buf) == Some((n, k)) <==> 0 < k <= |buf| && Spells(buf[..k], n)
  {
    if GeneId.Leb128(buf) == Some((n, k)) {
      ReadsLeb(buf);
    }
    if 0 < k <= |buf| && Spells(buf[..k], n) {
      LebIsRead(buf, buf[..k], n);
    }
  }

  // ---- Base58 ---------------------------------------------------------------------------

  /** The ASCII digits and letters but for 0, I, O and l. */
  predicate Distinguishable(c: char)
  {
    ('0' <= c <= '9' || 'A' <= c <= 'Z' || 'a' <= c <= 'z') && c != '0' && c != 'I' && c != 'O' && c != 'l'
  }

  /** The 58 letters are these, in ascending order. */
  lemma AlphabetAscends(d: nat, e: nat, c: char)
    ensures d < e < 58 ==> Base58.Letter(d) < Base58.Letter(e)
    ensures Distinguishable(c) <==> exists k: nat :: k < 58 && Base58.Letter(k) == c
  {
    if Distinguishable(c) {
      Base58.LetterOfIndex(c);
      assert Base58.IndexOf(c) < 58;
    }
  }

  /** Letter by letter the text of some bytes is their number in base 58, with a `1` for each zero byte in front. */
  lemma TextIsTheNumber(data: seq<byte>)
    ensures var d := Base58.Indices(Base58.Encode(data));
            Value(d, 58) == Value(data, 256) && LeadingZeros(d) == LeadingZeros(data)
  {
    var d := Convert(data, 256, 58);
    Base58.IndicesOfSpell(d);
    ZerosAddNothing(LeadingZeros(data), Digits(Value(data, 256), 58), 58);
    ValueOfDigits(Value(data, 256), 58);
    LeadingZerosOf(LeadingZeros(data), Digits(Value(data, 256), 58));
  }
}
