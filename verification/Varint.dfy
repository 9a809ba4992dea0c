/** The varint codec of the DHT gene record (scripts/p2p-dht-v1-reference.py). */
module Varint {
  import opened Common
  import opened Radix

  /** The one shortest encoding of n: seven bits a byte, least significant first. */
  function Encode(n: nat): (r: seq<byte>)
    ensures |r| >= 1
  {
    if n < 128 then [n] else [n % 128 + 128] + Encode(n / 128)
  }

  /** `varint`: masks and shifts are written as remainder and quotient. */
  method Write(n: nat) returns (out: seq<byte>)
    ensures out == Encode(n)
  {
    out := [];
    var m := n;
    while true
      invariant out + Encode(m) == Encode(n)
      decreases m
    {
      var b := m % 128;
      m := m / 128;
      out := out + [b + if m != 0 then 128 else 0];
      if m == 0 {
        return;
      }
    }
  }

  /** Every value left to read at byte i of a varint is below Limit(i); Limit(0) is 2^64. */
  function Limit(i: nat): (c: nat)
    requires i <= 9
    ensures c >= 2
    decreases 9 - i
  {
    if i == 9 then 2 else 128 * Limit(i + 1)
  }

  const TWO_64: nat := 0x1_0000_0000_0000_0000

  lemma LimitIs64Bits()
    ensures Limit(0) == TWO_64
  {
    assert Limit(6) == 128 * 128 * 128 * 2;
    assert Limit(3) == 128 * 128 * 128 * Limit(6);
    assert Limit(0) == 128 * 128 * 128 * Limit(3);
  }

  /**
   * The value that starts at byte `i` of a varint, and the position after it.
   * None is the source's Malformed: the buffer ends, or the tenth byte holds more
   * than the one bit left of 64.
   */
  function ReadFrom(buf: seq<byte>, pos: nat, i: nat): (r: Option<(nat, nat)>)
    requires i <= 9
    ensures r.Some? ==> pos < r.value.1 <= |buf| && r.value.0 < Limit(i)
    decreases |buf| - pos
  {
    if pos >= |buf| || (i == 9 && buf[pos] > 1) then None
    else if buf[pos] < 128 then Some((buf[pos], pos + 1))
    else
      match ReadFrom(buf, pos + 1, i + 1)
      case None => None
      case Some(rest) => Some((buf[pos] % 128 + 128 * rest.0, rest.1))
  }

  /** What a read returns that has `value` from the bytes before byte i, and `rest` from there on. */
  ghost function Resume(value: nat, i: nat, rest: Option<(nat, nat)>): Option<(nat, nat)>
  {
    match rest
    case None => None
    case Some(r) => Some((value + Shifted(r.0, i), r.1))
  }

  lemma ResumeStart(rest: Option<(nat, nat)>)
    ensures Resume(0, 0, rest) == rest
  {
  }

  lemma ResumeStep(buf: seq<byte>, pos: nat, i: nat, value: nat, low: nat)
    requires i < 9 && pos < |buf| && buf[pos] == 128 + low
    ensures Resume(value, i, ReadFrom(buf, pos, i))
         == Resume(value + Shifted(low, i), i + 1, ReadFrom(buf, pos + 1, i + 1))
  {
    assert buf[pos] % 128 == low;
    var rest := ReadFrom(buf, pos + 1, i + 1);
    if rest.Some? {
      ShiftedSum(low, rest.value.0, i);
    }
  }

  /** `read_varint`; on disjoint bits `value |= (b & 0x7F) << (7 * i)` is a sum. */
  method Read(buf: seq<byte>, start: nat) returns (r: Option<(nat, nat)>)
    ensures r == ReadFrom(buf, start, 0)
  {
    var pos: nat, value: nat := start, 0;
    ResumeStart(ReadFrom(buf, start, 0));
    for i := 0 to 10
      invariant i <= 9
      invariant Resume(value, i, ReadFrom(buf, pos, i)) == ReadFrom(buf, start, 0)
    {
      if pos >= |buf| {
        return None;
      }
      var b: nat := buf[pos];
      if i == 9 && b > 1 {
        return None;
      }
      if b < 128 {
        return Some((value + Shifted(b, i), pos + 1));
      }
      ResumeStep(buf, pos, i, value, b - 128);
      pos, value := pos + 1, value + Shifted(b - 128, i);
    }
  }

  /** `sub` stands at position `pos` of `buf`. */
  ghost predicate At(buf: seq<byte>, pos: nat, sub: seq<byte>)
  {
    pos + |sub| <= |buf| && buf[pos..pos + |sub|] == sub
  }

  lemma AtSplit(buf: seq<byte>, pos: nat, a: seq<byte>, b: seq<byte>)
    ensures At(buf, pos, a + b) <==> At(buf, pos, a) && At(buf, pos + |a|, b)
  {
    if At(buf, pos, a + b) {
      assert buf[pos..pos + |a|] == (a + b)[..|a|];
      assert buf[pos + |a|..pos + |a| + |b|] == (a + b)[|a|..];
    }
    if At(buf, pos, a) && At(buf, pos + |a|, b) {
      assert buf[pos..pos + |a + b|] == buf[pos..pos + |a|] + buf[pos + |a|..pos + |a| + |b|];
    }
  }

  /** Reading undoes writing, wherever the encoding stands. */
  lemma {:induction false} ReadsBack(buf: seq<byte>, pos: nat, i: nat, n: nat)
    requires i <= 9 && n < Limit(i)
    requires At(buf, pos, Encode(n))
    ensures ReadFrom(buf, pos, i) == Some((n, pos + |Encode(n)|))
    decreases n
  {
    assert buf[pos] == Encode(n)[0];
    if n >= 128 {
      AtSplit(buf, pos, [n % 128 + 128], Encode(n / 128));
      ReadsBack(buf, pos + 1, i + 1, n / 128);
    }
  }

  /** `Encode` is the shortest text that reads as n; any other is at least as long. */
  lemma {:induction false} EncodeIsShortest(buf: seq<byte>, pos: nat, i: nat)
    requires i <= 9 && ReadFrom(buf, pos, i).Some?
    ensures var (n, after) := ReadFrom(buf, pos, i).value; |Encode(n)| <= after - pos
    decreases 9 - i
  {
    if buf[pos] >= 128 {
      EncodeIsShortest(buf, pos + 1, i + 1);
    }
  }
}
