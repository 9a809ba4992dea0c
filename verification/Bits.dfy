/**
 * 32-bit words as bit sets: reading and setting single bits, and the parallel bit count of
 * genes/evolve-life-bitwise with its masks.
 */
module Bits {

  /** `(v >>> i) & 1`. */
  function Bit(v: bv32, i: nat): bv32
    requires i < 32
  {
    (v >> (i as bv5)) & 1
  }

  function Mask(i: nat): bv32
    requires i < 32
  {
    (1 as bv32) << (i as bv5)
  }

  function BitInt(v: bv32, i: nat): (r: int)
    requires i < 32
    ensures r == 0 || r == 1
  {
    if Bit(v, i) == 1 then 1 else 0
  }

  lemma SetBitAt(v: bv32, i: bv5, j: bv5)
    ensures ((v | ((1 as bv32) << i)) >> j) & 1 == if i == j then 1 else (v >> j) & 1
  {
  }

  lemma SameIndex(i: nat, j: nat)
    requires i < 32 && j < 32
    ensures i as bv5 == j as bv5 <==> i == j
  {
  }

  /** `v |= 1 << i` sets bit i and leaves the others. */
  lemma SetBit(v: bv32, i: nat, j: nat)
    requires i < 32 && j < 32
    ensures Bit(v | Mask(i), j) == if i == j then 1 else Bit(v, j)
  {
    SetBitAt(v, i as bv5, j as bv5);
    SameIndex(i, j);
  }

  lemma ZeroHasNoBits(i: nat)
    requires i < 32
    ensures Bit(0, i) == 0
  {
    ZeroShift(i as bv5);
  }

  lemma ZeroShift(i: bv5)
    ensures ((0 as bv32) >> i) & 1 == 0
  {
  }

  lemma BitIsZeroOrOne(v: bv32, i: bv5)
    ensures (v >> i) & 1 == 0 || (v >> i) & 1 == 1
  {
  }

  lemma SameBits(u: bv32, v: bv32)
    requires forall i: nat :: i < 32 ==> Bit(u, i) == Bit(v, i)
    ensures u == v
  {
    assert Bit(u, 0) == Bit(v, 0) && Bit(u, 1) == Bit(v, 1) && Bit(u, 2) == Bit(v, 2) && Bit(u, 3) == Bit(v, 3);
    assert Bit(u, 4) == Bit(v, 4) && Bit(u, 5) == Bit(v, 5) && Bit(u, 6) == Bit(v, 6) && Bit(u, 7) == Bit(v, 7);
    assert Bit(u, 8) == Bit(v, 8) && Bit(u, 9) == Bit(v, 9) && Bit(u, 10) == Bit(v, 10) && Bit(u, 11) == Bit(v, 11);
    assert Bit(u, 12) == Bit(v, 12) && Bit(u, 13) == Bit(v, 13) && Bit(u, 14) == Bit(v, 14) && Bit(u, 15) == Bit(v, 15);
    assert Bit(u, 16) == Bit(v, 16) && Bit(u, 17) == Bit(v, 17) && Bit(u, 18) == Bit(v, 18) && Bit(u, 19) == Bit(v, 19);
    assert Bit(u, 20) == Bit(v, 20) && Bit(u, 21) == Bit(v, 21) && Bit(u, 22) == Bit(v, 22) && Bit(u, 23) == Bit(v, 23);
    assert Bit(u, 24) == Bit(v, 24) && Bit(u, 25) == Bit(v, 25) && Bit(u, 26) == Bit(v, 26) && Bit(u, 27) == Bit(v, 27);
    assert Bit(u, 28) == Bit(v, 28) && Bit(u, 29) == Bit(v, 29) && Bit(u, 30) == Bit(v, 30) && Bit(u, 31) == Bit(v, 31);
  }

  /** The word with these n lowest bits and no others. */
  function FromBits(bit: nat -> bool, n: nat): bv32
    requires n <= 32
  {
    if n == 0 then 0
    else if bit(n - 1) then FromBits(bit, n - 1) | Mask(n - 1)
    else FromBits(bit, n - 1)
  }

  /** The n lowest bits of v are these, and the others are zero. */
  ghost predicate HasBits(v: bv32, bit: nat -> bool, n: nat)
  {
    forall i: nat :: i < 32 ==> BitInt(v, i) == if i < n && bit(i) then 1 else 0
  }

  lemma SetBitInt(v: bv32, i: nat, j: nat)
    requires i < 32 && j < 32
    ensures BitInt(v | Mask(i), j) == if i == j then 1 else BitInt(v, j)
  {
    SetBit(v, i, j);
  }

  lemma AddBit(v: bv32, bit: nat -> bool, n: nat)
    requires n < 32 && HasBits(v, bit, n) && bit(n)
    ensures HasBits(v | Mask(n), bit, n + 1)
  {
    forall i: nat | i < 32 ensures BitInt(v | Mask(n), i) == if i < n + 1 && bit(i) then 1 else 0 {
      SetBitInt(v, n, i);
    }
  }

  lemma AddNone(v: bv32, bit: nat -> bool, n: nat)
    requires n < 32 && HasBits(v, bit, n) && !bit(n)
    ensures HasBits(v, bit, n + 1)
  {
  }

  lemma {:induction false} FromBitsHas(bit: nat -> bool, n: nat)
    requires n <= 32
    ensures HasBits(FromBits(bit, n), bit, n)
  {
    if n == 0 {
      forall i: nat | i < 32 ensures BitInt(0, i) == 0 {
        ZeroHasNoBits(i);
      }
    } else {
      FromBitsHas(bit, n - 1);
      if bit(n - 1) {
        AddBit(FromBits(bit, n - 1), bit, n - 1);
      } else {
        AddNone(FromBits(bit, n - 1), bit, n - 1);
      }
    }
  }

  /** A word is what its bits are. */
  lemma OnlyWord(bit: nat -> bool, v: bv32)
    requires HasBits(v, bit, 32)
    ensures v == FromBits(bit, 32)
  {
    FromBitsHas(bit, 32);
    var u := FromBits(bit, 32);
    forall i: nat | i < 32 ensures Bit(v, i) == Bit(u, i) {
      SameBit(v, u, i);
    }
    SameBits(v, u);
  }

  lemma SameBit(u: bv32, v: bv32, i: nat)
    requires i < 32 && BitInt(u, i) == BitInt(v, i)
    ensures Bit(u, i) == Bit(v, i)
  {
    BitIsZeroOrOne(u, i as bv5);
    BitIsZeroOrOne(v, i as bv5);
  }

  /** Number of bits set among the n lowest. */
  function CountBits(v: bv32, n: nat): (c: int)
    requires n <= 32
    ensures 0 <= c <= n
  {
    if n == 0 then 0 else CountBits(v, n - 1) + BitInt(v, n - 1)
  }

  // ---- The four stages of popcount32 --------------------------------------------

  function Pairs(v: bv32): bv32 { v - ((v >> 1) & 0x55555555) }

  function Nibbles(a: bv32): bv32 { (a & 0x33333333) + ((a >> 2) & 0x33333333) }

  function Bytes(b: bv32): bv32 { (b + (b >> 4)) & 0x0f0f0f0f }

  /** `popcount32`; the last line multiplies as a number, and `>>> 24` takes it modulo 2^32. */
  function Popcount(v: bv32): int
  {
    Bytes(Nibbles(Pairs(v))) as int * 0x01010101 % 0x1_0000_0000 / 0x100_0000
  }

  /** Taking a pair's high bit from it leaves the sum of both: no pair borrows from the next. */
  lemma PairsAdd(v: bv32)
    ensures Pairs(v) == (v & 0x55555555) + ((v >> 1) & 0x55555555)
  {
  }

  lemma PairSum(v: bv32, i: bv5)
    requires i & 1 == 0
    ensures (((v & 0x55555555) + ((v >> 1) & 0x55555555)) >> i) & 3 == ((v >> i) & 1) + ((v >> (i + 1)) & 1)
  {
  }

  lemma PairOf(v: bv32, i: bv5)
    requires i & 1 == 0
    ensures (Pairs(v) >> i) & 3 == ((v >> i) & 1) + ((v >> (i + 1)) & 1)
  {
    PairsAdd(v);
    PairSum(v, i);
  }

  lemma NibbleOf(a: bv32, i: bv5)
    requires i & 3 == 0
    ensures (Nibbles(a) >> i) & 15 == ((a >> i) & 3) + ((a >> (i + 2)) & 3)
  {
  }

  /** No nibble of b is above 4, so adding neighbouring nibbles carries nothing over. */
  predicate SmallNibbles(b: bv32)
  {
    && b & 15 <= 4 && (b >> 4) & 15 <= 4 && (b >> 8) & 15 <= 4 && (b >> 12) & 15 <= 4
    && (b >> 16) & 15 <= 4 && (b >> 20) & 15 <= 4 && (b >> 24) & 15 <= 4 && (b >> 28) & 15 <= 4
  }

  /** No pair of a is 3. */
  predicate SmallPairs(a: bv32)
  {
    a & (a >> 1) & 0x55555555 == 0
  }

  lemma PairsAreSmall(v: bv32)
    ensures SmallPairs((v & 0x55555555) + ((v >> 1) & 0x55555555))
  {
  }

  lemma NibblesAreSmall(a: bv32)
    requires SmallPairs(a)
    ensures SmallNibbles(Nibbles(a))
  {
  }

  lemma SmallStages(v: bv32)
    ensures SmallNibbles(Nibbles(Pairs(v)))
  {
    PairsAdd(v);
    PairsAreSmall(v);
    NibblesAreSmall(Pairs(v));
  }

  lemma BytesOf(b: bv32)
    requires SmallNibbles(b)
    ensures var c := Bytes(b);
            && c & 0xf0f0f0f0 == 0
            && c & 15 == (b & 15) + ((b >> 4) & 15)
            && (c >> 8) & 15 == ((b >> 8) & 15) + ((b >> 12) & 15)
            && (c >> 16) & 15 == ((b >> 16) & 15) + ((b >> 20) & 15)
            && (c >> 24) & 15 == ((b >> 24) & 15) + ((b >> 28) & 15)
  {
  }

  lemma AddSmall(x: bv32, y: bv32)
    requires x <= 4 && y <= 4
    ensures (x + y) as int == x as int + y as int
  {
  }

  /** The nibble that starts at bit i. */
  function Nibble(b: bv32, i: nat): bv32
    requires i < 32
  {
    (b >> (i as bv5)) & 15
  }

  function NibbleInt(b: bv32, i: nat): int
    requires i < 32
  {
    Nibble(b, i) as int
  }

  /** The count of the four bits from i on, in their nibble. */
  lemma NibbleCount(v: bv32, i: nat)
    requires i <= 28 && i % 4 == 0
    ensures 0 <= NibbleInt(Nibbles(Pairs(v)), i) <= 4
    ensures NibbleInt(Nibbles(Pairs(v)), i) == BitInt(v, i) + BitInt(v, i + 1) + BitInt(v, i + 2) + BitInt(v, i + 3)
  {
    var k := i as bv5;
    MultipleOfFour(i);
    var b0, b1, b2, b3 := (v >> k) & 1, (v >> (k + 1)) & 1, (v >> (k + 2)) & 1, (v >> (k + 3)) & 1;
    EvenIndex(k);
    PairOf(v, k);
    PairOf(v, k + 2);
    NibbleOf(Pairs(v), k);
    SumOfFour(b0, b1, b2, b3);
    BitIsZeroOrOne(v, k);
    BitIsZeroOrOne(v, k + 1);
    BitIsZeroOrOne(v, k + 2);
    BitIsZeroOrOne(v, k + 3);
  }

  lemma EvenIndex(k: bv5)
    requires k & 3 == 0
    ensures k & 1 == 0 && (k + 2) & 1 == 0 && k + 2 + 1 == k + 3
  {
  }

  lemma SumOfFour(a: bv32, b: bv32, c: bv32, d: bv32)
    requires a <= 1 && b <= 1 && c <= 1 && d <= 1
    ensures (a + b) + (c + d) <= 4
    ensures ((a + b) + (c + d)) as int
         == (if a == 1 then 1 else 0) + (if b == 1 then 1 else 0)
          + (if c == 1 then 1 else 0) + (if d == 1 then 1 else 0)
  {
  }

  lemma EightNibbles(b: bv32)
    ensures Nibble(b, 0) == b & 15 && Nibble(b, 4) == (b >> 4) & 15
    ensures Nibble(b, 8) == (b >> 8) & 15 && Nibble(b, 12) == (b >> 12) & 15
    ensures Nibble(b, 16) == (b >> 16) & 15 && Nibble(b, 20) == (b >> 20) & 15
    ensures Nibble(b, 24) == (b >> 24) & 15 && Nibble(b, 28) == (b >> 28) & 15
  {
  }

  lemma FourMore(v: bv32, i: nat)
    requires i <= 28
    ensures CountBits(v, i + 4) - CountBits(v, i)
         == BitInt(v, i) + BitInt(v, i + 1) + BitInt(v, i + 2) + BitInt(v, i + 3)
  {
    assert CountBits(v, i + 2) == CountBits(v, i) + BitInt(v, i) + BitInt(v, i + 1);
    assert CountBits(v, i + 4) == CountBits(v, i + 2) + BitInt(v, i + 2) + BitInt(v, i + 3);
  }

  lemma MultipleOfFour(i: nat)
    requires i <= 28 && i % 4 == 0
    ensures (i as bv5) & 3 == 0 && (i + 1) as bv5 == i as bv5 + 1
    ensures (i + 2) as bv5 == i as bv5 + 2 && (i + 3) as bv5 == i as bv5 + 3
  {
    if i == 0 {} else if i == 4 {} else if i == 8 {} else if i == 12 {}
    else if i == 16 {} else if i == 20 {} else if i == 24 {}
  }

  lemma ByteSum(b: bv32)
    requires SmallNibbles(b)
    ensures (Bytes(b) & 15) as int == NibbleInt(b, 0) + NibbleInt(b, 4)
    ensures ((Bytes(b) >> 8) & 15) as int == NibbleInt(b, 8) + NibbleInt(b, 12)
    ensures ((Bytes(b) >> 16) & 15) as int == NibbleInt(b, 16) + NibbleInt(b, 20)
    ensures ((Bytes(b) >> 24) & 15) as int == NibbleInt(b, 24) + NibbleInt(b, 28)
  {
    BytesOf(b);
    EightNibbles(b);
    AddSmall(b & 15, (b >> 4) & 15);
    AddSmall((b >> 8) & 15, (b >> 12) & 15);
    AddSmall((b >> 16) & 15, (b >> 20) & 15);
    AddSmall((b >> 24) & 15, (b >> 28) & 15);
  }

  lemma Decompose(c: bv32)
    requires c & 0xf0f0f0f0 == 0
    ensures c as int == (c & 15) as int + 256 * ((c >> 8) & 15) as int
                        + 65536 * ((c >> 16) & 15) as int + 16777216 * ((c >> 24) & 15) as int
  {
  }

  /** The product before the last shift is exact in a double: it stays below 2^53. */
  lemma ProductIsExact(v: bv32)
    ensures Bytes(v) as int * 0x01010101 < 0x20_0000_0000_0000
  {
  }

  lemma DropHigh(low: nat, high: nat)
    requires low < 0x1_0000_0000
    ensures (low + 0x1_0000_0000 * high) % 0x1_0000_0000 == low
  {
  }

  /** Multiplying by 0x01010101 collects the four bytes in the top one. */
  lemma TopByte(a: nat, b: nat, c: nat, d: nat)
    requires a <= 8 && b <= 8 && c <= 8 && d <= 8
    ensures (a + 256 * b + 65536 * c + 16777216 * d) * 0x01010101 % 0x1_0000_0000 / 0x100_0000 == a + b + c + d
  {
    var rest := a + 256 * (a + b) + 65536 * (a + b + c);
    var low := rest + 0x100_0000 * (a + b + c + d);
    var high := b + c + d + 256 * (c + d) + 65536 * d;
    assert (a + 256 * b + 65536 * c + 16777216 * d) * 0x01010101 == low + 0x1_0000_0000 * high;
    DropHigh(low, high);
    assert rest < 0x100_0000;
  }

  lemma LastStage(word: int, n: seq<int>)
    requires |n| == 8 && forall k :: 0 <= k < 8 ==> 0 <= n[k] <= 4
    requires word == n[0] + n[1] + 256 * (n[2] + n[3]) + 65536 * (n[4] + n[5]) + 16777216 * (n[6] + n[7])
    ensures word * 0x01010101 % 0x1_0000_0000 / 0x100_0000
         == n[0] + n[1] + n[2] + n[3] + n[4] + n[5] + n[6] + n[7]
  {
    TopByte(n[0] + n[1], n[2] + n[3], n[4] + n[5], n[6] + n[7]);
  }

  /** The numbers in the eight nibbles. */
  function NibbleNumbers(v: bv32): (n: seq<int>)
    ensures |n| == 8 && forall k :: 0 <= k < 8 ==> n[k] == CountBits(v, 4 * k + 4) - CountBits(v, 4 * k)
  {
    seq(8, k requires 0 <= k < 8 => CountBits(v, 4 * k + 4) - CountBits(v, 4 * k))
  }

  lemma NibbleNumber(v: bv32, i: nat)
    requires i <= 28 && i % 4 == 0
    ensures 0 <= NibbleInt(Nibbles(Pairs(v)), i) <= 4
    ensures NibbleInt(Nibbles(Pairs(v)), i) == CountBits(v, i + 4) - CountBits(v, i)
  {
    FourMore(v, i);
    NibbleCount(v, i);
  }

  lemma NibbleNumberOf(v: bv32, k: nat, i: nat)
    requires k < 8 && i == 4 * k
    ensures 0 <= NibbleNumbers(v)[k] <= 4 && NibbleNumbers(v)[k] == NibbleInt(Nibbles(Pairs(v)), i)
  {
    NibbleNumber(v, i);
  }

  lemma WordOfBytes(c: bv32, n: seq<int>)
    requires |n| == 8 && c & 0xf0f0f0f0 == 0
    requires (c & 15) as int == n[0] + n[1] && ((c >> 8) & 15) as int == n[2] + n[3]
    requires ((c >> 16) & 15) as int == n[4] + n[5] && ((c >> 24) & 15) as int == n[6] + n[7]
    ensures c as int == n[0] + n[1] + 256 * (n[2] + n[3]) + 65536 * (n[4] + n[5]) + 16777216 * (n[6] + n[7])
  {
    Decompose(c);
  }

  lemma HighHalvesAreEmpty(b: bv32)
    ensures Bytes(b) & 0xf0f0f0f0 == 0
  {
  }

  lemma WordNumber(b: bv32, n: seq<int>)
    requires SmallNibbles(b) && |n| == 8
    requires n[0] == NibbleInt(b, 0) && n[1] == NibbleInt(b, 4) && n[2] == NibbleInt(b, 8) && n[3] == NibbleInt(b, 12)
    requires n[4] == NibbleInt(b, 16) && n[5] == NibbleInt(b, 20) && n[6] == NibbleInt(b, 24)
    requires n[7] == NibbleInt(b, 28)
    ensures Bytes(b) as int == n[0] + n[1] + 256 * (n[2] + n[3]) + 65536 * (n[4] + n[5]) + 16777216 * (n[6] + n[7])
  {
    HighHalvesAreEmpty(b);
    ByteSum(b);
    WordOfBytes(Bytes(b), n);
  }

  lemma SumOfNibbles(v: bv32, n: seq<int>)
    requires |n| == 8 && forall k :: 0 <= k < 8 ==> n[k] == CountBits(v, 4 * k + 4) - CountBits(v, 4 * k)
    ensures n[0] + n[1] + n[2] + n[3] + n[4] + n[5] + n[6] + n[7] == CountBits(v, 32)
  {
    assert n[0] == CountBits(v, 4) - CountBits(v, 0);
  }

  lemma NibbleList(b: bv32, n: seq<int>)
    requires |n| == 8 && forall k :: 0 <= k < 8 ==> n[k] == NibbleInt(b, 4 * k)
    ensures n[0] == NibbleInt(b, 0) && n[1] == NibbleInt(b, 4) && n[2] == NibbleInt(b, 8) && n[3] == NibbleInt(b, 12)
    ensures n[4] == NibbleInt(b, 16) && n[5] == NibbleInt(b, 20) && n[6] == NibbleInt(b, 24) && n[7] == NibbleInt(b, 28)
  {
    assert n[0] == NibbleInt(b, 4 * 0) && n[1] == NibbleInt(b, 4 * 1);
    assert n[2] == NibbleInt(b, 4 * 2) && n[3] == NibbleInt(b, 4 * 3);
    assert n[4] == NibbleInt(b, 4 * 4) && n[5] == NibbleInt(b, 4 * 5);
    assert n[6] == NibbleInt(b, 4 * 6) && n[7] == NibbleInt(b, 4 * 7);
  }

  lemma WordOfNibbles(b: bv32, n: seq<int>)
    requires SmallNibbles(b) && |n| == 8 && forall k :: 0 <= k < 8 ==> n[k] == NibbleInt(b, 4 * k)
    ensures Bytes(b) as int == n[0] + n[1] + 256 * (n[2] + n[3]) + 65536 * (n[4] + n[5]) + 16777216 * (n[6] + n[7])
  {
    NibbleList(b, n);
    WordNumber(b, n);
  }

  lemma NibbleNumbersAre(v: bv32, b: bv32, n: seq<int>)
    requires b == Nibbles(Pairs(v)) && n == NibbleNumbers(v)
    ensures forall k :: 0 <= k < 8 ==> 0 <= n[k] <= 4 && n[k] == NibbleInt(b, 4 * k)
  {
    forall k | 0 <= k < 8 ensures 0 <= n[k] <= 4 && n[k] == NibbleInt(b, 4 * k) {
      NibbleNumberOf(v, k, 4 * k);
    }
  }

  /** The parallel count is the number of bits set. */
  lemma PopcountCounts(v: bv32)
    ensures Popcount(v) == CountBits(v, 32)
  {
    var n := NibbleNumbers(v);
    SmallStages(v);
    NibbleNumbersAre(v, Nibbles(Pairs(v)), n);
    WordOfNibbles(Nibbles(Pairs(v)), n);
    LastStage(Bytes(Nibbles(Pairs(v))) as int, n);
    SumOfNibbles(v, n);
  }
}
