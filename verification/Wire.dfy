/** Which fields a record may have. */
module Wire {
  import opened Common
  import opened Varint
  import opened Protobuf

  // ---- Fields -------------------------------------------------------------------------------

  /** The value of a field on a fixed wire takes eight bytes on wire 1 and four on wire 5. */
  ghost predicate IsFixed(wire: nat, payload: seq<byte>)
  {
    (wire == 1 && |payload| == 8) || (wire == 5 && |payload| == 4)
  }

  lemma ReadsFixed(buf: seq<byte>, pos: nat, wire: nat, payload: seq<byte>)
    requires IsFixed(wire, payload) && At(buf, pos, payload)
    ensures ReadValue(buf, wire, pos) == Some((Chunk(payload), pos + |payload|))
  {
  }

  lemma SkipsField(buf: seq<byte>, pos: nat, schema: Schema, out: map<nat, Value>, f: Raw)
    requires pos < |buf| && ReadField(buf, pos) == Some(f) && f.number !in schema
    ensures ParseFrom(buf, schema, pos, out) == ParseFrom(buf, schema, f.after, out)
  {
  }

  lemma ReadsFixedField(buf: seq<byte>, pos: nat, number: nat, wire: nat, payload: seq<byte>, mid: nat)
    requires 1 <= number <= 536870911 && IsFixed(wire, payload) && mid == pos + |Tag(number, wire)|
    requires At(buf, pos, Tag(number, wire)) && At(buf, mid, payload)
    ensures pos < |buf| && ReadField(buf, pos) == Some(Raw(number, wire, Chunk(payload), mid + |payload|))
  {
    ReadsFixed(buf, mid, wire, payload);
    ReadsTagged(buf, pos, number, wire, mid, Chunk(payload), mid + |payload|);
  }

  /** An unknown field of fixed width is skipped: the next one starts eight or four bytes after the tag. */
  lemma FixedFieldIsSkipped(buf: seq<byte>, pos: nat, schema: Schema, out: map<nat, Value>, number: nat, wire: nat,
                            payload: seq<byte>, mid: nat)
    requires 1 <= number <= 536870911 && number !in schema && IsFixed(wire, payload)
    requires At(buf, pos, Tag(number, wire)) && mid == pos + |Tag(number, wire)| && At(buf, mid, payload)
    ensures ParseFrom(buf, schema, pos, out) == ParseFrom(buf, schema, mid + |payload|, out)
  {
    ReadsFixedField(buf, pos, number, wire, payload, mid);
    SkipsField(buf, pos, schema, out, Raw(number, wire, Chunk(payload), mid + |payload|));
  }

  lemma TagParts(number: nat, wire: nat)
    requires wire < 8
    ensures (number * 8 + wire) / 8 == number && (number * 8 + wire) % 8 == wire
  {
  }

  lemma BadValue(buf: seq<byte>, pos: nat, schema: Schema, out: map<nat, Value>, number: nat, wire: nat, mid: nat)
    requires wire < 8 && pos < |buf| && mid <= |buf| && ReadFrom(buf, pos, 0) == Some((number * 8 + wire, mid))
    requires ReadValue(buf, wire, mid) == None
    ensures ParseFrom(buf, schema, pos, out) == None
  {
    TagParts(number, wire);
  }

  /** A field makes the buffer malformed if its wire type is none of 0, 1, 2 and 5 or its value is cut off. */
  lemma FieldIsRefused(buf: seq<byte>, pos: nat, schema: Schema, out: map<nat, Value>, number: nat, wire: nat)
    requires 1 <= number <= 536870911 && wire < 8 && At(buf, pos, Tag(number, wire))
    ensures var left := |buf| - pos - |Tag(number, wire)|;
            wire == 3 || wire == 4 || wire >= 6 || (wire == 1 && left < 8) || (wire == 5 && left < 4)
            ==> ParseFrom(buf, schema, pos, out) == None
  {
    var mid := pos + |Tag(number, wire)|;
    ReadsTagBack(buf, pos, number, wire);
    if ReadValue(buf, wire, mid) == None {
      BadValue(buf, pos, schema, out, number, wire, mid);
    }
  }

  /** So does a known field that was there before, or stands on another wire than its kind's. */
  lemma KnownFieldIsRefused(buf: seq<byte>, pos: nat, schema: Schema, out: map<nat, Value>, number: nat, wire: nat)
    requires 1 <= number <= 536870911 && wire < 8 && At(buf, pos, Tag(number, wire)) && number in schema
    requires number in out || wire != if schema[number] == UintKind then 0 else 2
    ensures ParseFrom(buf, schema, pos, out) == None
  {
    ReadsTagBack(buf, pos, number, wire);
    TagParts(number, wire);
  }

  /** No other numbers than 1 to 2 ** 29 - 1 are fields. */
  lemma NumberIsRefused(buf: seq<byte>, pos: nat, schema: Schema, out: map<nat, Value>, number: nat, wire: nat)
    requires (number == 0 || 536870911 < number) && number * 8 + wire < TWO_64 && wire < 8
    requires At(buf, pos, Tag(number, wire))
    ensures ParseFrom(buf, schema, pos, out) == None
  {
    LimitIs64Bits();
    ReadsBack(buf, pos, 0, number * 8 + wire);
    TagParts(number, wire);
  }

  // ---- UTF-8 ----------------------------------------------------------------------------------

  /** A code point that is no surrogate. */
  predicate Scalar(c: nat)
  {
    c < 0xD800 || 0xE000 <= c < 0x11_0000
  }

  /** The UTF-8 form of one code point (section 3 of RFC 3629). */
  function Utf8One(c: nat): seq<byte>
    requires Scalar(c)
  {
    if c < 0x80 then [c]
    else if c < 0x800 then [0xC0 + c / 64, 0x80 + c % 64]
    else if c < 0x1_0000 then [0xE0 + c / 4096, 0x80 + c / 64 % 64, 0x80 + c % 64]
    else [0xF0 + c / 262144, 0x80 + c / 4096 % 64, 0x80 + c / 64 % 64, 0x80 + c % 64]
  }

  ghost predicate Scalars(s: seq<nat>)
  {
    forall i :: 0 <= i < |s| ==> Scalar(s[i])
  }

  function Utf8(s: seq<nat>): seq<byte>
    requires Scalars(s)
  {
    if s == [] then [] else Utf8One(s[0]) + Utf8(s[1..])
  }

  lemma TwoIsRead(b: seq<byte>, x: nat, y: nat)
    requires |b| >= 2 && b[0] == 0xC0 + x && b[1] == 0x80 + y && 2 <= x < 32 && y < 64
    ensures CharLength(b) == 2
  {
  }

  lemma ThreeIsRead(b: seq<byte>, x: nat, y: nat, z: nat)
    requires |b| >= 3 && b[0] == 0xE0 + x && b[1] == 0x80 + y && b[2] == 0x80 + z && x < 16 && y < 64 && z < 64
    requires (x == 0 ==> y >= 32) && (x == 13 ==> y < 32)
    ensures CharLength(b) == 3
  {
  }

  lemma FourIsRead(b: seq<byte>, x: nat, y: nat, z: nat, u: nat)
    requires |b| >= 4 && b[0] == 0xF0 + x && b[1] == 0x80 + y && b[2] == 0x80 + z && b[3] == 0x80 + u
    requires x < 5 && y < 64 && z < 64 && u < 64 && (x == 0 ==> y >= 16) && (x == 4 ==> y < 16)
    ensures CharLength(b) == 4
  {
  }

  lemma ThreeParts(c: nat)
    requires 0x800 <= c < 0x1_0000 && Scalar(c)
    ensures var x, y := c / 4096, c / 64 % 64; x < 16 && y < 64 && (x == 0 ==> y >= 32) && (x == 13 ==> y < 32)
  {
    assert c / 64 == 64 * (c / 4096) + c / 64 % 64;
  }

  lemma FourParts(c: nat)
    requires 0x1_0000 <= c < 0x11_0000
    ensures var x, y := c / 262144, c / 4096 % 64; x < 5 && y < 64 && (x == 0 ==> y >= 16) && (x == 4 ==> y < 16)
  {
    assert c / 4096 == 64 * (c / 262144) + c / 4096 % 64;
  }

  lemma CharIsRead(c: nat, r: seq<byte>)
    requires Scalar(c)
    ensures CharLength(Utf8One(c) + r) == |Utf8One(c)|
  {
    var one, b := Utf8One(c), Utf8One(c) + r;
    assert forall k :: 0 <= k < |one| ==> b[k] == one[k];
    if c >= 0x1_0000 {
      FourParts(c);
      FourIsRead(b, c / 262144, c / 4096 % 64, c / 64 % 64, c % 64);
    } else if c >= 0x800 {
      ThreeParts(c);
      ThreeIsRead(b, c / 4096, c / 64 % 64, c % 64);
    } else if c >= 0x80 {
      TwoIsRead(b, c / 64, c % 64);
    }
  }

  lemma TwoBytes(a: nat, b: nat)
    requires 2 <= a < 32 && b < 64
    ensures Scalar(64 * a + b) && Utf8One(64 * a + b) == [0xC0 + a, 0x80 + b]
  {
  }

  lemma ThreeBytes(a: nat, b: nat, c: nat)
    requires a < 16 && b < 64 && c < 64 && (a == 0 ==> b >= 32) && (a == 13 ==> b < 32)
    ensures Scalar(4096 * a + 64 * b + c)
    ensures Utf8One(4096 * a + 64 * b + c) == [0xE0 + a, 0x80 + b, 0x80 + c]
  {
    var n := 4096 * a + 64 * b + c;
    assert n / 64 == 64 * a + b && n % 64 == c && n / 4096 == a;
  }

  lemma FourBytes(a: nat, b: nat, c: nat, d: nat)
    requires a < 5 && b < 64 && c < 64 && d < 64 && (a == 0 ==> b >= 16) && (a == 4 ==> b < 16)
    ensures Scalar(262144 * a + 4096 * b + 64 * c + d)
    ensures Utf8One(262144 * a + 4096 * b + 64 * c + d) == [0xF0 + a, 0x80 + b, 0x80 + c, 0x80 + d]
  {
    FourDigits(a, b, c, d, 262144 * a + 4096 * b + 64 * c + d);
  }

  lemma FourDigits(a: nat, b: nat, c: nat, d: nat, n: nat)
    requires b < 64 && c < 64 && d < 64 && n == 262144 * a + 4096 * b + 64 * c + d
    ensures n % 64 == d && n / 64 % 64 == c && n / 4096 % 64 == b && n / 262144 == a
  {
    assert n / 64 == 4096 * a + 64 * b + c;
    assert n / 4096 == 64 * a + b;
  }

  /** What counts as one character is the form of a code point. */
  lemma CharIsScalar(b: seq<byte>) returns (c: nat)
    requires CharLength(b) > 0
    ensures Scalar(c) && Utf8One(c) == b[..CharLength(b)]
  {
    var n, x: int := CharLength(b), b[0];
    if n == 1 {
      c := x;
    } else if n == 2 {
      var y: int := b[1];
      c := 64 * (x - 0xC0) + (y - 0x80);
      TwoBytes(x - 0xC0, y - 0x80);
    } else if n == 3 {
      var y: int, z: int := b[1], b[2];
      c := 4096 * (x - 0xE0) + 64 * (y - 0x80) + (z - 0x80);
      ThreeBytes(x - 0xE0, y - 0x80, z - 0x80);
    } else {
      var y: int, z: int, u: int := b[1], b[2], b[3];
      c := 262144 * (x - 0xF0) + 4096 * (y - 0x80) + 64 * (z - 0x80) + (u - 0x80);
      FourBytes(x - 0xF0, y - 0x80, z - 0x80, u - 0x80);
    }
  }

  lemma {:induction false} EncodedIsUtf8(s: seq<nat>)
    requires Scalars(s)
    ensures IsUtf8(Utf8(s))
  {
    if s != [] {
      CharIsRead(s[0], Utf8(s[1..]));
      EncodedIsUtf8(s[1..]);
      assert Utf8(s)[|Utf8One(s[0])|..] == Utf8(s[1..]);
    }
  }

  lemma Utf8Cons(c: nat, rest: seq<nat>)
    requires Scalar(c) && Scalars(rest)
    ensures Scalars([c] + rest) && Utf8([c] + rest) == Utf8One(c) + Utf8(rest)
  {
    assert ([c] + rest)[1..] == rest;
  }

  lemma {:induction false} Utf8IsEncoded(b: seq<byte>) returns (s: seq<nat>)
    requires IsUtf8(b)
    ensures Scalars(s) && Utf8(s) == b
    decreases |b|
  {
    s := [];
    if b != [] {
      var n := CharLength(b);
      var c := CharIsScalar(b);
      var rest := Utf8IsEncoded(b[n..]);
      PrefixUtf8(b, n, c, rest);
      s := [c] + rest;
    }
  }

  lemma PrefixUtf8(b: seq<byte>, n: nat, c: nat, rest: seq<nat>)
    requires n <= |b| && Scalar(c) && Scalars(rest) && Utf8One(c) == b[..n] && Utf8(rest) == b[n..]
    ensures Scalars([c] + rest) && Utf8([c] + rest) == b
  {
    Utf8Cons(c, rest);
    assert b == b[..n] + b[n..];
  }

  /** A text field is taken exactly if it is the UTF-8 of some code points without surrogates. */
  lemma Utf8ExactlyIfEncoded(b: seq<byte>)
    ensures IsUtf8(b) <==> exists s :: Scalars(s) && Utf8(s) == b
  {
    if IsUtf8(b) {
      var s := Utf8IsEncoded(b);
      assert Scalars(s) && Utf8(s) == b;
    }
    if s :| Scalars(s) && Utf8(s) == b {
      EncodedIsUtf8(s);
    }
  }
}
