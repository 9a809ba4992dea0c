/**
 * The frozen field grammar of the DHT gene record: a reader that skips unknown fields, and a writer
 * of shortest forms.
 */
module Protobuf {
  import opened Common
  import opened Varint

  datatype Kind = BytesKind | Utf8Kind | UintKind

  type Schema = map<nat, Kind>

  datatype Value = Number(n: nat) | Chunk(bytes: seq<byte>)

  /** One field as it stands in a buffer: its wire type, and where the next one starts. */
  datatype Raw = Raw(number: nat, wire: nat, value: Value, after: nat)

  const MAX_FIELD_NUMBER: nat := 0x1fff_ffff

  // ---- Strict UTF-8 -------------------------------------------------------------

  predicate Continuation(b: byte) { 0x80 <= b < 0xC0 }

  /** Length of the well-formed UTF-8 character that starts b, or 0. */
  function CharLength(b: seq<byte>): (n: nat)
    ensures n <= |b|
  {
    if b == [] then 0
    else if b[0] < 0x80 then 1
    else if |b| < 2 || !Continuation(b[1]) then 0
    else if 0xC2 <= b[0] < 0xE0 then 2
    else if |b| < 3 || !Continuation(b[2]) then 0
    else if 0xE0 <= b[0] < 0xF0 then
      if (b[0] == 0xE0 && b[1] < 0xA0) || (b[0] == 0xED && b[1] >= 0xA0) then 0 else 3
    else if |b| < 4 || !Continuation(b[3]) then 0
    else if 0xF0 <= b[0] < 0xF5 then
      if (b[0] == 0xF0 && b[1] < 0x90) || (b[0] == 0xF4 && b[1] >= 0x90) then 0 else 4
    else 0
  }

  predicate IsUtf8(b: seq<byte>)
  {
    b == [] || (CharLength(b) > 0 && IsUtf8(b[CharLength(b)..]))
  }

  predicate IsAscii(b: seq<byte>)
  {
    forall i :: 0 <= i < |b| ==> b[i] < 0x80
  }

  lemma {:induction false} AsciiIsUtf8(b: seq<byte>)
    requires IsAscii(b)
    ensures IsUtf8(b)
  {
    if b != [] {
      AsciiIsUtf8(b[1..]);
    }
  }

  // ---- The reader ---------------------------------------------------------------

  /** The value of a field of wire type `wire` at `pos`, and the position after it. */
  function ReadValue(buf: seq<byte>, wire: nat, pos: nat): (r: Option<(Value, nat)>)
    requires pos <= |buf|
    ensures r.Some? ==> pos <= r.value.1 <= |buf|
  {
    if wire == 0 then
      match ReadFrom(buf, pos, 0)
      case None => None
      case Some(v) => Some((Number(v.0), v.1))
    else if wire == 1 || wire == 5 then
      var n := if wire == 1 then 8 else 4;
      if pos + n > |buf| then None else Some((Chunk(buf[pos..pos + n]), pos + n))
    else if wire == 2 then
      match ReadFrom(buf, pos, 0)
      case None => None
      case Some(n) => if n.1 + n.0 > |buf| then None else Some((Chunk(buf[n.1..n.1 + n.0]), n.1 + n.0))
    else None
  }

  function ReadField(buf: seq<byte>, pos: nat): (r: Option<Raw>)
    requires pos < |buf|
    ensures r.Some? ==> pos < r.value.after <= |buf|
  {
    match ReadFrom(buf, pos, 0)
    case None => None
    case Some(k) =>
      if !(1 <= k.0 / 8 <= MAX_FIELD_NUMBER) then None
      else
        match ReadValue(buf, k.0 % 8, k.1)
        case None => None
        case Some(v) => Some(Raw(k.0 / 8, k.0 % 8, v.0, v.1))
  }

  /** Whether a known field has the wire type and text its kind asks for. */
  predicate Fits(kind: Kind, wire: nat, value: Value)
  {
    match kind
    case UintKind => wire == 0
    case BytesKind => wire == 2
    case Utf8Kind => wire == 2 && (value.Chunk? ==> IsUtf8(value.bytes))
  }

  /** `out` after one more field; unknown fields are skipped, a repeated one is malformed. */
  function Admit(schema: Schema, out: map<nat, Value>, f: Raw): Option<map<nat, Value>>
  {
    if f.number !in schema then Some(out)
    else if f.number in out || !Fits(schema[f.number], f.wire, f.value) then None
    else Some(out[f.number := f.value])
  }

  function ParseFrom(buf: seq<byte>, schema: Schema, pos: nat, out: map<nat, Value>): Option<map<nat, Value>>
    requires pos <= |buf|
    decreases |buf| - pos
  {
    if pos == |buf| then Some(out)
    else
      match ReadField(buf, pos)
      case None => None
      case Some(f) =>
        match Admit(schema, out, f)
        case None => None
        case Some(more) => ParseFrom(buf, schema, f.after, more)
  }

  /** `parse_fields`; None is the source's Malformed. */
  function Parse(buf: seq<byte>, schema: Schema): Option<map<nat, Value>>
  {
    ParseFrom(buf, schema, 0, map[])
  }

  /** The value part of the loop body of `parse_fields`. */
  method NextValue(buf: seq<byte>, wire: nat, pos: nat) returns (r: Option<(Value, nat)>)
    requires pos <= |buf|
    ensures r == ReadValue(buf, wire, pos)
  {
    if wire == 0 {
      var v := Read(buf, pos);
      return if v.None? then None else Some((Number(v.value.0), v.value.1));
    }
    var n, at := if wire == 1 then 8 else 4, pos;
    if wire == 2 {
      var v := Read(buf, pos);
      if v.None? {
        return None;
      }
      n, at := v.value.0, v.value.1;
    } else if wire != 1 && wire != 5 {
      return None;
    }
    if at + n > |buf| {
      return None;
    }
    r := Some((Chunk(buf[at..at + n]), at + n));
  }

  /** The tag and value at the head of the loop body of `parse_fields`. */
  method NextField(buf: seq<byte>, pos: nat) returns (r: Option<Raw>)
    requires pos < |buf|
    ensures r == ReadField(buf, pos)
  {
    var k := Read(buf, pos);
    if k.None? {
      return None;
    }
    var number, wire := k.value.0 / 8, k.value.0 % 8;
    if !(1 <= number <= MAX_FIELD_NUMBER) {
      return None;
    }
    var v := NextValue(buf, wire, k.value.1);
    if v.None? {
      return None;
    }
    r := Some(Raw(number, wire, v.value.0, v.value.1));
  }

  method ParseFields(buf: seq<byte>, schema: Schema) returns (r: Option<map<nat, Value>>)
    ensures r == Parse(buf, schema)
  {
    var out: map<nat, Value>, pos: nat := map[], 0;
    while pos < |buf|
      invariant pos <= |buf|
      invariant ParseFrom(buf, schema, pos, out) == Parse(buf, schema)
      decreases |buf| - pos
    {
      var f := NextField(buf, pos);
      if f.None? {
        return None;
      }
      var field := f.value;
      pos := field.after;
      if field.number !in schema {
        continue;
      }
      if field.number in out || !Fits(schema[field.number], field.wire, field.value) {
        return None;
      }
      out := out[field.number := field.value];
    }
    r := Some(out);
  }

  // ---- The writer ---------------------------------------------------------------

  function Tag(number: nat, wire: nat): seq<byte>
  {
    Encode(number * 8 + wire)
  }

  /** `ld`: a length-delimited field. */
  function Delimited(number: nat, payload: seq<byte>): seq<byte>
  {
    Tag(number, 2) + Encode(|payload|) + payload
  }

  function EmitOne(number: nat, value: Value): seq<byte>
  {
    match value
    case Number(n) => Tag(number, 0) + Encode(n)
    case Chunk(b) => Delimited(number, b)
  }

  /** Fields written one after the other, each in its shortest form. */
  function Emit(fields: seq<(nat, Value)>): seq<byte>
  {
    if fields == [] then [] else EmitOne(fields[0].0, fields[0].1) + Emit(fields[1..])
  }

  /** A field as the writer leaves it: numbers on wire type 0, bytes on wire type 2. */
  function Written(number: nat, value: Value, after: nat): Raw
  {
    Raw(number, if value.Number? then 0 else 2, value, after)
  }

  /** What a field list means to a reader with this schema. */
  function Collect(schema: Schema, fields: seq<(nat, Value)>, out: map<nat, Value>): Option<map<nat, Value>>
  {
    if fields == [] then Some(out)
    else
      match Admit(schema, out, Written(fields[0].0, fields[0].1, 0))
      case None => None
      case Some(more) => Collect(schema, fields[1..], more)
  }

  predicate Writable(number: nat, value: Value)
  {
    1 <= number <= MAX_FIELD_NUMBER && (if value.Number? then value.n else |value.bytes|) < TWO_64
  }

  lemma ReadsTagBack(buf: seq<byte>, pos: nat, number: nat, wire: nat)
    requires 1 <= number <= MAX_FIELD_NUMBER && wire < 8 && At(buf, pos, Tag(number, wire))
    ensures pos < |buf|
    ensures ReadFrom(buf, pos, 0) == Some((number * 8 + wire, pos + |Tag(number, wire)|))
  {
    LimitIs64Bits();
    ReadsBack(buf, pos, 0, number * 8 + wire);
  }

  lemma ReadsNumberBack(buf: seq<byte>, pos: nat, n: nat)
    requires n < TWO_64 && At(buf, pos, Encode(n))
    ensures ReadValue(buf, 0, pos) == Some((Number(n), pos + |Encode(n)|))
  {
    LimitIs64Bits();
    ReadsBack(buf, pos, 0, n);
  }

  lemma ReadsChunkAt(buf: seq<byte>, pos: nat, b: seq<byte>, mid: nat)
    requires pos <= |buf| && ReadFrom(buf, pos, 0) == Some((|b|, mid)) && At(buf, mid, b)
    ensures ReadValue(buf, 2, pos) == Some((Chunk(b), mid + |b|))
  {
  }

  lemma ReadsChunkBack(buf: seq<byte>, pos: nat, b: seq<byte>, mid: nat)
    requires |b| < TWO_64 && At(buf, pos, Encode(|b|)) && mid == pos + |Encode(|b|)| && At(buf, mid, b)
    ensures pos <= |buf| && ReadValue(buf, 2, pos) == Some((Chunk(b), mid + |b|))
  {
    LimitIs64Bits();
    ReadsBack(buf, pos, 0, |b|);
    ReadsChunkAt(buf, pos, b, mid);
  }

  lemma ReadsTwoParts(buf: seq<byte>, pos: nat, number: nat, wire: nat, mid: nat, value: Value, after: nat)
    requires 1 <= number <= MAX_FIELD_NUMBER && wire < 8 && pos < |buf| && mid <= |buf|
    requires ReadFrom(buf, pos, 0) == Some((number * 8 + wire, mid))
    requires ReadValue(buf, wire, mid) == Some((value, after))
    ensures ReadField(buf, pos) == Some(Raw(number, wire, value, after))
  {
    assert (number * 8 + wire) / 8 == number && (number * 8 + wire) % 8 == wire;
  }

  lemma ReadsTagged(buf: seq<byte>, pos: nat, number: nat, wire: nat, mid: nat, value: Value, after: nat)
    requires 1 <= number <= MAX_FIELD_NUMBER && wire < 8 && At(buf, pos, Tag(number, wire))
    requires mid == pos + |Tag(number, wire)| <= |buf| && ReadValue(buf, wire, mid) == Some((value, after))
    ensures pos < |buf| && ReadField(buf, pos) == Some(Raw(number, wire, value, after))
  {
    ReadsTagBack(buf, pos, number, wire);
    ReadsTwoParts(buf, pos, number, wire, mid, value, after);
  }

  lemma ReadsNumberedBack(buf: seq<byte>, pos: nat, number: nat, n: nat, mid: nat)
    requires Writable(number, Number(n)) && At(buf, pos, Tag(number, 0)) && mid == pos + |Tag(number, 0)|
    requires At(buf, mid, Encode(n))
    ensures pos < |buf| && ReadField(buf, pos) == Some(Raw(number, 0, Number(n), mid + |Encode(n)|))
  {
    ReadsNumberBack(buf, mid, n);
    ReadsTagged(buf, pos, number, 0, mid, Number(n), mid + |Encode(n)|);
  }

  lemma ReadsDelimitedBack(buf: seq<byte>, pos: nat, number: nat, b: seq<byte>, mid: nat, at: nat)
    requires Writable(number, Chunk(b)) && At(buf, pos, Tag(number, 2)) && mid == pos + |Tag(number, 2)|
    requires At(buf, mid, Encode(|b|)) && at == mid + |Encode(|b|)| && At(buf, at, b)
    ensures pos < |buf| && ReadField(buf, pos) == Some(Raw(number, 2, Chunk(b), at + |b|))
  {
    ReadsChunkBack(buf, mid, b, at);
    ReadsTagged(buf, pos, number, 2, mid, Chunk(b), at + |b|);
  }

  lemma ThreeParts(buf: seq<byte>, pos: nat, a: seq<byte>, b: seq<byte>, c: seq<byte>)
    requires At(buf, pos, a + b + c)
    ensures At(buf, pos, a) && At(buf, pos + |a|, b) && At(buf, pos + |a| + |b|, c)
  {
    AtSplit(buf, pos, a + b, c);
    AtSplit(buf, pos, a, b);
  }

  lemma ReadsChunkField(buf: seq<byte>, pos: nat, number: nat, b: seq<byte>)
    requires Writable(number, Chunk(b)) && At(buf, pos, Delimited(number, b))
    ensures pos < |buf|
    ensures ReadField(buf, pos) == Some(Raw(number, 2, Chunk(b), pos + |Delimited(number, b)|))
  {
    ThreeParts(buf, pos, Tag(number, 2), Encode(|b|), b);
    ReadsDelimitedBack(buf, pos, number, b, pos + |Tag(number, 2)|, pos + |Tag(number, 2)| + |Encode(|b|)|);
  }

  lemma ReadsNumberField(buf: seq<byte>, pos: nat, number: nat, n: nat)
    requires Writable(number, Number(n)) && At(buf, pos, Tag(number, 0) + Encode(n))
    ensures pos < |buf|
    ensures ReadField(buf, pos) == Some(Raw(number, 0, Number(n), pos + |Tag(number, 0) + Encode(n)|))
  {
    AtSplit(buf, pos, Tag(number, 0), Encode(n));
    ReadsNumberedBack(buf, pos, number, n, pos + |Tag(number, 0)|);
  }

  lemma ReadsFieldBack(buf: seq<byte>, pos: nat, number: nat, value: Value)
    requires Writable(number, value) && At(buf, pos, EmitOne(number, value))
    ensures pos < |buf|
    ensures ReadField(buf, pos) == Some(Written(number, value, pos + |EmitOne(number, value)|))
  {
    match value {
      case Number(n) => ReadsNumberField(buf, pos, number, n);
      case Chunk(b) => ReadsChunkField(buf, pos, number, b);
    }
  }

  lemma AdmitIgnoresPosition(schema: Schema, out: map<nat, Value>, f: Raw, after: nat)
    ensures Admit(schema, out, f) == Admit(schema, out, f.(after := after))
  {
  }

  /** The reader inverts the writer, for every field list and every schema. */
  lemma {:induction false} ParsesEmitted(buf: seq<byte>, pos: nat, schema: Schema,
                                         fields: seq<(nat, Value)>, out: map<nat, Value>)
    requires forall f :: f in fields ==> Writable(f.0, f.1)
    requires At(buf, pos, Emit(fields)) && pos + |Emit(fields)| == |buf|
    ensures ParseFrom(buf, schema, pos, out) == Collect(schema, fields, out)
    decreases |fields|
  {
    if fields != [] {
      var (number, value) := fields[0];
      var after := pos + |EmitOne(number, value)|;
      AtSplit(buf, pos, EmitOne(number, value), Emit(fields[1..]));
      ReadsFieldBack(buf, pos, number, value);
      AdmitIgnoresPosition(schema, out, Written(number, value, after), 0);
      var admitted := Admit(schema, out, Written(number, value, 0));
      if admitted.Some? {
        ParsesEmitted(buf, after, schema, fields[1..], admitted.value);
      }
    }
  }

  /** A length-delimited field costs a reader at least what the writer spends on it. */
  lemma DelimitedIsShortest(buf: seq<byte>, pos: nat)
    requires pos < |buf| && ReadField(buf, pos).Some? && ReadField(buf, pos).value.wire == 2
    ensures var f := ReadField(buf, pos).value;
            f.value.Chunk? && |Delimited(f.number, f.value.bytes)| <= f.after - pos
  {
    EncodeIsShortest(buf, pos, 0);
    var k := ReadFrom(buf, pos, 0).value;
    EncodeIsShortest(buf, k.1, 0);
    assert k.0 == k.0 / 8 * 8 + 2;
  }
}
