/** The DHT gene record: signing, the eight-step validator and its key text. */
module GeneRecord {
  import opened Common
  import opened Varint
  import opened Radix
  import opened Protobuf
  import opened Ed25519
  import Base58

  const PREFIX := "/rotifer/gene/"
  const MAX_RECORD: nat := 8192
  const MAX_AGE := 48 * 3600 * 1000
  const MAX_FUTURE := 300 * 1000

  const PUBLISHER_PREFIX: seq<byte> := [0x00, 0x24, 0x08, 0x01, 0x12, 0x20]

  const ANN_SCHEMA: Schema := map[1 := Utf8Kind, 2 := Utf8Kind, 3 := Utf8Kind, 4 := Utf8Kind,
                                  5 := Utf8Kind, 6 := Utf8Kind, 7 := UintKind]

  const REC_SCHEMA: Schema := map[1 := BytesKind, 2 := BytesKind, 3 := BytesKind]

  // ---- Text as bytes ------------------------------------------------------------

  function Ascii(t: string): (b: seq<byte>)
    requires forall i :: 0 <= i < |t| ==> t[i] < 128 as char
    ensures |b| == |t|
  {
    seq(|t|, i requires 0 <= i < |t| => t[i] as int)
  }

  function Latin(b: seq<byte>): (t: string)
    ensures |t| == |b|
  {
    seq(|b|, i requires 0 <= i < |b| => b[i] as char)
  }

  predicate IsHexDigit(c: char) { '0' <= c <= '9' || 'a' <= c <= 'f' }

  /** fullmatch of `v2:[0-9a-f]{64}`. */
  predicate IsGeneId(t: string)
  {
    |t| == 67 && t[..3] == "v2:" && forall i :: 3 <= i < 67 ==> IsHexDigit(t[i])
  }

  // ---- Announcements ------------------------------------------------------------

  /** The seven fields of an announcement; texts are kept as their UTF-8 bytes. */
  datatype Announcement = Announcement(texts: seq<seq<byte>>, timestamp: nat)

  function TextAt(m: map<nat, Value>, k: nat): seq<byte>
  {
    if k in m && m[k].Chunk? then m[k].bytes else []
  }

  /** Absent fields read as empty text and as time 0. */
  function FieldsOf(m: map<nat, Value>): (a: Announcement)
    ensures |a.texts| == 6
  {
    Announcement(seq(6, k requires k >= 0 => TextAt(m, k + 1)), if 7 in m && m[7].Number? then m[7].n else 0)
  }

  /** `check_fields`: gene ID, name, domain, fidelity, IR spec and version in that order. */
  predicate CheckFields(a: Announcement)
    requires |a.texts| == 6
  {
    && IsAscii(a.texts[0]) && IsGeneId(Latin(a.texts[0]))
    && |a.texts[1]| <= 128
    && 0 < |a.texts[2]| <= 128
    && a.texts[3] in {Ascii("Native"), Ascii("Hybrid"), Ascii("Wrapped")}
    && |a.texts[4]| <= 32
    && (a.texts[3] == Ascii("Wrapped") ==> a.texts[4] == [])
    && |a.texts[5]| <= 64
  }

  predicate InWindow(timestamp: nat, now: int)
  {
    timestamp >= now - MAX_AGE && timestamp <= now + MAX_FUTURE
  }

  // ---- Records ------------------------------------------------------------------

  /** The bytes a signature covers. */
  function Signed(ann: seq<byte>): seq<byte>
  {
    Ascii("rotifer-gene-record-v1") + [0] + BigEndian(|ann|, 4) + ann
  }

  function RecordFields(ann: seq<byte>, publisher: seq<byte>, signature: seq<byte>): seq<(nat, Value)>
  {
    [(1, Chunk(ann)), (2, Chunk(publisher)), (3, Chunk(signature))]
  }

  function Record(ann: seq<byte>, publisher: seq<byte>, signature: seq<byte>): seq<byte>
  {
    Delimited(1, ann) + Delimited(2, publisher) + Delimited(3, signature)
  }

  function PublisherOf<Point(!new,==)>(c: Curve<Point>, seed: seq<byte>): (p: seq<byte>)
    requires c.EncodingLaws()
    ensures |p| == 38
  {
    PUBLISHER_PREFIX + c.PublicKey(seed)
  }

  function SignRecord<Point(!new,==)>(c: Curve<Point>, seed: seq<byte>, ann: seq<byte>): seq<byte>
    requires c.EncodingLaws()
  {
    Record(ann, PublisherOf(c, seed), c.Sign(seed, Signed(ann)))
  }

  function KeyText(gene: string, publisher: seq<byte>): string
  {
    PREFIX + gene + "/" + Base58.Encode(publisher)
  }

  // ---- The validator ------------------------------------------------------------

  datatype Verdict =
    | Accept(stored: seq<byte>)
    | Reject(charged: bool, step: nat, reason: string)

  function FirstSlash(t: string): (k: nat)
    ensures k <= |t| && (k < |t| ==> t[k] == '/') && '/' !in t[..k]
  {
    if t == [] || t[0] == '/' then 0 else
      var k := 1 + FirstSlash(t[1..]);
      assert t[..k] == [t[0]] + t[1..][..k - 1];
      k
  }

  /** Step 2: the gene ID and the publisher a key text names. */
  function ReadKey(keyText: string): Option<(string, seq<byte>)>
  {
    if !(PREFIX <= keyText) then None
    else
      var rest := keyText[|PREFIX|..];
      var k := FirstSlash(rest);
      if k == |rest| || !IsGeneId(rest[..k]) || |rest[k + 1..]| > 64 then None
      else
        match Base58.Decode(rest[k + 1..])
        case None => None
        case Some(named) =>
          if |named| == 38 && named[..6] == PUBLISHER_PREFIX then Some((rest[..k], named)) else None
  }

  /** Form (a) of the key rule: the encoding decodes, and not to a point of small order. */
  predicate SoundKey<Point(!new,==)>(c: Curve<Point>, pub: seq<byte>)
  {
    c.decompress(pub).Some? && !c.SmallOrder(c.decompress(pub).value)
  }

  function Validate<Point(!new,==)>(c: Curve<Point>, keyText: string, value: seq<byte>, now: int): Verdict
  {
    match ReadKey(keyText)
    case None => Reject(false, 2, "bad_key")
    case Some(key) =>
      if |value| > MAX_RECORD then Reject(false, 3, "oversized")
      else
        match Parse(value, REC_SCHEMA)
        case None => Reject(false, 4, "malformed_record")
        case Some(outer) =>
          if |outer| != 3 then Reject(false, 4, "malformed_record")
          else CheckRecord(c, key.0, key.1, TextAt(outer, 1), TextAt(outer, 2), TextAt(outer, 3), now)
  }

  /** Steps 5 to 8, on the three fields of a well-formed record. */
  function CheckRecord<Point(!new,==)>(c: Curve<Point>, gene: string, named: seq<byte>,
                                       ann: seq<byte>, pub: seq<byte>, sig: seq<byte>, now: int): Verdict
    requires |named| == 38
  {
    if pub != named || !SoundKey(c, pub[6..]) then Reject(true, 5, "bad_publisher")
    else
      match Parse(ann, ANN_SCHEMA)
      case None => Reject(false, 6, "bad_announcement")
      case Some(fields) =>
        var a := FieldsOf(fields);
        if !CheckFields(a) then Reject(false, 6, "bad_announcement")
        else if Latin(a.texts[0]) != gene then Reject(false, 6, "gene_id_mismatch")
        else if a.timestamp < Max(now - MAX_AGE, 0) then Reject(false, 7, "stale")
        else if a.timestamp > now + MAX_FUTURE then Reject(false, 7, "from_the_future")
        else if !c.Verify(pub[6..], Signed(ann), sig) then Reject(true, 8, "bad_signature")
        else Accept(Record(ann, pub, sig))
  }

  function Max(a: int, b: int): int { if a >= b then a else b }

  // ---- What the outer grammar keeps ---------------------------------------------

  /** Everything parsed under the record schema is one of its three byte fields. */
  ghost predicate RecordShaped(m: map<nat, Value>)
  {
    m.Keys <= {1, 2, 3} && forall k :: k in m ==> m[k].Chunk?
  }

  lemma {:induction false} ParseIsRecordShaped(buf: seq<byte>, pos: nat, out: map<nat, Value>)
    requires pos <= |buf| && RecordShaped(out)
    ensures var r := ParseFrom(buf, REC_SCHEMA, pos, out); r.Some? ==> RecordShaped(r.value)
    decreases |buf| - pos
  {
    if pos < |buf| && ReadField(buf, pos).Some? {
      var f := ReadField(buf, pos).value;
      var more := Admit(REC_SCHEMA, out, f);
      if more.Some? {
        ParseIsRecordShaped(buf, f.after, more.value);
      }
    }
  }

  lemma ThreeFields(m: map<nat, Value>)
    requires RecordShaped(m)
    ensures |m| == 3 <==> m.Keys == {1, 2, 3}
  {
    var all := {1, 2, 3};
    assert |m| == |m.Keys|;
    if m.Keys != all {
      var k :| k in all && k !in m.Keys;
      assert m.Keys <= all - {k};
      SubsetSize(m.Keys, all - {k});
    }
  }

  lemma {:induction false} SubsetSize<T>(a: set<T>, b: set<T>)
    requires a <= b
    ensures |a| <= |b|
    decreases a
  {
    if a != {} {
      var x :| x in a;
      SubsetSize(a - {x}, b - {x});
    }
  }

  /** What the canonical encoding spends on field k of a parsed record. */
  ghost function Cost(m: map<nat, Value>, k: nat): nat
  {
    if k in m && m[k].Chunk? then |Delimited(k, m[k].bytes)| else 0
  }

  /** One field costs no more than the bytes it was read from. */
  lemma AdmittedCost(buf: seq<byte>, pos: nat, out: map<nat, Value>, f: Raw, more: map<nat, Value>)
    requires pos < |buf| && ReadField(buf, pos) == Some(f) && Admit(REC_SCHEMA, out, f) == Some(more)
    requires RecordShaped(out)
    ensures RecordShaped(more)
    ensures Cost(more, 1) + Cost(more, 2) + Cost(more, 3) <= Cost(out, 1) + Cost(out, 2) + Cost(out, 3) + f.after - pos
  {
    if f.number in REC_SCHEMA {
      DelimitedIsShortest(buf, pos);
    }
  }

  /** Re-encoding never needs more bytes than were read. */
  lemma {:induction false} ReencodingIsNoLonger(buf: seq<byte>, pos: nat, out: map<nat, Value>)
    requires pos <= |buf| && RecordShaped(out)
    ensures var r := ParseFrom(buf, REC_SCHEMA, pos, out);
            r.Some? ==> Cost(r.value, 1) + Cost(r.value, 2) + Cost(r.value, 3)
                        <= Cost(out, 1) + Cost(out, 2) + Cost(out, 3) + |buf| - pos
    decreases |buf| - pos
  {
    if pos < |buf| && ReadField(buf, pos).Some? {
      var f := ReadField(buf, pos).value;
      var more := Admit(REC_SCHEMA, out, f);
      if more.Some? {
        AdmittedCost(buf, pos, out, f, more.value);
        ReencodingIsNoLonger(buf, f.after, more.value);
      }
    }
  }

  lemma RecordIsEmitted(ann: seq<byte>, pub: seq<byte>, sig: seq<byte>)
    ensures Record(ann, pub, sig) == Emit(RecordFields(ann, pub, sig))
  {
    var fields := RecordFields(ann, pub, sig);
    assert fields[1..][1..] == [fields[2]];
    assert Emit([fields[2]]) == Delimited(3, sig);
    assert Emit(fields[1..]) == Delimited(2, pub) + Delimited(3, sig);
  }

  /** `parse_fields` inverts `record`. */
  lemma ParsesRecord(ann: seq<byte>, pub: seq<byte>, sig: seq<byte>)
    requires |ann| < TWO_64 && |pub| < TWO_64 && |sig| < TWO_64
    ensures Parse(Record(ann, pub, sig), REC_SCHEMA)
         == Some(map[1 := Chunk(ann), 2 := Chunk(pub), 3 := Chunk(sig)])
  {
    var fields, buf := RecordFields(ann, pub, sig), Record(ann, pub, sig);
    RecordIsEmitted(ann, pub, sig);
    assert At(buf, 0, Emit(fields));
    ParsesEmitted(buf, 0, REC_SCHEMA, fields, map[]);
    CollectsRecord(ann, pub, sig);
  }

  lemma CollectsRecord(ann: seq<byte>, pub: seq<byte>, sig: seq<byte>)
    ensures Collect(REC_SCHEMA, RecordFields(ann, pub, sig), map[])
         == Some(map[1 := Chunk(ann), 2 := Chunk(pub), 3 := Chunk(sig)])
  {
    var fields := RecordFields(ann, pub, sig);
    assert fields[1..][1..] == [fields[2]];
    assert Collect(REC_SCHEMA, [fields[2]], map[1 := Chunk(ann), 2 := Chunk(pub)])
        == Some(map[1 := Chunk(ann), 2 := Chunk(pub), 3 := Chunk(sig)]);
    assert Collect(REC_SCHEMA, fields[1..], map[1 := Chunk(ann)])
        == Collect(REC_SCHEMA, [fields[2]], map[1 := Chunk(ann), 2 := Chunk(pub)]);
  }
}
