/** Which records are accepted, and why others are not. */
module Acceptance {
  import opened Common
  import opened Radix
  import opened Protobuf
  import opened Ed25519
  import opened GeneRecord
  import opened GeneRecordLaws
  import Base58

  // ---- The parts of a delivery -------------------------------------------------------

  /** `v2:` and 64 digits 0 to 9 and a to f, nothing before or after. */
  ghost predicate NamesGene(t: string)
  {
    && |t| == 67 && t[0] == 'v' && t[1] == '2' && t[2] == ':'
    && forall i :: 3 <= i < 67 ==> '0' <= t[i] <= '9' || 'a' <= t[i] <= 'f'
  }

  /** The key text of a gene and the 38 bytes that name an Ed25519 publisher. */
  ghost predicate NamesKey(keyText: string, gene: string, named: seq<byte>)
  {
    && NamesGene(gene) && |named| == 38 && named[..6] == [0x00, 0x24, 0x08, 0x01, 0x12, 0x20]
    && keyText == "/rotifer/gene/" + gene + "/" + Base58.Encode(named)
  }

  /** The value parses to exactly the three byte fields 1, 2 and 3. */
  ghost predicate Carries(value: seq<byte>, ann: seq<byte>, pub: seq<byte>, sig: seq<byte>)
  {
    Parse(value, map[1 := BytesKind, 2 := BytesKind, 3 := BytesKind])
      == Some(map[1 := Chunk(ann), 2 := Chunk(pub), 3 := Chunk(sig)])
  }

  /** Six text fields and the time of an announcement that parses. */
  ghost predicate Announces(ann: seq<byte>, fields: map<nat, Value>)
  {
    Parse(ann, map[1 := Utf8Kind, 2 := Utf8Kind, 3 := Utf8Kind, 4 := Utf8Kind, 5 := Utf8Kind, 6 := Utf8Kind,
                   7 := UintKind]) == Some(fields)
  }

  ghost function TextIn(fields: map<nat, Value>, k: nat): seq<byte>
  {
    if k in fields && fields[k].Chunk? then fields[k].bytes else []
  }

  ghost function TimeIn(fields: map<nat, Value>): nat
  {
    if 7 in fields && fields[7].Number? then fields[7].n else 0
  }

  ghost predicate WithinLimits(fields: map<nat, Value>)
  {
    && NamesGene(Latin(TextIn(fields, 1)))
    && |TextIn(fields, 2)| <= 128
    && 1 <= |TextIn(fields, 3)| <= 128
    && (Latin(TextIn(fields, 4)) == "Native" || Latin(TextIn(fields, 4)) == "Hybrid"
        || (Latin(TextIn(fields, 4)) == "Wrapped" && TextIn(fields, 5) == []))
    && |TextIn(fields, 5)| <= 32
    && |TextIn(fields, 6)| <= 64
  }

  /** No more than 48 hours old and no more than 5 minutes ahead. */
  ghost predicate TooOld(time: nat, now: int) { time < now - 172800000 }

  ghost predicate TooNew(time: nat, now: int) { time > now + 300000 }

  /** The key is a point, and eight times it is not the identity. */
  ghost predicate IsSound<Point(!new)>(c: Curve<Point>, key: seq<byte>)
  {
    var a := c.decompress(key);
    a.Some? && c.Times(8, a.value) != c.zero
  }

  datatype Parts = Parts(gene: string, named: seq<byte>, ann: seq<byte>, pub: seq<byte>, sig: seq<byte>)

  ghost predicate HasParts(keyText: string, value: seq<byte>, p: Parts)
  {
    NamesKey(keyText, p.gene, p.named) && |value| <= 8192 && Carries(value, p.ann, p.pub, p.sig)
  }

  // ---- The bytes a signature covers ----------------------------------------------------

  /** The domain, a zero byte, the length in four bytes, the announcement. */
  ghost predicate IsSignedText(m: seq<byte>, ann: seq<byte>)
  {
    && |m| == 27 + |ann| && Latin(m[..22]) == "rotifer-gene-record-v1" && m[22] == 0
    && Radix.Value(m[23..27], 256) == |ann| && m[27..] == ann
  }

  lemma FourBytesHold()
    ensures Pow256(4) == 0x1_0000_0000
  {
    assert Pow256(1) == 256 && Pow256(2) == 65536 && Pow256(3) == 16777216;
  }

  lemma SignedIsSignedText(ann: seq<byte>)
    requires |ann| < 0x1_0000_0000
    ensures IsSignedText(Signed(ann), ann)
  {
    var m, domain := Signed(ann), Ascii("rotifer-gene-record-v1");
    FourBytesHold();
    BigEndianRoundTrip(|ann|, 4);
    assert m[..22] == domain && m[23..27] == BigEndian(|ann|, 4) && m[27..] == ann;
    assert Latin(domain) == "rotifer-gene-record-v1";
  }

  /** No two announcements are signed as the same bytes. */
  lemma SignedIsInjective(ann: seq<byte>, other: seq<byte>)
    requires |ann| < 0x1_0000_0000 && |other| < 0x1_0000_0000
    ensures IsSignedText(Signed(ann), ann)
    ensures Signed(ann) == Signed(other) <==> ann == other
  {
    SignedIsSignedText(ann);
    SignedIsSignedText(other);
  }

  // ---- The steps ---------------------------------------------------------------------------

  lemma GeneIdIs(t: string)
    ensures IsGeneId(t) <==> NamesGene(t)
  {
    if |t| == 67 {
      assert t[..3] == [t[0], t[1], t[2]];
    }
  }

  lemma KeyIs(keyText: string, gene: string, named: seq<byte>)
    ensures ReadKey(keyText) == Some((gene, named)) <==> NamesKey(keyText, gene, named)
  {
    OneKeyText(keyText, gene, named);
    GeneIdIs(gene);
  }

  /** A key text names one gene and one publisher at most. */
  lemma OneName(keyText: string, gene: string, named: seq<byte>, gene': string, named': seq<byte>)
    requires NamesKey(keyText, gene, named) && NamesKey(keyText, gene', named')
    ensures gene == gene' && named == named'
  {
    KeyIs(keyText, gene, named);
    KeyIs(keyText, gene', named');
  }

  lemma RecordIs(value: seq<byte>)
    ensures (Parse(value, REC_SCHEMA).Some? && |Parse(value, REC_SCHEMA).value| == 3)
       <==> exists ann, pub, sig :: Carries(value, ann, pub, sig)
  {
    if Parse(value, REC_SCHEMA).Some? && |Parse(value, REC_SCHEMA).value| == 3 {
      var outer := Parse(value, REC_SCHEMA).value;
      ParseIsRecordShaped(value, 0, map[]);
      ThreeFields(outer);
      ThreeChunks(outer);
      assert Carries(value, outer[1].bytes, outer[2].bytes, outer[3].bytes);
    }
    if ann, pub, sig :| Carries(value, ann, pub, sig) {
      ThreeKeys(ann, pub, sig);
    }
  }

  lemma AsciiIs(b: seq<byte>, t: string)
    requires forall i :: 0 <= i < |t| ==> t[i] < 128 as char
    ensures b == Ascii(t) <==> Latin(b) == t
  {
    if Latin(b) == t {
      forall i | 0 <= i < |b| ensures b[i] == Ascii(t)[i] {
        assert Latin(b)[i] == t[i];
      }
    }
    if b == Ascii(t) {
      assert Latin(b) == t;
    }
  }

  lemma GeneTextIsAscii(b: seq<byte>)
    requires NamesGene(Latin(b))
    ensures IsAscii(b)
  {
    forall i | 0 <= i < |b| ensures b[i] < 0x80 {
      assert Latin(b)[i] == b[i] as char;
    }
  }

  lemma LimitsAre(fields: map<nat, Value>)
    ensures CheckFields(FieldsOf(fields)) <==> WithinLimits(fields)
  {
    var a := FieldsOf(fields);
    forall k: nat | k < 6 ensures a.texts[k] == TextIn(fields, k + 1) {
      assert a.texts[k] == TextAt(fields, k + 1);
    }
    GeneIdIs(Latin(a.texts[0]));
    if NamesGene(Latin(a.texts[0])) {
      GeneTextIsAscii(a.texts[0]);
    }
    AsciiIs(a.texts[3], "Native");
    AsciiIs(a.texts[3], "Hybrid");
    AsciiIs(a.texts[3], "Wrapped");
    assert a.texts[3] in {Ascii("Native"), Ascii("Hybrid"), Ascii("Wrapped")} <==>
           a.texts[3] == Ascii("Native") || a.texts[3] == Ascii("Hybrid") || a.texts[3] == Ascii("Wrapped");
    assert Latin(a.texts[3]) == "Wrapped" ==> Latin(a.texts[3]) != "Native" && Latin(a.texts[3]) != "Hybrid";
  }

  lemma FieldsAre(ann: seq<byte>, fields: map<nat, Value>)
    ensures Parse(ann, ANN_SCHEMA) == Some(fields) <==> Announces(ann, fields)
  {
  }

  lemma TimeIs(fields: map<nat, Value>, now: int)
    ensures FieldsOf(fields).timestamp == TimeIn(fields)
    ensures TimeIn(fields) < Max(now - MAX_AGE, 0) <==> TooOld(TimeIn(fields), now)
    ensures TimeIn(fields) > now + MAX_FUTURE <==> TooNew(TimeIn(fields), now)
  {
  }

  /** What steps 5 to 8 ask of the parts, one after the other. */
  ghost predicate Bound<Point(!new)>(c: Curve<Point>, p: Parts)
  {
    p.pub == p.named && |p.pub| == 38 && IsSound(c, p.pub[6..])
  }

  ghost predicate Announced(p: Parts)
  {
    exists fields :: Announces(p.ann, fields) && WithinLimits(fields)
  }

  ghost predicate OfGene(p: Parts)
  {
    exists fields :: Announces(p.ann, fields) && Latin(TextIn(fields, 1)) == p.gene
  }

  ghost predicate NotOld(p: Parts, now: int)
  {
    exists fields :: Announces(p.ann, fields) && !TooOld(TimeIn(fields), now)
  }

  ghost predicate NotNew(p: Parts, now: int)
  {
    exists fields :: Announces(p.ann, fields) && !TooNew(TimeIn(fields), now)
  }

  ghost predicate IsSigned<Point(!new)>(c: Curve<Point>, p: Parts)
    requires |p.pub| >= 6
  {
    c.Verify(p.pub[6..], Signed(p.ann), p.sig)
  }

  lemma ChecksOf<Point(!new)>(c: Curve<Point>, p: Parts, now: int)
    requires |p.named| == 38
    ensures CheckRecord(c, p.gene, p.named, p.ann, p.pub, p.sig, now)
         == if p.pub != p.named || !IsSound(c, p.pub[6..]) then Reject(true, 5, "bad_publisher")
            else if !Announced(p) then Reject(false, 6, "bad_announcement")
            else if !OfGene(p) then Reject(false, 6, "gene_id_mismatch")
            else if !NotOld(p, now) then Reject(false, 7, "stale")
            else if !NotNew(p, now) then Reject(false, 7, "from_the_future")
            else if !IsSigned(c, p) then Reject(true, 8, "bad_signature")
            else Accept(Record(p.ann, p.pub, p.sig))
  {
    match Parse(p.ann, ANN_SCHEMA) {
      case None =>
        assert forall fields :: !Announces(p.ann, fields);
      case Some(fields) =>
        FieldsAre(p.ann, fields);
        LimitsAre(fields);
        TimeIs(fields, now);
        assert FieldsOf(fields).texts[0] == TextIn(fields, 1);
    }
  }

  // ---- The verdict ---------------------------------------------------------------------------

  lemma ReachesTheChecks<Point(!new)>(c: Curve<Point>, keyText: string, value: seq<byte>, now: int, p: Parts)
    requires HasParts(keyText, value, p)
    ensures Validate(c, keyText, value, now) == CheckRecord(c, p.gene, p.named, p.ann, p.pub, p.sig, now)
  {
    var outer := map[1 := Chunk(p.ann), 2 := Chunk(p.pub), 3 := Chunk(p.sig)];
    KeyIs(keyText, p.gene, p.named);
    ThreeKeys(p.ann, p.pub, p.sig);
    CarriesIs(value, p.ann, p.pub, p.sig, outer);
    ThreeTexts(p, outer);
    ReachesWith(c, keyText, value, now, p, outer);
  }

  lemma CarriesIs(value: seq<byte>, ann: seq<byte>, pub: seq<byte>, sig: seq<byte>, outer: map<nat, Value>)
    requires outer == map[1 := Chunk(ann), 2 := Chunk(pub), 3 := Chunk(sig)] && Carries(value, ann, pub, sig)
    ensures Parse(value, REC_SCHEMA) == Some(outer)
  {
  }

  lemma ThreeTexts(p: Parts, outer: map<nat, Value>)
    requires outer == map[1 := Chunk(p.ann), 2 := Chunk(p.pub), 3 := Chunk(p.sig)]
    ensures TextAt(outer, 1) == p.ann && TextAt(outer, 2) == p.pub && TextAt(outer, 3) == p.sig
  {
  }

  lemma ReachesWith<Point(!new)>(c: Curve<Point>, keyText: string, value: seq<byte>, now: int, p: Parts,
                                 outer: map<nat, Value>)
    requires ReadKey(keyText) == Some((p.gene, p.named)) && |p.named| == 38 && |value| <= 8192
    requires Parse(value, REC_SCHEMA) == Some(outer) && |outer| == 3
    requires TextAt(outer, 1) == p.ann && TextAt(outer, 2) == p.pub && TextAt(outer, 3) == p.sig
    ensures Validate(c, keyText, value, now) == CheckRecord(c, p.gene, p.named, p.ann, p.pub, p.sig, now)
  {
  }

  /**
   * The verdict on a value that reaches step 5: the first of the seven conditions that fails says
   * which rejection it is, and only a wrong publisher and a wrong signature are charged.
   */
  lemma VerdictExactly<Point(!new)>(c: Curve<Point>, keyText: string, value: seq<byte>, now: int, p: Parts)
    requires HasParts(keyText, value, p)
    ensures Validate(c, keyText, value, now)
         == if p.pub != p.named || !IsSound(c, p.pub[6..]) then Reject(true, 5, "bad_publisher")
            else if !Announced(p) then Reject(false, 6, "bad_announcement")
            else if !OfGene(p) then Reject(false, 6, "gene_id_mismatch")
            else if !NotOld(p, now) then Reject(false, 7, "stale")
            else if !NotNew(p, now) then Reject(false, 7, "from_the_future")
            else if !IsSigned(c, p) then Reject(true, 8, "bad_signature")
            else Accept(Record(p.ann, p.pub, p.sig))
  {
    ReachesTheChecks(c, keyText, value, now, p);
    ChecksOf(c, p, now);
  }

  /** The verdict on a value that does not: no key text of the right form, too many bytes, no record. */
  lemma EarlyVerdict<Point(!new)>(c: Curve<Point>, keyText: string, value: seq<byte>, now: int)
    ensures (!exists gene, named :: NamesKey(keyText, gene, named))
            ==> Validate(c, keyText, value, now) == Reject(false, 2, "bad_key")
    ensures (exists gene, named :: NamesKey(keyText, gene, named)) && |value| > 8192
            ==> Validate(c, keyText, value, now) == Reject(false, 3, "oversized")
    ensures (exists gene, named :: NamesKey(keyText, gene, named)) && |value| <= 8192
            && (!exists ann, pub, sig :: Carries(value, ann, pub, sig))
            ==> Validate(c, keyText, value, now) == Reject(false, 4, "malformed_record")
  {
    if ReadKey(keyText).Some? {
      KeyIs(keyText, ReadKey(keyText).value.0, ReadKey(keyText).value.1);
    }
    if gene, named :| NamesKey(keyText, gene, named) {
      KeyIs(keyText, gene, named);
    }
    RecordIs(value);
  }

  /** The parts of an accepted value, and all that holds of them. */
  ghost predicate Genuine<Point(!new)>(c: Curve<Point>, keyText: string, value: seq<byte>, now: int, p: Parts)
  {
    && HasParts(keyText, value, p) && Bound(c, p)
    && Announced(p) && OfGene(p) && NotOld(p, now) && NotNew(p, now) && IsSigned(c, p)
  }

  /** A value is accepted exactly if it is a record, signed by the publisher its key names. */
  lemma AcceptedExactlyIf<Point(!new)>(c: Curve<Point>, keyText: string, value: seq<byte>, now: int)
    ensures Validate(c, keyText, value, now).Accept? <==> exists p :: Genuine(c, keyText, value, now, p)
  {
    if p :| Genuine(c, keyText, value, now, p) {
      VerdictExactly(c, keyText, value, now, p);
    }
    if Validate(c, keyText, value, now).Accept? {
      EarlyVerdict(c, keyText, value, now);
      var gene, named :| NamesKey(keyText, gene, named);
      var ann, pub, sig :| Carries(value, ann, pub, sig);
      var p := Parts(gene, named, ann, pub, sig);
      VerdictExactly(c, keyText, value, now, p);
      assert Genuine(c, keyText, value, now, p);
    }
  }
}
