/** What the validator promises. */
module GeneRecordLaws {
  import opened Common
  import opened Varint
  import opened Protobuf
  import opened Ed25519
  import opened GeneRecord
  import Base58

  // ---- Key texts ----------------------------------------------------------------

  lemma {:induction false} FirstSlashAt(a: string, b: string)
    requires '/' !in a
    ensures FirstSlash(a + "/" + b) == |a|
  {
    if a != [] {
      FirstSlashAt(a[1..], b);
      assert (a + "/" + b)[1..] == a[1..] + "/" + b;
    }
  }

  lemma GeneIdHasNoSlash(gene: string)
    requires IsGeneId(gene)
    ensures '/' !in gene
  {
    forall i | 0 <= i < |gene| ensures gene[i] != '/' {
      if i < 3 {
        assert gene[i] == gene[..3][i] == "v2:"[i];
      }
    }
  }

  /** The key text a publisher uses is read back as its gene and publisher. */
  lemma ReadsKeyTextBack(gene: string, publisher: seq<byte>)
    requires IsGeneId(gene) && |publisher| == 38 && publisher[..6] == PUBLISHER_PREFIX
    ensures ReadKey(KeyText(gene, publisher)) == Some((gene, publisher))
  {
    var named := Base58.Encode(publisher);
    KeyTextParts(gene, named);
    PublisherText(publisher);
  }

  lemma KeyTextParts(gene: string, named: string)
    requires IsGeneId(gene)
    ensures var text := PREFIX + gene + "/" + named;
            var rest := text[|PREFIX|..];
            && PREFIX <= text && FirstSlash(rest) == |gene| < |rest|
            && rest[..|gene|] == gene && rest[|gene| + 1..] == named
  {
    assert (PREFIX + gene + "/" + named)[|PREFIX|..] == gene + "/" + named;
    GeneIdHasNoSlash(gene);
    FirstSlashAt(gene, named);
  }

  lemma PublisherText(publisher: seq<byte>)
    requires |publisher| == 38 && publisher[..6] == PUBLISHER_PREFIX
    ensures |Base58.Encode(publisher)| <= 58 && Base58.Decode(Base58.Encode(publisher)) == Some(publisher)
  {
    assert publisher[0] == publisher[..6][0] && publisher[1] == publisher[..6][1];
    Base58.EncodedLength(publisher);
    Base58.DecodeEncode(publisher);
  }

  /** Each gene and publisher has exactly one key text that passes step 2. */
  lemma OneKeyText(keyText: string, gene: string, publisher: seq<byte>)
    ensures ReadKey(keyText) == Some((gene, publisher))
       <==> IsGeneId(gene) && |publisher| == 38 && publisher[..6] == PUBLISHER_PREFIX
            && keyText == KeyText(gene, publisher)
  {
    if ReadKey(keyText) == Some((gene, publisher)) {
      var rest := keyText[|PREFIX|..];
      var k := FirstSlash(rest);
      Base58.EncodeDecode(rest[k + 1..]);
      assert keyText == PREFIX + rest && rest == rest[..k] + "/" + rest[k + 1..];
    }
    if IsGeneId(gene) && |publisher| == 38 && publisher[..6] == PUBLISHER_PREFIX
       && keyText == KeyText(gene, publisher) {
      ReadsKeyTextBack(gene, publisher);
    }
  }

  // ---- The stored form ----------------------------------------------------------

  /** What an accepted value was taken apart into. */
  lemma Accepted<Point(!new)>(c: Curve<Point>, keyText: string, value: seq<byte>, now: int)
    returns (gene: string, ann: seq<byte>, pub: seq<byte>, sig: seq<byte>)
    requires Validate(c, keyText, value, now).Accept?
    ensures ReadKey(keyText) == Some((gene, pub)) && |pub| == 38
    ensures |value| <= MAX_RECORD
    ensures Parse(value, REC_SCHEMA) == Some(map[1 := Chunk(ann), 2 := Chunk(pub), 3 := Chunk(sig)])
    ensures CheckRecord(c, gene, pub, ann, pub, sig, now) == Accept(Record(ann, pub, sig))
    ensures Validate(c, keyText, value, now).stored == Record(ann, pub, sig)
    ensures |Record(ann, pub, sig)| <= |value|
  {
    var outer := Parse(value, REC_SCHEMA).value;
    ParseIsRecordShaped(value, 0, map[]);
    ThreeFields(outer);
    ReencodingIsNoLonger(value, 0, map[]);
    gene := ReadKey(keyText).value.0;
    ann, pub, sig := outer[1].bytes, outer[2].bytes, outer[3].bytes;
    ThreeChunks(outer);
  }

  lemma ThreeChunks(m: map<nat, Value>)
    requires m.Keys == {1, 2, 3} && forall k :: k in m ==> m[k].Chunk?
    ensures m == map[1 := Chunk(m[1].bytes), 2 := Chunk(m[2].bytes), 3 := Chunk(m[3].bytes)]
  {
    assert 1 in m.Keys && 2 in m.Keys && 3 in m.Keys;
  }

  lemma ThreeKeys(ann: seq<byte>, pub: seq<byte>, sig: seq<byte>)
    ensures |map[1 := Chunk(ann), 2 := Chunk(pub), 3 := Chunk(sig)]| == 3
  {
    var m := map[1 := Chunk(ann), 2 := Chunk(pub), 3 := Chunk(sig)];
    ThreeFields(m);
    assert m.Keys == {1, 2, 3};
  }

  /** On a record in its canonical form the outer steps decide nothing but the size. */
  lemma CanonicalReachesChecks<Point(!new)>(c: Curve<Point>, keyText: string, gene: string,
                                               ann: seq<byte>, pub: seq<byte>, sig: seq<byte>, now: int)
    requires ReadKey(keyText) == Some((gene, pub)) && |pub| == 38
    requires |Record(ann, pub, sig)| <= MAX_RECORD
    ensures Validate(c, keyText, Record(ann, pub, sig), now) == CheckRecord(c, gene, pub, ann, pub, sig, now)
  {
    var value := Record(ann, pub, sig);
    assert |ann| + |pub| + |sig| <= |value|;
    ParsesRecord(ann, pub, sig);
    ThreeKeys(ann, pub, sig);
    ReachesChecks(c, keyText, gene, ann, pub, sig, now, value, map[1 := Chunk(ann), 2 := Chunk(pub), 3 := Chunk(sig)]);
  }

  lemma ReachesChecks<Point(!new)>(c: Curve<Point>, keyText: string, gene: string, ann: seq<byte>, pub: seq<byte>,
                                   sig: seq<byte>, now: int, value: seq<byte>, outer: map<nat, Value>)
    requires ReadKey(keyText) == Some((gene, pub)) && |pub| == 38 && |value| <= MAX_RECORD
    requires Parse(value, REC_SCHEMA) == Some(outer) && |outer| == 3
    requires TextAt(outer, 1) == ann && TextAt(outer, 2) == pub && TextAt(outer, 3) == sig
    ensures Validate(c, keyText, value, now) == CheckRecord(c, gene, pub, ann, pub, sig, now)
  {
  }

  /**
   * The stored form is no longer than what was received, and a node that gets it in
   * turn, at the same key and time, accepts it and stores the same bytes.
   */
  lemma StoredFormIsFixed<Point(!new)>(c: Curve<Point>, keyText: string, value: seq<byte>, now: int)
    requires Validate(c, keyText, value, now).Accept?
    ensures var stored := Validate(c, keyText, value, now).stored;
            |stored| <= |value| && Validate(c, keyText, stored, now) == Accept(stored)
  {
    var gene, ann, pub, sig := Accepted(c, keyText, value, now);
    CanonicalReachesChecks(c, keyText, gene, ann, pub, sig, now);
  }

  // ---- Honest publishing --------------------------------------------------------

  /** A key text, announcement and time an honest publisher may use. */
  ghost predicate HonestAnnouncement(gene: string, ann: seq<byte>, now: int)
  {
    && Parse(ann, ANN_SCHEMA).Some?
    && var a := FieldsOf(Parse(ann, ANN_SCHEMA).value);
    && CheckFields(a)
    && Latin(a.texts[0]) == gene
    && InWindow(a.timestamp, now)
  }

  lemma PublisherKey<Point(!new)>(c: Curve<Point>, seed: seq<byte>)
    requires c.Lawful()
    ensures var p := PublisherOf(c, seed);
            p[..6] == PUBLISHER_PREFIX && p[6..] == c.PublicKey(seed) && SoundKey(c, p[6..])
  {
    c.PublicKeyIsSound(seed);
  }

  /**
   * Whatever announcement bytes a publisher signs, if their fields are within limits
   * and in the time window, the validator stores the signed record byte for byte.
   */
  lemma SignedRecordIsStored<Point(!new)>(c: Curve<Point>, seed: seq<byte>, gene: string,
                                             ann: seq<byte>, now: int)
    requires c.Lawful()
    requires HonestAnnouncement(gene, ann, now)
    requires |SignRecord(c, seed, ann)| <= MAX_RECORD
    ensures Validate(c, KeyText(gene, PublisherOf(c, seed)), SignRecord(c, seed, ann), now)
         == Accept(SignRecord(c, seed, ann))
  {
    var pub, sig := PublisherOf(c, seed), c.Sign(seed, Signed(ann));
    PublisherKey(c, seed);
    ReadsKeyTextBack(gene, pub);
    CanonicalReachesChecks(c, KeyText(gene, pub), gene, ann, pub, sig, now);
    c.SignedVerifies(seed, Signed(ann));
    ChecksPass(c, gene, pub, ann, sig, now);
  }

  lemma ChecksPass<Point(!new)>(c: Curve<Point>, gene: string, pub: seq<byte>, ann: seq<byte>, sig: seq<byte>, now: int)
    requires |pub| == 38 && SoundKey(c, pub[6..]) && HonestAnnouncement(gene, ann, now)
    requires c.Verify(pub[6..], Signed(ann), sig)
    ensures CheckRecord(c, gene, pub, ann, pub, sig, now) == Accept(Record(ann, pub, sig))
  {
  }

  // ---- The announcement an honest publisher writes --------------------------------

  /** Fields k+1 to 6, empty texts left out. */
  function PresentTexts(texts: seq<seq<byte>>, k: nat): seq<(nat, Value)>
    requires k <= |texts|
    decreases |texts| - k
  {
    if k == |texts| then []
    else (if texts[k] == [] then [] else [(k + 1, Chunk(texts[k]))]) + PresentTexts(texts, k + 1)
  }

  /** `announcement`: the texts in field order, then the time. */
  function WriteAnnouncement(a: Announcement): seq<byte>
  {
    Emit(PresentTexts(a.texts, 0) + [(7, Number(a.timestamp))])
  }

  /** `out` holds exactly the non-empty texts among the first k. */
  ghost predicate HoldsTexts(out: map<nat, Value>, texts: seq<seq<byte>>, k: nat)
    requires k <= |texts|
  {
    && (forall j :: 0 <= j < k ==> (j + 1 in out <==> texts[j] != []))
    && (forall j :: 0 <= j < k && j + 1 in out ==> out[j + 1] == Chunk(texts[j]))
    && (forall j :: j in out ==> 1 <= j <= k)
  }

  lemma AdmitsText(texts: seq<seq<byte>>, k: nat, out: map<nat, Value>)
    requires |texts| == 6 && k < 6 && HoldsTexts(out, texts, k) && texts[k] != [] && IsUtf8(texts[k])
    ensures var more := out[k + 1 := Chunk(texts[k])];
            HoldsTexts(more, texts, k + 1) && Admit(ANN_SCHEMA, out, Written(k + 1, Chunk(texts[k]), 0)) == Some(more)
  {
    assert k + 1 !in out;
  }

  lemma {:induction false} CollectsTexts(texts: seq<seq<byte>>, k: nat, tail: seq<(nat, Value)>, out: map<nat, Value>)
    returns (full: map<nat, Value>)
    requires |texts| == 6 && k <= 6 && HoldsTexts(out, texts, k)
    requires forall t :: t in texts ==> IsUtf8(t)
    ensures HoldsTexts(full, texts, 6)
    ensures Collect(ANN_SCHEMA, PresentTexts(texts, k) + tail, out) == Collect(ANN_SCHEMA, tail, full)
    decreases 6 - k
  {
    if k == 6 {
      assert PresentTexts(texts, 6) + tail == tail;
      return out;
    }
    var fields := PresentTexts(texts, k) + tail;
    if texts[k] == [] {
      assert fields == PresentTexts(texts, k + 1) + tail;
      full := CollectsTexts(texts, k + 1, tail, out);
    } else {
      assert fields[0] == (k + 1, Chunk(texts[k]));
      assert fields[1..] == PresentTexts(texts, k + 1) + tail;
      AdmitsText(texts, k, out);
      full := CollectsTexts(texts, k + 1, tail, out[k + 1 := Chunk(texts[k])]);
    }
  }

  lemma {:induction false} PresentTextsWritable(texts: seq<seq<byte>>, k: nat)
    requires k <= |texts| == 6 && forall t :: t in texts ==> |t| <= 128
    ensures forall f :: f in PresentTexts(texts, k) ==> Writable(f.0, f.1)
    decreases 6 - k
  {
    if k < 6 {
      PresentTextsWritable(texts, k + 1);
    }
  }

  lemma CollectsTime(texts: seq<seq<byte>>, full: map<nat, Value>, timestamp: nat)
    requires |texts| == 6 && HoldsTexts(full, texts, 6)
    ensures var read := full[7 := Number(timestamp)];
            && Collect(ANN_SCHEMA, [(7, Number(timestamp))], full) == Some(read)
            && FieldsOf(read) == Announcement(texts, timestamp)
  {
    var read, tail := full[7 := Number(timestamp)], [(7, Number(timestamp))];
    assert 7 !in full;
    assert Admit(ANN_SCHEMA, full, Written(7, Number(timestamp), 0)) == Some(read);
    assert tail[1..] == [];
    assert FieldsOf(read).texts == texts by {
      forall k | 0 <= k < 6 ensures FieldsOf(read).texts[k] == texts[k] {
        assert FieldsOf(read).texts[k] == TextAt(read, k + 1);
      }
    }
  }

  /** Reading an announcement gives the fields it was written from. */
  lemma ReadsAnnouncementBack(a: Announcement)
    requires |a.texts| == 6 && a.timestamp < TWO_64
    requires forall t :: t in a.texts ==> IsUtf8(t) && |t| <= 128
    ensures Parse(WriteAnnouncement(a), ANN_SCHEMA).Some?
    ensures FieldsOf(Parse(WriteAnnouncement(a), ANN_SCHEMA).value) == a
  {
    var tail := [(7, Number(a.timestamp))];
    var fields, buf := PresentTexts(a.texts, 0) + tail, WriteAnnouncement(a);
    PresentTextsWritable(a.texts, 0);
    assert forall f :: f in fields ==> Writable(f.0, f.1);
    assert At(buf, 0, Emit(fields));
    ParsesEmitted(buf, 0, ANN_SCHEMA, fields, map[]);
    var full := CollectsTexts(a.texts, 0, tail, map[]);
    CollectsTime(a.texts, full, a.timestamp);
  }

  lemma {:induction false} EncodedSize(n: nat, i: nat)
    requires i <= 9 && n < Limit(i)
    ensures |Encode(n)| <= 10 - i
    decreases n
  {
    if n >= 128 {
      EncodedSize(n / 128, i + 1);
    }
  }

  lemma SmallDelimited(number: nat, payload: seq<byte>)
    requires number < 16 && |payload| < 16384
    ensures |Delimited(number, payload)| <= 3 + |payload|
  {
    assert |Tag(number, 2)| <= 1;
    assert |Encode(|payload|)| <= 2 by {
      assert |payload| >= 128 ==> Encode(|payload|) == [|payload| % 128 + 128] + Encode(|payload| / 128);
    }
  }

  /** `Emit` for any way of writing one field. */
  ghost function EmitBy(fields: seq<(nat, Value)>, one: ((nat, Value)) -> seq<byte>): seq<byte>
  {
    if fields == [] then [] else one(fields[0]) + EmitBy(fields[1..], one)
  }

  lemma {:induction false} EmitByConcat(a: seq<(nat, Value)>, b: seq<(nat, Value)>, one: ((nat, Value)) -> seq<byte>)
    ensures EmitBy(a + b, one) == EmitBy(a, one) + EmitBy(b, one)
  {
    if a == [] {
      assert a + b == b;
    } else {
      EmitByConcat(a[1..], b, one);
      assert (a + b)[0] == a[0] && (a + b)[1..] == a[1..] + b;
      Regroup(one(a[0]), EmitBy(a[1..], one), EmitBy(b, one));
    }
  }

  ghost function EmitPair(): ((nat, Value)) -> seq<byte>
  {
    (f: (nat, Value)) => EmitOne(f.0, f.1)
  }

  lemma {:induction false} EmitIsEmitBy(fields: seq<(nat, Value)>)
    ensures Emit(fields) == EmitBy(fields, EmitPair())
  {
    if fields != [] {
      EmitIsEmitBy(fields[1..]);
    }
  }

  lemma EmitConcat(a: seq<(nat, Value)>, b: seq<(nat, Value)>)
    ensures Emit(a + b) == Emit(a) + Emit(b)
  {
    EmitIsEmitBy(a);
    EmitIsEmitBy(b);
    EmitIsEmitBy(a + b);
    EmitByConcat(a, b, EmitPair());
  }

  lemma {:induction false} PresentTextsSize(texts: seq<seq<byte>>, k: nat)
    requires k <= |texts| == 6 && forall t :: t in texts ==> |t| <= 128
    ensures |Emit(PresentTexts(texts, k))| <= (6 - k) * 131
    decreases 6 - k
  {
    if k < 6 {
      PresentTextsSize(texts, k + 1);
      if texts[k] != [] {
        var first := (k + 1, Chunk(texts[k]));
        SmallDelimited(k + 1, texts[k]);
        assert PresentTexts(texts, k)[0] == first;
        assert PresentTexts(texts, k)[1..] == PresentTexts(texts, k + 1);
      } else {
        assert PresentTexts(texts, k) == PresentTexts(texts, k + 1);
      }
    }
  }

  /** Field limits keep every announcement, and so its record, far below the size limit. */
  lemma HonestRecordFits<Point(!new)>(c: Curve<Point>, seed: seq<byte>, a: Announcement)
    requires c.EncodingLaws()
    requires |a.texts| == 6 && a.timestamp < TWO_64 && forall t :: t in a.texts ==> |t| <= 128
    ensures |SignRecord(c, seed, WriteAnnouncement(a))| <= MAX_RECORD
  {
    var ann := WriteAnnouncement(a);
    var tail := [(7, Number(a.timestamp))];
    EmitConcat(PresentTexts(a.texts, 0), tail);
    PresentTextsSize(a.texts, 0);
    LimitIs64Bits();
    EncodedSize(a.timestamp, 0);
    assert Emit(tail) == EmitOne(7, Number(a.timestamp)) + Emit(tail[1..]);
    assert |Tag(7, 0)| == 1;
    assert |ann| <= 6 * 131 + 11;
    SmallDelimited(1, ann);
    SmallDelimited(2, PublisherOf(c, seed));
    SmallDelimited(3, c.Sign(seed, Signed(ann)));
  }

  /**
   * Honest publishing is complete: for every seed and every announcement whose fields
   * are within limits and in the window, the record a publisher signs and sends to its
   * own key is accepted and stored exactly as sent.
   */
  lemma HonestPublishing<Point(!new)>(c: Curve<Point>, seed: seq<byte>, a: Announcement, now: int)
    requires c.Lawful()
    requires |a.texts| == 6 && CheckFields(a) && forall t :: t in a.texts ==> IsUtf8(t)
    requires a.timestamp < TWO_64 && InWindow(a.timestamp, now)
    ensures var value := SignRecord(c, seed, WriteAnnouncement(a));
            Validate(c, KeyText(Latin(a.texts[0]), PublisherOf(c, seed)), value, now) == Accept(value)
  {
    assert forall t :: t in a.texts ==> |t| <= 128;
    ReadsAnnouncementBack(a);
    HonestRecordFits(c, seed, a);
    SignedRecordIsStored(c, seed, Latin(a.texts[0]), WriteAnnouncement(a), now);
  }
}
