/** Which record of a key is kept. */
module Replication {
  import opened Common
  import opened Protobuf
  import opened Ed25519
  import opened GeneRecord
  import opened GeneRecordLaws
  import opened Acceptance

  /** The signed time of a record, and its signature. */
  datatype Rank = Rank(timestamp: nat, signature: seq<byte>)

  /** `timestamp_of` and field 3, for the well-formed records a node compares. */
  function RankOf(value: seq<byte>): Rank
  {
    var outer := match Parse(value, REC_SCHEMA) case None => map[] case Some(m) => m;
    var fields := match Parse(TextAt(outer, 1), ANN_SCHEMA) case None => map[] case Some(m) => m;
    Rank(FieldsOf(fields).timestamp, TextAt(outer, 3))
  }

  predicate Beats(a: Rank, b: Rank)
  {
    a.timestamp > b.timestamp || (a.timestamp == b.timestamp && LexLess(a.signature, b.signature))
  }

  /** `replaces`: the later time wins, and the smaller signature at equal times. */
  predicate Replaces(incoming: seq<byte>, stored: seq<byte>)
  {
    Beats(RankOf(incoming), RankOf(stored))
  }

  /** `replaces` is a strict order on records, total on their ranks. */
  lemma ReplacesIsStrictTotalOrder(a: seq<byte>, b: seq<byte>, c: seq<byte>)
    ensures !Replaces(a, a)
    ensures Replaces(a, b) && Replaces(b, c) ==> Replaces(a, c)
    ensures RankOf(a) == RankOf(b) <==> !Replaces(a, b) && !Replaces(b, a)
  {
    BeatsTotal(RankOf(a), RankOf(b));
    BeatsTotal(RankOf(a), RankOf(a));
    BeatsTransitive(RankOf(a), RankOf(b), RankOf(c));
  }

  lemma BeatsTotal(a: Rank, b: Rank)
    ensures a == b <==> !Beats(a, b) && !Beats(b, a)
  {
    LexTotal(a.signature, b.signature);
    LexIrreflexive(a.signature);
  }

  lemma BeatsTransitive(a: Rank, b: Rank, c: Rank)
    ensures Beats(a, b) && Beats(b, c) ==> Beats(a, c)
  {
    if LexLess(a.signature, b.signature) && LexLess(b.signature, c.signature) {
      LexTransitive(a.signature, b.signature, c.signature);
    }
  }

  // ---- A node -------------------------------------------------------------------

  /** A value as it arrives, and the node's clock then. */
  datatype Delivery = Delivery(value: seq<byte>, now: int)

  function Verdicts<Point(!new,==)>(c: Curve<Point>, key: string, d: Delivery): Verdict
  {
    Validate(c, key, d.value, d.now)
  }

  /** What is stored under `key` after one delivery; `raw` compares received instead of canonical bytes. */
  function Receive<Point(!new,==)>(c: Curve<Point>, key: string, raw: bool,
                                   stored: Option<seq<byte>>, d: Delivery): Option<seq<byte>>
  {
    match Verdicts(c, key, d)
    case Reject(_, _, _) => stored
    case Accept(s) =>
      if stored.None? || Replaces(if raw then d.value else s, stored.value) then Some(s) else stored
  }

  function Run<Point(!new,==)>(c: Curve<Point>, key: string, raw: bool, ds: seq<Delivery>): Option<seq<byte>>
  {
    if ds == [] then None else Receive(c, key, raw, Run(c, key, raw, ds[..|ds| - 1]), ds[|ds| - 1])
  }

  /** The canonical records a history delivers. */
  ghost function Records<Point(!new)>(c: Curve<Point>, key: string, ds: seq<Delivery>): set<seq<byte>>
  {
    set d | d in ds && Verdicts(c, key, d).Accept? :: Verdicts(c, key, d).stored
  }

  lemma RankIsCanonical<Point(!new)>(c: Curve<Point>, key: string, d: Delivery)
    requires Verdicts(c, key, d).Accept?
    ensures RankOf(Verdicts(c, key, d).stored) == RankOf(d.value)
  {
    var gene, ann, pub, sig := Accepted(c, key, d.value, d.now);
    assert |ann| + |pub| + |sig| <= |Record(ann, pub, sig)|;
    ParsesRecord(ann, pub, sig);
  }

  /** `s` is one of the records, and none of them replaces it. */
  ghost predicate Best(s: seq<byte>, records: set<seq<byte>>)
  {
    s in records && forall r :: r in records ==> !Replaces(r, s)
  }

  lemma RecordsSnoc<Point(!new)>(c: Curve<Point>, key: string, init: seq<Delivery>, d: Delivery)
    ensures Records(c, key, init + [d])
         == Records(c, key, init) + (if Verdicts(c, key, d).Accept? then {Verdicts(c, key, d).stored} else {})
  {
    assert forall x :: x in init + [d] <==> x in init || x == d;
  }

  /** After any history the node holds a best record, or nothing if none was accepted. */
  lemma {:induction false} RunHoldsBest<Point(!new)>(c: Curve<Point>, key: string, raw: bool, ds: seq<Delivery>)
    ensures match Run(c, key, raw, ds)
            case None => Records(c, key, ds) == {}
            case Some(s) => Best(s, Records(c, key, ds))
  {
    if ds != [] {
      var init, d := ds[..|ds| - 1], ds[|ds| - 1];
      RunHoldsBest(c, key, raw, init);
      assert ds == init + [d];
      RecordsSnoc(c, key, init, d);
      if Verdicts(c, key, d).Accept? {
        RankIsCanonical(c, key, d);
        StepKeepsBest(Run(c, key, raw, init), Records(c, key, init), Verdicts(c, key, d).stored);
      }
    }
  }

  lemma StepKeepsBest(stored: Option<seq<byte>>, records: set<seq<byte>>, s: seq<byte>)
    requires match stored case None => records == {} case Some(t) => Best(t, records)
    ensures Best(if stored.None? || Replaces(s, stored.value) then s else stored.value, records + {s})
  {
    ReplacesIsStrictTotalOrder(s, s, s);
    if stored.Some? && Replaces(s, stored.value) {
      forall r | r in records ensures !Replaces(r, s) {
        ReplacesIsStrictTotalOrder(r, s, stored.value);
      }
    }
  }

  /**
   * Replicas converge: whatever the order, the repeats, the rejected values mixed in and
   * the clocks, two nodes that accepted the same records for a key hold records of the
   * same time and signature, whether they compare received or canonical bytes. They hold
   * the same bytes when no two of those records share both.
   */
  lemma ReplicasConverge<Point(!new)>(c: Curve<Point>, key: string, ds: seq<Delivery>, es: seq<Delivery>,
                                      rawD: bool, rawE: bool)
    requires Records(c, key, ds) == Records(c, key, es)
    ensures var a, b := Run(c, key, rawD, ds), Run(c, key, rawE, es);
            && a.Some? == b.Some? == (Records(c, key, ds) != {})
            && (a.Some? ==> RankOf(a.value) == RankOf(b.value))
            && ((forall r, s ::
                   r in Records(c, key, ds) && s in Records(c, key, ds) && RankOf(r) == RankOf(s) ==> r == s)
                ==> a == b)
  {
    RunHoldsBest(c, key, rawD, ds);
    RunHoldsBest(c, key, rawE, es);
    var a, b := Run(c, key, rawD, ds), Run(c, key, rawE, es);
    if a.Some? {
      ReplacesIsStrictTotalOrder(a.value, b.value, a.value);
    }
  }

  // ---- Newest first -----------------------------------------------------------------

  /** The value is a record with this signature, over an announcement of this time. */
  ghost predicate ShowsBy(value: seq<byte>, time: nat, sig: seq<byte>, ann: seq<byte>, pub: seq<byte>,
                          fields: map<nat, Value>)
  {
    Carries(value, ann, pub, sig) && Announces(ann, fields) && time == TimeIn(fields)
  }

  ghost predicate Shows(value: seq<byte>, time: nat, sig: seq<byte>)
  {
    exists ann: seq<byte>, pub: seq<byte>, fields: map<nat, Value> :: ShowsBy(value, time, sig, ann, pub, fields)
  }

  lemma ShowsRank(value: seq<byte>, time: nat, sig: seq<byte>)
    requires Shows(value, time, sig)
    ensures RankOf(value) == Rank(time, sig)
  {
    var ann, pub, fields :| ShowsBy(value, time, sig, ann, pub, fields);
    TimeIs(fields, 0);
  }

  /** Every accepted value shows a time and a signature. */
  lemma AcceptedShows<Point(!new)>(c: Curve<Point>, key: string, d: Delivery)
    requires Verdicts(c, key, d).Accept?
    ensures Shows(d.value, RankOf(d.value).timestamp, RankOf(d.value).signature)
  {
    AcceptedExactlyIf(c, key, d.value, d.now);
    var p :| Genuine(c, key, d.value, d.now, p);
    var fields :| Announces(p.ann, fields) && WithinLimits(fields);
    assert ShowsBy(d.value, TimeIn(fields), p.sig, p.ann, p.pub, fields);
    ShowsRank(d.value, TimeIn(fields), p.sig);
  }

  /** The later time replaces the earlier; at equal times the signature that comes first byte by byte. */
  lemma ReplacesExactlyIf(incoming: seq<byte>, stored: seq<byte>, ti: nat, si: seq<byte>, ts: nat, ss: seq<byte>)
    requires Shows(incoming, ti, si) && Shows(stored, ts, ss)
    ensures Replaces(incoming, stored) <==> ti > ts || (ti == ts && ComesFirst(si, ss))
  {
    ShowsRank(incoming, ti, si);
    ShowsRank(stored, ts, ss);
    LexLessExactlyIf(si, ss);
  }

  /** A node's record comes from an accepted delivery, so it shows a time and a signature. */
  lemma StoredShows<Point(!new)>(c: Curve<Point>, key: string, raw: bool, ds: seq<Delivery>)
    requires Run(c, key, raw, ds).Some?
    ensures var s := Run(c, key, raw, ds).value; Shows(s, RankOf(s).timestamp, RankOf(s).signature)
  {
    RunHoldsBest(c, key, raw, ds);
    var s := Run(c, key, raw, ds).value;
    var d :| d in ds && Verdicts(c, key, d).Accept? && Verdicts(c, key, d).stored == s;
    StoredFormIsFixed(c, key, d.value, d.now);
    AcceptedShows(c, key, Delivery(s, d.now));
  }

  /**
   * Whatever a node has received in whatever order, its record is no older than any accepted one, and
   * no accepted record of the same time has a signature that comes first.
   */
  lemma NewestIsKept<Point(!new)>(c: Curve<Point>, key: string, raw: bool, ds: seq<Delivery>, d: Delivery,
                                  time: nat, sig: seq<byte>)
    requires d in ds && Verdicts(c, key, d).Accept? && Shows(d.value, time, sig)
    ensures Run(c, key, raw, ds).Some?
    ensures exists kept: nat, keptSig: seq<byte> ::
              && Shows(Run(c, key, raw, ds).value, kept, keptSig)
              && (time < kept || (time == kept && !ComesFirst(sig, keptSig)))
  {
    RunHoldsBest(c, key, raw, ds);
    assert Verdicts(c, key, d).stored in Records(c, key, ds);
    var r, s := Verdicts(c, key, d).stored, Run(c, key, raw, ds).value;
    StoredShows(c, key, raw, ds);
    RankIsCanonical(c, key, d);
    ShowsRank(d.value, time, sig);
    StoredFormIsFixed(c, key, d.value, d.now);
    AcceptedShows(c, key, Delivery(r, d.now));
    ReplacesExactlyIf(r, s, time, sig, RankOf(s).timestamp, RankOf(s).signature);
  }
}
