/** The byte streams hashed into a gene ID can be taken apart again. */
module GeneId {
  import opened Common
  import opened Radix

  // ---- Frames -----------------------------------------------------------------------

  const LIMIT := 0x1_0000_0000

  lemma FourBytes()
    ensures Pow256(4) == LIMIT && Pow256(8) == LIMIT * LIMIT
  {
    assert Pow256(1) == 256 && Pow256(2) == 65536 && Pow256(3) == 16777216;
    assert Pow256(4) == LIMIT;
    assert Pow256(5) == 256 * LIMIT && Pow256(6) == 65536 * LIMIT && Pow256(7) == 16777216 * LIMIT;
  }

  /** `struct.pack(">I", |s|) + s`; for s shorter than 2 ** 32. */
  function Framed(s: seq<byte>): seq<byte>
  {
    BigEndian(|s|, 4) + s
  }

  /** Where the two parts of a framed string stand. */
  lemma FrameParts(s: seq<byte>, r: seq<byte>, a: seq<byte>)
    requires |s| < LIMIT && a == Framed(s) + r
    ensures |a| >= 4 && Value(a[..4], 256) == |s| && a[4..] == s + r
  {
    assert a[..4] == BigEndian(|s|, 4);
    FourBytes();
    BigEndianRoundTrip(|s|, 4);
  }

  lemma FramedPrefix(s: seq<byte>, r: seq<byte>, t: seq<byte>, q: seq<byte>)
    requires |s| < LIMIT && |t| < LIMIT && Framed(s) + r == Framed(t) + q
    ensures s == t && r == q
  {
    var a := Framed(s) + r;
    FrameParts(s, r, a);
    FrameParts(t, q, a);
    SameSplit(s, r, t, q);
  }

  lemma SameSplit(s: seq<byte>, r: seq<byte>, t: seq<byte>, q: seq<byte>)
    requires |s| == |t| && s + r == t + q
    ensures s == t && r == q
  {
    var a := s + r;
    assert a[..|s|] == s && a[..|t|] == t && a[|s|..] == r && a[|t|..] == q;
  }

  // ---- The ID -----------------------------------------------------------------------

  datatype Fidelity = Native | Wrapped | Hybrid

  /** b"rotifer-gene-id-v2" */
  const TAG: seq<byte> :=
    [0x72, 0x6f, 0x74, 0x69, 0x66, 0x65, 0x72, 0x2d, 0x67, 0x65, 0x6e, 0x65, 0x2d, 0x69, 0x64, 0x2d, 0x76, 0x32]

  function KindByte(f: Fidelity): byte
  {
    match f case Native => 1 case Wrapped => 2 case Hybrid => 3
  }

  /** `pre` in `gene_id`; None where a length does not fit into four bytes. */
  function Preimage(f: Fidelity, projection: seq<byte>, body: seq<byte>): Option<seq<byte>>
  {
    if |projection| >= LIMIT || |body| >= LIMIT then None
    else Some(TAG + [KindByte(f)] + Framed(projection) + Framed(body))
  }

  /** The hashed bytes determine kind, projection text and body digest. */
  lemma PreimageIsUnambiguous(f: Fidelity, p: seq<byte>, b: seq<byte>, f': Fidelity, p': seq<byte>, b': seq<byte>)
    requires Preimage(f, p, b).Some? && Preimage(f, p, b) == Preimage(f', p', b')
    ensures f == f' && p == p' && b == b'
  {
    var x, y := Preimage(f, p, b).value, Preimage(f', p', b').value;
    var n := |TAG|;
    assert x[n] == KindByte(f) && y[n] == KindByte(f');
    assert x[n + 1..] == Framed(p) + Framed(b) && y[n + 1..] == Framed(p') + Framed(b');
    FramedPrefix(p, Framed(b), p', Framed(b'));
    assert Framed(b) + [] == Framed(b) && Framed(b') + [] == Framed(b');
    FramedPrefix(b, [], b', []);
  }

  // ---- WebAssembly modules ------------------------------------------------------------

  datatype Section = Section(id: byte, payload: seq<byte>)

  const CUSTOM: byte := 0

  /** `_leb128`: the value and how many bytes it took; None where the buffer ends first. */
  function Leb128(buf: seq<byte>): (r: Option<(nat, nat)>)
    ensures r.Some? ==> 0 < r.value.1 <= |buf|
  {
    if buf == [] then None
    else if buf[0] < 128 then Some((buf[0] as nat, 1))
    else
      var r := Leb128(buf[1..]);
      if r.None? then None else Some((buf[0] - 128 + 128 * r.value.0, r.value.1 + 1))
  }

  /** What is left of a number when k of its bytes, worth v, have been read. */
  function Resumed(v: nat, k: nat, r: Option<(nat, nat)>): Option<(nat, nat)>
  {
    if r.None? then None else Some((v + Shifted(r.value.0, k), k + r.value.1))
  }

  lemma ResumeNext(v: nat, k: nat, low: nat, buf: seq<byte>)
    requires buf != [] && buf[0] == 128 + low
    ensures Resumed(v, k, Leb128(buf)) == Resumed(v + Shifted(low, k), k + 1, Leb128(buf[1..]))
  {
    var r := Leb128(buf[1..]);
    if r.Some? {
      ShiftedSum(low, r.value.0, k);
    }
  }

  /** `_leb128` with its loop; on disjoint bits `result |= (b & 0x7F) << shift` is a sum. */
  method ReadLeb128(buf: seq<byte>) returns (r: Option<(nat, nat)>)
    ensures r == Leb128(buf)
  {
    var result: nat, i: nat := 0, 0;
    Start(buf);
    while i < |buf|
      invariant i <= |buf|
      invariant Leb128(buf) == Resumed(result, i, Leb128(buf[i..]))
      decreases |buf| - i
    {
      var b: nat := buf[i];
      assert buf[i..][0] == b;
      if b < 128 {
        return Some((result + Shifted(b, i), i + 1));
      }
      assert buf[i..][1..] == buf[i + 1..];
      ResumeNext(result, i, b - 128, buf[i..]);
      result, i := result + Shifted(b - 128, i), i + 1;
    }
    r := None;
  }

  lemma Start(buf: seq<byte>)
    ensures Leb128(buf) == Resumed(0, 0, Leb128(buf[0..]))
  {
    assert buf[0..] == buf;
    if Leb128(buf).Some? {
      ShiftedByNothing(Leb128(buf).value.0);
    }
  }

  /** One section from the front: its content and the rest; None where the module is truncated. */
  function ReadSection(buf: seq<byte>): (r: Option<(Section, seq<byte>)>)
    requires buf != []
    ensures r.Some? ==> |r.value.1| < |buf|
  {
    var size := Leb128(buf[1..]);
    if size.None? then None
    else
      var (n, k) := size.value;
      var rest := buf[1 + k..];
      if |rest| < n then None else Some((Section(buf[0], rest[..n]), rest[n..]))
  }

  /** What one section adds to the hash. */
  function Hashed(s: Section): seq<byte>
  {
    if s.id == CUSTOM then [] else [s.id] + Framed(s.payload)
  }

  /** The bytes hashed for the sections in buf; None where it raises. */
  function SectionStream(buf: seq<byte>): Option<seq<byte>>
    decreases |buf|
  {
    if buf == [] then Some([])
    else
      var s := ReadSection(buf);
      if s.None? || (s.value.0.id != CUSTOM && |s.value.0.payload| >= LIMIT) then None
      else
        var rest := SectionStream(s.value.1);
        if rest.None? then None else Some(Hashed(s.value.0) + rest.value)
  }

  const MAGIC: seq<byte> := [0, 0x61, 0x73, 0x6d]

  /** The bytes `native_body_digest` hashes: magic is checked, the version is skipped. */
  function NativeStream(wasm: seq<byte>): Option<seq<byte>>
  {
    if |wasm| < 4 || wasm[..4] != MAGIC then None
    else if |wasm| <= 8 then Some([])
    else SectionStream(wasm[8..])
  }

  /** The head of one turn of the loop: the section at i and where the next one starts. */
  method SectionAt(wasm: seq<byte>, i: nat) returns (s: Option<(Section, nat)>)
    requires i < |wasm|
    ensures s.Some? ==> i < s.value.1 <= |wasm|
    ensures ReadSection(wasm[i..]) == if s.None? then None else Some((s.value.0, wasm[s.value.1..]))
  {
    var buf := wasm[i..];
    var size := ReadLeb128(buf[1..]);
    if size.None? {
      return None;
    }
    var (n, k) := size.value;
    var rest := buf[1 + k..];
    if |rest| < n {
      return None;
    }
    assert rest[n..] == wasm[i + 1 + k + n..];
    return Some((Section(buf[0], rest[..n]), i + 1 + k + n));
  }

  /** The stream of what follows, after what has been hashed already. */
  function Continued(out: seq<byte>, rest: Option<seq<byte>>): Option<seq<byte>>
  {
    if rest.None? then None else Some(out + rest.value)
  }

  lemma StreamNext(buf: seq<byte>, s: Section, rest: seq<byte>)
    requires buf != [] && ReadSection(buf) == Some((s, rest)) && (s.id == CUSTOM || |s.payload| < LIMIT)
    ensures SectionStream(buf) == Continued(Hashed(s), SectionStream(rest))
  {
  }

  lemma ContinueMore(out: seq<byte>, more: seq<byte>, r: Option<seq<byte>>)
    ensures Continued(out, Continued(more, r)) == Continued(out + more, r)
  {
    if r.Some? {
      Regroup(out, more, r.value);
    }
  }

  lemma ContinueNext(out: seq<byte>, buf: seq<byte>, s: Section, rest: seq<byte>)
    requires buf != [] && ReadSection(buf) == Some((s, rest)) && (s.id == CUSTOM || |s.payload| < LIMIT)
    ensures Continued(out, SectionStream(buf)) == Continued(out + Hashed(s), SectionStream(rest))
  {
    StreamNext(buf, s, rest);
    ContinueMore(out, Hashed(s), SectionStream(rest));
  }

  /** `native_body_digest` with its loop, up to the hash function. */
  method HashSections(wasm: seq<byte>) returns (h: Option<seq<byte>>)
    ensures h == NativeStream(wasm)
  {
    if |wasm| < 4 || wasm[..4] != MAGIC {
      return None;
    }
    if |wasm| <= 8 {
      return Some([]);
    }
    var i: nat := 8;
    var out: seq<byte> := [];
    Nothing(SectionStream(wasm[8..]));
    while i < |wasm|
      invariant 8 <= i <= |wasm|
      invariant SectionStream(wasm[8..]) == Continued(out, SectionStream(wasm[i..]))
      decreases |wasm| - i
    {
      var s := SectionAt(wasm, i);
      if s.None? || (s.value.0.id != CUSTOM && |s.value.0.payload| >= LIMIT) {
        return None;
      }
      ContinueNext(out, wasm[i..], s.value.0, wasm[s.value.1..]);
      out, i := out + Hashed(s.value.0), s.value.1;
    }
    assert wasm[i..] == [] && out + [] == out;
    h := Some(out);
  }

  lemma Nothing(r: Option<seq<byte>>)
    ensures Continued([], r) == r
  {
    if r.Some? {
      assert [] + r.value == r.value;
    }
  }

  // ---- What the stream says ---------------------------------------------------------------

  /** All sections in buf; None where it is truncated. */
  function Sections(buf: seq<byte>): Option<seq<Section>>
    decreases |buf|
  {
    if buf == [] then Some([])
    else
      var s := ReadSection(buf);
      if s.None? then None
      else
        var rest := Sections(s.value.1);
        if rest.None? then None else Some([s.value.0] + rest.value)
  }

  /** The sections that count, in order. */
  function Kept(ss: seq<Section>): seq<Section>
  {
    if ss == [] then [] else (if ss[0].id == CUSTOM then [] else [ss[0]]) + Kept(ss[1..])
  }

  function Stream(ss: seq<Section>): seq<byte>
  {
    if ss == [] then [] else Hashed(ss[0]) + Stream(ss[1..])
  }

  /** The length of every section that counts fits into four bytes. */
  ghost predicate Countable(ss: seq<Section>)
  {
    forall i :: 0 <= i < |ss| && ss[i].id != CUSTOM ==> |ss[i].payload| < LIMIT
  }

  lemma KeptStream(s: Section, ss: seq<Section>)
    ensures Stream(Kept([s] + ss)) == Hashed(s) + Stream(Kept(ss))
  {
    assert ([s] + ss)[1..] == ss;
    if s.id == CUSTOM {
      assert [] + Kept(ss) == Kept(ss) && [] + Stream(Kept(ss)) == Stream(Kept(ss));
    } else {
      assert ([s] + Kept(ss))[1..] == Kept(ss);
    }
  }

  lemma CountableOneMore(s: Section, ss: seq<Section>)
    ensures Countable([s] + ss) <==> (s.id == CUSTOM || |s.payload| < LIMIT) && Countable(ss)
  {
    var more := [s] + ss;
    if Countable(more) {
      assert more[0] == s;
      forall i | 0 <= i < |ss| && ss[i].id != CUSTOM ensures |ss[i].payload| < LIMIT {
        assert more[i + 1] == ss[i];
      }
    }
  }

  /** What is hashed for any bytes at all: it raises exactly if they are truncated or a length does not fit. */
  lemma {:induction false} StreamOfSections(buf: seq<byte>)
    ensures SectionStream(buf).Some? <==> Sections(buf).Some? && Countable(Sections(buf).value)
    ensures SectionStream(buf).Some? ==> SectionStream(buf).value == Stream(Kept(Sections(buf).value))
    decreases |buf|
  {
    if buf != [] && ReadSection(buf).Some? {
      var (s, rest) := ReadSection(buf).value;
      StreamOfSections(rest);
      if Sections(rest).Some? {
        KeptStream(s, Sections(rest).value);
        CountableOneMore(s, Sections(rest).value);
      }
    }
  }

  lemma {:induction false} KeptIsCountable(ss: seq<Section>)
    requires Countable(ss)
    ensures AllCount(Kept(ss))
  {
    if ss != [] {
      KeptIsCountable(ss[1..]);
    }
  }

  ghost predicate AllCount(ss: seq<Section>)
  {
    forall i :: 0 <= i < |ss| ==> ss[i].id != CUSTOM && |ss[i].payload| < LIMIT
  }

  lemma HashedThen(s: Section, r: seq<byte>, a: seq<byte>)
    requires s.id != CUSTOM && a == Hashed(s) + r
    ensures a[0] == s.id && a[1..] == Framed(s.payload) + r
  {
    Behead(s.id, Framed(s.payload), r, a);
  }

  lemma Behead(id: byte, f: seq<byte>, r: seq<byte>, a: seq<byte>)
    requires a == [id] + f + r
    ensures a[0] == id && a[1..] == f + r
  {
    Regroup([id], f, r);
  }

  lemma SectionPrefix(s: Section, r: seq<byte>, t: Section, q: seq<byte>, a: seq<byte>)
    requires s.id != CUSTOM && t.id != CUSTOM && |s.payload| < LIMIT && |t.payload| < LIMIT
    requires a == Hashed(s) + r && a == Hashed(t) + q
    ensures s == t && r == q
  {
    HashedThen(s, r, a);
    HashedThen(t, q, a);
    FramedPrefix(s.payload, r, t.payload, q);
  }

  lemma FirstsAgree(ss: seq<Section>, ts: seq<Section>)
    requires AllCount(ss) && AllCount(ts) && ss != [] && ts != [] && Stream(ss) == Stream(ts)
    ensures ss[0] == ts[0] && Stream(ss[1..]) == Stream(ts[1..])
  {
    SectionPrefix(ss[0], Stream(ss[1..]), ts[0], Stream(ts[1..]), Stream(ss));
  }

  /** The stream determines the list of sections. */
  lemma {:induction false} StreamIsUnambiguous(ss: seq<Section>, ts: seq<Section>)
    requires AllCount(ss) && AllCount(ts) && Stream(ss) == Stream(ts)
    ensures ss == ts
  {
    NotEmpty(ss);
    NotEmpty(ts);
    if ss != [] {
      FirstsAgree(ss, ts);
      StreamIsUnambiguous(ss[1..], ts[1..]);
      assert ss == [ss[0]] + ss[1..] && ts == [ts[0]] + ts[1..];
    }
  }

  lemma {:induction false} NotEmpty(ss: seq<Section>)
    requires AllCount(ss)
    ensures ss == [] <==> Stream(ss) == []
  {
    if ss != [] {
      assert Hashed(ss[0]) != [];
    }
  }

  /** The sections of a module that count. */
  function KeptSections(wasm: seq<byte>): Option<seq<Section>>
  {
    if |wasm| <= 8 then Some([])
    else
      var ss := Sections(wasm[8..]);
      if ss.None? then None else Some(Kept(ss.value))
  }

  lemma StreamOfModule(wasm: seq<byte>)
    requires NativeStream(wasm).Some?
    ensures KeptSections(wasm).Some? && AllCount(KeptSections(wasm).value)
    ensures NativeStream(wasm) == Some(Stream(KeptSections(wasm).value))
  {
    if |wasm| > 8 {
      StreamOfSections(wasm[8..]);
      KeptIsCountable(Sections(wasm[8..]).value);
    }
  }

  /** Two inputs are hashed alike exactly if the same sections are kept of them. */
  lemma SameStreamExactlyIfSameSections(a: seq<byte>, b: seq<byte>)
    requires NativeStream(a).Some? && NativeStream(b).Some?
    ensures NativeStream(a) == NativeStream(b) <==> KeptSections(a) == KeptSections(b)
  {
    StreamOfModule(a);
    StreamOfModule(b);
    var ss, ts := KeptSections(a).value, KeptSections(b).value;
    if Stream(ss) == Stream(ts) {
      StreamIsUnambiguous(ss, ts);
    }
  }

  // ---- Modules as a compiler writes them ---------------------------------------------------

  /** A section with its size in any LEB128 form, padded or not. */
  datatype Written = Written(section: Section, size: seq<byte>)

  ghost predicate IsSize(size: seq<byte>, n: nat)
  {
    Leb128(size) == Some((n, |size|))
  }

  ghost predicate WellWritten(ws: seq<Written>)
  {
    forall i :: 0 <= i < |ws| ==> IsSize(ws[i].size, |ws[i].section.payload|)
  }

  function Bytes(ws: seq<Written>): seq<byte>
  {
    if ws == [] then [] else [ws[0].section.id] + ws[0].size + ws[0].section.payload + Bytes(ws[1..])
  }

  function SectionsOf(ws: seq<Written>): seq<Section>
  {
    if ws == [] then [] else [ws[0].section] + SectionsOf(ws[1..])
  }

  lemma {:induction false} LebPrefix(size: seq<byte>, n: nat, r: seq<byte>)
    requires IsSize(size, n)
    ensures Leb128(size + r) == Some((n, |size|))
  {
    var t := size + r;
    if size[0] >= 128 {
      assert t[1..] == size[1..] + r;
      LebPrefix(size[1..], Leb128(size[1..]).value.0, r);
    }
  }

  /** What a size was read from is a spelling of it. */
  lemma {:induction false} LebIsSpelled(buf: seq<byte>)
    requires Leb128(buf).Some?
    ensures var (n, k) := Leb128(buf).value; IsSize(buf[..k], n)
  {
    var k := Leb128(buf).value.1;
    if buf[0] >= 128 {
      LebIsSpelled(buf[1..]);
      assert buf[..k][1..] == buf[1..][..k - 1];
    }
  }

  lemma ReadsWritten(w: Written, r: seq<byte>)
    requires IsSize(w.size, |w.section.payload|)
    ensures ReadSection([w.section.id] + w.size + w.section.payload + r) == Some((w.section, r))
  {
    var buf := [w.section.id] + w.size + w.section.payload + r;
    assert buf[1..] == w.size + (w.section.payload + r);
    LebPrefix(w.size, |w.section.payload|, w.section.payload + r);
    assert buf[1 + |w.size|..] == w.section.payload + r;
  }

  /** The sections are read back however their sizes are written. */
  lemma {:induction false} ReadsModule(ws: seq<Written>)
    requires WellWritten(ws)
    ensures Sections(Bytes(ws)) == Some(SectionsOf(ws))
  {
    if ws != [] {
      ReadsWritten(ws[0], Bytes(ws[1..]));
      ReadsModule(ws[1..]);
    }
  }

  /** Whatever its custom sections and however its sizes are written, only the other sections are hashed. */
  lemma OnlyKeptSectionsCount(ws: seq<Written>)
    requires WellWritten(ws) && Countable(SectionsOf(ws))
    ensures SectionStream(Bytes(ws)) == Some(Stream(Kept(SectionsOf(ws))))
  {
    ReadsModule(ws);
    StreamOfSections(Bytes(ws));
  }

  lemma SectionIsWritten(buf: seq<byte>) returns (w: Written)
    requires buf != [] && ReadSection(buf).Some?
    ensures w.section == ReadSection(buf).value.0 && IsSize(w.size, |w.section.payload|)
    ensures buf == [w.section.id] + w.size + w.section.payload + ReadSection(buf).value.1
  {
    var (n, k) := Leb128(buf[1..]).value;
    LebIsSpelled(buf[1..]);
    w := Written(ReadSection(buf).value.0, buf[1..][..k]);
    assert buf[1..] == buf[1..][..k] + buf[1 + k..];
  }

  /** Every input that is read to its end is written in this way. */
  lemma {:induction false} ReadIsWritten(buf: seq<byte>) returns (ws: seq<Written>)
    requires Sections(buf).Some?
    ensures WellWritten(ws) && Bytes(ws) == buf && SectionsOf(ws) == Sections(buf).value
    decreases |buf|
  {
    ws := [];
    if buf != [] {
      var w := SectionIsWritten(buf);
      var rest := ReadIsWritten(ReadSection(buf).value.1);
      ws := [w] + rest;
      assert ws[1..] == rest;
    }
  }

  /** The digest exists exactly for the modules a compiler may write. */
  lemma AcceptedExactlyIfWritten(buf: seq<byte>)
    ensures SectionStream(buf).Some?
       <==> exists ws :: WellWritten(ws) && Countable(SectionsOf(ws)) && Bytes(ws) == buf
  {
    StreamOfSections(buf);
    if SectionStream(buf).Some? {
      var ws := ReadIsWritten(buf);
      assert WellWritten(ws);
    }
    if ws :| WellWritten(ws) && Countable(SectionsOf(ws)) && Bytes(ws) == buf {
      OnlyKeptSectionsCount(ws);
    }
  }

  // ---- Wrapped genes ------------------------------------------------------------------------

  /** A source file: its path in UTF-8 and its content. */
  datatype File = File(path: seq<byte>, content: seq<byte>)

  /** `struct.pack(">I", len(p)) + p + struct.pack(">Q", len(content)) + sha256(content)`. */
  function HashedFile(f: File, sha: seq<byte> -> seq<byte>): seq<byte>
  {
    Framed(f.path) + BigEndian(|f.content|, 8) + sha(f.content)
  }

  function HashedFiles(fs: seq<File>, sha: seq<byte> -> seq<byte>): seq<byte>
  {
    if fs == [] then [] else HashedFile(fs[0], sha) + HashedFiles(fs[1..], sha)
  }

  type Files = map<seq<byte>, seq<byte>>

  ghost predicate IsLeast(p: seq<byte>, paths: set<seq<byte>>)
  {
    p in paths && forall q :: q in paths ==> q == p || LexLess(p, q)
  }

  lemma {:induction false} HasLeast(paths: set<seq<byte>>)
    requires paths != {}
    ensures exists p :: IsLeast(p, paths)
  {
    var x: seq<byte> :| x in paths;
    var rest := paths - {x};
    assert forall q: seq<byte> :: q in paths ==> q == x || q in rest;
    if rest == {} {
      assert IsLeast(x, paths);
    } else {
      HasLeast(rest);
      var p: seq<byte> :| IsLeast(p, rest);
      LexTotal(x, p);
      if LexLess(x, p) {
        forall q: seq<byte> | q in rest ensures LexLess(x, q) {
          if q != p {
            LexTransitive(x, p, q);
          }
        }
        assert IsLeast(x, paths);
      } else {
        assert IsLeast(p, paths);
      }
    }
  }

  ghost function Least(paths: set<seq<byte>>): (p: seq<byte>)
    requires paths != {}
    ensures IsLeast(p, paths)
  {
    HasLeast(paths);
    var p: seq<byte> :| IsLeast(p, paths);
    p
  }

  /** `sorted(files.items(), key=...)`: the items in order of their paths in UTF-8. */
  ghost function Entries(files: Files): (fs: seq<File>)
    ensures |fs| == |files|
    decreases |files|
  {
    if files == map[] then [] else
      var p := Least(files.Keys);
      var rest := files - {p};
      assert |rest| < |files| by { OneLess(files, p); }
      OneLess(files, p);
      [File(p, files[p])] + Entries(rest)
  }

  lemma OneLess(files: Files, p: seq<byte>)
    requires p in files
    ensures |files - {p}| == |files| - 1
  {
    var rest := files - {p};
    assert rest.Keys == files.Keys - {p};
    assert |rest| == |rest.Keys| && |files| == |files.Keys|;
  }

  ghost predicate Fits(files: Files)
  {
    |files| < LIMIT && forall p :: p in files ==> |p| < LIMIT && |files[p]| < LIMIT * LIMIT
  }

  /** The bytes `wrapped_body_digest` hashes; None where a number does not fit into its field. */
  ghost function WrappedStream(files: Files, sha: seq<byte> -> seq<byte>): Option<seq<byte>>
  {
    if !Fits(files) then None else Some(BigEndian(|files|, 4) + HashedFiles(Entries(files), sha))
  }

  lemma HashNext(entries: seq<File>, i: nat, h: seq<byte>, sha: seq<byte> -> seq<byte>)
    requires i < |entries|
    ensures h + HashedFiles(entries[i..], sha)
         == (h + HashedFile(entries[i], sha)) + HashedFiles(entries[i + 1..], sha)
  {
    assert entries[i..][1..] == entries[i + 1..];
    Regroup(h, HashedFile(entries[i], sha), HashedFiles(entries[i + 1..], sha));
  }

  /** The loop over the sorted items. */
  method HashFiles(entries: seq<File>, sha: seq<byte> -> seq<byte>) returns (h: seq<byte>)
    ensures h == BigEndian(|entries|, 4) + HashedFiles(entries, sha)
  {
    h := BigEndian(|entries|, 4);
    assert entries[0..] == entries;
    for i := 0 to |entries|
      invariant h + HashedFiles(entries[i..], sha) == BigEndian(|entries|, 4) + HashedFiles(entries, sha)
    {
      HashNext(entries, i, h, sha);
      h := h + HashedFile(entries[i], sha);
    }
    assert h + [] == h;
  }

  /** The same path, size and content hash. */
  ghost predicate SameFile(f: File, g: File, sha: seq<byte> -> seq<byte>)
  {
    f.path == g.path && |f.content| == |g.content| && sha(f.content) == sha(g.content)
  }

  /** The same paths, with the same sizes and content hashes. */
  ghost predicate SameFiles(a: Files, b: Files, sha: seq<byte> -> seq<byte>)
  {
    a.Keys == b.Keys && forall p :: p in a ==> |a[p]| == |b[p]| && sha(a[p]) == sha(b[p])
  }

  lemma HashedFilePrefix(f: File, r: seq<byte>, g: File, q: seq<byte>, sha: seq<byte> -> seq<byte>)
    requires |f.path| < LIMIT && |g.path| < LIMIT && |f.content| < LIMIT * LIMIT && |g.content| < LIMIT * LIMIT
    requires |sha(f.content)| == 32 && |sha(g.content)| == 32
    requires HashedFile(f, sha) + r == HashedFile(g, sha) + q
    ensures SameFile(f, g, sha) && r == q
  {
    var a := BigEndian(|f.content|, 8) + sha(f.content) + r;
    var b := BigEndian(|g.content|, 8) + sha(g.content) + q;
    assert HashedFile(f, sha) + r == Framed(f.path) + a && HashedFile(g, sha) + q == Framed(g.path) + b;
    FramedPrefix(f.path, a, g.path, b);
    FourBytes();
    BigEndianRoundTrip(|f.content|, 8);
    BigEndianRoundTrip(|g.content|, 8);
    assert a[..8] == BigEndian(|f.content|, 8) && b[..8] == BigEndian(|g.content|, 8);
    assert a[8..40] == sha(f.content) && b[8..40] == sha(g.content);
    assert a[40..] == r && b[40..] == q;
  }

  /** Sameness of files, with one path of each taken off. */
  lemma SameFilesNext(a: Files, p: seq<byte>, b: Files, sha: seq<byte> -> seq<byte>)
    requires p in a && p in b
    ensures SameFiles(a, b, sha) <==> SameFile(File(p, a[p]), File(p, b[p]), sha) && SameFiles(a - {p}, b - {p}, sha)
  {
    var a', b' := a - {p}, b - {p};
    assert a'.Keys == a.Keys - {p} && b'.Keys == b.Keys - {p};
    assert a.Keys == a'.Keys + {p} && b.Keys == b'.Keys + {p};
    assert forall q :: q in a ==> q == p || (q in a' && a'[q] == a[q]);
    assert forall q :: q in b ==> q == p || (q in b' && b'[q] == b[q]);
  }

  lemma FirstEntry(files: Files, sha: seq<byte> -> seq<byte>) returns (p: seq<byte>)
    requires files != map[] && (forall p :: p in files ==> |p| < LIMIT && |files[p]| < LIMIT * LIMIT)
    ensures p == Least(files.Keys) && p in files && |files - {p}| == |files| - 1
    ensures HashedFiles(Entries(files), sha)
         == HashedFile(File(p, files[p]), sha) + HashedFiles(Entries(files - {p}), sha)
  {
    p := Least(files.Keys);
    OneLess(files, p);
    assert Entries(files)[1..] == Entries(files - {p});
  }

  lemma {:induction false} EntriesAreUnambiguous(a: Files, b: Files, sha: seq<byte> -> seq<byte>)
    requires |a| == |b| && Fits(a) && Fits(b) && forall c :: |sha(c)| == 32
    ensures HashedFiles(Entries(a), sha) == HashedFiles(Entries(b), sha) <==> SameFiles(a, b, sha)
    decreases |a|
  {
    if a == map[] {
      assert b == map[];
    } else {
      assert b != map[];
      var p := FirstEntry(a, sha);
      var q := FirstEntry(b, sha);
      EntriesAreUnambiguous(a - {p}, b - {q}, sha);
      var f, g := File(p, a[p]), File(q, b[q]);
      if HashedFiles(Entries(a), sha) == HashedFiles(Entries(b), sha) {
        HashedFilePrefix(f, HashedFiles(Entries(a - {p}), sha), g, HashedFiles(Entries(b - {q}), sha), sha);
        SameFilesNext(a, p, b, sha);
      }
      if SameFiles(a, b, sha) {
        SameFilesNext(a, p, b, sha);
      }
    }
  }

  /** Wrapped genes are hashed alike exactly if they have the same files, up to a collision of content hashes. */
  lemma WrappedStreamIsUnambiguous(a: Files, b: Files, sha: seq<byte> -> seq<byte>)
    requires WrappedStream(a, sha).Some? && WrappedStream(b, sha).Some? && forall c :: |sha(c)| == 32
    ensures WrappedStream(a, sha) == WrappedStream(b, sha) <==> SameFiles(a, b, sha)
  {
    var x, y := WrappedStream(a, sha).value, WrappedStream(b, sha).value;
    assert x[..4] == BigEndian(|a|, 4) && y[..4] == BigEndian(|b|, 4);
    assert x[4..] == HashedFiles(Entries(a), sha) && y[4..] == HashedFiles(Entries(b), sha);
    FourBytes();
    BigEndianRoundTrip(|a|, 4);
    BigEndianRoundTrip(|b|, 4);
    if |a| == |b| {
      EntriesAreUnambiguous(a, b, sha);
    } else {
      assert |a.Keys| != |b.Keys|;
    }
  }
}
