/** The bytes that are hashed into a gene ID, written out. */
module HashedBytes {
  import opened Common
  import opened Radix
  import opened Layouts
  import opened GeneId

  // ---- Lengths ------------------------------------------------------------------------------

  /** A 32-bit number, most significant byte first. */
  function Four(n: nat): seq<byte>
  {
    [n / 0x100_0000 % 256, n / 0x1_0000 % 256, n / 256 % 256, n % 256]
  }

  /** A 64-bit number, most significant byte first. */
  function Eight(n: nat): seq<byte>
  {
    [n / 0x100_0000_0000_0000 % 256, n / 0x1_0000_0000_0000 % 256, n / 0x100_0000_0000 % 256, n / 0x1_0000_0000 % 256,
     n / 0x100_0000 % 256, n / 0x1_0000 % 256, n / 256 % 256, n % 256]
  }

  lemma Powers()
    ensures Pow256(0) == 1 && Pow256(1) == 256 && Pow256(2) == 0x1_0000 && Pow256(3) == 0x100_0000
    ensures Pow256(4) == 0x1_0000_0000 && Pow256(5) == 0x100_0000_0000 && Pow256(6) == 0x1_0000_0000_0000
    ensures Pow256(7) == 0x100_0000_0000_0000
  {
    assert Pow256(1) == 256 && Pow256(2) == 0x1_0000 && Pow256(3) == 0x100_0000;
    assert Pow256(4) == 0x1_0000_0000 && Pow256(5) == 0x100_0000_0000;
  }

  lemma FourBytesAre(n: nat, b: seq<byte>)
    requires b == BigEndian(n, 4)
    ensures b == Four(n)
  {
    Powers();
    BigEndianByte(n, 4, 0);
    BigEndianByte(n, 4, 1);
    BigEndianByte(n, 4, 2);
    BigEndianByte(n, 4, 3);
  }

  lemma EightBytesAre(n: nat, b: seq<byte>)
    requires b == BigEndian(n, 8)
    ensures b == Eight(n)
  {
    Powers();
    forall i | 0 <= i < 8 ensures b[i] == n / Pow256(7 - i) % 256 {
      BigEndianByte(n, 8, i);
    }
    assert b[0] == Eight(n)[0] && b[1] == Eight(n)[1] && b[2] == Eight(n)[2] && b[3] == Eight(n)[3];
    assert b[4] == Eight(n)[4] && b[5] == Eight(n)[5] && b[6] == Eight(n)[6] && b[7] == Eight(n)[7];
  }

  // ---- The ID ---------------------------------------------------------------------------------

  /** The text's characters as numbers. */
  function Ascii(s: string): seq<int>
  {
    seq(|s|, i requires 0 <= i < |s| => s[i] as int)
  }

  /** The tag, one byte for the kind, and the two parts behind their lengths, if these fit into four bytes. */
  lemma PreimageIs(f: Fidelity, p: seq<byte>, b: seq<byte>)
    ensures Preimage(f, p, b).Some? <==> |p| < 0x1_0000_0000 && |b| < 0x1_0000_0000
    ensures Preimage(f, p, b).Some? ==>
              Preimage(f, p, b).value
                == Ascii("rotifer-gene-id-v2") + [match f case Native => 1 case Wrapped => 2 case Hybrid => 3]
                   + (Four(|p|) + p) + (Four(|b|) + b)
  {
    TagIs();
    FourBytesAre(|p|, BigEndian(|p|, 4));
    FourBytesAre(|b|, BigEndian(|b|, 4));
  }

  lemma TagIs()
    ensures TAG == Ascii("rotifer-gene-id-v2")
  {
    var s := Ascii("rotifer-gene-id-v2");
    assert TAG[..6] == s[..6] by {
      assert TAG[0] == s[0] && TAG[1] == s[1] && TAG[2] == s[2] && TAG[3] == s[3] && TAG[4] == s[4] && TAG[5] == s[5];
    }
    assert TAG[6] == s[6] && TAG[7] == s[7] && TAG[8] == s[8] && TAG[9] == s[9] && TAG[10] == s[10] && TAG[11] == s[11];
    assert TAG[12] == s[12] && TAG[13] == s[13] && TAG[14] == s[14] && TAG[15] == s[15];
    assert TAG[16] == s[16] && TAG[17] == s[17];
  }

  // ---- WebAssembly modules ------------------------------------------------------------------------

  /** A module starts with 0, "asm"; the next four bytes do not count. */
  lemma HeaderIs(wasm: seq<byte>)
    ensures NativeStream(wasm).Some? ==> |wasm| >= 4 && wasm[..4] == [0] + Ascii("asm")
    ensures |wasm| >= 8 && wasm[..4] == [0] + Ascii("asm") ==> NativeStream(wasm) == SectionStream(wasm[8..])
  {
    var start := [0] + Ascii("asm");
    assert MAGIC[0] == start[0] && MAGIC[1] == start[1] && MAGIC[2] == start[2] && MAGIC[3] == start[3];
    assert MAGIC == start;
  }

  /**
   * A section whose size is written as it should be counts with its id, its length in four bytes and its
   * payload; one of id 0 does not count at all, and one too long makes the whole fail.
   */
  lemma SectionCounts(id: byte, size: seq<byte>, payload: seq<byte>, rest: seq<byte>)
    requires IsSize(size, |payload|)
    ensures var whole, later := SectionStream([id] + size + payload + rest), SectionStream(rest);
            if id == 0 then whole == later
            else if |payload| >= 0x1_0000_0000 || later.None? then whole == None
            else whole == Some(([id] + Four(|payload|) + payload) + later.value)
  {
    var w := Written(Section(id, payload), size);
    ReadsWritten(w, rest);
    FourBytesAre(|payload|, BigEndian(|payload|, 4));
    if id == 0 && SectionStream(rest).Some? {
      assert [] + SectionStream(rest).value == SectionStream(rest).value;
    }
    assert [id] + Framed(payload) == [id] + Four(|payload|) + payload;
  }

  // ---- Wrapped genes --------------------------------------------------------------------------------

  /** Path and content size behind their lengths, in four and eight bytes, then the hash of the content. */
  lemma FileIs(f: File, sha: seq<byte> -> seq<byte>)
    ensures HashedFile(f, sha) == (Four(|f.path|) + f.path) + Eight(|f.content|) + sha(f.content)
  {
    FourBytesAre(|f.path|, BigEndian(|f.path|, 4));
    EightBytesAre(|f.content|, BigEndian(|f.content|, 8));
  }

  /** The entries are the files, each once, ... */
  lemma {:induction false} EntriesAreFiles(files: Files, f: File)
    ensures f in Entries(files) <==> f.path in files && f.content == files[f.path]
    decreases |files|
  {
    if files != map[] {
      var p := Least(files.Keys);
      OneLess(files, p);
      EntriesAreFiles(files - {p}, f);
      assert Entries(files) == [File(p, files[p])] + Entries(files - {p});
    }
  }

  /** ... in order of their paths: at the first byte in which two differ the earlier one has the smaller. */
  lemma {:induction false} EntriesAscend(files: Files, i: nat, j: nat)
    requires i < j < |Entries(files)|
    ensures ComesFirst(Entries(files)[i].path, Entries(files)[j].path)
    decreases |files|
  {
    var p := Least(files.Keys);
    OneLess(files, p);
    var all, rest := Entries(files), Entries(files - {p});
    assert all == [File(p, files[p])] + rest;
    assert all[j] == rest[j - 1];
    if i > 0 {
      assert all[i] == rest[i - 1];
      EntriesAscend(files - {p}, i - 1, j - 1);
    } else {
      assert rest[j - 1] in rest;
      EntriesAreFiles(files - {p}, rest[j - 1]);
      LeastComesFirst(files, p, rest[j - 1].path);
    }
  }

  lemma LeastComesFirst(files: Files, p: seq<byte>, q: seq<byte>)
    requires IsLeast(p, files.Keys) && q in files - {p}
    ensures ComesFirst(p, q)
  {
    LexLessExactlyIf(p, q);
  }
}
