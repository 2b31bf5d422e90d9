/** What a parsed manifest says, read off the bytes (version 4) or off the decoded sections (version 5), field by field
    (crates/steam/src/depot/manifest.rs:101-369). */
module ManifestLayout {
  import opened Base
  import opened LittleEndian
  import opened NullStrings
  import opened Chunks
  import opened Manifests
  import opened ManifestSections
  import Repeated

  // ---------------------------------------------------------------- version 4: records

  /** A chunk of 40 bytes at `o`: 20 of id, then checksum, offset, size and compressed size. */
  predicate ChunkAt(b: Bytes, o: nat, c: Chunk)
  {
    && o + 40 <= |b|
    && c.id == Some(b[o..o + 20]) && c.checksum == Some(U32At(b, o + 20)) && c.offset == Some(U64At(b, o + 24))
    && c.size == Some(U32At(b, o + 32)) && c.compressedSize == Some(U32At(b, o + 36))
  }

  lemma ChunkStarts()
    ensures Start([4, 8, 4, 4], 0) == 0 && Start([4, 8, 4, 4], 1) == 4 && Start([4, 8, 4, 4], 2) == 12
    ensures Start([4, 8, 4, 4], 3) == 16 && Sum([4, 8, 4, 4]) == 20
  {
    assert Sum([4]) == 4 && Sum([4, 4]) == 4 + Sum([4]) && Sum([8, 4, 4]) == 8 + Sum([4, 4]);
  }

  lemma ChunkValues(b: Bytes, v: seq<nat>)
    requires |b| >= 20 && ValuesAt(b, [4, 8, 4, 4], v)
    ensures |v| == 4 && v[0] == U32At(b, 0) && v[1] == U64At(b, 4) && v[2] == U32At(b, 12) && v[3] == U32At(b, 16)
  {
    ChunkStarts();
    NumberAt(b, [4, 8, 4, 4], v, 0, 0);
    NumberAt(b, [4, 8, 4, 4], v, 1, 4);
    NumberAt(b, [4, 8, 4, 4], v, 2, 12);
    NumberAt(b, [4, 8, 4, 4], v, 3, 16);
  }

  lemma OneChunkLayout(b: Bytes)
    ensures OneChunk(b).Some? <==> |b| >= 40
    ensures |b| >= 40 ==> ChunkAt(b, 0, OneChunk(b).value.0) && OneChunk(b).value.1 == b[40..]
  {
    if |b| >= 20 {
      ChunkStarts();
      FieldsSplit(b[20..], CHUNK, 20);
      if |b| >= 40 {
        var (v, rest) := ReadFields(b[20..], CHUNK).value;
        ReadValues(b[20..], CHUNK, v, rest);
        ChunkValues(b[20..], v);
        assert b[20..][20..] == b[40..] && b[..20] == b[0..20];
      }
    }
  }

  lemma ChunkShift(b: Bytes, k: nat, o: nat, c: Chunk)
    requires k <= |b| && ChunkAt(b[k..], o, c)
    ensures ChunkAt(b, k + o, c)
  {
    assert b[k..][o..o + 20] == b[k + o..k + o + 20];
  }

  /** Chunk after chunk from the front of `b`. */
  ghost predicate ChunksAt(b: Bytes, chunks: seq<Chunk>)
  {
    forall k: nat | k < |chunks| :: ChunkAt(b, 40 * k, chunks[k])
  }

  lemma ChunksCons(b: Bytes, first: Chunk, chunks: seq<Chunk>)
    requires ChunkAt(b, 0, first) && ChunksAt(b[40..], chunks)
    ensures ChunksAt(b, [first] + chunks)
  {
    var all := [first] + chunks;
    forall k: nat | k < |all|
      ensures ChunkAt(b, 40 * k, all[k])
    {
      if k > 0 {
        ChunkShift(b, 40, 40 * (k - 1), chunks[k - 1]);
      }
    }
  }

  lemma {:induction false} ChunkListLayout(b: Bytes, n: nat)
    ensures ChunkList(b, n).Some? <==> |b| >= 40 * n
    ensures |b| >= 40 * n ==> ChunkList(b, n).value.1 == b[40 * n..] && ChunksAt(b, ChunkList(b, n).value.0)
    decreases n
  {
    if n > 0 {
      OneChunkLayout(b);
      if |b| >= 40 {
        ChunkListLayout(b[40..], n - 1);
        if |b| >= 40 * n {
          LaterRest(b, n);
          ChunksCons(b, OneChunk(b).value.0, ChunkList(b[40..], n - 1).value.0);
        }
      }
    }
  }

  lemma LaterRest(b: Bytes, n: nat)
    requires n > 0 && |b| >= 40 * n
    ensures b[40..][40 * (n - 1)..] == b[40 * n..]
  {
  }

  /** A record whose name ends at `z`: size, flags, content hash, a name hash nobody looks at, the chunk count, the
      chunks. */
  ghost predicate RecordAt(c: TextCodec, b: Bytes, z: nat, f: File)
  {
    && ZeroAt(b, z) && z + 57 <= |b| && z + 57 + 40 * U32At(b, z + 53) <= |b|
    && f.name == Some(c.lossy(b[..z]))
    && f.size == Some(U64At(b, z + 1)) && f.flags == Some(U32At(b, z + 9)) && f.sha == Some(b[z + 13..z + 33])
    && f.linkTarget.None?
    && |f.chunks| == U32At(b, z + 53)
    && forall k: nat | k < |f.chunks| :: ChunkAt(b, z + 57 + 40 * k, f.chunks[k])
  }

  lemma FixedLayout(b: Bytes, z: nat)
    requires z + 57 <= |b|
    ensures Fixed(b[z + 1..]) ==
            Some((U64At(b, z + 1), U32At(b, z + 9), b[z + 13..z + 33], U32At(b, z + 53), b[z + 57..]))
  {
    var t := b[z + 1..];
    Numbers(b, z + 1);
    Numbers(b, z + 9);
    Numbers(b, z + 53);
    assert t[..8] == b[z + 1..z + 9] && t[8..12] == b[z + 9..z + 13] && t[12..32] == b[z + 13..z + 33];
    assert t[52..56] == b[z + 53..z + 57] && t[56..] == b[z + 57..];
  }

  /** A record parses exactly if its name ends and the bytes it announces are there. */
  lemma RecordLayout(c: TextCodec, b: Bytes)
    ensures match Record(c, b)
            case None => forall z: nat | ZeroAt(b, z) ::
                z + 57 > |b| || z + 57 + 40 * U32At(b, z + 53) > |b|
            case Some((f, rest)) =>
              exists z: nat :: RecordAt(c, b, z, f) && rest == b[z + 57 + 40 * |f.chunks|..]
  {
    FirstZeroIs(b);
    if FirstZero(b).Some? {
      var z := FirstZero(b).value;
      forall y: nat | ZeroAt(b, y)
        ensures y == z
      {
        ZeroAtOnce(b, y, z);
      }
      if z + 57 <= |b| {
        RecordFields(c, b, z);
      }
    }
  }

  /** Where the records' bytes end. */
  function RecordEnd(b: Bytes, z: nat): nat
    requires z + 57 <= |b|
  {
    z + 57 + 40 * U32At(b, z + 53)
  }

  lemma RecordFields(c: TextCodec, b: Bytes, z: nat)
    requires FirstZero(b) == Some(z) && ZeroAt(b, z) && z + 57 <= |b|
    ensures if RecordEnd(b, z) > |b| then Record(c, b).None?
            else
              && Record(c, b).Some? && RecordAt(c, b, z, Record(c, b).value.0)
              && Record(c, b).value.1 == b[RecordEnd(b, z)..]
  {
    var n := U32At(b, z + 53);
    ChunkListLayout(b[z + 57..], n);
    RecordIs(c, b, z, n);
    if RecordEnd(b, z) <= |b| {
      var (chunks, after) := ChunkList(b[z + 57..], n).value;
      RecordThere(c, b, z, n, chunks, after);
    }
  }

  /** The entry with those chunks. */
  function Entry(c: TextCodec, b: Bytes, z: nat, chunks: seq<Chunk>): File
    requires z + 57 <= |b|
  {
    File(Some(c.lossy(b[..z])), Some(U64At(b, z + 1)), Some(U32At(b, z + 9)), Some(b[z + 13..z + 33]), chunks, None)
  }

  lemma RecordThere(c: TextCodec, b: Bytes, z: nat, n: nat, chunks: seq<Chunk>, after: Bytes)
    requires ZeroAt(b, z) && z + 57 <= |b| && n == U32At(b, z + 53) && RecordEnd(b, z) <= |b| && |chunks| == n
    requires after == b[z + 57..][40 * n..] && ChunksAt(b[z + 57..], chunks)
    ensures RecordAt(c, b, z, Entry(c, b, z, chunks)) && after == b[RecordEnd(b, z)..]
  {
    ChunksShift(b, z + 57, n, chunks);
  }

  lemma RecordIs(c: TextCodec, b: Bytes, z: nat, n: nat)
    requires FirstZero(b) == Some(z) && z + 57 <= |b| && n == U32At(b, z + 53)
    ensures var r := ChunkList(b[z + 57..], n);
            Record(c, b) == if r.None? then None else Some((Entry(c, b, z, r.value.0), r.value.1))
  {
    FixedLayout(b, z);
  }

  lemma ChunksShift(b: Bytes, o: nat, n: nat, chunks: seq<Chunk>)
    requires o <= |b| && |chunks| == n && ChunksAt(b[o..], chunks)
    ensures forall k: nat | k < n :: ChunkAt(b, o + 40 * k, chunks[k])
  {
    forall k: nat | k < n
      ensures ChunkAt(b, o + 40 * k, chunks[k])
    {
      ChunkShift(b, o, 40 * k, chunks[k]);
    }
  }

  // ---------------------------------------------------------------- version 4: the manifest

  lemma OriginLayout(b: Bytes)
    requires |b| >= 24
    ensures var v := Origin(b).value.0;
            v[0] == U32At(b, 0) && v[1] == U32At(b, 4) && v[2] == U32At(b, 8) && v[3] == U64At(b, 12) &&
                v[4] == U32At(b, 20)
  {
    var (v, rest) := Origin(b).value;
    ReadValues(b, ORIGIN, v, rest);
    NumberAt(b, ORIGIN, v, 0, 0);
    NumberAt(b, ORIGIN, v, 1, 4);
    NumberAt(b, ORIGIN, v, 2, 8);
    NumberAt(b, ORIGIN, v, 3, 12);
    NumberAt(b, ORIGIN, v, 4, 20);
  }

  lemma SizesLayout(b: Bytes)
    requires |b| >= 24
    ensures var v := Sizes(b).value.0;
            v[0] == U32At(b, 0) && v[1] == U64At(b, 4) && v[2] == U64At(b, 12) && v[3] == U32At(b, 20)
  {
    var (v, rest) := Sizes(b).value;
    ReadValues(b, SIZES, v, rest);
    NumberAt(b, SIZES, v, 0, 0);
    NumberAt(b, SIZES, v, 1, 4);
    NumberAt(b, SIZES, v, 2, 12);
    NumberAt(b, SIZES, v, 3, 20);
  }

  lemma CountsLayout(b: Bytes)
    requires |b| >= 20
    ensures var v := Counts(b).value.0; v[0] == U32At(b, 0) && v[1] == U32At(b, 4)
  {
    var (v, rest) := Counts(b).value;
    ReadValues(b, COUNTS, v, rest);
    NumberAt(b, COUNTS, v, 0, 0);
    NumberAt(b, COUNTS, v, 1, 4);
  }

  /** What the 68 bytes of header say of the manifest. */
  predicate HeaderSays(b: Bytes, m: Manifest)
    requires |b| >= 68
  {
    && m.depot == Some(U32At(b, 8)) && m.id == Some(U64At(b, 12)) && m.created == Some(U32At(b, 20))
    && (m.namesEncrypted <==> U32At(b, 24) != 0)
    && m.uncompressed == Some(U64At(b, 28)) && m.compressed == Some(U64At(b, 36))
  }

  lemma HeaderLayout(b: Bytes, m: Manifest)
    requires |b| >= 68
    ensures var h := ReadHeader(b).value.0;
            && h.declared == U32At(b, 52)
            && (m == Headed(h, m.files) <==> HeaderSays(b, m))
  {
    OriginLayout(b);
    SizesLayout(b[24..]);
    CountsLayout(b[24..][24..]);
  }

  /** `cuts` splits the front of `b` into the records of the files; only the last one reaches the declared size. */
  ghost predicate Laid(c: TextCodec, b: Bytes, declared: nat, files: seq<File>, cuts: seq<nat>)
  {
    && |cuts| == |files| + 1 && cuts[0] == 0 && declared <= cuts[|files|] <= |b|
    && forall i: nat | i < |files| :: cuts[i] < declared && Lies(c, b, files[i], cuts[i], cuts[i + 1])
  }

  ghost predicate Lies(c: TextCodec, b: Bytes, f: File, start: nat, end: nat)
  {
    start <= |b| && exists z: nat :: RecordAt(c, b[start..], z, f) && end == start + z + 57 + 40 * |f.chunks|
  }

  lemma LiesIs(c: TextCodec, b: Bytes, f: File, start: nat, end: nat)
    ensures Repeated.Between(FileRecord(c), b, f, start, end) <==> Lies(c, b, f, start, end)
  {
    var p := FileRecord(c);
    if start <= |b| {
      assert p(b[start..]) == Record(c, b[start..]);
      if end <= |b| && Record(c, b[start..]) == Some((f, b[end..])) {
        var z := ParsedLies(c, b[start..], f, b[end..]);
      }
      if Lies(c, b, f, start, end) {
        LyingIsBetween(c, b, f, start, end);
      }
    }
  }

  lemma LyingIsBetween(c: TextCodec, b: Bytes, f: File, start: nat, end: nat)
    requires Lies(c, b, f, start, end)
    ensures start < end <= |b| && Record(c, b[start..]) == Some((f, b[end..]))
  {
    var z: nat :| RecordAt(c, b[start..], z, f) && end == start + z + 57 + 40 * |f.chunks|;
    LyingParses(c, b[start..], f, z);
    assert b[start..][z + 57 + 40 * |f.chunks|..] == b[end..];
  }

  lemma ParsedLies(c: TextCodec, b: Bytes, f: File, rest: Bytes) returns (z: nat)
    requires Record(c, b) == Some((f, rest))
    ensures RecordAt(c, b, z, f) && |b| - |rest| == z + 57 + 40 * |f.chunks|
  {
    RecordLayout(c, b);
    z :| RecordAt(c, b, z, f) && rest == b[z + 57 + 40 * |f.chunks|..];
  }

  lemma LyingParses(c: TextCodec, b: Bytes, f: File, z: nat)
    requires RecordAt(c, b, z, f)
    ensures Record(c, b) == Some((f, b[z + 57 + 40 * |f.chunks|..]))
  {
    FirstZeroIs(b);
    ZeroAtOnce(b, FirstZero(b).value, z);
    RecordFields(c, b, z);
    SameRecord(c, b, z, Record(c, b).value.0, z, f);
  }

  lemma SameRecord(c: TextCodec, b: Bytes, y: nat, g: File, z: nat, f: File)
    requires RecordAt(c, b, y, g) && RecordAt(c, b, z, f)
    ensures y == z && g == f
  {
    ZeroAtOnce(b, y, z);
    forall k: nat | k < |f.chunks|
      ensures g.chunks[k] == f.chunks[k]
    {
      assert ChunkAt(b, z + 57 + 40 * k, f.chunks[k]) && ChunkAt(b, z + 57 + 40 * k, g.chunks[k]);
    }
  }

  lemma LaidIs(c: TextCodec, b: Bytes, declared: nat, files: seq<File>, cuts: seq<nat>)
    ensures Repeated.Splits(FileRecord(c), b, 0, declared, files, cuts) <==> Laid(c, b, declared, files, cuts)
  {
    if |cuts| == |files| + 1 {
      forall i: nat | i < |files|
        ensures Repeated.Between(FileRecord(c), b, files[i], cuts[i], cuts[i + 1]) <==>
                Lies(c, b, files[i], cuts[i], cuts[i + 1])
      {
        LiesIs(c, b, files[i], cuts[i], cuts[i + 1]);
      }
    }
  }

  /** Data that starts with the version 4 magic parses to `m` exactly if the header says so and the files lie behind
      it. */
  lemma V4InFields(d: Decoders, data: Bytes, m: Manifest)
    requires |data| >= 4 && U32At(data, 0) == 0x1634_9781
    ensures ParseSpec(d, data) == Ok(m) <==>
            && |data| >= 68 && U32At(data, 4) == 4 && HeaderSays(data, m)
            && exists cuts :: Laid(d.text, data[68..], U32At(data, 52), m.files, cuts)
  {
    FirstNumbers(data);
    V4Exact(d.text, data, m);
    if |data| >= 68 {
      HeaderLayout(data, m);
      V4Files(d.text, data[68..], U32At(data, 52), m.files);
    }
  }

  lemma FirstNumbers(data: Bytes)
    requires |data| >= 4
    ensures UnLe(data[..4]) == U32At(data, 0)
    ensures |data| >= 8 ==> UnLe(data[4..8]) == U32At(data, 4)
  {
    Numbers(data, 0);
    Numbers(data, 4);
    assert data[..4] == data[0..4];
  }

  lemma V4Files(c: TextCodec, b: Bytes, declared: nat, files: seq<File>)
    ensures (exists cuts :: Repeated.Splits(FileRecord(c), b, 0, declared, files, cuts)) <==>
            exists cuts :: Laid(c, b, declared, files, cuts)
  {
    forall cuts
      ensures Repeated.Splits(FileRecord(c), b, 0, declared, files, cuts) <==> Laid(c, b, declared, files, cuts)
    {
      LaidIs(c, b, declared, files, cuts);
    }
  }

  /** Which error it is otherwise. */
  lemma V4Errors(d: Decoders, data: Bytes)
    requires |data| < 4 || U32At(data, 0) == 0x1634_9781
    ensures ParseSpec(d, data).Err? ==>
              ParseSpec(d, data).error ==
              if |data| >= 8 && U32At(data, 4) != 4 then InvalidMagic(U32At(data, 4)) else MissingSection
  {
    if |data| >= 4 {
      FirstNumbers(data);
    }
  }

  // ---------------------------------------------------------------- version 5: sections

  /** A section is a magic, a length and that many bytes; the list ends with the end marker. */
  predicate SectionsLie(data: Bytes, ss: seq<Section>, rest: Bytes)
  {
    if ss == [] then |data| >= 4 && U32At(data, 0) == 0x32C4_15AB && rest == data[4..]
    else
      && |data| >= 8 && U32At(data, 0) == ss[0].magic && U32At(data, 4) == |ss[0].body|
      && |data| >= 8 + |ss[0].body| && data[8..8 + |ss[0].body|] == ss[0].body
      && SectionsLie(data[8 + |ss[0].body|..], ss[1..], rest)
  }

  lemma {:induction false} SectionsLieIs(data: Bytes, ss: seq<Section>, rest: Bytes)
    requires forall s | s in ss :: s.magic < U32 && |s.body| < U32
    ensures SectionsLie(data, ss, rest) <==> data == SectionsBytes(ss, rest)
  {
    if ss == [] {
      EndLies(data, rest);
    } else {
      var s, n := ss[0], |ss[0].body|;
      assert s in ss;
      FirstLies(data, s, SectionsBytes(ss[1..], rest));
      if |data| >= 8 + n {
        SectionsLieIs(data[8 + n..], ss[1..], rest);
      }
    }
  }

  lemma NumberIs(b: Bytes, n: nat)
    requires n < U32 && |b| >= 4
    ensures U32At(b, 0) == n <==> b[..4] == Le(n, 4)
  {
    Widths();
    Numbers(b, 0);
    assert b[..4] == b[0..4];
    UnLeLe(n, 4);
    LeUnLe(b[..4]);
  }

  lemma EndLies(data: Bytes, rest: Bytes)
    ensures |data| >= 4 && U32At(data, 0) == 0x32C4_15AB && rest == data[4..] <==>
            data == Le(END_OF_MANIFEST, 4) + rest
  {
    Halves(Le(END_OF_MANIFEST, 4), rest);
    if |data| >= 4 {
      Join(data, 4);
      NumberIs(data, END_OF_MANIFEST);
    }
  }

  lemma FirstLies(data: Bytes, s: Section, more: Bytes)
    requires s.magic < U32 && |s.body| < U32
    ensures data == Le(s.magic, 4) + (Le(|s.body|, 4) + (s.body + more)) <==>
            && |data| >= 8 + |s.body| && U32At(data, 0) == s.magic && U32At(data, 4) == |s.body|
            && data[8..8 + |s.body|] == s.body && data[8 + |s.body|..] == more
  {
    var n := |s.body|;
    if |data| >= 8 + n {
      NumberIs(data, s.magic);
      NumberIs(data[4..], n);
      assert U32At(data[4..], 0) == U32At(data, 4);
      Pieces(data, Le(s.magic, 4), Le(n, 4), s.body, more);
    }
  }

  lemma Pieces(data: Bytes, a: Bytes, b: Bytes, c: Bytes, d: Bytes)
    requires |a| == |b| == 4 && |data| >= 8 + |c|
    ensures data == a + (b + (c + d)) <==>
            data[..4] == a && data[4..][..4] == b && data[8..8 + |c|] == c && data[8 + |c|..] == d
  {
    assert data == data[..4] + (data[4..][..4] + (data[8..8 + |c|] + data[8 + |c|..]));
  }

  // ---------------------------------------------------------------- version 5: the manifest

  /** Section `i` is the last with that magic. */
  predicate LastAt(ss: seq<Section>, magic: nat, i: nat)
  {
    i < |ss| && ss[i].magic == magic && forall j | i < j < |ss| :: ss[j].magic != magic
  }

  lemma {:induction false} LastOfIs(ss: seq<Section>, magic: nat)
    ensures match LastOf(ss, magic)
            case None => forall i: nat :: !LastAt(ss, magic, i)
            case Some(body) => exists i: nat :: LastAt(ss, magic, i) && ss[i].body == body
  {
    if ss != [] && ss[|ss| - 1].magic != magic {
      var front := ss[..|ss| - 1];
      LastOfIs(front, magic);
      assert forall i: nat :: LastAt(ss, magic, i) ==> LastAt(front, magic, i);
      if LastOf(front, magic).Some? {
        var i: nat :| LastAt(front, magic, i) && front[i].body == LastOf(front, magic).value;
        assert LastAt(ss, magic, i);
      }
    } else if ss != [] {
      assert LastAt(ss, magic, |ss| - 1);
    }
  }

  lemma LastAtOnce(ss: seq<Section>, magic: nat, i: nat, j: nat)
    requires LastAt(ss, magic, i) && LastAt(ss, magic, j)
    ensures i == j
  {
  }

  /** Every section is a payload, a metadata or a signature section, and decodes as such. */
  ghost predicate AllDecode(d: Decoders, ss: seq<Section>)
  {
    forall i | 0 <= i < |ss| ::
      || (ss[i].magic == 0x71F6_17D0 && d.payload(ss[i].body).Some?)
      || (ss[i].magic == 0x1F48_12BE && d.metadata(ss[i].body).Some?)
      || (ss[i].magic == 0x1B81_B817 && d.signature(ss[i].body))
  }

  /** A hash of 20 bytes is kept, any other dropped. */
  predicate KeepsHash(raw: Option<Bytes>, kept: Option<Bytes>)
  {
    kept == if raw.Some? && |raw.value| == 20 then raw else None
  }

  predicate ChunkSays(raw: RawChunk, c: Chunk)
  {
    && KeepsHash(raw.sha, c.id) && c.checksum == raw.crc && c.offset == raw.offset
    && c.size == raw.original && c.compressedSize == raw.compressed
  }

  ghost predicate FileSays(raw: RawFile, f: File)
  {
    && f.name == raw.filename && f.size == raw.size && f.flags == raw.flags && KeepsHash(raw.shaContent, f.sha)
    && (f.linkTarget.Some? <==> raw.linkTarget.Some? && raw.linkTarget.value != "")
    && (f.linkTarget.Some? ==> f.linkTarget == raw.linkTarget)
    && |f.chunks| == |raw.chunks| && forall k | 0 <= k < |f.chunks| :: ChunkSays(raw.chunks[k], f.chunks[k])
  }

  /** The manifest says what the decoded payload and metadata say, entry by entry and field by field. */
  ghost predicate Says(files: seq<RawFile>, q: Metadata, m: Manifest)
  {
    && m.depot == q.depot && m.id == q.id && m.created == q.created
    && (m.namesEncrypted <==> q.namesEncrypted == Some(true))
    && m.uncompressed == q.original && m.compressed == q.compressed
    && |m.files| == |files| && forall i | 0 <= i < |files| :: FileSays(files[i], m.files[i])
  }

  lemma FileSaysOnce(raw: RawFile, f: File)
    ensures FileSays(raw, f) <==> f == FileOfRaw(raw)
  {
    var g := FileOfRaw(raw);
    assert FileSays(raw, g);
    if FileSays(raw, f) {
      forall k | 0 <= k < |f.chunks|
        ensures f.chunks[k] == g.chunks[k]
      {
        assert ChunkSays(raw.chunks[k], f.chunks[k]) && ChunkSays(raw.chunks[k], g.chunks[k]);
      }
    }
  }

  lemma SaysIs(files: seq<RawFile>, q: Metadata, m: Manifest)
    ensures Says(files, q, m) <==> m == Build(files, q)
  {
    forall i | 0 <= i < |files| && i < |m.files|
      ensures FileSays(files[i], m.files[i]) <==> m.files[i] == FileOfRaw(files[i])
    {
      FileSaysOnce(files[i], m.files[i]);
    }
    forall i | 0 <= i < |files|
      ensures FileSays(files[i], Build(files, q).files[i])
    {
      FileSaysOnce(files[i], FileOfRaw(files[i]));
    }
  }

  lemma AllDecodeIs(d: Decoders, ss: seq<Section>)
    requires forall s | s in ss :: |s.body| < U32
    ensures AllDecode(d, ss) <==> forall s | s in ss :: Readable(d, s)
  {
    assert forall i | 0 <= i < |ss| :: ss[i] in ss;
  }

  /** Section `i` is the last payload, section `j` the last metadata, and `m` says what they decode to. */
  ghost predicate Means(d: Decoders, ss: seq<Section>, i: nat, j: nat, m: Manifest)
  {
    && LastAt(ss, 0x71F6_17D0, i) && LastAt(ss, 0x1F48_12BE, j)
    && d.payload(ss[i].body).Some? && d.metadata(ss[j].body).Some?
    && Says(d.payload(ss[i].body).value, d.metadata(ss[j].body).value, m)
  }

  lemma MeansIs(d: Decoders, ss: seq<Section>, m: Manifest)
    ensures MakeUp(d, ss, m) <==> exists i: nat, j: nat :: Means(d, ss, i, j, m)
  {
    LastOfIs(ss, PAYLOAD_V5);
    LastOfIs(ss, METADATA);
    if MakeUp(d, ss, m) {
      var i: nat :| LastAt(ss, PAYLOAD_V5, i) && ss[i].body == LastOf(ss, PAYLOAD_V5).value;
      var j: nat :| LastAt(ss, METADATA, j) && ss[j].body == LastOf(ss, METADATA).value;
      SaysIs(d.payload(ss[i].body).value, d.metadata(ss[j].body).value, m);
      assert Means(d, ss, i, j, m);
    }
    if i: nat, j: nat :| Means(d, ss, i, j, m) {
      var x: nat :| LastAt(ss, PAYLOAD_V5, x) && ss[x].body == LastOf(ss, PAYLOAD_V5).value;
      var y: nat :| LastAt(ss, METADATA, y) && ss[y].body == LastOf(ss, METADATA).value;
      LastAtOnce(ss, PAYLOAD_V5, i, x);
      LastAtOnce(ss, METADATA, j, y);
      SaysIs(d.payload(ss[i].body).value, d.metadata(ss[j].body).value, m);
    }
  }

  /** Data without the version 4 magic parses to `m` exactly if it is a list of sections that decode, up to the end
      marker, and `m` says, field by field, what the last payload and the last metadata among them decode to. */
  lemma V5InFields(d: Decoders, data: Bytes, m: Manifest)
    requires |data| >= 4 && U32At(data, 0) != 0x1634_9781
    ensures ParseSpec(d, data) == Ok(m) <==>
            exists ss, rest, i: nat, j: nat ::
              SectionsLie(data, ss, rest) && AllDecode(d, ss) && Means(d, ss, i, j, m)
  {
    FirstNumbers(data);
    V5Exact(d, data, m);
    if ParseSpec(d, data) == Ok(m) {
      var ss, rest :| SectionList(d, data, ss, rest) && MakeUp(d, ss, m);
      forall s | s in ss ensures Readable(d, s) && s.magic < U32 && |s.body| < U32 {
        assert Readable(d, s);
      }
      SectionsLieIs(data, ss, rest);
      AllDecodeIs(d, ss);
      MeansIs(d, ss, m);
      var i: nat, j: nat :| Means(d, ss, i, j, m);
    }
    if ss, rest, i: nat, j: nat :| SectionsLie(data, ss, rest) && AllDecode(d, ss) && Means(d, ss, i, j, m) {
      LyingFits(data, ss, rest);
      SectionsLieIs(data, ss, rest);
      AllDecodeIs(d, ss);
      MeansIs(d, ss, m);
      assert SectionList(d, data, ss, rest);
    }
  }

  lemma {:induction false} LyingFits(data: Bytes, ss: seq<Section>, rest: Bytes)
    requires SectionsLie(data, ss, rest)
    ensures forall s | s in ss :: s.magic < U32 && |s.body| < U32
  {
    if ss != [] {
      LyingFits(data[8 + |ss[0].body|..], ss[1..], rest);
      assert ss == [ss[0]] + ss[1..];
    }
  }

  /** One turn of the section loop, and which error it is when there is one: an unknown magic before a complete section
      is named, everything else is a missing section. */
  lemma SectionStep(d: Decoders, b: Bytes, payload: Option<seq<RawFile>>, metadata: Option<Metadata>)
    ensures var r := SectionsFrom(d, b, payload, metadata);
            if |b| < 4 then r == Err(MissingSection)
            else if U32At(b, 0) == 0x32C4_15AB then r.Ok? <==> payload.Some? && metadata.Some?
            else if |b| < 8 || |b| < 8 + U32At(b, 4) then r == Err(MissingSection)
            else
              var body, rest := b[8..8 + U32At(b, 4)], b[8 + U32At(b, 4)..];
              if U32At(b, 0) == 0x71F6_17D0 then
                r == if d.payload(body).None? then Err(MissingSection)
                     else SectionsFrom(d, rest, d.payload(body), metadata)
              else if U32At(b, 0) == 0x1F48_12BE then
                r == if d.metadata(body).None? then Err(MissingSection)
                     else SectionsFrom(d, rest, payload, d.metadata(body))
              else if U32At(b, 0) == 0x1B81_B817 then
                r == if !d.signature(body) then Err(MissingSection) else SectionsFrom(d, rest, payload, metadata)
              else r == Err(InvalidMagic(U32At(b, 0)))
    ensures |b| >= 4 && U32At(b, 0) == 0x32C4_15AB && (payload.None? || metadata.None?) ==>
              SectionsFrom(d, b, payload, metadata) == Err(MissingSection)
  {
    Numbers(b, 0);
    Numbers(b, 4);
    if |b| >= 4 {
      assert b[..4] == b[0..4];
    }
    if |b| >= 8 {
      assert b[4..][..4] == b[4..8] && b[4..][4..] == b[8..];
      if |b| >= 8 + U32At(b, 4) {
        assert b[8..][..U32At(b, 4)] == b[8..8 + U32At(b, 4)] && b[8..][U32At(b, 4)..] == b[8 + U32At(b, 4)..];
      }
    }
  }
}
