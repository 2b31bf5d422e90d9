/** Depot manifests: parsing both formats (crates/steam/src/depot/manifest.rs:101-369). */
module Manifests {
  import opened Base
  import opened LittleEndian
  import opened NullStrings
  import opened Chunks
  import opened Repeated

  datatype Manifest = Manifest(depot: Option<nat>, id: Option<nat>, created: Option<nat>, namesEncrypted: bool,
                               uncompressed: Option<nat>, compressed: Option<nat>, files: seq<File>)

  datatype ManifestError = MissingSection | InvalidMagic(magic: nat)

  const PAYLOAD_V5 := 0x71F6_17D0
  const METADATA := 0x1F48_12BE
  const SIGNATURE := 0x1B81_B817
  const END_OF_MANIFEST := 0x32C4_15AB
  const V4 := 0x1634_9781

  // ---------------------------------------------------------------- version 4: one record

  datatype Header = Header(magic: nat, version: nat, depot: nat, id: nat, created: nat,
                           encrypted: nat, uncompressed: nat, compressed: nat, chunkCount: nat,
                           fileCount: nat, declared: nat, crcEncrypted: nat, crcClear: nat, flags: nat)

  /** The 68 bytes of header, in three runs. */
  const ORIGIN := [4, 4, 4, 8, 4]
  const SIZES := [4, 8, 8, 4]
  const COUNTS := [4, 4, 4, 4, 4]

  /** checksum, offset, uncompressed size, compressed size */
  const CHUNK := [4, 8, 4, 4]

  function Take(b: Bytes, k: nat): Option<(Bytes, Bytes)>
  {
    if |b| < k then None else Some((b[..k], b[k..]))
  }

  function ChunkOf(sha: Bytes, v: seq<nat>): Chunk
    requires |v| == 4
  {
    Chunk(Some(sha), Some(v[0]), Some(v[1]), Some(v[3]), Some(v[2]))
  }

  function OneChunk(b: Bytes): (r: Option<(Chunk, Bytes)>)
    ensures r.Some? ==> |r.value.1| == |b| - 40
  {
    match Take(b, 20)
    case None => None
    case Some((sha, rest)) =>
      FieldsExact(rest, CHUNK);
      match ReadFields(rest, CHUNK)
      case None => None
      case Some((v, after)) =>
        ChunkWidth(v);
        assert b == sha + Fields(v, CHUNK) + after;
        Some((ChunkOf(sha, v), after))
  }

  lemma ChunkWidth(v: seq<nat>)
    requires |v| == 4
    ensures |Fields(v, CHUNK)| == 20
  {
    FieldsLength(v, CHUNK);
    assert Sum(CHUNK) == 4 + Sum([8, 4, 4]);
    assert Sum([8, 4, 4]) == 8 + Sum([4, 4]);
    assert Sum([4, 4]) == 4 + Sum([4]);
  }

  function ChunkList(b: Bytes, n: nat): (r: Option<(seq<Chunk>, Bytes)>)
    ensures r.Some? ==> |r.value.0| == n && |r.value.1| == |b| - 40 * n
    decreases n
  {
    if n == 0 then Some(([], b))
    else
      match OneChunk(b)
      case None => None
      case Some((chunk, rest)) =>
        match ChunkList(rest, n - 1)
        case None => None
        case Some((chunks, after)) =>
          Some(([chunk] + chunks, after))
  }

  lemma {:induction false} ChunkListSuffix(b: Bytes, n: nat)
    ensures var r := ChunkList(b, n); r.Some? ==> IsSuffix(r.value.1, b)
  {
    if n > 0 && OneChunk(b).Some? {
      OneChunkSuffix(b);
      var rest := OneChunk(b).value.1;
      ChunkListSuffix(rest, n - 1);
      if ChunkList(rest, n - 1).Some? {
        SuffixOfSuffix(ChunkList(rest, n - 1).value.1, rest, b);
      }
    }
  }

  lemma OneChunkSuffix(b: Bytes)
    ensures var r := OneChunk(b); r.Some? ==> IsSuffix(r.value.1, b)
  {
    if OneChunk(b).Some? {
      var (sha, rest) := Take(b, 20).value;
      FieldsExact(rest, CHUNK);
      var (v, after) := ReadFields(rest, CHUNK).value;
      assert b == (sha + Fields(v, CHUNK)) + after;
    }
  }

  /** One file record: a NUL-terminated name, size, flags, content hash, name hash, chunk count and chunks. */
  function Record(c: TextCodec, b: Bytes): (r: Option<(File, Bytes)>)
    ensures r.Some? ==> |r.value.1| + 57 <= |b|
  {
    match NullString(c, b)
    case None => None
    case Some((name, b1)) =>
      match Fixed(b1)
      case None => None
      case Some((size, flags, sha, n, b5)) =>
        match ChunkList(b5, n)
        case None => None
        case Some((chunks, after)) =>
          Some((File(Some(name), Some(size), Some(flags), Some(sha), chunks, None), after))
  }

  /** The 56 bytes between the name and the chunks. */
  function Fixed(b: Bytes): (r: Option<(nat, nat, Bytes, nat, Bytes)>)
    ensures r.Some? <==> |b| >= 56
    ensures r.Some? ==> r.value.4 == b[56..] && |r.value.2| == 20
  {
    if |b| < 56 then None
    else
      var (size, flags) := (UnLe(b[..8]), UnLe(b[8..12]));
      Some((size, flags, b[12..32], UnLe(b[52..56]), b[56..]))
  }

  lemma FileRecordAdvances(c: TextCodec)
    ensures Advances(FileRecord(c))
  {
    forall b: Bytes | Record(c, b).Some? ensures IsSuffix(Record(c, b).value.1, b) {
      var b1 := NullString(c, b).value.1;
      var fixed := Fixed(b1).value;
      NullStringSuffix(c, b);
      SuffixOfSuffix(fixed.4, b1, b);
      ChunkListSuffix(fixed.4, fixed.3);
      SuffixOfSuffix(Record(c, b).value.1, fixed.4, b);
    }
  }

  function FileRecord(c: TextCodec): (p: Parser<File>)
    ensures forall b: Bytes :: p(b) == Record(c, b)
  {
    (b: Bytes) => Record(c, b)
  }

  // ---------------------------------------------------------------- version 4: the whole manifest

  /** What the header says of the manifest. */
  function Headed(h: Header, files: seq<File>): Manifest
  {
    Manifest(Some(h.depot), Some(h.id), Some(h.created), h.encrypted != 0, Some(h.uncompressed), Some(h.compressed),
        files)
  }

  function Origin(b: Bytes): (r: Option<(seq<nat>, Bytes)>)
    ensures if |b| < 24 then r.None? else r.Some? && |r.value.0| == 5 && r.value.1 == b[24..]
  {
    assert Sum([4]) == 4 && Sum([8, 4]) == 8 + Sum([4]) && Sum([4, 8, 4]) == 4 + Sum([8, 4]);
    assert Sum([4, 4, 8, 4]) == 4 + Sum([4, 8, 4]);
    FieldsSplit(b, ORIGIN, 24);
    ReadFields(b, ORIGIN)
  }

  function Sizes(b: Bytes): (r: Option<(seq<nat>, Bytes)>)
    ensures if |b| < 24 then r.None? else r.Some? && |r.value.0| == 4 && r.value.1 == b[24..]
  {
    assert Sum([4]) == 4 && Sum([8, 4]) == 8 + Sum([4]) && Sum([8, 8, 4]) == 8 + Sum([8, 4]);
    FieldsSplit(b, SIZES, 24);
    ReadFields(b, SIZES)
  }

  function Counts(b: Bytes): (r: Option<(seq<nat>, Bytes)>)
    ensures if |b| < 20 then r.None? else r.Some? && |r.value.0| == 5 && r.value.1 == b[20..]
  {
    assert Sum([4]) == 4 && Sum([4, 4]) == 4 + Sum([4]) && Sum([4, 4, 4]) == 4 + Sum([4, 4]);
    assert Sum([4, 4, 4, 4]) == 4 + Sum([4, 4, 4]);
    FieldsSplit(b, COUNTS, 20);
    ReadFields(b, COUNTS)
  }

  lemma FieldsSplit(b: Bytes, widths: seq<nat>, n: nat)
    requires n == Sum(widths)
    ensures var r := ReadFields(b, widths);
            if |b| < n then r.None? else r.Some? && |r.value.0| == |widths| && r.value.1 == b[n..]
  {
    FieldsExact(b, widths);
    if |b| >= n {
      FieldsLength(ReadFields(b, widths).value.0, widths);
    }
  }

  function ReadHeader(data: Bytes): (r: Option<(Header, Bytes)>)
    ensures r.Some? <==> |data| >= 68
    ensures r.Some? ==> r.value.1 == data[68..]
  {
    match Origin(data)
    case None => None
    case Some((o, b1)) =>
      match Sizes(b1)
      case None => None
      case Some((s, b2)) =>
        match Counts(b2)
        case None => None
        case Some((n, rest)) =>
          assert data[24..][24..][20..] == data[68..];
          Some((Header(o[0], o[1], o[2], o[3], o[4], s[0], s[1], s[2], s[3], n[0], n[1], n[2], n[3], n[4]), rest))
  }

  function ParseV4(c: TextCodec, data: Bytes): Result<Manifest, ManifestError>
  {
    if |data| < 8 then Err(MissingSection)
    else if UnLe(data[4..8]) != 4 then Err(InvalidMagic(UnLe(data[4..8])))
    else
      match ReadHeader(data)
      case None => Err(MissingSection)
      case Some((h, rest)) =>
        match Records(FileRecord(c), rest, 0, h.declared)
        case None => Err(MissingSection)
        case Some(files) => Ok(Headed(h, files))
  }

  // ---------------------------------------------------------------- version 4: the loops

  method ReadChunk(r: Reader) returns (chunk: Option<Chunk>)
    modifies r
    ensures var spec := OneChunk(old(r.rest));
            if spec.None? then chunk.None? else chunk == Some(spec.value.0) && r.rest == spec.value.1
  {
    ghost var b := r.rest;
    var sha := r.Take(20);
    if sha.None? { return None; }
    ghost var body := r.rest;
    ReadFieldsCons(body, 4, [8, 4, 4]);
    var checksum := r.Uint(4);
    if checksum.None? { return None; }
    ReadFieldsCons(r.rest, 8, [4, 4]);
    var offset := r.Uint(8);
    if offset.None? { return None; }
    ReadFieldsCons(r.rest, 4, [4]);
    var size := r.Uint(4);
    if size.None? { return None; }
    ReadFieldsCons(r.rest, 4, []);
    var compressed := r.Uint(4);
    if compressed.None? { return None; }
    assert ReadFields(r.rest, []) == Some(([], r.rest));
    assert [checksum.value] + ([offset.value] + ([size.value] + ([compressed.value] + []))) ==
           [checksum.value, offset.value, size.value, compressed.value];
    assert CHUNK == [4] + [8, 4, 4] && [8, 4, 4] == [8] + [4, 4] && [4, 4] == [4] + [4] && [4] == [4] + [];
    chunk := Some(Chunk(sha, checksum, offset, compressed, size));
  }

  method ReadChunks(r: Reader, n: nat) returns (chunks: Option<seq<Chunk>>)
    modifies r
    ensures var spec := ChunkList(old(r.rest), n);
            if spec.None? then chunks.None? else chunks == Some(spec.value.0) && r.rest == spec.value.1
  {
    ghost var b := r.rest;
    var list: seq<Chunk> := [];
    ghost var all := ChunkList(b, n);
    assert all.Some? ==> [] + all.value.0 == all.value.0;
    for i := 0 to n
      invariant ChunkList(b, n) == match ChunkList(r.rest, n - i)
                                   case None => None
                                   case Some((more, after)) => Some((list + more, after))
    {
      ghost var more := ChunkList(r.rest, n - i);
      var chunk := ReadChunk(r);
      if chunk.None? {
        return None;
      }
      ghost var tail := ChunkList(r.rest, n - i - 1);
      assert tail.Some? ==> list + ([chunk.value] + tail.value.0) == list + [chunk.value] + tail.value.0;
      list := list + [chunk.value];
    }
    assert list + [] == list;
    chunks := Some(list);
  }

  /** `p` is the record parser. It is stated so that a proof about `p` alone sees nothing of records. */
  ghost predicate ReadsRecords(c: TextCodec, p: Parser<File>)
  {
    forall b: Bytes {:trigger Record(c, b)} :: p(b) == Record(c, b)
  }

  method ReadRecord(c: TextCodec, r: Reader, ghost p: Parser<File>) returns (file: Option<File>)
    requires ReadsRecords(c, p)
    modifies r
    ensures var spec := p(old(r.rest));
            if spec.None? then file.None? else file == Some(spec.value.0) && r.rest == spec.value.1
  {
    ghost var was := r.rest;
    assert p(was) == Record(c, was);
    var nul := FirstZero(r.rest);
    if nul.None? { return None; }
    var name := c.lossy(r.rest[..nul.value]);
    r.rest := r.rest[nul.value + 1..];
    ghost var b := r.rest;
    var size := r.Uint(8);
    if size.None? { return None; }
    assert r.rest == b[8..];
    var flags := r.Uint(4);
    if flags.None? { return None; }
    assert r.rest == b[12..];
    var sha := r.Take(20);
    if sha.None? { return None; }
    assert r.rest == b[32..];
    var nameHash := r.Take(20);
    if nameHash.None? { return None; }
    assert r.rest == b[52..];
    var n := r.Uint(4);
    if n.None? { return None; }
    assert r.rest == b[56..];
    assert b[8..][..4] == b[8..12] && b[12..][..20] == b[12..32] && b[52..][..4] == b[52..56];
    var chunks := ReadChunks(r, n.value);
    if chunks.None? { return None; }
    file := Some(File(Some(name), size, flags, sha, chunks.value, None));
    assert Record(c, was) == Some((file.value, r.rest));
  }

  /** The counter is what the reader has advanced by since the header. */
  method ReadRecords(c: TextCodec, r: Reader, declared: nat, ghost p: Parser<File>) returns (files: Option<seq<File>>)
    requires ReadsRecords(c, p)
    modifies r
    ensures files == Records(p, old(r.rest), 0, declared)
  {
    ghost var b := r.rest;
    var list: seq<File>, consumed := [], 0;
    ghost var all := Records(p, b, 0, declared);
    PrependNothing(all);
    assert Pending(p, all, list, r.rest, consumed, declared);
    while consumed < declared
      invariant consumed + |r.rest| == |b|
      invariant Pending(p, all, list, r.rest, consumed, declared)
      decreases |r.rest|
    {
      var start := |r.rest|;
      ghost var was := r.rest;
      var file := ReadRecord(c, r, p);
      if file.None? {
        return None;
      }
      RecordsStep(p, all, list, was, consumed, declared, file.value, r.rest);
      list := list + [file.value];
      consumed := consumed + (start - |r.rest|);
      assert Pending(p, all, list, r.rest, consumed, declared);
    }
    PendingDone(p, all, list, r.rest, consumed, declared);
    files := Some(list);
  }

  method ParseV4Manifest(c: TextCodec, data: Bytes) returns (r: Result<Manifest, ManifestError>)
    ensures r == ParseV4(c, data)
  {
    if |data| < 8 {
      return Err(MissingSection);
    }
    var version := UnLe(data[4..8]);
    if version != 4 {
      return Err(InvalidMagic(version));
    }
    var header := ReadHeader(data);
    if header.None? {
      return Err(MissingSection);
    }
    var (h, rest) := header.value;
    var reader := new Reader(rest);
    var files := ReadRecords(c, reader, h.declared, FileRecord(c));
    r := if files.None? then Err(MissingSection) else Ok(Headed(h, files.value));
  }

  // ---------------------------------------------------------------- version 4: what is accepted

  /** A version 4 manifest is accepted exactly when its header is complete and names version 4, and its records can
      be laid end to end after the 68 bytes of header so that the last one and no earlier one reaches the declared
      size. */
  lemma V4Exact(c: TextCodec, data: Bytes, m: Manifest)
    ensures ParseV4(c, data) == Ok(m) <==>
            && |data| >= 68 && UnLe(data[4..8]) == 4
            && var h := ReadHeader(data).value.0;
            && m == Headed(h, m.files)
            && exists cuts :: Splits(FileRecord(c), data[68..], 0, h.declared, m.files, cuts)
  {
    if |data| >= 68 {
      FileRecordAdvances(c);
      RecordsExact(FileRecord(c), data[68..], ReadHeader(data).value.0.declared, m.files);
    }
  }

  /** Each of those records takes at least 57 bytes, so there are at most as many as the data has room for. */
  lemma {:induction false} RecordsAreLong(c: TextCodec, b: Bytes, declared: nat, files: seq<File>, cuts: seq<nat>,
                                          i: nat)
    requires |cuts| > 0 && Splits(FileRecord(c), b, cuts[0], declared, files, cuts) && i <= |files|
    ensures cuts[0] + 57 * i <= cuts[i] <= |b|
  {
    if i > 0 {
      RecordsAreLong(c, b, declared, files, cuts, i - 1);
      assert Between(FileRecord(c), b, files[i - 1], cuts[i - 1], cuts[i]);
    }
  }

  // ---------------------------------------------------------------- version 4: an encoder

  ghost predicate ChunkEncodable(ch: Chunk)
  {
    && ch.id.Some? && ch.checksum.Some? && ch.offset.Some? && ch.size.Some? && ch.compressedSize.Some?
    && |ch.id.value| == 20 && Fits(ChunkFields(ch), CHUNK)
  }

  function ChunkFields(ch: Chunk): seq<nat>
    requires ch.checksum.Some? && ch.offset.Some? && ch.size.Some? && ch.compressedSize.Some?
  {
    [ch.checksum.value, ch.offset.value, ch.size.value, ch.compressedSize.value]
  }

  ghost predicate FileEncodable(c: TextCodec, f: File)
  {
    && f.name.Some? && Carries(c, f.name.value)
    && f.size.Some? && f.size.value < U64 && f.flags.Some? && f.flags.value < U32
    && f.sha.Some? && |f.sha.value| == 20 && f.linkTarget.None?
    && |f.chunks| < U32 && forall ch | ch in f.chunks :: ChunkEncodable(ch)
  }

  ghost function ChunkBytes(ch: Chunk): Bytes
    requires ChunkEncodable(ch)
  {
    ch.id.value + Fields(ChunkFields(ch), CHUNK)
  }

  ghost function ChunksBytes(chunks: seq<Chunk>): Bytes
    requires forall ch | ch in chunks :: ChunkEncodable(ch)
  {
    if chunks == [] then [] else ChunkBytes(chunks[0]) + ChunksBytes(chunks[1..])
  }

  /** A record, with any 20 bytes for the name hash, which is not checked. */
  ghost function RecordBytes(c: TextCodec, f: File, nameHash: Bytes): Bytes
    requires FileEncodable(c, f) && |nameHash| == 20
  {
    NullTerminated(c, f.name.value,
      Le(f.size.value, 8) + Le(f.flags.value, 4) + f.sha.value + nameHash + Le(|f.chunks|, 4) + ChunksBytes(f.chunks))
  }

  lemma ChunkBack(ch: Chunk, rest: Bytes)
    requires ChunkEncodable(ch)
    ensures OneChunk(ChunkBytes(ch) + rest) == Some((ch, rest))
  {
    ReadFieldsBack(ChunkFields(ch), CHUNK, rest);
    var b, body := ChunkBytes(ch) + rest, Fields(ChunkFields(ch), CHUNK) + rest;
    assert b[..20] == ch.id.value && b[20..] == body;
  }

  lemma {:induction false} ChunksBack(chunks: seq<Chunk>, rest: Bytes)
    requires forall ch | ch in chunks :: ChunkEncodable(ch)
    ensures ChunkList(ChunksBytes(chunks) + rest, |chunks|) == Some((chunks, rest))
  {
    if chunks != [] {
      var more := ChunksBytes(chunks[1..]) + rest;
      assert ChunksBytes(chunks) + rest == ChunkBytes(chunks[0]) + more;
      ChunkBack(chunks[0], more);
      ChunksBack(chunks[1..], rest);
      assert [chunks[0]] + chunks[1..] == chunks;
    } else {
      assert ChunksBytes(chunks) + rest == rest;
    }
  }

  lemma FixedBack(size: nat, flags: nat, sha: Bytes, nameHash: Bytes, n: nat, rest: Bytes)
    requires size < U64 && flags < U32 && |sha| == 20 && |nameHash| == 20 && n < U32
    ensures Fixed(Le(size, 8) + Le(flags, 4) + sha + nameHash + Le(n, 4) + rest) == Some((size, flags, sha, n, rest))
  {
    Widths();
    UnLeLe(size, 8);
    UnLeLe(flags, 4);
    UnLeLe(n, 4);
    FixedSlices(Le(size, 8), Le(flags, 4), sha, nameHash, Le(n, 4), rest);
  }

  lemma FixedSlices(size: Bytes, flags: Bytes, sha: Bytes, nameHash: Bytes, n: Bytes, rest: Bytes)
    requires |size| == 8 && |flags| == 4 && |sha| == 20 && |nameHash| == 20 && |n| == 4
    ensures var b := size + flags + sha + nameHash + n + rest;
            b[..8] == size && b[8..12] == flags && b[12..32] == sha && b[52..56] == n && b[56..] == rest
  {
  }

  lemma RecordBack(c: TextCodec, f: File, nameHash: Bytes)
    requires FileEncodable(c, f) && |nameHash| == 20
    ensures Encodes(FileRecord(c), RecordBytes(c, f, nameHash), f)
  {
    forall rest: Bytes ensures Record(c, RecordBytes(c, f, nameHash) + rest) == Some((f, rest)) {
      var head := Le(f.size.value, 8) + Le(f.flags.value, 4) + f.sha.value + nameHash + Le(|f.chunks|, 4);
      var chunks := ChunksBytes(f.chunks);
      FixedBack(f.size.value, f.flags.value, f.sha.value, nameHash, |f.chunks|, chunks + rest);
      Reassociate(c.encode(f.name.value), head, chunks, rest);
      NullStringBack(c, f.name.value, head + (chunks + rest));
      ChunksBack(f.chunks, rest);
    }
  }

  lemma Reassociate(name: Bytes, head: Bytes, chunks: Bytes, rest: Bytes)
    ensures (name + ([0] + (head + chunks))) + rest == name + ([0] + (head + (chunks + rest)))
  {
  }

  ghost predicate HeaderFits(h: Header)
  {
    && Fits([h.magic, h.version, h.depot, h.id, h.created], ORIGIN)
    && Fits([h.encrypted, h.uncompressed, h.compressed, h.chunkCount], SIZES)
    && Fits([h.fileCount, h.declared, h.crcEncrypted, h.crcClear, h.flags], COUNTS)
  }

  function HeaderBytes(h: Header, rest: Bytes): Bytes
  {
    Fields([h.magic, h.version, h.depot, h.id, h.created], ORIGIN) +
    (Fields([h.encrypted, h.uncompressed, h.compressed, h.chunkCount], SIZES) +
     (Fields([h.fileCount, h.declared, h.crcEncrypted, h.crcClear, h.flags], COUNTS) + rest))
  }

  lemma HeaderBack(h: Header, rest: Bytes)
    requires HeaderFits(h)
    ensures ReadHeader(HeaderBytes(h, rest)) == Some((h, rest))
  {
    var counts := Fields([h.fileCount, h.declared, h.crcEncrypted, h.crcClear, h.flags], COUNTS) + rest;
    var sizes := Fields([h.encrypted, h.uncompressed, h.compressed, h.chunkCount], SIZES) + counts;
    ReadFieldsBack([h.magic, h.version, h.depot, h.id, h.created], ORIGIN, sizes);
    ReadFieldsBack([h.encrypted, h.uncompressed, h.compressed, h.chunkCount], SIZES, counts);
    ReadFieldsBack([h.fileCount, h.declared, h.crcEncrypted, h.crcClear, h.flags], COUNTS, rest);
  }

  lemma FirstTwo(values: seq<nat>, widths: seq<nat>, body: Bytes, k: nat)
    requires Fits(values, widths) && |widths| >= 2 && widths[0] == widths[1] == k
    ensures var data := Fields(values, widths) + body;
            |data| >= 2 * k && UnLe(data[..k]) == values[0] && UnLe(data[k..2 * k]) == values[1]
  {
    FieldsHead(values, widths, body);
    FieldsHead(values[1..], widths[1..], body);
    UnLeLe(values[0], k);
    UnLeLe(values[1], k);
    FrontSlices(Le(values[0], k), Le(values[1], k), Fields(values[1..][1..], widths[1..][1..]) + body, k);
  }

  lemma FrontSlices(a: Bytes, b: Bytes, rest: Bytes, k: nat)
    requires |a| == |b| == k
    ensures var data := a + (b + rest); |data| >= 2 * k && data[..k] == a && data[k..2 * k] == b
  {
  }

  lemma MagicBack(h: Header, rest: Bytes)
    requires HeaderFits(h)
    ensures var data := HeaderBytes(h, rest); |data| >= 8 && UnLe(data[..4]) == h.magic && UnLe(data[4..8]) == h.version
  {
    FirstTwo([h.magic, h.version, h.depot, h.id, h.created], ORIGIN,
      Fields([h.encrypted, h.uncompressed, h.compressed, h.chunkCount], SIZES) +
      (Fields([h.fileCount, h.declared, h.crcEncrypted, h.crcClear, h.flags], COUNTS) + rest), 4);
  }

  /** One of the encodings of a file entry. */
  ghost predicate IsRecordOf(c: TextCodec, f: File, piece: Bytes)
  {
    FileEncodable(c, f) && exists h :: |h| == 20 && piece == RecordBytes(c, f, h)
  }

  /** Parsing inverts the encoder, whatever the fields it ignores and whatever follows the records. */
  lemma V4RoundTrip(c: TextCodec, h: Header, files: seq<File>, pieces: seq<Bytes>, rest: Bytes)
    requires HeaderFits(h) && h.version == 4 && |pieces| == |files|
    requires forall i | 0 <= i < |files| :: IsRecordOf(c, files[i], pieces[i])
    requires EndsInLast(pieces, h.declared)
    ensures ParseV4(c, HeaderBytes(h, Concat(pieces) + rest)) == Ok(Headed(h, files))
  {
    FilesBack(c, files, pieces, rest, h.declared);
    BodyBack(c, h, Concat(pieces) + rest, files);
  }

  lemma BodyBack(c: TextCodec, h: Header, body: Bytes, files: seq<File>)
    requires HeaderFits(h) && h.version == 4 && Records(FileRecord(c), body, 0, h.declared) == Some(files)
    ensures ParseV4(c, HeaderBytes(h, body)) == Ok(Headed(h, files))
  {
    HeaderBack(h, body);
    MagicBack(h, body);
  }

  lemma FilesBack(c: TextCodec, files: seq<File>, pieces: seq<Bytes>, rest: Bytes, declared: nat)
    requires |pieces| == |files| && (forall i | 0 <= i < |files| :: IsRecordOf(c, files[i], pieces[i])) &&
               EndsInLast(pieces, declared)
    ensures Records(FileRecord(c), Concat(pieces) + rest, 0, declared) == Some(files)
  {
    forall i | 0 <= i < |files| ensures Encodes(FileRecord(c), pieces[i], files[i]) {
      assert IsRecordOf(c, files[i], pieces[i]);
      var hash :| |hash| == 20 && pieces[i] == RecordBytes(c, files[i], hash);
      RecordBack(c, files[i], hash);
    }
    RecordsBack(FileRecord(c), pieces, files, rest, 0, declared);
  }
}
