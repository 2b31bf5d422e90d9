/** Version 5 manifests and the choice between the formats (crates/steam/src/depot/manifest.rs:101-113, 272-369). */
module ManifestSections {
  import opened Base
  import opened LittleEndian
  import opened NullStrings
  import opened Chunks
  import opened Manifests
  import Repeated

  datatype RawChunk = RawChunk(sha: Option<Bytes>, crc: Option<nat>, offset: Option<nat>, original: Option<nat>,
      compressed: Option<nat>)

  datatype RawFile = RawFile(filename: Option<string>, size: Option<nat>, flags: Option<nat>, shaContent: Option<Bytes>,
                             chunks: seq<RawChunk>, linkTarget: Option<string>)

  datatype Metadata = Metadata(depot: Option<nat>, id: Option<nat>, created: Option<nat>, namesEncrypted: Option<bool>,
                               original: Option<nat>, compressed: Option<nat>)

  /** The three protobuf decoders, and the text codec of version 4. */
  datatype Decoders = Decoders(payload: Bytes -> Option<seq<RawFile>>, metadata: Bytes -> Option<Metadata>,
                               signature: Bytes -> bool, text: TextCodec)

  // ---------------------------------------------------------------- what the last sections say

  /** A hash of any other length is dropped. */
  function ShaArray(sha: Option<Bytes>): (r: Option<Bytes>)
    ensures r.Some? <==> sha.Some? && |sha.value| == 20
    ensures r.Some? ==> r == sha
  {
    if sha.Some? && |sha.value| == 20 then sha else None
  }

  function ChunkOfRaw(c: RawChunk): Chunk
  {
    Chunk(ShaArray(c.sha), c.crc, c.offset, c.compressed, c.original)
  }

  function FileOfRaw(f: RawFile): File
  {
    File(f.filename, f.size, f.flags, ShaArray(f.shaContent),
        seq(|f.chunks|, i requires 0 <= i < |f.chunks| => ChunkOfRaw(f.chunks[i])),
         if f.linkTarget == Some("") then None else f.linkTarget)
  }

  function Build(files: seq<RawFile>, m: Metadata): Manifest
  {
    Manifest(m.depot, m.id, m.created, m.namesEncrypted == Some(true), m.original, m.compressed,
             seq(|files|, i requires 0 <= i < |files| => FileOfRaw(files[i])))
  }

  function Combine(payload: Option<seq<RawFile>>, metadata: Option<Metadata>): Result<Manifest, ManifestError>
  {
    if payload.None? || metadata.None? then Err(MissingSection) else Ok(Build(payload.value, metadata.value))
  }

  // ---------------------------------------------------------------- the section loop

  method ParseV5(d: Decoders, data: Bytes) returns (r: Result<Manifest, ManifestError>)
    ensures r == SectionsFrom(d, data, None, None)
  {
    var reader := new Reader(data);
    var payload: Option<seq<RawFile>>, metadata: Option<Metadata> := None, None;
    while true
      invariant SectionsFrom(d, reader.rest, payload, metadata) == SectionsFrom(d, data, None, None)
      decreases |reader.rest|
    {
      ghost var was := reader.rest;
      var magic := reader.Uint(4);
      if magic.None? {
        return Err(MissingSection);
      }
      if magic.value == END_OF_MANIFEST {
        break;
      }
      var len := reader.Uint(4);
      if len.None? {
        return Err(MissingSection);
      }
      var section := reader.Take(len.value);
      if section.None? {
        return Err(MissingSection);
      }
      assert NextSection(was) == Some((magic.value, section.value, reader.rest));
      if magic.value == PAYLOAD_V5 {
        payload := d.payload(section.value);
        if payload.None? {
          return Err(MissingSection);
        }
      } else if magic.value == METADATA {
        metadata := d.metadata(section.value);
        if metadata.None? {
          return Err(MissingSection);
        }
      } else if magic.value == SIGNATURE {
        if !d.signature(section.value) {
          return Err(MissingSection);
        }
      } else {
        return Err(InvalidMagic(magic.value));
      }
    }
    r := Combine(payload, metadata);
  }

  /** A magic, a length and that many bytes. */
  function NextSection(b: Bytes): (r: Option<(nat, Bytes, Bytes)>)
    ensures r.Some? ==> |r.value.2| + 8 <= |b|
  {
    match ReadUint(b, 4)
    case None => None
    case Some((magic, b1)) =>
      match ReadUint(b1, 4)
      case None => None
      case Some((len, b2)) => if |b2| < len then None else Some((magic, b2[..len], b2[len..]))
  }

  /** What the loop returns with these bytes ahead and these two sections behind. */
  function SectionsFrom(d: Decoders, b: Bytes, payload: Option<seq<RawFile>>,
                        metadata: Option<Metadata>): Result<Manifest, ManifestError>
    decreases |b|
  {
    match ReadUint(b, 4)
    case None => Err(MissingSection)
    case Some((magic, _)) =>
      if magic == END_OF_MANIFEST then Combine(payload, metadata)
      else
        match NextSection(b)
        case None => Err(MissingSection)
        case Some((_, body, rest)) =>
          if magic == PAYLOAD_V5 then
            if d.payload(body).None? then Err(MissingSection) else SectionsFrom(d, rest, d.payload(body), metadata)
          else if magic == METADATA then
            if d.metadata(body).None? then Err(MissingSection) else SectionsFrom(d, rest, payload, d.metadata(body))
          else if magic == SIGNATURE then
            if !d.signature(body) then Err(MissingSection) else SectionsFrom(d, rest, payload, metadata)
          else Err(InvalidMagic(magic))
  }

  // ---------------------------------------------------------------- sections as a list

  datatype Section = Section(magic: nat, body: Bytes)

  predicate Readable(d: Decoders, s: Section)
  {
    && |s.body| < U32
    && if s.magic == PAYLOAD_V5 then d.payload(s.body).Some?
       else if s.magic == METADATA then d.metadata(s.body).Some?
       else s.magic == SIGNATURE && d.signature(s.body)
  }

  /** The encoding of the sections, the end marker and what follows. */
  function SectionsBytes(ss: seq<Section>, rest: Bytes): Bytes
  {
    if ss == [] then Le(END_OF_MANIFEST, 4) + rest
    else Le(ss[0].magic, 4) + (Le(|ss[0].body|, 4) + (ss[0].body + SectionsBytes(ss[1..], rest)))
  }

  /** The body of the last section with that magic. */
  function LastOf(ss: seq<Section>, magic: nat): (r: Option<Bytes>)
    ensures r.None? <==> forall s | s in ss :: s.magic != magic
  {
    if ss == [] then None
    else
      assert ss == ss[..|ss| - 1] + [ss[|ss| - 1]];
      if ss[|ss| - 1].magic == magic then Some(ss[|ss| - 1].body) else LastOf(ss[..|ss| - 1], magic)
  }

  lemma {:induction false} LastOfCons(s: Section, ss: seq<Section>, magic: nat)
    ensures LastOf([s] + ss, magic) ==
            if LastOf(ss, magic).Some? then LastOf(ss, magic) else if s.magic == magic then Some(s.body) else None
  {
    var all := [s] + ss;
    if ss != [] {
      assert all[..|all| - 1] == [s] + ss[..|ss| - 1];
      LastOfCons(s, ss[..|ss| - 1], magic);
    } else {
      assert all[..0] == [];
    }
  }

  function LastPayload(d: Decoders, ss: seq<Section>): Option<seq<RawFile>>
  {
    match LastOf(ss, PAYLOAD_V5)
    case None => None
    case Some(body) => d.payload(body)
  }

  function LastMetadata(d: Decoders, ss: seq<Section>): Option<Metadata>
  {
    match LastOf(ss, METADATA)
    case None => None
    case Some(body) => d.metadata(body)
  }

  function Else<T>(a: Option<T>, b: Option<T>): Option<T>
  {
    if a.Some? then a else b
  }

  lemma SectionBack(s: Section, rest: Bytes)
    requires s.magic < U32 && |s.body| < U32
    ensures var b := Le(s.magic, 4) + (Le(|s.body|, 4) + (s.body + rest));
            ReadUint(b, 4).Some? && ReadUint(b, 4).value.0 == s.magic && NextSection(b) == Some((s.magic, s.body, rest))
  {
    Widths();
    ReadBack(s.magic, 4, Le(|s.body|, 4) + (s.body + rest));
    ReadBack(|s.body|, 4, s.body + rest);
    assert (s.body + rest)[..|s.body|] == s.body && (s.body + rest)[|s.body|..] == rest;
  }

  /** Whatever order readable sections come in, only the last payload and the last metadata matter. */
  lemma {:induction false} SectionsBack(d: Decoders, ss: seq<Section>, rest: Bytes, payload: Option<seq<RawFile>>,
                                        metadata: Option<Metadata>)
    requires forall s | s in ss :: Readable(d, s)
    ensures SectionsFrom(d, SectionsBytes(ss, rest), payload, metadata) ==
            Combine(Else(LastPayload(d, ss), payload), Else(LastMetadata(d, ss), metadata))
  {
    if ss == [] {
      Widths();
      ReadBack(END_OF_MANIFEST, 4, rest);
    } else {
      var s, more := ss[0], SectionsBytes(ss[1..], rest);
      assert s in ss && Readable(d, s);
      SectionBack(s, more);
      assert ss == [s] + ss[1..];
      LastOfCons(s, ss[1..], PAYLOAD_V5);
      LastOfCons(s, ss[1..], METADATA);
      LastReadable(d, ss[1..]);
      if s.magic == PAYLOAD_V5 {
        SectionsBack(d, ss[1..], rest, d.payload(s.body), metadata);
      } else if s.magic == METADATA {
        SectionsBack(d, ss[1..], rest, payload, d.metadata(s.body));
      } else {
        SectionsBack(d, ss[1..], rest, payload, metadata);
      }
    }
  }

  lemma {:induction false} LastIsIn(ss: seq<Section>, magic: nat)
    ensures LastOf(ss, magic).Some? ==> Section(magic, LastOf(ss, magic).value) in ss
  {
    if ss != [] && ss[|ss| - 1].magic != magic {
      LastIsIn(ss[..|ss| - 1], magic);
    }
  }

  lemma LastReadable(d: Decoders, ss: seq<Section>)
    requires forall s | s in ss :: Readable(d, s)
    ensures LastPayload(d, ss).Some? <==> LastOf(ss, PAYLOAD_V5).Some?
    ensures LastMetadata(d, ss).Some? <==> LastOf(ss, METADATA).Some?
  {
    LastIsIn(ss, PAYLOAD_V5);
    LastIsIn(ss, METADATA);
  }

  /** Every accepted input is such a list of sections. */
  lemma {:induction false} SectionsOf(d: Decoders, b: Bytes, payload: Option<seq<RawFile>>, metadata: Option<Metadata>)
    returns (ss: seq<Section>, rest: Bytes)
    requires SectionsFrom(d, b, payload, metadata).Ok?
    ensures b == SectionsBytes(ss, rest) && forall s | s in ss :: Readable(d, s)
    decreases |b|
  {
    LeUnLe(b[..4]);
    Widths();
    var magic := ReadUint(b, 4).value.0;
    if magic == END_OF_MANIFEST {
      assert b == b[..4] + b[4..];
      return [], b[4..];
    }
    var (_, body, after) := NextSection(b).value;
    var s := Section(magic, body);
    SectionExact(b);
    var more;
    if magic == PAYLOAD_V5 {
      more, rest := SectionsOf(d, after, d.payload(body), metadata);
    } else if magic == METADATA {
      more, rest := SectionsOf(d, after, payload, d.metadata(body));
    } else {
      more, rest := SectionsOf(d, after, payload, metadata);
    }
    ss := [s] + more;
    assert ss[1..] == more;
  }

  lemma SectionExact(b: Bytes)
    requires NextSection(b).Some?
    ensures var (magic, body, rest) := NextSection(b).value;
            |body| < U32 && b == Le(magic, 4) + (Le(|body|, 4) + (body + rest))
  {
    LeUnLe(b[..4]);
    var b1 := b[4..];
    LeUnLe(b1[..4]);
    Widths();
    var b2 := b1[4..];
    assert b2 == b2[..UnLe(b1[..4])] + b2[UnLe(b1[..4])..];
    assert b1 == b1[..4] + b2;
    assert b == b[..4] + b1;
  }

  /** A version 5 manifest is accepted exactly when it is a list of readable sections, in any order and any number, up
      to an end marker, with a payload and a metadata section among them; the last of each makes the manifest. */
  lemma V5Exact(d: Decoders, data: Bytes, m: Manifest)
    ensures SectionsFrom(d, data, None, None) == Ok(m) <==>
            exists ss, rest :: SectionList(d, data, ss, rest) && MakeUp(d, ss, m)
  {
    if SectionsFrom(d, data, None, None) == Ok(m) {
      var ss, rest := SectionsOf(d, data, None, None);
      SectionsBack(d, ss, rest, None, None);
      LastReadable(d, ss);
      assert SectionList(d, data, ss, rest);
    }
    if ss, rest :| SectionList(d, data, ss, rest) && MakeUp(d, ss, m) {
      SectionsBack(d, ss, rest, None, None);
    }
  }

  /** The last payload and the last metadata section, both there, make the manifest. */
  predicate MakeUp(d: Decoders, ss: seq<Section>, m: Manifest)
  {
    var p, q := LastOf(ss, PAYLOAD_V5), LastOf(ss, METADATA);
    p.Some? && q.Some? && Ok(m) == Combine(d.payload(p.value), d.metadata(q.value))
  }

  ghost predicate SectionList(d: Decoders, data: Bytes, ss: seq<Section>, rest: Bytes)
  {
    data == SectionsBytes(ss, rest) && forall s | s in ss :: Readable(d, s)
  }

  /** Reordering, repeating or dropping sections changes nothing as long as the last payload and the last metadata
      stay. */
  lemma OnlyTheLastMatter(d: Decoders, a: seq<Section>, b: seq<Section>, restA: Bytes, restB: Bytes)
    requires forall s | s in a + b :: Readable(d, s)
    requires LastOf(a, PAYLOAD_V5) == LastOf(b, PAYLOAD_V5) && LastOf(a, METADATA) == LastOf(b, METADATA)
    ensures SectionsFrom(d, SectionsBytes(a, restA), None, None) == SectionsFrom(d, SectionsBytes(b, restB), None, None)
  {
    forall s | s in a ensures Readable(d, s) { assert s in a + b; }
    forall s | s in b ensures Readable(d, s) { assert s in a + b; }
    SectionsBack(d, a, restA, None, None);
    SectionsBack(d, b, restB, None, None);
  }

  // ---------------------------------------------------------------- the choice of format

  function ParseSpec(d: Decoders, data: Bytes): Result<Manifest, ManifestError>
  {
    if |data| < 4 then Err(MissingSection)
    else if UnLe(data[..4]) == V4 then ParseV4(d.text, data)
    else SectionsFrom(d, data, None, None)
  }

  method Parse(d: Decoders, data: Bytes) returns (r: Result<Manifest, ManifestError>)
    ensures r == ParseSpec(d, data)
  {
    if |data| < 4 {
      return Err(MissingSection);
    }
    if UnLe(data[..4]) == V4 {
      r := ParseV4Manifest(d.text, data);
    } else {
      r := ParseV5(d, data);
    }
  }

  /** Both encoders are inverted through the choice of format. */
  lemma ParseRoundTrip(d: Decoders, h: Header, files: seq<File>, pieces: seq<Bytes>, ss: seq<Section>, rest: Bytes)
    requires HeaderFits(h) && h.magic == V4 && h.version == 4 && |pieces| == |files|
    requires forall i | 0 <= i < |files| :: IsRecordOf(d.text, files[i], pieces[i])
    requires Repeated.EndsInLast(pieces, h.declared)
    requires forall s | s in ss :: Readable(d, s)
    ensures ParseSpec(d, HeaderBytes(h, Repeated.Concat(pieces) + rest)) == Ok(Headed(h, files))
    ensures ParseSpec(d, SectionsBytes(ss, rest)) == Combine(LastPayload(d, ss), LastMetadata(d, ss))
  {
    V4RoundTrip(d.text, h, files, pieces, rest);
    MagicBack(h, Repeated.Concat(pieces) + rest);
    SectionsBack(d, ss, rest, None, None);
    FirstMagic(d, ss, rest);
  }

  lemma FirstMagic(d: Decoders, ss: seq<Section>, rest: Bytes)
    requires forall s | s in ss :: Readable(d, s)
    ensures var b := SectionsBytes(ss, rest); |b| >= 4 && UnLe(b[..4]) != V4
  {
    Widths();
    if ss == [] {
      ReadBack(END_OF_MANIFEST, 4, rest);
    } else {
      assert ss[0] in ss;
      SectionBack(ss[0], SectionsBytes(ss[1..], rest));
    }
  }

  // ---------------------------------------------------------------- hashes

  /** Content hashes and chunk ids have 20 bytes, where there are any. */
  predicate WholeHashes(f: File)
  {
    (f.sha.Some? ==> |f.sha.value| == 20) && forall k | 0 <= k < |f.chunks| && f.chunks[k].id.Some? ::
        |f.chunks[k].id.value| == 20
  }

  lemma {:induction false} ChunkListHashes(b: Bytes, n: nat)
    ensures var r := ChunkList(b, n); r.Some? ==>
              forall k | 0 <= k < n :: r.value.0[k].id.Some? && |r.value.0[k].id.value| == 20
    decreases n
  {
    if n > 0 && OneChunk(b).Some? {
      ChunkListHashes(OneChunk(b).value.1, n - 1);
    }
  }

  lemma RecordHashes(c: TextCodec, b: Bytes)
    ensures Record(c, b).Some? ==> WholeHashes(Record(c, b).value.0)
  {
    if Record(c, b).Some? {
      var fixed := Fixed(NullString(c, b).value.1).value;
      ChunkListHashes(fixed.4, fixed.3);
    }
  }

  lemma {:induction false} RecordsHashes(p: Repeated.Parser<File>, b: Bytes, consumed: nat, declared: nat)
    requires forall x: Bytes :: p(x).Some? ==> WholeHashes(p(x).value.0)
    ensures var r := Repeated.Records(p, b, consumed, declared); r.Some? ==> forall f | f in r.value :: WholeHashes(f)
    decreases |b|
  {
    if consumed < declared && p(b).Some? {
      var rest := p(b).value.1;
      RecordsHashes(p, rest, consumed + (|b| - |rest|), declared);
    }
  }

  lemma BuiltHashes(files: seq<RawFile>, m: Metadata)
    ensures forall f | f in Build(files, m).files :: WholeHashes(f)
  {
  }

  lemma {:induction false} SectionsHashes(d: Decoders, b: Bytes, payload: Option<seq<RawFile>>,
                                          metadata: Option<Metadata>)
    ensures var r := SectionsFrom(d, b, payload, metadata); r.Ok? ==> forall f | f in r.value.files :: WholeHashes(f)
  {
    if SectionsFrom(d, b, payload, metadata).Ok? {
      var ss, rest := SectionsOf(d, b, payload, metadata);
      SectionsBack(d, ss, rest, payload, metadata);
      BuiltHashes(Else(LastPayload(d, ss), payload).value, Else(LastMetadata(d, ss), metadata).value);
    }
  }

  /** In either format, every content hash and every chunk id of a parsed manifest is a whole SHA-1: one of any other
      length is never kept. */
  lemma ParsedHashesAreWhole(d: Decoders, data: Bytes)
    ensures ParseSpec(d, data).Ok? ==> forall f | f in ParseSpec(d, data).value.files :: WholeHashes(f)
  {
    if ParseSpec(d, data).Ok? {
      if UnLe(data[..4]) == V4 {
        forall x: Bytes | FileRecord(d.text)(x).Some?
          ensures WholeHashes(FileRecord(d.text)(x).value.0)
        {
          RecordHashes(d.text, x);
        }
        var (h, rest) := ReadHeader(data).value;
        RecordsHashes(FileRecord(d.text), rest, 0, h.declared);
      } else {
        SectionsHashes(d, data, None, None);
      }
    }
  }
}
