/** Manifest entries (crates/steam/src/depot/manifest.rs) and the chunk gate of crates/steam/src/depot/chunk.rs. */
module Chunks {
  import opened Base
  import opened Checksum
  import opened Files

  type ChunkId = Bytes

  datatype Chunk = Chunk(id: Option<ChunkId>, checksum: Option<nat>, offset: Option<nat>,
                         compressedSize: Option<nat>, size: Option<nat>)

  datatype File = File(name: Option<string>, size: Option<nat>, flags: Option<nat>, sha: Option<Bytes>,
                       chunks: seq<Chunk>, linkTarget: Option<string>)

  /** Flag 0x40. */
  predicate IsDirectory(f: File)
  {
    f.flags.Some? && f.flags.value / 0x40 % 2 == 1
  }

  /** The primitives chunk processing relies on: depot decryption and three decompressors, each of which may fail. */
  datatype Codec = Codec(decrypt: Bytes -> Option<Bytes>, zstd: Bytes -> Option<Bytes>,
                         lzma: Bytes -> Option<Bytes>, zip: Bytes -> Option<Bytes>)

  datatype Compression = VZstd | Lzma | Zip | Stored

  function Detect(data: Bytes): Compression
  {
    if |data| >= 4 && data[..4] == [86, 83, 90, 97] then VZstd
    else if |data| >= 4 && data[..4] == [80, 75, 3, 4] then Zip
    else if |data| >= 3 && data[..3] == [86, 90, 97] then Lzma
    else Stored
  }

  function Decompress(codec: Codec, data: Bytes): Option<Bytes>
  {
    match Detect(data)
    case VZstd => codec.zstd(data)
    case Lzma => codec.lzma(data)
    case Zip => codec.zip(data)
    case Stored => Some(data)
  }

  datatype ChunkError = DecryptFailed | DecompressFailed | SizeMismatch | ChecksumMismatch

  function ProcessChunk(codec: Codec, raw: Bytes, size: nat, checksum: nat): (r: Result<Bytes, ChunkError>)
    ensures r.Ok? ==> |r.value| == size && SteamAdler(r.value) == checksum
  {
    match codec.decrypt(raw)
    case None => Err(DecryptFailed)
    case Some(plain) =>
      match Decompress(codec, plain)
      case None => Err(DecompressFailed)
      case Some(data) =>
        if |data| != size then Err(SizeMismatch)
        else if SteamAdler(data) != checksum then Err(ChecksumMismatch)
        else Ok(data)
  }

  /** The three magics exclude one another, so the order they are looked for in does not matter. */
  lemma DetectExact(data: Bytes)
    ensures Detect(data) == VZstd <==> [86, 83, 90, 97] <= data
    ensures Detect(data) == Zip <==> [80, 75, 3, 4] <= data
    ensures Detect(data) == Lzma <==> [86, 90, 97] <= data
  {
    if |data| >= 4 {
      assert data[..4][0] == data[0] && data[..4][1] == data[1] && data[..3][0] == data[0] && data[..3][1] == data[1];
    }
  }

  /** Which decompressor the plain data calls for, and what each kind of failure means. */
  predicate Unpacks(codec: Codec, plain: Bytes, data: Option<Bytes>)
  {
    && ([86, 83, 90, 97] <= plain ==> data == codec.zstd(plain))
    && ([80, 75, 3, 4] <= plain ==> data == codec.zip(plain))
    && ([86, 90, 97] <= plain ==> data == codec.lzma(plain))
    && (!([86, 83, 90, 97] <= plain || [80, 75, 3, 4] <= plain || [86, 90, 97] <= plain) ==> data == Some(plain))
  }

  lemma ProcessExactly(codec: Codec, raw: Bytes, size: nat, checksum: nat)
    ensures var r := ProcessChunk(codec, raw, size, checksum);
            match codec.decrypt(raw)
            case None => r == Err(DecryptFailed)
            case Some(plain) =>
              && (r == Err(DecompressFailed) <==> Unpacks(codec, plain, None))
              && forall data | Unpacks(codec, plain, Some(data)) ::
                   && (r == Err(SizeMismatch) <==> |data| != size)
                   && (r == Err(ChecksumMismatch) <==> |data| == size && SteamAdler(data) != checksum)
                   && (r.Ok? <==> |data| == size && SteamAdler(data) == checksum)
                   && (r.Ok? ==> r.value == data)
  {
    if codec.decrypt(raw).Some? {
      DetectExact(codec.decrypt(raw).value);
    }
  }

  function Unpacked(codec: Codec, raw: Bytes): Option<Bytes>
  {
    match codec.decrypt(raw)
    case None => None
    case Some(plain) => Decompress(codec, plain)
  }

  /** The chunk's bytes are in the file and carry its checksum. */
  predicate ChunkGood(f: Bytes, c: Chunk)
  {
    c.offset.Some? && c.size.Some? && c.checksum.Some? &&
    var r := ReadAt(f, c.offset.value, c.size.value);
    r.Some? && SteamAdler(r.value) == c.checksum.value
  }

  predicate SizeMatches(f: Option<Bytes>, size: Option<nat>)
  {
    f.Some? && size == Some(|f.value|)
  }

  /** The file has the manifest's size and every chunk verifies. */
  predicate Verifies(f: Option<Bytes>, size: Option<nat>, chunks: seq<Chunk>)
  {
    SizeMatches(f, size) && forall k | 0 <= k < |chunks| :: ChunkGood(f.value, chunks[k])
  }

  /** The chunk has an offset, a size and a checksum, and the bytes there have the checksum. */
  predicate HasChunk(f: Bytes, c: Chunk)
  {
    && c.offset.Some? && c.size.Some? && c.checksum.Some?
    && (if c.size.value == 0 then c.checksum.value == 0
        else c.offset.value + c.size.value <= |f| &&
             SteamAdler(f[c.offset.value..c.offset.value + c.size.value]) == c.checksum.value)
  }

  lemma GoodExactly(f: Bytes, c: Chunk)
    ensures ChunkGood(f, c) <==> HasChunk(f, c)
  {
    AdlerNone();
  }

  lemma AdlerNone()
    ensures SteamAdler([]) == 0
  {
  }

  /** A file that verifies is there, has the manifest's size, and has every chunk. */
  lemma VerifiesExactly(f: Option<Bytes>, size: Option<nat>, chunks: seq<Chunk>)
    ensures Verifies(f, size, chunks) <==>
            f.Some? && size == Some(|f.value|) && forall k | 0 <= k < |chunks| :: HasChunk(f.value, chunks[k])
  {
    if f.Some? {
      forall k | 0 <= k < |chunks|
        ensures ChunkGood(f.value, chunks[k]) <==> HasChunk(f.value, chunks[k])
      {
        GoodExactly(f.value, chunks[k]);
      }
    }
  }

  /** The verification loop over one open file handle. */
  method VerifyChunks(file: Handle, chunks: seq<Chunk>) returns (bad: seq<nat>)
    modifies file`pos
    ensures forall k: nat :: k in bad <==> k < |chunks| && !ChunkGood(file.bytes, chunks[k])
    ensures forall i, j | 0 <= i < j < |bad| :: bad[i] < bad[j]
  {
    bad := [];
    for i := 0 to |chunks|
      invariant forall k: nat :: k in bad <==> k < i && !ChunkGood(file.bytes, chunks[k])
      invariant forall j, k | 0 <= j < k < |bad| :: bad[j] < bad[k]
    {
      var c := chunks[i];
      var good := false;
      if c.offset.Some? && c.size.Some? && c.checksum.Some? {
        file.Seek(c.offset.value);
        var buf := file.ReadExact(c.size.value);
        if buf.Some? {
          var actual := Compute(buf.value);
          good := actual as int == c.checksum.value;
        }
      }
      assert good == ChunkGood(file.bytes, c);
      if !good {
        assert forall j | 0 <= j < |bad| :: bad[j] in bad;
        bad := bad + [i];
      }
    }
  }

  method FileHasValidChunks(file: Option<Handle>, size: Option<nat>, chunks: seq<Chunk>) returns (ok: bool)
    modifies if file.Some? then {file.value} else {}
    ensures file.Some? ==> file.value.bytes == old(file.value.bytes)
    ensures ok == (file.Some? && Verifies(Some(old(file.value.bytes)), size, chunks))
  {
    if file.None? || size != Some(|file.value.bytes|) {
      return false;
    }
    var bad := VerifyChunks(file.value, chunks);
    if bad != [] {
      assert bad[0] in bad;
    }
    ok := bad == [];
    assert forall k | 0 <= k < |chunks| :: k !in bad ==> ChunkGood(file.value.bytes, chunks[k]);
  }

  /** The id of each chunk that verifies in `f`. */
  function Marks(f: Bytes, chunks: seq<Chunk>): (m: seq<Option<ChunkId>>)
    ensures |m| == |chunks|
  {
    seq(|chunks|, i requires 0 <= i < |chunks| => if ChunkGood(f, chunks[i]) then chunks[i].id else None)
  }

  ghost function Somes<T>(s: seq<Option<T>>): set<T>
  {
    set i | 0 <= i < |s| && s[i].Some? :: s[i].value
  }

  /** The ids of the chunks that verify; a set, so equal ids collapse. */
  ghost function GoodIds(f: Bytes, chunks: seq<Chunk>): set<ChunkId>
  {
    Somes(Marks(f, chunks))
  }

  lemma {:induction false} SomesCount<T>(s: seq<Option<T>>)
    ensures |Somes(s)| <= |s|
    ensures |Somes(s)| == |s| <==>
            (forall i | 0 <= i < |s| :: s[i].Some?) && (forall i, j | 0 <= i < j < |s| :: s[i] != s[j])
  {
    if s != [] {
      var n := |s| - 1;
      SomesCount(s[..n]);
      SomesLast(s);
      assert forall i | 0 <= i < n :: s[..n][i] == s[i];
      if exists j :: 0 <= j < n && s[j] == s[n] {
        assert |Somes(s)| < |s|;
      } else {
        assert (forall i, j | 0 <= i < j < n :: s[..n][i] != s[..n][j]) <==>
                 (forall i, j | 0 <= i < j < |s| :: s[i] != s[j]);
      }
    } else {
      assert Somes(s) == {};
    }
  }

  /** The last one adds to the set exactly if it is there and new. */
  lemma SomesLast<T>(s: seq<Option<T>>)
    requires s != []
    ensures var n := |s| - 1;
            |Somes(s)| == |Somes(s[..n])| + if s[n].Some? && (forall j | 0 <= j < n :: s[j] != s[n]) then 1 else 0
  {
    var n := |s| - 1;
    assert forall j | 0 <= j < n :: s[..n][j] == s[j];
    if s[n].None? {
      assert Somes(s) == Somes(s[..n]);
    } else {
      assert Somes(s) == Somes(s[..n]) + {s[n].value};
      if j :| 0 <= j < n && s[j] == s[n] {
        assert s[..n][j].value in Somes(s[..n]);
        assert Somes(s) == Somes(s[..n]);
      } else {
        assert s[n].value !in Somes(s[..n]);
      }
    }
  }

  /** The resume shortcut compares a set's size with the chunk count: it fires exactly when every chunk verifies,
      has an id, and no two chunks share one. */
  lemma FullResumeExact(f: Bytes, chunks: seq<Chunk>)
    ensures |GoodIds(f, chunks)| == |chunks| <==>
            && (forall k | 0 <= k < |chunks| :: ChunkGood(f, chunks[k]) && chunks[k].id.Some?)
            && (forall j, k | 0 <= j < k < |chunks| :: chunks[j].id != chunks[k].id)
  {
    var m := Marks(f, chunks);
    SomesCount(m);
    if forall i | 0 <= i < |m| :: m[i].Some? {
      forall k | 0 <= k < |chunks|
        ensures ChunkGood(f, chunks[k]) && m[k] == chunks[k].id
      {
        assert m[k].Some?;
      }
    }
  }

  /** The gate and the verification agree: a response is accepted if and only if its data has the chunk's size and,
      written into any file that has room for the chunk, makes the chunk verify there. So what a run accepts and
      writes, the next run's verification accepts too, and what would not verify is never written. */
  lemma GateIsVerification(codec: Codec, raw: Bytes, c: Chunk, data: Bytes, f: Bytes)
    requires c.offset.Some? && c.size.Some? && c.checksum.Some? && c.offset.value + c.size.value <= |f|
    ensures ProcessChunk(codec, raw, c.size.value, c.checksum.value) == Ok(data) <==>
            Unpacked(codec, raw) == Some(data) && |data| == c.size.value &&
                ChunkGood(WriteAt(f, c.offset.value, data), c)
    ensures Unpacked(codec, raw) == Some(data) ==>
              var r := ProcessChunk(codec, raw, c.size.value, c.checksum.value);
              && (r == Err(SizeMismatch) <==> |data| != c.size.value)
              && (r == Err(ChecksumMismatch) <==>
                  |data| == c.size.value && !ChunkGood(WriteAt(f, c.offset.value, data), c))
    ensures Unpacked(codec, raw).None? ==>
              ProcessChunk(codec, raw, c.size.value, c.checksum.value) in {Err(DecryptFailed), Err(DecompressFailed)}
  {
    if |data| == c.size.value {
      WriteInside(f, c.offset.value, data);
    }
  }
}
