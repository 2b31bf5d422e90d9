/** Positioned reads and writes on a file's bytes, and the seek/read/write handle built on them. */
module Files {
  import opened Base

  /** What a seek to `off` and an exact read of `len` bytes yields; `None` when the file is too short. */
  function ReadAt(f: Bytes, off: nat, len: nat): (r: Option<Bytes>)
    ensures r.Some? ==> |r.value| == len
  {
    if len == 0 then Some([])
    else if off + len <= |f| then Some(f[off..off + len])
    else None
  }

  /** The file after a seek to `off` and a complete write of `data`: gaps are zero-filled, an empty write does
      nothing. */
  function WriteAt(f: Bytes, off: nat, data: Bytes): Bytes
  {
    if data == [] then f
    else if off + |data| <= |f| then f[..off] + data + f[off + |data|..]
    else (if off <= |f| then f[..off] else f + Zeros(off - |f|)) + data
  }

  /** A read gives the bytes from the offset on; only an empty one may start past the end. */
  lemma ReadExactly(f: Bytes, off: nat, len: nat)
    ensures ReadAt(f, off, len).Some? <==> len == 0 || off + len <= |f|
    ensures ReadAt(f, off, len).Some? ==> forall i | 0 <= i < len :: ReadAt(f, off, len).value[i] == f[off + i]
  {
  }

  /** A write changes the bytes it covers and no others, and lengthens the file as far as it reaches, with zeros before
      it; an empty one does not lengthen it. */
  lemma WriteExactly(f: Bytes, off: nat, data: Bytes)
    ensures var g := WriteAt(f, off, data);
            && |g| == (if data != [] && off + |data| > |f| then off + |data| else |f|)
            && forall i | 0 <= i < |g| ::
                 g[i] == if off <= i < off + |data| then data[i - off] else if i < |f| then f[i] else 0
  {
  }

  /** A write inside the file keeps its length, is read back, and leaves every disjoint range alone. */
  lemma WriteInside(f: Bytes, off: nat, data: Bytes)
    requires off + |data| <= |f|
    ensures |WriteAt(f, off, data)| == |f|
    ensures ReadAt(WriteAt(f, off, data), off, |data|) == Some(data)
    ensures forall i | 0 <= i < |f| ::
              WriteAt(f, off, data)[i] == if off <= i < off + |data| then data[i - off] else f[i]
  {
    var g := WriteAt(f, off, data);
    if data != [] {
      assert g[off..off + |data|] == data;
    }
  }

  lemma WriteElsewhere(f: Bytes, off: nat, data: Bytes, o: nat, n: nat)
    requires off + |data| <= |f|
    requires o + n <= off || off + |data| <= o
    ensures ReadAt(WriteAt(f, off, data), o, n) == ReadAt(f, o, n)
  {
    WriteInside(f, off, data);
    var g := WriteAt(f, off, data);
    if 0 < n && o + n <= |f| {
      assert g[o..o + n] == f[o..o + n];
    }
  }

  /** An open file: a cursor over bytes. */
  class Handle {
    var bytes: Bytes
    var pos: nat

    constructor (b: Bytes)
      ensures bytes == b && pos == 0
    {
      bytes, pos := b, 0;
    }

    method Seek(off: nat)
      modifies `pos
      ensures pos == off
    {
      pos := off;
    }

    method ReadExact(len: nat) returns (r: Option<Bytes>)
      modifies `pos
      ensures r == ReadAt(bytes, old(pos), len)
      ensures r.Some? ==> pos == old(pos) + len
    {
      r := ReadAt(bytes, pos, len);
      pos := if r.Some? then pos + len else if pos <= |bytes| then |bytes| else pos;
    }

    method WriteAll(data: Bytes)
      modifies this
      ensures bytes == WriteAt(old(bytes), old(pos), data) && pos == old(pos) + |data|
    {
      bytes := WriteAt(bytes, pos, data);
      pos := pos + |data|;
    }
  }
}
