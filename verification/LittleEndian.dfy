/** Little-endian integers on byte strings, and the reader and writer that advance over them. */
module LittleEndian {
  import opened Base

  function Pow256(k: nat): (p: nat)
    ensures p > 0
  {
    if k == 0 then 1 else 256 * Pow256(k - 1)
  }

  function Le(n: nat, k: nat): (b: Bytes)
    ensures |b| == k
  {
    if k == 0 then [] else [n % 256] + Le(n / 256, k - 1)
  }

  function UnLe(b: Bytes): nat
  {
    if b == [] then 0 else b[0] + 256 * UnLe(b[1..])
  }

  lemma Widths()
    ensures Pow256(1) == 256 && Pow256(2) == 0x1_0000 && Pow256(4) == U32 && Pow256(8) == U64
  {
    assert Pow256(4) == 256 * (256 * (256 * (256 * Pow256(0))));
    assert Pow256(8) == 256 * (256 * (256 * (256 * Pow256(4))));
  }

  lemma {:induction false} UnLeLe(n: nat, k: nat)
    requires n < Pow256(k)
    ensures UnLe(Le(n, k)) == n
  {
    if k > 0 {
      UnLeLe(n / 256, k - 1);
      assert Le(n, k)[1..] == Le(n / 256, k - 1);
    }
  }

  lemma {:induction false} LeUnLe(b: Bytes)
    ensures UnLe(b) < Pow256(|b|) && Le(UnLe(b), |b|) == b
  {
    if b != [] {
      LeUnLe(b[1..]);
      assert b == [b[0]] + b[1..];
    }
  }

  /** Takes a `k`-byte integer off the front. */
  function ReadUint(b: Bytes, k: nat): Option<(nat, Bytes)>
  {
    if |b| < k then None else Some((UnLe(b[..k]), b[k..]))
  }

  lemma ReadBack(n: nat, k: nat, rest: Bytes)
    requires n < Pow256(k)
    ensures ReadUint(Le(n, k) + rest, k) == Some((n, rest))
  {
    UnLeLe(n, k);
    assert (Le(n, k) + rest)[..k] == Le(n, k) && (Le(n, k) + rest)[k..] == rest;
  }

  lemma ReadExact(b: Bytes, k: nat)
    requires |b| >= k
    ensures UnLe(b[..k]) < Pow256(k) && b == Le(UnLe(b[..k]), k) + b[k..]
  {
    LeUnLe(b[..k]);
  }

  /** A run of integers of the given widths. */
  function Fields(values: seq<nat>, widths: seq<nat>): Bytes
    requires |values| == |widths|
  {
    if values == [] then [] else Le(values[0], widths[0]) + Fields(values[1..], widths[1..])
  }

  function ReadFields(b: Bytes, widths: seq<nat>): Option<(seq<nat>, Bytes)>
  {
    if widths == [] then Some(([], b))
    else
      match ReadUint(b, widths[0])
      case None => None
      case Some((n, rest)) =>
        match ReadFields(rest, widths[1..])
        case None => None
        case Some((ns, after)) => Some(([n] + ns, after))
  }

  ghost predicate Fits(values: seq<nat>, widths: seq<nat>)
  {
    |values| == |widths| && forall i | 0 <= i < |values| :: values[i] < Pow256(widths[i])
  }

  lemma {:induction false} ReadFieldsBack(values: seq<nat>, widths: seq<nat>, rest: Bytes)
    requires Fits(values, widths)
    ensures ReadFields(Fields(values, widths) + rest, widths) == Some((values, rest))
  {
    if values != [] {
      var head, tail := Le(values[0], widths[0]), Fields(values[1..], widths[1..]);
      ReadFieldsBack(values[1..], widths[1..], rest);
      ReadBack(values[0], widths[0], tail + rest);
      assert head + tail + rest == head + (tail + rest);
      assert [values[0]] + values[1..] == values;
    } else {
      assert Fields(values, widths) + rest == rest;
    }
  }

  lemma FieldsHead(values: seq<nat>, widths: seq<nat>, rest: Bytes)
    requires |values| == |widths| > 0
    ensures Fields(values, widths) + rest == Le(values[0], widths[0]) + (Fields(values[1..], widths[1..]) + rest)
  {
  }

  function Sum(widths: seq<nat>): nat
  {
    if widths == [] then 0 else widths[0] + Sum(widths[1..])
  }

  lemma {:induction false} FieldsLength(values: seq<nat>, widths: seq<nat>)
    requires |values| == |widths|
    ensures |Fields(values, widths)| == Sum(widths)
  {
    if values != [] {
      FieldsLength(values[1..], widths[1..]);
    }
  }

  /** A read succeeds exactly on enough bytes, returns one value per width, and what was read writes back to the same
      bytes. */
  lemma {:induction false} FieldsExact(b: Bytes, widths: seq<nat>)
    ensures ReadFields(b, widths).Some? <==> |b| >= Sum(widths)
    ensures var r := ReadFields(b, widths); r.Some? ==>
              Fits(r.value.0, widths) && Fields(r.value.0, widths) + r.value.1 == b
  {
    if widths != [] {
      var w := widths[0];
      if |b| >= w {
        LeUnLe(b[..w]);
        FieldsExact(b[w..], widths[1..]);
        var r := ReadFields(b, widths);
        if r.Some? {
          assert r.value.0[1..] == ReadFields(b[w..], widths[1..]).value.0;
          assert b[..w] + b[w..] == b;
          assert Fields(r.value.0, widths) == b[..w] + Fields(r.value.0[1..], widths[1..]);
          assert b[..w] + Fields(r.value.0[1..], widths[1..]) + r.value.1 ==
                   b[..w] + (Fields(r.value.0[1..], widths[1..]) + r.value.1);
        }
      }
    }
  }

  lemma ReadFieldsCons(b: Bytes, w: nat, ws: seq<nat>)
    ensures var r := ReadUint(b, w);
            ReadFields(b, [w] + ws) ==
            if r.None? then None
            else
              var more := ReadFields(r.value.1, ws);
              if more.None? then None else Some(([r.value.0] + more.value.0, more.value.1))
  {
    assert ([w] + ws)[1..] == ws;
  }

  // ---------------------------------------------------------------- values and offsets, spelled out

  /** The unsigned integers of 2, 4 and 8 bytes at an offset: the first byte counts least. */
  function U16At(b: Bytes, o: nat): nat
    requires o + 2 <= |b|
  {
    b[o] as nat + 0x100 * b[o + 1] as nat
  }

  function U32At(b: Bytes, o: nat): nat
    requires o + 4 <= |b|
  {
    b[o] as nat + 0x100 * b[o + 1] as nat + 0x1_0000 * b[o + 2] as nat + 0x100_0000 * b[o + 3] as nat
  }

  function U64At(b: Bytes, o: nat): nat
    requires o + 8 <= |b|
  {
    U32At(b, o) + 0x1_0000_0000 * U32At(b, o + 4)
  }

  lemma UnLeTwo(s: Bytes)
    requires |s| == 2
    ensures UnLe(s) == U16At(s, 0)
  {
    assert s[1..][0] == s[1] && s[1..][1..] == [];
    assert UnLe(s[1..]) == s[1];
  }

  lemma UnLeFour(s: Bytes)
    requires |s| == 4
    ensures UnLe(s) == U32At(s, 0)
  {
    assert s[1..][0] == s[1] && s[1..][1..] == s[2..];
    UnLeTwo(s[2..]);
  }

  lemma UnLeEight(s: Bytes)
    requires |s| == 8
    ensures UnLe(s) == U64At(s, 0)
  {
    var a, b := s[..4], s[4..];
    UnLeFour(a);
    UnLeFour(b);
    UnLeHighFour(s);
    assert U32At(a, 0) == U32At(s, 0) && U32At(b, 0) == U32At(s, 4);
  }

  lemma UnLeHighFour(s: Bytes)
    requires |s| >= 4
    ensures UnLe(s) == UnLe(s[..4]) + 0x1_0000_0000 * UnLe(s[4..])
  {
    UnLeFour(s[..4]);
    assert s[1..][1..] == s[2..] && s[2..][1..] == s[3..] && s[3..][1..] == s[4..];
    assert UnLe(s[1..]) == s[1] + 256 * UnLe(s[2..]);
    assert UnLe(s[2..]) == s[2] + 256 * UnLe(s[3..]);
    assert UnLe(s[3..]) == s[3] + 256 * UnLe(s[4..]);
  }

  /** What reads and writes of these widths mean. */
  lemma Numbers(b: Bytes, o: nat)
    ensures o + 1 <= |b| ==> UnLe(b[o..o + 1]) == b[o]
    ensures o + 2 <= |b| ==> UnLe(b[o..o + 2]) == U16At(b, o)
    ensures o + 4 <= |b| ==> UnLe(b[o..o + 4]) == U32At(b, o)
    ensures o + 8 <= |b| ==> UnLe(b[o..o + 8]) == U64At(b, o)
  {
    if o + 1 <= |b| {
      assert b[o..o + 1][1..] == [];
    }
    if o + 2 <= |b| {
      UnLeTwo(b[o..o + 2]);
    }
    if o + 4 <= |b| {
      UnLeFour(b[o..o + 4]);
    }
    if o + 8 <= |b| {
      UnLeEight(b[o..o + 8]);
      assert U64At(b[o..o + 8], 0) == U64At(b, o);
    }
  }

  /** Where field `i` starts. */
  function Start(widths: seq<nat>, i: nat): nat
    requires i <= |widths|
  {
    if i == 0 then 0 else Start(widths, i - 1) + widths[i - 1]
  }

  lemma {:induction false} StartCons(widths: seq<nat>, i: nat)
    requires 0 < i <= |widths|
    ensures Start(widths, i) == widths[0] + Start(widths[1..], i - 1)
  {
    if i > 1 {
      StartCons(widths, i - 1);
    }
  }

  /** Field `i` of a read is the number at its offset. */
  lemma {:induction false} FieldAt(b: Bytes, widths: seq<nat>, i: nat)
    requires ReadFields(b, widths).Some? && i < |widths|
    ensures var (v, _) := ReadFields(b, widths).value;
            var o := Start(widths, i);
            && |v| == |widths| && o + widths[i] <= |b| && v[i] == UnLe(b[o..o + widths[i]])
  {
    FieldsExact(b, widths);
    if i > 0 {
      var w, rest := widths[0], b[widths[0]..];
      StartCons(widths, i);
      FieldAt(rest, widths[1..], i - 1);
      var o := Start(widths[1..], i - 1);
      assert rest[o..o + widths[i]] == b[w + o..w + o + widths[i]];
    }
  }

  /** Every value of a read is the number at its offset. */
  ghost predicate ValuesAt(b: Bytes, widths: seq<nat>, v: seq<nat>)
  {
    |v| == |widths| && forall i: nat | i < |widths| :: ValueAt(b, widths, v, i)
  }

  predicate ValueAt(b: Bytes, widths: seq<nat>, v: seq<nat>, i: nat)
    requires i < |v| == |widths|
  {
    var o := Start(widths, i);
    o + widths[i] <= |b| && v[i] == UnLe(b[o..o + widths[i]])
  }

  lemma ReadValues(b: Bytes, widths: seq<nat>, v: seq<nat>, rest: Bytes)
    requires ReadFields(b, widths) == Some((v, rest))
    ensures ValuesAt(b, widths, v) && Sum(widths) <= |b| && rest == b[Sum(widths)..]
  {
    FieldsExact(b, widths);
    FieldsLength(v, widths);
    forall i: nat | i < |widths|
      ensures ValueAt(b, widths, v, i)
    {
      FieldAt(b, widths, i);
    }
  }

  lemma NumberAt(b: Bytes, widths: seq<nat>, v: seq<nat>, i: nat, o: nat)
    requires ValuesAt(b, widths, v) && i < |widths| && Start(widths, i) == o
    ensures o + widths[i] <= |b|
    ensures widths[i] == 1 ==> v[i] == b[o]
    ensures widths[i] == 2 ==> v[i] == U16At(b, o)
    ensures widths[i] == 4 ==> v[i] == U32At(b, o)
    ensures widths[i] == 8 ==> v[i] == U64At(b, o)
  {
    assert ValueAt(b, widths, v, i);
    NumberOf(b, o, widths[i]);
  }

  /** The number of `w` bytes at an offset. */
  lemma NumberOf(b: Bytes, o: nat, w: nat)
    requires o + w <= |b|
    ensures w == 1 ==> UnLe(b[o..o + w]) == b[o]
    ensures w == 2 ==> UnLe(b[o..o + w]) == U16At(b, o)
    ensures w == 4 ==> UnLe(b[o..o + w]) == U32At(b, o)
    ensures w == 8 ==> UnLe(b[o..o + w]) == U64At(b, o)
  {
    Numbers(b, o);
  }

  type I32 = i: int | -0x8000_0000 <= i < 0x8000_0000

  type I64 = i: int | -0x8000_0000_0000_0000 <= i < 0x8000_0000_0000_0000

  /** A number of 32 or 64 bits read as a signed one. */
  function Signed32(n: nat): I32
    requires n < 0x1_0000_0000
  {
    if n < 0x8000_0000 then n else n - 0x1_0000_0000
  }

  function Signed64(n: nat): I64
    requires n < 0x1_0000_0000_0000_0000
  {
    if n < 0x8000_0000_0000_0000 then n else n - 0x1_0000_0000_0000_0000
  }

  /** Two's complement. */
  function OfI32(i: I32): (n: nat)
    ensures n < U32 && ToI32(n) == i
  {
    if i < 0 then i + U32 else i
  }

  function ToI32(n: nat): I32
    requires n < U32
  {
    if n < U32 / 2 then n else n - U32
  }

  function OfI64(i: I64): (n: nat)
    ensures n < U64 && ToI64(n) == i
  {
    if i < 0 then i + U64 else i
  }

  function ToI64(n: nat): I64
    requires n < U64
  {
    if n < U64 / 2 then n else n - U64
  }

  /** A slice that reads advance. */
  class Reader {
    var rest: Bytes

    constructor (b: Bytes)
      ensures rest == b
    {
      rest := b;
    }

    method Uint(k: nat) returns (n: Option<nat>)
      modifies this
      ensures var r := ReadUint(old(rest), k);
              if r.Some? then n == Some(r.value.0) && rest == r.value.1 else n.None? && rest == old(rest)
    {
      if |rest| < k {
        return None;
      }
      n := Some(UnLe(rest[..k]));
      rest := rest[k..];
    }

    method Take(k: nat) returns (b: Option<Bytes>)
      modifies this
      ensures if k <= |old(rest)| then b == Some(old(rest)[..k]) && rest == old(rest)[k..]
              else b.None? && rest == old(rest)
    {
      if |rest| < k {
        return None;
      }
      b := Some(rest[..k]);
      rest := rest[k..];
    }
  }

  /** A growing buffer. */
  class Writer {
    var out: Bytes

    constructor ()
      ensures out == []
    {
      out := [];
    }

    method Uint(n: nat, k: nat)
      modifies this
      ensures out == old(out) + Le(n, k)
    {
      out := out + Le(n, k);
    }

    method All(b: Bytes)
      modifies this
      ensures out == old(out) + b
    {
      out := out + b;
    }
  }
}
