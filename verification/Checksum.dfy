/** The zero-seed Adler-32 of crates/steam/src/util/checksum.rs, summed in blocks with the modulo deferred. */
module Checksum {
  import opened Base

  const BASE := 65521
  const BLOCK := 5552

  newtype u32 = x: int | 0 <= x < 0x1_0000_0000

  datatype Sums = Sums(s1: nat, s2: nat)

  /** The definition: both sums reduced after every byte. */
  function PerByte(data: Bytes): (r: Sums)
    ensures r.s1 < BASE && r.s2 < BASE
  {
    if data == [] then Sums(0, 0) else Reduce(Add(PerByte(data[..|data| - 1]), data[|data| - 1]))
  }

  function Add(s: Sums, x: Byte): Sums
  {
    Sums(s.s1 + x, s.s2 + s.s1 + x)
  }

  /** `n % BASE`, as a recursion the proofs below can follow. */
  function Residue(n: nat): (r: nat)
    ensures r < BASE
  {
    if n < BASE then n else Residue(n - BASE)
  }

  lemma {:induction false} ResidueIsMod(n: nat)
    ensures Residue(n) == n % BASE
  {
    if n >= BASE {
      ResidueIsMod(n - BASE);
    }
  }

  function Reduce(s: Sums): (r: Sums)
    ensures r.s1 < BASE && r.s2 < BASE
  {
    Sums(Residue(s.s1), Residue(s.s2))
  }

  function SteamAdler(data: Bytes): nat
  {
    var s := PerByte(data);
    s.s2 * 0x1_0000 + s.s1
  }

  /** Plain sums over one block, no modulo at all. */
  function Raw(s: Sums, block: Bytes): Sums
  {
    if block == [] then s else Add(Raw(s, block[..|block| - 1]), block[|block| - 1])
  }

  /** The largest second sum a block of `n` bytes can reach from reduced starting sums. */
  function Worst(n: nat): nat
  {
    BASE - 1 + n * (BASE - 1) + 255 * (n * (n + 1) / 2)
  }

  lemma WorstStep(n: nat)
    ensures Worst(n + 1) == Worst(n) + BASE - 1 + 255 * (n + 1)
  {
    assert (n + 1) * (n + 2) == n * (n + 1) + 2 * (n + 1);
    assert (n * (n + 1) + 2 * (n + 1)) / 2 == n * (n + 1) / 2 + (n + 1);
  }

  lemma WorstMonotone(m: nat, n: nat)
    requires m <= n
    ensures Worst(m) <= Worst(n)
    decreases n - m
  {
    if m < n {
      WorstStep(m);
      WorstMonotone(m + 1, n);
    }
  }

  lemma {:induction false} RawBound(s: Sums, block: Bytes)
    requires s.s1 < BASE && s.s2 < BASE
    ensures Raw(s, block).s1 <= BASE - 1 + 255 * |block|
    ensures Raw(s, block).s2 <= Worst(|block|)
  {
    if block != [] {
      RawBound(s, block[..|block| - 1]);
      WorstStep(|block| - 1);
    }
  }

  lemma {:induction false} RawWorst(n: nat)
    ensures Raw(Sums(BASE - 1, BASE - 1), seq(n, _ => 255)) == Sums(BASE - 1 + 255 * n, Worst(n))
  {
    if n > 0 {
      RawWorst(n - 1);
      WorstStep(n - 1);
      assert seq(n, _ => 255 as Byte)[..n - 1] == seq(n - 1, _ => 255 as Byte);
    }
  }

  ghost predicate BlockFits(n: nat)
  {
    forall s: Sums, block: Bytes :: s.s1 < BASE && s.s2 < BASE && |block| == n ==>
      Raw(s, block).s1 < U32 && Raw(s, block).s2 < U32
  }

  /** 5552 is exactly the largest block length whose sums fit 32 bits from any reduced start. */
  lemma BlockLengthIsTight(n: nat)
    ensures BlockFits(n) <==> n <= BLOCK
  {
    if n <= BLOCK {
      forall s: Sums, block: Bytes | s.s1 < BASE && s.s2 < BASE && |block| == n
        ensures Raw(s, block).s1 < U32 && Raw(s, block).s2 < U32
      {
        RawBound(s, block);
        WorstMonotone(n, BLOCK);
      }
    } else {
      RawWorst(n);
      WorstMonotone(BLOCK + 1, n);
      var block: Bytes := seq(n, _ => 255);
      assert Raw(Sums(BASE - 1, BASE - 1), block).s2 == Worst(n) >= U32;
    }
  }

  /** Reducing once after a block gives what reducing after each of its bytes gives. */
  lemma {:induction false} DeferredModulo(done: Bytes, block: Bytes)
    ensures PerByte(done + block) == Reduce(Raw(PerByte(done), block))
  {
    if block == [] {
      assert done + block == done;
      ReduceReduced(PerByte(done));
    } else {
      var n := |block| - 1;
      var r, x := Raw(PerByte(done), block[..n]), block[n];
      calc {
        PerByte(done + block);
        { AppendLast(done, block); }
        PerByte(done + block[..n] + [x]);
        { PerByteAppend(done + block[..n], x); }
        Reduce(Add(PerByte(done + block[..n]), x));
        { DeferredModulo(done, block[..n]); }
        Reduce(Add(Reduce(r), x));
        { ReduceLate(r, x); }
        Reduce(Add(r, x));
        Reduce(Raw(PerByte(done), block));
      }
    }
  }

  lemma AppendLast(a: Bytes, b: Bytes)
    requires b != []
    ensures a + b == a + b[..|b| - 1] + [b[|b| - 1]]
  {
  }

  lemma PerByteAppend(data: Bytes, x: Byte)
    ensures PerByte(data + [x]) == Reduce(Add(PerByte(data), x))
  {
    assert (data + [x])[..|data|] == data;
  }

  lemma ReduceReduced(s: Sums)
    requires s.s1 < BASE && s.s2 < BASE
    ensures Reduce(s) == s
  {
  }

  lemma ReduceLate(s: Sums, x: Byte)
    ensures Reduce(Add(Reduce(s), x)) == Reduce(Add(s, x))
  {
    ResidueAdd(s.s1, x);
    ResidueAdd(s.s2, Residue(s.s1) + x);
    ResidueAdd(s.s1, s.s2 + x);
  }

  lemma {:induction false} ResidueAdd(a: nat, b: nat)
    ensures Residue(Residue(a) + b) == Residue(a + b)
  {
    if a >= BASE {
      ResidueAdd(a - BASE, b);
    }
  }

  /** The sums after one more byte of a block, and that they fit. */
  lemma RawNext(start: Sums, block: Bytes, j: nat)
    requires start.s1 < BASE && start.s2 < BASE && j < |block| <= BLOCK
    ensures Raw(start, block[..j + 1]) == Add(Raw(start, block[..j]), block[j])
    ensures Raw(start, block[..j + 1]).s1 < U32 && Raw(start, block[..j + 1]).s2 < U32
  {
    assert block[..j + 1][..j] == block[..j];
    RawBound(start, block[..j + 1]);
    WorstMonotone(j + 1, BLOCK);
  }

  lemma BlockReduced(data: Bytes, i: nat, end: nat)
    requires i <= end <= |data|
    ensures PerByte(data[..end]) == Reduce(Raw(PerByte(data[..i]), data[i..end][..end - i]))
  {
    assert data[i..end][..end - i] == data[i..end] && data[..i] + data[i..end] == data[..end];
    DeferredModulo(data[..i], data[i..end]);
  }

  // ---------------------------------------------------------------- the value

  function ByteSum(data: Bytes): nat
  {
    if data == [] then 0 else data[0] + ByteSum(data[1..])
  }

  /** Each byte weighs as much as there are bytes from it to the end. */
  function WeightedSum(data: Bytes): nat
  {
    if data == [] then 0 else |data| * data[0] + WeightedSum(data[1..])
  }

  lemma {:induction false} SumsAppend(data: Bytes, x: Byte)
    ensures ByteSum(data + [x]) == ByteSum(data) + x
    ensures WeightedSum(data + [x]) == WeightedSum(data) + ByteSum(data) + x
  {
    if data == [] {
      assert data + [x] == [x] && [x][1..] == [];
    } else {
      assert (data + [x])[1..] == data[1..] + [x];
      SumsAppend(data[1..], x);
    }
  }

  lemma {:induction false} PerByteIsSums(data: Bytes)
    ensures PerByte(data) == Sums(Residue(ByteSum(data)), Residue(WeightedSum(data)))
  {
    if data != [] {
      var front, x := data[..|data| - 1], data[|data| - 1];
      PerByteIsSums(front);
      SumsAppend(front, x);
      assert data == front + [x];
      ReduceLate(Sums(ByteSum(front), WeightedSum(front)), x);
    }
  }

  /** The low half is the plain sum of the bytes, the high half the weighted one, each modulo 65521. */
  lemma AdlerValue(data: Bytes)
    ensures SteamAdler(data) % 0x1_0000 == ByteSum(data) % 65521
    ensures SteamAdler(data) / 0x1_0000 == WeightedSum(data) % 65521
  {
    PerByteIsSums(data);
    ResidueIsMod(ByteSum(data));
    ResidueIsMod(WeightedSum(data));
    Packed(Residue(WeightedSum(data)), Residue(ByteSum(data)));
  }

  lemma Packed(high: nat, low: nat)
    requires low < 0x1_0000
    ensures (high * 0x1_0000 + low) % 0x1_0000 == low && (high * 0x1_0000 + low) / 0x1_0000 == high
  {
  }

  /** The nested loops: 32-bit sums, reduced once per block of 5552 bytes. No step leaves the 32-bit range. */
  method Compute(data: Bytes) returns (sum: u32)
    ensures sum as int == SteamAdler(data)
    ensures sum as int % 0x1_0000 == ByteSum(data) % 65521
    ensures sum as int / 0x1_0000 == WeightedSum(data) % 65521
  {
    var s1: u32, s2: u32 := 0, 0;
    var i := 0;
    while i < |data|
      invariant 0 <= i <= |data|
      invariant Sums(s1 as int, s2 as int) == PerByte(data[..i])
    {
      var end := if i + BLOCK <= |data| then i + BLOCK else |data|;
      var block := data[i..end];
      ghost var start := Sums(s1 as int, s2 as int);
      var j := 0;
      while j < |block|
        invariant 0 <= j <= |block|
        invariant Sums(s1 as int, s2 as int) == Raw(start, block[..j])
      {
        RawNext(start, block, j);
        s1 := s1 + block[j] as u32;
        s2 := s2 + s1;
        j := j + 1;
      }
      BlockReduced(data, i, end);
      ResidueIsMod(s1 as int);
      ResidueIsMod(s2 as int);
      s1 := s1 % 65521;
      s2 := s2 % 65521;
      i := end;
    }
    assert data[..i] == data;
    AdlerValue(data);
    sum := s2 * 0x1_0000 + s1;
  }
}
