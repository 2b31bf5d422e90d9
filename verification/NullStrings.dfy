/** NUL-terminated strings, as the binary KeyValue parser and the version 4 manifest parser read them. */
module NullStrings {
  import opened Base

  /** UTF-8, with `lossy` replacing what is not valid. */
  datatype TextCodec = TextCodec(lossy: Bytes -> string, encode: string -> Bytes)

  /** The text survives being written and read back: it holds no NUL, and decoding inverts encoding. */
  ghost predicate Carries(c: TextCodec, s: string)
  {
    0 !in c.encode(s) && c.lossy(c.encode(s)) == s
  }

  function FirstZero(b: Bytes): (at: Option<nat>)
    ensures at.Some? ==> at.value < |b|
  {
    if b == [] then None
    else if b[0] == 0 then Some(0)
    else
      match FirstZero(b[1..])
      case None => None
      case Some(i) => Some(i + 1)
  }

  /** The first zero byte. */
  predicate ZeroAt(b: Bytes, z: nat)
  {
    z < |b| && b[z] == 0 && forall i | 0 <= i < z :: b[i] != 0
  }

  lemma {:induction false} FirstZeroIs(b: Bytes)
    ensures match FirstZero(b)
            case None => 0 !in b
            case Some(z) => ZeroAt(b, z)
  {
    if b != [] && b[0] != 0 {
      FirstZeroIs(b[1..]);
      assert b == [b[0]] + b[1..];
    }
  }

  lemma ZeroAtOnce(b: Bytes, y: nat, z: nat)
    requires ZeroAt(b, y) && ZeroAt(b, z)
    ensures y == z
  {
  }

  lemma {:induction false} FirstZeroAfter(a: Bytes, rest: Bytes)
    requires 0 !in a
    ensures FirstZero(a + ([0] + rest)) == Some(|a|)
  {
    if a != [] {
      assert (a + ([0] + rest))[1..] == a[1..] + ([0] + rest);
      FirstZeroAfter(a[1..], rest);
    }
  }

  /** The string before the first NUL, and what follows that NUL. */
  function NullString(c: TextCodec, b: Bytes): (r: Option<(string, Bytes)>)
    ensures r.Some? ==> |r.value.1| < |b|
  {
    match FirstZero(b)
    case None => None
    case Some(i) => Some((c.lossy(b[..i]), b[i + 1..]))
  }

  predicate IsSuffix(t: Bytes, b: Bytes)
  {
    |t| <= |b| && b[|b| - |t|..] == t
  }

  lemma NullStringSuffix(c: TextCodec, b: Bytes)
    ensures var r := NullString(c, b); r.Some? ==> IsSuffix(r.value.1, b)
  {
  }

  lemma SuffixOfSuffix(t: Bytes, s: Bytes, b: Bytes)
    requires IsSuffix(t, s) && IsSuffix(s, b)
    ensures IsSuffix(t, b)
  {
    assert b[|b| - |s|..][|s| - |t|..] == b[|b| - |t|..];
  }

  function NullTerminated(c: TextCodec, s: string, rest: Bytes): Bytes
  {
    c.encode(s) + ([0] + rest)
  }

  lemma NullStringBack(c: TextCodec, s: string, rest: Bytes)
    requires Carries(c, s)
    ensures NullString(c, NullTerminated(c, s, rest)) == Some((s, rest))
  {
    var e := c.encode(s);
    var b := NullTerminated(c, s, rest);
    FirstZeroAfter(e, rest);
    assert b[..|e|] == e && b[|e| + 1..] == rest;
  }
}
