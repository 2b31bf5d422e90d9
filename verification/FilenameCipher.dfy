/** Decrypting one file name (crates/steam/src/depot/manifest.rs:374-423). */
module FilenameCipher {
  import opened Base
  import opened NullStrings
  import opened SessionCipher
  import opened Whitespace

  /** Base64, the block cipher under the depot key, and UTF-8. */
  datatype NameCodec = NameCodec(base64: string -> Option<Bytes>, key: Cipher, text: TextCodec)

  /** The characters that are no white space. */
  function Squeezed(s: string): string
  {
    if s == "" then "" else (if IsSpace(s[0]) then "" else [s[0]]) + Squeezed(s[1..])
  }

  function UpToZero(b: Bytes): Bytes
  {
    match FirstZero(b)
    case None => b
    case Some(z) => b[..z]
  }

  function Slashed(s: string): (t: string)
    ensures |t| == |s|
  {
    seq(|s|, i requires 0 <= i < |s| => if s[i] == '\\' then '/' else s[i])
  }

  /** The first block decrypts to the vector of the others. */
  function Opened(c: Cipher, data: Bytes): Option<Bytes>
  {
    if |data| < 32 || |data| % 16 != 0 then None else Unpad(CbcDec(c, c.dec(data[..16]), data[16..]))
  }

  function DecryptName(n: NameCodec, s: string): Option<string>
  {
    match n.base64(Squeezed(s))
    case None => None
    case Some(data) =>
      match Opened(n.key, data)
      case None => None
      case Some(plain) => Some(Slashed(n.text.lossy(UpToZero(plain))))
  }

  /** White space before, after or inside an encrypted name is of no account. */
  lemma {:induction false} SqueezedAppend(s: string, t: string)
    ensures Squeezed(s + t) == Squeezed(s) + Squeezed(t)
  {
    if s == "" {
      assert s + t == t;
    } else {
      var first := if IsSpace(s[0]) then "" else [s[0]];
      assert (s + t)[1..] == s[1..] + t;
      SqueezedAppend(s[1..], t);
      assert first + (Squeezed(s[1..]) + Squeezed(t)) == first + Squeezed(s[1..]) + Squeezed(t);
    }
  }

  lemma {:induction false} SqueezedExactly(s: string)
    ensures (forall i | 0 <= i < |s| :: !IsSpace(s[i])) ==> Squeezed(s) == s
    ensures (forall i | 0 <= i < |s| :: IsSpace(s[i])) ==> Squeezed(s) == ""
  {
    if s != "" {
      SqueezedExactly(s[1..]);
      assert s == [s[0]] + s[1..];
    }
  }

  /** A backslash (code 92) becomes a slash (code 47), and nothing else changes. */
  lemma SlashedExactly(s: string, i: nat)
    requires i < |s|
    ensures Slashed(s)[i] as int == if s[i] as int == 92 then 47 else s[i] as int
  {
  }

  /** The encryption of `plain` under the vector. */
  function Closed(c: Cipher, iv: Bytes, plain: Bytes): Bytes
  {
    c.enc(iv) + CbcEnc(c, iv, Pad(plain))
  }

  lemma ClosedOpens(c: Cipher, iv: Bytes, plain: Bytes)
    requires Permutation(c) && |iv| == 16
    ensures Opened(c, Closed(c, iv, plain)) == Some(plain)
  {
    var padded := Pad(plain);
    CbcDecEnc(c, iv, padded);
    UnpadExact(padded, plain);
    OneBlockMore(|padded|);
    OpenedParts(c, c.enc(iv), CbcEnc(c, iv, padded));
  }

  lemma OpenedParts(c: Cipher, first: Bytes, body: Bytes)
    requires |first| == 16 && |body| >= 16 && (16 + |body|) % 16 == 0
    ensures Opened(c, first + body) == Unpad(CbcDec(c, c.dec(first), body))
  {
    Halves(first, body);
  }

  lemma OneBlockMore(n: nat)
    requires n % 16 == 0 && n > 0
    ensures n >= 16 && (16 + n) % 16 == 0
  {
  }

  lemma OpensOnlyClosed(c: Cipher, data: Bytes, plain: Bytes)
    requires Permutation(c) && Opened(c, data) == Some(plain)
    ensures |c.dec(data[..16])| == 16 && data == Closed(c, c.dec(data[..16]), plain)
  {
    var iv := c.dec(data[..16]);
    CbcEncDec(c, iv, data[16..]);
    UnpadExact(CbcDec(c, iv, data[16..]), plain);
    Join(data, 16);
  }

  /** `s`, its white space aside, is base64 of `plain` encrypted under the vector, behind the encrypted vector. */
  ghost predicate Encrypts(n: NameCodec, s: string, iv: Bytes, plain: Bytes)
  {
    |iv| == 16 && n.base64(Squeezed(s)) == Some(Closed(n.key, iv, plain))
  }

  /** A name decrypts exactly if it is such an encryption, and then to the text before the first NUL, with slashes for
      backslashes. */
  lemma DecryptNameExactly(n: NameCodec, s: string, name: string)
    requires Permutation(n.key)
    ensures DecryptName(n, s) == Some(name) <==>
            exists iv, plain :: Encrypts(n, s, iv, plain) && name == Slashed(n.text.lossy(UpToZero(plain)))
  {
    var data := n.base64(Squeezed(s));
    if DecryptName(n, s) == Some(name) {
      var plain := Opened(n.key, data.value).value;
      OpensOnlyClosed(n.key, data.value, plain);
      assert Encrypts(n, s, n.key.dec(data.value[..16]), plain);
    }
    if iv, plain :| Encrypts(n, s, iv, plain) && name == Slashed(n.text.lossy(UpToZero(plain))) {
      ClosedOpens(n.key, iv, plain);
    }
  }

  /** A name without NUL that was encrypted comes back, whether or not a NUL and anything else was put after it,
      whatever white space has been put into the text. */
  lemma NameBack(n: NameCodec, s: string, iv: Bytes, name: string, after: Bytes)
    requires Permutation(n.key) && Carries(n.text, name)
    requires Encrypts(n, s, iv, n.text.encode(name)) || Encrypts(n, s, iv, n.text.encode(name) + ([0] + after))
    ensures DecryptName(n, s) == Some(Slashed(name))
  {
    var e := n.text.encode(name);
    FirstZeroIs(e);
    FirstZeroAfter(e, after);
    Halves(e, [0] + after);
    if Encrypts(n, s, iv, e) {
      ClosedOpens(n.key, iv, e);
    } else {
      ClosedOpens(n.key, iv, e + ([0] + after));
    }
  }
}
