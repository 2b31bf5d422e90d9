/** The two KeyValue formats, spelled out: type bytes and value bytes of the binary one, escapes, white space and errors
    of the text one (crates/steam/src/types/key_value.rs:25-346). */
module KvLayout {
  import opened Base
  import opened LittleEndian
  import opened NullStrings
  import opened KeyValues
  import Binary = KvBinary
  import Text = KvText

  // ---------------------------------------------------------------- binary

  lemma Read32(v: Bytes)
    ensures Binary.ReadI32(v) == if |v| < 4 then Err(Binary.Truncated) else Ok((Signed32(U32At(v, 0)), v[4..]))
  {
    Numbers(v, 0);
    if |v| >= 4 {
      assert v[..4] == v[0..4];
    }
  }

  lemma Read64(v: Bytes)
    ensures Binary.ReadU64(v) == if |v| < 8 then Err(Binary.Truncated) else Ok((U64At(v, 0), v[8..]))
  {
    Numbers(v, 0);
    if |v| >= 8 {
      assert v[..8] == v[0..8];
    }
  }

  /** The value after a key: `v` are the bytes there and `tag` is the node's first byte. */
  function ValueOf(c: TextCodec, tag: Byte, v: Bytes): Binary.Parsed<Value>
    requires tag != 0x00
  {
    match tag
    case 0x01 => if 0 !in v then Err(Binary.Truncated) else Ok((Str(c.lossy(v[..Zero(v)])), v[Zero(v) + 1..]))
    case 0x02 => if |v| < 4 then Err(Binary.Truncated) else Ok((Int32(Signed32(U32At(v, 0))), v[4..]))
    case 0x03 => if |v| < 4 then Err(Binary.Truncated) else Ok((Float32(v[..4]), v[4..]))
    case 0x04 => if |v| < 4 then Err(Binary.Truncated) else Ok((Pointer(Signed32(U32At(v, 0))), v[4..]))
    case 0x05 => Ok((Str(""), v))
    case 0x06 => if |v| < 4 then Err(Binary.Truncated) else Ok((Color(Signed32(U32At(v, 0))), v[4..]))
    case 0x07 => if |v| < 8 then Err(Binary.Truncated) else Ok((UInt64(U64At(v, 0)), v[8..]))
    case 0x08 => Err(Binary.SectionEnd)
    case 0x0A => if |v| < 8 then Err(Binary.Truncated) else Ok((Int64(Signed64(U64At(v, 0))), v[8..]))
    case 0x0B => Err(Binary.SectionEnd)
    case _ => Err(Binary.InvalidTag)
  }

  function Zero(b: Bytes): (z: nat)
    requires 0 in b
    ensures ZeroAt(b, z)
  {
    FirstZeroIs(b);
    FirstZero(b).value
  }

  lemma ScalarLayout(c: TextCodec, tag: Byte, v: Bytes)
    requires tag != 0x00 && Binary.FromU8(tag).Some?
    ensures Binary.Scalar(c, Binary.FromU8(tag).value, v) == ValueOf(c, tag, v)
  {
    Read32(v);
    Read64(v);
    FirstZeroIs(v);
  }

  /** A node: a type byte, a key up to a NUL, and what the type byte says follows. */
  lemma NodeLayout(c: TextCodec, b: Bytes)
    ensures var r := Binary.Node(c, b);
            if b == [] then r == Err(Binary.Truncated)
            else if b[0] == 0x09 || b[0] > 0x0B then r == Err(Binary.InvalidTag)
            else if 0 !in b[1..] then r == Err(Binary.Truncated)
            else
              var z := Zero(b[1..]);
              var key, v := c.lossy(b[1..][..z]), b[1..][z + 1..];
              if b[0] == 0x00 then
                var kids := Binary.Kids(c, v, map[]);
                r == if kids.Err? then Err(kids.error)
                     else Ok((KeyValue(key, Children(kids.value.0)), kids.value.1))
              else
                r == if ValueOf(c, b[0], v).Err? then Err(ValueOf(c, b[0], v).error)
                     else Ok((KeyValue(key, ValueOf(c, b[0], v).value.0), ValueOf(c, b[0], v).value.1))
  {
    if b != [] {
      FirstZeroIs(b[1..]);
      if 0 in b[1..] && b[0] != 0x00 && Binary.FromU8(b[0]).Some? {
        ScalarLayout(c, b[0], b[1..][Zero(b[1..]) + 1..]);
      }
    }
  }

  /** The children of a section: up to a byte 0x08 or 0x0B, which is taken, or to the end of the input. */
  lemma KidsLayout(c: TextCodec, b: Bytes, children: map<string, KeyValue>)
    ensures var r := Binary.Kids(c, b, children);
            if b == [] then r == Ok((children, []))
            else if b[0] == 0x08 || b[0] == 0x0B then r == Ok((children, b[1..]))
            else
              var node := Binary.Node(c, b);
              r == if node.Err? then Err(node.error)
                   else Binary.Kids(c, node.value.1, children[node.value.0.key := node.value.0])
  {
  }

  // ---------------------------------------------------------------- text: strings

  /** Between the quotes: a character that is neither a quote nor a backslash, or a backslash and any character. */
  datatype Token = Plain(c: char) | Escaped(c: char)

  predicate ValidTokens(tokens: seq<Token>)
  {
    forall i | 0 <= i < |tokens| :: tokens[i].Plain? ==> tokens[i].c as int != 34 && tokens[i].c as int != 92
  }

  function TokenText(t: Token): string
  {
    match t
    case Plain(c) => [c]
    case Escaped(c) => [92 as char, c]
  }

  /** After a backslash `n` is a line feed, `t` a tab, a backslash and a quote themselves; any other character keeps its
      backslash. */
  function Meaning(t: Token): string
  {
    match t
    case Plain(c) => [c]
    case Escaped(c) =>
      if c as int == 110 then [10 as char]
      else if c as int == 116 then [9 as char]
      else if c as int == 92 then [92 as char]
      else if c as int == 34 then [34 as char]
      else [92 as char, c]
  }

  function Texts(tokens: seq<Token>, rest: string): string
  {
    if tokens == [] then rest else TokenText(tokens[0]) + Texts(tokens[1..], rest)
  }

  function Meanings(tokens: seq<Token>): string
  {
    if tokens == [] then "" else Meaning(tokens[0]) + Meanings(tokens[1..])
  }

  lemma OneToken(t: Token, more: string)
    requires ValidTokens([t])
    ensures Text.Unescape(TokenText(t) + more) ==
            match Text.Unescape(more)
            case None => None
            case Some((text, rest)) => Some((Meaning(t) + text, rest))
  {
    assert [t][0] == t;
    var s := TokenText(t) + more;
    match t
    case Plain(c) => assert s[0] == c && s[1..] == more;
    case Escaped(c) => assert s[0] == '\\' && s[1] == c && s[2..] == more;
  }

  lemma {:induction false} TokensBack(tokens: seq<Token>, rest: string)
    requires ValidTokens(tokens)
    ensures Text.Unescape(Texts(tokens, [34 as char] + rest)) == Some((Meanings(tokens), rest))
  {
    if tokens != [] {
      TokensBack(tokens[1..], rest);
      OneToken(tokens[0], Texts(tokens[1..], [34 as char] + rest));
    } else {
      assert ([34 as char] + rest)[1..] == rest;
    }
  }

  lemma {:induction false} TokensOf(s: string) returns (tokens: seq<Token>)
    requires Text.Unescape(s).Some?
    ensures var (text, rest) := Text.Unescape(s).value;
            ValidTokens(tokens) && s == Texts(tokens, [34 as char] + rest) && text == Meanings(tokens)
    decreases |s|
  {
    if s[0] == '"' {
      tokens := [];
      assert s == [34 as char] + s[1..];
    } else {
      var t := if s[0] == '\\' then Escaped(s[1]) else Plain(s[0]);
      var n := if s[0] == '\\' then 2 else 1;
      var more := TokensOf(s[n..]);
      tokens := [t] + more;
      assert tokens[1..] == more;
      assert s == TokenText(t) + s[n..];
    }
  }

  /** What stands between the quotes is unescaped token by token, up to the first quote that is no part of an escape;
      every string that has one is accepted. */
  lemma UnescapeExactly(s: string, text: string, rest: string)
    ensures Text.Unescape(s) == Some((text, rest)) <==>
            exists tokens :: ValidTokens(tokens) && s == Texts(tokens, [34 as char] + rest) && text == Meanings(tokens)
  {
    if Text.Unescape(s) == Some((text, rest)) {
      var tokens := TokensOf(s);
    }
    if tokens :| ValidTokens(tokens) && s == Texts(tokens, [34 as char] + rest) && text == Meanings(tokens) {
      TokensBack(tokens, rest);
    }
  }

  // ---------------------------------------------------------------- text: comments and errors

  /** A line comment ends after its line feed, or with the text. */
  lemma {:induction false} AfterLineExactly(s: string)
    ensures match Text.AfterLine(s)
            case t =>
              || (t == "" && forall i | 0 <= i < |s| :: s[i] as int != 10)
              || exists n :: 0 <= n < |s| && s[n] as int == 10 && t == s[n + 1..] && forall i | 0 <= i < n ::
                   s[i] as int != 10
  {
    if s != "" && s[0] != '\n' {
      AfterLineExactly(s[1..]);
      var t := Text.AfterLine(s[1..]);
      if n :| 0 <= n < |s[1..]| && s[1..][n] as int == 10 && t == s[1..][n + 1..] &&
              forall i | 0 <= i < n :: s[1..][i] as int != 10 {
        assert s[n + 1] as int == 10 && s[1..][n + 1..] == s[n + 2..];
        assert forall i | 1 <= i < n + 1 :: s[i] == s[1..][i - 1];
      } else {
        assert forall i | 1 <= i < |s| :: s[i] == s[1..][i - 1];
      }
    } else if s != "" {
      assert s[0] as int == 10;
    }
  }

  /** Which error it is: no quote where a string must start, or a string that does not end; and after a key, neither a
      brace nor a quote. */
  lemma TextErrors(s: string)
    ensures Text.Quoted(s) ==
            var t := Text.Skip(s);
            if t == "" || t[0] as int != 34 then Err(Text.ExpectedQuote)
            else if Text.Unescape(t[1..]).None? then Err(Text.UnexpectedEof)
            else Ok(Text.Unescape(t[1..]).value)
    ensures Text.Quoted(Text.Skip(s)).Ok? ==>
              var t := Text.Skip(Text.Quoted(Text.Skip(s)).value.1);
              t == "" || (t[0] as int != 123 && t[0] as int != 34) ==> Text.Node(s) == Err(Text.UnexpectedEof)
    ensures Text.Quoted(Text.Skip(s)).Err? ==> Text.Node(s) == Err(Text.Quoted(Text.Skip(s)).error)
  {
  }
}
