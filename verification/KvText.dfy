/** The text KeyValue format (crates/steam/src/types/key_value.rs:245-346). */
module KvText {
  import opened Base
  import opened KeyValues
  import opened Whitespace

  datatype TextError = UnexpectedEof | ExpectedQuote

  type Parsed<T> = Result<(T, string), TextError>

  // ---------------------------------------------------------------- white space and comments

  /** What follows the first line break; nothing if there is none. */
  function AfterLine(s: string): (t: string)
    ensures |t| <= |s| && (s != "" ==> |t| < |s|)
  {
    if s == "" then "" else if s[0] == '\n' then s[1..] else AfterLine(s[1..])
  }

  function Skip(s: string): (t: string)
    ensures |t| <= |s|
    decreases |s|
  {
    var t := TrimStart(s);
    if "//" <= t then Skip(AfterLine(t)) else t
  }

  method SkipWhitespaceAndComments(input: string) returns (rest: string)
    ensures rest == Skip(input)
  {
    rest := input;
    while true
      invariant Skip(rest) == Skip(input)
      decreases |rest|
    {
      rest := TrimStart(rest);
      if "//" <= rest {
        rest := AfterLine(rest);
      } else {
        break;
      }
    }
  }

  // ---------------------------------------------------------------- quoted strings

  /** What an escape stands for; an unknown one stands for itself. */
  function Decode(c: char): string
  {
    if c == 'n' then "\n" else if c == 't' then "\t" else if c == '\\' then "\\" else if c == '"' then
        "\"" else ['\\', c]
  }

  /** The text up to the closing quote, unescaped, and what follows it. */
  function Unescape(s: string): (r: Option<(string, string)>)
    ensures r.Some? ==> |r.value.1| < |s|
    decreases |s|
  {
    if s == "" then None
    else if s[0] == '"' then Some(("", s[1..]))
    else if s[0] == '\\' then
      if |s| < 2 then None
      else
        match Unescape(s[2..])
        case None => None
        case Some((text, rest)) => Some((Decode(s[1]) + text, rest))
    else
      match Unescape(s[1..])
      case None => None
      case Some((text, rest)) => Some(([s[0]] + text, rest))
  }

  function Quoted(s: string): (r: Parsed<string>)
    ensures r.Ok? ==> |r.value.1| < |s|
  {
    var t := Skip(s);
    if t == "" || t[0] != '"' then Err(ExpectedQuote)
    else
      match Unescape(t[1..])
      case None => Err(UnexpectedEof)
      case Some(r) => Ok(r)
  }

  method ParseQuotedString(input: string) returns (r: Parsed<string>)
    ensures r == Quoted(input)
  {
    var chars := SkipWhitespaceAndComments(input);
    if chars == "" || chars[0] != '"' {
      return Err(ExpectedQuote);
    }
    chars := chars[1..];
    ghost var start, u0 := chars, Unescape(chars);
    assert u0.Some? ==> "" + u0.value.0 == u0.value.0;
    var result := "";
    while true
      invariant Unescape(start) == match Unescape(chars)
                                   case None => None
                                   case Some((text, rest)) => Some((result + text, rest))
      decreases |chars|
    {
      if chars == "" {
        return Err(UnexpectedEof);
      }
      var c := chars[0];
      if c == '"' {
        assert result + "" == result;
        return Ok((result, chars[1..]));
      }
      if c == '\\' {
        if |chars| < 2 {
          return Err(UnexpectedEof);
        }
        var u := Unescape(chars[2..]);
        assert u.Some? ==> result + (Decode(chars[1]) + u.value.0) == result + Decode(chars[1]) + u.value.0;
        result := result + Decode(chars[1]);
        chars := chars[2..];
      } else {
        var u := Unescape(chars[1..]);
        assert u.Some? ==> result + ([c] + u.value.0) == result + [c] + u.value.0;
        result := result + [c];
        chars := chars[1..];
      }
    }
  }

  // ---------------------------------------------------------------- nodes

  function Node(s: string): (r: Parsed<KeyValue>)
    ensures r.Ok? ==> |r.value.1| < |s|
    ensures r.Ok? ==> KeysAgree(r.value.0)
    decreases |s|, 0
  {
    match Quoted(Skip(s))
    case Err(e) => Err(e)
    case Ok((key, rest)) =>
      var t := Skip(rest);
      if t != "" && t[0] == '{' then
        match Kids(t[1..], map[])
        case Err(e) => Err(e)
        case Ok((children, after)) => Ok((KeyValue(key, Children(children)), after))
      else if t != "" && t[0] == '"' then
        match Quoted(t)
        case Err(e) => Err(e)
        case Ok((value, after)) => Ok((KeyValue(key, Str(value)), after))
      else Err(UnexpectedEof)
  }

  /** Children up to a closing brace or the end of the text; a later sibling replaces an earlier one of the same key. */
  function Kids(s: string, children: map<string, KeyValue>): (r: Parsed<map<string, KeyValue>>)
    ensures r.Ok? ==> |r.value.1| <= |s|
    ensures r.Ok? && (forall k | k in children :: children[k].key == k) ==>
              forall k | k in r.value.0 :: r.value.0[k].key == k
    decreases |s|, 1
  {
    var t := Skip(s);
    if t == "" then Ok((children, ""))
    else if t[0] == '}' then Ok((children, t[1..]))
    else
      match Node(t)
      case Err(e) => Err(e)
      case Ok((node, rest)) => Kids(rest, children[node.key := node])
  }

  method ParseTextNode(input: string) returns (r: Parsed<KeyValue>)
    ensures r == Node(input)
    decreases |input|, 0
  {
    var start := SkipWhitespaceAndComments(input);
    var key := ParseQuotedString(start);
    if key.Err? {
      return Err(key.error);
    }
    var rest := SkipWhitespaceAndComments(key.value.1);
    if rest != "" && rest[0] == '{' {
      var children := ParseTextChildren(rest[1..]);
      if children.Err? {
        return Err(children.error);
      }
      r := Ok((KeyValue(key.value.0, Children(children.value.0)), children.value.1));
    } else if rest != "" && rest[0] == '"' {
      var value := ParseQuotedString(rest);
      if value.Err? {
        return Err(value.error);
      }
      r := Ok((KeyValue(key.value.0, Str(value.value.0)), value.value.1));
    } else {
      r := Err(UnexpectedEof);
    }
  }

  method ParseTextChildren(input: string) returns (r: Parsed<map<string, KeyValue>>)
    ensures r == Kids(input, map[])
    decreases |input|, 1
  {
    var children: map<string, KeyValue>, rest := map[], input;
    while true
      invariant Kids(rest, children) == Kids(input, map[]) && |rest| <= |input|
      decreases |rest|
    {
      var t := SkipWhitespaceAndComments(rest);
      if t == "" {
        return Ok((children, t));
      }
      if t[0] == '}' {
        return Ok((children, t[1..]));
      }
      var node := ParseTextNode(t);
      if node.Err? {
        return Err(node.error);
      }
      children := children[node.value.0.key := node.value.0];
      rest := node.value.1;
    }
  }

  function TextKv(input: string): Result<KeyValue, TextError>
  {
    match Node(TrimEnd(TrimStart(input)))
    case Err(e) => Err(e)
    case Ok((kv, _)) => Ok(kv)
  }

  method ParseTextKv(input: string) returns (r: Result<KeyValue, TextError>)
    ensures r == TextKv(input)
  {
    var node := ParseTextNode(TrimEnd(TrimStart(input)));
    r := if node.Err? then Err(node.error) else Ok(node.value.0);
  }

  // ---------------------------------------------------------------- printed documents

  /** White space and line comments between tokens. */
  datatype Piece = Space(c: char) | Comment(text: string)

  predicate ValidGap(gap: seq<Piece>)
  {
    forall i | 0 <= i < |gap| :: if gap[i].Space? then IsSpace(gap[i].c) else '\n' !in gap[i].text
  }

  /** The printers below put their text before `rest`. */
  function GapText(gap: seq<Piece>, rest: string): string
  {
    if gap == [] then rest
    else
      match gap[0]
      case Space(c) => [c] + GapText(gap[1..], rest)
      case Comment(text) => "//" + (text + ("\n" + GapText(gap[1..], rest)))
  }

  function EscapeChar(c: char): string
  {
    if c == '\n' then "\\n" else if c == '\t' then "\\t" else if c == '\\' then "\\\\" else if c == '"' then
        "\\\"" else [c]
  }

  function Escape(s: string, rest: string): string
  {
    if s == "" then rest else EscapeChar(s[0]) + Escape(s[1..], rest)
  }

  function Quote(s: string, rest: string): string
  {
    "\"" + Escape(s, "\"" + rest)
  }

  /** A printed tree: each token preceded by a gap of its own. */
  datatype Doc =
    | Leaf(before: seq<Piece>, key: string, between: seq<Piece>, value: string)
    | Section(before: seq<Piece>, key: string, between: seq<Piece>, kids: seq<Doc>, last: seq<Piece>)

  ghost predicate ValidDoc(d: Doc)
  {
    && ValidGap(d.before) && ValidGap(d.between)
    && (d.Section? ==> ValidGap(d.last) && forall k | k in d.kids :: ValidDoc(k))
  }

  function DocText(d: Doc, rest: string): string
  {
    GapText(d.before, Quote(d.key, GapText(d.between,
      match d
      case Leaf(_, _, _, value) => Quote(value, rest)
      case Section(_, _, _, kids, last) => "{" + KidsText(kids, GapText(last, "}" + rest)))))
  }

  function KidsText(kids: seq<Doc>, rest: string): string
  {
    if kids == [] then rest else DocText(kids[0], KidsText(kids[1..], rest))
  }

  /** The tree a document prints. */
  function Tree(d: Doc): KeyValue
  {
    match d
    case Leaf(_, key, _, value) => KeyValue(key, Str(value))
    case Section(_, key, _, kids, _) => KeyValue(key, Children(Inserted(map[], Trees(kids))))
  }

  function Trees(kids: seq<Doc>): seq<KeyValue>
  {
    if kids == [] then [] else [Tree(kids[0])] + Trees(kids[1..])
  }

  // ---------------------------------------------------------------- round trip

  /** Starts with a token, or is empty. */
  predicate AtToken(s: string)
  {
    s == "" || (!IsSpace(s[0]) && !("//" <= s))
  }

  lemma {:induction false} AfterComment(text: string, rest: string)
    requires '\n' !in text
    ensures AfterLine(text + ("\n" + rest)) == rest
  {
    if text != "" {
      AfterComment(text[1..], rest);
      assert (text + ("\n" + rest))[1..] == text[1..] + ("\n" + rest);
    } else {
      assert (text + ("\n" + rest)) == "\n" + rest;
    }
  }

  lemma SkipComment(text: string, rest: string)
    requires '\n' !in text
    ensures Skip("//" + (text + ("\n" + rest))) == Skip(rest)
  {
    var s := "//" + (text + ("\n" + rest));
    assert s[0] == '/' && s[1] == '/';
    AfterComment("//" + text, rest);
    assert s == ("//" + text) + ("\n" + rest);
  }

  lemma {:induction false} SkipGap(gap: seq<Piece>, rest: string)
    requires ValidGap(gap) && AtToken(rest)
    ensures Skip(GapText(gap, rest)) == rest
  {
    if gap != [] {
      SkipGap(gap[1..], rest);
      var more := GapText(gap[1..], rest);
      match gap[0]
      case Space(c) => assert ([c] + more)[1..] == more;
      case Comment(text) => SkipComment(text, more);
    }
  }

  lemma UnescapeChar(c: char, more: string)
    ensures Unescape(EscapeChar(c) + more) ==
            match Unescape(more)
            case None => None
            case Some((text, rest)) => Some(([c] + text, rest))
  {
    var s := EscapeChar(c) + more;
    if |EscapeChar(c)| == 2 {
      assert s[2..] == more && Decode(s[1]) == [c];
    } else {
      assert s[1..] == more && s[0] == c;
    }
  }

  lemma {:induction false} UnescapeBack(s: string, rest: string)
    ensures Unescape(Escape(s, "\"" + rest)) == Some((s, rest))
  {
    if s != "" {
      UnescapeChar(s[0], Escape(s[1..], "\"" + rest));
      UnescapeBack(s[1..], rest);
      assert [s[0]] + s[1..] == s;
    } else {
      assert ("\"" + rest)[1..] == rest;
    }
  }

  lemma QuotedBack(gap: seq<Piece>, s: string, rest: string)
    requires ValidGap(gap)
    ensures Quoted(GapText(gap, Quote(s, rest))) == Ok((s, rest))
    ensures Skip(GapText(gap, Quote(s, rest))) == Quote(s, rest)
  {
    SkipGap(gap, Quote(s, rest));
    UnescapeBack(s, rest);
    assert Quote(s, rest)[1..] == Escape(s, "\"" + rest);
  }

  lemma {:induction false} NodeBack(d: Doc, rest: string)
    requires ValidDoc(d)
    ensures Node(DocText(d, rest)) == Ok((Tree(d), rest))
    decreases d
  {
    match d
    case Leaf(before, key, between, value) =>
      QuotedBack(before, key, GapText(between, Quote(value, rest)));
      QuotedBack([], key, GapText(between, Quote(value, rest)));
      QuotedBack(between, value, rest);
      QuotedBack([], value, rest);
    case Section(before, key, between, kids, last) =>
      var inner := KidsText(kids, GapText(last, "}" + rest));
      QuotedBack(before, key, GapText(between, "{" + inner));
      QuotedBack([], key, GapText(between, "{" + inner));
      SkipGap(between, "{" + inner);
      assert ("{" + inner)[1..] == inner;
      KidsBack(kids, last, map[], rest);
  }

  lemma {:induction false} KidsBack(kids: seq<Doc>, last: seq<Piece>, children: map<string, KeyValue>, rest: string)
    requires ValidGap(last) && forall k | k in kids :: ValidDoc(k)
    ensures Kids(KidsText(kids, GapText(last, "}" + rest)), children) == Ok((Inserted(children, Trees(kids)), rest))
    decreases kids
  {
    if kids == [] {
      SkipGap(last, "}" + rest);
      assert ("}" + rest)[1..] == rest;
    } else {
      var more := KidsText(kids[1..], GapText(last, "}" + rest));
      assert kids[0] in kids;
      NodeBack(kids[0], more);
      KidsStep(kids[0], more, children);
      var node := Tree(kids[0]);
      KidsBack(kids[1..], last, children[node.key := node], rest);
    }
  }

  lemma KidsStep(d: Doc, more: string, children: map<string, KeyValue>)
    requires ValidDoc(d) && Node(DocText(d, more)) == Ok((Tree(d), more))
    ensures Kids(DocText(d, more), children) == Kids(more, children[Tree(d).key := Tree(d)])
  {
    var after := GapText(d.between, match d
      case Leaf(_, _, _, value) => Quote(value, more)
      case Section(_, _, _, kids, last) => "{" + KidsText(kids, GapText(last, "}" + more)));
    QuotedBack(d.before, d.key, after);
    SkipTwice(DocText(d, more));
  }

  /** Skipping first does not change what a node parses to. */
  lemma {:induction false} SkipTwice(s: string)
    ensures Skip(Skip(s)) == Skip(s)
    ensures Node(Skip(s)) == Node(s)
    decreases |s|
  {
    var t := TrimStart(s);
    if "//" <= t {
      SkipTwice(AfterLine(t));
    }
  }

  // ---------------------------------------------------------------- the trimmed ends

  lemma Associate(a: string, b: string, c: string)
    ensures a + (b + c) == (a + b) + c
  {
  }

  lemma {:induction false} GapTextMore(gap: seq<Piece>, rest: string, more: string)
    ensures GapText(gap, rest + more) == GapText(gap, rest) + more
  {
    if gap != [] {
      GapTextMore(gap[1..], rest, more);
    }
  }

  lemma {:induction false} EscapeMore(s: string, rest: string, more: string)
    ensures Escape(s, rest + more) == Escape(s, rest) + more
  {
    if s != "" {
      EscapeMore(s[1..], rest, more);
      Associate(EscapeChar(s[0]), Escape(s[1..], rest), more);
    }
  }

  lemma QuoteMore(s: string, rest: string, more: string)
    ensures Quote(s, rest + more) == Quote(s, rest) + more
  {
    EscapeMore(s, "\"" + rest, more);
    assert "\"" + (rest + more) == ("\"" + rest) + more;
  }

  lemma {:induction false} DocTextMore(d: Doc, rest: string, more: string)
    ensures DocText(d, rest + more) == DocText(d, rest) + more
    decreases d
  {
    match d
    case Leaf(before, key, between, value) =>
      QuoteMore(value, rest, more);
      TokensMore(before, key, between, Quote(value, rest), more);
    case Section(before, key, between, kids, last) =>
      assert "}" + (rest + more) == ("}" + rest) + more;
      GapTextMore(last, "}" + rest, more);
      var inner := GapText(last, "}" + rest);
      KidsTextMore(kids, inner, more);
      assert "{" + (KidsText(kids, inner) + more) == ("{" + KidsText(kids, inner)) + more;
      TokensMore(before, key, between, "{" + KidsText(kids, inner), more);
  }

  lemma TokensMore(before: seq<Piece>, key: string, between: seq<Piece>, rest: string, more: string)
    ensures GapText(before, Quote(key, GapText(between, rest + more))) ==
              GapText(before, Quote(key, GapText(between, rest))) + more
  {
    GapTextMore(between, rest, more);
    QuoteMore(key, GapText(between, rest), more);
    GapTextMore(before, Quote(key, GapText(between, rest)), more);
  }

  lemma {:induction false} KidsTextMore(kids: seq<Doc>, rest: string, more: string)
    ensures KidsText(kids, rest + more) == KidsText(kids, rest) + more
    decreases kids
  {
    if kids != [] {
      KidsTextMore(kids[1..], rest, more);
      DocTextMore(kids[0], KidsText(kids[1..], rest), more);
    }
  }

  /** A printed tree ends in a quote or a brace. */
  lemma DocEnds(d: Doc)
    ensures DocText(d, "") != "" && !IsSpace(DocText(d, "")[|DocText(d, "")| - 1])
  {
    match d
    case Leaf(before, key, between, value) =>
      assert "" + "\"" == "\"" + "";
      EscapeMore(value, "", "\"");
      TokensMore(before, key, between, "\"" + Escape(value, ""), "\"");
      assert Quote(value, "") == ("\"" + Escape(value, "")) + "\"";
    case Section(before, key, between, kids, last) =>
      assert "" + "}" == "}" + "";
      GapTextMore(last, "", "}");
      KidsTextMore(kids, GapText(last, ""), "}");
      TokensMore(before, key, between, "{" + KidsText(kids, GapText(last, "")), "}");
      assert "{" + (KidsText(kids, GapText(last, "")) + "}") == ("{" + KidsText(kids, GapText(last, ""))) + "}";
  }

  lemma {:induction false} TrimEndKeeps(s: string, trailing: string)
    requires s != "" && !IsSpace(s[|s| - 1])
    ensures TrimEnd(s + trailing) == s + TrimEnd(trailing)
  {
    if trailing != "" {
      var n := |trailing| - 1;
      assert (s + trailing)[..|s + trailing| - 1] == s + trailing[..n];
      TrimEndKeeps(s, trailing[..n]);
    } else {
      assert s + trailing == s;
    }
  }

  lemma {:induction false} TrimEndHead(c: char, s: string)
    ensures TrimEnd([c] + s) == if IsSpace(c) && TrimEnd(s) == "" then "" else [c] + TrimEnd(s)
  {
    if s != "" {
      assert ([c] + s)[..|s|] == [c] + s[..|s| - 1];
      TrimEndHead(c, s[..|s| - 1]);
    } else {
      assert [c] + s == [c] && [c][..0] == "";
    }
  }

  lemma {:induction false} TrimsCommute(s: string)
    ensures TrimEnd(TrimStart(s)) == TrimStart(TrimEnd(s))
  {
    if s != "" {
      assert s == [s[0]] + s[1..];
      TrimEndHead(s[0], s[1..]);
      TrimsCommute(s[1..]);
      var e := TrimEnd(s[1..]);
      assert ([s[0]] + e)[1..] == e;
    }
  }

  lemma {:induction false} TrimKeepsNode(s: string)
    ensures Skip(TrimStart(s)) == Skip(s)
    ensures Node(TrimStart(s)) == Node(s)
  {
    if s != "" && IsSpace(s[0]) {
      TrimKeepsNode(s[1..]);
    }
  }

  /** The printed form of any string/section tree, with any white space and comments between its tokens and anything at
      all after it, parses back to the tree. */
  lemma TextRoundTrip(d: Doc, trailing: string)
    requires ValidDoc(d)
    ensures TextKv(DocText(d, "") + trailing) == Ok(Tree(d))
  {
    var s := DocText(d, "");
    DocEnds(d);
    TrimsCommute(s + trailing);
    TrimEndKeeps(s, trailing);
    var end := TrimEnd(trailing);
    assert "" + end == end;
    DocTextMore(d, "", end);
    NodeBack(d, end);
    TrimKeepsNode(s + end);
  }

  // ---------------------------------------------------------------- every tree has a printed form

  ghost predicate TextTree(kv: KeyValue)
  {
    EveryNode(kv, (n: KeyValue) => KeysAgree(n) && (n.value.Str? || n.value.Children?))
  }

  lemma {:induction false} TreesAppend(kids: seq<Doc>, d: Doc)
    ensures Trees(kids + [d]) == Trees(kids) + [Tree(d)]
  {
    if kids != [] {
      assert (kids + [d])[1..] == kids[1..] + [d];
      TreesAppend(kids[1..], d);
    }
  }

  /** Every string/section tree whose children sit under their own keys is printed by some document. */
  lemma {:induction false} EveryTreePrints(kv: KeyValue) returns (d: Doc)
    requires TextTree(kv)
    ensures ValidDoc(d) && Tree(d) == kv
    decreases kv
  {
    if kv.value.Str? {
      return Leaf([], kv.key, [], kv.value.s);
    }
    var m := kv.value.children;
    var kids: seq<Doc>, todo := [], m.Keys;
    while todo != {}
      invariant todo <= m.Keys
      invariant forall k | k in kids :: ValidDoc(k)
      invariant Inserted(map[], Trees(kids)) == m - todo
    {
      var k :| k in todo;
      var kid := EveryTreePrints(m[k]);
      TreesAppend(kids, kid);
      InsertedAppend(map[], Trees(kids), Tree(kid));
      kids := kids + [kid];
      todo := todo - {k};
    }
    assert m - todo == m;
    d := Section([], kv.key, [], kids, []);
  }

  /** The parser builds nothing else, whatever the text. */
  lemma {:induction false} ParsedIsTextTree(s: string)
    ensures Node(s).Ok? ==> TextTree(Node(s).value.0)
    decreases |s|, 0
  {
    if Node(s).Ok? {
      var rest := Quoted(Skip(s)).value.1;
      var t := Skip(rest);
      if t[0] == '{' {
        ParsedKidsAreTextTrees(t[1..], map[]);
      }
    }
  }

  lemma {:induction false} ParsedKidsAreTextTrees(s: string, children: map<string, KeyValue>)
    requires forall k | k in children :: TextTree(children[k]) && children[k].key == k
    ensures Kids(s, children).Ok? ==>
              forall k | k in Kids(s, children).value.0 :: TextTree(Kids(s, children).value.0[k])
    decreases |s|, 1
  {
    var t := Skip(s);
    if t != "" && t[0] != '}' && Node(t).Ok? {
      ParsedIsTextTree(t);
      var (node, rest) := Node(t).value;
      ParsedKidsAreTextTrees(rest, children[node.key := node]);
    }
  }

  /** So the trees the parser can build are exactly the string/section trees. */
  lemma TextTreesAreWhatParses(kv: KeyValue)
    ensures TextTree(kv) <==> exists s: string :: TextKv(s) == Ok(kv)
  {
    if TextTree(kv) {
      var d := EveryTreePrints(kv);
      TextRoundTrip(d, "");
    }
    if s: string :| TextKv(s) == Ok(kv) {
      ParsedIsTextTree(TrimEnd(TrimStart(s)));
    }
  }
}
