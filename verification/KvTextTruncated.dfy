/** Which truncations of a printed tree the text parser accepts (crates/steam/src/types/key_value.rs:245-346). */
module KvTextTruncated {
  import opened Base
  import opened Whitespace
  import opened KeyValues
  import opened KvText

  // ---------------------------------------------------------------- cuts

  /** A cut inside a gap, unless it leaves half of a comment's two slashes. */
  predicate GapCut(gap: seq<Piece>, n: nat)
  {
    if gap == [] || n == 0 then true
    else
      match gap[0]
      case Space(_) => GapCut(gap[1..], n - 1)
      case Comment(text) => if n < |text| + 3 then n != 1 else GapCut(gap[1..], n - (|text| + 3))
  }

  function GapSize(gap: seq<Piece>): nat
  {
    |GapText(gap, "")|
  }

  /** Everything up to the brace that opens a section. */
  function OpeningSize(d: Doc): nat
  {
    GapSize(d.before) + |Quote(d.key, "")| + GapSize(d.between) + 1
  }

  function Size(d: Doc): nat
  {
    |DocText(d, "")|
  }

  /** The first `n` characters of a printed tree end in the gap before a child or before the brace of a section that is
      still open: the tree then has the children before the cut, the last of which may itself be open. A key with a
      string has no such cut. */
  function Before(d: Doc, n: nat): Option<KeyValue>
    decreases d, 0
  {
    match d
    case Leaf(_, _, _, _) => None
    case Section(_, key, _, kids, last) =>
      if n < OpeningSize(d) then None
      else
        match KidsBefore(kids, last, n - OpeningSize(d))
        case None => None
        case Some(nodes) => Some(KeyValue(key, Children(Inserted(map[], nodes))))
  }

  function KidsBefore(kids: seq<Doc>, last: seq<Piece>, n: nat): Option<seq<KeyValue>>
    decreases kids
  {
    if kids == [] then if GapCut(last, n) then Some([]) else None
    else if n <= GapSize(kids[0].before) then if GapCut(kids[0].before, n) then Some([]) else None
    else if n < Size(kids[0]) then
      match Before(kids[0], n)
      case None => None
      case Some(node) => Some([node])
    else
      match KidsBefore(kids[1..], last, n - Size(kids[0]))
      case None => None
      case Some(nodes) => Some([Tree(kids[0])] + nodes)
  }

  // ---------------------------------------------------------------- gaps cut short

  lemma {:induction false} NoBreak(s: string)
    requires '\n' !in s
    ensures AfterLine(s) == ""
  {
    if s != "" {
      assert s[0] in s;
      NoBreak(s[1..]);
    }
  }

  /** A gap cut short is skipped to its end, or stops at a single slash. */
  lemma {:induction false} CutGap(gap: seq<Piece>, rest: string, n: nat)
    requires ValidGap(gap) && n <= GapSize(gap)
    ensures n <= |GapText(gap, rest)|
    ensures Skip(GapText(gap, rest)[..n]) == if GapCut(gap, n) then "" else "/"
  {
    GapTextMore(gap, "", rest);
    assert "" + rest == rest;
    if gap != [] && n > 0 {
      var more := GapText(gap[1..], rest);
      GapTextMore(gap[1..], "", rest);
      match gap[0]
      case Space(c) =>
        CutGap(gap[1..], rest, n - 1);
        assert ([c] + more)[..n] == [c] + more[..n - 1];
        assert ([c] + more[..n - 1])[1..] == more[..n - 1];
      case Comment(text) =>
        CutComment(text, more, n);
        if n >= |text| + 3 {
          CutGap(gap[1..], rest, n - (|text| + 3));
        }
    }
  }

  lemma CutComment(text: string, more: string, n: nat)
    requires '\n' !in text && 0 < n <= |text| + 3 + |more|
    ensures var s := "//" + (text + ("\n" + more));
            n <= |s| &&
            Skip(s[..n]) == if n == 1 then "/" else if n < |text| + 3 then "" else Skip(more[..n - (|text| + 3)])
  {
    var s := "//" + (text + ("\n" + more));
    if n == 1 {
      assert s[..n] == "/";
    } else if n < |text| + 3 {
      assert s[..n] == "//" + text[..n - 2];
      assert '\n' !in "//" + text[..n - 2];
      NoBreak(s[..n]);
    } else {
      var tail := more[..n - (|text| + 3)];
      assert s[..n] == "//" + (text + ("\n" + tail));
      SkipComment(text, tail);
    }
  }

  // ---------------------------------------------------------------- strings cut short

  lemma {:induction false} CutEscape(s: string, rest: string, n: nat)
    requires n <= |Escape(s, "")|
    ensures n <= |Escape(s, rest)| && Unescape(Escape(s, rest)[..n]).None?
  {
    EscapeMore(s, "", rest);
    assert "" + rest == rest;
    if s != "" && n > 0 {
      var e, more := EscapeChar(s[0]), Escape(s[1..], rest);
      EscapeMore(s[1..], "", rest);
      if n < |e| {
        assert (e + more)[..n] == e[..n];
      } else {
        CutEscape(s[1..], rest, n - |e|);
        assert (e + more)[..n] == e + more[..n - |e|];
        UnescapeChar(s[0], more[..n - |e|]);
      }
    }
  }

  /** A quoted string cut before its closing quote is not read. */
  lemma CutQuote(s: string, rest: string, n: nat)
    requires n < |Quote(s, "")|
    ensures n <= |Quote(s, rest)| && Quoted(Quote(s, rest)[..n]).Err?
  {
    QuoteMore(s, "", rest);
    assert "" + rest == rest;
    EscapeMore(s, "", "\"");
    assert "" + "\"" == "\"" + "";
    if n > 0 {
      CutEscape(s, "\"" + rest, n - 1);
      var t := Quote(s, rest)[..n];
      assert t[1..] == Escape(s, "\"" + rest)[..n - 1] && t[0] == '"';
    }
  }

  // ---------------------------------------------------------------- what comes before a string or a section

  function Head(d: Doc, body: string): string
  {
    GapText(d.before, Quote(d.key, GapText(d.between, body)))
  }

  function HeadSize(d: Doc): nat
  {
    GapSize(d.before) + |Quote(d.key, "")| + GapSize(d.between)
  }

  lemma GapPlus(gap: seq<Piece>, rest: string)
    ensures GapText(gap, rest) == GapText(gap, "") + rest
  {
    GapTextMore(gap, "", rest);
    assert "" + rest == rest;
  }

  lemma QuotePlus(s: string, rest: string)
    ensures Quote(s, rest) == Quote(s, "") + rest
  {
    QuoteMore(s, "", rest);
    assert "" + rest == rest;
  }

  lemma CutPlus(a: string, b: string, n: nat)
    requires |a| <= n <= |a| + |b|
    ensures (a + b)[..n] == a + b[..n - |a|]
  {
  }

  /** A cut past a gap, or past a quoted string, is a cut in what follows. */
  lemma CutPastGap(gap: seq<Piece>, rest: string, n: nat)
    requires GapSize(gap) <= n <= |GapText(gap, rest)|
    ensures n - GapSize(gap) <= |rest| && GapText(gap, rest)[..n] == GapText(gap, rest[..n - GapSize(gap)])
  {
    GapPlus(gap, rest);
    CutPlus(GapText(gap, ""), rest, n);
    GapPlus(gap, rest[..n - GapSize(gap)]);
  }

  lemma CutPastQuote(s: string, rest: string, n: nat)
    requires |Quote(s, "")| <= n <= |Quote(s, rest)|
    ensures n - |Quote(s, "")| <= |rest| && Quote(s, rest)[..n] == Quote(s, rest[..n - |Quote(s, "")|])
  {
    QuotePlus(s, rest);
    CutPlus(Quote(s, ""), rest, n);
    QuotePlus(s, rest[..n - |Quote(s, "")|]);
  }

  lemma HeadPlus(d: Doc, body: string)
    ensures |Head(d, body)| == HeadSize(d) + |body|
  {
    GapPlus(d.between, body);
    QuotePlus(d.key, GapText(d.between, body));
    GapPlus(d.before, Quote(d.key, GapText(d.between, body)));
  }

  /** A cut no further than the key and the gap after it is not accepted. */
  lemma CutInHead(d: Doc, body: string, n: nat)
    requires ValidDoc(d) && n <= HeadSize(d)
    ensures n <= |Head(d, body)| && Node(Head(d, body)[..n]).Err?
  {
    HeadPlus(d, body);
    var inner := GapText(d.between, body);
    if n <= GapSize(d.before) {
      CutGap(d.before, Quote(d.key, inner), n);
      NoQuote(Head(d, body)[..n]);
    } else {
      CutPastGap(d.before, Quote(d.key, inner), n);
      var m := n - GapSize(d.before);
      if m < |Quote(d.key, "")| {
        CutQuote(d.key, inner, m);
        TokenAfterGap(d.before, Quote(d.key, inner)[..m]);
      } else {
        CutAfterKey(d, body, m);
      }
    }
  }

  lemma CutAfterKey(d: Doc, body: string, m: nat)
    requires ValidDoc(d) && |Quote(d.key, "")| <= m <= |Quote(d.key, "")| + GapSize(d.between)
    ensures m <= |Quote(d.key, GapText(d.between, body))|
    ensures Node(GapText(d.before, Quote(d.key, GapText(d.between, body))[..m])).Err?
  {
    var inner, q := GapText(d.between, body), |Quote(d.key, "")|;
    QuotePlus(d.key, inner);
    GapPlus(d.between, body);
    CutPastQuote(d.key, inner, m);
    CutGap(d.between, body, m - q);
    NothingAfterKey(d.before, d.key, inner[..m - q]);
  }

  lemma NoQuote(s: string)
    requires Skip(s) == "" || Skip(s) == "/"
    ensures Node(s).Err?
  {
    SkipTwice(s);
  }

  lemma TokenAfterGap(gap: seq<Piece>, t: string)
    requires ValidGap(gap) && t != "" && t[0] == '"' && Quoted(t).Err?
    ensures Node(GapText(gap, t)).Err?
  {
    SkipGap(gap, t);
    SkipGap([], t);
  }

  lemma NothingAfterKey(gap: seq<Piece>, key: string, rest: string)
    requires ValidGap(gap) && (Skip(rest) == "" || Skip(rest) == "/")
    ensures Node(GapText(gap, Quote(key, rest))).Err?
  {
    QuotedBack(gap, key, rest);
    QuotedBack([], key, rest);
  }

  /** Past that the key is read, and what follows decides. */
  lemma CutPastHead(d: Doc, body: string, n: nat)
    requires ValidDoc(d) && HeadSize(d) < n <= HeadSize(d) + |body| && (body[0] == '"' || body[0] == '{')
    ensures n <= |Head(d, body)|
    ensures var b := body[..n - HeadSize(d)];
            Node(Head(d, body)[..n]) ==
                 if b[0] == '{' then
                   (match Kids(b[1..], map[])
                    case Err(e) => Err(e)
                    case Ok((children, after)) => Ok((KeyValue(d.key, Children(children)), after)))
                 else
                   match Quoted(b)
                   case Err(e) => Err(e)
                   case Ok((value, after)) => Ok((KeyValue(d.key, Str(value)), after))
  {
    CutHead(d, body, n);
    HeadRead(d, body[..n - HeadSize(d)]);
  }

  lemma CutHead(d: Doc, body: string, n: nat)
    requires HeadSize(d) <= n <= HeadSize(d) + |body|
    ensures n <= |Head(d, body)| && Head(d, body)[..n] == Head(d, body[..n - HeadSize(d)])
  {
    HeadPlus(d, body);
    var inner, m := GapText(d.between, body), n - GapSize(d.before);
    CutPastGap(d.before, Quote(d.key, inner), n);
    QuotePlus(d.key, inner);
    GapPlus(d.between, body);
    CutPastQuote(d.key, inner, m);
    CutPastGap(d.between, body, m - |Quote(d.key, "")|);
  }

  lemma HeadRead(d: Doc, b: string)
    requires ValidDoc(d) && b != "" && (b[0] == '"' || b[0] == '{')
    ensures Node(Head(d, b)) ==
            if b[0] == '{' then
              (match Kids(b[1..], map[])
               case Err(e) => Err(e)
               case Ok((children, after)) => Ok((KeyValue(d.key, Children(children)), after)))
            else
              match Quoted(b)
              case Err(e) => Err(e)
              case Ok((value, after)) => Ok((KeyValue(d.key, Str(value)), after))
  {
    QuotedBack(d.before, d.key, GapText(d.between, b));
    QuotedBack([], d.key, GapText(d.between, b));
    SkipGap(d.between, b);
  }

  // ---------------------------------------------------------------- exactly the cuts are accepted

  ghost predicate Reads(r: Parsed<KeyValue>, want: Option<KeyValue>)
  {
    if want.None? then r.Err? else r == Ok((want.value, ""))
  }

  lemma {:induction false} CutExact(d: Doc, n: nat)
    requires ValidDoc(d) && n < Size(d)
    ensures Reads(Node(DocText(d, "")[..n]), Before(d, n))
    decreases d, 0
  {
    match d
    case Leaf(_, _, _, _) => LeafCut(d, n);
    case Section(_, _, _, _, _) =>
      if n > HeadSize(d) {
        InnerSize(d, n);
        KidsCut(d.kids, d.last, n - HeadSize(d) - 1, map[]);
      }
      SectionExact(d, n);
  }

  lemma InnerSize(d: Doc, n: nat)
    requires ValidDoc(d) && d.Section? && HeadSize(d) < n < Size(d)
    ensures n - HeadSize(d) - 1 < |KidsText(d.kids, GapText(d.last, "}"))|
  {
    SectionCut(d, n);
  }

  lemma SectionExact(d: Doc, n: nat)
    requires ValidDoc(d) && d.Section? && n < Size(d)
    requires var inner, m := KidsText(d.kids, GapText(d.last, "}")), n - HeadSize(d) - 1;
             n > HeadSize(d) ==>
               m < |inner| &&
               var r, want := Kids(inner[..m], map[]), KidsBefore(d.kids, d.last, m);
               if want.None? then r.Err? else r == Ok((Inserted(map[], want.value), ""))
    ensures Reads(Node(DocText(d, "")[..n]), Before(d, n))
  {
    BeforeSection(d, n);
    SectionCut(d, n);
    if n > HeadSize(d) {
      var m := n - HeadSize(d) - 1;
      SectionReads(d.key, Kids(KidsText(d.kids, GapText(d.last, "}"))[..m], map[]), KidsBefore(d.kids, d.last, m));
    }
  }

  /** The section with the children that are left, if the cut is one. */
  function Opened(key: string, nodes: Option<seq<KeyValue>>): Option<KeyValue>
  {
    if nodes.None? then None else Some(KeyValue(key, Children(Inserted(map[], nodes.value))))
  }

  lemma BeforeSection(d: Doc, n: nat)
    requires d.Section?
    ensures Before(d, n) ==
            if n <= HeadSize(d) then None else Opened(d.key, KidsBefore(d.kids, d.last, n - HeadSize(d) - 1))
  {
  }

  /** A section reads as its children do. */
  function SectionOf(key: string, r: Parsed<map<string, KeyValue>>): Parsed<KeyValue>
  {
    match r
    case Err(e) => Err(e)
    case Ok((children, after)) => Ok((KeyValue(key, Children(children)), after))
  }

  lemma SectionReads(key: string, r: Parsed<map<string, KeyValue>>, want: Option<seq<KeyValue>>)
    requires if want.None? then r.Err? else r == Ok((Inserted(map[], want.value), ""))
    ensures Reads(SectionOf(key, r), Opened(key, want))
  {
  }

  lemma LeafCut(d: Doc, n: nat)
    requires ValidDoc(d) && d.Leaf? && n < Size(d)
    ensures Node(DocText(d, "")[..n]).Err?
  {
    var body := Quote(d.value, "");
    HeadPlus(d, body);
    if n <= HeadSize(d) {
      CutInHead(d, body, n);
    } else {
      CutPastHead(d, body, n);
      CutQuote(d.value, "", n - HeadSize(d));
    }
  }

  /** A section is as good as what is left of its children. */
  lemma SectionCut(d: Doc, n: nat)
    requires ValidDoc(d) && d.Section? && n < Size(d)
    ensures if n <= HeadSize(d) then Node(DocText(d, "")[..n]).Err?
            else
              var inner, m := KidsText(d.kids, GapText(d.last, "}")), n - HeadSize(d) - 1;
              && m < |inner|
              && Node(DocText(d, "")[..n]) == SectionOf(d.key, Kids(inner[..m], map[]))
  {
    var inner := KidsText(d.kids, GapText(d.last, "}"));
    assert "}" + "" == "}";
    HeadPlus(d, "{" + inner);
    if n <= HeadSize(d) {
      CutInHead(d, "{" + inner, n);
    } else {
      CutPastHead(d, "{" + inner, n);
      assert ("{" + inner)[..n - HeadSize(d)][1..] == inner[..n - HeadSize(d) - 1];
    }
  }

  lemma {:induction false} KidsCut(kids: seq<Doc>, last: seq<Piece>, n: nat, children: map<string, KeyValue>)
    requires ValidGap(last) && (forall k | k in kids :: ValidDoc(k)) && n < |KidsText(kids, GapText(last, "}"))|
    ensures var r, want := Kids(KidsText(kids, GapText(last, "}"))[..n], children), KidsBefore(kids, last, n);
            if want.None? then r.Err? else r == Ok((Inserted(children, want.value), ""))
    decreases kids
  {
    if kids == [] {
      LastCut(last, n, children);
    } else {
      var first := kids[0];
      assert first in kids;
      if n < Size(first) {
        if GapSize(first.before) < n {
          CutExact(first, n);
        }
        FirstExact(kids, last, n, children);
      } else {
        RestSize(first, KidsText(kids[1..], GapText(last, "}")), n);
        KidsCut(kids[1..], last, n - Size(first), children[Tree(first).key := Tree(first)]);
        WantedRest(kids, last, n);
        RestExact(first, KidsText(kids[1..], GapText(last, "}")), n, children,
          KidsBefore(kids[1..], last, n - Size(first)));
      }
    }
  }

  lemma FirstExact(kids: seq<Doc>, last: seq<Piece>, n: nat, children: map<string, KeyValue>)
    requires kids != [] && ValidDoc(kids[0]) && n < Size(kids[0])
    requires GapSize(kids[0].before) < n ==> Reads(Node(DocText(kids[0], "")[..n]), Before(kids[0], n))
    ensures n <= |KidsText(kids, GapText(last, "}"))|
    ensures var r, want := Kids(KidsText(kids, GapText(last, "}"))[..n], children), KidsBefore(kids, last, n);
            if want.None? then r.Err? else r == Ok((Inserted(children, want.value), ""))
  {
    var first, more := kids[0], KidsText(kids[1..], GapText(last, "}"));
    DocPlus(first, more);
    FirstCut(first, more, n, children);
    if Before(first, n).Some? {
      InsertedCons(children, Before(first, n).value, []);
    }
  }

  lemma RestSize(d: Doc, more: string, n: nat)
    requires Size(d) <= n < |DocText(d, more)|
    ensures n - Size(d) < |more|
  {
    DocPlus(d, more);
  }

  /** A whole child before a cut leaves the cut to the others. */
  lemma RestExact(d: Doc, more: string, n: nat, children: map<string, KeyValue>, want: Option<seq<KeyValue>>)
    requires ValidDoc(d) && Size(d) <= n <= |DocText(d, more)| && n - Size(d) <= |more|
    requires var r, node := Kids(more[..n - Size(d)], children[Tree(d).key := Tree(d)]), Tree(d);
             if want.None? then r.Err? else r == Ok((Inserted(children[node.key := node], want.value), ""))
    ensures var r := Kids(DocText(d, more)[..n], children);
            if want.None? then r.Err? else r == Ok((Inserted(children, [Tree(d)] + want.value), ""))
  {
    WholeFirst(d, more, n, children);
    KidsGlue(Kids(more[..n - Size(d)], children[Tree(d).key := Tree(d)]), children, Tree(d), want);
  }

  lemma WantedRest(kids: seq<Doc>, last: seq<Piece>, n: nat)
    requires kids != [] && Size(kids[0]) <= n
    ensures var want := KidsBefore(kids[1..], last, n - Size(kids[0]));
            KidsBefore(kids, last, n) == if want.None? then None else Some([Tree(kids[0])] + want.value)
  {
    GapInside(kids[0]);
  }

  lemma GapInside(d: Doc)
    ensures GapSize(d.before) < Size(d)
  {
    GapPlus(d.before, AfterGap(d, ""));
  }

  /** One whole child in front of the others. */
  lemma KidsGlue(r: Parsed<map<string, KeyValue>>, children: map<string, KeyValue>, node: KeyValue,
                 want: Option<seq<KeyValue>>)
    requires if want.None? then r.Err? else r == Ok((Inserted(children[node.key := node], want.value), ""))
    ensures want.Some? ==> r == Ok((Inserted(children, [node] + want.value), ""))
  {
    if want.Some? {
      InsertedCons(children, node, want.value);
    }
  }

  lemma LastCut(last: seq<Piece>, n: nat, children: map<string, KeyValue>)
    requires ValidGap(last) && n < |GapText(last, "}")|
    ensures var r := Kids(GapText(last, "}")[..n], children); if GapCut(last, n) then
              r == Ok((children, "")) else r.Err?
  {
    GapPlus(last, "}");
    CutGap(last, "}", n);
    EndsInGap(GapText(last, "}")[..n], children);
  }

  /** A cut in the gap before a child, or inside it. */
  lemma FirstCut(d: Doc, more: string, n: nat, children: map<string, KeyValue>)
    requires ValidDoc(d) && n <= |DocText(d, more)| && (n < Size(d) || n <= GapSize(d.before))
    requires GapSize(d.before) < n ==> Reads(Node(DocText(d, "")[..n]), Before(d, n))
    ensures var r := Kids(DocText(d, more)[..n], children);
            if n <= GapSize(d.before) then if GapCut(d.before, n) then r == Ok((children, "")) else r.Err?
            else
              var want := Before(d, n);
              if want.None? then r.Err? else r == Ok((children[want.value.key := want.value], ""))
  {
    if n <= GapSize(d.before) {
      CutGap(d.before, AfterGap(d, more), n);
      EndsInGap(DocText(d, more)[..n], children);
    } else {
      DocPlus(d, more);
      CutPlusLess(DocText(d, ""), more, n);
      StartsNode(d, n);
      FirstOpen(d, n, children);
    }
  }

  lemma WholeFirst(d: Doc, more: string, n: nat, children: map<string, KeyValue>)
    requires ValidDoc(d) && Size(d) <= n <= |DocText(d, more)|
    ensures n - Size(d) <= |more|
    ensures Kids(DocText(d, more)[..n], children) == Kids(more[..n - Size(d)], children[Tree(d).key := Tree(d)])
  {
    DocPlus(d, more);
    CutPlus(DocText(d, ""), more, n);
    var tail := more[..n - Size(d)];
    DocPlus(d, tail);
    NodeBack(d, tail);
    KidsStep(d, tail, children);
  }

  function AfterGap(d: Doc, rest: string): (t: string)
    ensures DocText(d, rest) == GapText(d.before, t)
  {
    Quote(d.key, GapText(d.between,
      match d
      case Leaf(_, _, _, value) => Quote(value, rest)
      case Section(_, _, _, kids, last) => "{" + KidsText(kids, GapText(last, "}" + rest))))
  }

  lemma DocPlus(d: Doc, rest: string)
    ensures DocText(d, rest) == DocText(d, "") + rest
  {
    DocTextMore(d, "", rest);
    assert "" + rest == rest;
  }

  lemma CutPlusLess(a: string, b: string, n: nat)
    requires n <= |a|
    ensures (a + b)[..n] == a[..n]
  {
  }

  lemma EndsInGap(s: string, children: map<string, KeyValue>)
    requires Skip(s) == "" || Skip(s) == "/"
    ensures Kids(s, children) == if Skip(s) == "" then Ok((children, "")) else Kids(s, children)
    ensures Skip(s) == "/" ==> Kids(s, children).Err?
  {
    NoQuote("/");
  }

  /** Cut inside a node, the text starts with its key's quote. */
  lemma StartsNode(d: Doc, n: nat)
    requires ValidDoc(d) && GapSize(d.before) < n <= Size(d)
    ensures var s := DocText(d, "")[..n]; Skip(s) != "" && Skip(s)[0] == '"' && Node(Skip(s)) == Node(s)
  {
    var t := AfterGap(d, "");
    CutPastGap(d.before, t, n);
    SkipGap(d.before, t[..n - GapSize(d.before)]);
    SkipTwice(DocText(d, "")[..n]);
  }

  lemma FirstOpen(d: Doc, n: nat, children: map<string, KeyValue>)
    requires n <= Size(d) && Reads(Node(DocText(d, "")[..n]), Before(d, n))
    requires var s := DocText(d, "")[..n]; Skip(s) != "" && Skip(s)[0] == '"' && Node(Skip(s)) == Node(s)
    ensures var r, want := Kids(DocText(d, "")[..n], children), Before(d, n);
            if want.None? then r.Err? else r == Ok((children[want.value.key := want.value], ""))
  {
  }

  lemma {:induction false} TrimEndPrefix(s: string)
    ensures |TrimEnd(s)| <= |s| && TrimEnd(s) == s[..|TrimEnd(s)|]
  {
    if s != "" && IsSpace(s[|s| - 1]) {
      TrimEndPrefix(s[..|s| - 1]);
    }
  }

  /** A strict prefix of a printed tree, once its trailing white space is trimmed, is accepted if and only if it ends
      in a gap of a section still open, and then it reads as the tree with the children before the cut. */
  lemma TruncationExact(d: Doc, n: nat)
    requires ValidDoc(d) && n < Size(d)
    ensures var s := DocText(d, "")[..n];
            var want := Before(d, |TrimEnd(s)|);
            if want.None? then TextKv(s).Err? else TextKv(s) == Ok(want.value)
  {
    var s := DocText(d, "")[..n];
    TrimEndPrefix(s);
    TrimsCommute(s);
    TrimKeepsNode(TrimEnd(s));
    var m := |TrimEnd(s)|;
    assert TrimEnd(s) == DocText(d, "")[..m];
    CutExact(d, m);
  }
}
