/** Which truncations the KeyValue parsers accept (crates/steam/src/types/key_value.rs:129-230). */
module KvBinaryTruncated {
  import opened Base
  import opened LittleEndian
  import opened NullStrings
  import opened KeyValues
  import opened KvBinary

  // ---------------------------------------------------------------- cuts

  ghost function Size(c: TextCodec, d: Doc): nat
    requires ValidDoc(c, d)
  {
    |DocBytes(c, d, [])|
  }

  function HeaderSize(c: TextCodec, key: string): nat
  {
    |c.encode(key)| + 2
  }

  /** The first `n` bytes of a tree end between two children of a section that is still open: the tree then has the
      children before the cut, the last of which may itself be open. A scalar has no such cut. */
  ghost function Before(c: TextCodec, d: Doc, n: nat): Option<KeyValue>
    requires ValidDoc(c, d)
    decreases d, 0
  {
    match d
    case Leaf(_, _) => None
    case Group(key, kids, _) =>
      if n < HeaderSize(c, key) then None
      else
        match KidsBefore(c, kids, n - HeaderSize(c, key))
        case None => None
        case Some(nodes) => Some(KeyValue(key, Children(Inserted(map[], nodes))))
  }

  ghost function KidsBefore(c: TextCodec, kids: seq<Doc>, n: nat): Option<seq<KeyValue>>
    requires forall k | k in kids :: ValidDoc(c, k)
    decreases kids
  {
    if n == 0 then Some([])
    else if kids == [] then None
    else if n < Size(c, kids[0]) then
      match Before(c, kids[0], n)
      case None => None
      case Some(node) => Some([node])
    else
      match KidsBefore(c, kids[1..], n - Size(c, kids[0]))
      case None => None
      case Some(nodes) => Some([Tree(kids[0])] + nodes)
  }

  // ---------------------------------------------------------------- the printer's tail

  lemma NullTerminatedMore(c: TextCodec, s: string, rest: Bytes, more: Bytes)
    ensures NullTerminated(c, s, rest + more) == NullTerminated(c, s, rest) + more
  {
    assert [0] + (rest + more) == ([0] + rest) + more;
    Associated(c.encode(s), [0] + rest, more);
  }

  lemma Associated(a: Bytes, b: Bytes, c: Bytes)
    ensures a + (b + c) == (a + b) + c
  {
  }

  lemma ScalarMore(c: TextCodec, v: Value, rest: Bytes, more: Bytes)
    requires !v.Children?
    ensures ScalarBytes(c, v, rest + more) == ScalarBytes(c, v, rest) + more
  {
    match v
    case Str(s) => NullTerminatedMore(c, s, rest, more);
    case Int32(i) => Associated(Le(OfI32(i), 4), rest, more);
    case Float32(raw) => Associated(raw, rest, more);
    case UInt64(n) => Associated(Le(n, 8), rest, more);
    case Int64(l) => Associated(Le(OfI64(l), 8), rest, more);
    case Color(i) => Associated(Le(OfI32(i), 4), rest, more);
    case Pointer(i) => Associated(Le(OfI32(i), 4), rest, more);
  }

  lemma {:induction false} DocMore(c: TextCodec, d: Doc, rest: Bytes, more: Bytes)
    requires ValidDoc(c, d)
    ensures DocBytes(c, d, rest + more) == DocBytes(c, d, rest) + more
    decreases d, 0
  {
    match d
    case Leaf(key, value) =>
      ScalarMore(c, value, rest, more);
      NullTerminatedMore(c, key, ScalarBytes(c, value, rest), more);
      Associated([Code(TagOf(value))], NullTerminated(c, key, ScalarBytes(c, value, rest)), more);
    case Group(key, kids, end) =>
      Associated([Code(end)], rest, more);
      var tail := [Code(end)] + rest;
      KidsMore(c, kids, tail, more);
      NullTerminatedMore(c, key, KidsBytes(c, kids, tail), more);
      Associated([Code(SectionTag)], NullTerminated(c, key, KidsBytes(c, kids, tail)), more);
  }

  lemma {:induction false} KidsMore(c: TextCodec, kids: seq<Doc>, rest: Bytes, more: Bytes)
    requires forall k | k in kids :: ValidDoc(c, k)
    ensures KidsBytes(c, kids, rest + more) == KidsBytes(c, kids, rest) + more
    decreases kids
  {
    if kids != [] {
      KidsMore(c, kids[1..], rest, more);
      DocMore(c, kids[0], KidsBytes(c, kids[1..], rest), more);
    }
  }

  // ---------------------------------------------------------------- tokens cut short

  lemma {:induction false} NoZero(b: Bytes)
    requires 0 !in b
    ensures FirstZero(b).None?
  {
    if b != [] {
      assert b[0] in b;
      NoZero(b[1..]);
    }
  }

  /** A string cut before its NUL is not read. */
  lemma CutString(c: TextCodec, s: string, rest: Bytes, n: nat)
    requires Carries(c, s) && n <= |c.encode(s)|
    ensures NullString(c, NullTerminated(c, s, rest)[..n]).None?
  {
    assert NullTerminated(c, s, rest)[..n] == c.encode(s)[..n];
    NoZero(c.encode(s)[..n]);
  }

  lemma CutScalar(c: TextCodec, v: Value, n: nat)
    requires !v.Children? && (v.Str? ==> Carries(c, v.s)) && n < |ScalarBytes(c, v, [])|
    ensures Scalar(c, TagOf(v), ScalarBytes(c, v, [])[..n]).Err?
  {
    if v.Str? {
      CutString(c, v.s, [], n);
    }
  }

  /** The tag and key are read once they are whole, whatever is left after them. */
  lemma CutAfterKey(c: TextCodec, tag: Tag, key: string, body: Bytes, n: nat)
    requires Carries(c, key) && HeaderSize(c, key) <= n <= HeaderSize(c, key) + |body|
    ensures ([Code(tag)] + NullTerminated(c, key, body))[..n] ==
              [Code(tag)] + NullTerminated(c, key, body[..n - HeaderSize(c, key)])
  {
  }

  lemma CutInKey(c: TextCodec, tag: Tag, key: string, body: Bytes, n: nat)
    requires Carries(c, key) && n < HeaderSize(c, key)
    ensures n <= |[Code(tag)] + NullTerminated(c, key, body)|
    ensures Node(c, ([Code(tag)] + NullTerminated(c, key, body))[..n]).Err?
  {
    var b := [Code(tag)] + NullTerminated(c, key, body);
    if n > 0 {
      assert b[..n][1..] == NullTerminated(c, key, body)[..n - 1];
      CutString(c, key, body, n - 1);
    }
  }

  // ---------------------------------------------------------------- exactly the cuts are accepted

  /** The parse of a truncation, if it is accepted. */
  ghost predicate Reads(r: Parsed<KeyValue>, want: Option<KeyValue>)
  {
    if want.None? then r.Err? else r == Ok((want.value, []))
  }

  /** A strict prefix of an encoding is accepted if and only if it ends between two children of a section still open,
      and then it reads as the tree with the children before the cut. */
  lemma {:induction false} TruncationExact(c: TextCodec, d: Doc, n: nat)
    requires ValidDoc(c, d) && n < Size(c, d)
    ensures Reads(Node(c, DocBytes(c, d, [])[..n]), Before(c, d, n))
    decreases d, 0
  {
    match d
    case Leaf(key, value) =>
      var body := ScalarBytes(c, value, []);
      if n < HeaderSize(c, key) {
        CutInKey(c, TagOf(value), key, body, n);
      } else {
        CutAfterKey(c, TagOf(value), key, body, n);
        Headed(c, TagOf(value), key, body[..n - HeaderSize(c, key)]);
        CutScalar(c, value, n - HeaderSize(c, key));
      }
    case Group(key, kids, end) =>
      var body := KidsBytes(c, kids, [Code(end)]);
      assert [Code(end)] + [] == [Code(end)];
      if n < HeaderSize(c, key) {
        CutInKey(c, SectionTag, key, body, n);
      } else {
        var m := n - HeaderSize(c, key);
        CutGroup(c, key, body, n);
        KidsCut(c, kids, end, m, map[]);
        GroupReads(key, Kids(c, body[..m], map[]), KidsBefore(c, kids, m));
      }
  }

  /** A section reads as its children do. */
  function GroupOf(key: string, r: Parsed<map<string, KeyValue>>): Parsed<KeyValue>
  {
    match r
    case Err(e) => Err(e)
    case Ok((children, after)) => Ok((KeyValue(key, Children(children)), after))
  }

  lemma GroupReads(key: string, r: Parsed<map<string, KeyValue>>, want: Option<seq<KeyValue>>)
    requires if want.None? then r.Err? else r == Ok((Inserted(map[], want.value), []))
    ensures Reads(GroupOf(key, r), if want.None? then
              None else Some(KeyValue(key, Children(Inserted(map[], want.value)))))
  {
  }

  lemma CutGroup(c: TextCodec, key: string, body: Bytes, n: nat)
    requires Carries(c, key) && HeaderSize(c, key) <= n <= HeaderSize(c, key) + |body|
    ensures n <= |[Code(SectionTag)] + NullTerminated(c, key, body)|
    ensures Node(c, ([Code(SectionTag)] + NullTerminated(c, key, body))[..n]) ==
              GroupOf(key, Kids(c, body[..n - HeaderSize(c, key)], map[]))
  {
    CutAfterKey(c, SectionTag, key, body, n);
    Headed(c, SectionTag, key, body[..n - HeaderSize(c, key)]);
  }

  /** The children of a truncated section. */
  lemma {:induction false} KidsCut(c: TextCodec, kids: seq<Doc>, end: Tag, n: nat, children: map<string, KeyValue>)
    requires (forall k | k in kids :: ValidDoc(c, k)) && n < |KidsBytes(c, kids, [Code(end)])|
    ensures var r, want := Kids(c, KidsBytes(c, kids, [Code(end)])[..n], children), KidsBefore(c, kids, n);
            if want.None? then r.Err? else r == Ok((Inserted(children, want.value), []))
    decreases kids
  {
    if n > 0 && kids != [] {
      var first, more := kids[0], KidsBytes(c, kids[1..], [Code(end)]);
      if n < Size(c, first) {
        TruncationExact(c, first, n);
        FirstOpen(c, first, more, n, children);
        if Before(c, first, n).Some? {
          InsertedCons(children, Before(c, first, n).value, []);
        }
      } else {
        var m, node := n - Size(c, first), Tree(first);
        SizeMore(c, first, more);
        WholeFirst(c, first, more, n, children);
        KidsCut(c, kids[1..], end, m, children[node.key := node]);
        KidsGlue(Kids(c, more[..m], children[node.key := node]), children, node, KidsBefore(c, kids[1..], m));
      }
    }
  }

  /** One whole child in front of the others. */
  lemma KidsGlue(r: Parsed<map<string, KeyValue>>, children: map<string, KeyValue>, node: KeyValue,
                 want: Option<seq<KeyValue>>)
    requires if want.None? then r.Err? else r == Ok((Inserted(children[node.key := node], want.value), []))
    ensures want.Some? ==> r == Ok((Inserted(children, [node] + want.value), []))
  {
    if want.Some? {
      InsertedCons(children, node, want.value);
    }
  }

  lemma FirstCut(c: TextCodec, d: Doc, more: Bytes, n: nat)
    requires ValidDoc(c, d) && n <= Size(c, d) + |more|
    ensures n <= |DocBytes(c, d, more)|
    ensures DocBytes(c, d, more)[..n] == if n < Size(c, d) then
              DocBytes(c, d, [])[..n] else DocBytes(c, d, more[..n - Size(c, d)])
  {
    DocPlus(c, d, more);
    CutPlus(DocBytes(c, d, []), more, n);
    if n >= Size(c, d) {
      DocPlus(c, d, more[..n - Size(c, d)]);
    }
  }

  lemma DocPlus(c: TextCodec, d: Doc, more: Bytes)
    requires ValidDoc(c, d)
    ensures DocBytes(c, d, more) == DocBytes(c, d, []) + more
  {
    DocMore(c, d, [], more);
    assert [] + more == more;
  }

  lemma CutPlus(a: Bytes, b: Bytes, n: nat)
    requires n <= |a| + |b|
    ensures (a + b)[..n] == if n < |a| then a[..n] else a + b[..n - |a|]
  {
  }

  lemma WholeFirst(c: TextCodec, d: Doc, more: Bytes, n: nat, children: map<string, KeyValue>)
    requires ValidDoc(c, d) && Size(c, d) <= n <= |DocBytes(c, d, more)|
    ensures n - Size(c, d) <= |more|
    ensures Kids(c, DocBytes(c, d, more)[..n], children) ==
              Kids(c, more[..n - Size(c, d)], children[Tree(d).key := Tree(d)])
  {
    SizeMore(c, d, more);
    FirstCut(c, d, more, n);
    BinaryRoundTrip(c, d, more[..n - Size(c, d)]);
    NotAnEnd(c, d, more[..n - Size(c, d)]);
  }

  lemma FirstOpen(c: TextCodec, d: Doc, more: Bytes, n: nat, children: map<string, KeyValue>)
    requires ValidDoc(c, d) && 0 < n < Size(c, d) && Reads(Node(c, DocBytes(c, d, [])[..n]), Before(c, d, n))
    ensures n <= |DocBytes(c, d, more)|
    ensures var r, want := Kids(c, DocBytes(c, d, more)[..n], children), Before(c, d, n);
            if want.None? then r.Err? else r == Ok((children[want.value.key := want.value], []))
  {
    SizeMore(c, d, more);
    FirstCut(c, d, more, n);
    StartsNode(c, d, n);
  }

  lemma SizeMore(c: TextCodec, d: Doc, more: Bytes)
    requires ValidDoc(c, d)
    ensures |DocBytes(c, d, more)| == Size(c, d) + |more|
  {
    DocPlus(c, d, more);
  }

  lemma StartsNode(c: TextCodec, d: Doc, n: nat)
    requires ValidDoc(c, d) && 0 < n <= Size(c, d)
    ensures var b := DocBytes(c, d, [])[..n]; FromU8(b[0]).Some? && !IsEnd(FromU8(b[0]).value)
  {
    NotAnEnd(c, d, []);
  }
}
