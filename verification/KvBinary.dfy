/** The binary KeyValue format (crates/steam/src/types/key_value.rs:42-230). */
module KvBinary {
  import opened Base
  import opened LittleEndian
  import opened NullStrings
  import opened KeyValues

  datatype Tag =
    | SectionTag | StringTag | Int32Tag | Float32Tag | PointerTag | WideTag
    | ColorTag | UInt64Tag | EndTag | Int64Tag | AltEndTag

  datatype BinaryError = Truncated | InvalidTag | SectionEnd

  type Parsed<T> = Result<(T, Bytes), BinaryError>

  function Code(t: Tag): Byte
  {
    match t
    case SectionTag => 0x00
    case StringTag => 0x01
    case Int32Tag => 0x02
    case Float32Tag => 0x03
    case PointerTag => 0x04
    case WideTag => 0x05
    case ColorTag => 0x06
    case UInt64Tag => 0x07
    case EndTag => 0x08
    case Int64Tag => 0x0A
    case AltEndTag => 0x0B
  }

  function FromU8(b: Byte): (t: Option<Tag>)
    ensures forall tag :: t == Some(tag) <==> Code(tag) == b
  {
    match b
    case 0x00 => Some(SectionTag)
    case 0x01 => Some(StringTag)
    case 0x02 => Some(Int32Tag)
    case 0x03 => Some(Float32Tag)
    case 0x04 => Some(PointerTag)
    case 0x05 => Some(WideTag)
    case 0x06 => Some(ColorTag)
    case 0x07 => Some(UInt64Tag)
    case 0x08 => Some(EndTag)
    case 0x0A => Some(Int64Tag)
    case 0x0B => Some(AltEndTag)
    case _ => None
  }

  predicate IsEnd(t: Tag)
  {
    t == EndTag || t == AltEndTag
  }

  // ---------------------------------------------------------------- parsing

  function ReadI32(b: Bytes): Parsed<I32>
  {
    match ReadUint(b, 4)
    case None => Err(Truncated)
    case Some((n, rest)) => Widths(); LeUnLe(b[..4]); Ok((ToI32(n), rest))
  }

  function ReadU64(b: Bytes): Parsed<Word64>
  {
    match ReadUint(b, 8)
    case None => Err(Truncated)
    case Some((n, rest)) => Widths(); LeUnLe(b[..8]); Ok((n, rest))
  }

  function Wrap<T, U>(r: Parsed<T>, f: T -> U): Parsed<U>
  {
    match r
    case Err(e) => Err(e)
    case Ok((t, rest)) => Ok((f(t), rest))
  }

  /** The value of a node that is not a section. */
  function Scalar(c: TextCodec, tag: Tag, b: Bytes): (r: Parsed<Value>)
    requires tag != SectionTag
    ensures r.Ok? ==> IsSuffix(r.value.1, b) && !r.value.0.Children?
  {
    NullStringSuffix(c, b);
    match tag
    case StringTag =>
      (match NullString(c, b)
       case None => Err(Truncated)
       case Some((s, rest)) => Ok((Str(s), rest)))
    case Int32Tag => Wrap(ReadI32(b), i => Int32(i))
    case Float32Tag => if |b| < 4 then Err(Truncated) else Ok((Float32(b[..4]), b[4..]))
    case PointerTag => Wrap(ReadI32(b), i => Pointer(i))
    case WideTag => Ok((Str(""), b))
    case ColorTag => Wrap(ReadI32(b), i => Color(i))
    case UInt64Tag => Wrap(ReadU64(b), n => UInt64(n))
    case Int64Tag => Wrap(ReadU64(b), n => Int64(ToI64(n)))
    case EndTag => Err(SectionEnd)
    case AltEndTag => Err(SectionEnd)
  }

  function Node(c: TextCodec, b: Bytes): (r: Parsed<KeyValue>)
    ensures r.Ok? ==> |r.value.1| < |b|
    decreases |b|, 0
  {
    if b == [] then Err(Truncated)
    else if FromU8(b[0]).None? then Err(InvalidTag)
    else
      match NullString(c, b[1..])
      case None => Err(Truncated)
      case Some((key, rest)) =>
        if b[0] == Code(SectionTag) then
          match Kids(c, rest, map[])
          case Err(e) => Err(e)
          case Ok((children, after)) => Ok((KeyValue(key, Children(children)), after))
        else
          match Scalar(c, FromU8(b[0]).value, rest)
          case Err(e) => Err(e)
          case Ok((value, after)) => Ok((KeyValue(key, value), after))
  }

  /** Children up to a terminator or the end of the input. */
  function Kids(c: TextCodec, b: Bytes, children: map<string, KeyValue>): (r: Parsed<map<string, KeyValue>>)
    ensures r.Ok? ==> |r.value.1| <= |b|
    decreases |b|, 1
  {
    if b == [] then Ok((children, b))
    else if FromU8(b[0]).Some? && IsEnd(FromU8(b[0]).value) then Ok((children, b[1..]))
    else
      match Node(c, b)
      case Err(e) => Err(e)
      case Ok((node, rest)) => Kids(c, rest, children[node.key := node])
  }

  method ParseNode(c: TextCodec, input: Bytes) returns (r: Parsed<KeyValue>)
    ensures r == Node(c, input)
    decreases |input|, 0
  {
    if input == [] {
      return Err(Truncated);
    }
    var tag := FromU8(input[0]);
    if tag.None? {
      return Err(InvalidTag);
    }
    var key := NullString(c, input[1..]);
    if key.None? {
      return Err(Truncated);
    }
    if tag.value == SectionTag {
      var children := ParseChildren(c, key.value.1);
      if children.Err? {
        return Err(children.error);
      }
      r := Ok((KeyValue(key.value.0, Children(children.value.0)), children.value.1));
    } else {
      var value := Scalar(c, tag.value, key.value.1);
      if value.Err? {
        return Err(value.error);
      }
      r := Ok((KeyValue(key.value.0, value.value.0), value.value.1));
    }
  }

  method ParseChildren(c: TextCodec, input: Bytes) returns (r: Parsed<map<string, KeyValue>>)
    ensures r == Kids(c, input, map[])
    decreases |input|, 1
  {
    var children: map<string, KeyValue>, rest := map[], input;
    while rest != []
      invariant Kids(c, rest, children) == Kids(c, input, map[]) && |rest| <= |input|
      decreases |rest|
    {
      var tag := FromU8(rest[0]);
      if tag.Some? && IsEnd(tag.value) {
        return Ok((children, rest[1..]));
      }
      var node := ParseNode(c, rest);
      if node.Err? {
        return Err(node.error);
      }
      children := children[node.value.0.key := node.value.0];
      rest := node.value.1;
    }
    r := Ok((children, rest));
  }

  // ---------------------------------------------------------------- what every parse keeps

  /** Success consumes a prefix and builds a tree in which every child, at any depth, sits under its own key. */
  lemma {:induction false} ParsedNode(c: TextCodec, b: Bytes)
    ensures var r := Node(c, b);
            r.Ok? ==> |r.value.1| < |b| && IsSuffix(r.value.1, b) && EveryNode(r.value.0, KeysAgree)
    decreases |b|, 0
  {
    var r := Node(c, b);
    if r.Ok? {
      var rest := NullString(c, b[1..]).value.1;
      NullStringSuffix(c, b[1..]);
      SuffixOfSuffix(rest, b[1..], b);
      if b[0] == Code(SectionTag) {
        ParsedKids(c, rest, map[]);
      }
      SuffixOfSuffix(r.value.1, rest, b);
    }
  }

  lemma {:induction false} ParsedKids(c: TextCodec, b: Bytes, children: map<string, KeyValue>)
    requires forall k | k in children :: children[k].key == k && EveryNode(children[k], KeysAgree)
    ensures var r := Kids(c, b, children);
            r.Ok? ==> IsSuffix(r.value.1, b) && forall k | k in r.value.0 ::
                r.value.0[k].key == k && EveryNode(r.value.0[k], KeysAgree)
    decreases |b|, 1
  {
    var r := Kids(c, b, children);
    if b != [] && r.Ok? && !(FromU8(b[0]).Some? && IsEnd(FromU8(b[0]).value)) {
      ParsedNode(c, b);
      var (node, rest) := Node(c, b).value;
      ParsedKids(c, rest, children[node.key := node]);
      SuffixOfSuffix(r.value.1, rest, b);
    }
  }

  // ---------------------------------------------------------------- encodings

  /** A tree with its siblings in an order and each section with its own terminator. */
  datatype Doc =
    | Leaf(key: string, value: Value)
    | Group(key: string, kids: seq<Doc>, end: Tag)

  ghost predicate ValidDoc(c: TextCodec, d: Doc)
  {
    && Carries(c, d.key)
    && match d
       case Leaf(_, value) => !value.Children? && (value.Str? ==> Carries(c, value.s))
       case Group(_, kids, end) => IsEnd(end) && forall k | k in kids :: ValidDoc(c, k)
  }

  function TagOf(v: Value): Tag
  {
    match v
    case Str(_) => StringTag
    case Int32(_) => Int32Tag
    case Float32(_) => Float32Tag
    case UInt64(_) => UInt64Tag
    case Int64(_) => Int64Tag
    case Color(_) => ColorTag
    case Pointer(_) => PointerTag
    case Children(_) => SectionTag
  }

  /** The encoders below put their bytes before `rest`. */
  function ScalarBytes(c: TextCodec, v: Value, rest: Bytes): Bytes
    requires !v.Children?
  {
    match v
    case Str(s) => NullTerminated(c, s, rest)
    case Int32(i) => Le(OfI32(i), 4) + rest
    case Float32(raw) => raw + rest
    case UInt64(n) => Le(n, 8) + rest
    case Int64(l) => Le(OfI64(l), 8) + rest
    case Color(i) => Le(OfI32(i), 4) + rest
    case Pointer(i) => Le(OfI32(i), 4) + rest
  }

  ghost function DocBytes(c: TextCodec, d: Doc, rest: Bytes): Bytes
    requires ValidDoc(c, d)
    decreases d, 0
  {
    match d
    case Leaf(key, value) => [Code(TagOf(value))] + NullTerminated(c, key, ScalarBytes(c, value, rest))
    case Group(key, kids, end) => [Code(SectionTag)] + NullTerminated(c, key, KidsBytes(c, kids, [Code(end)] + rest))
  }

  ghost function KidsBytes(c: TextCodec, kids: seq<Doc>, rest: Bytes): Bytes
    requires forall k | k in kids :: ValidDoc(c, k)
    decreases kids
  {
    if kids == [] then rest else DocBytes(c, kids[0], KidsBytes(c, kids[1..], rest))
  }

  function Tree(d: Doc): KeyValue
  {
    match d
    case Leaf(key, value) => KeyValue(key, value)
    case Group(key, kids, _) => KeyValue(key, Children(Inserted(map[], Trees(kids))))
  }

  function Trees(kids: seq<Doc>): seq<KeyValue>
  {
    if kids == [] then [] else [Tree(kids[0])] + Trees(kids[1..])
  }

  // ---------------------------------------------------------------- round trip

  lemma ScalarBack(c: TextCodec, v: Value, rest: Bytes)
    requires !v.Children? && (v.Str? ==> Carries(c, v.s))
    ensures Scalar(c, TagOf(v), ScalarBytes(c, v, rest)) == Ok((v, rest))
  {
    Widths();
    match v
    case Str(s) => NullStringBack(c, s, rest);
    case Int32(i) => ReadBack(OfI32(i), 4, rest);
    case Float32(raw) => assert (raw + rest)[..4] == raw && (raw + rest)[4..] == rest;
    case UInt64(n) => ReadBack(n, 8, rest);
    case Int64(l) => ReadBack(OfI64(l), 8, rest);
    case Color(i) => ReadBack(OfI32(i), 4, rest);
    case Pointer(i) => ReadBack(OfI32(i), 4, rest);
  }

  lemma Headed(c: TextCodec, tag: Tag, key: string, more: Bytes)
    requires Carries(c, key)
    ensures var b := [Code(tag)] + NullTerminated(c, key, more);
            FromU8(b[0]) == Some(tag) && NullString(c, b[1..]) == Some((key, more))
  {
    var b := [Code(tag)] + NullTerminated(c, key, more);
    assert b[1..] == NullTerminated(c, key, more);
    NullStringBack(c, key, more);
  }

  /** Any encoding of a tree, followed by anything, parses to the tree and exactly what followed. */
  lemma {:induction false} BinaryRoundTrip(c: TextCodec, d: Doc, rest: Bytes)
    requires ValidDoc(c, d)
    ensures Node(c, DocBytes(c, d, rest)) == Ok((Tree(d), rest))
    decreases d, 0
  {
    match d
    case Leaf(key, value) =>
      Headed(c, TagOf(value), key, ScalarBytes(c, value, rest));
      ScalarBack(c, value, rest);
    case Group(key, kids, end) =>
      var tail := [Code(end)] + rest;
      Headed(c, SectionTag, key, KidsBytes(c, kids, tail));
      assert tail[1..] == rest;
      KidsBack(c, kids, tail, map[]);
  }

  /** The children, as far as what stops them. */
  lemma {:induction false} KidsBack(c: TextCodec, kids: seq<Doc>, tail: Bytes, children: map<string, KeyValue>)
    requires forall k | k in kids :: ValidDoc(c, k)
    ensures Kids(c, KidsBytes(c, kids, tail), children) == Kids(c, tail, Inserted(children, Trees(kids)))
    decreases kids
  {
    if kids != [] {
      var more := KidsBytes(c, kids[1..], tail);
      BinaryRoundTrip(c, kids[0], more);
      NotAnEnd(c, kids[0], more);
      var node := Tree(kids[0]);
      KidsBack(c, kids[1..], tail, children[node.key := node]);
    }
  }

  lemma NotAnEnd(c: TextCodec, d: Doc, rest: Bytes)
    requires ValidDoc(c, d)
    ensures var b := DocBytes(c, d, rest); b != [] && FromU8(b[0]).Some? && !IsEnd(FromU8(b[0]).value)
  {
  }

  /** A wide string keeps none of its bytes: they are parsed as what follows. */
  lemma WideStringIsSkipped(c: TextCodec, key: string, rest: Bytes)
    requires Carries(c, key)
    ensures Node(c, [Code(WideTag)] + NullTerminated(c, key, rest)) == Ok((KeyValue(key, Str("")), rest))
  {
    Headed(c, WideTag, key, rest);
  }

  // ---------------------------------------------------------------- every tree has an encoding

  ghost predicate Plain(c: TextCodec, kv: KeyValue)
  {
    KeysAgree(kv) && Carries(c, kv.key) && (kv.value.Str? ==> Carries(c, kv.value.s))
  }

  lemma {:induction false} TreesAppend(kids: seq<Doc>, d: Doc)
    ensures Trees(kids + [d]) == Trees(kids) + [Tree(d)]
  {
    if kids != [] {
      assert (kids + [d])[1..] == kids[1..] + [d];
      TreesAppend(kids[1..], d);
    }
  }

  ghost predicate PlainTree(c: TextCodec, kv: KeyValue)
  {
    EveryNode(kv, n => Plain(c, n))
  }

  /** Every tree without unencodable text is the tree of some encoding, with either terminator. */
  lemma {:induction false} EveryTreeEncodes(c: TextCodec, kv: KeyValue, end: Tag) returns (d: Doc)
    requires PlainTree(c, kv) && IsEnd(end)
    ensures ValidDoc(c, d) && Tree(d) == kv
    decreases kv
  {
    if !kv.value.Children? {
      return Leaf(kv.key, kv.value);
    }
    var m := kv.value.children;
    var kids: seq<Doc>, todo := [], m.Keys;
    while todo != {}
      invariant todo <= m.Keys
      invariant forall k | k in kids :: ValidDoc(c, k)
      invariant Inserted(map[], Trees(kids)) == m - todo
    {
      var k :| k in todo;
      var kid := EveryTreeEncodes(c, m[k], end);
      TreesAppend(kids, kid);
      InsertedAppend(map[], Trees(kids), Tree(kid));
      kids := kids + [kid];
      todo := todo - {k};
    }
    assert m - todo == m;
    d := Group(kv.key, kids, end);
  }
}
