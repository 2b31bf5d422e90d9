/** VT01 frames (crates/steam/src/connection/framing.rs) and the TCP transport over them (transport/tcp.rs). */
module Framing {
  import opened Base
  import opened LittleEndian

  /** "VT01" read as a little-endian integer. */
  const MAGIC := 0x3130_5456

  function FrameBytes(payload: Bytes): Bytes
  {
    Le(|payload| % U32, 4) + (Le(MAGIC, 4) + payload)
  }

  datatype FrameParse = Incomplete | BadMagic | Frame(payload: Bytes, rest: Bytes)

  /** The streaming parser's answer on the bytes at hand. */
  function ParseFrameSpec(input: Bytes): FrameParse
  {
    match ReadUint(input, 4)
    case None => Incomplete
    case Some((len, b1)) =>
      match ReadUint(b1, 4)
      case None => Incomplete
      case Some((magic, b2)) =>
        if magic != MAGIC then BadMagic
        else if |b2| < len then Incomplete
        else Frame(b2[..len], b2[len..])
  }

  method ParseFrame(input: Reader) returns (r: FrameParse)
    modifies input
    ensures r == ParseFrameSpec(old(input.rest))
    ensures r.Frame? ==> input.rest == r.rest
  {
    var len := input.Uint(4);
    if len.None? {
      return Incomplete;
    }
    var magic := input.Uint(4);
    if magic.None? {
      return Incomplete;
    }
    if magic.value != MAGIC {
      return BadMagic;
    }
    var payload := input.Take(len.value);
    if payload.None? {
      return Incomplete;
    }
    r := Frame(payload.value, input.rest);
  }

  method WriteFrame(w: Writer, payload: Bytes)
    modifies w
    ensures w.out == old(w.out) + FrameBytes(payload)
  {
    w.Uint(|payload| % U32, 4);
    w.Uint(MAGIC, 4);
    w.All(payload);
  }

  datatype TransportError = Eof | WrongMagic

  /** A connection: what the peer has yet to be read, and what has been written to it. `read_exact` on a closed stream
      is `Eof`. */
  class TcpTransport {
    var inbound: Bytes
    var outbound: Bytes

    constructor (b: Bytes)
      ensures inbound == b && outbound == []
    {
      inbound, outbound := b, [];
    }

    method Send(payload: Bytes)
      modifies `outbound
      ensures outbound == old(outbound) + FrameBytes(payload)
    {
      var w := new Writer();
      WriteFrame(w, payload);
      outbound := outbound + w.out;
    }

    /** The 8-byte header in one read, then the payload in another: it accepts what the streaming parser accepts. */
    method Recv() returns (r: Result<Bytes, TransportError>)
      modifies `inbound
      ensures match ParseFrameSpec(old(inbound))
              case Frame(payload, rest) => r == Ok(payload) && inbound == rest
              case BadMagic => r == Err(WrongMagic)
              case Incomplete => r == Err(Eof)
    {
      if |inbound| < 8 {
        return Err(Eof);
      }
      var header := inbound[..8];
      var len, magic := UnLe(header[..4]), UnLe(header[4..8]);
      assert header[..4] == inbound[..4] && header[4..8] == inbound[4..][..4] && inbound[8..] == inbound[4..][4..];
      inbound := inbound[8..];
      if magic != MAGIC {
        return Err(WrongMagic);
      }
      if |inbound| < len {
        return Err(Eof);
      }
      r := Ok(inbound[..len]);
      inbound := inbound[len..];
    }
  }

  /** A frame followed by anything gives back its payload and exactly the rest. */
  lemma FrameBack(payload: Bytes, rest: Bytes)
    requires |payload| < U32
    ensures ParseFrameSpec(FrameBytes(payload) + rest) == Frame(payload, rest)
  {
    Widths();
    ReadBack(|payload|, 4, Le(MAGIC, 4) + (payload + rest));
    ReadBack(MAGIC, 4, payload + rest);
    Nested(Le(|payload|, 4), Le(MAGIC, 4), payload, rest);
    assert (payload + rest)[..|payload|] == payload && (payload + rest)[|payload|..] == rest;
  }

  /** What parses is a frame: the accepted bytes are the frame of the payload. */
  lemma FrameExact(input: Bytes)
    ensures var r := ParseFrameSpec(input); r.Frame? ==> |r.payload| < U32 && input == FrameBytes(r.payload) + r.rest
  {
    var r := ParseFrameSpec(input);
    if r.Frame? {
      HeaderExact(input);
      Join(input[4..][4..], |r.payload|);
      Nested(Le(|r.payload|, 4), Le(MAGIC, 4), r.payload, r.rest);
    }
  }

  lemma HeaderExact(input: Bytes)
    requires |input| >= 8
    ensures var len, magic := UnLe(input[..4]), UnLe(input[4..][..4]);
            len < U32 && len % U32 == len && input == Le(len, 4) + (Le(magic, 4) + input[4..][4..])
  {
    Widths();
    ReadExact(input, 4);
    ReadExact(input[4..], 4);
  }

  /** Every strict prefix of one frame is incomplete: never an error, never a shorter frame. */
  lemma PrefixIncomplete(payload: Bytes, n: nat)
    requires |payload| < U32 && n < |FrameBytes(payload)|
    ensures ParseFrameSpec(FrameBytes(payload)[..n]) == Incomplete
  {
    if n >= 8 {
      LengthFits(|payload|);
      HeaderOfPrefix(Le(|payload|, 4), Le(MAGIC, 4), payload, n);
      HeaderOnly(FrameBytes(payload)[..n], |payload|);
    } else {
      NoHeader(FrameBytes(payload)[..n]);
    }
  }

  lemma LengthFits(n: nat)
    requires n < U32
    ensures n % U32 == n && UnLe(Le(n, 4)) == n && UnLe(Le(MAGIC, 4)) == MAGIC
  {
    Widths();
    UnLeLe(n, 4);
    UnLeLe(MAGIC, 4);
  }

  lemma HeaderOnly(b: Bytes, len: nat)
    requires |b| >= 8 && UnLe(b[..4]) == len && UnLe(b[4..][..4]) == MAGIC && |b[4..][4..]| < len
    ensures ParseFrameSpec(b) == Incomplete
  {
  }

  lemma NoHeader(b: Bytes)
    requires |b| < 8
    ensures ParseFrameSpec(b) == Incomplete
  {
  }

  lemma HeaderOfPrefix(len: Bytes, magic: Bytes, payload: Bytes, n: nat)
    requires |len| == 4 && |magic| == 4 && 8 <= n <= 8 + |payload|
    ensures var b := (len + (magic + payload))[..n]; b[..4] == len && b[4..][..4] == magic && |b[4..][4..]| == n - 8
  {
  }
}
