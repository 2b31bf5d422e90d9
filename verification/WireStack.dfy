/** The layers together: client message, session cipher, frame, byte stream, and back. */
module WireStack {
  import opened Base
  import opened LittleEndian
  import opened Messages
  import Framing
  import SessionCipher

  /** A message with the random bytes its encryption draws. */
  datatype Sending = Sending(msg: ClientMsg, random: Bytes)

  datatype WireError =
    | Transport(e: Framing.TransportError)
    | Crypto(c: SessionCipher.CipherError)
    | Parse(p: ParseError)

  ghost predicate Sendable(p: Proto, s: Sending)
  {
    s.msg.emsg < PROTO_MASK && |s.random| == 3 && SerializedLen(p, s.msg) + 32 < U32
  }

  function Sealed(p: Proto, c: SessionCipher.Cipher, s: Sending): Bytes
    requires |c.mac(s.random + MsgBytes(p, s.msg))| >= 13
  {
    SessionCipher.Encrypt(c, s.random, MsgBytes(p, s.msg))
  }

  /** Everything sent, as it lies in the stream. */
  ghost function Wire(p: Proto, c: SessionCipher.Cipher, sent: seq<Sending>): Bytes
    requires SessionCipher.Permutation(c)
  {
    if sent == [] then [] else Framing.FrameBytes(Sealed(p, c, sent[0])) + Wire(p, c, sent[1..])
  }

  /** One receive: unframe, decrypt, parse. */
  function Receive(p: Proto, c: SessionCipher.Cipher, stream: Bytes): Result<(Incoming, Bytes), WireError>
  {
    match Framing.ParseFrameSpec(stream)
    case Incomplete => Err(Transport(Framing.Eof))
    case BadMagic => Err(Transport(Framing.WrongMagic))
    case Frame(payload, rest) =>
      match SessionCipher.Decrypt(c, payload)
      case Err(e) => Err(Crypto(e))
      case Ok(plain) =>
        match ParseIncoming(p, plain)
        case Err(e) => Err(Parse(e))
        case Ok(m) => Ok((m, rest))
  }

  function ReceiveAll(p: Proto, c: SessionCipher.Cipher, stream: Bytes, n: nat): Result<(seq<Incoming>,
                      Bytes), WireError>
  {
    if n == 0 then Ok(([], stream))
    else
      match Receive(p, c, stream)
      case Err(e) => Err(e)
      case Ok((m, rest)) =>
        match ReceiveAll(p, c, rest, n - 1)
        case Err(e) => Err(e)
        case Ok((ms, after)) => Ok(([m] + ms, after))
  }

  function AsReceived(s: Sending): Incoming
  {
    Incoming(s.msg.emsg, true, s.msg.header, s.msg.body)
  }

  function AsIncoming(sent: seq<Sending>): seq<Incoming>
  {
    seq(|sent|, i requires 0 <= i < |sent| => AsReceived(sent[i]))
  }

  lemma OneBack(p: Proto, c: SessionCipher.Cipher, s: Sending, rest: Bytes)
    requires Faithful(p) && SessionCipher.Permutation(c) && Sendable(p, s)
    ensures Receive(p, c, Framing.FrameBytes(Sealed(p, c, s)) + rest) ==
            Ok((AsReceived(s), rest))
  {
    SessionCipher.EncryptOpens(c, s.random, MsgBytes(p, s.msg));
    Framing.FrameBack(Sealed(p, c, s), rest);
    IncomingBack(p, s.msg);
    MaskFacts(s.msg.emsg);
  }

  lemma Associate(a: Bytes, b: Bytes, c: Bytes)
    ensures a + b + c == a + (b + c)
  {
  }

  lemma ReceiveCons(p: Proto, c: SessionCipher.Cipher, frame: Bytes, more: Bytes, rest: Bytes, m: Incoming,
                    ms: seq<Incoming>)
    requires Receive(p, c, frame + (more + rest)) == Ok((m, more + rest))
    requires ReceiveAll(p, c, more + rest, |ms|) == Ok((ms, rest))
    ensures ReceiveAll(p, c, frame + more + rest, |[m] + ms|) == Ok(([m] + ms, rest))
  {
    Associate(frame, more, rest);
  }

  lemma AsIncomingCons(sent: seq<Sending>)
    requires sent != []
    ensures AsIncoming(sent) == [AsReceived(sent[0])] + AsIncoming(sent[1..])
  {
  }

  /** Any messages serialised, encrypted, framed and concatenated come back message for message, leaving what
      follows. */
  lemma {:induction false} StackRoundTrip(p: Proto, c: SessionCipher.Cipher, sent: seq<Sending>, rest: Bytes)
    requires Faithful(p) && SessionCipher.Permutation(c) && forall i | 0 <= i < |sent| :: Sendable(p, sent[i])
    ensures ReceiveAll(p, c, Wire(p, c, sent) + rest, |sent|) == Ok((AsIncoming(sent), rest))
  {
    if sent == [] {
      assert Wire(p, c, sent) + rest == rest;
      assert AsIncoming(sent) == [];
    } else {
      var frame, more := Framing.FrameBytes(Sealed(p, c, sent[0])), Wire(p, c, sent[1..]);
      StackRoundTrip(p, c, sent[1..], rest);
      OneBack(p, c, sent[0], more + rest);
      AsIncomingCons(sent);
      ReceiveCons(p, c, frame, more, rest, AsReceived(sent[0]), AsIncoming(sent[1..]));
    }
  }

  /** What lies on the wire: one frame a message, in order, each the message's bytes encrypted with its random bytes. */
  lemma {:induction false} WireSplit(p: Proto, c: SessionCipher.Cipher, sent: seq<Sending>, i: nat)
    requires SessionCipher.Permutation(c) && i < |sent|
    ensures Wire(p, c, sent) ==
            Wire(p, c, sent[..i]) +
            (Framing.FrameBytes(SessionCipher.Encrypt(c, sent[i].random, MsgBytes(p, sent[i].msg))) +
             Wire(p, c, sent[i + 1..]))
  {
    var frame := Framing.FrameBytes(SessionCipher.Encrypt(c, sent[i].random, MsgBytes(p, sent[i].msg)));
    if i == 0 {
      assert [] + Wire(p, c, sent) == Wire(p, c, sent);
    } else {
      WireSplit(p, c, sent[1..], i - 1);
      assert sent[1..][..i - 1] == sent[..i][1..] && sent[1..][i..] == sent[i + 1..];
      Associate(Framing.FrameBytes(Sealed(p, c, sent[0])), Wire(p, c, sent[..i][1..]),
        frame + Wire(p, c, sent[i + 1..]));
    }
  }

  method SendOne(p: Proto, c: SessionCipher.Cipher, t: Framing.TcpTransport, s: Sending)
    requires SessionCipher.Permutation(c)
    modifies t`outbound
    ensures t.outbound == old(t.outbound) + Framing.FrameBytes(Sealed(p, c, s))
  {
    var w := new Writer();
    WriteTo(p, s.msg, w);
    assert w.out == MsgBytes(p, s.msg);
    t.Send(SessionCipher.Encrypt(c, s.random, w.out));
  }

  method SendAll(p: Proto, c: SessionCipher.Cipher, t: Framing.TcpTransport, sent: seq<Sending>)
    requires SessionCipher.Permutation(c)
    modifies t`outbound
    ensures t.outbound == old(t.outbound) + Wire(p, c, sent)
  {
    for i := 0 to |sent|
      invariant t.outbound + Wire(p, c, sent[i..]) == old(t.outbound) + Wire(p, c, sent)
    {
      ghost var before, frame := t.outbound, Framing.FrameBytes(Sealed(p, c, sent[i]));
      SendOne(p, c, t, sent[i]);
      assert sent[i..][0] == sent[i] && sent[i..][1..] == sent[i + 1..];
      Associate(before, frame, Wire(p, c, sent[i + 1..]));
    }
    assert sent[|sent|..] == [];
  }

  /** Receives `n` messages from the transport. */
  method RecvAll(p: Proto, c: SessionCipher.Cipher, t: Framing.TcpTransport, n: nat)
    returns (r: Result<seq<Incoming>, WireError>)
    modifies t`inbound
    ensures match ReceiveAll(p, c, old(t.inbound), n)
            case Ok((ms, rest)) => r == Ok(ms) && t.inbound == rest
            case Err(e) => r == Err(e)
  {
    if n == 0 {
      return Ok([]);
    }
    var payload := t.Recv();
    if payload.Err? {
      return Err(Transport(payload.error));
    }
    var plain := SessionCipher.Decrypt(c, payload.value);
    if plain.Err? {
      return Err(Crypto(plain.error));
    }
    var m := ParseIncoming(p, plain.value);
    if m.Err? {
      return Err(Parse(m.error));
    }
    var more := RecvAll(p, c, t, n - 1);
    r := if more.Err? then Err(more.error) else Ok([m.value] + more.value);
  }
}
