/** Bundles end to end: messages written into a bundle, zipped or not, encrypted or not, are what its packet holds
    (crates/steam/src/client/multi.rs, client/mod.rs:397-444). */
module Bundles {
  import opened Base
  import opened Messages
  import opened Pump
  import Multi
  import SessionCipher

  function Written(p: Proto, msgs: seq<ClientMsg>): (pieces: seq<Bytes>)
    ensures |pieces| == |msgs|
  {
    seq(|msgs|, i requires 0 <= i < |msgs| => MsgBytes(p, msgs[i]))
  }

  function AsRead(msgs: seq<ClientMsg>): (read: seq<Incoming>)
    ensures |read| == |msgs|
  {
    seq(|msgs|, i requires 0 <= i < |msgs| => Incoming(msgs[i].emsg, true, msgs[i].header, msgs[i].body))
  }

  ghost predicate Writable(p: Proto, m: ClientMsg)
  {
    m.emsg < 0x8000_0000 && SerializedLen(p, m) < U32
  }

  lemma WrittenBack(p: Proto, m: ClientMsg)
    requires Faithful(p) && Writable(p, m)
    ensures ParseIncoming(p, MsgBytes(p, m)) == Ok(Incoming(m.emsg, true, m.header, m.body))
    ensures |MsgBytes(p, m)| < U32
  {
    IncomingBack(p, m);
    MaskFacts(m.emsg);
  }

  lemma {:induction false} AllParsed(p: Proto, msgs: seq<ClientMsg>)
    requires Faithful(p) && forall i | 0 <= i < |msgs| :: Writable(p, msgs[i])
    ensures ParsedParts(p, Written(p, msgs)) == AsRead(msgs)
  {
    if msgs != [] {
      var n := |msgs| - 1;
      AllParsed(p, msgs[..n]);
      WrittenBack(p, msgs[n]);
      LastPart(p, msgs);
    }
  }

  lemma LastPart(p: Proto, msgs: seq<ClientMsg>)
    requires msgs != []
    ensures var n := |msgs| - 1;
            && Written(p, msgs)[..n] == Written(p, msgs[..n]) && Written(p, msgs)[n] == MsgBytes(p, msgs[n])
            && AsRead(msgs) ==
               AsRead(msgs[..n]) + [Incoming(msgs[n].emsg, true, msgs[n].header, msgs[n].body)]
  {
  }

  /** The bundle's payload, unzipped if a size above 0 says so, is these bytes. */
  predicate Carries(c: Multi.Codec, body: Bytes, bytes: Bytes)
  {
    match c.decode(body)
    case None => false
    case Some(Bundle(None, _)) => false
    case Some(Bundle(Some(raw), size)) =>
      if size in {None, Some(0)} then raw == bytes else c.gunzip(raw) == Some(bytes)
  }

  lemma PiecesBack(p: Proto, msgs: seq<ClientMsg>, tail: Bytes)
    requires Faithful(p) && (forall i | 0 <= i < |msgs| :: Writable(p, msgs[i])) && Multi.Records(tail) == []
    ensures Multi.Records(Multi.RecordBytes(Written(p, msgs), tail)) == Written(p, msgs)
  {
    var pieces := Written(p, msgs);
    forall i | 0 <= i < |pieces|
      ensures |pieces[i]| < U32
    {
      WrittenBack(p, msgs[i]);
    }
    Multi.RecordsBack(pieces, tail);
    assert pieces + [] == pieces;
  }

  lemma Unpacked(c: Multi.Codec, body: Bytes, bytes: Bytes)
    requires Carries(c, body, bytes)
    ensures Multi.UnpackSpec(c, body) == Ok(Multi.Records(bytes))
  {
  }

  lemma CarriedBack(env: Env, body: Bytes, msgs: seq<ClientMsg>, tail: Bytes)
    requires Faithful(env.proto) && (forall i | 0 <= i < |msgs| :: Writable(env.proto, msgs[i]))
    requires Multi.Records(tail) == []
    requires Carries(env.multi, body, Multi.RecordBytes(Written(env.proto, msgs), tail))
    ensures Multi.UnpackSpec(env.multi, body) == Ok(Written(env.proto, msgs))
    ensures ParsedParts(env.proto, Written(env.proto, msgs)) == AsRead(msgs)
  {
    Unpacked(env.multi, body, Multi.RecordBytes(Written(env.proto, msgs), tail));
    PiecesBack(env.proto, msgs, tail);
    AllParsed(env.proto, msgs);
  }

  /** A bundle of messages (id 1), sent in the clear or encrypted, holds exactly those messages, in order, whatever
      incomplete record ends its payload. */
  lemma BundleBack(env: Env, cipher: Option<SessionCipher.Cipher>, random: Bytes, top: ClientMsg,
                   msgs: seq<ClientMsg>, tail: Bytes)
    requires Faithful(env.proto) && (forall i | 0 <= i < |msgs| :: Writable(env.proto, msgs[i]))
    requires top.emsg == 1 && Writable(env.proto, top) && Multi.Records(tail) == []
    requires Carries(env.multi, top.body, Multi.RecordBytes(Written(env.proto, msgs), tail))
    requires cipher.Some? ==> SessionCipher.Permutation(cipher.value) && |random| == 3
    ensures var raw := MsgBytes(env.proto, top);
            Contents(env, cipher, if cipher.None? then raw else SessionCipher.Encrypt(cipher.value, random, raw)) ==
            Ok(AsRead(msgs))
  {
    WrittenBack(env.proto, top);
    CarriedBack(env, top.body, msgs, tail);
    if cipher.Some? {
      SessionCipher.EncryptOpens(cipher.value, random, MsgBytes(env.proto, top));
    }
  }

  /** So a call whose response is anywhere in a bundle that reaches it gets an answer. */
  lemma BundledResponseArrives(env: Env, cipher: Option<SessionCipher.Cipher>, random: Bytes, top: ClientMsg,
                               msgs: seq<ClientMsg>, tail: Bytes, packets: seq<Bytes>, i: nat, k: nat, job: nat)
    requires Faithful(env.proto) && (forall j | 0 <= j < |msgs| :: Writable(env.proto, msgs[j]))
    requires top.emsg == 1 && Writable(env.proto, top) && Multi.Records(tail) == []
    requires Carries(env.multi, top.body, Multi.RecordBytes(Written(env.proto, msgs), tail))
    requires cipher.Some? ==> SessionCipher.Permutation(cipher.value) && |random| == 3
    requires i < |packets| && forall j | 0 <= j < i :: Opens(env, cipher, packets[j])
    requires var raw := MsgBytes(env.proto, top);
             packets[i] == if cipher.None? then raw else SessionCipher.Encrypt(cipher.value, random, raw)
    requires k < |msgs| && msgs[k].emsg == 147 && msgs[k].header.jobTarget == Some(job)
    ensures Answered(env, cipher, [], packets, job)
  {
    BundleBack(env, cipher, random, top, msgs, tail);
    var m := AsRead(msgs)[k];
    assert m in AsRead(msgs);
    ContentsExactly(env, cipher, packets[i], m);
    assert Arrives(env, cipher, packets, i, m) && SomeArrives(env, cipher, packets, m);
  }
}
