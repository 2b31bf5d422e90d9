/** Bundled messages (crates/steam/src/client/multi.rs). */
module Multi {
  import opened Base
  import opened LittleEndian

  /** The decoded bundle: its payload and the size it unpacks to (0 or absent: not compressed). */
  datatype Bundle = Bundle(payload: Option<Bytes>, sizeUnzipped: Option<nat>)

  datatype Codec = Codec(decode: Bytes -> Option<Bundle>, gunzip: Bytes -> Option<Bytes>)

  datatype MultiError = BadBundle | BadGzip

  /** The length-prefixed records of a payload, up to the first incomplete one. */
  function Records(payload: Bytes): seq<Bytes>
    decreases |payload|
  {
    if |payload| < 4 then []
    else
      var len := UnLe(payload[..4]);
      if |payload| - 4 < len then [] else [payload[4..4 + len]] + Records(payload[4 + len..])
  }

  /** The records written one after another before `rest`. */
  function RecordBytes(records: seq<Bytes>, rest: Bytes): Bytes
  {
    if records == [] then rest else Le(|records[0]| % U32, 4) + (records[0] + RecordBytes(records[1..], rest))
  }

  function Payload(c: Codec, body: Bytes): Result<Option<Bytes>, MultiError>
  {
    match c.decode(body)
    case None => Err(BadBundle)
    case Some(b) =>
      if b.payload.None? then Ok(None)
      else if b.sizeUnzipped.Some? && b.sizeUnzipped.value > 0 then
        match c.gunzip(b.payload.value)
        case None => Err(BadGzip)
        case Some(raw) => Ok(Some(raw))
      else Ok(b.payload)
  }

  function UnpackSpec(c: Codec, body: Bytes): Result<seq<Bytes>, MultiError>
  {
    match Payload(c, body)
    case Err(e) => Err(e)
    case Ok(None) => Ok([])
    case Ok(Some(raw)) => Ok(Records(raw))
  }

  method UnpackMulti(c: Codec, body: Bytes) returns (r: Result<seq<Bytes>, MultiError>)
    ensures r == UnpackSpec(c, body)
  {
    var payload := Payload(c, body);
    if payload.Err? {
      return Err(payload.error);
    }
    if payload.value.None? {
      return Ok([]);
    }
    var messages: seq<Bytes>, cursor := [], payload.value.value;
    while |cursor| >= 4
      invariant messages + Records(cursor) == Records(payload.value.value)
      decreases |cursor|
    {
      var len := UnLe(cursor[..4]);
      var rest := cursor[4..];
      if |rest| < len {
        break;
      }
      assert rest[..len] == cursor[4..4 + len] && rest[len..] == cursor[4 + len..];
      assert messages + Records(cursor) == messages + [rest[..len]] + Records(rest[len..]);
      messages := messages + [rest[..len]];
      cursor := rest[len..];
    }
    assert Records(cursor) == [] && messages + [] == messages;
    r := Ok(messages);
  }

  /** What is left after the complete records. */
  function Tail(payload: Bytes): Bytes
    decreases |payload|
  {
    if |payload| < 4 then payload
    else
      var len := UnLe(payload[..4]);
      if |payload| - 4 < len then payload else Tail(payload[4 + len..])
  }

  /** One complete record in front. */
  lemma RecordsCons(first: Bytes, rest: Bytes)
    requires |first| < U32
    ensures var p := Le(|first|, 4) + (first + rest);
            Records(p) == [first] + Records(rest) && Tail(p) == Tail(rest)
  {
    Widths();
    UnLeLe(|first|, 4);
    Slices(Le(|first|, 4), first, rest);
  }

  lemma Slices(a: Bytes, b: Bytes, c: Bytes)
    ensures var p := a + (b + c); p[..|a|] == a && p[|a|..|a| + |b|] == b && p[|a| + |b|..] == c
  {
  }

  lemma TakeRecord(payload: Bytes, len: nat)
    requires |payload| >= 4 && len == UnLe(payload[..4]) && |payload| >= 4 + len
    ensures len < U32 && payload == Le(len, 4) + (payload[4..4 + len] + payload[4 + len..])
  {
    Widths();
    ReadExact(payload, 4);
    assert payload[4..] == payload[4..4 + len] + payload[4 + len..];
  }

  /** The records are the maximal list of complete ones: the payload is their encoding and a tail that starts with
      none. */
  lemma {:induction false} RecordsMaximal(payload: Bytes)
    ensures payload == RecordBytes(Records(payload), Tail(payload)) && Records(Tail(payload)) == []
    decreases |payload|
  {
    if |payload| >= 4 && |payload| >= 4 + UnLe(payload[..4]) {
      var len := UnLe(payload[..4]);
      TakeRecord(payload, len);
      RecordsMaximal(payload[4 + len..]);
      RecordBytesCons(payload[4..4 + len], Records(payload[4 + len..]), Tail(payload));
    }
  }

  lemma RecordBytesCons(first: Bytes, more: seq<Bytes>, rest: Bytes)
    requires |first| < U32
    ensures RecordBytes([first] + more, rest) == Le(|first|, 4) + (first + RecordBytes(more, rest))
  {
    assert ([first] + more)[1..] == more;
  }

  /** Any records come back from their encoding, whatever incomplete tail follows. */
  lemma {:induction false} RecordsBack(records: seq<Bytes>, tail: Bytes)
    requires forall i | 0 <= i < |records| :: |records[i]| < U32
    ensures Records(RecordBytes(records, tail)) == records + Records(tail)
  {
    if records == [] {
      assert [] + Records(tail) == Records(tail);
    } else {
      var first, more := records[0], RecordBytes(records[1..], tail);
      RecordBytesCons(first, records[1..], tail);
      RecordsBack(records[1..], tail);
      RecordsBackStep(first, more, records[1..], Records(tail));
      assert records == [first] + records[1..];
    }
  }

  lemma RecordsBackStep(first: Bytes, more: Bytes, rest: seq<Bytes>, last: seq<Bytes>)
    requires |first| < U32 && Records(more) == rest + last
    ensures Records(Le(|first|, 4) + (first + more)) == [first] + rest + last
  {
    RecordsCons(first, more);
    PrependRecord(first, rest, last);
  }

  lemma PrependRecord(first: Bytes, rest: seq<Bytes>, more: seq<Bytes>)
    ensures [first] + (rest + more) == [first] + rest + more
  {
  }
}
