/** The frame reader as a loop over a byte stream (guest/src/ui_sidecar.rs). */
module WebSocketClient {
  import opened Wrappers
  import opened Utf
  import opened WebSocket

  /** The receiving side of the connection: the bytes still to come before it ends. */
  class Stream {
    var input: Bytes

    constructor (bytes: Bytes)
      ensures input == bytes
    {
      input := bytes;
    }

    /** `read_exact`; running out consumes what was left. */
    method ReadExact(n: nat) returns (r: Option<Bytes>)
      modifies this
      ensures r == None <==> |old(input)| < n
      ensures r == None ==> input == []
      ensures r.Some? ==> r.value == old(input)[..n] && input == old(input)[n..]
    {
      if |input| < n {
        r := None;
        input := [];
      } else {
        r := Some(input[..n]);
        input := input[n..];
      }
    }
  }

  datatype ReadResult = Text(payload: Bytes) | NotUtf8 | ClosedByPeer | StreamEnded

  function ResultOf(r: TextRead): ReadResult {
    match r
    case Message(payload, _) => Text(payload)
    case BadUtf8(_) => NotUtf8
    case Closed(_) => ClosedByPeer
    case EndOfStream => StreamEnded
  }

  function RestOf(r: TextRead): Bytes { if r.EndOfStream? then [] else r.rest }

  /** `*byte ^= mask[idx % 4]` over the payload buffer. */
  method UnmaskInPlace(payload: array<Byte>, mask: Mask)
    modifies payload
    ensures payload[..] == Masked(old(payload[..]), mask)
  {
    ghost var before := payload[..];
    for idx := 0 to payload.Length
      invariant forall k :: 0 <= k < idx ==> payload[k] == Masked(before, mask)[k]
      invariant forall k :: idx <= k < payload.Length ==> payload[k] == before[k]
    {
      payload[idx] := XorByte(payload[idx], mask[idx % |mask|]);
    }
  }

  method ReadPayload(stream: Stream, len: nat, mask: Option<Mask>) returns (r: Option<Bytes>)
    modifies stream
    ensures r == None <==> |old(stream.input)| < len
    ensures r == None ==> stream.input == []
    ensures r.Some? ==> r.value == MaskWith(mask, old(stream.input)[..len]) && stream.input == old(stream.input)[len..]
  {
    var body := stream.ReadExact(len);
    if body == None {
      return None;
    }
    var payload := new Byte[len](i requires 0 <= i < len => body.value[i]);
    assert payload[..] == body.value;
    if mask.Some? {
      UnmaskInPlace(payload, mask.value);
    }
    r := Some(payload[..]);
  }

  method ReadExtendedLength(stream: Stream, code: Byte) returns (len: Option<nat>)
    modifies stream
    ensures match ReadLength(code, old(stream.input))
            case None => len == None && stream.input == []
            case Some((n, rest)) => len == Some(n) && stream.input == rest
  {
    if code == 126 {
      var buf := stream.ReadExact(2);
      len := if buf == None then None else Some(FromBigEndian(buf.value));
    } else if code == 127 {
      var buf := stream.ReadExact(8);
      len := if buf == None then None else Some(FromBigEndian(buf.value));
    } else {
      len := Some(code);
    }
  }

  /** One turn of the reading loop, up to the payload. */
  method ReadOneFrame(stream: Stream) returns (f: Option<Frame>)
    modifies stream
    ensures match ReadFrame(old(stream.input))
            case None => f == None && stream.input == []
            case Some((g, rest)) => f == Some(g) && stream.input == rest
  {
    var header := stream.ReadExact(2);
    if header == None {
      return None;
    }
    var len := ReadExtendedLength(stream, header.value[1] % 128);
    if len == None {
      return None;
    }
    var mask: Option<Mask> := None;
    if header.value[1] >= 128 {
      var m := stream.ReadExact(4);
      if m == None {
        return None;
      }
      mask := Some(m.value);
    }
    var payload := ReadPayload(stream, len.value, mask);
    if payload == None {
      return None;
    }
    f := Some(Frame(header.value[0], mask, payload.value));
  }

  /** `websocket_read_text`: returns what `ReadText` says and leaves what it leaves. */
  method WebsocketReadText(stream: Stream) returns (r: ReadResult)
    modifies stream
    ensures r == ResultOf(ReadText(old(stream.input)))
    ensures stream.input == RestOf(ReadText(old(stream.input)))
  {
    while true
      invariant ReadText(stream.input) == ReadText(old(stream.input))
      decreases |stream.input|
    {
      ghost var before := stream.input;
      var f := ReadOneFrame(stream);
      if f == None {
        return StreamEnded;
      }
      var opcode := f.value.first % 16;
      if opcode == 1 {
        return if ValidUtf8(f.value.payload) then Text(f.value.payload) else NotUtf8;
      } else if opcode == 8 {
        return ClosedByPeer;
      }
      assert ReadText(before) == ReadText(stream.input);
    }
  }
}
