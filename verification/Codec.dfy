/** Length-prefixed frames over a stream that arrives in arbitrary pieces. */
module Codec {
  import opened Common
  import opened Protocol
  import opened Wire
  import opened WireProperties
  import opened WireObject

  // -------------------------------------------------------------------------
  // Frames of a byte stream
  // -------------------------------------------------------------------------

  /** The first frame's payload and the bytes behind the frame. */
  function NextFrame(stream: seq<byte>): Read<seq<byte>> {
    var len := GetU32(stream);
    if len.Err? then Err(UnexpectedEof)
    else if len.value.0 > MAX_MESSAGE_SIZE then Err(MessageTooLarge(len.value.0))
    else if |len.value.1| < len.value.0 then Err(UnexpectedEof)
    else Ok((len.value.1[..len.value.0], len.value.1[len.value.0..]))
  }

  /** The first frame decoded as a server message; its trailing bytes, if any, are dropped. */
  function NextServer(stream: seq<byte>): Read<ServerMessage> {
    var (payload, stream) :- NextFrame(stream);
    var (m, _) :- GetServer(payload);
    Ok((m, stream))
  }

  function NextClient(stream: seq<byte>): Read<ClientMessage> {
    var (payload, stream) :- NextFrame(stream);
    var (m, _) :- GetClient(payload);
    Ok((m, stream))
  }

  /** A framed payload is read back whole, and nothing behind it is touched, exactly when it
      is within the limit; a payload of 2^32 bytes or more may slip past the check. */
  lemma FrameRoundTripIff(payload: seq<byte>, tail: seq<byte>)
    requires Framed(payload).Ok?
    ensures NextFrame(Framed(payload).value + tail) == Ok((payload, tail)) <==> |payload| <= MAX_MESSAGE_SIZE
  {
    hide U32, GetU32;
    var len: u32 := |payload| % 0x1_0000_0000;
    Regroup2(U32(len), payload, tail);
    U32Inverse(U32(len) + (payload + tail), len, payload + tail);
    if |payload| <= MAX_MESSAGE_SIZE {
      assert (payload + tail)[..len] == payload && (payload + tail)[len..] == tail;
    }
  }

  /** Messages that can be sent: within the 16-bit counts and the frame limit. */
  predicate ServerSendable(m: ServerMessage) {
    ServerFits(m) && |ServerBytes(m)| <= MAX_MESSAGE_SIZE
  }

  predicate ClientSendable(m: ClientMessage) {
    ClientFits(m) && |ClientBytes(m)| <= MAX_MESSAGE_SIZE
  }

  lemma SmallIsFramed(payload: seq<byte>)
    requires |payload| <= MAX_MESSAGE_SIZE
    ensures Framed(payload) == Ok(U32(|payload|) + payload)
  {
  }

  /** What the writer puts on the wire for a list of messages. */
  function ServerStream(ms: seq<ServerMessage>): seq<byte>
    requires forall i :: 0 <= i < |ms| ==> ServerSendable(ms[i])
  {
    if ms == [] then [] else
    assert ServerSendable(ms[0]);
    SmallIsFramed(ServerBytes(ms[0]));
    Framed(ServerBytes(ms[0])).value + ServerStream(ms[1..])
  }

  function ClientStream(ms: seq<ClientMessage>): seq<byte>
    requires forall i :: 0 <= i < |ms| ==> ClientSendable(ms[i])
  {
    if ms == [] then [] else
    assert ClientSendable(ms[0]);
    SmallIsFramed(ClientBytes(ms[0]));
    Framed(ClientBytes(ms[0])).value + ClientStream(ms[1..])
  }

  /** The messages that `n` successive reads return, and the bytes left. */
  function ReadServers(stream: seq<byte>, n: nat): Read<seq<ServerMessage>>
    decreases n
  {
    if n == 0 then Ok(([], stream)) else
    var (m, stream) :- NextServer(stream);
    var (ms, stream) :- ReadServers(stream, n - 1);
    Ok(([m] + ms, stream))
  }

  function ReadClients(stream: seq<byte>, n: nat): Read<seq<ClientMessage>>
    decreases n
  {
    if n == 0 then Ok(([], stream)) else
    var (m, stream) :- NextClient(stream);
    var (ms, stream) :- ReadClients(stream, n - 1);
    Ok(([m] + ms, stream))
  }

  lemma FrameReads(payload: seq<byte>, tail: seq<byte>)
    requires |payload| <= MAX_MESSAGE_SIZE
    ensures Framed(payload).Ok? && NextFrame(Framed(payload).value + tail) == Ok((payload, tail))
  {
    hide NextFrame, U32;
    SmallIsFramed(payload);
    FrameRoundTripIff(payload, tail);
  }

  lemma NextServerReads(m: ServerMessage, stream: seq<byte>, tail: seq<byte>)
    requires ServerFits(m) && NextFrame(stream) == Ok((ServerBytes(m), tail))
    ensures NextServer(stream) == Ok((m, tail))
  {
    hide NextFrame, GetServer, ServerBytes, ServerFits;
    ServerReads(m, []);
    assert ServerBytes(m) + [] == ServerBytes(m);
  }

  lemma NextClientReads(m: ClientMessage, stream: seq<byte>, tail: seq<byte>)
    requires ClientFits(m) && NextFrame(stream) == Ok((ClientBytes(m), tail))
    ensures NextClient(stream) == Ok((m, tail))
  {
    hide NextFrame, GetClient, ClientBytes, ClientFits;
    ClientReads(m, []);
    assert ClientBytes(m) + [] == ClientBytes(m);
  }

  lemma FirstOfServerStream(ms: seq<ServerMessage>, tail: seq<byte>)
    requires ms != [] && forall i :: 0 <= i < |ms| ==> ServerSendable(ms[i])
    ensures NextFrame(ServerStream(ms) + tail) == Ok((ServerBytes(ms[0]), ServerStream(ms[1..]) + tail))
  {
    hide NextFrame, Framed, ServerBytes, ServerFits;
    FrameReads(ServerBytes(ms[0]), ServerStream(ms[1..]) + tail);
    Regroup2(Framed(ServerBytes(ms[0])).value, ServerStream(ms[1..]), tail);
  }

  lemma FirstOfClientStream(ms: seq<ClientMessage>, tail: seq<byte>)
    requires ms != [] && forall i :: 0 <= i < |ms| ==> ClientSendable(ms[i])
    ensures NextFrame(ClientStream(ms) + tail) == Ok((ClientBytes(ms[0]), ClientStream(ms[1..]) + tail))
  {
    hide NextFrame, Framed, ClientBytes, ClientFits;
    FrameReads(ClientBytes(ms[0]), ClientStream(ms[1..]) + tail);
    Regroup2(Framed(ClientBytes(ms[0])).value, ClientStream(ms[1..]), tail);
  }

  /** Reading a stream of messages gives exactly those messages in order and leaves exactly
      what follows them. */
  lemma {:induction false} ServerStreamRoundTrip(ms: seq<ServerMessage>, tail: seq<byte>)
    requires forall i :: 0 <= i < |ms| ==> ServerSendable(ms[i])
    ensures ReadServers(ServerStream(ms) + tail, |ms|) == Ok((ms, tail))
  {
    hide NextFrame, NextServer, Framed, ServerBytes, ServerFits;
    if ms == [] {
      assert ServerStream(ms) + tail == tail;
    } else {
      FirstOfServerStream(ms, tail);
      NextServerReads(ms[0], ServerStream(ms) + tail, ServerStream(ms[1..]) + tail);
      ServerStreamRoundTrip(ms[1..], tail);
      assert ms == [ms[0]] + ms[1..];
    }
  }

  lemma {:induction false} ClientStreamRoundTrip(ms: seq<ClientMessage>, tail: seq<byte>)
    requires forall i :: 0 <= i < |ms| ==> ClientSendable(ms[i])
    ensures ReadClients(ClientStream(ms) + tail, |ms|) == Ok((ms, tail))
  {
    hide NextFrame, NextClient, Framed, ClientBytes, ClientFits;
    if ms == [] {
      assert ClientStream(ms) + tail == tail;
    } else {
      FirstOfClientStream(ms, tail);
      NextClientReads(ms[0], ClientStream(ms) + tail, ClientStream(ms[1..]) + tail);
      ClientStreamRoundTrip(ms[1..], tail);
      assert ms == [ms[0]] + ms[1..];
    }
  }

  // -------------------------------------------------------------------------
  // The codec
  // -------------------------------------------------------------------------

  /** A connection: the pieces in which the remaining bytes will arrive. A read returns one
      piece; no bytes at all means that the peer has closed. */
  class Reader {
    var pieces: seq<seq<byte>>

    ghost predicate Valid()
      reads this
    {
      [] !in pieces
    }

    constructor (pieces: seq<seq<byte>>)
      requires [] !in pieces
      ensures Valid() && this.pieces == pieces
    {
      this.pieces := pieces;
    }

    method ReadSome() returns (bytes: seq<byte>)
      requires Valid()
      modifies this
      ensures Valid() && bytes + Flatten(pieces) == Flatten(old(pieces))
      ensures bytes == [] <==> old(pieces) == []
      ensures |pieces| == if old(pieces) == [] then 0 else |old(pieces)| - 1
    {
      if pieces == [] {
        return [];
      }
      bytes := pieces[0];
      pieces := pieces[1..];
    }
  }

  class ProtocolCodec {
    var readBuf: seq<byte>

    constructor ()
      ensures readBuf == []
    {
      readBuf := [];
    }

    /** The bytes not yet handed out: those buffered, then those to arrive. */
    ghost function Stream(reader: Reader): seq<byte>
      reads this, reader
    {
      readBuf + Flatten(reader.pieces)
    }

    /** Buffers at least `n` bytes, or everything that will ever arrive; loses nothing. */
    method FillAtLeast(reader: Reader, n: nat) returns (error: Option<WireError>)
      requires reader.Valid()
      modifies this, reader
      ensures reader.Valid() && Stream(reader) == old(Stream(reader))
      ensures error == if |Stream(reader)| < n then Some(UnexpectedEof) else None
      ensures error.None? ==> |readBuf| >= n
    {
      while |readBuf| < n
        invariant reader.Valid() && Stream(reader) == old(Stream(reader))
        decreases |reader.pieces|, n - |readBuf|
      {
        ghost var before, ahead := readBuf, Flatten(reader.pieces);
        var bytes := reader.ReadSome();
        if bytes == [] {
          return Some(UnexpectedEof);
        }
        readBuf := readBuf + bytes;
        Regroup2(before, bytes, Flatten(reader.pieces));
      }
      return None;
    }

    /** Reads one frame, whatever the pieces it arrives in. An error leaves the stream as it
        was. */
    method ReadFrame(reader: Reader) returns (r: Result<seq<byte>, WireError>)
      requires reader.Valid()
      modifies this, reader
      ensures reader.Valid() && Reads(NextFrame(old(Stream(reader))), r, Stream(reader))
      ensures r.Err? ==> Stream(reader) == old(Stream(reader))
    {
      hide Pair;
      ghost var stream := Stream(reader);
      var error := FillAtLeast(reader, 4);
      if error.Some? {
        return Err(error.value);
      }
      assert stream[..4] == readBuf[..4];
      var len: u32 := Pair(readBuf[0], readBuf[1]) as int + Pair(readBuf[2], readBuf[3]) as int * 0x1_0000;
      assert GetU32(stream) == Ok((len, stream[4..]));
      if len > MAX_MESSAGE_SIZE {
        return Err(MessageTooLarge(len));
      }
      var total: nat := 4 + len as int;
      error := FillAtLeast(reader, total);
      if error.Some? {
        return Err(error.value);
      }
      hide GetU32;
      var payload := readBuf[4..total];
      TakeFrame(readBuf, Flatten(reader.pieces), total);
      readBuf := readBuf[total..];
      return Ok(payload);
    }

    /** Reads one server message. A frame that does not decode is consumed all the same. */
    method ReadServerMessage(reader: Reader) returns (r: Result<ServerMessage, WireError>)
      requires reader.Valid()
      modifies this, reader
      ensures reader.Valid() && Reads(NextServer(old(Stream(reader))), r, Stream(reader))
      ensures NextFrame(old(Stream(reader))).Ok? ==> Stream(reader) == NextFrame(old(Stream(reader))).value.1
    {
      hide NextFrame, GetServer;
      var payload :- ReadFrame(reader);
      var decoded :- DecodeServerMessage(payload);
      return Ok(decoded.0);
    }

    method ReadClientMessage(reader: Reader) returns (r: Result<ClientMessage, WireError>)
      requires reader.Valid()
      modifies this, reader
      ensures reader.Valid() && Reads(NextClient(old(Stream(reader))), r, Stream(reader))
      ensures NextFrame(old(Stream(reader))).Ok? ==> Stream(reader) == NextFrame(old(Stream(reader))).value.1
    {
      hide NextFrame, GetClient;
      var payload :- ReadFrame(reader);
      var decoded :- DecodeClientMessage(payload);
      return Ok(decoded.0);
    }
  }

  lemma TakeFrame(buffered: seq<byte>, ahead: seq<byte>, total: nat)
    requires 4 <= total <= |buffered|
    ensures buffered[4..total] == (buffered + ahead)[4..][..total - 4]
    ensures buffered[total..] + ahead == (buffered + ahead)[4..][total - 4..]
  {
  }

  // -------------------------------------------------------------------------
  // Conversations
  // -------------------------------------------------------------------------

  /** Messages that were sent one after the other and arrive in any pieces are read one after
      the other, and what arrives behind them is left for the next read. */
  method ReceiveServerMessages(codec: ProtocolCodec, reader: Reader, n: nat, ghost ms: seq<ServerMessage>,
                               ghost tail: seq<byte>) returns (messages: seq<ServerMessage>)
    requires reader.Valid() && n == |ms| && forall i :: 0 <= i < |ms| ==> ServerSendable(ms[i])
    requires codec.Stream(reader) == ServerStream(ms) + tail
    modifies codec, reader
    ensures reader.Valid() && messages == ms && codec.Stream(reader) == tail
  {
    hide NextServer, NextFrame, ServerBytes, ServerFits, ServerStream;
    messages := [];
    assert ms[0..] == ms;
    for i := 0 to n
      invariant reader.Valid() && messages == ms[..i]
      invariant codec.Stream(reader) == ServerStream(ms[i..]) + tail
    {
      assert ms[i..][1..] == ms[i + 1..];
      FirstOfServerStream(ms[i..], tail);
      NextServerReads(ms[i], codec.Stream(reader), ServerStream(ms[i + 1..]) + tail);
      var read := codec.ReadServerMessage(reader);
      messages := messages + [read.value];
    }
    assert ms[n..] == [] && ms[..n] == ms;
    NothingStreamed(tail);
  }

  method ReceiveClientMessages(codec: ProtocolCodec, reader: Reader, n: nat, ghost ms: seq<ClientMessage>,
                               ghost tail: seq<byte>) returns (messages: seq<ClientMessage>)
    requires reader.Valid() && n == |ms| && forall i :: 0 <= i < |ms| ==> ClientSendable(ms[i])
    requires codec.Stream(reader) == ClientStream(ms) + tail
    modifies codec, reader
    ensures reader.Valid() && messages == ms && codec.Stream(reader) == tail
  {
    hide NextClient, NextFrame, ClientBytes, ClientFits, ClientStream;
    messages := [];
    assert ms[0..] == ms;
    for i := 0 to n
      invariant reader.Valid() && messages == ms[..i]
      invariant codec.Stream(reader) == ClientStream(ms[i..]) + tail
    {
      assert ms[i..][1..] == ms[i + 1..];
      FirstOfClientStream(ms[i..], tail);
      NextClientReads(ms[i], codec.Stream(reader), ClientStream(ms[i + 1..]) + tail);
      var read := codec.ReadClientMessage(reader);
      messages := messages + [read.value];
    }
    assert ms[n..] == [] && ms[..n] == ms;
    NothingStreamed(tail);
  }

  lemma NothingStreamed(tail: seq<byte>)
    ensures ServerStream([]) + tail == tail && ClientStream([]) + tail == tail
  {
  }
}
