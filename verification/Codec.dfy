/** Framing of messages (src/protocol/codec.cpp) and the pure left-to-right reading of a byte stream. */
module Codec {
  import opened Bytes
  import opened Sequences

  const PROTOCOL_VERSION: byte := 1
  const HEADER_SIZE: nat := 4
  const MAX_MESSAGE_SIZE: nat := 4096
  const MAX_PAYLOAD_SIZE: nat := MAX_MESSAGE_SIZE - HEADER_SIZE

  /** Hello, KeepAlive, Data and Control; any other byte is unrecognised. */
  predicate KnownType(kind: byte) {
    1 <= kind <= 4
  }

  datatype Message = Message(version: byte, kind: byte, payload: seq<byte>)

  predicate ValidMessage(m: Message) {
    m.version == PROTOCOL_VERSION && KnownType(m.kind) && |m.payload| <= MAX_PAYLOAD_SIZE
  }

  function Encoded(m: Message): seq<byte>
    requires ValidMessage(m)
  {
    [m.version, m.kind, (|m.payload| / 256) as byte, (|m.payload| % 256) as byte] + m.payload
  }

  /** A frame of the protocol: version 1, one of four types, the size of the payload high byte first, the payload. */
  ghost predicate FrameOf(m: Message, bytes: seq<byte>) {
    && |bytes| == 4 + |m.payload| && |m.payload| <= 4092 && m.version == 1 && 1 <= m.kind <= 4
    && bytes[0] == 1 && bytes[1] == m.kind && Value(bytes[2..4]) == |m.payload| && bytes[4..] == m.payload
  }

  /** Exactly the valid messages have a frame, and this is it. */
  lemma EncodedIsFrame(m: Message, bytes: seq<byte>)
    ensures ValidMessage(m) && bytes == Encoded(m) <==> FrameOf(m, bytes)
  {
    if |bytes| >= 4 {
      ValueOfTwo(bytes[2..4]);
      assert bytes == [bytes[0], bytes[1], bytes[2], bytes[3]] + bytes[4..];
    }
  }

  /** message_encode; an invalid message gives the empty buffer. */
  method MessageEncode(m: Message) returns (buffer: seq<byte>)
    ensures buffer == if ValidMessage(m) then Encoded(m) else []
    ensures FrameOf(m, buffer) || (buffer == [] && forall bytes :: !FrameOf(m, bytes))
  {
    forall bytes ensures ValidMessage(m) && bytes == Encoded(m) <==> FrameOf(m, bytes) {
      EncodedIsFrame(m, bytes);
    }
    if !ValidMessage(m) {
      return [];
    }
    var length: uint16 := |m.payload|;
    buffer := [];
    buffer := buffer + [m.version];
    buffer := buffer + [m.kind];
    buffer := buffer + [(length / 256) % 256];
    buffer := buffer + [length % 256];
    buffer := buffer + m.payload;
  }

  function DeclaredLength(bytes: seq<byte>): uint16
    requires |bytes| >= HEADER_SIZE
  {
    (bytes[2] as int) * 256 + bytes[3]
  }

  predicate GoodHeader(bytes: seq<byte>)
    requires |bytes| >= HEADER_SIZE
  {
    bytes[0] == PROTOCOL_VERSION && KnownType(bytes[1]) && DeclaredLength(bytes) <= MAX_PAYLOAD_SIZE
  }

  function MessageDecode(bytes: seq<byte>): Option<Message> {
    if |bytes| < HEADER_SIZE || !GoodHeader(bytes) || |bytes| < HEADER_SIZE + DeclaredLength(bytes) then None
    else Some(Message(bytes[0], bytes[1], bytes[HEADER_SIZE..HEADER_SIZE + DeclaredLength(bytes)]))
  }

  function MessagePeekSize(bytes: seq<byte>): Option<nat> {
    if |bytes| < HEADER_SIZE || !GoodHeader(bytes) then None else Some(HEADER_SIZE + DeclaredLength(bytes))
  }

  /** The header at the front announces a frame of n bytes. */
  ghost predicate Announces(bytes: seq<byte>, n: nat) {
    |bytes| >= 4 && bytes[0] == 1 && 1 <= bytes[1] <= 4 && n == 4 + Value(bytes[2..4]) <= 4096
  }

  /** Peeking finds exactly what the header announces. */
  lemma PeekIff(bytes: seq<byte>, n: nat)
    ensures MessagePeekSize(bytes) == Some(n) <==> Announces(bytes, n)
  {
    if |bytes| >= 4 {
      ValueOfTwo(bytes[2..4]);
    }
  }

  /** Decoding gives a message exactly if its frame is at the front, whatever follows. */
  lemma DecodeIff(bytes: seq<byte>, m: Message)
    ensures MessageDecode(bytes) == Some(m)
            <==> exists n :: 0 <= n <= |bytes| && FrameOf(m, bytes[..n])
  {
    if |bytes| >= 4 {
      ValueOfTwo(bytes[2..4]);
    }
    if MessageDecode(bytes) == Some(m) {
      var n := 4 + |m.payload|;
      assert bytes[..n][2..4] == bytes[2..4] && bytes[..n][4..] == bytes[4..n];
      assert FrameOf(m, bytes[..n]);
    }
    if n :| 0 <= n <= |bytes| && FrameOf(m, bytes[..n]) {
      assert bytes[..n][2..4] == bytes[2..4] && bytes[..n][4..] == bytes[4..n];
    }
  }

  /** The size peeked at is the size of what decoding yields; it never exceeds the frame limit, and once that many bytes
      are there decoding succeeds and inverts encoding. */
  lemma PeekThenDecode(bytes: seq<byte>)
    requires MessagePeekSize(bytes).Some?
    ensures var n := MessagePeekSize(bytes).value;
            && HEADER_SIZE <= n <= MAX_MESSAGE_SIZE
            && (n <= |bytes| ==>
                  && MessageDecode(bytes[..n]).Some?
                  && ValidMessage(MessageDecode(bytes[..n]).value)
                  && Encoded(MessageDecode(bytes[..n]).value) == bytes[..n])
  {
    var n := MessagePeekSize(bytes).value;
    if n <= |bytes| {
      var length := DeclaredLength(bytes);
      assert DeclaredLength(bytes[..n]) == length;
      assert length / 256 == bytes[2] && length % 256 == bytes[3];
      var m := MessageDecode(bytes[..n]).value;
      assert |m.payload| == length;
    }
  }

  /** The header peeked at does not depend on what follows it. */
  lemma PeekAppend(a: seq<byte>, b: seq<byte>)
    requires |a| >= HEADER_SIZE
    ensures MessagePeekSize(a + b) == MessagePeekSize(a)
  {
  }

  lemma PeekEncoded(m: Message, rest: seq<byte>)
    requires ValidMessage(m)
    ensures MessagePeekSize(Encoded(m) + rest) == Some(|Encoded(m)|)
    ensures MessageDecode(Encoded(m)) == Some(m)
  {
    var bytes := Encoded(m) + rest;
    assert DeclaredLength(bytes) == |m.payload| / 256 * 256 + |m.payload| % 256;
    assert Encoded(m)[HEADER_SIZE..HEADER_SIZE + |m.payload|] == m.payload;
  }

  // ---------- the pure reading of a stream ----------

  /** The messages at the front of a stream, what is left, and whether the rest starts with a bad header. */
  datatype Parsed = Parsed(messages: seq<Message>, rest: seq<byte>, malformed: bool)

  function Parse(s: seq<byte>): Parsed
    decreases |s|
  {
    if |s| < HEADER_SIZE then Parsed([], s, false)
    else if MessagePeekSize(s).None? then Parsed([], s, true)
    else
      var n := MessagePeekSize(s).value;
      if |s| < n then Parsed([], s, false)
      else
        PeekThenDecode(s);
        var tail := Parse(s[n..]);
        tail.(messages := [MessageDecode(s[..n]).value] + tail.messages)
  }

  function EncodedAll(ms: seq<Message>): seq<byte>
    requires forall m | m in ms :: ValidMessage(m)
  {
    if ms == [] then [] else Encoded(ms[0]) + EncodedAll(ms[1..])
  }

  lemma EncodedAllCons(m: Message, ms: seq<Message>)
    requires ValidMessage(m) && forall x | x in ms :: ValidMessage(x)
    ensures EncodedAll([m] + ms) == Encoded(m) + EncodedAll(ms)
  {
    assert ([m] + ms)[1..] == ms;
  }

  /** Parsing loses nothing: re-encoding the messages and appending the rest gives the stream back. */
  lemma {:induction false} ParseReproduces(s: seq<byte>)
    ensures forall m | m in Parse(s).messages :: ValidMessage(m)
    ensures EncodedAll(Parse(s).messages) + Parse(s).rest == s
    decreases |s|
  {
    if |s| >= HEADER_SIZE && MessagePeekSize(s).Some? && |s| >= MessagePeekSize(s).value {
      var n := MessagePeekSize(s).value;
      PeekThenDecode(s);
      ParseReproduces(s[n..]);
      var m, tail := MessageDecode(s[..n]).value, Parse(s[n..]);
      EncodedAllCons(m, tail.messages);
      Reassociate(Encoded(m), EncodedAll(tail.messages), tail.rest);
      assert Parse(s) == tail.(messages := [m] + tail.messages);
      assert s == Encoded(m) + s[n..];
    }
  }

  lemma ParseOne(m: Message, tail: seq<byte>)
    requires ValidMessage(m)
    ensures Parse(Encoded(m) + tail) == Parse(tail).(messages := [m] + Parse(tail).messages)
  {
    var s, n := Encoded(m) + tail, |Encoded(m)|;
    PeekEncoded(m, tail);
    assert s[..n] == Encoded(m) && s[n..] == tail;
  }

  /** Parsing inverts encoding, whatever the messages. */
  lemma {:induction false} ParseEncoded(ms: seq<Message>, rest: seq<byte>)
    requires forall m | m in ms :: ValidMessage(m)
    ensures Parse(EncodedAll(ms) + rest) == Parse(rest).(messages := ms + Parse(rest).messages)
  {
    var parsed := Parse(rest);
    if ms == [] {
      assert EncodedAll(ms) + rest == rest && ms + parsed.messages == parsed.messages;
    } else {
      var tail := EncodedAll(ms[1..]) + rest;
      ParseEncoded(ms[1..], rest);
      ParseOne(ms[0], tail);
      Reassociate(Encoded(ms[0]), EncodedAll(ms[1..]), rest);
      Reassociate([ms[0]], ms[1..], parsed.messages);
      assert [ms[0]] + ms[1..] == ms;
    }
  }
}
