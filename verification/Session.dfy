/** Receiving frames from a socket that delivers arbitrary chunks (transport_receive in src/transport/session.cpp). */
module Session {
  import opened Bytes
  import opened Arithmetic
  import opened Sequences
  import opened Codec

  const MAX_RECV_BUFFER_SIZE: nat := 8192
  const RECV_CHUNK_SIZE: nat := 1024

  /** What is still to come from the peer: data, a quiet spell longer than the timeout, an orderly close or a failure.
      */
  datatype Arrival = Data(bytes: seq<byte>) | Quiet | Closed | Broken

  predicate ValidArrivals(arrivals: seq<Arrival>) {
    forall a | a in arrivals && a.Data? :: a.bytes != []
  }

  datatype RecvOutcome = Got(bytes: seq<byte>) | TimedOut | PeerClosed | Failed

  /** One recv call: at most limit bytes, the rest stays in the kernel's buffer; nothing further to come is a timeout.
      */
  function NextArrival(arrivals: seq<Arrival>, limit: nat): (RecvOutcome, seq<Arrival>)
    requires limit > 0
  {
    if arrivals == [] then (RecvOutcome.TimedOut, [])
    else match arrivals[0]
      case Quiet => (RecvOutcome.TimedOut, arrivals[1..])
      case Closed => (RecvOutcome.PeerClosed, arrivals)
      case Broken => (RecvOutcome.Failed, arrivals)
      case Data(bytes) =>
        if |bytes| <= limit then (Got(bytes), arrivals[1..])
        else (Got(bytes[..limit]), [Data(bytes[limit..])] + arrivals[1..])
  }

  /** The bytes the peer still gets across. */
  function Stream(arrivals: seq<Arrival>): seq<byte> {
    if arrivals == [] || arrivals[0].Closed? || arrivals[0].Broken? then []
    else (if arrivals[0].Data? then arrivals[0].bytes else []) + Stream(arrivals[1..])
  }

  function Size(arrivals: seq<Arrival>): nat {
    if arrivals == [] then 0
    else 1 + (if arrivals[0].Data? then |arrivals[0].bytes| else 0) + Size(arrivals[1..])
  }

  lemma RecvSplits(bytes: seq<byte>, later: seq<Arrival>, limit: nat)
    requires 0 < limit < |bytes| && ValidArrivals(later)
    ensures var arrivals' := [Data(bytes[limit..])] + later;
            && ValidArrivals(arrivals')
            && bytes + Stream(later) == bytes[..limit] + Stream(arrivals')
            && limit + Size(arrivals') == 1 + |bytes| + Size(later)
  {
    var arrivals' := [Data(bytes[limit..])] + later;
    assert arrivals'[1..] == later;
    assert bytes == bytes[..limit] + bytes[limit..];
  }

  lemma RecvConsumes(arrivals: seq<Arrival>, limit: nat)
    requires limit > 0 && ValidArrivals(arrivals)
    ensures var (outcome, arrivals') := NextArrival(arrivals, limit);
            && ValidArrivals(arrivals')
            && (outcome.Got? ==> 0 < |outcome.bytes| <= limit && |outcome.bytes| + Size(arrivals') <= Size(arrivals)
                                 && Stream(arrivals) == outcome.bytes + Stream(arrivals'))
            && (outcome.TimedOut? ==> Stream(arrivals) == Stream(arrivals')
                                      && (arrivals != [] ==> Size(arrivals') < Size(arrivals)))
            && (outcome.PeerClosed? || outcome.Failed? ==> Stream(arrivals) == [])
  {
    if arrivals != [] {
      assert forall a | a in arrivals[1..] :: a in arrivals;
      assert arrivals[0] in arrivals;
      if arrivals[0].Data? && |arrivals[0].bytes| > limit {
        RecvSplits(arrivals[0].bytes, arrivals[1..], limit);
      } else if arrivals[0].Quiet? {
        assert [] + Stream(arrivals[1..]) == Stream(arrivals[1..]);
      }
    }
  }

  /** How a call of transport_receive ends; incomplete says whether the error text names an incomplete message. */
  datatype Result = Received(message: Message) | Timeout | BadHeader | BufferFull | ConnectionClosed(incomplete: bool)
    | SocketError | NotOpen

  datatype Reception = Reception(result: Result, buffer: seq<byte>, arrivals: seq<Arrival>, open: bool)

  /** transport_receive on values; reports tells whether the caller passed an error string. */
  function Receive(buffer: seq<byte>, arrivals: seq<Arrival>, reports: bool): Reception
    requires ValidArrivals(arrivals)
    decreases Size(arrivals)
  {
    var size := MessagePeekSize(buffer);
    if |buffer| >= HEADER_SIZE && size.None? && reports then Reception(BadHeader, [], arrivals, false)
    else if size.Some? && size.value <= |buffer| then
      PeekThenDecode(buffer);
      Reception(Received(MessageDecode(buffer[..size.value]).value), buffer[size.value..], arrivals, true)
    else if |buffer| >= MAX_RECV_BUFFER_SIZE then Reception(BufferFull, [], arrivals, false)
    else
      var limit := ReadLimit(buffer);
      RecvConsumes(arrivals, limit);
      var (outcome, arrivals') := NextArrival(arrivals, limit);
      match outcome
      case Got(bytes) => Receive(buffer + bytes, arrivals', reports)
      case TimedOut => Reception(Timeout, buffer, arrivals', true)
      case PeerClosed => Reception(ConnectionClosed(false), [], arrivals', false)
      case Failed => Reception(SocketError, [], arrivals', false)
  }

  /** The buffer at every pass through the loop of transport_receive. */
  function Passes(buffer: seq<byte>, arrivals: seq<Arrival>, reports: bool): seq<seq<byte>>
    requires ValidArrivals(arrivals)
    decreases Size(arrivals)
  {
    var size := MessagePeekSize(buffer);
    if || (|buffer| >= HEADER_SIZE && size.None? && reports)
       || (size.Some? && size.value <= |buffer|)
       || |buffer| >= MAX_RECV_BUFFER_SIZE
    then [buffer]
    else
      var limit := ReadLimit(buffer);
      RecvConsumes(arrivals, limit);
      var (outcome, arrivals') := NextArrival(arrivals, limit);
      match outcome
      case Got(bytes) => [buffer] + Passes(buffer + bytes, arrivals', reports)
      case _ => [buffer]
  }

  /** Of the passes in goal those in passes are over and the next one finds this buffer. */
  ghost predicate PassesAhead(
      goal: seq<seq<byte>>, passes: seq<seq<byte>>, buffer: seq<byte>, arrivals: seq<Arrival>, reports: bool)
    requires ValidArrivals(arrivals)
  {
    goal == passes + Passes(buffer, arrivals, reports)
  }

  /** The call returns without reading any further. */
  predicate StopsBeforeReading(buffer: seq<byte>, reports: bool) {
    || (|buffer| >= HEADER_SIZE && MessagePeekSize(buffer).None? && reports)
    || (MessagePeekSize(buffer).Some? && MessagePeekSize(buffer).value <= |buffer|)
    || |buffer| >= MAX_RECV_BUFFER_SIZE
  }

  /** The call returns in the pass that finds this buffer. */
  ghost predicate LastPass(buffer: seq<byte>, arrivals: seq<Arrival>, reports: bool) {
    StopsBeforeReading(buffer, reports) || !NextArrival(arrivals, ReadLimit(buffer)).0.Got?
  }

  /** A pass that goes on takes 1024 bytes of the data that comes next, or as many as there are or as fit 8192. */
  lemma PassTakes(buffer: seq<byte>, arrivals: seq<Arrival>, reports: bool)
    requires ValidArrivals(arrivals) && arrivals != [] && arrivals[0].Data? && !StopsBeforeReading(buffer, reports)
    ensures var bytes, passes := arrivals[0].bytes, Passes(buffer, arrivals, reports);
            && |passes| >= 2 && passes[0] == buffer
            && passes[1] == buffer + bytes[..Min(Min(|bytes|, 1024), 8192 - |buffer|)]
  {
    RecvConsumes(arrivals, ReadLimit(buffer));
    var (outcome, arrivals') := NextArrival(arrivals, ReadLimit(buffer));
    assert Passes(buffer + outcome.bytes, arrivals', reports)[0] == buffer + outcome.bytes;
  }

  lemma OneMorePass(goal: seq<seq<byte>>, passes: seq<seq<byte>>, buffer: seq<byte>, later: seq<seq<byte>>)
    ensures goal == passes + ([buffer] + later) ==> goal == passes + [buffer] + later
  {
    Reassociate(passes, [buffer], later);
  }

  lemma OnePass(goal: seq<seq<byte>>, passes: seq<seq<byte>>, buffer: seq<byte>, arrivals: seq<Arrival>, reports: bool)
    requires ValidArrivals(arrivals) && PassesAhead(goal, passes, buffer, arrivals, reports)
    ensures if LastPass(buffer, arrivals, reports) then goal == passes + [buffer]
            else var (outcome, arrivals') := NextArrival(arrivals, ReadLimit(buffer));
                 ValidArrivals(arrivals')
                 && PassesAhead(goal, passes + [buffer], buffer + outcome.bytes, arrivals', reports)
  {
    if !LastPass(buffer, arrivals, reports) {
      RecvConsumes(arrivals, ReadLimit(buffer));
      var (outcome, arrivals') := NextArrival(arrivals, ReadLimit(buffer));
      OneMorePass(goal, passes, buffer, Passes(buffer + outcome.bytes, arrivals', reports));
    }
  }

  function ReadLimit(buffer: seq<byte>): nat
    requires |buffer| < MAX_RECV_BUFFER_SIZE
  {
    if MAX_RECV_BUFFER_SIZE - |buffer| < RECV_CHUNK_SIZE then MAX_RECV_BUFFER_SIZE - |buffer| else RECV_CHUNK_SIZE
  }

  class Socket {
    var arrivals: seq<Arrival>

    method Recv(limit: nat) returns (outcome: RecvOutcome)
      requires limit > 0
      modifies this
      ensures (outcome, arrivals) == NextArrival(old(arrivals), limit)
    {
      var r := NextArrival(arrivals, limit);
      outcome, arrivals := r.0, r.1;
    }
  }

  class TransportSession {
    const socket: Socket
    var recvBuffer: seq<byte>
    var isOpen: bool

    constructor (socket: Socket)
      ensures this.socket == socket && recvBuffer == [] && isOpen
    {
      this.socket, recvBuffer, isOpen := socket, [], true;
    }

    method Close()
      modifies this
      ensures !isOpen && recvBuffer == []
    {
      isOpen := false;
      recvBuffer := [];
    }

    /** transport_receive; passes collects the buffer at every pass through the loop. */
    method TransportReceive(reports: bool) returns (result: Result, ghost passes: seq<seq<byte>>)
      requires ValidArrivals(socket.arrivals)
      modifies this, socket
      ensures ValidArrivals(socket.arrivals)
      ensures if old(isOpen)
              then Reception(result, recvBuffer, socket.arrivals, isOpen)
                   == Receive(old(recvBuffer), old(socket.arrivals), reports)
              else result == NotOpen && !isOpen && recvBuffer == old(recvBuffer)
                   && socket.arrivals == old(socket.arrivals)
      ensures old(isOpen) ==> passes == Passes(old(recvBuffer), old(socket.arrivals), reports)
    {
      passes := [];
      if !isOpen {
        return NotOpen, passes;
      }
      ghost var goal := Passes(recvBuffer, socket.arrivals, reports);
      assert PassesAhead(goal, passes, recvBuffer, socket.arrivals, reports);
      while true
        invariant ValidArrivals(socket.arrivals) && isOpen
        invariant PassesAhead(goal, passes, recvBuffer, socket.arrivals, reports)
        invariant Receive(recvBuffer, socket.arrivals, reports)
                  == Receive(old(recvBuffer), old(socket.arrivals), reports)
        decreases Size(socket.arrivals)
      {
        OnePass(goal, passes, recvBuffer, socket.arrivals, reports);
        passes := passes + [recvBuffer];
        if |recvBuffer| >= HEADER_SIZE {
          var size := MessagePeekSize(recvBuffer);
          if size.None? && reports {
            Close();
            return BadHeader, passes;
          }
          if size.Some? {
            PeekThenDecode(recvBuffer);
            var expectedTotal := size.value;
            if expectedTotal > MAX_MESSAGE_SIZE {
              assert false;
            }
            if |recvBuffer| >= expectedTotal {
              var decoded := MessageDecode(recvBuffer[..expectedTotal]);
              if decoded.None? {
                assert false;
              }
              recvBuffer := recvBuffer[expectedTotal..];
              return Received(decoded.value), passes;
            }
          }
        }
        if |recvBuffer| >= MAX_RECV_BUFFER_SIZE {
          Close();
          return BufferFull, passes;
        }
        var spaceLeft := MAX_RECV_BUFFER_SIZE - |recvBuffer|;
        var toRead := if spaceLeft < RECV_CHUNK_SIZE then spaceLeft else RECV_CHUNK_SIZE;
        RecvConsumes(socket.arrivals, toRead);
        var outcome := socket.Recv(toRead);
        match outcome
        case Got(bytes) =>
          recvBuffer := recvBuffer + bytes;
        case TimedOut =>
          return Timeout, passes;
        case PeerClosed =>
          Close();
          return ConnectionClosed(recvBuffer != []), passes;
        case Failed =>
          Close();
          return SocketError, passes;
      }
    }
  }

  // ---------- calls in sequence refine the pure parser ----------

  /** What a call that ended like r has achieved, seen from the whole stream it started with: everything then buffered
      and everything then still to come, together size bytes and arrivals. */
  ghost predicate Achieved(r: Reception, all: seq<byte>, size: nat) {
    var all', size' := r.buffer + Stream(r.arrivals), |r.buffer| + Size(r.arrivals);
    && ValidArrivals(r.arrivals)
    && r.open == (r.result.Received? || r.result.Timeout?)
    && match r.result
       case Received(m) => Parse(all) == Parse(all').(messages := [m] + Parse(all').messages) && size' < size
       case Timeout => all == all' && Parse(r.buffer).messages == [] && size' <= size
       case _ => Parse(all).messages == []
  }

  lemma FrameReceived(buffer: seq<byte>, arrivals: seq<Arrival>, reports: bool)
    requires ValidArrivals(arrivals)
    requires MessagePeekSize(buffer).Some? && MessagePeekSize(buffer).value <= |buffer|
    ensures Achieved(Receive(buffer, arrivals, reports), buffer + Stream(arrivals), |buffer| + Size(arrivals))
  {
    var n, all := MessagePeekSize(buffer).value, buffer + Stream(arrivals);
    PeekAppend(buffer, Stream(arrivals));
    PeekThenDecode(buffer);
    assert all[..n] == buffer[..n];
    assert all[n..] == buffer[n..] + Stream(arrivals);
  }

  lemma NothingToParse(buffer: seq<byte>)
    requires MessagePeekSize(buffer).Some? ==> MessagePeekSize(buffer).value > |buffer|
    ensures Parse(buffer).messages == []
  {
  }

  lemma BadHeaderParses(buffer: seq<byte>, rest: seq<byte>)
    requires |buffer| >= HEADER_SIZE && MessagePeekSize(buffer).None?
    ensures Parse(buffer + rest).messages == []
  {
    PeekAppend(buffer, rest);
  }

  /** The call does not read any further. */
  lemma ReceiveRefuses(buffer: seq<byte>, arrivals: seq<Arrival>, reports: bool)
    requires ValidArrivals(arrivals)
    requires MessagePeekSize(buffer).Some? ==> MessagePeekSize(buffer).value > |buffer|
    requires || |buffer| >= MAX_RECV_BUFFER_SIZE
             || (|buffer| >= HEADER_SIZE && MessagePeekSize(buffer).None? && reports)
    ensures Achieved(Receive(buffer, arrivals, reports), buffer + Stream(arrivals), |buffer| + Size(arrivals))
    ensures !Receive(buffer, arrivals, reports).result.Timeout?
  {
    if MessagePeekSize(buffer).Some? {
      PeekThenDecode(buffer);
    }
    BadHeaderParses(buffer, Stream(arrivals));
  }

  ghost predicate WaitsForMore(buffer: seq<byte>, reports: bool) {
    && (MessagePeekSize(buffer).Some? ==> MessagePeekSize(buffer).value > |buffer|)
    && |buffer| < MAX_RECV_BUFFER_SIZE
    && (|buffer| >= HEADER_SIZE && MessagePeekSize(buffer).None? ==> !reports)
  }

  /** Nothing comes. */
  lemma NothingReceived(buffer: seq<byte>, arrivals: seq<Arrival>, reports: bool)
    requires ValidArrivals(arrivals) && WaitsForMore(buffer, reports)
    requires !NextArrival(arrivals, ReadLimit(buffer)).0.Got?
    ensures var r := Receive(buffer, arrivals, reports);
            && Achieved(r, buffer + Stream(arrivals), |buffer| + Size(arrivals))
            && (r.result.Timeout? && arrivals != [] ==> Size(r.arrivals) < Size(arrivals))
  {
    RecvConsumes(arrivals, ReadLimit(buffer));
    NothingToParse(buffer);
    NothingAround(buffer);
  }

  /** What one call achieves. */
  lemma {:induction false} ReceiveParses(buffer: seq<byte>, arrivals: seq<Arrival>, reports: bool)
    requires ValidArrivals(arrivals)
    ensures var r := Receive(buffer, arrivals, reports);
            && Achieved(r, buffer + Stream(arrivals), |buffer| + Size(arrivals))
            && (r.result.Timeout? && arrivals != [] ==> Size(r.arrivals) < Size(arrivals))
    decreases Size(arrivals)
  {
    var size := MessagePeekSize(buffer);
    if size.Some? && size.value <= |buffer| {
      FrameReceived(buffer, arrivals, reports);
    } else if |buffer| >= MAX_RECV_BUFFER_SIZE || (|buffer| >= HEADER_SIZE && size.None? && reports) {
      ReceiveRefuses(buffer, arrivals, reports);
    } else if NextArrival(arrivals, ReadLimit(buffer)).0.Got? {
      RecvConsumes(arrivals, ReadLimit(buffer));
      var (outcome, arrivals') := NextArrival(arrivals, ReadLimit(buffer));
      Reassociate(buffer, outcome.bytes, Stream(arrivals'));
      ReceiveParses(buffer + outcome.bytes, arrivals', reports);
    } else {
      NothingReceived(buffer, arrivals, reports);
    }
  }

  // ---------- how a call ends ----------

  /** Data that arrives in one go, whatever the chunks: no quiet spell and no end in between. */
  ghost predicate OnlyData(burst: seq<Arrival>) {
    forall a | a in burst :: a.Data? && a.bytes != []
  }

  ghost predicate FrameInFront(m: Message, s: seq<byte>) {
    exists n :: 0 <= n <= |s| && FrameOf(m, s[..n])
  }

  ghost predicate MalformedHeader(s: seq<byte>) {
    |s| >= 4 && !(s[0] == 1 && 1 <= s[1] <= 4 && Value(s[2..4]) <= 4092)
  }

  /** How a call ends that has these bytes before it in its buffer and in a burst of data, with rest coming afterwards.
      */
  ghost predicate EndsAs(result: Result, s: seq<byte>, rest: seq<Arrival>, reports: bool) {
    if exists m :: FrameInFront(m, s) then result.Received? && FrameInFront(result.message, s)
    else if MalformedHeader(s) && reports then result == BadHeader
    else if MalformedHeader(s) && |s| >= 8192 then result == BufferFull
    else if rest == [] || rest[0].Quiet? then result == Timeout
    else if rest[0].Closed? then result == ConnectionClosed(false)
    else result == SocketError
  }

  /** The same by way of the codec. */
  function Ending(s: seq<byte>, rest: seq<Arrival>, reports: bool): Result {
    var malformed := |s| >= HEADER_SIZE && MessagePeekSize(s).None?;
    if MessageDecode(s).Some? then Received(MessageDecode(s).value)
    else if malformed && reports then BadHeader
    else if malformed && |s| >= 8192 then BufferFull
    else if rest == [] || rest[0].Quiet? then Timeout
    else if rest[0].Closed? then ConnectionClosed(false)
    else SocketError
  }

  lemma EndingEnds(s: seq<byte>, rest: seq<Arrival>, reports: bool)
    ensures EndsAs(Ending(s, rest, reports), s, rest, reports)
  {
    forall m ensures MessageDecode(s) == Some(m) <==> FrameInFront(m, s) {
      DecodeIff(s, m);
    }
    if |s| >= 4 {
      PeekIff(s, 4 + Value(s[2..4]));
      if MessagePeekSize(s).Some? {
        PeekIff(s, MessagePeekSize(s).value);
      }
    }
  }

  /** One chunk of a burst. */
  lemma BurstArrives(burst: seq<Arrival>, rest: seq<Arrival>, limit: nat) returns (burst': seq<Arrival>)
    requires OnlyData(burst) && burst != [] && limit > 0
    ensures var (outcome, arrivals') := NextArrival(burst + rest, limit);
            && OnlyData(burst') && arrivals' == burst' + rest && outcome.Got?
            && Stream(burst) == outcome.bytes + Stream(burst') && Size(burst') < Size(burst)
  {
    var bytes, later := burst[0].bytes, burst[1..];
    assert burst[0] in burst && forall a | a in later :: a in burst;
    assert (burst + rest)[0] == burst[0] && (burst + rest)[1..] == later + rest;
    if |bytes| <= limit {
      burst' := later;
    } else {
      burst' := [Data(bytes[limit..])] + later;
      RecvSplits(bytes, later, limit);
      assert burst' + rest == [Data(bytes[limit..])] + (later + rest);
    }
  }

  lemma AnnouncedInFront(buffer: seq<byte>, more: seq<byte>)
    requires |buffer| >= HEADER_SIZE
    ensures MessagePeekSize(buffer + more) == MessagePeekSize(buffer)
    ensures MessagePeekSize(buffer).Some? && MessagePeekSize(buffer).value <= |buffer| ==>
              MessageDecode(buffer + more) == MessageDecode(buffer[..MessagePeekSize(buffer).value])
  {
    PeekAppend(buffer, more);
    if MessagePeekSize(buffer).Some? && MessagePeekSize(buffer).value <= |buffer| {
      var n := MessagePeekSize(buffer).value;
      PeekThenDecode(buffer);
      assert (buffer + more)[HEADER_SIZE..n] == buffer[..n][HEADER_SIZE..n];
    }
  }

  /** What the call leaves behind: everything read and the quiet spell taken on a timeout, nothing when it closes. */
  ghost predicate Leaves(r: Reception, s: seq<byte>, rest: seq<Arrival>) {
    && (r.open <==> r.result.Received? || r.result.Timeout?)
    && (!r.open ==> r.buffer == [])
    && (r.result.Timeout? ==> r.buffer == s && r.arrivals == if rest == [] then [] else rest[1..])
  }

  lemma {:induction false} CallEnds(buffer: seq<byte>, burst: seq<Arrival>, rest: seq<Arrival>, reports: bool)
    requires OnlyData(burst) && ValidArrivals(burst + rest) && (rest == [] || !rest[0].Data?)
    ensures Receive(buffer, burst + rest, reports).result == Ending(buffer + Stream(burst), rest, reports)
    ensures Leaves(Receive(buffer, burst + rest, reports), buffer + Stream(burst), rest)
    decreases Size(burst)
  {
    var size := MessagePeekSize(buffer);
    if |buffer| >= HEADER_SIZE {
      AnnouncedInFront(buffer, Stream(burst));
    }
    if size.Some? {
      PeekThenDecode(buffer);
    }
    if burst == [] {
      assert burst + rest == rest && buffer + Stream(burst) == buffer;
    } else if !StopsBeforeReading(buffer, reports) {
      var burst' := BurstArrives(burst, rest, ReadLimit(buffer));
      var (outcome, arrivals') := NextArrival(burst + rest, ReadLimit(buffer));
      RecvConsumes(burst + rest, ReadLimit(buffer));
      CallEnds(buffer + outcome.bytes, burst', rest, reports);
      Reassociate(buffer, outcome.bytes, Stream(burst'));
    }
  }

  lemma {:induction false} StartsWithBurst(arrivals: seq<Arrival>) returns (burst: seq<Arrival>, rest: seq<Arrival>)
    requires ValidArrivals(arrivals)
    ensures arrivals == burst + rest && OnlyData(burst) && (rest == [] || !rest[0].Data?)
  {
    if arrivals == [] || !arrivals[0].Data? {
      return [], arrivals;
    }
    assert forall a | a in arrivals[1..] :: a in arrivals;
    burst, rest := StartsWithBurst(arrivals[1..]);
    Reassociate([arrivals[0]], burst, rest);
    assert arrivals == [arrivals[0]] + arrivals[1..];
    assert arrivals[0] in arrivals;
    burst := [arrivals[0]] + burst;
  }

  /** Every arrival list is a burst and what comes after it, so this says how every call ends: with the message in front
      of the stream, on a malformed header if it is to be reported or fills the buffer, and otherwise as the burst is
      ended: by an orderly close, by a failure, or by nothing. */
  lemma HowACallEnds(buffer: seq<byte>, burst: seq<Arrival>, rest: seq<Arrival>, reports: bool)
    requires OnlyData(burst) && ValidArrivals(burst + rest) && (rest == [] || !rest[0].Data?)
    ensures EndsAs(Receive(buffer, burst + rest, reports).result, buffer + Stream(burst), rest, reports)
    ensures Leaves(Receive(buffer, burst + rest, reports), buffer + Stream(burst), rest)
  {
    CallEnds(buffer, burst, rest, reports);
    EndingEnds(buffer + Stream(burst), rest, reports);
  }

  /** All messages obtained by calling transport_receive until the session closes or nothing more can come. */
  function Drain(buffer: seq<byte>, arrivals: seq<Arrival>, reports: bool): seq<Message>
    requires ValidArrivals(arrivals)
    decreases |buffer| + Size(arrivals), Size(arrivals)
  {
    var r := Receive(buffer, arrivals, reports);
    ReceiveParses(buffer, arrivals, reports);
    match r.result
    case Received(m) => [m] + Drain(r.buffer, r.arrivals, reports)
    case Timeout => if arrivals == [] then [] else Drain(r.buffer, r.arrivals, reports)
    case _ => []
  }

  /** For every chunking and every interleaving of timeouts, the messages received are those of the pure parser. */
  lemma {:induction false} DrainIsParse(buffer: seq<byte>, arrivals: seq<Arrival>, reports: bool)
    requires ValidArrivals(arrivals)
    ensures Drain(buffer, arrivals, reports) == Parse(buffer + Stream(arrivals)).messages
    decreases |buffer| + Size(arrivals), Size(arrivals)
  {
    var r := Receive(buffer, arrivals, reports);
    ReceiveParses(buffer, arrivals, reports);
    if r.result.Received? || (r.result.Timeout? && arrivals != []) {
      DrainIsParse(r.buffer, r.arrivals, reports);
    } else if r.result.Timeout? {
      assert r.arrivals == [] && r.buffer + Stream(r.arrivals) == r.buffer;
    }
  }

  /** Two deliveries of the same bytes yield the same messages. */
  lemma ChunkingIrrelevant(a: seq<Arrival>, b: seq<Arrival>, reports: bool, reports': bool)
    requires ValidArrivals(a) && ValidArrivals(b) && Stream(a) == Stream(b)
    ensures Drain([], a, reports) == Drain([], b, reports')
  {
    DrainIsParse([], a, reports);
    DrainIsParse([], b, reports');
  }

  /** What a peer sends arrives: all of its messages, and of a truncated last frame nothing. */
  lemma SentIsReceived(ms: seq<Message>, partial: seq<byte>, arrivals: seq<Arrival>, reports: bool)
    requires ValidArrivals(arrivals) && forall m | m in ms :: ValidMessage(m)
    requires Stream(arrivals) == EncodedAll(ms) + partial && Parse(partial).messages == []
    ensures Drain([], arrivals, reports) == ms
  {
    DrainIsParse([], arrivals, reports);
    ParseEncoded(ms, partial);
    NothingAround(Stream(arrivals));
    NothingAround(ms);
  }

  // ---------- how large the buffer gets ----------

  const PEAK: nat := MAX_MESSAGE_SIZE + RECV_CHUNK_SIZE

  /** A caller that passes an error string keeps the buffer below one frame plus one chunk, at every pass through the
      loop and in between calls; the size limit is never hit. */
  lemma {:induction false} BufferStaysSmall(buffer: seq<byte>, arrivals: seq<Arrival>)
    requires ValidArrivals(arrivals) && |buffer| < PEAK
    ensures forall b | b in Passes(buffer, arrivals, true) :: |b| < PEAK
    ensures var r := Receive(buffer, arrivals, true); |r.buffer| < PEAK && !r.result.BufferFull?
    decreases Size(arrivals)
  {
    var size := MessagePeekSize(buffer);
    if size.Some? {
      PeekThenDecode(buffer);
    }
    if !(size.Some? && size.value <= |buffer|) && !(|buffer| >= HEADER_SIZE && size.None?) {
      assert |buffer| < MAX_MESSAGE_SIZE;
      RecvConsumes(arrivals, ReadLimit(buffer));
      var (outcome, arrivals') := NextArrival(arrivals, ReadLimit(buffer));
      if outcome.Got? {
        BufferStaysSmall(buffer + outcome.bytes, arrivals');
      }
    }
  }

  /** The buffers all calls go through until the session closes or nothing more can come. */
  function DrainPasses(buffer: seq<byte>, arrivals: seq<Arrival>, reports: bool): seq<seq<byte>>
    requires ValidArrivals(arrivals)
    decreases |buffer| + Size(arrivals), Size(arrivals)
  {
    var r := Receive(buffer, arrivals, reports);
    ReceiveParses(buffer, arrivals, reports);
    Passes(buffer, arrivals, reports)
    + if r.result.Received? || (r.result.Timeout? && arrivals != [])
      then DrainPasses(r.buffer, r.arrivals, reports) else []
  }

  /** From a fresh session on, whatever arrives and however often the caller asks, the buffer never exceeds 4095 + 1024
      bytes. */
  lemma {:induction false} BufferNeverExceeds(buffer: seq<byte>, arrivals: seq<Arrival>)
    requires ValidArrivals(arrivals) && |buffer| < PEAK
    ensures forall b | b in DrainPasses(buffer, arrivals, true) :: |b| <= 4095 + 1024
    decreases |buffer| + Size(arrivals), Size(arrivals)
  {
    var r := Receive(buffer, arrivals, true);
    ReceiveParses(buffer, arrivals, true);
    BufferStaysSmall(buffer, arrivals);
    if r.result.Received? || (r.result.Timeout? && arrivals != []) {
      BufferNeverExceeds(r.buffer, r.arrivals);
    }
  }

  /** Without an error string a bad header goes unnoticed: the call keeps reading behind it, and only a full buffer
      closes the session on its account. */
  lemma {:induction false} BadHeaderUnnoticed(buffer: seq<byte>, arrivals: seq<Arrival>)
    requires ValidArrivals(arrivals) && |buffer| >= HEADER_SIZE && MessagePeekSize(buffer).None?
    ensures var r := Receive(buffer, arrivals, false);
            && (|| r.result.Timeout? || r.result.BufferFull?
                || r.result == ConnectionClosed(false) || r.result.SocketError?)
            && (r.result.Timeout? ==> buffer <= r.buffer && |r.buffer| < MAX_RECV_BUFFER_SIZE)
            && (r.result.BufferFull? ==> |buffer| + |Stream(arrivals)| >= MAX_RECV_BUFFER_SIZE)
    decreases Size(arrivals)
  {
    if |buffer| < MAX_RECV_BUFFER_SIZE {
      RecvConsumes(arrivals, ReadLimit(buffer));
      var (outcome, arrivals') := NextArrival(arrivals, ReadLimit(buffer));
      if outcome.Got? {
        PeekAppend(buffer, outcome.bytes);
        BadHeaderUnnoticed(buffer + outcome.bytes, arrivals');
      }
    }
  }
}
