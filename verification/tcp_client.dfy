/**
 * The TCP client socket of the DoIP stream channel: its run-state flags, the
 * socket operations that drive them (with their I/O outcomes as parameters),
 * and the receive cycle its worker thread performs while running.
 */
module TcpClient {
  import opened Bytes
  import opened Wrappers
  import opened TcpFraming

  /** The error code a socket call reports. */
  datatype ErrorCode = Success | Eof | OtherError

  /** `running_` and `exit_request_`. */
  datatype ChannelState = ChannelState(running: bool, exitRequested: bool)

  /** The flags as the constructor sets them: idle, no exit requested. */
  const Created := ChannelState(false, false)

  // ---------------------------------------------------------------------------
  // Socket operations

  /**
   * `Open`: opening the socket, then binding it to the local address. The bind
   * is attempted only after a successful open; the flags are not touched.
   */
  function Open(openResult: ErrorCode, bindResult: ErrorCode): (ok: bool)
    ensures ok <==> openResult == Success && bindResult == Success
  {
    if openResult == Success then bindResult == Success else false
  }

  /** `ConnectToHost`: on a successful connect, reading starts. */
  function ConnectToHost(st: ChannelState, connectResult: ErrorCode): (r: (bool, ChannelState))
    ensures r.0 <==> connectResult == Success
    ensures r.0 ==> r.1.running
    ensures !r.0 ==> r.1 == st
    ensures r.1.exitRequested == st.exitRequested
  {
    if connectResult == Success then (true, st.(running := true)) else (false, st)
  }

  /** `DisconnectFromHost`: on a successful shutdown of both directions, reading stops. */
  function DisconnectFromHost(st: ChannelState, shutdownResult: ErrorCode): (r: (bool, ChannelState))
    ensures r.0 <==> shutdownResult == Success
    ensures r.0 ==> !r.1.running
    ensures !r.0 ==> r.1 == st
    ensures r.1.exitRequested == st.exitRequested
  {
    if shutdownResult == Success then (true, st.(running := false)) else (false, st)
  }

  /** `Transmit`: succeeds exactly when the blocking write of the buffer reports no error. */
  function Transmit(writeResult: ErrorCode): (ok: bool)
    ensures ok <==> writeResult == Success
  {
    writeResult == Success
  }

  /** The destructor: exit is requested and reading stops, before the thread is joined. */
  function Destruct(st: ChannelState): (st': ChannelState)
    ensures st'.exitRequested && !st'.running
  {
    st.(exitRequested := true).(running := false)
  }

  // ---------------------------------------------------------------------------
  // The worker thread

  /** What one pass of the worker loop does. */
  datatype LoopAction = Exit | Wait | Receive

  /**
   * One pass of the worker loop: it leaves when exit was requested, parks on
   * the condition variable while not running, and otherwise runs one receive
   * cycle.
   */
  function WorkerStep(st: ChannelState): (a: LoopAction)
    ensures a == Receive <==> st.running && !st.exitRequested
    ensures a == Exit <==> st.exitRequested
  {
    if st.exitRequested then Exit
    else if !st.running then Wait
    else Receive
  }

  /** A freshly constructed channel's worker parks until a connect arms it or the destructor runs. */
  lemma CreatedWaits()
    ensures WorkerStep(Created) == Wait
    ensures WorkerStep(ConnectToHost(Created, Success).1) == Receive
    ensures WorkerStep(Destruct(Created)) == Exit
  {
  }

  /** A destroyed channel's worker leaves its loop, whatever the flags were. */
  lemma DestructStopsWorker(st: ChannelState)
    ensures WorkerStep(Destruct(st)) == Exit
  {
  }

  /** Connecting a live channel arms the worker; disconnecting parks it. */
  lemma ConnectArmsDisconnectParks(st: ChannelState, result: ErrorCode)
    requires !st.exitRequested && result == Success
    ensures WorkerStep(ConnectToHost(st, result).1) == Receive
    ensures WorkerStep(DisconnectFromHost(st, result).1) == Wait
  {
  }

  // ---------------------------------------------------------------------------
  // The peer's byte stream and blocking reads

  /** How the peer's stream ends once its pending bytes are consumed. */
  datatype StreamEnd = PeerClosed | Broken

  /** What the socket will still deliver: some bytes, then the end. */
  datatype Stream = Stream(pending: seq<Byte>, end: StreamEnd)

  function EndCode(end: StreamEnd): (ec: ErrorCode)
  {
    match end
    case PeerClosed => Eof
    case Broken => OtherError
  }

  datatype ReadResult = ReadResult(data: seq<Byte>, ec: ErrorCode, rest: Stream)

  /**
   * `boost::asio::read` of `n` bytes: it blocks until all `n` have arrived, or
   * fails with the stream's end after delivering what was there.
   */
  function Read(s: Stream, n: nat): (r: ReadResult)
    ensures r.ec == Success <==> n <= |s.pending|
    ensures r.data + r.rest.pending == s.pending && r.rest.end == s.end
    ensures r.ec == Success ==> |r.data| == n
    ensures r.ec != Success ==> |r.data| < n && r.rest.pending == [] && r.ec == EndCode(s.end)
  {
    if n <= |s.pending| then ReadResult(s.pending[..n], Success, Stream(s.pending[n..], s.end))
    else ReadResult(s.pending, EndCode(s.end), Stream([], s.end))
  }

  // ---------------------------------------------------------------------------
  // HandleMessage: one receive cycle

  datatype Endpoint = Endpoint(address: string, port: Uint16)

  /** A received message: the peer's address and port, and the assembled buffer. */
  datatype TcpMessage = TcpMessage(hostIpAddress: string, hostPortNum: Uint16, rxBuffer: seq<Byte>)

  /** The flags afterwards, the message handed to the read callback (if any), what is left to read. */
  datatype Cycle = Cycle(state: ChannelState, delivered: Option<TcpMessage>, rest: Stream)

  /**
   * `HandleMessage`: read the header; on success, size the buffer to header
   * plus announced payload, read the payload into it and hand the buffer to the
   * read callback. The payload read's error code is not examined: bytes it did
   * not deliver keep the zero the resize gave them. A failed header read, end
   * of stream or any other error, stops reading and delivers nothing.
   */
  function HandleMessage(st: ChannelState, s: Stream, peer: Endpoint): (c: Cycle)
    ensures DoipHeaderSize <= |s.pending| ==>
              && c.state == st
              && c.delivered.Some?
              && c.delivered.value.hostIpAddress == peer.address
              && c.delivered.value.hostPortNum == peer.port
              && |c.delivered.value.rxBuffer| == DoipHeaderSize + PayloadLength(s.pending)
              && c.delivered.value.rxBuffer[..DoipHeaderSize] == s.pending[..DoipHeaderSize]
    ensures DoipHeaderSize <= |s.pending| && DoipHeaderSize + PayloadLength(s.pending) <= |s.pending| ==>
              && c.delivered == Some(TcpMessage(peer.address, peer.port,
                                                s.pending[..DoipHeaderSize + PayloadLength(s.pending)]))
              && c.rest == Stream(s.pending[DoipHeaderSize + PayloadLength(s.pending)..], s.end)
    ensures |s.pending| < DoipHeaderSize ==>
              c == Cycle(st.(running := false), None, Stream([], s.end))
  {
    var header := Read(s, DoipHeaderSize);
    if header.ec == Success then
      var readNextBytes := PayloadLength(header.data);
      var payload := Read(header.rest, readNextBytes);
      var rxBuffer := header.data + payload.data + Zeros(readNextBytes - |payload.data|);
      assert header.data + payload.data == s.pending[..DoipHeaderSize + |payload.data|];
      assert |payload.data| == readNextBytes ==> rxBuffer == header.data + payload.data;
      Cycle(st, Some(TcpMessage(peer.address, peer.port, rxBuffer)), payload.rest)
    else
      // End of stream and any other error are handled alike; only the log differs.
      Cycle(st.(running := false), None, header.rest)
  }

  /**
   * A framed message followed by anything is received as exactly that frame,
   * and the rest of the stream is left for the next cycle.
   */
  lemma FrameRoundTrip(st: ChannelState, prefix: seq<Byte>, payload: seq<Byte>, more: seq<Byte>,
                       end: StreamEnd, peer: Endpoint)
    requires |prefix| == 4 && |payload| < 0x1_0000_0000
    ensures HandleMessage(st, Stream(Frame(prefix, payload) + more, end), peer)
            == Cycle(st, Some(TcpMessage(peer.address, peer.port, Frame(prefix, payload))), Stream(more, end))
  {
    var f := Frame(prefix, payload);
    var s := f + more;
    assert s[..DoipHeaderSize] == f[..DoipHeaderSize];
    assert PayloadLength(s) == PayloadLength(f);
    assert s[..|f|] == f;
    assert s[|f|..] == more;
  }

  /**
   * When the payload is cut short the callback still gets a full-size buffer:
   * the header, the bytes that came, zeros for the rest; reading stays on.
   */
  lemma ShortPayloadStillDelivered(st: ChannelState, s: Stream, peer: Endpoint)
    requires DoipHeaderSize <= |s.pending| < DoipHeaderSize + PayloadLength(s.pending)
    ensures var c := HandleMessage(st, s, peer);
            var missing := DoipHeaderSize + PayloadLength(s.pending) - |s.pending|;
            && c.state == st
            && c.delivered == Some(TcpMessage(peer.address, peer.port, s.pending + Zeros(missing)))
            && c.rest == Stream([], s.end)
  {
    assert s.pending[..DoipHeaderSize] + s.pending[DoipHeaderSize..] == s.pending;
  }

  /**
   * As written, the payload read takes `&rx_buffer[kDoipheadrSize]` after
   * resizing the buffer to header plus announced length. `operator[]` allows
   * that index only when it is below the size, that is, when the announced
   * length is not zero.
   */
  function PayloadSlotIndexable(header: seq<Byte>): (ok: bool)
    requires |header| >= DoipHeaderSize
    ensures ok <==> PayloadLength(header) != 0
  {
    DoipHeaderSize < DoipHeaderSize + PayloadLength(header)
  }

  /**
   * As written, the buffer size `kDoipheadrSize + std::size_t(read_next_bytes)`
   * with a 32-bit `std::size_t`: the sum wraps modulo 2^32, and for an
   * announced length of 0xFFFFFFF8 or more the buffer is resized below the
   * header size while the payload read still targets `&rx_buffer[8]`.
   */
  function ResizedLength32(header: seq<Byte>): (n: nat)
    requires |header| >= DoipHeaderSize
    ensures n < 0x1_0000_0000
    ensures n == DoipHeaderSize + PayloadLength(header) <==> PayloadLength(header) < 0x1_0000_0000 - DoipHeaderSize
    ensures n < DoipHeaderSize <==> PayloadLength(header) >= 0x1_0000_0000 - DoipHeaderSize
  {
    (DoipHeaderSize + PayloadLength(header)) % 0x1_0000_0000
  }

  /** A header announcing 0xFFFFFFF8 bytes makes the 32-bit size wrap to an empty buffer. */
  lemma WrappedLengthEmptiesBuffer()
    ensures ResizedLength32([2, 0xFD, 0x80, 0x01, 0xFF, 0xFF, 0xFF, 0xF8]) == 0
  {
  }

  /** An alive-check request header (payload type 0x0007, no payload) makes that index one past the end. */
  lemma AliveCheckIndexesPastEnd()
    ensures !PayloadSlotIndexable([2, 0xFD, 0x00, 0x07, 0, 0, 0, 0])
  {
  }

  /**
   * The intended behaviour, which `HandleMessage` models: a zero announced
   * length reads no payload, and the header alone is delivered.
   */
  lemma ZeroLengthDeliversHeader(st: ChannelState, s: Stream, peer: Endpoint)
    requires DoipHeaderSize <= |s.pending| && PayloadLength(s.pending) == 0
    ensures HandleMessage(st, s, peer)
            == Cycle(st, Some(TcpMessage(peer.address, peer.port, s.pending[..DoipHeaderSize])),
                     Stream(s.pending[DoipHeaderSize..], s.end))
  {
  }

  // ---------------------------------------------------------------------------
  // The receive loop

  /** The loop's view of the channel: flags, the peer's stream, and the callback's record. */
  datatype LoopResult = LoopResult(state: ChannelState, delivered: seq<TcpMessage>, rest: Stream)

  /**
   * The worker loop while nothing else touches the flags: receive cycles one
   * after another for as long as the worker is armed.
   */
  function RunWorker(st: ChannelState, s: Stream, peer: Endpoint): (r: LoopResult)
    ensures WorkerStep(r.state) != Receive
    ensures r.state.exitRequested == st.exitRequested
    decreases |s.pending| + (if st.running then 1 else 0)
  {
    if WorkerStep(st) != Receive then LoopResult(st, [], s)
    else
      var c := HandleMessage(st, s, peer);
      var next := RunWorker(c.state, c.rest, peer);
      LoopResult(next.state, (if c.delivered.Some? then [c.delivered.value] else []) + next.delivered, next.rest)
  }

  /** The concatenation of a sequence of buffers, in order. */
  function Concat(frames: seq<seq<Byte>>): (bytes: seq<Byte>)
    decreases |frames|
  {
    if frames == [] then [] else frames[0] + Concat(frames[1..])
  }

  predicate AllValidFrames(frames: seq<seq<Byte>>)
  {
    forall i :: 0 <= i < |frames| ==> ValidFrame(frames[i])
  }

  /**
   * An armed worker reading a stream of well-formed frames hands each frame to
   * the callback once, in order, and stops reading when the stream ends.
   */
  lemma {:induction false} RunWorkerFrames(st: ChannelState, frames: seq<seq<Byte>>, end: StreamEnd, peer: Endpoint)
    requires st.running && !st.exitRequested
    requires AllValidFrames(frames)
    ensures var r := RunWorker(st, Stream(Concat(frames), end), peer);
            && r.state == st.(running := false)
            && |r.delivered| == |frames|
            && (forall i :: 0 <= i < |frames| ==> r.delivered[i] == TcpMessage(peer.address, peer.port, frames[i]))
            && r.rest == Stream([], end)
    decreases |frames|
  {
    var s := Stream(Concat(frames), end);
    if frames == [] {
      var c := HandleMessage(st, s, peer);
      assert c.state == st.(running := false);
    } else {
      var f := frames[0];
      assert ValidFrame(f);
      ValidFrameIsFrame(f);
      FrameRoundTrip(st, f[..4], f[DoipHeaderSize..], Concat(frames[1..]), end, peer);
      assert AllValidFrames(frames[1..]);
      RunWorkerFrames(st, frames[1..], end, peer);
    }
  }

  // ---------------------------------------------------------------------------
  // The run flag across a session

  /** The events that change `running_` while the channel is alive. */
  datatype Control = Connect(connectResult: ErrorCode) | Disconnect(shutdownResult: ErrorCode) | HeaderReadFailed

  function Apply(st: ChannelState, event: Control): (st': ChannelState)
  {
    match event
    case Connect(ec) => ConnectToHost(st, ec).1
    case Disconnect(ec) => DisconnectFromHost(st, ec).1
    case HeaderReadFailed => st.(running := false)
  }

  function ApplyAll(st: ChannelState, events: seq<Control>): (st': ChannelState)
    decreases |events|
  {
    if events == [] then st else ApplyAll(Apply(st, events[0]), events[1..])
  }

  /**
   * The run flag decided by the last event that changes it: true after a
   * successful connect, false after a successful disconnect or a failed
   * header read; failed calls decide nothing.
   */
  function LastDecision(events: seq<Control>): (decision: Option<bool>)
    decreases |events|
  {
    if events == [] then None
    else
      var last := events[|events| - 1];
      match last
      case Connect(ec) => if ec == Success then Some(true) else LastDecision(events[..|events| - 1])
      case Disconnect(ec) => if ec == Success then Some(false) else LastDecision(events[..|events| - 1])
      case HeaderReadFailed => Some(false)
  }

  /** ApplyAll over a sequence extended by one event. */
  lemma {:induction false} ApplyAllSnoc(st: ChannelState, events: seq<Control>, e: Control)
    ensures ApplyAll(st, events + [e]) == Apply(ApplyAll(st, events), e)
    decreases |events|
  {
    if events != [] {
      assert (events + [e])[1..] == events[1..] + [e];
      ApplyAllSnoc(Apply(st, events[0]), events[1..], e);
    }
  }

  /**
   * After any series of connects, disconnects and receive failures, the
   * channel is running exactly when the last deciding event was a successful
   * connect (or, with none, when it was running before); exit is never
   * requested by these events.
   */
  lemma {:induction false} RunningDecidedByLastEvent(st: ChannelState, events: seq<Control>)
    ensures ApplyAll(st, events).running == LastDecision(events).GetOr(st.running)
    ensures ApplyAll(st, events).exitRequested == st.exitRequested
    decreases |events|
  {
    if events != [] {
      var init := events[..|events| - 1];
      var last := events[|events| - 1];
      assert init + [last] == events;
      ApplyAllSnoc(st, init, last);
      RunningDecidedByLastEvent(st, init);
    }
  }
}
