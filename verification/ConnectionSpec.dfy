/** What each call and each incoming octet or frame does to a connection of src/connection.c (AMQP 1.0 Part 2, section 2.4). */
module ConnectionSpec {
  import opened Octets
  import opened Options

  datatype State =
    | Start | HdrRcvd | HdrSent | HdrExch | OpenPipe | OcPipe | OpenRcvd | OpenSent | ClosePipe | Opened
    | CloseRcvd | CloseSent | Discarding | End | Broken

  /** "AMQP", protocol id 0, version 1.0.0. */
  const AMQP_HEADER: Bytes := [0x41, 0x4D, 0x51, 0x50, 0, 1, 0, 0]
  const MIN_MAX_FRAME_SIZE: nat := 512

  datatype ConnectionState = ConnectionState(
    state: State,
    headerBytesReceived: nat,
    ioOpen: bool,
    maxFrameSize: nat,
    codecMaxFrameSize: nat,
    channelMax: nat,
    remoteMaxFrameSize: nat,
    idleTimeout: Option<nat>,
    remoteIdleTimeout: nat,
    sendFrameMs: nat,
    ratio: real,
    lastReceived: nat,
    lastSent: nat)

  /** What a connection hands to its io, and what it takes from the peer. */
  datatype Happening =
    | HeaderHanded(ok: bool)
    | HeaderOctet(b: Byte)
    | OpenHanded(maxFrameSize: nat, ok: bool)
    | PeerOpen(channel: nat, maxFrameSize: nat)
    | FrameHanded(ok: bool)
    | EmptyFrameHanded(ok: bool)
    | CloseHanded(ok: bool)
    | IoClosed

  /** How the layers below answer: the codec takes the frame size, the frame can be encoded, the io takes the octets. */
  datatype Answers = Answers(sizeOk: bool, encodeOk: bool, sendOk: bool)

  /** The fields of an OPEN that are looked at; `None` where the getter fails. */
  datatype OpenFields = OpenFields(idleTimeout: Option<nat>, maxFrameSize: Option<nat>)

  datatype Performative =
    | Missing
    | Open(fields: Option<OpenFields>)
    | Close(wellFormed: bool)
    | Other

  datatype Out = Out(state: ConnectionState, log: seq<Happening>)

  function After(c: ConnectionState, s: State, log: seq<Happening>): Out {
    Out(c.(state := s), log)
  }

  function SendHeader(c: ConnectionState, a: Answers): Out {
    if a.sendOk then After(c, HdrSent, [HeaderHanded(true)]) else After(c, End, [HeaderHanded(false), IoClosed])
  }

  datatype Sent = Sent(ok: bool, out: Out)

  /** A failed send ends the connection, and then the state is set to OPEN_SENT all the same. */
  function SendOpen(c: ConnectionState, a: Answers): Sent {
    if !a.sizeOk then Sent(false, After(c, End, [IoClosed]))
    else
      var c1 := c.(codecMaxFrameSize := c.maxFrameSize);
      if !a.encodeOk then Sent(false, After(c1, End, [IoClosed]))
      else Sent(true, After(c1, OpenSent, [OpenHanded(c.maxFrameSize, a.sendOk)] + if a.sendOk then [] else [IoClosed]))
  }

  function CloseWithError(c: ConnectionState, a: Answers): Out {
    if a.encodeOk then After(c, Discarding, [CloseHanded(a.sendOk)] + if a.sendOk then [] else [IoClosed])
    else After(c, End, [IoClosed])
  }

  /** Passed by callers that ignore whether the CLOSE could be sent; the state is set afterwards. */
  function CloseLog(a: Answers): seq<Happening> {
    if a.encodeOk then [CloseHanded(a.sendOk)] + if a.sendOk then [] else [IoClosed] else []
  }

  function OnOpenCalled(c: ConnectionState, xioOk: bool): Out {
    if c.ioOpen then Out(c, [])
    else if !xioOk then After(c, End, [])
    else After(c.(ioOpen := true), Start, [])
  }

  function OnIoOpenComplete(c: ConnectionState, ok: bool, a: Answers): Out {
    if !ok then After(c, End, [])
    else match c.state
      case Start => SendHeader(c, a)
      case HdrExch =>
        var s := SendOpen(c, a);
        if s.ok then s.out else After(s.out.state, End, s.out.log)
      case _ => Out(c, [])
  }

  function OnIoError(c: ConnectionState): Out {
    if c.state.End? then Out(c, []) else After(c, Broken, [IoClosed])
  }

  predicate TakesFrames(s: State) {
    s.HdrRcvd? || s.HdrExch? || s.OpenRcvd? || s.OpenSent? || s.Opened?
  }

  /** Octets of the header are compared one by one; later ones go to the frame codec, which accepts them or not. */
  function OnOctet(c: ConnectionState, b: Byte, codecOk: bool, a: Answers): Out {
    if c.state.Start? || c.state.HdrSent? then
      if c.headerBytesReceived >= 8 || b != AMQP_HEADER[c.headerBytesReceived] then After(c, End, [IoClosed])
      else
        var c1 := c.(headerBytesReceived := c.headerBytesReceived + 1);
        if c1.headerBytesReceived < 8 then Out(c1, [HeaderOctet(b)])
        else
          var s := SendOpen(c1.(state := HdrExch), a);
          Out(if s.ok then s.out.state else s.out.state.(state := End), [HeaderOctet(b)] + s.out.log)
    else if TakesFrames(c.state) && !codecOk then CloseWithError(c, a)
    else Out(c, [])
  }

  /** 0 to 1 of the peer's idle timeout, rounded down. */
  function SendInterval(ratio: real, timeout: nat): nat {
    var ms := (ratio * (timeout as real)).Floor;
    if ms < 0 then 0 else ms
  }

  function OnOpen(c: ConnectionState, channel: nat, fields: Option<OpenFields>, a: Answers): Out {
    var first := if channel != 0 then CloseWithError(c, a) else Out(c, []);
    var c1 := first.state;
    if c1.state.Opened? then
      var e := CloseWithError(c1, a);
      Out(e.state, first.log + e.log)
    else if c1.state.OpenSent? || c1.state.HdrExch? then
      var rest := AcceptOpen(c1, channel, fields, a);
      Out(rest.state, first.log + rest.log)
    else first
  }

  function AcceptOpen(c: ConnectionState, channel: nat, fields: Option<OpenFields>, a: Answers): Out {
    if fields.None? then CloseWithError(c, a)
    else
      var f := fields.value;
      var c1 := if f.idleTimeout.None? then c
                else c.(remoteIdleTimeout := f.idleTimeout.value, sendFrameMs := SendInterval(c.ratio, f.idleTimeout.value));
      if f.maxFrameSize.None? then CloseWithError(c1, a)
      else
        var c2 := c1.(remoteMaxFrameSize := f.maxFrameSize.value);
        if f.maxFrameSize.value < MIN_MAX_FRAME_SIZE then CloseWithError(c2, a)
        else if c2.state.OpenSent? then After(c2, Opened, [PeerOpen(channel, f.maxFrameSize.value)])
        else
          var s := SendOpen(c2, a);
          After(s.out.state, if s.ok then Opened else End, [PeerOpen(channel, f.maxFrameSize.value)] + s.out.log)
  }

  function OnClose(c: ConnectionState, channel: nat, wellFormed: bool, a: Answers): Out {
    if c.state.HdrRcvd? || c.state.HdrExch? || c.state.OpenRcvd? || c.state.CloseSent? || c.state.Discarding? then Out(c, [IoClosed])
    else if channel > c.channelMax || !wellFormed then CloseWithError(c, a)
    else After(c, End, CloseLog(a) + [IoClosed])
  }

  /** `on_amqp_frame_received`, for what concerns the connection itself. */
  function OnFrame(c: ConnectionState, channel: nat, p: Performative, now: nat, a: Answers): Out {
    var c1 := c.(lastReceived := now);
    if !c1.ioOpen then Out(c1, [])
    else if c1.state.Start? || c1.state.HdrSent? || c1.state.OpenPipe? || c1.state.OcPipe? || c1.state.CloseRcvd? || c1.state.End? then
      Out(c1, [IoClosed])
    else match p
      case Missing => CloseWithError(c1, a)
      case Open(fields) => OnOpen(c1, channel, fields, a)
      case Close(wellFormed) => OnClose(c1, channel, wellFormed, a)
      case Other => Out(c1, [])
  }

  function OnEmptyFrame(c: ConnectionState, now: nat): Out {
    Out(c.(lastReceived := now), [])
  }

  /** `connection_encode_frame`: a frame for a session; it counts as sent only when the io took it. */
  function EncodeFrame(c: ConnectionState, now: nat, a: Answers): Sent {
    if !c.state.Opened? || !a.encodeOk then Sent(false, Out(c, []))
    else if !a.sendOk then Sent(false, After(c, End, [FrameHanded(false), IoClosed]))
    else Sent(true, Out(c.(lastSent := now), [FrameHanded(true)]))
  }

  function CloseCalled(c: ConnectionState, withError: bool, a: Answers): Out {
    var o := if withError then CloseWithError(c, a) else After(c, End, CloseLog(a));
    Out(o.state.(ioOpen := true), o.log + [IoClosed])
  }

  const NEVER: nat := 0xFFFF_FFFF_FFFF_FFFF

  datatype Due = Due(deadline: nat, out: Out)

  function Elapsed(now: nat, since: nat): nat {
    (now - since) % 0x1_0000_0000_0000_0000
  }

  predicate Idle(c: ConnectionState, now: nat) {
    c.idleTimeout.Some? && c.idleTimeout.value != 0 && Elapsed(now, c.lastReceived) >= c.idleTimeout.value
  }

  /** `connection_handle_deadlines`: the milliseconds until it wants to be called again, 0 when it closed. */
  function HandleDeadlines(c: ConnectionState, now: nat, a: Answers): Due {
    if Idle(c, now) then Due(0, CloseWithError(c, a))
    else
      var local := if c.idleTimeout.Some? && c.idleTimeout.value != 0 then c.idleTimeout.value - Elapsed(now, c.lastReceived) else NEVER;
      if c.remoteIdleTimeout == 0 then Due(Min(local, NEVER), Out(c, []))
      else if Elapsed(now, c.lastSent) < c.sendFrameMs then Due(Min(local, c.sendFrameMs - Elapsed(now, c.lastSent)), Out(c, []))
      else if !a.encodeOk then Due(Min(local, NEVER), CloseWithError(c, a))
      else
        var c1 := c.(lastSent := now, state := if a.sendOk then c.state else End);
        Due(Min(local, c.sendFrameMs), Out(c1, [EmptyFrameHanded(a.sendOk)] + if a.sendOk then [] else [IoClosed]))
  }

  function Min(x: nat, y: nat): nat {
    if x > y then y else x
  }

  function SetMaxFrameSize(c: ConnectionState, size: nat): ConnectionState {
    if size >= MIN_MAX_FRAME_SIZE && c.state.Start? then c.(maxFrameSize := size) else c
  }

  function SetChannelMax(c: ConnectionState, limit: nat): ConnectionState {
    if c.state.Start? then c.(channelMax := limit) else c
  }

  function SetRatio(c: ConnectionState, ratio: real): ConnectionState {
    if 0.0 < ratio <= 1.0 then c.(ratio := ratio) else c
  }

  function Created(now: nat): ConnectionState {
    ConnectionState(Start, 0, false, 4294967295, 512, 65535, 512, None, 0, 0, 0.5, now, now)
  }

  // ---------------------------------------------------------------- runs

  datatype Input =
    | OpenCalled(xioOk: bool)
    | IoOpenComplete(ok: bool, a: Answers)
    | IoFailed
    | OctetReceived(b: Byte, codecOk: bool, a: Answers)
    | FrameReceived(channel: nat, p: Performative, now: nat, a: Answers)
    | EmptyFrameReceived(now: nat)
    | FrameEncoded(now: nat, a: Answers)
    | CloseRequested(withError: bool, a: Answers)
    | DeadlinesHandled(now: nat, a: Answers)
    | MaxFrameSizeSet(size: nat)
    | ChannelMaxSet(limit: nat)
    | RatioSet(ratio: real)

  function OnInput(c: ConnectionState, i: Input): Out {
    match i
    case OpenCalled(xioOk) => OnOpenCalled(c, xioOk)
    case IoOpenComplete(ok, a) => OnIoOpenComplete(c, ok, a)
    case IoFailed => OnIoError(c)
    case OctetReceived(b, codecOk, a) => if c.ioOpen then OnOctet(c, b, codecOk, a) else Out(c, [])
    case FrameReceived(channel, p, now, a) => OnFrame(c, channel, p, now, a)
    case EmptyFrameReceived(now) => OnEmptyFrame(c, now)
    case FrameEncoded(now, a) => EncodeFrame(c, now, a).out
    case CloseRequested(withError, a) => CloseCalled(c, withError, a)
    case DeadlinesHandled(now, a) => HandleDeadlines(c, now, a).out
    case MaxFrameSizeSet(size) => Out(SetMaxFrameSize(c, size), [])
    case ChannelMaxSet(limit) => Out(SetChannelMax(c, limit), [])
    case RatioSet(ratio) => Out(SetRatio(c, ratio), [])
  }

  function Run(c: ConnectionState, inputs: seq<Input>): Out
    decreases |inputs|
  {
    if inputs == [] then Out(c, [])
    else
      var o := OnInput(c, inputs[0]);
      var r := Run(o.state, inputs[1..]);
      Out(r.state, o.log + r.log)
  }
}
