/** src/connection.c as it runs, but for its table of endpoints. */
module Connections {
  import opened Octets
  import opened Options
  import opened ConnectionSpec

  class Connection {
    var connectionState: State
    var headerBytesReceived: nat
    var isUnderlyingIoOpen: bool
    var maxFrameSize: nat
    /** The limit last given to the frame codec. */
    var codecMaxFrameSize: nat
    var channelMax: nat
    var remoteMaxFrameSize: nat
    var idleTimeout: nat
    var idleTimeoutSpecified: bool
    var remoteIdleTimeout: nat
    var remoteIdleTimeoutSendFrameMillisecond: nat
    var idleTimeoutEmptyFrameSendRatio: real
    var lastFrameReceivedTime: nat
    var lastFrameSentTime: nat

    function View(): ConnectionState
      reads this
    {
      ConnectionState(connectionState, headerBytesReceived, isUnderlyingIoOpen, maxFrameSize, codecMaxFrameSize, channelMax,
                      remoteMaxFrameSize, if idleTimeoutSpecified then Some(idleTimeout) else None, remoteIdleTimeout,
                      remoteIdleTimeoutSendFrameMillisecond, idleTimeoutEmptyFrameSendRatio, lastFrameReceivedTime, lastFrameSentTime)
    }

    constructor (now: nat)
      ensures View() == Created(now)
    {
      connectionState, headerBytesReceived, isUnderlyingIoOpen := Start, 0, false;
      maxFrameSize, codecMaxFrameSize, channelMax, remoteMaxFrameSize := 4294967295, 512, 65535, 512;
      idleTimeout, idleTimeoutSpecified, remoteIdleTimeout, remoteIdleTimeoutSendFrameMillisecond := 0, false, 0, 0;
      idleTimeoutEmptyFrameSendRatio, lastFrameReceivedTime, lastFrameSentTime := 0.5, now, now;
    }

    /** `on_bytes_encoded`: when the io does not take the octets it is closed and the connection ends. */
    method BytesEncoded(a: Answers) returns (log: seq<Happening>)
      modifies this`connectionState
      ensures View() == old(View()).(state := if a.sendOk then old(connectionState) else End)
      ensures log == if a.sendOk then [] else [IoClosed]
    {
      log := [];
      if !a.sendOk {
        connectionState := End;
        log := [IoClosed];
      }
    }

    method SendHeader(a: Answers) returns (log: seq<Happening>)
      modifies this`connectionState
      ensures ConnectionSpec.SendHeader(old(View()), a) == Out(View(), log)
    {
      if a.sendOk {
        connectionState := HdrSent;
        log := [HeaderHanded(true)];
      } else {
        connectionState := End;
        log := [HeaderHanded(false), IoClosed];
      }
    }

    method SendOpenFrame(a: Answers) returns (ok: bool, log: seq<Happening>)
      modifies this`connectionState, this`codecMaxFrameSize
      ensures SendOpen(old(View()), a) == Sent(ok, Out(View(), log))
    {
      if !a.sizeOk {
        connectionState := End;
        return false, [IoClosed];
      }
      codecMaxFrameSize := maxFrameSize;
      if !a.encodeOk {
        connectionState := End;
        return false, [IoClosed];
      }
      log := BytesEncoded(a);
      log := [OpenHanded(maxFrameSize, a.sendOk)] + log;
      connectionState := OpenSent;
      ok := true;
    }

    method SendCloseFrame(a: Answers) returns (ok: bool, log: seq<Happening>)
      modifies this`connectionState
      ensures ok == a.encodeOk && log == CloseLog(a)
      ensures View() == old(View()).(state := if a.encodeOk && !a.sendOk then End else old(connectionState))
    {
      ok, log := a.encodeOk, [];
      if ok {
        log := BytesEncoded(a);
        log := [CloseHanded(a.sendOk)] + log;
      }
    }

    method CloseConnectionWithError(a: Answers) returns (log: seq<Happening>)
      modifies this`connectionState
      ensures CloseWithError(old(View()), a) == Out(View(), log)
    {
      var ok;
      ok, log := SendCloseFrame(a);
      if ok {
        connectionState := Discarding;
      } else {
        connectionState := End;
        log := log + [IoClosed];
      }
    }

    method Open(xioOk: bool)
      modifies this`connectionState, this`isUnderlyingIoOpen
      ensures OnOpenCalled(old(View()), xioOk) == Out(View(), [])
    {
      if !isUnderlyingIoOpen {
        if !xioOk {
          connectionState := End;
        } else {
          isUnderlyingIoOpen := true;
          connectionState := Start;
        }
      }
    }

    method IoOpenComplete(ok: bool, a: Answers) returns (log: seq<Happening>)
      modifies this
      ensures OnIoOpenComplete(old(View()), ok, a) == Out(View(), log)
    {
      log := [];
      if !ok {
        connectionState := End;
      } else if connectionState.Start? {
        log := SendHeader(a);
      } else if connectionState.HdrExch? {
        var sent;
        sent, log := SendOpenFrame(a);
        if !sent {
          connectionState := End;
        }
      }
    }

    method IoError() returns (log: seq<Happening>)
      modifies this`connectionState
      ensures OnIoError(old(View())) == Out(View(), log)
    {
      log := [];
      if !connectionState.End? {
        connectionState := Broken;
        log := [IoClosed];
      }
    }

    /** `connection_byte_received`; frames that the octet completes are delivered before, by the frame codec. */
    method ByteReceived(b: Byte, codecOk: bool, a: Answers) returns (log: seq<Happening>)
      requires connectionState.Start? || connectionState.HdrSent? ==> headerBytesReceived < 8
      modifies this
      ensures OnOctet(old(View()), b, codecOk, a) == Out(View(), log)
    {
      log := [];
      if connectionState.Start? || connectionState.HdrSent? {
        if b != AMQP_HEADER[headerBytesReceived] {
          connectionState := End;
          return [IoClosed];
        }
        headerBytesReceived := headerBytesReceived + 1;
        if headerBytesReceived == 8 {
          connectionState := HdrExch;
          var sent;
          sent, log := SendOpenFrame(a);
          if !sent {
            connectionState := End;
          }
        }
        log := [HeaderOctet(b)] + log;
      } else if TakesFrames(connectionState) {
        if !codecOk {
          log := CloseConnectionWithError(a);
        }
      }
    }

    method OpenReceived(channel: nat, fields: Option<OpenFields>, a: Answers) returns (log: seq<Happening>)
      modifies this
      ensures OnOpen(old(View()), channel, fields, a) == Out(View(), log)
    {
      hide AcceptOpen, CloseWithError;
      log := [];
      if channel != 0 {
        log := CloseConnectionWithError(a);
      }
      if connectionState.Opened? {
        var more := CloseConnectionWithError(a);
        log := log + more;
      } else if connectionState.OpenSent? || connectionState.HdrExch? {
        var more := OpenAccepted(channel, fields, a);
        log := log + more;
      }
    }

    method OpenAccepted(channel: nat, fields: Option<OpenFields>, a: Answers) returns (log: seq<Happening>)
      requires connectionState.OpenSent? || connectionState.HdrExch?
      modifies this
      ensures AcceptOpen(old(View()), channel, fields, a) == Out(View(), log)
    {
      hide CloseWithError, SendInterval;
      if fields.None? {
        log := CloseConnectionWithError(a);
        return;
      }
      if fields.value.idleTimeout.Some? {
        remoteIdleTimeout := fields.value.idleTimeout.value;
        remoteIdleTimeoutSendFrameMillisecond := SendInterval(idleTimeoutEmptyFrameSendRatio, remoteIdleTimeout);
      }
      if fields.value.maxFrameSize.None? {
        log := CloseConnectionWithError(a);
        return;
      }
      remoteMaxFrameSize := fields.value.maxFrameSize.value;
      if remoteMaxFrameSize < MIN_MAX_FRAME_SIZE {
        log := CloseConnectionWithError(a);
        return;
      }
      var accepted := [PeerOpen(channel, remoteMaxFrameSize)];
      if connectionState.OpenSent? {
        connectionState := Opened;
        log := accepted;
      } else {
        var sent;
        sent, log := SendOpenFrame(a);
        connectionState := if sent then Opened else End;
        log := accepted + log;
      }
    }

    method CloseReceived(channel: nat, wellFormed: bool, a: Answers) returns (log: seq<Happening>)
      modifies this
      ensures OnClose(old(View()), channel, wellFormed, a) == Out(View(), log)
    {
      if connectionState.HdrRcvd? || connectionState.HdrExch? || connectionState.OpenRcvd? || connectionState.CloseSent? || connectionState.Discarding? {
        log := [IoClosed];
      } else if channel > channelMax {
        log := CloseConnectionWithError(a);
      } else if !wellFormed {
        log := CloseConnectionWithError(a);
      } else {
        connectionState := CloseRcvd;
        var sent;
        sent, log := SendCloseFrame(a);
        log := log + [IoClosed];
        connectionState := End;
      }
    }

    method FrameReceived(channel: nat, p: Performative, now: nat, a: Answers) returns (log: seq<Happening>)
      modifies this
      ensures OnFrame(old(View()), channel, p, now, a) == Out(View(), log)
    {
      hide OnOpen, OnClose, CloseWithError;
      log := [];
      lastFrameReceivedTime := now;
      if isUnderlyingIoOpen {
        match connectionState
        case Start => log := [IoClosed];
        case HdrSent => log := [IoClosed];
        case OpenPipe => log := [IoClosed];
        case OcPipe => log := [IoClosed];
        case CloseRcvd => log := [IoClosed];
        case End => log := [IoClosed];
        case _ =>
          match p {
            case Missing => log := CloseConnectionWithError(a);
            case Open(fields) => log := OpenReceived(channel, fields, a);
            case Close(wellFormed) => log := CloseReceived(channel, wellFormed, a);
            case Other =>
          }
      }
    }

    method EmptyFrameReceived(now: nat)
      modifies this`lastFrameReceivedTime
      ensures OnEmptyFrame(old(View()), now) == Out(View(), [])
    {
      lastFrameReceivedTime := now;
    }

    /** `connection_encode_frame` */
    method EncodeFrame(now: nat, a: Answers) returns (ok: bool, log: seq<Happening>)
      modifies this`connectionState, this`lastFrameSentTime
      ensures ConnectionSpec.EncodeFrame(old(View()), now, a) == Sent(ok, Out(View(), log))
    {
      if !connectionState.Opened? || !a.encodeOk {
        return false, [];
      }
      log := BytesEncoded(a);
      log := [FrameHanded(a.sendOk)] + log;
      ok := connectionState.Opened?;
      if ok {
        lastFrameSentTime := now;
      }
    }

    method Close(withError: bool, a: Answers) returns (log: seq<Happening>)
      modifies this`connectionState, this`isUnderlyingIoOpen
      ensures CloseCalled(old(View()), withError, a) == Out(View(), log)
    {
      if withError {
        log := CloseConnectionWithError(a);
      } else {
        var sent;
        sent, log := SendCloseFrame(a);
        connectionState := End;
      }
      log := log + [IoClosed];
      isUnderlyingIoOpen := true;
    }

    method HandleDeadlines(now: nat, a: Answers) returns (deadline: nat, log: seq<Happening>)
      modifies this`connectionState, this`lastFrameSentTime
      ensures ConnectionSpec.HandleDeadlines(old(View()), now, a) == Due(deadline, Out(View(), log))
    {
      hide CloseWithError;
      var localDeadline, remoteDeadline := NEVER, NEVER;
      log := [];
      if idleTimeoutSpecified && idleTimeout != 0 {
        var sinceReceived := Elapsed(now, lastFrameReceivedTime);
        if sinceReceived < idleTimeout {
          localDeadline := idleTimeout - sinceReceived;
        } else {
          localDeadline := 0;
          log := CloseConnectionWithError(a);
        }
      }
      if localDeadline != 0 && remoteIdleTimeout != 0 {
        var sinceSent := Elapsed(now, lastFrameSentTime);
        if sinceSent < remoteIdleTimeoutSendFrameMillisecond {
          remoteDeadline := remoteIdleTimeoutSendFrameMillisecond - sinceSent;
        } else if !a.encodeOk {
          log := CloseConnectionWithError(a);
        } else {
          var sent := BytesEncoded(a);
          log := [EmptyFrameHanded(a.sendOk)] + sent;
          lastFrameSentTime := now;
          remoteDeadline := remoteIdleTimeoutSendFrameMillisecond;
        }
      }
      deadline := if localDeadline > remoteDeadline then remoteDeadline else localDeadline;
    }

    method SetMaxFrameSize(size: nat) returns (ok: bool)
      modifies this`maxFrameSize
      ensures View() == ConnectionSpec.SetMaxFrameSize(old(View()), size)
      ensures ok <==> size >= MIN_MAX_FRAME_SIZE && connectionState.Start?
    {
      ok := size >= MIN_MAX_FRAME_SIZE && connectionState.Start?;
      if ok {
        maxFrameSize := size;
      }
    }

    method SetChannelMax(limit: nat) returns (ok: bool)
      modifies this`channelMax
      ensures View() == ConnectionSpec.SetChannelMax(old(View()), limit)
      ensures ok <==> connectionState.Start?
    {
      ok := connectionState.Start?;
      if ok {
        channelMax := limit;
      }
    }

    method SetRemoteIdleTimeoutEmptyFrameSendRatio(ratio: real) returns (ok: bool)
      modifies this`idleTimeoutEmptyFrameSendRatio
      ensures View() == SetRatio(old(View()), ratio)
      ensures ok <==> 0.0 < ratio <= 1.0
    {
      ok := !(ratio <= 0.0 || ratio > 1.0);
      if ok {
        idleTimeoutEmptyFrameSendRatio := ratio;
      }
    }
  }
}
