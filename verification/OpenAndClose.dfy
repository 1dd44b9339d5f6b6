/** What decides whether a connection gets OPENED, and what a CLOSE, ours or the peer's, puts an end to. */
module OpenAndClose {
  import opened Octets
  import opened Options
  import opened ConnectionSpec
  import opened IdleDeadlines

  // ---------------------------------------------------------------- verdicts

  /** Our OPEN goes out once the frame codec took our frame size and the OPEN could be encoded, and it counts as sent even if it was not. */
  predicate SendsOpen(c: ConnectionState, before: seq<Happening>, o: Out, a: Answers) {
    if a.sizeOk && a.encodeOk then
      && o.state == c.(codecMaxFrameSize := c.maxFrameSize, state := OpenSent)
      && o.log == before + [OpenHanded(c.maxFrameSize, a.sendOk)] + (if a.sendOk then [] else [IoClosed])
    else o.state == c.(codecMaxFrameSize := if a.sizeOk then c.maxFrameSize else c.codecMaxFrameSize, state := End) && o.log == before + [IoClosed]
  }

  /** An octet of the header is taken when it is the one in its place; the eighth makes our OPEN go out. */
  lemma HeaderVerdict(c: ConnectionState, b: Byte, codecOk: bool, a: Answers)
    requires c.ioOpen && (c.state.Start? || c.state.HdrSent?) && c.headerBytesReceived < 8
    ensures var o := OnInput(c, OctetReceived(b, codecOk, a)); var n := c.headerBytesReceived;
      if b != [0x41, 0x4D, 0x51, 0x50, 0x00, 0x01, 0x00, 0x00][n] then o == Out(c.(state := End), [IoClosed])
      else if n < 7 then o == Out(c.(headerBytesReceived := n + 1), [HeaderOctet(b)])
      else SendsOpen(c.(headerBytesReceived := 8), [HeaderOctet(b)], o, a)
  {
  }

  /**
   When the io of a new connection is open the header goes out, and it waits for the peer's only if the io took it.
   With both headers exchanged our OPEN goes out instead.
   */
  lemma IoOpenVerdict(c: ConnectionState, ok: bool, a: Answers)
    ensures var o := OnInput(c, IoOpenComplete(ok, a));
      if !ok then o == Out(c.(state := End), [])
      else if c.state.Start? then
        if a.sendOk then o == Out(c.(state := HdrSent), [HeaderHanded(true)])
        else o == Out(c.(state := End), [HeaderHanded(false), IoClosed])
      else if c.state.HdrExch? then SendsOpen(c, [], o, a)
      else o == Out(c, [])
  {
  }

  /** The CLOSE that answers something wrong; when it cannot be encoded, or the io does not take it, the io is closed. */
  predicate Closes(o: Out, a: Answers) {
    && (o.state.state.Discarding? <==> a.encodeOk) && (o.state.state.End? <==> !a.encodeOk)
    && o.log == (if a.encodeOk then [CloseHanded(a.sendOk)] else []) + (if a.encodeOk && a.sendOk then [] else [IoClosed])
  }

  /**
   After our OPEN went out, the peer's makes the connection OPENED exactly when it is on channel 0, its fields can be
   read and its frame size is at least 512. Anything else is answered with a CLOSE.
   */
  lemma OpenVerdict(c: ConnectionState, channel: nat, fields: Option<OpenFields>, now: nat, a: Answers)
    requires c.ioOpen && c.state.OpenSent?
    ensures var o := OnInput(c, FrameReceived(channel, Open(fields), now, a));
      if channel == 0 && fields.Some? && fields.value.maxFrameSize.Some? && fields.value.maxFrameSize.value >= 512 then
        && o.state.state.Opened? && o.log == [PeerOpen(0, fields.value.maxFrameSize.value)]
        && o.state.remoteMaxFrameSize == fields.value.maxFrameSize.value && o.state.ioOpen
      else Closes(o, a)
  {
    hide SendOpen, SendInterval;
  }

  /** With both headers exchanged and no OPEN sent yet, the peer's is answered with ours. */
  lemma ListenerOpenVerdict(c: ConnectionState, size: nat, timeout: Option<nat>, now: nat, a: Answers)
    requires c.ioOpen && c.state.HdrExch? && size >= 512
    ensures var o := OnInput(c, FrameReceived(0, Open(Some(OpenFields(timeout, Some(size)))), now, a));
      if a.sizeOk && a.encodeOk then
        && o.state.state.Opened? && o.state.remoteMaxFrameSize == size && o.state.codecMaxFrameSize == c.maxFrameSize
        && o.log == [PeerOpen(0, size), OpenHanded(c.maxFrameSize, a.sendOk)] + (if a.sendOk then [] else [IoClosed])
      else o.state.state.End? && o.log == [PeerOpen(0, size), IoClosed]
  {
    hide SendInterval;
  }

  /** The peer's idle timeout is kept, and the interval is the part of it the ratio says, cut to whole milliseconds. */
  lemma TimeoutTaken(c: ConnectionState, fields: OpenFields, now: nat, a: Answers)
    requires c.ioOpen && c.state.OpenSent? && fields.idleTimeout.Some? && c.ratio > 0.0
    ensures var c' := OnInput(c, FrameReceived(0, Open(Some(fields)), now, a)).state; var wanted := c.ratio * (fields.idleTimeout.value as real);
      c'.remoteIdleTimeout == fields.idleTimeout.value && (c'.sendFrameMs as real) <= wanted < (c'.sendFrameMs as real) + 1.0
  {
    hide SendOpen, CloseLog;
    Positive(c.ratio, fields.idleTimeout.value as real);
  }

  lemma Positive(x: real, y: real)
    requires x > 0.0 && y >= 0.0
    ensures x * y >= 0.0
  {
  }

  /** A second OPEN is answered with a CLOSE, whatever it says. */
  lemma SecondOpenVerdict(c: ConnectionState, channel: nat, fields: Option<OpenFields>, now: nat, a: Answers)
    requires c.ioOpen && c.state.Opened?
    ensures Closes(OnInput(c, FrameReceived(channel, Open(fields), now, a)), a)
  {
    hide AcceptOpen;
  }

  /**
   The peer's CLOSE is answered with ours and ends the connection, when its channel is within the limit and it can be
   read; it is an error otherwise. After our own CLOSE it only closes the io.
   */
  lemma CloseVerdict(c: ConnectionState, channel: nat, wellFormed: bool, now: nat, a: Answers)
    requires c.ioOpen && (c.state.Opened? || c.state.OpenSent? || c.state.Discarding?)
    ensures var o := OnInput(c, FrameReceived(channel, Close(wellFormed), now, a));
      if c.state.Discarding? then o == Out(c.(lastReceived := now), [IoClosed])
      else if channel <= c.channelMax && wellFormed then
        && o.state == c.(lastReceived := now, state := End)
        && o.log == (if a.encodeOk then [CloseHanded(a.sendOk)] + (if a.sendOk then [] else [IoClosed]) else []) + [IoClosed]
      else Closes(o, a)
  {
  }

  /** A connection closed by its user hands over its CLOSE, if it can, and closes the io; an error it waits to have answered. */
  lemma UserCloseVerdict(c: ConnectionState, withError: bool, a: Answers)
    ensures var o := OnInput(c, CloseRequested(withError, a));
      && o.state == c.(ioOpen := true, state := if withError && a.encodeOk then Discarding else End)
      && (CloseHanded(a.sendOk) in o.log <==> a.encodeOk) && o.log[|o.log| - 1] == IoClosed
      && forall k :: 0 <= k < |o.log| ==> o.log[k] == CloseHanded(a.sendOk) || o.log[k] == IoClosed
  {
    var o := OnInput(c, CloseRequested(withError, a));
    if a.encodeOk {
      assert o.log[0] == CloseHanded(a.sendOk);
    }
  }

  /** A frame of a session goes to the io exactly in OPENED and when it can be encoded; a failed send ends the connection. */
  lemma SessionFrameVerdict(c: ConnectionState, now: nat, a: Answers)
    ensures var o := OnInput(c, FrameEncoded(now, a));
      if c.state.Opened? && a.encodeOk then
        o.log == (if a.sendOk then [FrameHanded(true)] else [FrameHanded(false), IoClosed]) &&
        (o.state.state.End? <==> !a.sendOk)
      else o == Out(c, [])
  {
  }

  /** Frames that come before both headers and OPENs, or after the end, close the io; others without a performative are errors. */
  lemma FrameVerdict(c: ConnectionState, channel: nat, now: nat, a: Answers)
    requires c.ioOpen
    ensures var early := c.state.Start? || c.state.HdrSent? || c.state.OpenPipe? || c.state.OcPipe? || c.state.CloseRcvd? || c.state.End?;
      && (early ==> forall p :: OnInput(c, FrameReceived(channel, p, now, a)) == Out(c.(lastReceived := now), [IoClosed]))
      && (!early ==> Closes(OnInput(c, FrameReceived(channel, Missing, now, a)), a))
      && (!early ==> OnInput(c, FrameReceived(channel, Other, now, a)) == Out(c.(lastReceived := now), []))
  {
    hide OnOpen, OnClose;
  }

  /** Octets after the header that the frame codec does not take are answered with a CLOSE, while frames are expected. */
  lemma CodecVerdict(c: ConnectionState, b: Byte, codecOk: bool, a: Answers)
    requires c.ioOpen && !c.state.Start? && !c.state.HdrSent?
    ensures var o := OnInput(c, OctetReceived(b, codecOk, a));
      if !codecOk && (c.state.HdrRcvd? || c.state.HdrExch? || c.state.OpenRcvd? || c.state.OpenSent? || c.state.Opened?) then Closes(o, a)
      else o == Out(c, [])
  {
  }

  /** An error of the io closes it, unless the connection has ended. */
  lemma IoErrorVerdict(c: ConnectionState)
    ensures OnInput(c, IoFailed) == if c.state.End? then Out(c, []) else Out(c.(state := Broken), [IoClosed])
  {
  }

  /** Sizes from 512 and channel limits are taken at START alone, ratios above 0 and up to 1 always. */
  lemma SettingVerdict(c: ConnectionState, size: nat, limit: nat, ratio: real)
    ensures OnInput(c, MaxFrameSizeSet(size)) == Out(if c.state.Start? && size >= 512 then c.(maxFrameSize := size) else c, [])
    ensures OnInput(c, ChannelMaxSet(limit)) == Out(if c.state.Start? then c.(channelMax := limit) else c, [])
    ensures OnInput(c, RatioSet(ratio)) == Out(if ratio > 0.0 && ratio <= 1.0 then c.(ratio := ratio) else c, [])
  {
  }

  // ---------------------------------------------------------------- limits nobody set

  /** Nobody sets a limit or a ratio. */
  predicate NothingSet(inputs: seq<Input>) {
    forall k :: 0 <= k < |inputs| ==> !inputs[k].MaxFrameSizeSet? && !inputs[k].ChannelMaxSet? && !inputs[k].RatioSet?
  }

  predicate SameLimits(c: ConnectionState, c': ConnectionState) {
    c'.maxFrameSize == c.maxFrameSize && c'.channelMax == c.channelMax && c'.ratio == c.ratio && c'.ioOpen == c.ioOpen
  }

  /** A peer's OPEN changes no limit, and is not both accepted and answered with a CLOSE. */
  lemma AcceptShape(c: ConnectionState, channel: nat, fields: Option<OpenFields>, a: Answers)
    ensures var o := AcceptOpen(c, channel, fields, a);
      && SameLimits(c, o.state)
      && forall k :: 0 <= k < |o.log| && o.log[k].CloseHanded? ==> o.state.state.Discarding? && forall j :: 0 <= j < |o.log| ==> !Alive(o.log[j])
  {
    hide SendInterval;
  }

  lemma CloseShape(c: ConnectionState, a: Answers)
    ensures var o := CloseWithError(c, a);
      && SameLimits(c, o.state) && (o.state.state.Discarding? || o.state.state.End?)
      && forall j :: 0 <= j < |o.log| ==> !Alive(o.log[j])
    ensures forall j :: 0 <= j < |CloseLog(a)| ==> !Alive(CloseLog(a)[j])
  {
  }

  lemma OpenShape(c: ConnectionState, channel: nat, fields: Option<OpenFields>, a: Answers)
    ensures var o := OnOpen(c, channel, fields, a);
      && SameLimits(c, o.state)
      && forall k :: 0 <= k < |o.log| && o.log[k].CloseHanded? ==>
           (o.state.state.Discarding? || o.state.state.End?) && forall j :: 0 <= j < |o.log| ==> !Alive(o.log[j])
  {
    hide AcceptOpen, CloseWithError, SameLimits, Alive;
    CloseShape(c, a);
    Unchanged(c);
    if channel == 0 {
      AcceptShape(c, channel, fields, a);
      NothingBefore(CloseWithError(c, a));
      NothingBefore(AcceptOpen(c, channel, fields, a));
    }
  }

  lemma NothingBefore(o: Out)
    ensures [] + o.log == o.log
  {
  }

  lemma Unchanged(c: ConnectionState)
    ensures SameLimits(c, c) && forall now :: SameLimits(c, c.(lastReceived := now))
  {
  }

  lemma FrameShape(c: ConnectionState, i: Input)
    requires i.FrameReceived?
    ensures var o := OnInput(c, i);
      && SameLimits(c, o.state)
      && forall k :: 0 <= k < |o.log| && o.log[k].CloseHanded? ==>
           (o.state.state.Discarding? || o.state.state.End?) && forall j :: 0 <= j < |o.log| ==> !Alive(o.log[j])
  {
    hide OnOpen, CloseWithError, CloseLog;
    var c1 := c.(lastReceived := i.now);
    CloseShape(c1, i.a);
    if i.p.Open? {
      OpenShape(c1, i.channel, i.p.fields, i.a);
    }
  }

  lemma LimitsStay(c: ConnectionState, i: Input)
    requires !i.MaxFrameSizeSet? && !i.ChannelMaxSet? && !i.RatioSet?
    ensures var c' := OnInput(c, i).state; c'.maxFrameSize == c.maxFrameSize && c'.channelMax == c.channelMax && c'.ratio == c.ratio
  {
    hide OnFrame, Elapsed, CloseLog;
    if i.FrameReceived? {
      FrameShape(c, i);
    }
  }

  lemma {:induction false} LimitsStayOverRuns(c: ConnectionState, inputs: seq<Input>)
    requires NothingSet(inputs)
    ensures var c' := Run(c, inputs).state; c'.maxFrameSize == c.maxFrameSize && c'.channelMax == c.channelMax && c'.ratio == c.ratio
    decreases |inputs|
  {
    hide OnInput;
    if inputs != [] {
      LimitsStay(c, inputs[0]);
      LimitsStayOverRuns(OnInput(c, inputs[0]).state, inputs[1..]);
    }
  }

  /** Unless somebody sets them, the frame size is all of 32 bits, the channel limit all of 16, and the ratio a half. */
  lemma DefaultLimits(now: nat, inputs: seq<Input>)
    requires NothingSet(inputs)
    ensures var c := Run(Created(now), inputs).state; c.maxFrameSize == 0xFFFF_FFFF && c.channelMax == 0xFFFF && c.ratio == 0.5
  {
    hide Run;
    LimitsStayOverRuns(Created(now), inputs);
  }

  // ---------------------------------------------------------------- nothing after a CLOSE

  /** A happening that only a connection that was not closed can have. */
  predicate Alive(h: Happening) {
    h.FrameHanded? || h.PeerOpen? || h.OpenHanded? || h.HeaderHanded? || h.HeaderOctet?
  }

  predicate Over(c: ConnectionState) {
    c.ioOpen && (c.state.Discarding? || c.state.End? || c.state.Broken?)
  }

  lemma OverStays(c: ConnectionState, i: Input)
    requires Over(c)
    ensures Over(OnInput(c, i).state) && forall k :: 0 <= k < |OnInput(c, i).log| ==> !Alive(OnInput(c, i).log[k])
  {
    hide AcceptOpen, Elapsed, CloseLog, CloseWithError;
    CloseShape(c, if i.DeadlinesHandled? || i.CloseRequested? || i.FrameReceived? || i.OctetReceived? then i.a else Answers(true, true, true));
    if i.FrameReceived? {
      CloseShape(c.(lastReceived := i.now), i.a);
    }
  }

  lemma {:induction false} OverForever(c: ConnectionState, inputs: seq<Input>)
    requires Over(c)
    ensures var r := Run(c, inputs); Over(r.state) && forall k :: 0 <= k < |r.log| ==> !Alive(r.log[k])
    decreases |inputs|
  {
    hide OnInput, Over, Alive;
    if inputs != [] {
      OverStays(c, inputs[0]);
      OverForever(OnInput(c, inputs[0]).state, inputs[1..]);
    }
  }

  lemma CloseIsOver(c: ConnectionState, i: Input, k: nat)
    requires c.ioOpen && k < |OnInput(c, i).log| && OnInput(c, i).log[k].CloseHanded?
    ensures Over(OnInput(c, i).state) && forall j :: k < j < |OnInput(c, i).log| ==> !Alive(OnInput(c, i).log[j])
  {
    hide OnFrame, Elapsed, CloseLog, CloseWithError;
    if i.FrameReceived? {
      FrameShape(c, i);
    } else if i.DeadlinesHandled? || i.CloseRequested? || i.OctetReceived? {
      CloseShape(c, i.a);
    }
  }

  lemma IoStaysOpen(c: ConnectionState, i: Input)
    requires c.ioOpen
    ensures OnInput(c, i).state.ioOpen
  {
    hide Elapsed, SendInterval;
  }

  predicate NoneAlive(log: seq<Happening>) {
    forall k :: 0 <= k < |log| ==> !Alive(log[k])
  }

  predicate ClosesLast(log: seq<Happening>) {
    forall j, k :: 0 <= j < k < |log| && log[j].CloseHanded? ==> !Alive(log[k])
  }

  lemma ClosesLastConcat(a: seq<Happening>, b: seq<Happening>)
    requires ClosesLast(a) && ClosesLast(b)
    requires NoneAlive(b) || forall j :: 0 <= j < |a| ==> !a[j].CloseHanded?
    ensures ClosesLast(a + b)
  {
    hide Alive;
    var log := a + b;
    forall j, k | 0 <= j < k < |log| && log[j].CloseHanded? ensures !Alive(log[k]) {
      if j >= |a| {
        assert log[j] == b[j - |a|] && log[k] == b[k - |a|];
      } else if k < |a| {
        assert log[j] == a[j] && log[k] == a[k];
      } else {
        assert log[j] == a[j] && log[k] == b[k - |a|];
      }
    }
  }

  /**
   From the time its io is open: once a connection handed over a CLOSE, no header, OPEN or frame of a session is handed
   to the io, and no OPEN of the peer is accepted, whatever happens.
   */
  lemma {:induction false} NothingAfterClose(c: ConnectionState, inputs: seq<Input>)
    requires c.ioOpen
    ensures ClosesLast(Run(c, inputs).log)
    decreases |inputs|
  {
    hide OnInput, Over, Alive;
    if inputs != [] {
      var o := OnInput(c, inputs[0]);
      IoStaysOpen(c, inputs[0]);
      NothingAfterClose(o.state, inputs[1..]);
      forall j | 0 <= j < |o.log| && o.log[j].CloseHanded?
        ensures Over(o.state) && forall k :: j < k < |o.log| ==> !Alive(o.log[k])
      {
        CloseIsOver(c, inputs[0], j);
      }
      if Over(o.state) {
        OverForever(o.state, inputs[1..]);
      }
      ClosesLastConcat(o.log, Run(o.state, inputs[1..]).log);
    }
  }

  predicate HandsEmptyFrame(log: seq<Happening>) {
    exists k :: 0 <= k < |log| && log[k].EmptyFrameHanded?
  }

  lemma OnlyCallsHandEmptyFrames(c: ConnectionState, i: Input)
    requires !i.DeadlinesHandled?
    ensures !HandsEmptyFrame(OnInput(c, i).log)
  {
    hide OnFrame, OnOctet, OnIoOpenComplete, CloseCalled;
    if i.FrameReceived? {
      FrameLog(c, i);
    } else if i.OctetReceived? || i.IoOpenComplete? {
      OctetLog(c, i);
    } else if i.CloseRequested? {
      CloseLogged(c, i);
    }
  }

  /**
   Empty frames do not stop: a connection that is over, also by its own CLOSE, hands one to the io exactly when the
   deadlines are handled, the peer's timeout asks for one, and the connection is not idle.
   */
  lemma EmptyFrameAfterClose(c: ConnectionState, i: Input)
    requires Over(c) && (i.DeadlinesHandled? ==> c.lastSent <= i.now < 0x1_0000_0000_0000_0000 && c.lastReceived <= i.now)
    ensures HandsEmptyFrame(OnInput(c, i).log) <==>
      && i.DeadlinesHandled? && i.a.encodeOk && c.remoteIdleTimeout != 0 && i.now >= c.lastSent + c.sendFrameMs
      && !(c.idleTimeout.Some? && c.idleTimeout.value != 0 && i.now >= c.lastReceived + c.idleTimeout.value)
  {
    hide OnInput, HandleDeadlines;
    if i.DeadlinesHandled? {
      CallIsDeadlines(c, i);
      CallOutcome(c, i.now, i.a);
      var log := HandleDeadlines(c, i.now, i.a).out.log;
      if log != [] && log[0].EmptyFrameHanded? {
        assert HandsEmptyFrame(log);
      }
    } else {
      OnlyCallsHandEmptyFrames(c, i);
    }
  }

  lemma CallIsDeadlines(c: ConnectionState, i: Input)
    requires i.DeadlinesHandled?
    ensures OnInput(c, i) == HandleDeadlines(c, i.now, i.a).out
  {
  }
}
