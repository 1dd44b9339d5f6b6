/** Idle timeouts (AMQP 1.0 Part 2, section 2.4.5) over whole runs of calls that keep the deadlines they are given. */
module IdleDeadlines {
  import opened Options
  import opened ConnectionSpec

  const TICKS: nat := 0x1_0000_0000_0000_0000

  /** The tick at which an event happens, where the connection looks at the clock. */
  function TickOf(i: Input): Option<nat> {
    match i
    case DeadlinesHandled(now, _) => Some(now)
    case FrameEncoded(now, _) => Some(now)
    case FrameReceived(_, _, now, _) => Some(now)
    case EmptyFrameReceived(now) => Some(now)
    case _ => None
  }

  /** The clock after an event; events that do not look at it leave it. */
  function Clock(clock: nat, i: Input): nat {
    if TickOf(i).Some? then TickOf(i).value else clock
  }

  /** The tick by which `connection_handle_deadlines` must be called next. */
  function NextDue(c: ConnectionState, due: nat, i: Input): nat {
    if i.DeadlinesHandled? then i.now + HandleDeadlines(c, i.now, i.a).deadline else due
  }

  /** The peer's OPEN is looked at, which can give the connection another interval. */
  predicate TakesOpen(c: ConnectionState, i: Input) {
    i.FrameReceived? && i.p.Open? && (c.state.OpenSent? || c.state.HdrExch?)
  }

  /**
   Any events. Ticks go up, nothing that looks at the clock happens after a deadline that was not met by a call, and
   empty frames can be encoded. No further OPEN is looked at: past the handshake that is always so (`NoSecondOpen`).
   */
  predicate OnTime(c: ConnectionState, clock: nat, due: nat, inputs: seq<Input>)
    decreases |inputs|
  {
    inputs == [] ||
    (var i := inputs[0]; var tick := Clock(clock, i);
     && !TakesOpen(c, i) && (i.DeadlinesHandled? ==> i.a.encodeOk)
     && clock <= tick <= due && tick < TICKS
     && OnTime(OnInput(c, i).state, tick, NextDue(c, due, i), inputs[1..]))
  }

  /** A frame for a session that the io took, or an empty frame that the io was given. */
  predicate HandsFrame(log: seq<Happening>) {
    exists k :: 0 <= k < |log| && (log[k] == FrameHanded(true) || log[k].EmptyFrameHanded?)
  }

  /** The ticks at which the run hands frames to the io, and then the tick at which it ends. */
  function FrameTicks(c: ConnectionState, clock: nat, inputs: seq<Input>): seq<nat>
    decreases |inputs|
  {
    if inputs == [] then [clock]
    else
      var o, tick := OnInput(c, inputs[0]), Clock(clock, inputs[0]);
      (if HandsFrame(o.log) then [tick] else []) + FrameTicks(o.state, tick, inputs[1..])
  }

  /** Never longer than `bound` from one to the next. */
  predicate GapsWithin(from: nat, ticks: seq<nat>, bound: nat)
    decreases |ticks|
  {
    ticks == [] || (from <= ticks[0] <= from + bound && GapsWithin(ticks[0], ticks[1..], bound))
  }

  /** `lastSent` is the tick of the last event that handed a frame to the io: no other event moves it. */
  lemma LastSentIsLogged(c: ConnectionState, i: Input)
    ensures var o := OnInput(c, i);
      && (HandsFrame(o.log) ==> TickOf(i).Some?)
      && o.state.lastSent == if HandsFrame(o.log) then TickOf(i).value else c.lastSent
  {
    hide OnFrame, OnOctet, OnIoOpenComplete, HandleDeadlines, CloseCalled;
    match i
    case FrameReceived(_, _, _, _) => FrameLog(c, i);
    case OctetReceived(_, _, _) => OctetLog(c, i);
    case IoOpenComplete(_, _) => OctetLog(c, i);
    case DeadlinesHandled(now, a) => CallLog(c, now, a);
    case CloseRequested(_, _) => CloseLogged(c, i);
    case OpenCalled(_) =>
    case IoFailed =>
    case EmptyFrameReceived(_) =>
    case FrameEncoded(now, a) => EncodeLog(c, now, a);
    case MaxFrameSizeSet(_) =>
    case ChannelMaxSet(_) =>
    case RatioSet(_) =>
  }

  predicate Quiet(c: ConnectionState, o: Out) {
    o.state.lastSent == c.lastSent && forall k :: 0 <= k < |o.log| ==> !o.log[k].FrameHanded? && !o.log[k].EmptyFrameHanded?
  }

  lemma FrameLog(c: ConnectionState, i: Input)
    requires i.FrameReceived?
    ensures Quiet(c, OnInput(c, i))
  {
    hide AcceptOpen, CloseLog;
    QuietClose(c.(lastReceived := i.now), i.a);
    if i.p.Open? {
      var c1 := c.(lastReceived := i.now);
      AcceptLog(c1, i.channel, i.p.fields, i.a);
      AcceptLog(CloseWithError(c1, i.a).state, i.channel, i.p.fields, i.a);
    }
  }

  lemma QuietClose(c: ConnectionState, a: Answers)
    ensures forall k :: 0 <= k < |CloseLog(a)| ==> CloseLog(a)[k].CloseHanded? || CloseLog(a)[k].IoClosed?
  {
  }

  lemma AcceptLog(c: ConnectionState, channel: nat, fields: Option<OpenFields>, a: Answers)
    ensures Quiet(c, AcceptOpen(c, channel, fields, a))
  {
    hide SendInterval;
  }

  lemma OctetLog(c: ConnectionState, i: Input)
    requires i.OctetReceived? || i.IoOpenComplete?
    ensures Quiet(c, OnInput(c, i))
  {
  }

  lemma CloseLogged(c: ConnectionState, i: Input)
    requires i.CloseRequested?
    ensures Quiet(c, OnInput(c, i))
  {
  }

  lemma EncodeLog(c: ConnectionState, now: nat, a: Answers)
    ensures var o := OnInput(c, FrameEncoded(now, a));
      HandsFrame(o.log) <==> o.log == [FrameHanded(true)]
    ensures var o := OnInput(c, FrameEncoded(now, a));
      o.state.lastSent == if HandsFrame(o.log) then now else c.lastSent
  {
    if c.state.Opened? && a.encodeOk && a.sendOk {
      assert EncodeFrame(c, now, a).out.log[0] == FrameHanded(true);
    }
  }

  lemma CallLog(c: ConnectionState, now: nat, a: Answers)
    ensures var o := HandleDeadlines(c, now, a).out;
      o.state.lastSent == if HandsFrame(o.log) then now else c.lastSent
  {
    hide Elapsed, Idle;
    var o := HandleDeadlines(c, now, a).out;
    if o.log != [] && o.log[0].EmptyFrameHanded? {
      assert HandsFrame(o.log);
    }
  }

  /** `lastReceived` is the tick of the last frame the peer sent, empty or not. */
  lemma LastReceivedIsLastFrame(c: ConnectionState, i: Input)
    ensures OnInput(c, i).state.lastReceived == if i.FrameReceived? || i.EmptyFrameReceived? then TickOf(i).value else c.lastReceived
  {
    hide AcceptOpen, CloseLog, Elapsed, Idle;
    if i.FrameReceived? && i.p.Open? {
      var c1 := c.(lastReceived := i.now);
      AcceptedReceipt(c1, i.channel, i.p.fields, i.a);
      AcceptedReceipt(CloseWithError(c1, i.a).state, i.channel, i.p.fields, i.a);
    }
  }

  lemma AcceptedReceipt(c: ConnectionState, channel: nat, fields: Option<OpenFields>, a: Answers)
    ensures AcceptOpen(c, channel, fields, a).state.lastReceived == c.lastReceived
  {
    hide SendInterval;
  }

  /**
   What a call does while ticks have not wrapped: it closes when nothing was received for the local timeout; otherwise,
   when the send interval is over, it hands exactly one empty frame to the io; and otherwise it does nothing.
   */
  lemma CallOutcome(c: ConnectionState, now: nat, a: Answers)
    requires c.lastSent <= now < TICKS && c.lastReceived <= now
    ensures var h := HandleDeadlines(c, now, a);
      var idle := c.idleTimeout.Some? && c.idleTimeout.value != 0 && now >= c.lastReceived + c.idleTimeout.value;
      var over := c.remoteIdleTimeout != 0 && now >= c.lastSent + c.sendFrameMs;
      if idle || (over && !a.encodeOk) then
        && h.out.log == (if a.encodeOk then [CloseHanded(a.sendOk)] else []) + (if a.encodeOk && a.sendOk then [] else [IoClosed])
        && h.out.state == c.(state := if a.encodeOk then Discarding else End)
        && (idle ==> h.deadline == 0)
      else if over then
        && h.out.log == [EmptyFrameHanded(a.sendOk)] + (if a.sendOk then [] else [IoClosed])
        && h.out.state == c.(lastSent := now, state := if a.sendOk then c.state else End)
      else h.out == Out(c, [])
  {
    hide Elapsed;
    ElapsedIs(now, c.lastSent);
    ElapsedIs(now, c.lastReceived);
  }

  /** The tick at which nothing was received, or sent, for too long; `none` when there is no such timeout. */
  function ReceiveEnd(c: ConnectionState, none: nat): nat {
    if c.idleTimeout.Some? && c.idleTimeout.value != 0 then c.lastReceived + c.idleTimeout.value else none
  }

  function SendEnd(c: ConnectionState, none: nat): nat {
    if c.remoteIdleTimeout != 0 then c.lastSent + c.sendFrameMs else none
  }

  /** A call that does not close wants the next one when the first of the two timeouts ends, no earlier and no later. */
  lemma DeadlineIsFirstEnd(c: ConnectionState, now: nat, a: Answers)
    requires c.lastSent <= now < TICKS && c.lastReceived <= now && a.encodeOk
    requires now < ReceiveEnd(c, now + 1)
    ensures var h := HandleDeadlines(c, now, a); var c' := h.out.state; var never := now + 0xFFFF_FFFF_FFFF_FFFF;
      var r, s := ReceiveEnd(c', never), SendEnd(c', never);
      now + h.deadline == if r < s then r else s
  {
    hide Elapsed;
    ElapsedIs(now, c.lastSent);
    ElapsedIs(now, c.lastReceived);
  }

  /** A call that finds the connection idle finds it at the very tick the local timeout ends. */
  predicate ClosesOnTime(c: ConnectionState, inputs: seq<Input>)
    decreases |inputs|
  {
    inputs == [] ||
    (var i := inputs[0];
     (i.DeadlinesHandled? ==> (Idle(c, i.now) <==> c.idleTimeout.Some? && c.idleTimeout.value != 0 && i.now == c.lastReceived + c.idleTimeout.value))
     && ClosesOnTime(OnInput(c, i).state, inputs[1..]))
  }

  /** The deadline in force is before both timeouts end. */
  predicate Waiting(c: ConnectionState, clock: nat, due: nat) {
    && c.remoteIdleTimeout != 0
    && c.lastSent <= clock < TICKS && c.lastReceived <= clock
    && clock <= due <= c.lastSent + c.sendFrameMs
    && (c.idleTimeout.Some? && c.idleTimeout.value != 0 ==> due <= c.lastReceived + c.idleTimeout.value)
  }

  lemma ElapsedIs(now: nat, since: nat)
    requires since <= now < TICKS
    ensures Elapsed(now, since) == now - since
  {
  }

  lemma CallKeeps(c: ConnectionState, clock: nat, due: nat, i: Input)
    requires i.DeadlinesHandled? && i.a.encodeOk && clock <= i.now < TICKS && i.now < due + 1
    requires Waiting(c, clock, due)
    ensures var c' := OnInput(c, i).state; Waiting(c', i.now, NextDue(c, due, i)) && c'.sendFrameMs == c.sendFrameMs
    ensures var c' := OnInput(c, i).state; c.lastSent <= c'.lastSent <= c.lastSent + c.sendFrameMs
    ensures Idle(c, i.now) <==> c.idleTimeout.Some? && c.idleTimeout.value != 0 && i.now == c.lastReceived + c.idleTimeout.value
  {
    ElapsedIs(i.now, c.lastSent);
    ElapsedIs(i.now, c.lastReceived);
  }

  lemma FrameKeeps(c: ConnectionState, clock: nat, due: nat, i: Input)
    requires i.FrameReceived? && !TakesOpen(c, i) && clock <= i.now < TICKS && i.now <= due && Waiting(c, clock, due)
    ensures var c' := OnInput(c, i).state; Waiting(c', i.now, due) && c'.sendFrameMs == c.sendFrameMs && c'.lastSent == c.lastSent
  {
    hide AcceptOpen, Elapsed;
  }

  lemma OctetKeeps(c: ConnectionState, clock: nat, due: nat, i: Input)
    requires (i.OctetReceived? || i.IoOpenComplete?) && Waiting(c, clock, due)
    ensures var c' := OnInput(c, i).state; Waiting(c', clock, due) && c'.sendFrameMs == c.sendFrameMs && c'.lastSent == c.lastSent
  {
    hide Elapsed;
  }

  lemma OtherKeeps(c: ConnectionState, clock: nat, due: nat, i: Input)
    requires !i.DeadlinesHandled? && !TakesOpen(c, i) && Waiting(c, clock, due)
    requires clock <= Clock(clock, i) <= due && Clock(clock, i) < TICKS
    ensures var c' := OnInput(c, i).state; Waiting(c', Clock(clock, i), due) && c'.sendFrameMs == c.sendFrameMs
    ensures var c' := OnInput(c, i).state; c.lastSent <= c'.lastSent <= c.lastSent + c.sendFrameMs
  {
    hide OnFrame, OnOctet, OnIoOpenComplete, Elapsed;
    if i.FrameReceived? {
      FrameKeeps(c, clock, due, i);
    } else if i.OctetReceived? || i.IoOpenComplete? {
      OctetKeeps(c, clock, due, i);
    }
  }

  lemma {:induction false} DeadlinesKept(c: ConnectionState, clock: nat, due: nat, inputs: seq<Input>)
    requires Waiting(c, clock, due) && OnTime(c, clock, due, inputs)
    ensures GapsWithin(c.lastSent, FrameTicks(c, clock, inputs), c.sendFrameMs) && ClosesOnTime(c, inputs)
    decreases |inputs|
  {
    hide OnInput, Idle, HandleDeadlines, HandsFrame;
    if inputs != [] {
      var i := inputs[0];
      LastSentIsLogged(c, i);
      if i.DeadlinesHandled? {
        CallKeeps(c, clock, due, i);
      } else {
        OtherKeeps(c, clock, due, i);
      }
      var c', tick := OnInput(c, i).state, Clock(clock, i);
      var ticks := FrameTicks(c', tick, inputs[1..]);
      DeadlinesKept(c', tick, NextDue(c, due, i), inputs[1..]);
      assert ([tick] + ticks)[1..] == ticks && [] + ticks == ticks;
    }
  }

  /** A first call, however late, puts a deadline in force. */
  lemma FirstCall(c: ConnectionState, i: Input)
    requires i.DeadlinesHandled? && i.a.encodeOk && c.remoteIdleTimeout != 0
    requires c.lastSent <= i.now < TICKS && c.lastReceived <= i.now && !Idle(c, i.now)
    ensures var c' := OnInput(c, i).state;
      Waiting(c', i.now, i.now + HandleDeadlines(c, i.now, i.a).deadline) && c'.sendFrameMs == c.sendFrameMs
  {
    ElapsedIs(i.now, c.lastSent);
    ElapsedIs(i.now, c.lastReceived);
  }

  /**
   If each call comes by the deadline the one before returned, then whatever else happens no two frames handed to the io
   one after the other are further apart than the send interval, nor is the last one from the end of the run, and the
   local timeout closes at its tick, not before or after.
   */
  lemma DeadlinesSuffice(c: ConnectionState, first: Input, inputs: seq<Input>)
    requires first.DeadlinesHandled? && first.a.encodeOk && c.remoteIdleTimeout != 0
    requires c.lastSent <= first.now < TICKS && c.lastReceived <= first.now && !Idle(c, first.now)
    requires OnTime(OnInput(c, first).state, first.now, first.now + HandleDeadlines(c, first.now, first.a).deadline, inputs)
    ensures var c' := OnInput(c, first).state;
      GapsWithin(c'.lastSent, FrameTicks(c', first.now, inputs), c.sendFrameMs) && ClosesOnTime(c', inputs)
  {
    FirstCall(c, first);
    DeadlinesKept(OnInput(c, first).state, first.now, first.now + HandleDeadlines(c, first.now, first.a).deadline, inputs);
  }

  // ---------------------------------------------------------------- the OPEN is looked at once

  /** The handshake is over, one way or the other. */
  predicate PastOpen(c: ConnectionState) {
    c.ioOpen && !c.state.Start? && !c.state.HdrSent? && !c.state.HdrExch? && !c.state.OpenSent?
  }

  predicate NeverTakesOpen(c: ConnectionState, inputs: seq<Input>)
    decreases |inputs|
  {
    inputs == [] || (!TakesOpen(c, inputs[0]) && NeverTakesOpen(OnInput(c, inputs[0]).state, inputs[1..]))
  }

  lemma PastOpenStays(c: ConnectionState, i: Input)
    requires PastOpen(c)
    ensures PastOpen(OnInput(c, i).state)
  {
    hide Elapsed, SendInterval;
  }

  /** Once a connection was OPENED, or its handshake failed, no OPEN is looked at again, whatever happens. */
  lemma {:induction false} NoSecondOpen(c: ConnectionState, inputs: seq<Input>)
    requires PastOpen(c)
    ensures NeverTakesOpen(c, inputs)
    decreases |inputs|
  {
    hide OnInput;
    if inputs != [] {
      PastOpenStays(c, inputs[0]);
      NoSecondOpen(OnInput(c, inputs[0]).state, inputs[1..]);
    }
  }

  // ---------------------------------------------------------------- the send interval

  lemma IntervalWithinTimeout(ratio: real, timeout: nat)
    requires 0.0 < ratio <= 1.0
    ensures SendInterval(ratio, timeout) <= timeout
  {
    Scaled(ratio, timeout as real);
    FloorBelow(ratio * (timeout as real), timeout);
  }

  lemma Product(x: real, y: real)
    requires x >= 0.0 && y >= 0.0
    ensures x * y >= 0.0
  {
  }

  lemma Scaled(ratio: real, t: real)
    requires ratio <= 1.0 && t >= 0.0
    ensures ratio * t <= t
  {
    Product(1.0 - ratio, t);
    assert (1.0 - ratio) * t == t - ratio * t;
  }

  lemma FloorBelow(x: real, n: nat)
    requires x <= n as real
    ensures x.Floor <= n
  {
  }

  predicate Modest(c: ConnectionState) {
    0.0 < c.ratio <= 1.0 && c.sendFrameMs <= c.remoteIdleTimeout
  }

  lemma InputModest(c: ConnectionState, i: Input)
    requires Modest(c)
    ensures Modest(OnInput(c, i).state)
  {
    hide SendInterval;
    if i.FrameReceived? && i.p.Open? && i.p.fields.Some? && i.p.fields.value.idleTimeout.Some? {
      IntervalWithinTimeout(c.ratio, i.p.fields.value.idleTimeout.value);
    }
  }

  /** In every run the send interval is at most the peer's timeout: frames that close together never let it pass. */
  lemma {:induction false} IntervalNeverExceedsTimeout(c: ConnectionState, inputs: seq<Input>)
    requires Modest(c)
    ensures Modest(Run(c, inputs).state)
    decreases |inputs|
  {
    hide Modest, OnInput;
    if inputs != [] {
      InputModest(c, inputs[0]);
      IntervalNeverExceedsTimeout(OnInput(c, inputs[0]).state, inputs[1..]);
    }
  }
}
