/** What has happened by the time a connection that was opened as a client is OPENED. */
module Handshake {
  import opened Octets
  import opened Options
  import opened ConnectionSpec

  predicate IsMilestone(h: Happening) {
    h.HeaderOctet? || h.OpenHanded? || h.PeerOpen? || h.FrameHanded?
  }

  function Milestones(log: seq<Happening>): seq<Happening> {
    if log == [] then [] else (if IsMilestone(log[0]) then [log[0]] else []) + Milestones(log[1..])
  }

  lemma {:induction false} MilestonesConcat(a: seq<Happening>, b: seq<Happening>)
    ensures Milestones(a + b) == Milestones(a) + Milestones(b)
    decreases |a|
  {
    if a == [] {
      assert a + b == b;
    } else {
      assert (a + b)[0] == a[0] && (a + b)[1..] == a[1..] + b;
      MilestonesConcat(a[1..], b);
    }
  }

  /** The 8 octets of the header, our OPEN, the peer's OPEN on channel 0, and only then frames of sessions. */
  predicate InOrder(ms: seq<Happening>) {
    && (forall k :: 0 <= k < |ms| && k < 8 ==> ms[k] == HeaderOctet([0x41, 0x4D, 0x51, 0x50, 0x00, 0x01, 0x00, 0x00][k]))
    && (|ms| > 8 ==> ms[8].OpenHanded?)
    && (|ms| > 9 ==> ms[9].PeerOpen? && ms[9].channel == 0 && ms[9].maxFrameSize >= 512)
    && (forall k :: 10 <= k < |ms| ==> ms[k].FrameHanded?)
  }

  predicate Invariant(c: ConnectionState, ms: seq<Happening>) {
    && InOrder(ms)
    && !c.state.HdrExch?
    && (c.state.Start? || c.state.HdrSent? ==> |ms| == c.headerBytesReceived < 8)
    && (!c.ioOpen ==> ms == [] && c.headerBytesReceived == 0)
    && (c.state.OpenSent? ==> |ms| == 9)
    && (c.state.Opened? ==> |ms| >= 10)
    && (c.state.OpenSent? || c.state.Opened? ==> c.ioOpen && ms[8].maxFrameSize == c.codecMaxFrameSize == c.maxFrameSize)
  }

  lemma QuietLog(log: seq<Happening>)
    requires forall k :: 0 <= k < |log| ==> !IsMilestone(log[k])
    ensures Milestones(log) == []
  {
  }

  lemma CloseQuiet(c: ConnectionState, a: Answers)
    ensures var o := CloseWithError(c, a);
      (o.state.state.Discarding? || o.state.state.End?) && o.state == c.(state := o.state.state) && Milestones(o.log) == []
    ensures Milestones(CloseLog(a)) == []
  {
    QuietLog(CloseWithError(c, a).log);
    QuietLog(CloseLog(a));
  }

  lemma OctetKeeps(c: ConnectionState, ms: seq<Happening>, b: Byte, codecOk: bool, a: Answers)
    requires Invariant(c, ms) && c.ioOpen
    ensures var o := OnOctet(c, b, codecOk, a); Invariant(o.state, ms + Milestones(o.log))
  {
    hide Milestones, CloseWithError;
    var o := OnOctet(c, b, codecOk, a);
    if c.state.Start? || c.state.HdrSent? {
      if b != AMQP_HEADER[c.headerBytesReceived] {
        QuietLog(o.log);
        assert ms + [] == ms;
      } else if c.headerBytesReceived < 7 {
        OneMilestone(HeaderOctet(b));
      } else {
        var s := SendOpen(c.(headerBytesReceived := 8, state := HdrExch), a);
        MilestonesConcat([HeaderOctet(b)], s.out.log);
        OneMilestone(HeaderOctet(b));
        OpenMilestones(c.(headerBytesReceived := 8, state := HdrExch), a);
        assert ms + ([HeaderOctet(b)] + Milestones(s.out.log)) == ms + [HeaderOctet(b)] + Milestones(s.out.log);
      }
    } else {
      CloseQuiet(c, a);
      NoMilestones();
      assert ms + [] == ms;
    }
  }

  lemma NoMilestones()
    ensures Milestones([]) == []
  {
  }

  lemma OneMilestone(h: Happening)
    ensures Milestones([h]) == if IsMilestone(h) then [h] else []
  {
    assert [h][1..] == [];
  }

  lemma OpenMilestones(c: ConnectionState, a: Answers)
    ensures var s := SendOpen(c, a);
      Milestones(s.out.log) == if s.ok then [OpenHanded(c.maxFrameSize, a.sendOk)] else []
  {
    var s := SendOpen(c, a);
    OneMilestone(OpenHanded(c.maxFrameSize, a.sendOk));
    OneMilestone(IoClosed);
    NoMilestones();
    if s.ok {
      var tail := if a.sendOk then [] else [IoClosed];
      MilestonesConcat([OpenHanded(c.maxFrameSize, a.sendOk)], tail);
    }
  }

  lemma AcceptKeeps(c: ConnectionState, ms: seq<Happening>, fields: Option<OpenFields>, a: Answers)
    requires Invariant(c, ms) && c.state.OpenSent?
    ensures var o := AcceptOpen(c, 0, fields, a); Invariant(o.state, ms + Milestones(o.log))
  {
    hide Milestones, CloseWithError, SendOpen;
    assert ms + [] == ms;
    if fields.Some? {
      var f := fields.value;
      var c1 := if f.idleTimeout.None? then c
                else c.(remoteIdleTimeout := f.idleTimeout.value, sendFrameMs := SendInterval(c.ratio, f.idleTimeout.value));
      CloseQuiet(c1, a);
      if f.maxFrameSize.Some? {
        CloseQuiet(c1.(remoteMaxFrameSize := f.maxFrameSize.value), a);
        OneMilestone(PeerOpen(0, f.maxFrameSize.value));
      }
    } else {
      CloseQuiet(c, a);
    }
  }

  lemma OpenKeeps(c: ConnectionState, ms: seq<Happening>, channel: nat, fields: Option<OpenFields>, a: Answers)
    requires Invariant(c, ms)
    ensures var o := OnOpen(c, channel, fields, a); Invariant(o.state, ms + Milestones(o.log))
  {
    hide Milestones, CloseWithError, AcceptOpen;
    CloseQuiet(c, a);
    NoMilestones();
    assert ms + [] == ms;
    if channel == 0 {
      if c.state.Opened? {
        assert [] + CloseWithError(c, a).log == CloseWithError(c, a).log;
      } else if c.state.OpenSent? {
        AcceptKeeps(c, ms, fields, a);
        var rest := AcceptOpen(c, channel, fields, a);
        assert [] + rest.log == rest.log;
      }
    }
  }

  lemma CloseKeeps(c: ConnectionState, ms: seq<Happening>, channel: nat, wellFormed: bool, a: Answers)
    requires Invariant(c, ms)
    ensures var o := OnClose(c, channel, wellFormed, a); Invariant(o.state, ms + Milestones(o.log))
  {
    hide Milestones, CloseWithError, CloseLog;
    CloseQuiet(c, a);
    MilestonesConcat(CloseLog(a), [IoClosed]);
    OneMilestone(IoClosed);
    assert Milestones([]) + [] == Milestones([]);
    assert ms + [] == ms;
  }

  lemma FrameKeeps(c: ConnectionState, ms: seq<Happening>, i: Input)
    requires Invariant(c, ms) && i.FrameReceived?
    ensures var o := OnInput(c, i); Invariant(o.state, ms + Milestones(o.log))
  {
    hide Milestones, CloseWithError, OnOpen, OnClose;
    var c1 := c.(lastReceived := i.now);
    NoMilestones();
    OneMilestone(IoClosed);
    CloseQuiet(c1, i.a);
    assert ms + [] == ms;
    match i.p
    case Missing =>
    case Open(fields) => OpenKeeps(c1, ms, i.channel, fields, i.a);
    case Close(wellFormed) => CloseKeeps(c1, ms, i.channel, wellFormed, i.a);
    case Other =>
  }

  lemma CallKeeps(c: ConnectionState, ms: seq<Happening>, i: Input)
    requires Invariant(c, ms) && (i.CloseRequested? || i.DeadlinesHandled? || i.FrameEncoded?)
    ensures var o := OnInput(c, i); Invariant(o.state, ms + Milestones(o.log))
  {
    hide Milestones, OnInput;
    if i.CloseRequested? {
      CloseCallKeeps(c, ms, i);
    } else if i.FrameEncoded? {
      EncodeKeeps(c, ms, i);
    } else {
      DeadlinesKeep(c, ms, i);
    }
  }

  lemma CloseCallKeeps(c: ConnectionState, ms: seq<Happening>, i: Input)
    requires Invariant(c, ms) && i.CloseRequested?
    ensures var o := OnInput(c, i); Invariant(o.state, ms + Milestones(o.log))
  {
    hide Milestones, CloseWithError, CloseLog, InOrder;
    CloseQuiet(c, i.a);
    OneMilestone(IoClosed);
    assert Milestones([]) + [] == Milestones([]) && ms + [] == ms;
    NoMilestones();
    MilestonesConcat(if i.withError then CloseWithError(c, i.a).log else CloseLog(i.a), [IoClosed]);
  }

  lemma EncodeKeeps(c: ConnectionState, ms: seq<Happening>, i: Input)
    requires Invariant(c, ms) && i.FrameEncoded?
    ensures var o := OnInput(c, i); Invariant(o.state, ms + Milestones(o.log))
  {
    hide Milestones;
    NoMilestones();
    FrameMilestones();
    assert ms + [] == ms;
  }

  lemma DeadlinesKeep(c: ConnectionState, ms: seq<Happening>, i: Input)
    requires Invariant(c, ms) && i.DeadlinesHandled?
    ensures var o := OnInput(c, i); Invariant(o.state, ms + Milestones(o.log))
  {
    hide Milestones, CloseWithError, InOrder, Elapsed;
    CloseQuiet(c, i.a);
    NoMilestones();
    QuietEmptyFrame(i.a);
    assert ms + [] == ms;
  }

  lemma FrameMilestones()
    ensures Milestones([FrameHanded(true)]) == [FrameHanded(true)]
    ensures Milestones([FrameHanded(false), IoClosed]) == [FrameHanded(false)]
  {
    OneMilestone(FrameHanded(true));
    OneMilestone(FrameHanded(false));
    OneMilestone(IoClosed);
    MilestonesConcat([FrameHanded(false)], [IoClosed]);
    assert [FrameHanded(false), IoClosed] == [FrameHanded(false)] + [IoClosed];
  }

  lemma QuietEmptyFrame(a: Answers)
    ensures Milestones([EmptyFrameHanded(a.sendOk)] + if a.sendOk then [] else [IoClosed]) == []
  {
    QuietLog([EmptyFrameHanded(a.sendOk)] + if a.sendOk then [] else [IoClosed]);
  }

  lemma IoKeeps(c: ConnectionState, ms: seq<Happening>, i: Input)
    requires Invariant(c, ms) && (i.OpenCalled? || i.IoOpenComplete? || i.IoFailed? || i.EmptyFrameReceived? || i.MaxFrameSizeSet? ||
      i.ChannelMaxSet? || i.RatioSet?)
    ensures var o := OnInput(c, i); Invariant(o.state, ms + Milestones(o.log))
  {
    hide InOrder, Milestones, SendOpen;
    var o := OnInput(c, i);
    QuietLog(o.log);
    assert ms + [] == ms;
  }

  lemma InputKeeps(c: ConnectionState, ms: seq<Happening>, i: Input)
    requires Invariant(c, ms)
    ensures var o := OnInput(c, i); Invariant(o.state, ms + Milestones(o.log))
  {
    if i.OctetReceived? {
      hide OnOctet, Milestones, Invariant;
      if c.ioOpen {
        OctetKeeps(c, ms, i.b, i.codecOk, i.a);
      } else {
        NoMilestones();
        assert ms + [] == ms;
      }
    } else if i.FrameReceived? {
      FrameKeeps(c, ms, i);
    } else if i.CloseRequested? || i.DeadlinesHandled? || i.FrameEncoded? {
      CallKeeps(c, ms, i);
    } else {
      IoKeeps(c, ms, i);
    }
  }

  lemma {:induction false} RunKeeps(c: ConnectionState, ms: seq<Happening>, inputs: seq<Input>)
    requires Invariant(c, ms)
    ensures var r := Run(c, inputs); Invariant(r.state, ms + Milestones(r.log))
    decreases |inputs|
  {
    hide OnInput, Invariant;
    if inputs == [] {
      assert Milestones([]) == [] && ms + [] == ms;
    } else {
      var o := OnInput(c, inputs[0]);
      InputKeeps(c, ms, inputs[0]);
      RunKeeps(o.state, ms + Milestones(o.log), inputs[1..]);
      var r := Run(o.state, inputs[1..]);
      MilestonesConcat(o.log, r.log);
      assert (ms + Milestones(o.log)) + Milestones(r.log) == ms + (Milestones(o.log) + Milestones(r.log));
    }
  }

  // ---------------------------------------------------------------- was our OPEN taken?

  /** The input is the last octet of the header, in place. */
  predicate CompletesHeader(c: ConnectionState, i: Input) {
    && i.OctetReceived? && c.ioOpen && (c.state.Start? || c.state.HdrSent?)
    && c.headerBytesReceived == 7 && i.b == AMQP_HEADER[7]
  }

  /** How the layers below answered when the header was completed. */
  function AnswersToHeader(c: ConnectionState, inputs: seq<Input>): Option<Answers>
    decreases |inputs|
  {
    if inputs == [] then None
    else if CompletesHeader(c, inputs[0]) then Some(inputs[0].a)
    else AnswersToHeader(OnInput(c, inputs[0]).state, inputs[1..])
  }

  /** Our OPEN goes out with the last octet of the header, and at no other time. */
  lemma OpenOnlyWithHeader(c: ConnectionState, ms: seq<Happening>, i: Input)
    requires Invariant(c, ms) && |ms| <= 8
    ensures var all := ms + Milestones(OnInput(c, i).log);
      && |all| <= 9
      && (|all| > 8 ==> CompletesHeader(c, i) && all[8] == OpenHanded(c.maxFrameSize, i.a.sendOk))
      && (CompletesHeader(c, i) ==> |all| >= 8)
  {
    if c.state.Start? || c.state.HdrSent? {
      HeaderMilestones(c, i);
    } else {
      LateMilestones(c, ms, i);
    }
  }

  lemma HeaderMilestones(c: ConnectionState, i: Input)
    requires (c.state.Start? || c.state.HdrSent?) && c.headerBytesReceived < 8
    ensures var added := Milestones(OnInput(c, i).log);
      if CompletesHeader(c, i) then
        added == [HeaderOctet(i.b)] || added == [HeaderOctet(i.b), OpenHanded(c.maxFrameSize, i.a.sendOk)]
      else |added| <= 1 && (added != [] ==> c.headerBytesReceived < 7)
  {
    hide Milestones, CloseWithError, SendOpen, OnOpen, OnClose;
    NoMilestones();
    OneMilestone(IoClosed);
    if i.OctetReceived? && c.ioOpen {
      OneMilestone(HeaderOctet(i.b));
      var c1 := c.(headerBytesReceived := 8, state := HdrExch);
      MilestonesConcat([HeaderOctet(i.b)], SendOpen(c1, i.a).out.log);
      OpenMilestones(c1, i.a);
    } else {
      QuietBeforeHeader(c, i);
    }
  }

  lemma QuietBeforeHeader(c: ConnectionState, i: Input)
    requires (c.state.Start? || c.state.HdrSent?) && !(i.OctetReceived? && c.ioOpen)
    ensures Milestones(OnInput(c, i).log) == []
  {
    hide Milestones;
    QuietLog(OnInput(c, i).log);
  }

  lemma LateMilestones(c: ConnectionState, ms: seq<Happening>, i: Input)
    requires Invariant(c, ms) && |ms| <= 8 && !c.state.Start? && !c.state.HdrSent?
    ensures Milestones(OnInput(c, i).log) == []
  {
    hide Milestones, InOrder, OnFrame, OnOctet;
    if i.FrameReceived? {
      LateFrame(c, i);
    } else if i.OctetReceived? {
      LateOctet(c, i);
    } else {
      QuietLog(OnInput(c, i).log);
    }
  }

  lemma LateFrame(c: ConnectionState, i: Input)
    requires i.FrameReceived? && !c.state.HdrExch? && !c.state.OpenSent?
    ensures Milestones(OnInput(c, i).log) == []
  {
    hide Milestones, AcceptOpen;
    QuietLog(OnInput(c, i).log);
  }

  lemma LateOctet(c: ConnectionState, i: Input)
    requires i.OctetReceived? && !c.state.Start? && !c.state.HdrSent?
    ensures Milestones(OnInput(c, i).log) == []
  {
    hide Milestones;
    QuietLog(OnInput(c, i).log);
  }

  lemma {:induction false} OpenFlag(c: ConnectionState, ms: seq<Happening>, inputs: seq<Input>)
    requires Invariant(c, ms) && |ms| <= 8
    ensures var all := ms + Milestones(Run(c, inputs).log);
      |all| > 8 ==>
        var a := AnswersToHeader(c, inputs);
        a.Some? && all[8].OpenHanded? && all[8].ok == a.value.sendOk
    decreases |inputs|
  {
    hide OnInput, Invariant, InOrder, CompletesHeader;
    if inputs == [] {
      NoMilestones();
    } else {
      var i := inputs[0];
      var o := OnInput(c, i);
      var ms' := ms + Milestones(o.log);
      var r := Run(o.state, inputs[1..]);
      InputKeeps(c, ms, i);
      OpenOnlyWithHeader(c, ms, i);
      MilestonesConcat(o.log, r.log);
      assert ms + (Milestones(o.log) + Milestones(r.log)) == ms' + Milestones(r.log);
      if |ms'| <= 8 {
        OpenFlag(o.state, ms', inputs[1..]);
        if CompletesHeader(c, i) {
          NothingAfterHeader(o.state, ms', inputs[1..]);
        }
      }
    }
  }

  /** A header that was completed without an OPEN going out leads nowhere. */
  lemma {:induction false} NothingAfterHeader(c: ConnectionState, ms: seq<Happening>, inputs: seq<Input>)
    requires Invariant(c, ms) && |ms| == 8
    ensures Milestones(Run(c, inputs).log) == []
    decreases |inputs|
  {
    hide OnInput, InOrder;
    if inputs == [] {
      NoMilestones();
    } else {
      var o := OnInput(c, inputs[0]);
      LateMilestones(c, ms, inputs[0]);
      InputKeeps(c, ms, inputs[0]);
      assert ms + [] == ms;
      NothingAfterHeader(o.state, ms, inputs[1..]);
      MilestonesConcat(o.log, Run(o.state, inputs[1..]).log);
    }
  }

  /**
   Over every run: header octets, our OPEN, the peer's OPEN and frames of sessions come in that order. A connection
   that is OPENED has seen all of the handshake, and the frame codec's limit is the one its OPEN announced.
   */
  lemma HandshakeHistory(now: nat, inputs: seq<Input>)
    ensures var r := Run(Created(now), inputs); var ms := Milestones(r.log);
      && InOrder(ms)
      && (r.state.state.Start? || r.state.state.HdrSent? ==> r.state.headerBytesReceived < 8)
      && (r.state.state.Opened? ==>
            |ms| >= 10 && ms[8].maxFrameSize == r.state.codecMaxFrameSize == r.state.maxFrameSize)
      && (|ms| > 8 ==> AnswersToHeader(Created(now), inputs).Some? && ms[8].ok == AnswersToHeader(Created(now), inputs).value.sendOk)
      && ((exists k :: 0 <= k < |ms| && ms[k].FrameHanded?) ==> |ms| > 10)
  {
    hide Run, Milestones, AnswersToHeader, IsMilestone;
    NoMilestones();
    assert Invariant(Created(now), []);
    RunKeeps(Created(now), [], inputs);
    OpenFlag(Created(now), [], inputs);
    var ms := Milestones(Run(Created(now), inputs).log);
    assert [] + ms == ms;
  }

  /**
   The send of our OPEN can fail and the failure be forgotten: in every run that reaches OPENED the io took the OPEN,
   with the frame size now in force, if and only if it took the octets when the last octet of the header came.
   */
  lemma OpenTakenExactlyWhen(now: nat, inputs: seq<Input>)
    requires Run(Created(now), inputs).state.state.Opened?
    ensures var r := Run(Created(now), inputs); var ms := Milestones(r.log);
      && |ms| >= 10 && AnswersToHeader(Created(now), inputs).Some?
      && (ms[8] == OpenHanded(r.state.maxFrameSize, true) <==> AnswersToHeader(Created(now), inputs).value.sendOk)
      && (ms[8] == OpenHanded(r.state.maxFrameSize, false) <==> !AnswersToHeader(Created(now), inputs).value.sendOk)
  {
    hide Run, Milestones, AnswersToHeader;
    HandshakeHistory(now, inputs);
  }

  /** The io takes whatever it is given. */
  predicate SendsSucceed(i: Input) {
    match i
    case IoOpenComplete(_, a) => a.sendOk
    case OctetReceived(_, _, a) => a.sendOk
    case FrameReceived(_, _, _, a) => a.sendOk
    case FrameEncoded(_, a) => a.sendOk
    case CloseRequested(_, a) => a.sendOk
    case DeadlinesHandled(_, a) => a.sendOk
    case _ => true
  }

  lemma {:induction false} AnswersSucceed(c: ConnectionState, inputs: seq<Input>)
    requires forall k :: 0 <= k < |inputs| ==> SendsSucceed(inputs[k])
    ensures AnswersToHeader(c, inputs).Some? ==> AnswersToHeader(c, inputs).value.sendOk
    decreases |inputs|
  {
    hide OnInput;
    if inputs != [] {
      AnswersSucceed(OnInput(c, inputs[0]).state, inputs[1..]);
    }
  }

  /** When every send succeeds, OPENED means that the io took our OPEN, with the frame size in force. */
  lemma OpenedAfterSendingOpen(now: nat, inputs: seq<Input>)
    requires forall k :: 0 <= k < |inputs| ==> SendsSucceed(inputs[k])
    requires Run(Created(now), inputs).state.state.Opened?
    ensures var r := Run(Created(now), inputs); var ms := Milestones(r.log);
      |ms| >= 10 && ms[8] == OpenHanded(r.state.maxFrameSize, true)
  {
    hide Run, Milestones, AnswersToHeader, SendsSucceed;
    AnswersSucceed(Created(now), inputs);
    OpenTakenExactlyWhen(now, inputs);
  }

  /**
   "OPEN was sent" is only as true as the io says: when the OPEN after the last octet of the header cannot be
   sent, the failure is forgotten and the peer's OPEN still makes the connection OPENED.
   */
  lemma OpenedWithoutSendingOpen(c: ConnectionState, now: nat, good: Answers, bad: Answers)
    requires c.state.HdrSent? && c.ioOpen && c.headerBytesReceived == 7
    requires bad == Answers(true, true, false)
    ensures var r := Run(c, [OctetReceived(0, true, bad), FrameReceived(0, Open(Some(OpenFields(None, Some(512)))), now, good)]);
      r.state.state.Opened? && OpenHanded(c.maxFrameSize, false) in r.log
  {
    var last := [OctetReceived(0, true, bad), FrameReceived(0, Open(Some(OpenFields(None, Some(512)))), now, good)];
    RunTwo(c, last);
    var o1 := OnInput(c, last[0]);
    assert o1.log[1] == OpenHanded(c.maxFrameSize, false);
    assert o1.state.state.OpenSent? && o1.state.ioOpen;
    assert OnInput(o1.state, last[1]).state.state.Opened?;
  }

  lemma RunTwo(c: ConnectionState, inputs: seq<Input>)
    requires |inputs| == 2
    ensures var o1 := OnInput(c, inputs[0]); var o2 := OnInput(o1.state, inputs[1]);
      Run(c, inputs) == Out(o2.state, o1.log + (o2.log + []))
  {
    hide OnInput;
    var more := inputs[1..];
    assert more[1..] == [] && more[0] == inputs[1];
    var o1 := OnInput(c, inputs[0]);
    var o2 := OnInput(o1.state, inputs[1]);
    assert Run(o2.state, more[1..]) == Out(o2.state, []);
    assert Run(o1.state, more) == Out(o2.state, o2.log + []);
  }
}
