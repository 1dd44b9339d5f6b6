/** When a link is attached (AMQP 1.0 Part 2, section 2.6.3), told from what it sent and received, over whole runs. */
module LinkAttaching {
  import opened Options
  import opened LinkSpec

  /** Since the last detach or loss: did our attach go out, did the peer's come in? And was the link ever closed, or lost for good? */
  datatype Seen = Seen(ours: bool, peers: bool, failed: bool, closed: bool)

  predicate SendsAttach(i: Input, os: seq<Output>) {
    i.SessionMapped? && exists k :: 0 <= k < |os| && os[k].AttachSent?
  }

  predicate SendsDetach(i: Input, os: seq<Output>) {
    i.DetachCalled? && exists k :: 0 <= k < |os| && os[k].DetachSent?
  }

  predicate SendsClose(os: seq<Output>) {
    exists k :: 0 <= k < |os| && os[k] == DetachSent(true)
  }

  /** The peer detached, the session was lost, or an attach or flow lacked what it must carry. */
  predicate Resets(role: Role, i: Input) {
    || i.DetachReceived? || i.SessionDiscarding? || i.SessionFailed?
    || (i.AttachReceived? && role.Receiver? && i.count.None?)
    || (i.FlowReceived? && role.Sender? && (i.credit.None? || i.count.None?))
  }

  /** What one event, and what it made the link send, add to what was seen. */
  function See(s: Seen, role: Role, i: Input, os: seq<Output>): Seen {
    var closed := s.closed || SendsClose(os);
    if Resets(role, i) then Seen(false, false, i.SessionFailed? || (i.DetachReceived? && i.hasError), closed)
    else if SendsAttach(i, os) then s.(ours := true)
    else if i.AttachReceived? then s.(peers := s.peers || !s.failed)
    else if SendsDetach(i, os) then
      // after a detach of our own an attached link waits for the peer to attach again
      Seen(s.ours && s.peers, false, s.failed, closed)
    else s
  }

  function SeenIn(s: Seen, l: LinkState, inputs: seq<Input>): Seen
    decreases |inputs|
  {
    if inputs == [] then s
    else
      var o := OnInput(l, inputs[0]);
      SeenIn(See(s, l.role, inputs[0], o.outputs), o.state, inputs[1..])
  }

  predicate Agrees(l: LinkState, s: Seen) {
    && (l.phase.Attached? <==> s.ours && s.peers && !s.failed)
    && (l.phase.HalfAttachedAttachSent? <==> s.ours && !s.peers && !s.failed)
    && (l.phase.HalfAttachedAttachReceived? <==> !s.ours && s.peers && !s.failed)
    && (l.phase.Failed? <==> s.failed)
    && (s.failed ==> !s.ours && !s.peers)
    && l.closed == s.closed
  }

  lemma GiveupLog(l: LinkState, phase: Phase)
    ensures var o := GiveupAndMove(l, phase);
      && o.state == l.(phase := phase, pending := NoList)
      && forall k :: 0 <= k < |o.outputs| ==> !o.outputs[k].AttachSent? && !o.outputs[k].DetachSent?
  {
  }

  lemma ResetAgrees(l: LinkState, s: Seen, i: Input)
    requires Agrees(l, s) && Resets(l.role, i) && !i.DetachReceived?
    ensures var o := OnInput(l, i); Agrees(o.state, See(s, l.role, i, o.outputs))
  {
    hide GiveupAndMove;
    GiveupLog(l, Detached);
    GiveupLog(l, Failed);
  }

  lemma AnswerCloses(l: LinkState, close: bool, attachOk: bool, detachOk: bool)
    ensures var a := AnswerDetach(l, close, attachOk, detachOk); a.state.closed == (l.closed || SendsClose(a.outputs))
  {
    var os := AnswerDetach(l, close, attachOk, detachOk).outputs;
    if close && detachOk && os != [] {
      assert os[|os| - 1] == DetachSent(true);
    }
  }

  lemma PeerDetachAgrees(l: LinkState, s: Seen, i: Input)
    requires Agrees(l, s) && i.DetachReceived?
    ensures var o := OnInput(l, i); Agrees(o.state, See(s, l.role, i, o.outputs))
  {
    hide GiveupAndMove, AnswerDetach, SendsClose, SendsAttach, SendsDetach;
    var a := AnswerDetach(l, i.close, i.attachOk, i.detachOk);
    var to := if i.hasError then Failed else Detached;
    GiveupLog(a.state, to);
    AnswerCloses(l, i.close, i.attachOk, i.detachOk);
    SendsCloseBefore(a.outputs, GiveupAndMove(a.state, to).outputs);
  }

  lemma SendsCloseBefore(a: seq<Output>, b: seq<Output>)
    requires forall k :: 0 <= k < |b| ==> !b[k].DetachSent?
    ensures SendsClose(a + b) <==> SendsClose(a)
  {
    if SendsClose(a) {
      var k :| 0 <= k < |a| && a[k] == DetachSent(true);
      assert (a + b)[k] == DetachSent(true);
    }
  }

  lemma SessionAgrees(l: LinkState, s: Seen, i: Input)
    requires Agrees(l, s) && i.SessionMapped?
    ensures var o := OnInput(l, i); Agrees(o.state, See(s, l.role, i, o.outputs))
  {
    var os := OnInput(l, i).outputs;
    if l.phase.Detached? && !l.closed && i.attachOk {
      assert os[0].AttachSent?;
    }
  }

  lemma DetachAgrees(l: LinkState, s: Seen, i: Input)
    requires Agrees(l, s) && i.DetachCalled?
    ensures var o := OnInput(l, i); Agrees(o.state, See(s, l.role, i, o.outputs))
  {
    var os := OnInput(l, i).outputs;
    if os != [] {
      assert os[0] == DetachSent(i.close);
    }
  }

  lemma FrameAgrees(l: LinkState, s: Seen, i: Input)
    requires Agrees(l, s) && !Resets(l.role, i) && (i.AttachReceived? || i.FlowReceived? || i.TransferReceived?)
    ensures var o := OnInput(l, i); Agrees(o.state, See(s, l.role, i, o.outputs))
  {
  }

  lemma OtherAgrees(l: LinkState, s: Seen, i: Input)
    requires Agrees(l, s) && (i.DispositionReceived? || i.TransferAsync? || i.Cancel? || i.DoWork?)
    ensures var o := OnInput(l, i); Agrees(o.state, See(s, l.role, i, o.outputs))
  {
    hide Chosen, Left, Expired, InRange;
  }

  lemma RoleStays(l: LinkState, i: Input)
    ensures OnInput(l, i).state.role == l.role
  {
    hide Chosen, Left, Expired, InRange, Settlements;
  }

  lemma InputAgrees(l: LinkState, s: Seen, i: Input)
    requires Agrees(l, s)
    ensures var o := OnInput(l, i); Agrees(o.state, See(s, l.role, i, o.outputs)) && o.state.role == l.role
  {
    hide Agrees, See, OnInput;
    RoleStays(l, i);
    if i.DetachReceived? {
      PeerDetachAgrees(l, s, i);
    } else if Resets(l.role, i) {
      ResetAgrees(l, s, i);
    } else if i.SessionMapped? {
      SessionAgrees(l, s, i);
    } else if i.DetachCalled? {
      DetachAgrees(l, s, i);
    } else if i.AttachReceived? || i.FlowReceived? || i.TransferReceived? {
      FrameAgrees(l, s, i);
    } else {
      OtherAgrees(l, s, i);
    }
  }

  lemma {:induction false} RunAgrees(l: LinkState, s: Seen, inputs: seq<Input>)
    requires Agrees(l, s)
    ensures Agrees(RunLink(l, inputs).state, SeenIn(s, l, inputs))
    decreases |inputs|
  {
    hide Agrees, OnInput, See;
    if inputs != [] {
      var o := OnInput(l, inputs[0]);
      InputAgrees(l, s, inputs[0]);
      RunAgrees(o.state, See(s, l.role, inputs[0], o.outputs), inputs[1..]);
    }
  }

  /**
   Over every run: a link is attached exactly when, since it last was detached or lost, its own attach went out and the
   peer's came in, and half attached exactly when one of the two did.
   */
  lemma AttachedExactlyWhen(role: Role, initialCount: nat, maxCredit: nat, inputs: seq<Input>)
    ensures var l := Created(role, initialCount, maxCredit);
      var r := RunLink(l, inputs).state; var s := SeenIn(Seen(false, false, false, false), l, inputs);
      && (r.phase.Attached? <==> s.ours && s.peers)
      && (r.phase.HalfAttachedAttachSent? <==> s.ours && !s.peers)
      && (r.phase.HalfAttachedAttachReceived? <==> !s.ours && s.peers)
      && (r.phase.Failed? <==> s.failed)
      && r.closed == s.closed
  {
    hide RunLink, SeenIn;
    RunAgrees(Created(role, initialCount, maxCredit), Seen(false, false, false, false), inputs);
  }

  /** A peer that attaches first is never answered: the attach goes out from a detached link alone. */
  lemma OwnAttachVerdict(l: LinkState, attachOk: bool)
    ensures var o := OnInput(l, SessionMapped(attachOk));
      if l.phase.Detached? && !l.closed then
        && o.outputs == (if attachOk then [AttachSent(l.initialCount), PhaseChanged(HalfAttachedAttachSent)] else [])
        && o.state.deliveryCount == l.initialCount
      else o == Out(l, [])
  {
  }

  /**
   The peer's detach: an attached link answers with one of its own kind, a half attached one answers a close by
   attaching and closing at once, if it was not closed already, and no other link answers.
   */
  lemma PeerDetachVerdict(l: LinkState, close: bool, hasError: bool, attachOk: bool, detachOk: bool)
    ensures var os := OnInput(l, DetachReceived(close, hasError, attachOk, detachOk)).outputs;
      var half := (l.phase.HalfAttachedAttachSent? || l.phase.HalfAttachedAttachReceived?) && close && !l.closed;
      var attach := if half && attachOk then [AttachSent(l.initialCount)] else [];
      var detach := if (l.phase.Attached? || half) && detachOk then [DetachSent(close)] else [];
      && os[..|attach| + |detach|] == attach + detach
      && forall k :: |attach| + |detach| <= k < |os| ==> !os[k].AttachSent? && !os[k].DetachSent?
  {
    hide GiveupAndMove;
    var half := (l.phase.HalfAttachedAttachSent? || l.phase.HalfAttachedAttachReceived?) && close && !l.closed;
    var attach := if half && attachOk then [AttachSent(l.initialCount)] else [];
    var detach := if (l.phase.Attached? || half) && detachOk then [DetachSent(close)] else [];
    var a := AnswerDetach(l, close, attachOk, detachOk);
    assert a.outputs == attach + detach;
    GiveupLog(a.state, if hasError then Failed else Detached);
  }

  /** A detach of our own goes out from any link that is attached or half attached and was not closed before. */
  lemma OwnDetachVerdict(l: LinkState, close: bool, detachOk: bool)
    ensures var o := OnInput(l, DetachCalled(close, detachOk));
      if !l.closed && detachOk && !l.phase.Detached? && !l.phase.Failed? then
        o.outputs == [DetachSent(close), PhaseChanged(if l.phase.Attached? then HalfAttachedAttachSent else Detached)]
      else o == Out(l, [])
  {
  }

  lemma ClosedStays(l: LinkState, i: Input)
    requires l.closed
    ensures var o := OnInput(l, i); o.state.closed && forall k :: 0 <= k < |o.outputs| ==> !o.outputs[k].AttachSent?
  {
    hide Chosen, Left, Expired, InRange, GiveupAndMove;
    GiveupLog(l, Detached);
    GiveupLog(l, Failed);
    if i.DetachReceived? {
      GiveupLog(AnswerDetach(l, i.close, i.attachOk, i.detachOk).state, if i.hasError then Failed else Detached);
    }
  }

  /** A link that was closed never attaches again. */
  lemma {:induction false} NeverAttachesAgain(l: LinkState, inputs: seq<Input>)
    requires l.closed
    ensures var r := RunLink(l, inputs); r.state.closed && forall k :: 0 <= k < |r.outputs| ==> !r.outputs[k].AttachSent?
    decreases |inputs|
  {
    hide OnInput;
    if inputs != [] {
      ClosedStays(l, inputs[0]);
      NeverAttachesAgain(OnInput(l, inputs[0]).state, inputs[1..]);
    }
  }

  // ---------------------------------------------------------------- what the owner hears of the phase

  /** The phase that was told last. */
  function LastTold(os: seq<Output>, phase: Phase): Phase {
    if os == [] then phase else LastTold(os[1..], if os[0].PhaseChanged? then os[0].phase else phase)
  }

  lemma {:induction false} LastToldConcat(a: seq<Output>, b: seq<Output>, phase: Phase)
    ensures LastTold(a + b, phase) == LastTold(b, LastTold(a, phase))
    decreases |a|
  {
    if a == [] {
      assert a + b == b;
    } else {
      assert (a + b)[0] == a[0] && (a + b)[1..] == a[1..] + b;
      LastToldConcat(a[1..], b, if a[0].PhaseChanged? then a[0].phase else phase);
    }
  }

  lemma NotTold(os: seq<Output>, phase: Phase)
    requires forall k :: 0 <= k < |os| ==> !os[k].PhaseChanged?
    ensures LastTold(os, phase) == phase
  {
  }

  lemma ToldLast(os: seq<Output>, phase: Phase)
    requires os != [] && os[|os| - 1].PhaseChanged?
    ensures LastTold(os, phase) == os[|os| - 1].phase
  {
    var n := |os| - 1;
    assert os == os[..n] + [os[n]];
    LastToldConcat(os[..n], [os[n]], phase);
    assert [os[n]][1..] == [];
  }

  lemma PhaseIsTold(l: LinkState, i: Input)
    ensures var o := OnInput(l, i); o.state.phase == LastTold(o.outputs, l.phase)
  {
    hide OnInput, LastTold;
    var os := OnInput(l, i).outputs;
    LastIsPhase(l, i);
    if i.DetachReceived? || i.SessionDiscarding? || i.SessionFailed? || (os != [] && os[|os| - 1].PhaseChanged?) {
      ToldLast(os, l.phase);
    } else {
      QuietAlone(l, i);
      NotTold(os, l.phase);
    }
  }

  lemma LastIsPhase(l: LinkState, i: Input)
    ensures var o := OnInput(l, i);
      && (i.DetachReceived? || i.SessionDiscarding? || i.SessionFailed? ==> o.outputs != [] && o.outputs[|o.outputs| - 1].PhaseChanged?)
      && (o.outputs != [] && o.outputs[|o.outputs| - 1].PhaseChanged? ==> o.outputs[|o.outputs| - 1] == PhaseChanged(o.state.phase))
  {
    hide Chosen, Left, Expired, InRange, Giveup;
  }

  lemma QuietAlone(l: LinkState, i: Input)
    requires !i.DetachReceived? && !i.SessionDiscarding? && !i.SessionFailed?
    requires var os := OnInput(l, i).outputs; os == [] || !os[|os| - 1].PhaseChanged?
    ensures var o := OnInput(l, i); o.state.phase == l.phase && forall k :: 0 <= k < |o.outputs| ==> !o.outputs[k].PhaseChanged?
  {
    hide OnInput;
    if i.TransferReceived? {
      QuietTransfer(l, i);
    } else if i.AttachReceived? || i.FlowReceived? {
      QuietFrame(l, i);
    } else {
      QuietCall(l, i);
    }
  }

  lemma QuietTransfer(l: LinkState, i: Input)
    requires i.TransferReceived?
    ensures var o := OnInput(l, i); o.state.phase == l.phase && forall k :: 0 <= k < |o.outputs| ==> !o.outputs[k].PhaseChanged?
  {
  }

  lemma QuietFrame(l: LinkState, i: Input)
    requires i.AttachReceived? || i.FlowReceived?
    requires var os := OnInput(l, i).outputs; os == [] || !os[|os| - 1].PhaseChanged?
    ensures var o := OnInput(l, i); o.state.phase == l.phase && forall k :: 0 <= k < |o.outputs| ==> !o.outputs[k].PhaseChanged?
  {
    hide Giveup;
  }

  lemma QuietCall(l: LinkState, i: Input)
    requires i.DispositionReceived? || i.SessionMapped? || i.TransferAsync? || i.Cancel? || i.DoWork? || i.DetachCalled?
    requires var os := OnInput(l, i).outputs; os == [] || !os[|os| - 1].PhaseChanged?
    ensures var o := OnInput(l, i); o.state.phase == l.phase && forall k :: 0 <= k < |o.outputs| ==> !o.outputs[k].PhaseChanged?
  {
    hide Chosen, Left, Expired, InRange;
  }

  /** Over every run, whoever listens knows the phase. */
  lemma {:induction false} PhaseAlwaysTold(l: LinkState, inputs: seq<Input>)
    ensures RunLink(l, inputs).state.phase == LastTold(RunLink(l, inputs).outputs, l.phase)
    decreases |inputs|
  {
    hide OnInput;
    if inputs != [] {
      var o := OnInput(l, inputs[0]);
      PhaseIsTold(l, inputs[0]);
      PhaseAlwaysTold(o.state, inputs[1..]);
      LastToldConcat(o.outputs, RunLink(o.state, inputs[1..]).outputs, l.phase);
    }
  }
}
