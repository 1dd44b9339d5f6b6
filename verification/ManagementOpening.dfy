/** Opening and reopening a management endpoint, over whole runs: who is told, and what the flags of earlier openings do. */
module ManagementOpening {
  import opened ManagementSpec

  /**
   What a run has shown of the two links: whether each was reported open during the last opening, whether it was
   during an earlier one, and how many openings have begun.
   */
  datatype Seen = Seen(senderNow: bool, receiverNow: bool, senderBefore: bool, receiverBefore: bool, openings: nat)

  predicate BeginsOpening(m: Management, i: Input) {
    i.OpenCalled? && m.state.Idle? && i.receiverOk && i.senderOk
  }

  function See(seen: Seen, m: Management, i: Input): Seen {
    if BeginsOpening(m, i) then
      Seen(false, false, seen.senderBefore || seen.senderNow, seen.receiverBefore || seen.receiverNow, seen.openings + 1)
    else if m.state.Opening? && i == SenderChanged(EndpointOpen) then seen.(senderNow := true)
    else if m.state.Opening? && i == ReceiverChanged(EndpointOpen) then seen.(receiverNow := true)
    else seen
  }

  function SeenIn(seen: Seen, m: Management, inputs: seq<Input>): Seen
    decreases |inputs|
  {
    if inputs == [] then seen else SeenIn(See(seen, m, inputs[0]), OnInput(m, inputs[0]).state, inputs[1..])
  }

  /** How often the caller of an opening was told how it ended. */
  function Told(os: seq<Output>): nat {
    if os == [] then 0 else (if os[0].OpenComplete? || os[0].OpenCancelled? then 1 else 0) + Told(os[1..])
  }

  lemma {:induction false} ToldConcat(a: seq<Output>, b: seq<Output>)
    ensures Told(a + b) == Told(a) + Told(b)
    decreases |a|
  {
    if a == [] {
      assert a + b == b;
    } else {
      assert (a + b)[0] == a[0] && (a + b)[1..] == a[1..] + b;
      ToldConcat(a[1..], b);
    }
  }

  lemma ToldNothing(os: seq<Output>)
    requires forall k :: 0 <= k < |os| ==> !os[k].OpenComplete? && !os[k].OpenCancelled?
    ensures Told(os) == 0
  {
  }

  lemma ToldOne(o: Output)
    ensures Told([o]) == if o.OpenComplete? || o.OpenCancelled? then 1 else 0
  {
    assert [o][1..] == [];
  }

  // ---------------------------------------------------------------- the invariant

  /** The flags say "ever since creation"; an opening goes on only while no side finds the other's flag set. */
  predicate Consistent(m: Management, seen: Seen) {
    && m.senderConnected == (seen.senderNow || seen.senderBefore)
    && m.receiverConnected == (seen.receiverNow || seen.receiverBefore)
    && (m.state.Opening? ==> !(seen.senderNow && m.receiverConnected) && !(seen.receiverNow && m.senderConnected))
    && (m.state.Open? ==> m.senderConnected && m.receiverConnected && (seen.senderNow || seen.receiverNow))
  }

  predicate Answered(m: Management, seen: Seen, told: nat) {
    seen.openings == told + if m.state.Opening? then 1 else 0
  }

  lemma {:induction false} FinishedAllQuiet(m: Management, finished: seq<(nat, SendResult)>)
    ensures var f := OnFinishedAll(m, finished);
      Told(f.outputs) == 0 && f.state == m.(pending := f.state.pending)
    decreases |finished|
  {
    if finished != [] {
      var o := OnSendFinished(m, finished[0].0, finished[0].1);
      ToldNothing(o.outputs);
      FinishedAllQuiet(o.state, finished[1..]);
      ToldConcat(o.outputs, OnFinishedAll(o.state, finished[1..]).outputs);
    }
  }

  lemma {:induction false} ClosedAllQuiet(ops: seq<Operation>)
    ensures Told(ClosedAll(ops)) == 0
    decreases |ops|
  {
    if ops != [] {
      ClosedAllQuiet(ops[1..]);
      assert ClosedAll(ops)[1..] == ClosedAll(ops[1..]);
    }
  }

  lemma CloseKeeps(m: Management, seen: Seen, i: Input)
    requires i.CloseCalled? && Consistent(m, seen)
    ensures var o := OnInput(m, i);
      && Consistent(o.state, seen)
      && Told(o.outputs) + (if o.state.state.Opening? then 1 else 0) == if m.state.Opening? then 1 else 0
  {
    hide OnFinishedAll, ClosedAll, Told;
    if m.state.Idle? {
      ToldNothing([]);
    } else {
      var told := if m.state.Opening? then [OpenCancelled] else [];
      var f := OnFinishedAll(m.(state := Closing), i.finished);
      FinishedAllQuiet(m.(state := Closing), i.finished);
      ClosedAllQuiet(f.state.pending);
      ToldOne(OpenCancelled);
      ToldNothing([]);
      ToldConcat(told, f.outputs);
      ToldConcat(told + f.outputs, ClosedAll(f.state.pending));
    }
  }

  lemma ChangeKeeps(m: Management, seen: Seen, i: Input)
    requires (i.SenderChanged? || i.ReceiverChanged?) && Consistent(m, seen)
    ensures var o := OnInput(m, i);
      && Consistent(o.state, See(seen, m, i))
      && Told(o.outputs) + (if o.state.state.Opening? then 1 else 0) == if m.state.Opening? then 1 else 0
  {
    hide Told;
    ToldNothing([]);
    ToldOne(OpenComplete(true));
    ToldOne(OpenComplete(false));
    ToldOne(ErrorReported);
  }

  lemma OperationKeeps(m: Management, seen: Seen, i: Input)
    requires (i.Execute? || i.SendFinished? || i.Response? || i.CancelCalled?) && Consistent(m, seen)
    ensures var o := OnInput(m, i);
      Consistent(o.state, seen) && o.state.state == m.state && Told(o.outputs) == 0
  {
    hide Told;
    if i.Execute? {
      var d := DuringSend(m, i.inside);
      ToldNothing(d.outputs);
      ToldNothing([]);
    } else {
      ToldNothing(OnInput(m, i).outputs);
    }
  }

  lemma InputKeeps(m: Management, seen: Seen, told: nat, i: Input)
    requires Consistent(m, seen) && Answered(m, seen, told)
    ensures var o := OnInput(m, i);
      Consistent(o.state, See(seen, m, i)) && Answered(o.state, See(seen, m, i), told + Told(o.outputs))
  {
    hide Told, OnClose, OnSenderChanged, OnReceiverChanged, OnExecute, OnSendFinished, OnResponse, OnCancel;
    if i.CloseCalled? {
      CloseKeeps(m, seen, i);
    } else if i.SenderChanged? || i.ReceiverChanged? {
      ChangeKeeps(m, seen, i);
    } else if i.OpenCalled? {
      ToldNothing([]);
    } else {
      OperationKeeps(m, seen, i);
    }
  }

  lemma {:induction false} RunKeeps(m: Management, seen: Seen, told: nat, inputs: seq<Input>)
    requires Consistent(m, seen) && Answered(m, seen, told)
    ensures var r := Run(m, inputs); var s := SeenIn(seen, m, inputs);
      Consistent(r.state, s) && Answered(r.state, s, told + Told(r.outputs))
    decreases |inputs|
  {
    hide OnInput, Consistent, Answered, See;
    if inputs == [] {
      ToldNothing([]);
    } else {
      var o := OnInput(m, inputs[0]);
      InputKeeps(m, seen, told, inputs[0]);
      RunKeeps(o.state, See(seen, m, inputs[0]), told + Told(o.outputs), inputs[1..]);
      ToldConcat(o.outputs, Run(o.state, inputs[1..]).outputs);
    }
  }

  function Unseen(): Seen {
    Seen(false, false, false, false, 0)
  }

  /**
   Over every run: each opening that begins is answered once, when it completes, fails or is cancelled, and one that
   is still going on is not; and the endpoint is OPEN only when both links were reported open since it was created,
   one of them in the last opening, both of them in it when it is the first.
   */
  lemma OpeningsAnswered(inputs: seq<Input>)
    ensures var r := Run(Created(), inputs); var s := SeenIn(Unseen(), Created(), inputs);
      && s.openings == Told(r.outputs) + (if r.state.state.Opening? then 1 else 0)
      && (r.state.state.Open? ==>
            && (s.senderNow || s.senderBefore) && (s.receiverNow || s.receiverBefore) && (s.senderNow || s.receiverNow)
            && (!s.senderBefore && !s.receiverBefore ==> s.senderNow && s.receiverNow))
  {
    hide Run, SeenIn;
    RunKeeps(Created(), Unseen(), 0, inputs);
  }

  /**
   The flags are cleared at creation only. So during an opening a report that the message sender is open completes it
   if and only if the receiver was reported open before, in this opening or in an earlier one; it does so too early,
   before the receiver is open, exactly when that was an earlier one. The same holds with the two sides exchanged.
   */
  lemma OpensEarlyExactlyWhen(inputs: seq<Input>)
    requires Run(Created(), inputs).state.state.Opening?
    ensures var m := Run(Created(), inputs).state; var s := SeenIn(Unseen(), Created(), inputs);
      var bySender := OnInput(m, SenderChanged(EndpointOpen)); var byReceiver := OnInput(m, ReceiverChanged(EndpointOpen));
      && (bySender.state.state.Open? <==> s.receiverNow || s.receiverBefore)
      && (bySender.state.state.Open? && !s.receiverNow <==> s.receiverBefore && !s.receiverNow)
      && bySender.outputs == (if s.receiverNow || s.receiverBefore then [OpenComplete(true)] else [])
      && (byReceiver.state.state.Open? <==> s.senderNow || s.senderBefore)
      && (byReceiver.state.state.Open? && !s.senderNow <==> s.senderBefore && !s.senderNow)
      && byReceiver.outputs == (if s.senderNow || s.senderBefore then [OpenComplete(true)] else [])
  {
    hide Run, SeenIn;
    RunKeeps(Created(), Unseen(), 0, inputs);
  }
}
