/** What the caller of a transfer is told, from the event that accepted it and the one that ends it. */
module LinkOutcomes {
  import opened Options
  import opened LinkSpec
  import opened LinkDeliveries

  // ---------------------------------------------------------------- the transfers that were accepted

  /** An attached sender with credit, and with a list to put it on, whose session takes the transfer. */
  predicate Accepts(l: LinkState, i: Input) {
    i.TransferAsync? && l.role.Sender? && l.phase.Attached? && l.credit > 0 && l.pending.Listed? && i.answer.Taken?
  }

  /** The accepted transfers of a run, in order: the id the session gave, the tick and the timeout. */
  function Accepted(l: LinkState, inputs: seq<Input>, before: seq<Input>): seq<Input>
    decreases |inputs|
  {
    if inputs == [] then before
    else Accepted(OnInput(l, inputs[0]).state, inputs[1..], if Accepts(l, inputs[0]) then before + [inputs[0]] else before)
  }

  /** The delivery stands for transfer number `op`. */
  predicate Stands(d: Delivery, transfers: seq<Input>) {
    && d.op < |transfers| && transfers[d.op].TransferAsync? && transfers[d.op].answer.Taken?
    && d.id == transfers[d.op].answer.id && d.startTick == transfers[d.op].now && d.timeout == transfers[d.op].timeout
  }

  predicate Records(l: LinkState, transfers: seq<Input>) {
    && l.accepted == |transfers|
    && (l.pending.Listed? ==> forall k :: 0 <= k < |l.pending.deliveries| ==> Stands(l.pending.deliveries[k], transfers))
  }

  lemma {:induction false} LeftFrom(ds: seq<Delivery>, p: Delivery -> bool)
    ensures forall k :: 0 <= k < |Left(ds, p)| ==> Left(ds, p)[k] in ds
    decreases |ds|
  {
    if ds != [] {
      LeftFrom(ds[1..], p);
    }
  }

  /** An event that accepts nothing leaves a part of the list, in place. */
  lemma FewerPending(l: LinkState, i: Input)
    requires !i.TransferAsync?
    ensures var l' := OnInput(l, i).state;
      && l'.accepted == l.accepted
      && (l'.pending.Listed? ==> l.pending.Listed? && forall k :: 0 <= k < |l'.pending.deliveries| ==> l'.pending.deliveries[k] in l.pending.deliveries)
  {
    hide Chosen, Left, Expired, InRange, Settlements;
    if l.pending.Listed? {
      var ds := l.pending.deliveries;
      if i.DispositionReceived? {
        LeftFrom(ds, d => InRange(d, i.first, if i.last.Some? then i.last.value else i.first));
      } else if i.Cancel? {
        LeftFrom(ds, (d: Delivery) => d.op == i.op);
      } else if i.DoWork? {
        LeftFrom(ds, (d: Delivery) => Expired(d, i.now));
      }
    }
  }

  lemma InputRecords(l: LinkState, i: Input, transfers: seq<Input>)
    requires Records(l, transfers)
    ensures Records(OnInput(l, i).state, if Accepts(l, i) then transfers + [i] else transfers)
  {
    if !i.TransferAsync? {
      hide OnInput;
      FewerPending(l, i);
    }
  }

  lemma {:induction false} RunRecords(l: LinkState, inputs: seq<Input>, transfers: seq<Input>)
    requires Records(l, transfers)
    ensures Records(RunLink(l, inputs).state, Accepted(l, inputs, transfers))
    decreases |inputs|
  {
    hide OnInput, Records, Accepts;
    if inputs != [] {
      InputRecords(l, inputs[0], transfers);
      RunRecords(OnInput(l, inputs[0]).state, inputs[1..], if Accepts(l, inputs[0]) then transfers + [inputs[0]] else transfers);
    }
  }

  /** The link of a run, and the transfers it accepted. */
  ghost predicate Reached(l: LinkState, transfers: seq<Input>) {
    exists role, initialCount, maxCredit, inputs ::
      var c := Created(role, initialCount, maxCredit);
      l == RunLink(c, inputs).state && transfers == Accepted(c, inputs, [])
  }

  lemma ReachedRecords(l: LinkState, transfers: seq<Input>)
    requires Reached(l, transfers)
    ensures Records(l, transfers)
  {
    hide RunLink, Accepted;
    var role, initialCount, maxCredit, inputs :|
      var c := Created(role, initialCount, maxCredit);
      l == RunLink(c, inputs).state && transfers == Accepted(c, inputs, []);
    RunRecords(Created(role, initialCount, maxCredit), inputs, []);
  }

  /** Transfer number `op` is pending. */
  predicate Pends(l: LinkState, op: nat) {
    l.pending.Listed? && exists k :: 0 <= k < |l.pending.deliveries| && l.pending.deliveries[k].op == op
  }

  /** After an accepted transfer it is pending; in all other cases the link is as it was. */
  lemma TransferVerdicts(l: LinkState, i: Input)
    requires i.TransferAsync?
    ensures var o := OnInput(l, i);
      if Accepts(l, i) then
        && Pends(o.state, l.accepted) && o.state.accepted == l.accepted + 1 && o.state.credit == l.credit - 1 && o.outputs == []
        && o.state.pending.deliveries[..|l.pending.deliveries|] == l.pending.deliveries
      else o == Out(l, [])
    ensures TransferVerdict(l, i.answer) ==
      if Accepts(l, i) then TransferStarted(l.accepted)
      else if l.role.Sender? && l.phase.Attached? && (l.credit == 0 || (l.pending.Listed? && i.answer.Busy?)) then TransferBusy
      else TransferError
  {
    var l' := OnInput(l, i).state;
    if Accepts(l, i) {
      assert l'.pending.deliveries[|l.pending.deliveries|].op == l.accepted;
    }
  }

  // ---------------------------------------------------------------- how they end

  datatype Fate = Stays | Forgotten | Told(reason: Reason)

  /** What an event means for transfer number `op`, which `t` accepted, while it is pending. */
  function FateOf(role: Role, i: Input, t: Input, op: nat): Fate
    requires t.TransferAsync? && t.answer.Taken?
  {
    match i
    case DispositionReceived(first, last, settled, hasState) =>
      if settled && first <= t.answer.id <= (if last.Some? then last.value else first) then
        if hasState then Told(DispositionSettled) else Forgotten
      else Stays
    case Cancel(cancelled) => if cancelled == op then Told(Cancelled) else Stays
    case DoWork(now) => if t.timeout != 0 && now - t.now >= t.timeout then Told(TimedOut) else Stays
    case DetachReceived(_, _, _, _) => Told(NotDelivered)
    case SessionDiscarding => Told(NotDelivered)
    case SessionFailed => Told(NotDelivered)
    case AttachReceived(count) => if role.Receiver? && count.None? then Told(NotDelivered) else Stays
    case FlowReceived(credit, count) => if role.Sender? && (credit.None? || count.None?) then Told(NotDelivered) else Stays
    case _ => Stays
  }

  /** The clock has not wrapped since the transfers were accepted. */
  predicate InTime(i: Input, transfers: seq<Input>) {
    i.DoWork? ==> i.now < 0x1_0000_0000_0000_0000 && forall k :: 0 <= k < |transfers| && transfers[k].TransferAsync? ==> transfers[k].now <= i.now
  }

  /** What an event does to pending transfer number `op`: off the list or not, and whom it calls back, with which id and why. */
  ghost predicate Settles(l: LinkState, o: Out, op: nat, id: nat, fate: Fate) {
    && (Pends(o.state, op) <==> fate.Stays?)
    && forall n: nat, r: Reason :: Settlement(op, n, r) in o.outputs <==> n == id && fate == Told(r)
  }

  predicate Quiet(o: Out) {
    forall k :: 0 <= k < |o.outputs| ==> !o.outputs[k].Settlement?
  }

  lemma PendingStands(l: LinkState, transfers: seq<Input>, op: nat)
    requires Records(l, transfers) && Pends(l, op)
    ensures op < |transfers| && transfers[op].TransferAsync? && transfers[op].answer.Taken?
  {
  }

  /** The deliveries of one operation all stand for the same transfer, so they are all chosen or all left. */
  lemma FilterSettles(l: LinkState, transfers: seq<Input>, p: Delivery -> bool, op: nat, told: bool, reason: Reason)
    requires Records(l, transfers) && Pends(l, op)
    ensures var o := Out(l.(pending := Listed(Left(l.pending.deliveries, p))), if told then Settlements(Chosen(l.pending.deliveries, p), reason) else []);
      var t := transfers[op];
      Settles(l, o, op, t.answer.id,
        if !p(Delivery(op, t.answer.id, t.now, t.timeout)) then Stays else if told then Told(reason) else Forgotten)
  {
    hide Chosen, Left;
    var ds, t := l.pending.deliveries, transfers[op];
    var d := Delivery(op, t.answer.id, t.now, t.timeout);
    assert forall k :: 0 <= k < |ds| && ds[k].op == op ==> ds[k] == d;
    forall e: Delivery
      ensures e in Chosen(ds, p) <==> e in ds && p(e)
      ensures e in Left(ds, p) <==> e in ds && !p(e)
    {
      ChosenExactly(ds, p, e);
    }
    forall k | 0 <= k < |Left(ds, p)| && Left(ds, p)[k].op == op ensures !p(d) {
      assert Left(ds, p)[k] in ds && Left(ds, p)[k] == d;
    }
    forall k | 0 <= k < |Chosen(ds, p)| && Chosen(ds, p)[k].op == op ensures Chosen(ds, p)[k] == d && p(d) {
      assert Chosen(ds, p)[k] in ds;
    }
    assert d in ds;
    if p(d) {
      var k :| 0 <= k < |Chosen(ds, p)| && Chosen(ds, p)[k] == d;
      assert Settlements(Chosen(ds, p), reason)[k] == Settlement(op, d.id, reason);
    } else {
      var k :| 0 <= k < |Left(ds, p)| && Left(ds, p)[k] == d;
    }
  }

  lemma GiveupSettles(l: LinkState, transfers: seq<Input>, before: seq<Output>, phase: Phase, op: nat, o: Out)
    requires Records(l, transfers) && Pends(l, op)
    requires o.state.pending.NoList? && o.outputs == before + Settlements(l.pending.deliveries, NotDelivered) + [PhaseChanged(phase)]
    requires forall k :: 0 <= k < |before| ==> !before[k].Settlement?
    ensures Settles(l, o, op, transfers[op].answer.id, Told(NotDelivered))
  {
    var ds, told := l.pending.deliveries, Settlements(l.pending.deliveries, NotDelivered);
    var k :| 0 <= k < |ds| && ds[k].op == op;
    var done := Settlement(op, transfers[op].answer.id, NotDelivered);
    assert told[k] == done;
    assert o.outputs[|before| + k] == done;
    forall n: nat, r: Reason | Settlement(op, n, r) in o.outputs ensures n == transfers[op].answer.id && r == NotDelivered {
      var j :| 0 <= j < |o.outputs| && o.outputs[j] == Settlement(op, n, r);
      assert o.outputs[j] == told[j - |before|];
    }
  }

  lemma QuietSettles(l: LinkState, o: Out, op: nat, id: nat)
    requires Pends(l, op) && o.state.pending == l.pending && Quiet(o)
    ensures Settles(l, o, op, id, Stays)
  {
  }

  lemma DetachSettles(l: LinkState, i: Input, transfers: seq<Input>, op: nat)
    requires Records(l, transfers) && Pends(l, op) && i.DetachReceived?
    ensures Settles(l, OnInput(l, i), op, transfers[op].answer.id, Told(NotDelivered))
  {
    hide Settlements, Settles, AnswerDetach;
    var a := AnswerDetach(l, i.close, i.attachOk, i.detachOk);
    AnswerQuiet(l, i.close, i.attachOk, i.detachOk);
    var phase := if i.hasError then Failed else Detached;
    var g := GiveupAndMove(a.state, phase);
    assert a.outputs + g.outputs == a.outputs + Settlements(l.pending.deliveries, NotDelivered) + [PhaseChanged(phase)];
    GiveupSettles(l, transfers, a.outputs, phase, op, OnInput(l, i));
  }

  lemma LossSettles(l: LinkState, i: Input, transfers: seq<Input>, op: nat)
    requires Records(l, transfers) && Pends(l, op) && !i.DetachReceived? && GivesUp(l, i)
    ensures Settles(l, OnInput(l, i), op, transfers[op].answer.id, Told(NotDelivered))
  {
    hide Settlements, Settles;
    var phase := if i.SessionFailed? then Failed else Detached;
    var told := Settlements(l.pending.deliveries, NotDelivered);
    assert [] + told == told;
    GiveupSettles(l, transfers, [], phase, op, OnInput(l, i));
  }

  lemma ListSettles(l: LinkState, i: Input, transfers: seq<Input>, op: nat)
    requires Records(l, transfers) && Pends(l, op) && InTime(i, transfers) && (i.DispositionReceived? || i.Cancel? || i.DoWork?)
    ensures op < |transfers| && transfers[op].TransferAsync? && transfers[op].answer.Taken?
    ensures Settles(l, OnInput(l, i), op, transfers[op].answer.id, FateOf(l.role, i, transfers[op], op))
  {
    hide Settlements, Settles, Chosen, Left;
    var t := transfers[op];
    if i.DispositionReceived? {
      if i.settled {
        FilterSettles(l, transfers, d => InRange(d, i.first, if i.last.Some? then i.last.value else i.first), op, i.hasState, DispositionSettled);
      } else {
        QuietSettles(l, OnInput(l, i), op, t.answer.id);
      }
    } else if i.Cancel? {
      FilterSettles(l, transfers, (d: Delivery) => d.op == i.op, op, true, Cancelled);
    } else {
      FilterSettles(l, transfers, (d: Delivery) => Expired(d, i.now), op, true, TimedOut);
    }
  }

  lemma OtherSettles(l: LinkState, i: Input, op: nat, id: nat)
    requires Pends(l, op) && !i.DispositionReceived? && !i.Cancel? && !i.DoWork? && !GivesUp(l, i)
    ensures Settles(l, OnInput(l, i), op, id, Stays)
  {
    if i.TransferAsync? {
      TransferKeepsPending(l, i, op, id);
    } else {
      QuietOthers(l, i);
      QuietSettles(l, OnInput(l, i), op, id);
    }
  }

  lemma TransferKeepsPending(l: LinkState, i: Input, op: nat, id: nat)
    requires i.TransferAsync? && Pends(l, op)
    ensures Settles(l, OnInput(l, i), op, id, Stays)
  {
    TransferVerdicts(l, i);
    var k :| 0 <= k < |l.pending.deliveries| && l.pending.deliveries[k].op == op;
    assert OnInput(l, i).state.pending.deliveries[k].op == op;
  }

  lemma QuietOthers(l: LinkState, i: Input)
    requires !i.DispositionReceived? && !i.Cancel? && !i.DoWork? && !i.TransferAsync? && !GivesUp(l, i)
    ensures OnInput(l, i).state.pending == l.pending && Quiet(OnInput(l, i))
  {
    hide OnInput;
    if i.TransferReceived? {
      QuietTransfer(l, i);
    } else {
      QuietRest(l, i);
    }
  }

  lemma QuietTransfer(l: LinkState, i: Input)
    requires i.TransferReceived?
    ensures OnInput(l, i).state.pending == l.pending && Quiet(OnInput(l, i)) && FlowOn !in OnInput(l, i).outputs
  {
  }

  lemma QuietRest(l: LinkState, i: Input)
    requires i.AttachReceived? || i.FlowReceived? || i.SessionMapped? || i.DetachCalled?
    requires !GivesUp(l, i)
    ensures OnInput(l, i).state.pending == l.pending && Quiet(OnInput(l, i))
  {
  }

  /**
   In every state a link can be in, and for every event: what becomes of each pending transfer follows from the event
   that accepted it. A disposition that names the id its session gave settles it, a tick its timeout after it ends it,
   and so on; its caller is told so, with that id, and at no other time.
   */
  lemma OutcomeExactlyWhen(l: LinkState, transfers: seq<Input>, i: Input, op: nat)
    requires Reached(l, transfers) && Pends(l, op) && InTime(i, transfers)
    ensures op < |transfers| && transfers[op].TransferAsync? && transfers[op].answer.Taken?
    ensures Settles(l, OnInput(l, i), op, transfers[op].answer.id, FateOf(l.role, i, transfers[op], op))
  {
    hide Settles, OnInput, Reached;
    ReachedRecords(l, transfers);
    PendingStands(l, transfers, op);
    if i.DispositionReceived? || i.Cancel? || i.DoWork? {
      ListSettles(l, i, transfers, op);
    } else if i.DetachReceived? {
      DetachSettles(l, i, transfers, op);
    } else if GivesUp(l, i) {
      LossSettles(l, i, transfers, op);
    } else {
      OtherSettles(l, i, op, transfers[op].answer.id);
    }
  }

  /** Nobody else is called back: only a transfer that was pending is. */
  lemma OnlyPendingSettled(l: LinkState, i: Input, k: nat)
    requires k < |OnInput(l, i).outputs| && OnInput(l, i).outputs[k].Settlement?
    ensures Pends(l, OnInput(l, i).outputs[k].op)
  {
    hide OnInput;
    if i.DispositionReceived? || i.Cancel? || i.DoWork? {
      FilteredWasPending(l, i, k);
    } else if GivesUp(l, i) {
      GivenUpWasPending(l, i, k);
    } else if i.TransferAsync? {
      TransferVerdicts(l, i);
    } else {
      QuietOthers(l, i);
    }
  }

  lemma GivenUpWasPending(l: LinkState, i: Input, k: nat)
    requires GivesUp(l, i) && k < |OnInput(l, i).outputs| && OnInput(l, i).outputs[k].Settlement?
    ensures Pends(l, OnInput(l, i).outputs[k].op)
  {
    hide AnswerDetach, GiveupAndMove;
    if i.DetachReceived? {
      var a := AnswerDetach(l, i.close, i.attachOk, i.detachOk);
      AnswerQuiet(l, i.close, i.attachOk, i.detachOk);
      GiveupTells(a.state, if i.hasError then Failed else Detached);
    } else {
      GiveupTells(l, if i.SessionFailed? then Failed else Detached);
    }
  }

  lemma GiveupTells(l: LinkState, phase: Phase)
    ensures forall k :: 0 <= k < |GiveupAndMove(l, phase).outputs| && GiveupAndMove(l, phase).outputs[k].Settlement? ==>
      Pends(l, GiveupAndMove(l, phase).outputs[k].op)
  {
  }

  lemma FilteredWasPending(l: LinkState, i: Input, k: nat)
    requires i.DispositionReceived? || i.Cancel? || i.DoWork?
    requires k < |OnInput(l, i).outputs|
    ensures OnInput(l, i).outputs[k].Settlement? && Pends(l, OnInput(l, i).outputs[k].op)
  {
    hide Chosen, Left, Expired, InRange;
    var ds := l.pending.deliveries;
    if i.DispositionReceived? {
      ChosenFrom(ds, d => InRange(d, i.first, if i.last.Some? then i.last.value else i.first));
    } else if i.Cancel? {
      ChosenFrom(ds, (d: Delivery) => d.op == i.op);
    } else {
      ChosenFrom(ds, (d: Delivery) => Expired(d, i.now));
    }
  }

  lemma {:induction false} ChosenFrom(ds: seq<Delivery>, p: Delivery -> bool)
    ensures forall k :: 0 <= k < |Chosen(ds, p)| ==> Chosen(ds, p)[k] in ds
    decreases |ds|
  {
    if ds != [] {
      ChosenFrom(ds[1..], p);
    }
  }

  /** Its owner hears that a sender can send exactly when a flow leaves it with credit. */
  lemma FlowOnExactlyWhen(l: LinkState, i: Input)
    ensures var o := OnInput(l, i); FlowOn in o.outputs <==> i.FlowReceived? && l.role.Sender? && !GivesUp(l, i) && o.state.credit > 0
  {
    hide OnInput;
    if i.FlowReceived? && l.role.Sender? && !GivesUp(l, i) {
      FlowTold(l, i);
    } else {
      NoFlowTold(l, i);
    }
  }

  lemma FlowTold(l: LinkState, i: Input)
    requires i.FlowReceived? && l.role.Sender? && !GivesUp(l, i)
    ensures var o := OnInput(l, i); o.outputs == if o.state.credit > 0 then [FlowOn] else []
  {
  }

  lemma NoFlowTold(l: LinkState, i: Input)
    requires !(i.FlowReceived? && l.role.Sender? && !GivesUp(l, i))
    ensures FlowOn !in OnInput(l, i).outputs
  {
    hide Chosen, Left, Expired, InRange, AnswerDetach;
    if i.TransferReceived? {
      QuietTransfer(l, i);
    } else if i.DetachReceived? {
      AnswerQuiet(l, i.close, i.attachOk, i.detachOk);
    } else if i.DispositionReceived? || i.Cancel? || i.DoWork? {
      forall k | 0 <= k < |OnInput(l, i).outputs| ensures OnInput(l, i).outputs[k].Settlement? {
        FilteredWasPending(l, i, k);
      }
    }
  }

  // ---------------------------------------------------------------- what a receiver answers

  /** A disposition goes out exactly with a complete delivery whose owner wants one, and carries its id. */
  lemma DispositionAnswersDelivery(l: LinkState, f: TransferFrame, reply: bool, id: nat)
    ensures var os := OnInput(l, TransferReceived(f, reply)).outputs;
      DispositionSent(id) in os <==> reply && exists k :: 0 <= k < |os| && os[k].Indicated? && os[k].id == id
  {
    var os := OnInput(l, TransferReceived(f, reply)).outputs;
    var n := |TopUp(l).outputs|;
    if !Misplaced(l, f) && !f.more {
      assert os[n].Indicated?;
      if reply {
        assert os[n + 1] == DispositionSent(os[n].id);
      }
    }
  }
}
