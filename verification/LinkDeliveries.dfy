/** Every delivery a link accepts is settled once or still pending, whatever happens in between. */
module LinkDeliveries {
  import opened Options
  import opened Counting
  import opened LinkSpec

  function Ops(ds: seq<Delivery>): (ops: seq<nat>)
    ensures |ops| == |ds|
  {
    if ds == [] then [] else [ds[0].op] + Ops(ds[1..])
  }

  function PendingOps(p: Pending): seq<nat> {
    if p.NoList? then [] else Ops(p.deliveries)
  }

  /** The operations whose callback was called, in order. */
  function Settled(os: seq<Output>): seq<nat> {
    if os == [] then [] else (if os[0].Settlement? then [os[0].op] else []) + Settled(os[1..])
  }

  // ---------------------------------------------------------------- lists

  lemma {:induction false} SettledConcat(a: seq<Output>, b: seq<Output>)
    ensures Settled(a + b) == Settled(a) + Settled(b)
    decreases |a|
  {
    if a == [] {
      assert a + b == b;
    } else {
      assert (a + b)[0] == a[0] && (a + b)[1..] == a[1..] + b;
      SettledConcat(a[1..], b);
    }
  }

  lemma {:induction false} SettledSettlements(ds: seq<Delivery>, reason: Reason)
    ensures Settled(Settlements(ds, reason)) == Ops(ds)
    decreases |ds|
  {
    if ds != [] {
      assert Settlements(ds, reason)[1..] == Settlements(ds[1..], reason);
      SettledSettlements(ds[1..], reason);
    }
  }

  /** `a` and `b` together hold what `c` holds, each operation as often. */
  ghost predicate Parts(a: seq<nat>, b: seq<nat>, c: seq<nat>) {
    |a| + |b| == |c| && forall x: nat :: Count(a, x) + Count(b, x) == Count(c, x)
  }

  lemma OpsOne(d: Delivery, ds: seq<Delivery>)
    ensures Ops([d] + ds) == [d.op] + Ops(ds)
  {
    assert ([d] + ds)[1..] == ds;
  }

  lemma OpsNone()
    ensures Ops([]) == []
  {
  }

  lemma {:induction false} NothingDuplicatedOrLost(ds: seq<Delivery>, p: Delivery -> bool)
    ensures Parts(Ops(Chosen(ds, p)), Ops(Left(ds, p)), Ops(ds))
    decreases |ds|
  {
    hide Ops, Count;
    if ds == [] {
      OpsNone();
      CountNone();
    } else {
      NothingDuplicatedOrLost(ds[1..], p);
      var d, c, l := ds[0], Chosen(ds[1..], p), Left(ds[1..], p);
      assert ds == [d] + ds[1..] && [] + c == c && [] + l == l;
      OpsOne(d, c);
      OpsOne(d, l);
      OpsOne(d, ds[1..]);
      forall x: nat
        ensures Count(Ops(Chosen(ds, p)), x) + Count(Ops(Left(ds, p)), x) == Count(Ops(ds), x)
      {
        CountOne(d.op, Ops(c), x);
        CountOne(d.op, Ops(l), x);
        CountOne(d.op, Ops(ds[1..]), x);
      }
    }
  }

  /** Exactly the deliveries that meet the condition are chosen, each as often as it was listed. */
  lemma {:induction false} ChosenExactly(ds: seq<Delivery>, p: Delivery -> bool, d: Delivery)
    ensures d in Chosen(ds, p) <==> d in ds && p(d)
    ensures d in Left(ds, p) <==> d in ds && !p(d)
    decreases |ds|
  {
    if ds != [] {
      ChosenExactly(ds[1..], p, d);
    }
  }

  lemma {:induction false} OpsAppend(ds: seq<Delivery>, d: Delivery)
    ensures Ops(ds + [d]) == Ops(ds) + [d.op]
    decreases |ds|
  {
    if ds != [] {
      assert (ds + [d])[0] == ds[0] && (ds + [d])[1..] == ds[1..] + [d];
      OpsAppend(ds[1..], d);
    }
  }

  // ---------------------------------------------------------------- accounting

  /**
   The pending operations, those called back and those forgotten are together the operations 0, 1, .. accepted so far,
   each once.
   */
  ghost predicate Accounted(l: LinkState, calledBack: seq<nat>, forgotten: seq<nat>) {
    && |PendingOps(l.pending)| + |calledBack| + |forgotten| == l.accepted
    && forall x: nat :: Count(PendingOps(l.pending), x) + Count(calledBack, x) + Count(forgotten, x) == if x < l.accepted then 1 else 0
  }

  /** An event that accepts nothing moves operations from the list to the callbacks. */
  ghost predicate Moves(l: LinkState, o: Out) {
    o.state.accepted == l.accepted && Parts(PendingOps(o.state.pending), Settled(o.outputs), PendingOps(l.pending))
  }

  /** The delivery ids a disposition names. */
  function Range(first: nat, last: Option<nat>): Delivery -> bool {
    d => InRange(d, first, if last.Some? then last.value else first)
  }

  /** A settled disposition without a state names a delivery that is pending. */
  predicate Forgets(l: LinkState, i: Input) {
    && i.DispositionReceived? && i.settled && !i.hasState && l.pending.Listed?
    && exists d :: d in l.pending.deliveries && Range(i.first, i.last)(d)
  }

  /** The operations that an event takes off the list without calling back. */
  function Forgotten(l: LinkState, i: Input): seq<nat> {
    if i.DispositionReceived? && i.settled && !i.hasState && l.pending.Listed? then
      Ops(Chosen(l.pending.deliveries, Range(i.first, i.last)))
    else []
  }

  /** No settled disposition of the run is without a state and names a delivery that is pending when it comes. */
  predicate NeverForgets(l: LinkState, inputs: seq<Input>)
    decreases |inputs|
  {
    inputs == [] || (!Forgets(l, inputs[0]) && NeverForgets(OnInput(l, inputs[0]).state, inputs[1..]))
  }

  function ForgottenIn(l: LinkState, inputs: seq<Input>): seq<nat>
    decreases |inputs|
  {
    if inputs == [] then [] else Forgotten(l, inputs[0]) + ForgottenIn(OnInput(l, inputs[0]).state, inputs[1..])
  }

  lemma {:induction false} NoneChosen(ds: seq<Delivery>, p: Delivery -> bool)
    ensures Chosen(ds, p) == [] <==> forall d :: d in ds ==> !p(d)
    decreases |ds|
  {
    if ds != [] {
      NoneChosen(ds[1..], p);
    }
  }

  lemma ForgetsSome(l: LinkState, i: Input)
    ensures Forgets(l, i) <==> Forgotten(l, i) != []
  {
    if l.pending.Listed? && i.DispositionReceived? {
      NoneChosen(l.pending.deliveries, Range(i.first, i.last));
    }
  }

  lemma {:induction false} NeverForgetsNone(l: LinkState, inputs: seq<Input>)
    ensures NeverForgets(l, inputs) <==> ForgottenIn(l, inputs) == []
    decreases |inputs|
  {
    hide OnInput, Forgets, Forgotten;
    if inputs != [] {
      ForgetsSome(l, inputs[0]);
      NeverForgetsNone(OnInput(l, inputs[0]).state, inputs[1..]);
    }
  }

  lemma NoSettlements(os: seq<Output>)
    requires forall k :: 0 <= k < |os| ==> !os[k].Settlement?
    ensures Settled(os) == []
  {
  }

  lemma NothingMoves(l: LinkState, o: Out)
    requires o.state.accepted == l.accepted && o.state.pending == l.pending
    requires forall k :: 0 <= k < |o.outputs| ==> !o.outputs[k].Settlement?
    ensures Moves(l, o)
  {
    NoSettlements(o.outputs);
  }

  lemma GiveupMoves(l: LinkState, phase: Phase)
    ensures Moves(l, GiveupAndMove(l, phase))
  {
    hide Settlements;
    var g := Giveup(l);
    SettledConcat(g.outputs, [PhaseChanged(phase)]);
    NoSettlements([PhaseChanged(phase)]);
    assert Settled(g.outputs) + [] == Settled(g.outputs);
    if l.pending.Listed? {
      SettledSettlements(l.pending.deliveries, NotDelivered);
    }
  }

  lemma ChosenMoves(l: LinkState, p: Delivery -> bool, reason: Reason)
    requires l.pending.Listed?
    ensures Moves(l, Out(l.(pending := Listed(Left(l.pending.deliveries, p))), Settlements(Chosen(l.pending.deliveries, p), reason)))
  {
    hide Settlements, Count, Ops;
    SettledSettlements(Chosen(l.pending.deliveries, p), reason);
    NothingDuplicatedOrLost(l.pending.deliveries, p);
  }

  /** The answer to the peer's detach leaves the list alone. */
  lemma AnswerQuiet(l: LinkState, close: bool, attachOk: bool, detachOk: bool)
    ensures var a := AnswerDetach(l, close, attachOk, detachOk);
      && a.state == l.(closed := a.state.closed, deliveryCount := a.state.deliveryCount)
      && forall k :: 0 <= k < |a.outputs| ==> a.outputs[k].AttachSent? || a.outputs[k].DetachSent?
  {
  }

  lemma DetachMoves(l: LinkState, i: Input)
    requires i.DetachReceived?
    ensures Moves(l, OnInput(l, i))
  {
    hide Giveup, Count, Ops, Settled, AnswerDetach;
    var a := AnswerDetach(l, i.close, i.attachOk, i.detachOk);
    AnswerQuiet(l, i.close, i.attachOk, i.detachOk);
    NoSettlements(a.outputs);
    var g := GiveupAndMove(a.state, if i.hasError then Failed else Detached);
    GiveupMoves(a.state, if i.hasError then Failed else Detached);
    SettledConcat(a.outputs, g.outputs);
    assert [] + Settled(g.outputs) == Settled(g.outputs);
  }

  lemma FrameMoves(l: LinkState, i: Input)
    requires i.AttachReceived? || i.FlowReceived? || i.TransferReceived?
    ensures Moves(l, OnInput(l, i))
  {
    hide GiveupAndMove, Moves;
    GiveupMoves(l, Detached);
    if OnInput(l, i) != GiveupAndMove(l, Detached) {
      NothingMoves(l, OnInput(l, i));
    }
  }

  lemma DetachCalledMoves(l: LinkState, i: Input)
    requires i.DetachCalled? || i.SessionMapped?
    ensures Moves(l, OnInput(l, i))
  {
    hide Moves;
    NothingMoves(l, OnInput(l, i));
  }

  /** What becomes of the list when a settled disposition carries no state. */
  lemma StatelessLeaves(l: LinkState, first: nat, last: Option<nat>)
    requires l.pending.Listed?
    ensures var o := OnInput(l, DispositionReceived(first, last, true, false));
      o == Out(l.(pending := Listed(Left(l.pending.deliveries, Range(first, last)))), [])
  {
    hide Chosen, Left;
    SameChoice(l.pending.deliveries, d => InRange(d, first, if last.Some? then last.value else first), Range(first, last));
  }

  /**
   Without a state a disposition forgets deliveries, off the list with nobody called back, if and only if it names one
   that is pending.
   */
  lemma StatelessDispositionForgets(l: LinkState, first: nat, last: Option<nat>)
    requires l.pending.Listed?
    ensures Moves(l, OnInput(l, DispositionReceived(first, last, true, false))) <==> Chosen(l.pending.deliveries, Range(first, last)) == []
    ensures Moves(l, OnInput(l, DispositionReceived(first, last, true, false))) <==>
      forall d :: d in l.pending.deliveries ==> !(first <= d.id <= if last.Some? then last.value else first)
  {
    hide Chosen, Left, Ops, Count;
    var ds, p := l.pending.deliveries, Range(first, last);
    StatelessLeaves(l, first, last);
    NothingDuplicatedOrLost(ds, p);
    NoneChosen(ds, p);
    OpsNone();
    CountNone();
    SettledNone();
  }

  lemma SettledNone()
    ensures Settled([]) == []
  {
  }

  lemma ListMoves(l: LinkState, i: Input)
    requires i.DispositionReceived? || i.Cancel? || i.DoWork?
    requires !(i.DispositionReceived? && i.settled && !i.hasState)
    ensures Moves(l, OnInput(l, i))
  {
    hide Settlements, Moves, Chosen, Left, Expired, InRange;
    if l.pending.NoList? || (i.DispositionReceived? && !i.settled) {
      NothingMoves(l, OnInput(l, i));
    } else if i.DispositionReceived? {
      ChosenMoves(l, d => InRange(d, i.first, if i.last.Some? then i.last.value else i.first), DispositionSettled);
    } else if i.Cancel? {
      ChosenMoves(l, (d: Delivery) => d.op == i.op, Cancelled);
    } else {
      ChosenMoves(l, (d: Delivery) => Expired(d, i.now), TimedOut);
    }
  }

  lemma DispositionMoves(l: LinkState, i: Input)
    requires i.DispositionReceived?
    ensures Moves(l, OnInput(l, i)) <==> !Forgets(l, i)
  {
    hide Moves, OnInput;
    if !i.settled || i.hasState {
      ListMoves(l, i);
    } else if l.pending.NoList? {
      NoListDisposition(l, i);
    } else {
      StatelessDispositionForgets(l, i.first, i.last);
      ForgetsSome(l, i);
    }
  }

  lemma NoListDisposition(l: LinkState, i: Input)
    requires i.DispositionReceived? && l.pending.NoList?
    ensures Moves(l, OnInput(l, i))
  {
    NothingMoves(l, OnInput(l, i));
  }

  /** Every event but a transfer only moves deliveries from the list to the callbacks, if and only if it forgets none. */
  lemma InputMoves(l: LinkState, i: Input)
    requires !i.TransferAsync?
    ensures Moves(l, OnInput(l, i)) <==> !Forgets(l, i)
  {
    hide Moves, GiveupAndMove, OnAttach, OnFlow, OnTransfer, OnDisposition, OnDetach, OnSessionMapped, OnCancel, OnDoWork, OnDetachCalled;
    match i
    case AttachReceived(_) => FrameMoves(l, i);
    case FlowReceived(_, _) => FrameMoves(l, i);
    case TransferReceived(_, _) => FrameMoves(l, i);
    case DispositionReceived(_, _, _, _) => DispositionMoves(l, i);
    case DetachReceived(_, _, _, _) => DetachMoves(l, i);
    case SessionMapped(_) => DetachCalledMoves(l, i);
    case SessionDiscarding => GiveupMoves(l, Detached);
    case SessionFailed => GiveupMoves(l, Failed);
    case Cancel(_) => ListMoves(l, i);
    case DoWork(_) => ListMoves(l, i);
    case DetachCalled(_, _) => DetachCalledMoves(l, i);
  }

  /** Whatever an event takes off the list is called back or forgotten. */
  lemma InputBalances(l: LinkState, i: Input)
    requires !i.TransferAsync?
    ensures var o := OnInput(l, i);
      && o.state.accepted == l.accepted
      && |PendingOps(o.state.pending)| + |Settled(o.outputs)| + |Forgotten(l, i)| == |PendingOps(l.pending)|
      && forall x: nat ::
           Count(PendingOps(o.state.pending), x) + Count(Settled(o.outputs), x) + Count(Forgotten(l, i), x) == Count(PendingOps(l.pending), x)
  {
    hide Ops, Count, Chosen, Left, Settled, OnInput;
    InputMoves(l, i);
    ForgetsSome(l, i);
    CountNone();
    SettledNone();
    if Forgets(l, i) {
      StatelessLeaves(l, i.first, i.last);
      NothingDuplicatedOrLost(l.pending.deliveries, Range(i.first, i.last));
    }
  }

  lemma TransferAccounted(l: LinkState, i: Input, calledBack: seq<nat>, forgotten: seq<nat>)
    requires Accounted(l, calledBack, forgotten) && i.TransferAsync?
    ensures Accounted(OnInput(l, i).state, calledBack, forgotten)
  {
    hide Ops;
    if TransferVerdict(l, i.answer).TransferStarted? {
      OpsAppend(l.pending.deliveries, Delivery(l.accepted, i.answer.id, i.now, i.timeout));
      var pending := Ops(l.pending.deliveries);
      forall x: nat
        ensures Count(pending + [l.accepted], x) == Count(pending, x) + if x == l.accepted then 1 else 0
      {
        CountConcat(pending, [l.accepted], x);
        CountOne(l.accepted, [], x);
        assert [l.accepted] + [] == [l.accepted];
      }
    }
  }

  lemma InputAccounted(l: LinkState, i: Input, calledBack: seq<nat>, forgotten: seq<nat>)
    requires Accounted(l, calledBack, forgotten)
    ensures var o := OnInput(l, i); Accounted(o.state, calledBack + Settled(o.outputs), forgotten + Forgotten(l, i))
  {
    hide OnInput, Count, PendingOps;
    var o := OnInput(l, i);
    if i.TransferAsync? {
      TransferAccounted(l, i, calledBack, forgotten);
      TransferQuiet(l, i);
      assert calledBack + [] == calledBack && forgotten + [] == forgotten;
    } else {
      InputBalances(l, i);
      forall x: nat
        ensures Count(PendingOps(o.state.pending), x) + Count(calledBack + Settled(o.outputs), x)
          + Count(forgotten + Forgotten(l, i), x) == if x < l.accepted then 1 else 0
      {
        CountConcat(calledBack, Settled(o.outputs), x);
        CountConcat(forgotten, Forgotten(l, i), x);
      }
    }
  }

  lemma TransferQuiet(l: LinkState, i: Input)
    requires i.TransferAsync?
    ensures Settled(OnInput(l, i).outputs) == []
  {
  }

  lemma {:induction false} RunAccounted(l: LinkState, inputs: seq<Input>, calledBack: seq<nat>, forgotten: seq<nat>)
    requires Accounted(l, calledBack, forgotten)
    ensures var r := RunLink(l, inputs); Accounted(r.state, calledBack + Settled(r.outputs), forgotten + ForgottenIn(l, inputs))
    decreases |inputs|
  {
    hide OnInput, Accounted, Forgotten;
    if inputs == [] {
      assert calledBack + [] == calledBack && forgotten + [] == forgotten;
    } else {
      InputAccounted(l, inputs[0], calledBack, forgotten);
      var o := OnInput(l, inputs[0]);
      RunAccounted(o.state, inputs[1..], calledBack + Settled(o.outputs), forgotten + Forgotten(l, inputs[0]));
      var r := RunLink(o.state, inputs[1..]);
      SettledConcat(o.outputs, r.outputs);
      assert (calledBack + Settled(o.outputs)) + Settled(r.outputs) == calledBack + (Settled(o.outputs) + Settled(r.outputs));
      var more := ForgottenIn(o.state, inputs[1..]);
      assert (forgotten + Forgotten(l, inputs[0])) + more == forgotten + (Forgotten(l, inputs[0]) + more);
    }
  }

  /**
   Over any interleaving of transfers, dispositions, timeouts, cancellations, detaches and session losses, each accepted
   delivery is pending, called back, or forgotten, in one place only and once only. Nothing is forgotten, and so
   accepted = called back + pending, if and only if no settled disposition without a state names a delivery that is
   pending when it comes.
   */
  lemma EachDeliverySettledOnce(role: Role, initialCount: nat, maxCredit: nat, inputs: seq<Input>)
    ensures var l := Created(role, initialCount, maxCredit);
      var r := RunLink(l, inputs); var called, pending := Settled(r.outputs), PendingOps(r.state.pending);
      var forgotten := ForgottenIn(l, inputs);
      && (forall j, k :: 0 <= j < k < |called| ==> called[j] != called[k])
      && (forall op: nat :: op < r.state.accepted <==> op in called || op in pending || op in forgotten)
      && (forall op :: op in called ==> op !in pending && op !in forgotten)
      && (forall op :: op in pending ==> op !in forgotten)
      && r.state.accepted == |called| + |pending| + |forgotten|
      && (NeverForgets(l, inputs) <==> forgotten == [])
      && (NeverForgets(l, inputs) <==> r.state.accepted == |called| + |pending|)
      && (NeverForgets(l, inputs) <==> forall op: nat :: op < r.state.accepted ==> op in called || op in pending)
  {
    hide RunLink, Count, PendingOps, NeverForgets, ForgottenIn;
    var l := Created(role, initialCount, maxCredit);
    NothingAccepted(role, initialCount, maxCredit);
    RunAccounted(l, inputs, [], []);
    NeverForgetsNone(l, inputs);
    var r := RunLink(l, inputs);
    var called: seq<nat>, pending: seq<nat> := Settled(r.outputs), PendingOps(r.state.pending);
    var forgotten: seq<nat> := ForgottenIn(l, inputs);
    assert [] + called == called && [] + forgotten == forgotten;
    forall op: nat
      ensures op < r.state.accepted <==> op in called || op in pending || op in forgotten
      ensures (op in called ==> op !in pending && op !in forgotten) && (op in pending ==> op !in forgotten)
    {
      CountIn(called, op);
      CountIn(pending, op);
      CountIn(forgotten, op);
    }
    Distinct(called);
    if forgotten != [] {
      assert forgotten[0] in forgotten && forgotten[0] < r.state.accepted;
    }
  }

  lemma NothingAccepted(role: Role, initialCount: nat, maxCredit: nat)
    ensures Accounted(Created(role, initialCount, maxCredit), [], [])
  {
  }

  /** A disposition calls back exactly the pending deliveries with ids from `first` to `last`, and leaves the others. */
  lemma DispositionSettlesRange(l: LinkState, first: nat, last: Option<nat>, d: Delivery)
    requires l.pending.Listed?
    ensures var o := OnInput(l, DispositionReceived(first, last, true, true));
      var to := if last.Some? then last.value else first;
      && o.state.pending.Listed?
      && (d in o.state.pending.deliveries <==> d in l.pending.deliveries && !(first <= d.id <= to))
      && (Settlement(d.op, d.id, DispositionSettled) in o.outputs <==>
            exists e :: e in l.pending.deliveries && e.op == d.op && e.id == d.id && first <= d.id <= to)
  {
    hide Chosen, Left;
    var to := if last.Some? then last.value else first;
    var p, ds := (e: Delivery) => InRange(e, first, to), l.pending.deliveries;
    var o := OnInput(l, DispositionReceived(first, last, true, true));
    assert o == Out(l.(pending := Listed(Left(ds, p))), Settlements(Chosen(ds, p), DispositionSettled));
    forall e: Delivery
      ensures e in Chosen(ds, p) <==> e in ds && p(e)
      ensures e in Left(ds, p) <==> e in ds && !p(e)
    {
      ChosenExactly(ds, p, e);
    }
    if e :| e in ds && e.op == d.op && e.id == d.id && p(e) {
      var k :| 0 <= k < |Chosen(ds, p)| && Chosen(ds, p)[k] == e;
      assert o.outputs[k] == Settlement(d.op, d.id, DispositionSettled);
    }
  }

  lemma NoListStays(l: LinkState, i: Input)
    requires l.pending.NoList?
    ensures var o := OnInput(l, i); o.state.pending.NoList? && o.state.accepted == l.accepted
    ensures Settled(OnInput(l, i).outputs) == []
  {
    hide Chosen, Left, Settlements, Settled, Expired, InRange;
    if i.DetachReceived? {
      NoListDetach(l, i);
    } else if i.AttachReceived? || i.FlowReceived? || i.TransferReceived? {
      NoListFrame(l, i);
    } else {
      NoSettlements(OnInput(l, i).outputs);
    }
  }

  lemma NoListDetach(l: LinkState, i: Input)
    requires l.pending.NoList? && i.DetachReceived?
    ensures var o := OnInput(l, i); o.state.pending.NoList? && o.state.accepted == l.accepted
    ensures Settled(OnInput(l, i).outputs) == []
  {
    hide Settled, Settlements;
    NoSettlements(OnInput(l, i).outputs);
  }

  lemma NoListFrame(l: LinkState, i: Input)
    requires l.pending.NoList? && (i.AttachReceived? || i.FlowReceived? || i.TransferReceived?)
    ensures var o := OnInput(l, i); o.state.pending.NoList? && o.state.accepted == l.accepted
    ensures Settled(OnInput(l, i).outputs) == []
  {
    hide Settled, Settlements;
    NoSettlements(OnInput(l, i).outputs);
  }

  /** Once all deliveries were given up the link accepts none, even when it is attached again. */
  lemma {:induction false} NoneAcceptedAfterGiveup(l: LinkState, inputs: seq<Input>)
    requires l.pending.NoList?
    ensures var r := RunLink(l, inputs); r.state.pending.NoList? && r.state.accepted == l.accepted && Settled(r.outputs) == []
    decreases |inputs|
  {
    hide OnInput;
    if inputs != [] {
      var o := OnInput(l, inputs[0]);
      NoListStays(l, inputs[0]);
      NoneAcceptedAfterGiveup(o.state, inputs[1..]);
      SettledConcat(o.outputs, RunLink(o.state, inputs[1..]).outputs);
    }
  }

  /** All deliveries are given up: the peer detached, the session was lost, or a frame lacked what it must carry. */
  predicate GivesUp(l: LinkState, i: Input) {
    || i.DetachReceived? || i.SessionDiscarding? || i.SessionFailed?
    || (i.AttachReceived? && l.role.Receiver? && i.count.None?)
    || (i.FlowReceived? && l.role.Sender? && (i.credit.None? || i.count.None?))
  }

  predicate EverGivesUp(l: LinkState, inputs: seq<Input>)
    decreases |inputs|
  {
    inputs != [] && (GivesUp(l, inputs[0]) || EverGivesUp(OnInput(l, inputs[0]).state, inputs[1..]))
  }

  lemma GiveupEndsList(l: LinkState, i: Input)
    ensures OnInput(l, i).state.pending.NoList? <==> l.pending.NoList? || GivesUp(l, i)
  {
    hide Chosen, Left, Settlements;
  }

  lemma {:induction false} ListGoneExactlyWhen(l: LinkState, inputs: seq<Input>)
    ensures RunLink(l, inputs).state.pending.NoList? <==> l.pending.NoList? || EverGivesUp(l, inputs)
    decreases |inputs|
  {
    hide OnInput, GivesUp;
    if inputs != [] {
      GiveupEndsList(l, inputs[0]);
      ListGoneExactlyWhen(OnInput(l, inputs[0]).state, inputs[1..]);
    }
  }

  /** An attached sender with credit, whose session takes the transfer, accepts it if and only if nothing was ever given up. */
  lemma AcceptsExactlyWhen(initialCount: nat, maxCredit: nat, inputs: seq<Input>, id: nat)
    ensures var l := RunLink(Created(Sender, initialCount, maxCredit), inputs).state;
      l.role.Sender? && l.phase.Attached? && l.credit > 0 ==>
        (TransferVerdict(l, Taken(id)).TransferStarted? <==> !EverGivesUp(Created(Sender, initialCount, maxCredit), inputs))
  {
    hide RunLink, EverGivesUp;
    ListGoneExactlyWhen(Created(Sender, initialCount, maxCredit), inputs);
  }
}
