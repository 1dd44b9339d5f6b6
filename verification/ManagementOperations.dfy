/** Every accepted management operation is pending, completed once, or cancelled, over whole runs. */
module ManagementOperations {
  import opened Options
  import opened Counting
  import opened ManagementSpec

  function Ops(ops: seq<Operation>): (s: seq<nat>)
    ensures |s| == |ops|
    ensures forall k :: 0 <= k < |ops| ==> s[k] == ops[k].op
  {
    if ops == [] then [] else [ops[0].op] + Ops(ops[1..])
  }

  function CompletedOps(os: seq<Output>): seq<nat> {
    if os == [] then [] else (if os[0].Completed? then [os[0].op] else []) + CompletedOps(os[1..])
  }

  function CancelledOps(os: seq<Output>): seq<nat> {
    if os == [] then [] else (if os[0].Cancelled? then [os[0].op] else []) + CancelledOps(os[1..])
  }

  lemma {:induction false} CompletedConcat(a: seq<Output>, b: seq<Output>)
    ensures CompletedOps(a + b) == CompletedOps(a) + CompletedOps(b)
    decreases |a|
  {
    if a == [] {
      assert a + b == b;
    } else {
      assert (a + b)[0] == a[0] && (a + b)[1..] == a[1..] + b;
      CompletedConcat(a[1..], b);
    }
  }

  lemma {:induction false} CancelledConcat(a: seq<Output>, b: seq<Output>)
    ensures CancelledOps(a + b) == CancelledOps(a) + CancelledOps(b)
    decreases |a|
  {
    if a == [] {
      assert a + b == b;
    } else {
      assert (a + b)[0] == a[0] && (a + b)[1..] == a[1..] + b;
      CancelledConcat(a[1..], b);
    }
  }

  lemma OutputsConcat(a: seq<Output>, b: seq<Output>)
    ensures CompletedOps(a + b) == CompletedOps(a) + CompletedOps(b)
    ensures CancelledOps(a + b) == CancelledOps(a) + CancelledOps(b)
  {
    hide CompletedOps, CancelledOps;
    CompletedConcat(a, b);
    CancelledConcat(a, b);
  }

  lemma QuietOutputs(os: seq<Output>)
    requires forall k :: 0 <= k < |os| ==> !os[k].Completed? && !os[k].Cancelled?
    ensures CompletedOps(os) == [] && CancelledOps(os) == []
  {
  }

  // ---------------------------------------------------------------- the invariant

  /** How often operation `x` is pending, completed or cancelled in all. */
  function Tally(ops: seq<Operation>, completed: seq<nat>, cancelled: seq<nat>, x: nat): nat {
    Count(Ops(ops), x) + Count(completed, x) + Count(cancelled, x)
  }

  ghost predicate Conserved(m: Management, completed: seq<nat>, cancelled: seq<nat>) {
    && |m.pending| + |completed| + |cancelled| == m.accepted
    && forall x: nat :: Tally(m.pending, completed, cancelled, x) == if x < m.accepted then 1 else 0
  }

  /** Outside a send an operation is confirmed exactly when it has no send handle; its id is its number. */
  predicate Settled(o: Operation) {
    !o.inSend && (o.confirmed <==> !o.sending) && o.id == o.op % 0x1_0000_0000_0000_0000
  }

  predicate Tidy(m: Management) {
    (forall k :: 0 <= k < |m.pending| ==> Settled(m.pending[k]) && m.pending[k].op < m.accepted)
    && m.nextId == m.accepted % 0x1_0000_0000_0000_0000
  }

  lemma {:induction false} OpsConcat(a: seq<Operation>, b: seq<Operation>)
    ensures Ops(a + b) == Ops(a) + Ops(b)
    decreases |a|
  {
    if a == [] {
      assert a + b == b;
    } else {
      assert (a + b)[0] == a[0] && (a + b)[1..] == a[1..] + b;
      OpsConcat(a[1..], b);
    }
  }

  lemma CountSingle(y: nat, x: nat)
    ensures Count([y], x) == if x == y then 1 else 0
  {
    CountOne(y, [], x);
    assert [y] + [] == [y];
  }

  lemma OneOp(o: Operation)
    ensures Ops([o]) == [o.op]
  {
    assert [o][1..] == [];
  }

  lemma CountWithout(ops: seq<Operation>, i: nat, x: nat)
    requires i < |ops|
    ensures Count(Ops(Without(ops, i)), x) + (if ops[i].op == x then 1 else 0) == Count(Ops(ops), x)
  {
    hide Ops, Count;
    var a, b := ops[..i], ops[i + 1..];
    assert ops == a + ([ops[i]] + b);
    OpsConcat(a, [ops[i]] + b);
    OpsConcat([ops[i]], b);
    OpsConcat(a, b);
    OneOp(ops[i]);
    CountConcat(Ops(a), [ops[i].op] + Ops(b), x);
    CountConcat([ops[i].op], Ops(b), x);
    CountConcat(Ops(a), Ops(b), x);
    CountSingle(ops[i].op, x);
  }

  // ---------------------------------------------------------------- steps

  /** An event moves what leaves the list into what was completed or cancelled. */
  ghost predicate Moves(m: Management, o: Out) {
    && o.state.accepted == m.accepted
    && |o.state.pending| + |CompletedOps(o.outputs)| + |CancelledOps(o.outputs)| == |m.pending|
    && forall x: nat :: Tally(o.state.pending, CompletedOps(o.outputs), CancelledOps(o.outputs), x) == Count(Ops(m.pending), x)
  }

  lemma StaysPut(m: Management, o: Out)
    requires o.state.accepted == m.accepted && Ops(o.state.pending) == Ops(m.pending)
    requires forall k :: 0 <= k < |o.outputs| ==> !o.outputs[k].Completed? && !o.outputs[k].Cancelled?
    ensures Moves(m, o)
  {
    QuietOutputs(o.outputs);
    assert |Ops(o.state.pending)| == |o.state.pending| && |Ops(m.pending)| == |m.pending|;
  }

  /** One operation leaves the list and is completed, or cancelled; other outputs may surround that. */
  lemma OneLeaves(m: Management, o: Out, i: nat, before: seq<Output>, out: Output, after: seq<Output>)
    requires i < |m.pending| && o.state.accepted == m.accepted && o.state.pending == Without(m.pending, i)
    requires o.outputs == before + [out] + after
    requires out == Cancelled(m.pending[i].op) || (out.Completed? && out.op == m.pending[i].op)
    requires forall k :: 0 <= k < |before| ==> !before[k].Completed? && !before[k].Cancelled?
    requires forall k :: 0 <= k < |after| ==> !after[k].Completed? && !after[k].Cancelled?
    ensures Moves(m, o)
  {
    hide Ops, Count, CompletedOps, CancelledOps;
    QuietOutputs(before);
    QuietOutputs(after);
    OutputsConcat(before + [out], after);
    OutputsConcat(before, [out]);
    OneOutput(out);
    var op := m.pending[i].op;
    assert CompletedOps(o.outputs) == (if out.Completed? then [op] else []);
    assert CancelledOps(o.outputs) == (if out.Completed? then [] else [op]);
    forall x: nat
      ensures Tally(o.state.pending, CompletedOps(o.outputs), CancelledOps(o.outputs), x) == Count(Ops(m.pending), x)
    {
      CountWithout(m.pending, i, x);
      CountSingle(op, x);
      CountNone();
    }
  }

  lemma OneOutput(out: Output)
    ensures CompletedOps([out]) == if out.Completed? then [out.op] else []
    ensures CancelledOps([out]) == if out.Cancelled? then [out.op] else []
  {
    assert [out][1..] == [];
  }

  lemma MarkedInPlace(ops: seq<Operation>, i: nat, o: Operation)
    requires i < |ops| && o.op == ops[i].op
    ensures Ops(ops[i := o]) == Ops(ops)
  {
  }

  lemma FinishedMoves(m: Management, op: nat, r: SendResult)
    ensures Moves(m, OnSendFinished(m, op, r))
  {
    hide Moves;
    var i := FindOp(m.pending, op, 0);
    if i == |m.pending| {
      StaysPut(m, OnSendFinished(m, op, r));
    } else if r.SendError? && !m.pending[i].inSend {
      var out := Completed(op, OperationError);
      assert [out] == [] + [out] + [];
      OneLeaves(m, OnSendFinished(m, op, r), i, [], out, []);
    } else {
      MarkedInPlace(m.pending, i, Marked(m.pending[i], r));
      StaysPut(m, OnSendFinished(m, op, r));
    }
  }

  lemma ResponseMoves(m: Management, reply: Option<Reply>)
    ensures Moves(m, OnResponse(m, reply))
  {
    hide Moves;
    var o := OnResponse(m, reply);
    if reply.None? || FindId(m.pending, reply.value.correlation, 0) == |m.pending| {
      StaysPut(m, o);
    } else {
      var i := FindId(m.pending, reply.value.correlation, 0);
      var p := m.pending[i];
      var withdrawn := if !p.confirmed && p.sending then [SendWithdrawn(p.op)] else [];
      var error := if !p.confirmed && !p.sending then [ErrorReported] else [];
      OneLeaves(m, o, i, withdrawn, Completed(p.op, ReplyResult(p, reply.value.status)), error);
    }
  }

  lemma CancelMoves(m: Management, op: nat)
    ensures Moves(m, OnCancel(m, op))
  {
    hide Moves;
    var i := FindOp(m.pending, op, 0);
    if i == |m.pending| {
      StaysPut(m, OnCancel(m, op));
    } else {
      var before := if m.pending[i].sending then [SendWithdrawn(op)] else [];
      assert before + [Cancelled(op)] == before + [Cancelled(op)] + [];
      OneLeaves(m, OnCancel(m, op), i, before, Cancelled(op), []);
    }
  }

  /** One event after the other. */
  lemma MovesThen(m: Management, a: Out, b: Out)
    requires Moves(m, a) && Moves(a.state, b)
    ensures Moves(m, Out(b.state, a.outputs + b.outputs))
  {
    hide Ops, Count, CompletedOps, CancelledOps;
    OutputsConcat(a.outputs, b.outputs);
    forall x: nat
      ensures Tally(b.state.pending, CompletedOps(a.outputs + b.outputs), CancelledOps(a.outputs + b.outputs), x) == Count(Ops(m.pending), x)
    {
      assert Tally(a.state.pending, CompletedOps(a.outputs), CancelledOps(a.outputs), x) == Count(Ops(m.pending), x);
      assert Tally(b.state.pending, CompletedOps(b.outputs), CancelledOps(b.outputs), x) == Count(Ops(a.state.pending), x);
      CountConcat(CompletedOps(a.outputs), CompletedOps(b.outputs), x);
      CountConcat(CancelledOps(a.outputs), CancelledOps(b.outputs), x);
    }
  }

  lemma {:induction false} FinishedAllMoves(m: Management, finished: seq<(nat, SendResult)>)
    ensures Moves(m, OnFinishedAll(m, finished))
    decreases |finished|
  {
    hide Moves, OnSendFinished;
    if finished == [] {
      StaysPut(m, Out(m, []));
    } else {
      var o := OnSendFinished(m, finished[0].0, finished[0].1);
      FinishedMoves(m, finished[0].0, finished[0].1);
      FinishedAllMoves(o.state, finished[1..]);
      MovesThen(m, o, OnFinishedAll(o.state, finished[1..]));
    }
  }

  lemma {:induction false} ClosedOutputs(ops: seq<Operation>)
    ensures CompletedOps(ClosedAll(ops)) == Ops(ops) && CancelledOps(ClosedAll(ops)) == []
    decreases |ops|
  {
    if ops != [] {
      ClosedOutputs(ops[1..]);
      assert ClosedAll(ops)[1..] == ClosedAll(ops[1..]);
    }
  }

  lemma AllClosedMoves(m: Management)
    ensures Moves(m, Out(m.(state := Idle, pending := []), ClosedAll(m.pending)))
  {
    hide Count;
    ClosedOutputs(m.pending);
    CountNone();
  }

  lemma CloseMoves(m: Management, finished: seq<(nat, SendResult)>, senderOk: bool, receiverOk: bool)
    ensures Moves(m, OnClose(m, finished, senderOk, receiverOk))
  {
    hide Moves, OnFinishedAll, ClosedAll;
    if m.state.Idle? {
      StaysPut(m, Out(m, []));
    } else {
      var told := if m.state.Opening? then [OpenCancelled] else [];
      var closing := m.(state := Closing);
      StaysPut(m, Out(closing, told));
      var f := OnFinishedAll(closing, finished);
      FinishedAllMoves(closing, finished);
      MovesThen(m, Out(closing, told), f);
      if senderOk && receiverOk {
        AllClosedMoves(f.state);
        MovesThen(m, Out(f.state, told + f.outputs), Out(f.state.(state := Idle, pending := []), ClosedAll(f.state.pending)));
      }
    }
  }

  lemma StateMoves(m: Management, i: Input)
    requires i.OpenCalled? || i.SenderChanged? || i.ReceiverChanged?
    ensures Moves(m, OnInput(m, i))
  {
    hide Moves, OnSenderChanged, OnReceiverChanged;
    if i.SenderChanged? {
      SenderStays(m, i.now);
    } else if i.ReceiverChanged? {
      ReceiverStays(m, i.now);
    } else {
      StaysPut(m, OnInput(m, i));
    }
  }

  lemma SenderStays(m: Management, now: EndpointState)
    ensures Moves(m, OnSenderChanged(m, now))
  {
    hide Moves, Ops;
    StaysPut(m, OnSenderChanged(m, now));
  }

  lemma ReceiverStays(m: Management, now: EndpointState)
    ensures Moves(m, OnReceiverChanged(m, now))
  {
    hide Moves, Ops;
    StaysPut(m, OnReceiverChanged(m, now));
  }

  lemma InputMoves(m: Management, i: Input)
    requires !i.Execute?
    ensures Moves(m, OnInput(m, i))
  {
    hide Moves, OnClose, OnCancel, OnResponse, OnSendFinished, OnOpen, OnSenderChanged, OnReceiverChanged;
    match i
    case OpenCalled(_, _) => StateMoves(m, i);
    case SenderChanged(_) => StateMoves(m, i);
    case ReceiverChanged(_) => StateMoves(m, i);
    case SendFinished(op, r) => FinishedMoves(m, op, r);
    case Response(reply) => ResponseMoves(m, reply);
    case CancelCalled(op) => CancelMoves(m, op);
    case CloseCalled(finished, senderOk, receiverOk) => CloseMoves(m, finished, senderOk, receiverOk);
  }

  /** Handles are handed out once: no pending operation has the number the next one gets. */
  predicate Unused(ops: seq<Operation>, op: nat) {
    forall k :: 0 <= k < |ops| ==> ops[k].op != op
  }

  lemma NewFound(m: Management)
    requires Unused(m.pending, m.accepted)
    ensures FindOp(Listed(m).pending, m.accepted, 0) == |m.pending|
  {
    assert Listed(m).pending[|m.pending|].op == m.accepted;
  }

  lemma DuringSendQuiet(m: Management, inside: Option<SendResult>)
    requires Unused(m.pending, m.accepted)
    ensures var d := DuringSend(m, inside); var n := |m.pending|;
      && d.outputs == [] && d.state == m.(pending := d.state.pending)
      && |d.state.pending| == n + 1 && d.state.pending[..n] == m.pending
      && d.state.pending[n] == (if inside.None? then Listed(m).pending[n] else Marked(Listed(m).pending[n], inside.value))
  {
    NewFound(m);
    assert Listed(m).pending[..|m.pending|] == m.pending;
  }

  /**
   A request: refused, it leaves everything as it was; accepted, one more operation is pending, confirmed when its send
   finished inside the send call and else waiting for it. Nobody is called back, also when that send failed.
   */
  lemma ExecuteEffect(m: Management, inside: Option<SendResult>, handle: bool)
    requires Unused(m.pending, m.accepted)
    ensures var o := OnExecute(m, inside, handle);
      && o.outputs == []
      && (!Accepts(m, inside, handle) ==> o.state == m)
      && (Accepts(m, inside, handle) ==>
            o.state == m.(
              pending := m.pending + [Operation(m.accepted, m.nextId, inside.Some?, inside.None?, false, inside.Some?, false)],
              nextId := (m.nextId + 1) % 0x1_0000_0000_0000_0000,
              accepted := m.accepted + 1))
  {
    hide DuringSend;
    DuringSendQuiet(m, inside);
  }

  lemma CountAtLeastOne(ops: seq<Operation>, k: nat)
    requires k < |ops|
    ensures Count(Ops(ops), ops[k].op) > 0
  {
    CountIn(Ops(ops), ops[k].op);
  }

  /** No pending operation has the number of the next one, or it would be accounted for already. */
  lemma ConservedUnused(m: Management, completed: seq<nat>, cancelled: seq<nat>)
    requires Conserved(m, completed, cancelled)
    ensures Unused(m.pending, m.accepted)
  {
    hide Ops, Count;
    assert Tally(m.pending, completed, cancelled, m.accepted) == 0;
    forall k | 0 <= k < |m.pending|
      ensures m.pending[k].op != m.accepted
    {
      CountAtLeastOne(m.pending, k);
    }
  }

  /** A refused request changes nothing, an accepted one adds one pending operation; neither calls anybody back. */
  lemma ExecuteConserves(m: Management, inside: Option<SendResult>, handle: bool, completed: seq<nat>, cancelled: seq<nat>)
    requires Conserved(m, completed, cancelled)
    ensures var o := OnExecute(m, inside, handle);
      && o.outputs == [] && Conserved(o.state, completed, cancelled)
      && (if Accepts(m, inside, handle) then |o.state.pending| == |m.pending| + 1 && o.state.accepted == m.accepted + 1 else o.state == m)
  {
    hide Ops, Count, OnExecute;
    ConservedUnused(m, completed, cancelled);
    ExecuteEffect(m, inside, handle);
    if Accepts(m, inside, handle) {
      var m' := OnExecute(m, inside, handle).state;
      var o := m'.pending[|m.pending|];
      OpsConcat(m.pending, [o]);
      OneOp(o);
      forall x: nat
        ensures Count(Ops(m.pending + [o]), x) == Count(Ops(m.pending), x) + if x == m.accepted then 1 else 0
      {
        CountConcat(Ops(m.pending), [o.op], x);
        CountSingle(o.op, x);
      }
      forall x: nat
        ensures Tally(m.pending + [o], completed, cancelled, x) == if x < m.accepted + 1 then 1 else 0
      {
        assert Tally(m.pending, completed, cancelled, x) == if x < m.accepted then 1 else 0;
      }
    }
  }

  lemma InputConserves(m: Management, i: Input, completed: seq<nat>, cancelled: seq<nat>)
    requires Conserved(m, completed, cancelled)
    ensures var o := OnInput(m, i); Conserved(o.state, completed + CompletedOps(o.outputs), cancelled + CancelledOps(o.outputs))
  {
    hide Ops, Count, CompletedOps, CancelledOps, OnExecute, OnClose, OnCancel, OnResponse, OnSendFinished;
    var o := OnInput(m, i);
    if i.Execute? {
      ExecuteConserves(m, i.inside, i.handle, completed, cancelled);
      QuietOutputs([]);
      assert completed + [] == completed && cancelled + [] == cancelled;
    } else {
      InputMoves(m, i);
      forall x: nat
        ensures Tally(o.state.pending, completed + CompletedOps(o.outputs), cancelled + CancelledOps(o.outputs), x) ==
          if x < o.state.accepted then 1 else 0
      {
        assert Tally(m.pending, completed, cancelled, x) == if x < m.accepted then 1 else 0;
        assert Tally(o.state.pending, CompletedOps(o.outputs), CancelledOps(o.outputs), x) == Count(Ops(m.pending), x);
        CountConcat(completed, CompletedOps(o.outputs), x);
        CountConcat(cancelled, CancelledOps(o.outputs), x);
      }
    }
  }

  lemma {:induction false} RunConserves(m: Management, inputs: seq<Input>, completed: seq<nat>, cancelled: seq<nat>)
    requires Conserved(m, completed, cancelled)
    ensures var r := Run(m, inputs); Conserved(r.state, completed + CompletedOps(r.outputs), cancelled + CancelledOps(r.outputs))
    decreases |inputs|
  {
    hide OnInput, Conserved;
    if inputs == [] {
      QuietOutputs([]);
      assert completed + [] == completed && cancelled + [] == cancelled;
    } else {
      var o := OnInput(m, inputs[0]);
      InputConserves(m, inputs[0], completed, cancelled);
      RunConserves(o.state, inputs[1..], completed + CompletedOps(o.outputs), cancelled + CancelledOps(o.outputs));
      var r := Run(o.state, inputs[1..]);
      OutputsConcat(o.outputs, r.outputs);
      assert (completed + CompletedOps(o.outputs)) + CompletedOps(r.outputs) == completed + (CompletedOps(o.outputs) + CompletedOps(r.outputs));
      assert (cancelled + CancelledOps(o.outputs)) + CancelledOps(r.outputs) == cancelled + (CancelledOps(o.outputs) + CancelledOps(r.outputs));
    }
  }

  /**
   Over any run every accepted operation is in exactly one place: pending, completed by one callback, or
   cancelled without any. Nothing else is ever called back, so a request that was refused is not.
   */
  lemma OperationsConserved(inputs: seq<Input>)
    ensures var r := Run(Created(), inputs);
      var pending, completed, cancelled := Ops(r.state.pending), CompletedOps(r.outputs), CancelledOps(r.outputs);
      && r.state.accepted == |pending| + |completed| + |cancelled|
      && (forall op: nat :: op < r.state.accepted <==> op in pending || op in completed || op in cancelled)
      && (forall op :: op in pending ==> op !in completed && op !in cancelled)
      && (forall op :: op in completed ==> op !in cancelled)
      && (forall j, k :: 0 <= j < k < |completed| ==> completed[j] != completed[k])
      && (forall j, k :: 0 <= j < k < |pending| ==> pending[j] != pending[k])
  {
    hide Run, Count, CompletedOps, CancelledOps;
    NothingYet();
    RunConserves(Created(), inputs, [], []);
    var r := Run(Created(), inputs);
    var pending, completed, cancelled := Ops(r.state.pending), CompletedOps(r.outputs), CancelledOps(r.outputs);
    assert [] + completed == completed && [] + cancelled == cancelled;
    forall x: nat
      ensures Count(pending, x) + Count(completed, x) + Count(cancelled, x) == if x < r.state.accepted then 1 else 0
      ensures (Count(pending, x) > 0 <==> x in pending) && (Count(completed, x) > 0 <==> x in completed) && (Count(cancelled, x) > 0 <==> x in cancelled)
    {
      assert Tally(r.state.pending, completed, cancelled, x) == if x < r.state.accepted then 1 else 0;
      CountIn(pending, x);
      CountIn(completed, x);
      CountIn(cancelled, x);
    }
    Distinct(completed);
    Distinct(pending);
  }

  lemma NothingYet()
    ensures Conserved(Created(), [], [])
  {
  }

  // ---------------------------------------------------------------- sends and ids

  lemma WithoutTidy(m: Management, i: nat)
    requires Tidy(m) && i < |m.pending|
    ensures Tidy(m.(pending := Without(m.pending, i)))
  {
  }

  lemma FinishedTidy(m: Management, op: nat, r: SendResult)
    requires Tidy(m)
    ensures Tidy(OnSendFinished(m, op, r).state)
  {
    var i := FindOp(m.pending, op, 0);
    if i < |m.pending| {
      WithoutTidy(m, i);
    }
  }

  lemma {:induction false} FinishedAllTidy(m: Management, finished: seq<(nat, SendResult)>)
    requires Tidy(m)
    ensures Tidy(OnFinishedAll(m, finished).state)
    decreases |finished|
  {
    hide Tidy, OnSendFinished;
    if finished != [] {
      FinishedTidy(m, finished[0].0, finished[0].1);
      FinishedAllTidy(OnSendFinished(m, finished[0].0, finished[0].1).state, finished[1..]);
    }
  }

  lemma InputTidy(m: Management, i: Input)
    requires Tidy(m)
    ensures Tidy(OnInput(m, i).state)
  {
    hide Without, OnFinishedAll, OnSendFinished;
    match i
    case SendFinished(op, r) => FinishedTidy(m, op, r);
    case Response(reply) =>
      if reply.Some? && FindId(m.pending, reply.value.correlation, 0) < |m.pending| {
        WithoutTidy(m, FindId(m.pending, reply.value.correlation, 0));
      }
    case CancelCalled(op) =>
      if FindOp(m.pending, op, 0) < |m.pending| {
        WithoutTidy(m, FindOp(m.pending, op, 0));
      }
    case CloseCalled(finished, _, _) => FinishedAllTidy(m.(state := Closing), finished);
    case Execute(inside, handle) =>
      ExecuteEffect(m, inside, handle);
      assert (m.accepted % 0x1_0000_0000_0000_0000 + 1) % 0x1_0000_0000_0000_0000 == (m.accepted + 1) % 0x1_0000_0000_0000_0000;
    case OpenCalled(_, _) =>
    case SenderChanged(_) =>
    case ReceiverChanged(_) =>
  }

  lemma {:induction false} RunTidy(m: Management, inputs: seq<Input>)
    requires Tidy(m)
    ensures Tidy(Run(m, inputs).state)
    decreases |inputs|
  {
    hide Tidy, OnInput;
    if inputs != [] {
      InputTidy(m, inputs[0]);
      RunTidy(OnInput(m, inputs[0]).state, inputs[1..]);
    }
  }

  /**
   In every run an operation is confirmed exactly when it has no send handle, and as long as the 64-bit ids have not
   been used up no two pending operations share one: a response finds the operation it answers and no other.
   */
  lemma PendingIdsDistinct(inputs: seq<Input>)
    ensures var m := Run(Created(), inputs).state;
      && (forall k :: 0 <= k < |m.pending| ==> (m.pending[k].confirmed <==> !m.pending[k].sending))
      && (m.accepted <= 0x1_0000_0000_0000_0000 ==>
            forall j, k :: 0 <= j < k < |m.pending| ==> m.pending[j].id != m.pending[k].id)
  {
    hide Run, CompletedOps, CancelledOps;
    RunTidy(Created(), inputs);
    OperationsConserved(inputs);
    var m := Run(Created(), inputs).state;
    TidyIds(m);
  }

  lemma TidyIds(m: Management)
    requires Tidy(m) && forall j, k :: 0 <= j < k < |m.pending| ==> Ops(m.pending)[j] != Ops(m.pending)[k]
    ensures m.accepted <= 0x1_0000_0000_0000_0000 ==>
      forall j, k :: 0 <= j < k < |m.pending| ==> m.pending[j].id != m.pending[k].id
  {
    forall j, k | 0 <= j < k < |m.pending| && m.accepted <= 0x1_0000_0000_0000_0000
      ensures m.pending[j].id != m.pending[k].id
    {
      assert Ops(m.pending)[j] != Ops(m.pending)[k];
      assert Settled(m.pending[j]) && Settled(m.pending[k]);
      SmallRemainder(m.pending[j].op);
      SmallRemainder(m.pending[k].op);
    }
  }

  lemma SmallRemainder(x: nat)
    requires x < 0x1_0000_0000_0000_0000
    ensures x % 0x1_0000_0000_0000_0000 == x
  {
  }

  /** Closing, when the sender and the receiver close, completes all that is pending and leaves nothing. */
  lemma CloseCompletesAll(m: Management, finished: seq<(nat, SendResult)>, x: nat)
    requires !m.state.Idle?
    ensures var o := OnClose(m, finished, true, true);
      o.state.pending == [] && o.state.state.Idle? && Count(CompletedOps(o.outputs), x) + Count(CancelledOps(o.outputs), x) == Count(Ops(m.pending), x)
  {
    hide OnFinishedAll, ClosedAll, CompletedOps, CancelledOps;
    CloseMoves(m, finished, true, true);
    var o := OnClose(m, finished, true, true);
    assert Tally(o.state.pending, CompletedOps(o.outputs), CancelledOps(o.outputs), x) == Count(Ops(m.pending), x);
  }
}
