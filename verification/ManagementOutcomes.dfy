/** What the caller of a management operation is told, from what happened to the operation since it was accepted. */
module ManagementOutcomes {
  import opened Options
  import opened ManagementSpec
  import ManagementOperations
  import ManagementOpening

  // ---------------------------------------------------------------- sends reported successful

  /** The operations whose send is reported successful by this input, inside the send call or later. */
  ghost function ReportedNow(m: Management, i: Input): set<nat> {
    match i
    case Execute(inside, _) => if OnInput(m, i).state.accepted > m.accepted && inside == Some(SendOk) then {m.accepted} else {}
    case SendFinished(op, r) => if op < m.accepted && r.SendOk? then {op} else {}
    case CloseCalled(finished, _, _) =>
      if m.state.Idle? then {} else set k | 0 <= k < |finished| && finished[k].0 < m.accepted && finished[k].1.SendOk? :: finished[k].0
    case _ => {}
  }

  ghost function Reported(m: Management, inputs: seq<Input>): set<nat>
    decreases |inputs|
  {
    if inputs == [] then {} else ReportedNow(m, inputs[0]) + Reported(OnInput(m, inputs[0]).state, inputs[1..])
  }

  predicate DistinctOps(ops: seq<Operation>) {
    forall j, k :: 0 <= j < k < |ops| ==> ops[j].op != ops[k].op
  }

  /** Confirmed operations are those of `sent`. No send call is under way. */
  ghost predicate Tracks(m: Management, sent: set<nat>) {
    && DistinctOps(m.pending)
    && (forall op :: op in sent ==> op < m.accepted)
    && forall k :: 0 <= k < |m.pending| ==>
         var o := m.pending[k]; o.op < m.accepted && !o.inSend && (o.confirmed <==> o.op in sent)
  }

  lemma FindDistinct(ops: seq<Operation>, k: nat)
    requires DistinctOps(ops) && k < |ops|
    ensures FindOp(ops, ops[k].op, 0) == k
  {
  }

  lemma WithoutTracks(m: Management, i: nat, sent: set<nat>)
    requires Tracks(m, sent) && i < |m.pending|
    ensures Tracks(m.(pending := Without(m.pending, i)), sent)
  {
  }

  lemma FinishedTracks(m: Management, op: nat, r: SendResult, sent: set<nat>)
    requires Tracks(m, sent)
    ensures Tracks(OnSendFinished(m, op, r).state, if r.SendOk? && op < m.accepted then sent + {op} else sent)
  {
    var i := FindOp(m.pending, op, 0);
    if i < |m.pending| {
      WithoutTracks(m, i, sent);
    }
  }

  ghost function SentIn(m: Management, finished: seq<(nat, SendResult)>): set<nat> {
    set k | 0 <= k < |finished| && finished[k].0 < m.accepted && finished[k].1.SendOk? :: finished[k].0
  }

  lemma {:induction false} FinishedAllTracks(m: Management, finished: seq<(nat, SendResult)>, sent: set<nat>)
    requires Tracks(m, sent)
    ensures Tracks(OnFinishedAll(m, finished).state, sent + SentIn(m, finished))
    ensures OnFinishedAll(m, finished).state.accepted == m.accepted
    decreases |finished|
  {
    hide Tracks, OnSendFinished;
    if finished == [] {
      assert sent + SentIn(m, finished) == sent;
    } else {
      var (op, r) := finished[0];
      var m' := OnSendFinished(m, op, r).state;
      var sent' := if r.SendOk? && op < m.accepted then sent + {op} else sent;
      FinishedTracks(m, op, r, sent);
      SameCount(m, op, r);
      FinishedAllTracks(m', finished[1..], sent');
      SentFirst(m, finished);
      assert sent' + SentIn(m', finished[1..]) == sent + SentIn(m, finished);
    }
  }

  lemma SameCount(m: Management, op: nat, r: SendResult)
    ensures OnSendFinished(m, op, r).state.accepted == m.accepted
  {
  }

  lemma SentFirst(m: Management, finished: seq<(nat, SendResult)>)
    requires finished != []
    ensures SentIn(m, finished) ==
      (if finished[0].1.SendOk? && finished[0].0 < m.accepted then {finished[0].0} else {}) + SentIn(m, finished[1..])
  {
    forall op | op in SentIn(m, finished) && !(op == finished[0].0 && finished[0].1.SendOk?) ensures op in SentIn(m, finished[1..]) {
      var k :| 0 <= k < |finished| && finished[k].0 == op && op < m.accepted && finished[k].1.SendOk?;
      assert finished[1..][k - 1] == finished[k];
    }
    forall op | op in SentIn(m, finished[1..]) ensures op in SentIn(m, finished) {
      var k :| 0 <= k < |finished[1..]| && finished[1..][k].0 == op && op < m.accepted && finished[1..][k].1.SendOk?;
      assert finished[k + 1] == finished[1..][k];
    }
  }

  /** A request is taken when the endpoint was opened and is not in error, and its send did not fail. */
  lemma ExecuteVerdict(m: Management, inside: Option<SendResult>, handle: bool)
    requires forall k :: 0 <= k < |m.pending| ==> m.pending[k].op != m.accepted
    ensures var o := OnInput(m, Execute(inside, handle));
      if (m.state.Opening? || m.state.Open? || m.state.Closing?) && handle && inside != Some(SendError) && inside != Some(SendCancelled) then
        && |o.state.pending| == |m.pending| + 1 && o.state.pending[..|m.pending|] == m.pending && o.state.accepted == m.accepted + 1
        && (var p := o.state.pending[|m.pending|];
            p.op == m.accepted && p.id == m.nextId && !p.inSend && (p.confirmed <==> inside == Some(SendOk)) && (p.sending <==> inside.None?))
        && o.state.nextId == (m.nextId + 1) % 0x1_0000_0000_0000_0000 && o.state.state == m.state && o.outputs == []
      else o == Out(m, [])
  {
    hide OnExecute;
    ManagementOperations.ExecuteEffect(m, inside, handle);
  }

  lemma ExecuteTracks(m: Management, i: Input, sent: set<nat>)
    requires Tracks(m, sent) && i.Execute?
    ensures Tracks(OnInput(m, i).state, sent + ReportedNow(m, i))
  {
    hide OnInput;
    ExecuteVerdict(m, i.inside, i.handle);
    var o := OnInput(m, i);
    assert o.state.accepted == m.accepted + 1 ==> forall k :: 0 <= k < |m.pending| ==> o.state.pending[k] == m.pending[k];
  }

  lemma CloseTracks(m: Management, i: Input, sent: set<nat>)
    requires Tracks(m, sent) && i.CloseCalled?
    ensures Tracks(OnInput(m, i).state, sent + ReportedNow(m, i))
  {
    hide OnFinishedAll, ClosedAll;
    if m.state.Idle? {
      assert sent + {} == sent;
    } else {
      FinishedAllTracks(m.(state := Closing), i.finished, sent);
      assert ReportedNow(m, i) == SentIn(m.(state := Closing), i.finished);
    }
  }

  lemma InputTracks(m: Management, i: Input, sent: set<nat>)
    requires Tracks(m, sent)
    ensures Tracks(OnInput(m, i).state, sent + ReportedNow(m, i))
  {
    hide OnExecute, OnClose, OnSendFinished, Without;
    match i
    case Execute(_, _) => ExecuteTracks(m, i, sent);
    case CloseCalled(_, _, _) => CloseTracks(m, i, sent);
    case SendFinished(op, r) =>
      FinishedTracks(m, op, r, sent);
      assert sent + {} == sent;
    case Response(reply) =>
      assert sent + {} == sent;
      if reply.Some? && FindId(m.pending, reply.value.correlation, 0) < |m.pending| {
        WithoutTracks(m, FindId(m.pending, reply.value.correlation, 0), sent);
      }
    case CancelCalled(op) =>
      assert sent + {} == sent;
      if FindOp(m.pending, op, 0) < |m.pending| {
        WithoutTracks(m, FindOp(m.pending, op, 0), sent);
      }
    case OpenCalled(_, _) => assert sent + {} == sent;
    case SenderChanged(_) => assert sent + {} == sent;
    case ReceiverChanged(_) => assert sent + {} == sent;
  }

  lemma {:induction false} RunTracks(m: Management, inputs: seq<Input>, sent: set<nat>)
    requires Tracks(m, sent)
    ensures Tracks(Run(m, inputs).state, sent + Reported(m, inputs))
    decreases |inputs|
  {
    hide OnInput, Tracks, ReportedNow;
    if inputs == [] {
      assert sent + {} == sent;
    } else {
      var i := inputs[0];
      InputTracks(m, i, sent);
      RunTracks(OnInput(m, i).state, inputs[1..], sent + ReportedNow(m, i));
      assert (sent + ReportedNow(m, i)) + Reported(OnInput(m, i).state, inputs[1..]) == sent + Reported(m, inputs);
    }
  }

  // ---------------------------------------------------------------- what the caller is told

  /**
   After any run: the response to a pending operation takes it off the list and tells its caller that it succeeded when
   its send was reported successful before and the status is from 200 to 299, and that the status is bad otherwise.
   */
  lemma ReplyOutcome(inputs: seq<Input>, k: nat, status: int)
    requires k < |Run(Created(), inputs).state.pending|
    requires forall j :: 0 <= j < k ==> Run(Created(), inputs).state.pending[j].id != Run(Created(), inputs).state.pending[k].id
    ensures var m := Run(Created(), inputs).state; var p := m.pending[k]; var sent := p.op in Reported(Created(), inputs);
      var o := OnInput(m, Response(Some(Reply(p.id, status))));
      && o.state == m.(pending := m.pending[..k] + m.pending[k + 1..])
      && o.outputs ==
           (if !sent && p.sending then [SendWithdrawn(p.op)] else []) +
           [Completed(p.op, if sent && 200 <= status <= 299 then OperationOk else BadStatus)] +
           (if !sent && !p.sending then [ErrorReported] else [])
  {
    hide Run, Reported;
    StartTracks();
    RunTracks(Created(), inputs, {});
    var m := Run(Created(), inputs).state;
    assert {} + Reported(Created(), inputs) == Reported(Created(), inputs);
    assert FindId(m.pending, m.pending[k].id, 0) == k;
  }

  lemma StartTracks()
    ensures Tracks(Created(), {})
  {
  }

  /** A response that cannot be read, or that answers nothing, is reported as an error and changes nothing. */
  lemma UnmatchedReply(m: Management, reply: Option<Reply>)
    requires reply.Some? ==> forall k :: 0 <= k < |m.pending| ==> m.pending[k].id != reply.value.correlation
    ensures OnInput(m, Response(reply)) == Out(m, [ErrorReported])
  {
  }

  /** A send that fails after the send call completes its operation with an error; any other report tells nobody anything. */
  lemma SendOutcome(m: Management, k: nat, r: SendResult)
    requires k < |m.pending| && DistinctOps(m.pending) && !m.pending[k].inSend
    ensures var p := m.pending[k]; var o := OnInput(m, SendFinished(p.op, r));
      if r.SendError? then o == Out(m.(pending := m.pending[..k] + m.pending[k + 1..]), [Completed(p.op, OperationError)])
      else if r.SendOk? then
        o.outputs == [] && o.state == m.(pending := m.pending[k := p.(confirmed := true, sending := false, completedInSend := false)])
      else o == Out(m, [])
  {
    FindDistinct(m.pending, k);
    assert m.pending[k := m.pending[k]] == m.pending;
  }

  /** A cancelled operation leaves the list, its send is withdrawn if it is under way, and the caller hears of no result. */
  lemma CancelOutcome(m: Management, k: nat)
    requires k < |m.pending| && DistinctOps(m.pending)
    ensures var p := m.pending[k]; var o := OnInput(m, CancelCalled(p.op));
      && o.state == m.(pending := m.pending[..k] + m.pending[k + 1..])
      && o.outputs == (if p.sending then [SendWithdrawn(p.op)] else []) + [Cancelled(p.op)]
  {
    FindDistinct(m.pending, k);
  }

  // ---------------------------------------------------------------- closing

  predicate Listing(ops: seq<Operation>, op: nat) {
    exists k :: 0 <= k < |ops| && ops[k].op == op
  }

  predicate Ready(m: Management) {
    DistinctOps(m.pending) && forall k :: 0 <= k < |m.pending| ==> !m.pending[k].inSend
  }

  lemma FinishedOutcome(m: Management, op: nat, r: SendResult)
    requires Ready(m)
    ensures var o := OnSendFinished(m, op, r); var failed := r.SendError? && Listing(m.pending, op);
      && Ready(o.state) && o.outputs == (if failed then [Completed(op, OperationError)] else [])
      && forall x :: Listing(o.state.pending, x) <==> Listing(m.pending, x) && !(failed && x == op)
  {
    var i, o := FindOp(m.pending, op, 0), OnSendFinished(m, op, r);
    if i < |m.pending| {
      assert Listing(m.pending, op);
      if r.SendError? {
        GoneFrom(m.pending, i);
      } else {
        assert forall k :: 0 <= k < |m.pending| ==> o.state.pending[k].op == m.pending[k].op;
        forall x ensures Listing(o.state.pending, x) <==> Listing(m.pending, x) {
          if Listing(m.pending, x) {
            var k :| 0 <= k < |m.pending| && m.pending[k].op == x;
            assert o.state.pending[k].op == x;
          }
        }
      }
    }
  }

  lemma GoneFrom(ops: seq<Operation>, i: nat)
    requires DistinctOps(ops) && i < |ops|
    ensures DistinctOps(Without(ops, i))
    ensures forall x :: Listing(Without(ops, i), x) <==> Listing(ops, x) && x != ops[i].op
  {
    forall x ensures Listing(Without(ops, i), x) <==> Listing(ops, x) && x != ops[i].op {
      if Listing(ops, x) && x != ops[i].op {
        var k :| 0 <= k < |ops| && ops[k].op == x;
        assert Without(ops, i)[if k < i then k else k - 1].op == x;
      }
      if Listing(Without(ops, i), x) {
        var k :| 0 <= k < |ops| - 1 && Without(ops, i)[k].op == x;
        assert ops[if k < i then k else k + 1].op == x;
      }
    }
  }

  /** The failed sends among those that finish while the message sender closes. */
  predicate FailsIn(finished: seq<(nat, SendResult)>, op: nat) {
    (op, SendError) in finished
  }

  lemma {:induction false} FinishedAllOutcome(m: Management, finished: seq<(nat, SendResult)>)
    requires Ready(m)
    ensures var o := OnFinishedAll(m, finished);
      && Ready(o.state)
      && (forall x :: Listing(o.state.pending, x) <==> Listing(m.pending, x) && !FailsIn(finished, x))
      && (forall x: nat :: Completed(x, OperationError) in o.outputs <==> Listing(m.pending, x) && FailsIn(finished, x))
      && (forall k :: 0 <= k < |o.outputs| ==> o.outputs[k].Completed? && o.outputs[k].result.OperationError?)
    decreases |finished|
  {
    hide Listing, Ready, OnSendFinished;
    if finished != [] {
      var (op, r) := finished[0];
      var o := OnSendFinished(m, op, r);
      FinishedOutcome(m, op, r);
      FinishedAllOutcome(o.state, finished[1..]);
      forall x ensures FailsIn(finished, x) <==> (x == op && r.SendError?) || FailsIn(finished[1..], x) {
        assert finished == [(op, r)] + finished[1..];
      }
    }
  }

  lemma {:induction false} ClosedOutcome(ops: seq<Operation>)
    ensures forall k :: 0 <= k < |ClosedAll(ops)| ==> ClosedAll(ops)[k].Completed? && ClosedAll(ops)[k].result.InstanceClosed?
    ensures forall x: nat :: Completed(x, InstanceClosed) in ClosedAll(ops) <==> Listing(ops, x)
    decreases |ops|
  {
    if ops != [] {
      ClosedOutcome(ops[1..]);
      forall x: nat ensures Listing(ops, x) <==> x == ops[0].op || Listing(ops[1..], x) {
        if Listing(ops[1..], x) {
          var k :| 0 <= k < |ops[1..]| && ops[1..][k].op == x;
          assert ops[k + 1].op == x;
        }
        if Listing(ops, x) && x != ops[0].op {
          var k :| 0 <= k < |ops| && ops[k].op == x;
          assert ops[1..][k - 1].op == x;
        }
      }
    }
  }

  /**
   Closing: a pending operation whose send is reported to have failed meanwhile is told so; when sender and receiver close,
   every other one is told that the instance was closed, and else stays pending. An opening that was going on is
   cancelled. Nobody is told anything else.
   */
  lemma CloseOutcome(m: Management, finished: seq<(nat, SendResult)>, senderOk: bool, receiverOk: bool)
    requires Ready(m) && !m.state.Idle?
    ensures var o := OnInput(m, CloseCalled(finished, senderOk, receiverOk)); var closes := senderOk && receiverOk;
      && o.state.state == (if closes then Idle else Closing)
      && (forall x :: Listing(o.state.pending, x) <==> !closes && Listing(m.pending, x) && !FailsIn(finished, x))
      && (forall x: nat :: Completed(x, OperationError) in o.outputs <==> Listing(m.pending, x) && FailsIn(finished, x))
      && (forall x: nat :: Completed(x, InstanceClosed) in o.outputs <==> closes && Listing(m.pending, x) && !FailsIn(finished, x))
      && (OpenCancelled in o.outputs <==> m.state.Opening?)
      && forall k :: 0 <= k < |o.outputs| ==>
           o.outputs[k].OpenCancelled? || (o.outputs[k].Completed? && (o.outputs[k].result.OperationError? || o.outputs[k].result.InstanceClosed?))
  {
    hide Listing, Ready, OnFinishedAll, ClosedAll, FailsIn;
    var closing := m.(state := Closing);
    StateAside(m);
    FinishedAllOutcome(closing, finished);
    ClosedOutcome(OnFinishedAll(closing, finished).state.pending);
    NothingListed();
    ManagementOpening.FinishedAllQuiet(closing, finished);
  }

  lemma NothingListed()
    ensures forall x :: !Listing([], x)
  {
  }

  lemma StateAside(m: Management)
    ensures Ready(m) <==> Ready(m.(state := Closing))
  {
  }

  // ---------------------------------------------------------------- the endpoint

  /** A report about one of the two links: when it ends the opening badly, and when it is an error. */
  lemma ChangeVerdict(m: Management, now: EndpointState, i: Input)
    requires i == SenderChanged(now) || i == ReceiverChanged(now)
    ensures var o := OnInput(m, i);
      && (o.outputs == [OpenComplete(false)] <==> m.state.Opening? && !now.EndpointOpening? && !now.EndpointOpen?)
      && (o.outputs == [OpenComplete(false)] ==> o.state == m.(state := Idle))
      && (o.outputs == [ErrorReported] <==>
            (m.state.Open? && !now.EndpointOpen?) ||
            (m.state.Closing? && i.SenderChanged? && !now.EndpointIdle? && !now.EndpointClosing?))
      && (o.outputs == [ErrorReported] ==> o.state == m.(state := Failed))
      && (o.outputs == [] || |o.outputs| == 1)
      && (!m.state.Opening? && o.outputs == [] ==> o.state == m)
  {
  }

  /** An opening begins from IDLE alone, and when receiver and sender could be opened. */
  lemma OpenVerdict(m: Management, receiverOk: bool, senderOk: bool)
    ensures OnInput(m, OpenCalled(receiverOk, senderOk)) ==
      Out(if m.state.Idle? && receiverOk && senderOk then m.(state := Opening) else m, [])
  {
  }
}
