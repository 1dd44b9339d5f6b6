/** src/amqp_management.c as it runs; the message sender's answers and callbacks come from outside. */
module Managements {
  import opened Options
  import opened ManagementSpec
  import opened ManagementOperations

  class AmqpManagement {
    var managementState: State
    var pendingOperations: seq<Operation>
    var nextMessageId: nat
    var senderConnected: bool
    var receiverConnected: bool
    /** Each accepted operation gets a handle of its own. */
    var nextOperation: nat

    function View(): Management
      reads this
    {
      Management(managementState, pendingOperations, nextMessageId, nextOperation, senderConnected, receiverConnected)
    }

    /** Handles are handed out once. */
    predicate Valid()
      reads this
    {
      forall k :: 0 <= k < |pendingOperations| ==> pendingOperations[k].op < nextOperation
    }

    constructor ()
      ensures Valid() && View() == Created()
    {
      managementState, pendingOperations, nextMessageId := Idle, [], 0;
      senderConnected, receiverConnected, nextOperation := false, false, 0;
    }

    method FindOperation(op: nat) returns (i: nat)
      ensures i == FindOp(pendingOperations, op, 0)
    {
      i := 0;
      while i < |pendingOperations| && pendingOperations[i].op != op
        invariant i <= |pendingOperations| && FindOp(pendingOperations, op, 0) == FindOp(pendingOperations, op, i)
      {
        i := i + 1;
      }
    }

    method RemoveAt(i: nat)
      requires i < |pendingOperations|
      modifies this`pendingOperations
      ensures old(Valid()) ==> Valid()
      ensures View() == old(View()).(pending := Without(old(pendingOperations), i))
    {
      pendingOperations := pendingOperations[..i] + pendingOperations[i + 1..];
    }

    /** `on_message_send_complete` */
    method MessageSendComplete(op: nat, r: SendResult) returns (outputs: seq<Output>)
      modifies this`pendingOperations
      ensures old(Valid()) ==> Valid()
      ensures OnSendFinished(old(View()), op, r) == Out(View(), outputs)
    {
      outputs := [];
      var i := FindOperation(op);
      if i == |pendingOperations| {
        return;
      }
      var o := pendingOperations[i];
      if r.SendOk? {
        pendingOperations := pendingOperations[i := o.(confirmed := true, sending := false, completedInSend := o.inSend)];
      } else if o.inSend {
        pendingOperations := pendingOperations[i := o.(completedInSend := true, failedInSend := true)];
      } else if r.SendError? {
        RemoveAt(i);
        outputs := [Completed(op, OperationError)];
      } else {
        assert pendingOperations == pendingOperations[i := o];
      }
    }

    /** The operation is on the list before its message is sent, so the send may finish inside the call. */
    method ExecuteOperation(inside: Option<SendResult>, handle: bool) returns (result: Option<nat>, outputs: seq<Output>)
      requires Valid()
      modifies this
      ensures Valid()
      ensures OnExecute(old(View()), inside, handle) == Out(View(), outputs)
      ensures outputs == [] && (result.None? ==> View() == old(View()))
      ensures result == if Accepts(old(View()), inside, handle) then Some(old(nextOperation)) else None
    {
      outputs := [];
      if managementState.Idle? || managementState.Failed? {
        return None, outputs;
      }
      hide DuringSend;
      ExecuteEffect(View(), inside, handle);
      DuringSendQuiet(View(), inside);
      var op := nextOperation;
      outputs := SendRequest(inside);
      var i := |pendingOperations| - 1;
      var o := pendingOperations[i].(inSend := false);
      if !handle || o.failedInSend {
        pendingOperations := pendingOperations[..i];
        return None, outputs;
      }
      if !o.completedInSend {
        o := o.(sending := true);
      }
      pendingOperations := pendingOperations[i := o];
      assert pendingOperations == pendingOperations[..i] + [o];
      nextMessageId := (nextMessageId + 1) % 0x1_0000_0000_0000_0000;
      nextOperation := nextOperation + 1;
      result := Some(op);
    }

    /** The request is put on the list and sent; `on_message_send_complete` may be called before the send call returns. */
    method SendRequest(inside: Option<SendResult>) returns (outputs: seq<Output>)
      modifies this`pendingOperations
      ensures DuringSend(old(View()), inside) == Out(View(), outputs)
    {
      outputs := [];
      pendingOperations := pendingOperations + [Operation(nextOperation, nextMessageId, false, false, true, false, false)];
      if inside.Some? {
        outputs := MessageSendComplete(nextOperation, inside.value);
      }
    }

    /** `on_message_received` */
    method MessageReceived(reply: Option<Reply>) returns (outputs: seq<Output>)
      modifies this`pendingOperations
      ensures old(Valid()) ==> Valid()
      ensures OnResponse(old(View()), reply) == Out(View(), outputs)
    {
      outputs := [ErrorReported];
      if reply.None? {
        return;
      }
      var i := 0;
      while i < |pendingOperations| && pendingOperations[i].id != reply.value.correlation
        invariant i <= |pendingOperations|
        invariant FindId(pendingOperations, reply.value.correlation, 0) == FindId(pendingOperations, reply.value.correlation, i)
      {
        i := i + 1;
      }
      if i == |pendingOperations| {
        return;
      }
      var o := pendingOperations[i];
      outputs := [];
      var result, isError := OperationOk, false;
      if !o.confirmed {
        result := BadStatus;
        if o.sending {
          outputs := [SendWithdrawn(o.op)];
        } else {
          isError := true;
        }
      } else if reply.value.status < 200 || reply.value.status > 299 {
        result := BadStatus;
      }
      outputs := outputs + [Completed(o.op, result)];
      RemoveAt(i);
      outputs := outputs + if isError then [ErrorReported] else [];
    }

    /** `amqp_management_execute_cancel_handler` */
    method CancelOperation(op: nat) returns (outputs: seq<Output>)
      modifies this`pendingOperations
      ensures old(Valid()) ==> Valid()
      ensures OnCancel(old(View()), op) == Out(View(), outputs)
    {
      outputs := [];
      var i := FindOperation(op);
      if i < |pendingOperations| {
        if pendingOperations[i].sending {
          outputs := [SendWithdrawn(op)];
        }
        RemoveAt(i);
        outputs := outputs + [Cancelled(op)];
      }
    }

    method SendsFinished(finished: seq<(nat, SendResult)>) returns (outputs: seq<Output>)
      modifies this`pendingOperations
      ensures old(Valid()) ==> Valid()
      ensures OnFinishedAll(old(View()), finished) == Out(View(), outputs)
    {
      hide OnSendFinished;
      outputs := [];
      assert finished[0..] == finished;
      for k := 0 to |finished|
        invariant old(Valid()) ==> Valid()
        invariant var rest := OnFinishedAll(View(), finished[k..]);
          OnFinishedAll(old(View()), finished) == Out(rest.state, outputs + rest.outputs)
      {
        assert finished[k..][1..] == finished[k + 1..];
        ghost var m := View();
        var more := MessageSendComplete(finished[k].0, finished[k].1);
        ghost var rest := OnFinishedAll(View(), finished[k + 1..]);
        assert OnFinishedAll(m, finished[k..]) == Out(rest.state, more + rest.outputs);
        assert outputs + (more + rest.outputs) == (outputs + more) + rest.outputs;
        outputs := outputs + more;
      }
    }

    /** `amqp_management_close` */
    method Close(finished: seq<(nat, SendResult)>, senderOk: bool, receiverOk: bool) returns (ok: bool, outputs: seq<Output>)
      modifies this
      ensures old(Valid()) ==> Valid()
      ensures OnClose(old(View()), finished, senderOk, receiverOk) == Out(View(), outputs)
      ensures ok <==> !old(managementState).Idle? && senderOk && receiverOk
    {
      if managementState.Idle? {
        return false, [];
      }
      var wasOpening := managementState.Opening?;
      managementState := Closing;
      outputs := if wasOpening then [OpenCancelled] else [];
      var completions := SendsFinished(finished);
      outputs := outputs + completions;
      ok := senderOk && receiverOk;
      if ok {
        var told := CloseOperations();
        outputs := outputs + told;
        managementState := Idle;
      }
    }

    /** The head of the list is told and removed until nothing is left. */
    method CloseOperations() returns (outputs: seq<Output>)
      modifies this`pendingOperations
      ensures View() == old(View()).(pending := []) && outputs == ClosedAll(old(pendingOperations))
    {
      outputs := [];
      while pendingOperations != []
        invariant View() == old(View()).(pending := pendingOperations)
        invariant outputs + ClosedAll(pendingOperations) == ClosedAll(old(pendingOperations))
        decreases |pendingOperations|
      {
        outputs := outputs + [Completed(pendingOperations[0].op, InstanceClosed)];
        pendingOperations := pendingOperations[1..];
      }
    }

    method OpenAsync(receiverOk: bool, senderOk: bool) returns (ok: bool)
      modifies this`managementState
      ensures View() == OnOpen(old(View()), receiverOk, senderOk)
      ensures ok <==> old(managementState).Idle? && receiverOk && senderOk
    {
      ok := managementState.Idle? && receiverOk && senderOk;
      if ok {
        managementState := Opening;
      }
    }

    method SenderStateChanged(now: EndpointState) returns (outputs: seq<Output>)
      modifies this
      ensures OnSenderChanged(old(View()), now) == Out(View(), outputs)
    {
      outputs := [];
      match managementState
      case Opening =>
        if now.EndpointOpen? {
          senderConnected := true;
          if receiverConnected {
            managementState := Open;
            outputs := [OpenComplete(true)];
          }
        } else if !now.EndpointOpening? {
          managementState := Idle;
          outputs := [OpenComplete(false)];
        }
      case Open =>
        if !now.EndpointOpen? {
          managementState := Failed;
          outputs := [ErrorReported];
        }
      case Closing =>
        if !now.EndpointIdle? && !now.EndpointClosing? {
          managementState := Failed;
          outputs := [ErrorReported];
        }
      case Idle =>
      case Failed =>
    }

    method ReceiverStateChanged(now: EndpointState) returns (outputs: seq<Output>)
      modifies this
      ensures OnReceiverChanged(old(View()), now) == Out(View(), outputs)
    {
      outputs := [];
      if managementState.Opening? {
        if now.EndpointOpen? {
          receiverConnected := true;
          if senderConnected {
            managementState := Open;
            outputs := [OpenComplete(true)];
          }
        } else if !now.EndpointOpening? {
          managementState := Idle;
          outputs := [OpenComplete(false)];
        }
      } else if managementState.Open? && !now.EndpointOpen? {
        managementState := Failed;
        outputs := [ErrorReported];
      }
    }
  }
}
