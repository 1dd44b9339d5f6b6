/** Requests and responses of src/amqp_management.c: what each call and callback does to the pending operations. */
module ManagementSpec {
  import opened Options

  datatype State = Idle | Opening | Closing | Open | Failed

  /** What the message sender reports of a send. */
  datatype SendResult = SendOk | SendError | SendCancelled

  datatype OperationResult = OperationOk | OperationError | BadStatus | InstanceClosed

  /** `op` stands for the handle the caller got, `sending` for a send handle that is not NULL. */
  datatype Operation = Operation(
    op: nat,
    id: nat,
    confirmed: bool,
    sending: bool,
    inSend: bool,
    completedInSend: bool,
    failedInSend: bool)

  datatype Management = Management(
    state: State,
    pending: seq<Operation>,
    nextId: nat,
    accepted: nat,
    senderConnected: bool,
    receiverConnected: bool)

  datatype Output =
    | Completed(op: nat, result: OperationResult)
    | Cancelled(op: nat)
    | OpenComplete(ok: bool)
    | OpenCancelled
    | ErrorReported
    | SendWithdrawn(op: nat)

  datatype Out = Out(state: Management, outputs: seq<Output>)

  /** What is read from a response: a correlation id and a status code. */
  datatype Reply = Reply(correlation: nat, status: int)

  datatype EndpointState = EndpointIdle | EndpointOpening | EndpointOpen | EndpointClosing | EndpointError

  datatype Input =
    | OpenCalled(receiverOk: bool, senderOk: bool)
    | SenderChanged(now: EndpointState)
    | ReceiverChanged(now: EndpointState)
    | Execute(inside: Option<SendResult>, handle: bool)
    | SendFinished(op: nat, result: SendResult)
    | Response(reply: Option<Reply>)
    | CancelCalled(op: nat)
    | CloseCalled(finished: seq<(nat, SendResult)>, senderOk: bool, receiverOk: bool)

  // ---------------------------------------------------------------- the list

  function FindOp(ops: seq<Operation>, op: nat, from: nat): (i: nat)
    requires from <= |ops|
    ensures from <= i <= |ops|
    ensures i < |ops| ==> ops[i].op == op
    ensures forall k :: from <= k < i ==> ops[k].op != op
    decreases |ops| - from
  {
    if from == |ops| || ops[from].op == op then from else FindOp(ops, op, from + 1)
  }

  function FindId(ops: seq<Operation>, id: nat, from: nat): (i: nat)
    requires from <= |ops|
    ensures from <= i <= |ops|
    ensures i < |ops| ==> ops[i].id == id
    ensures forall k :: from <= k < i ==> ops[k].id != id
    decreases |ops| - from
  {
    if from == |ops| || ops[from].id == id then from else FindId(ops, id, from + 1)
  }

  function Without(ops: seq<Operation>, i: nat): seq<Operation>
    requires i < |ops|
  {
    ops[..i] + ops[i + 1..]
  }

  // ---------------------------------------------------------------- events

  /** What a finished send leaves on an operation that stays in the list. */
  function Marked(o: Operation, r: SendResult): Operation {
    if r.SendOk? then o.(confirmed := true, sending := false, completedInSend := o.inSend)
    else if o.inSend then o.(completedInSend := true, failedInSend := true)
    else o
  }

  /** `on_message_send_complete` for an operation whose `messagesender_send_async` has returned, or not. */
  function OnSendFinished(m: Management, op: nat, r: SendResult): Out {
    var i := FindOp(m.pending, op, 0);
    if i == |m.pending| then Out(m, [])
    else
      var o := m.pending[i];
      if r.SendError? && !o.inSend then Out(m.(pending := Without(m.pending, i)), [Completed(op, OperationError)])
      else Out(m.(pending := m.pending[i := Marked(o, r)]), [])
  }

  /** The request goes on the list, and is on it while `messagesender_send_async` runs. */
  function Listed(m: Management): Management {
    m.(pending := m.pending + [Operation(m.accepted, m.nextId, false, false, true, false, false)])
  }

  /** What `on_message_send_complete` does when the send finishes inside the send call. */
  function DuringSend(m: Management, inside: Option<SendResult>): (o: Out)
    ensures o.state.pending != []
  {
    if inside.None? then Out(Listed(m), []) else OnSendFinished(Listed(m), m.accepted, inside.value)
  }

  /** The call returned: the request is taken off the list, or gets the send handle and keeps its id. */
  function OnExecute(m: Management, inside: Option<SendResult>, handle: bool): Out {
    if m.state.Idle? || m.state.Failed? then Out(m, [])
    else
      var d := DuringSend(m, inside);
      var last := |d.state.pending| - 1;
      var o := d.state.pending[last].(inSend := false);
      if !handle || o.failedInSend then Out(d.state.(pending := d.state.pending[..last]), d.outputs)
      else
        Out(d.state.(
          pending := d.state.pending[..last] + [if o.completedInSend then o else o.(sending := true)],
          nextId := (m.nextId + 1) % 0x1_0000_0000_0000_0000,
          accepted := m.accepted + 1), d.outputs)
  }

  /** When a request is accepted: there is a state for it, and its send did not fail. */
  predicate Accepts(m: Management, inside: Option<SendResult>, handle: bool) {
    !m.state.Idle? && !m.state.Failed? && handle && (inside.None? || inside.value.SendOk?)
  }

  function ReplyResult(o: Operation, status: int): OperationResult {
    if !o.confirmed || status < 200 || status > 299 then BadStatus else OperationOk
  }

  /** An answer to a request whose send is not confirmed withdraws the send; without a send handle that is an error. */
  function OnResponse(m: Management, reply: Option<Reply>): Out {
    if reply.None? then Out(m, [ErrorReported])
    else
      var i := FindId(m.pending, reply.value.correlation, 0);
      if i == |m.pending| then Out(m, [ErrorReported])
      else
        var o := m.pending[i];
        var withdrawn := if !o.confirmed && o.sending then [SendWithdrawn(o.op)] else [];
        var error := if !o.confirmed && !o.sending then [ErrorReported] else [];
        Out(m.(pending := Without(m.pending, i)), withdrawn + [Completed(o.op, ReplyResult(o, reply.value.status))] + error)
  }

  function OnCancel(m: Management, op: nat): Out {
    var i := FindOp(m.pending, op, 0);
    if i == |m.pending| then Out(m, [])
    else Out(m.(pending := Without(m.pending, i)), (if m.pending[i].sending then [SendWithdrawn(op)] else []) + [Cancelled(op)])
  }

  function OnFinishedAll(m: Management, finished: seq<(nat, SendResult)>): Out
    decreases |finished|
  {
    if finished == [] then Out(m, [])
    else
      var o := OnSendFinished(m, finished[0].0, finished[0].1);
      var r := OnFinishedAll(o.state, finished[1..]);
      Out(r.state, o.outputs + r.outputs)
  }

  function ClosedAll(ops: seq<Operation>): seq<Output> {
    if ops == [] then [] else [Completed(ops[0].op, InstanceClosed)] + ClosedAll(ops[1..])
  }

  /** Sends that are still under way finish while the message sender closes. */
  function OnClose(m: Management, finished: seq<(nat, SendResult)>, senderOk: bool, receiverOk: bool): Out {
    if m.state.Idle? then Out(m, [])
    else
      var told := if m.state.Opening? then [OpenCancelled] else [];
      var f := OnFinishedAll(m.(state := Closing), finished);
      if !senderOk || !receiverOk then Out(f.state, told + f.outputs)
      else Out(f.state.(state := Idle, pending := []), told + f.outputs + ClosedAll(f.state.pending))
  }

  function OnOpen(m: Management, receiverOk: bool, senderOk: bool): Management {
    if !m.state.Idle? then m else if receiverOk && senderOk then m.(state := Opening) else m
  }

  function OnSenderChanged(m: Management, now: EndpointState): Out {
    match m.state
    case Opening =>
      if now.EndpointOpening? then Out(m, [])
      else if now.EndpointOpen? then
        if m.receiverConnected then Out(m.(senderConnected := true, state := Open), [OpenComplete(true)])
        else Out(m.(senderConnected := true), [])
      else Out(m.(state := Idle), [OpenComplete(false)])
    case Open => if now.EndpointOpen? then Out(m, []) else Out(m.(state := Failed), [ErrorReported])
    case Closing => if now.EndpointIdle? || now.EndpointClosing? then Out(m, []) else Out(m.(state := Failed), [ErrorReported])
    case Idle => Out(m, [])
    case Failed => Out(m, [])
  }

  function OnReceiverChanged(m: Management, now: EndpointState): Out {
    match m.state
    case Opening =>
      if now.EndpointOpening? then Out(m, [])
      else if now.EndpointOpen? then
        if m.senderConnected then Out(m.(receiverConnected := true, state := Open), [OpenComplete(true)])
        else Out(m.(receiverConnected := true), [])
      else Out(m.(state := Idle), [OpenComplete(false)])
    case Open => if now.EndpointOpen? then Out(m, []) else Out(m.(state := Failed), [ErrorReported])
    case Closing => Out(m, [])
    case Idle => Out(m, [])
    case Failed => Out(m, [])
  }

  function OnInput(m: Management, i: Input): Out {
    match i
    case OpenCalled(receiverOk, senderOk) => Out(OnOpen(m, receiverOk, senderOk), [])
    case SenderChanged(now) => OnSenderChanged(m, now)
    case ReceiverChanged(now) => OnReceiverChanged(m, now)
    case Execute(inside, handle) => OnExecute(m, inside, handle)
    case SendFinished(op, r) => OnSendFinished(m, op, r)
    case Response(reply) => OnResponse(m, reply)
    case CancelCalled(op) => OnCancel(m, op)
    case CloseCalled(finished, senderOk, receiverOk) => OnClose(m, finished, senderOk, receiverOk)
  }

  function Run(m: Management, inputs: seq<Input>): Out
    decreases |inputs|
  {
    if inputs == [] then Out(m, [])
    else
      var o := OnInput(m, inputs[0]);
      var r := Run(o.state, inputs[1..]);
      Out(r.state, o.outputs + r.outputs)
  }

  function Created(): Management {
    Management(Idle, [], 0, 0, false, false)
  }
}
