/** What each event does to a link of src/link.c (AMQP 1.0 Part 2, section 2.6). */
module LinkSpec {
  import opened Octets
  import opened Options


  datatype Role = Sender | Receiver
  datatype Phase = Detached | HalfAttachedAttachSent | HalfAttachedAttachReceived | Attached | Failed
  datatype Reason = DispositionSettled | NotDelivered | TimedOut | Cancelled

  const RECEIVER_MIN_LINK_CREDIT: nat := 1

  /** `op` stands for the handle the caller of `link_transfer_async` got. */
  datatype Delivery = Delivery(op: nat, id: nat, startTick: nat, timeout: nat)

  /** The list of pending deliveries is destroyed, not emptied, when all of them are given up. */
  datatype Pending = NoList | Listed(deliveries: seq<Delivery>)

  datatype LinkState = LinkState(
    role: Role,
    phase: Phase,
    deliveryCount: nat,
    credit: nat,
    maxCredit: nat,
    initialCount: nat,
    pending: Pending,
    payload: Bytes,
    receivedId: nat,
    closed: bool,
    accepted: nat)

  /** What a link hands to its session or calls back. */
  datatype Output =
    | FlowSent(credit: nat, deliveryCount: nat)
    | AttachSent(initialCount: nat)
    | DetachSent(close: bool)
    | DispositionSent(id: nat)
    | Settlement(op: nat, id: nat, reason: Reason)
    | Indicated(id: nat, payload: Bytes)
    | FlowOn
    | PhaseChanged(phase: Phase)

  datatype TransferFrame = TransferFrame(id: Option<nat>, more: bool, payload: Bytes)

  /** What `session_send_transfer` answers. */
  datatype Answer = Taken(id: nat) | Busy | Refused

  datatype Input =
    | AttachReceived(count: Option<nat>)
    | FlowReceived(credit: Option<nat>, count: Option<nat>)
    | TransferReceived(frame: TransferFrame, reply: bool)
    | DispositionReceived(first: nat, last: Option<nat>, settled: bool, hasState: bool)
    | DetachReceived(close: bool, hasError: bool, attachOk: bool, detachOk: bool)
    | SessionMapped(attachOk: bool)
    | SessionDiscarding
    | SessionFailed
    | TransferAsync(now: nat, timeout: nat, answer: Answer)
    | Cancel(op: nat)
    | DoWork(now: nat)
    | DetachCalled(close: bool, detachOk: bool)

  datatype Out = Out(state: LinkState, outputs: seq<Output>)

  // ---------------------------------------------------------------- pending deliveries

  function Chosen(ds: seq<Delivery>, p: Delivery -> bool): seq<Delivery> {
    if ds == [] then [] else (if p(ds[0]) then [ds[0]] else []) + Chosen(ds[1..], p)
  }

  function Left(ds: seq<Delivery>, p: Delivery -> bool): seq<Delivery> {
    if ds == [] then [] else (if p(ds[0]) then [] else [ds[0]]) + Left(ds[1..], p)
  }

  lemma {:induction false} SameChoice(ds: seq<Delivery>, p: Delivery -> bool, q: Delivery -> bool)
    requires forall d :: p(d) == q(d)
    ensures Chosen(ds, p) == Chosen(ds, q) && Left(ds, p) == Left(ds, q)
    decreases |ds|
  {
    if ds != [] {
      SameChoice(ds[1..], p, q);
    }
  }

  function Settlements(ds: seq<Delivery>, reason: Reason): (os: seq<Output>)
    ensures |os| == |ds|
  {
    seq(|ds|, k requires 0 <= k < |ds| => Settlement(ds[k].op, ds[k].id, reason))
  }

  predicate InRange(d: Delivery, first: nat, last: nat) {
    first <= d.id <= last
  }

  /** Ticks are unsigned 64-bit numbers and their difference wraps; a timeout of 0 means none. */
  predicate Expired(d: Delivery, now: nat) {
    d.timeout != 0 && (now - d.startTick) % 0x1_0000_0000_0000_0000 >= d.timeout
  }

  function Giveup(l: LinkState): Out {
    if l.pending.NoList? then Out(l, [])
    else Out(l.(pending := NoList), Settlements(l.pending.deliveries, NotDelivered))
  }

  /** All pending deliveries are given up and the link changes phase. */
  function GiveupAndMove(l: LinkState, phase: Phase): Out {
    var g := Giveup(l);
    Out(g.state.(phase := phase), g.outputs + [PhaseChanged(phase)])
  }

  // ---------------------------------------------------------------- events

  function OnAttach(l: LinkState, count: Option<nat>): Out {
    if l.role.Receiver? && count.None? then GiveupAndMove(l, Detached)
    else
      var l1 := if l.role.Receiver? then l.(deliveryCount := count.value) else l;
      if l1.phase.Detached? || l1.phase.HalfAttachedAttachSent? then
        var phase := if l1.phase.Detached? then HalfAttachedAttachReceived else Attached;
        if l1.role.Receiver? then
          Out(l1.(credit := l1.maxCredit, phase := phase), [FlowSent(l1.maxCredit, l1.deliveryCount), PhaseChanged(phase)])
        else Out(l1.(credit := 0, phase := phase), [PhaseChanged(phase)])
      else Out(l1, [])
  }

  function OnFlow(l: LinkState, credit: Option<nat>, count: Option<nat>): Out {
    if l.role.Receiver? then Out(l, [])
    else if credit.None? || count.None? then GiveupAndMove(l, Detached)
    else
      var c := (count.value + credit.value - l.deliveryCount) % 0x1_0000_0000;
      Out(l.(credit := c), if c > 0 then [FlowOn] else [])
  }

  /** The credit is topped up when a transfer finds it low. */
  function TopUp(l: LinkState): Out {
    if l.credit <= RECEIVER_MIN_LINK_CREDIT then Out(l.(credit := l.maxCredit), [FlowSent(l.maxCredit, l.deliveryCount)])
    else Out(l, [])
  }

  /** A frame without a delivery id that continues nothing is dropped. */
  predicate Misplaced(l: LinkState, f: TransferFrame) {
    f.id.None? && l.payload == []
  }

  function OnTransfer(l: LinkState, f: TransferFrame, reply: bool): Out {
    var t := TopUp(l);
    var l1 := t.state.(receivedId := if f.id.Some? then f.id.value else l.receivedId);
    if Misplaced(l, f) then Out(l1, t.outputs)
    else
      var whole := if l.payload != [] || f.more then l.payload + f.payload else [];
      if f.more then Out(l1.(payload := whole), t.outputs)
      else
        Out(l1.(payload := [], credit := (l1.credit - 1) % 0x1_0000_0000, deliveryCount := (l1.deliveryCount + 1) % 0x1_0000_0000),
            t.outputs + [Indicated(l1.receivedId, if whole != [] then whole else f.payload)]
            + (if reply then [DispositionSent(l1.receivedId)] else []))
  }

  /** A settled disposition without a state takes deliveries off the list and tells nobody. */
  function OnDisposition(l: LinkState, first: nat, last: Option<nat>, settled: bool, hasState: bool): Out {
    if !settled || l.pending.NoList? then Out(l, [])
    else
      var p := d => InRange(d, first, if last.Some? then last.value else first);
      var ds := l.pending.deliveries;
      Out(l.(pending := Listed(Left(ds, p))), if hasState then Settlements(Chosen(ds, p), DispositionSettled) else [])
  }

  function SendDetach(l: LinkState, close: bool, detachOk: bool): Out {
    if detachOk then Out(l.(closed := l.closed || close), [DetachSent(close)]) else Out(l, [])
  }

  function SendAttach(l: LinkState, attachOk: bool): Out {
    Out(l.(deliveryCount := l.initialCount), if attachOk then [AttachSent(l.initialCount)] else [])
  }

  /** A half attached link that is closed attaches and closes at once. */
  function AnswerDetach(l: LinkState, close: bool, attachOk: bool, detachOk: bool): Out {
    if l.phase.Attached? then SendDetach(l, close, detachOk)
    else if close && (l.phase.HalfAttachedAttachSent? || l.phase.HalfAttachedAttachReceived?) && !l.closed then
      var a := SendAttach(l, attachOk);
      var d := SendDetach(a.state, true, detachOk);
      Out(d.state, a.outputs + d.outputs)
    else Out(l, [])
  }

  function OnDetach(l: LinkState, close: bool, hasError: bool, attachOk: bool, detachOk: bool): Out {
    var a := AnswerDetach(l, close, attachOk, detachOk);
    var g := GiveupAndMove(a.state, if hasError then Failed else Detached);
    Out(g.state, a.outputs + g.outputs)
  }

  function OnSessionMapped(l: LinkState, attachOk: bool): Out {
    if l.phase.Detached? && !l.closed then
      var a := SendAttach(l, attachOk);
      if attachOk then Out(a.state.(phase := HalfAttachedAttachSent), a.outputs + [PhaseChanged(HalfAttachedAttachSent)]) else a
    else Out(l, [])
  }

  datatype TransferResult = TransferStarted(op: nat) | TransferBusy | TransferError

  function TransferVerdict(l: LinkState, answer: Answer): TransferResult {
    if !l.role.Sender? || !l.phase.Attached? then TransferError
    else if l.credit == 0 then TransferBusy
    else if l.pending.NoList? then TransferError
    else match answer
      case Taken(_) => TransferStarted(l.accepted)
      case Busy => TransferBusy
      case Refused => TransferError
  }

  function OnTransferAsync(l: LinkState, now: nat, timeout: nat, answer: Answer): LinkState {
    if TransferVerdict(l, answer).TransferStarted? then
      l.(deliveryCount := (l.deliveryCount + 1) % 0x1_0000_0000, credit := l.credit - 1, accepted := l.accepted + 1,
         pending := Listed(l.pending.deliveries + [Delivery(l.accepted, answer.id, now, timeout)]))
    else l
  }

  function OnCancel(l: LinkState, op: nat): Out {
    if l.pending.NoList? then Out(l, [])
    else
      var p := (d: Delivery) => d.op == op;
      Out(l.(pending := Listed(Left(l.pending.deliveries, p))), Settlements(Chosen(l.pending.deliveries, p), Cancelled))
  }

  function OnDoWork(l: LinkState, now: nat): Out {
    if l.pending.NoList? then Out(l, [])
    else
      var p := (d: Delivery) => Expired(d, now);
      Out(l.(pending := Listed(Left(l.pending.deliveries, p))), Settlements(Chosen(l.pending.deliveries, p), TimedOut))
  }

  function OnDetachCalled(l: LinkState, close: bool, detachOk: bool): Out {
    if l.closed then Out(l, [])
    else match l.phase
      case Attached =>
        var d := SendDetach(l, close, detachOk);
        if detachOk then Out(d.state.(phase := HalfAttachedAttachSent), d.outputs + [PhaseChanged(HalfAttachedAttachSent)]) else d
      case HalfAttachedAttachSent => Unattach(l, close, detachOk)
      case HalfAttachedAttachReceived => Unattach(l, close, detachOk)
      case Detached => Out(l, [])
      case Failed => Out(l, [])
  }

  function Unattach(l: LinkState, close: bool, detachOk: bool): Out {
    var d := SendDetach(l, close, detachOk);
    if detachOk then Out(d.state.(phase := Detached), d.outputs + [PhaseChanged(Detached)]) else d
  }

  function OnInput(l: LinkState, i: Input): Out {
    match i
    case AttachReceived(count) => OnAttach(l, count)
    case FlowReceived(credit, count) => OnFlow(l, credit, count)
    case TransferReceived(f, reply) => OnTransfer(l, f, reply)
    case DispositionReceived(first, last, settled, hasState) => OnDisposition(l, first, last, settled, hasState)
    case DetachReceived(close, hasError, attachOk, detachOk) => OnDetach(l, close, hasError, attachOk, detachOk)
    case SessionMapped(attachOk) => OnSessionMapped(l, attachOk)
    case SessionDiscarding => GiveupAndMove(l, Detached)
    case SessionFailed => GiveupAndMove(l, Failed)
    case TransferAsync(now, timeout, answer) => Out(OnTransferAsync(l, now, timeout, answer), [])
    case Cancel(op) => OnCancel(l, op)
    case DoWork(now) => OnDoWork(l, now)
    case DetachCalled(close, detachOk) => OnDetachCalled(l, close, detachOk)
  }

  /** Any interleaving of events. */
  function RunLink(l: LinkState, inputs: seq<Input>): Out
    decreases |inputs|
  {
    if inputs == [] then Out(l, [])
    else
      var o := OnInput(l, inputs[0]);
      var r := RunLink(o.state, inputs[1..]);
      Out(r.state, o.outputs + r.outputs)
  }

  function Created(role: Role, initialCount: nat, maxCredit: nat): LinkState {
    LinkState(role, Detached, 0, 0, maxCredit, initialCount, Listed([]), [], 0, false, 0)
  }
}
