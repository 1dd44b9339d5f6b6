/**
 A sending and a receiving link joined by two in-order queues, over whole runs (AMQP 1.0 Part 2, section
 2.6.7). The links count in 32 bits; `sent`, `received`, `granted` and the flows' limits are the true numbers.
 */
module LinkCredit {
  import opened Octets
  import opened Options
  import opened LinkSpec

  datatype ToReceiver = Announce(count: nat) | Transfer(frame: TransferFrame)

  /** `limit` is the number of deliveries the flow allows in all. */
  datatype ToSender = Flow(credit: nat, count: nat, limit: nat) | Disposition(id: nat)

  datatype System = System(
    sender: LinkState,
    receiver: LinkState,
    toReceiver: seq<ToReceiver>,
    toSender: seq<ToSender>,
    sent: nat,
    received: nat,
    granted: nat,
    heard: nat)

  datatype Step =
    | Send(frames: seq<TransferFrame>, now: nat, timeout: nat, answer: Answer)
    | AtReceiver(reply: bool)
    | AtSender
    | CancelSend(op: nat)
    | SenderWorks(now: nat)

  /** A delivery cut into frames: `more` is set on all but the last. */
  predicate WellCut(fs: seq<TransferFrame>) {
    fs != [] && forall k :: 0 <= k < |fs| ==> (fs[k].more <==> k < |fs| - 1)
  }

  function AsTransfers(fs: seq<TransferFrame>): (q: seq<ToReceiver>)
    ensures |q| == |fs|
  {
    seq(|fs|, k requires 0 <= k < |fs| => Transfer(fs[k]))
  }

  predicate Enabled(s: System, step: Step) {
    match step
    case Send(fs, _, _, _) => WellCut(fs)
    case AtReceiver(_) => s.toReceiver != []
    case AtSender => s.toSender != []
    case CancelSend(_) => true
    case SenderWorks(_) => true
  }

  /** The flows and dispositions among the outputs of a receiver that has completed `received` deliveries. */
  function Messages(os: seq<Output>, received: nat): seq<ToSender> {
    if os == [] then []
    else
      (match os[0]
       case FlowSent(credit, count) => [Flow(credit, count, received + credit)]
       case DispositionSent(id) => [Disposition(id)]
       case _ => []) + Messages(os[1..], received)
  }

  predicate Delivers(os: seq<Output>) {
    exists k :: 0 <= k < |os| && os[k].Indicated?
  }

  function Granted(ms: seq<ToSender>, before: nat): nat {
    if ms == [] then before else Granted(ms[1..], if ms[0].Flow? then ms[0].limit else before)
  }

  function ReceiverStep(s: System, reply: bool): System
    requires s.toReceiver != []
  {
    var m := s.toReceiver[0];
    var o := if m.Announce? then OnAttach(s.receiver, Some(m.count)) else OnTransfer(s.receiver, m.frame, reply);
    var ms := Messages(o.outputs, s.received);
    s.(receiver := o.state, toReceiver := s.toReceiver[1..], toSender := s.toSender + ms,
       received := s.received + (if Delivers(o.outputs) then 1 else 0), granted := Granted(ms, s.granted))
  }

  function SenderStep(s: System): System
    requires s.toSender != []
  {
    match s.toSender[0]
    case Flow(credit, count, limit) =>
      s.(sender := OnFlow(s.sender, Some(credit), Some(count)).state, toSender := s.toSender[1..], heard := limit)
    case Disposition(id) =>
      s.(sender := OnDisposition(s.sender, id, Some(id), true, true).state, toSender := s.toSender[1..])
  }

  function Next(s: System, step: Step): System
    requires Enabled(s, step)
  {
    match step
    case Send(fs, now, timeout, answer) =>
      if TransferVerdict(s.sender, answer).TransferStarted? then
        s.(sender := OnTransferAsync(s.sender, now, timeout, answer), toReceiver := s.toReceiver + AsTransfers(fs), sent := s.sent + 1)
      else s
    case AtReceiver(reply) => ReceiverStep(s, reply)
    case AtSender => SenderStep(s)
    case CancelSend(op) => s.(sender := OnCancel(s.sender, op).state)
    case SenderWorks(now) => s.(sender := OnDoWork(s.sender, now).state)
  }

  /** The attaches among the outputs of a sender. */
  function Announcements(os: seq<Output>): seq<ToReceiver> {
    if os == [] then [] else (if os[0].AttachSent? then [Announce(os[0].initialCount)] else []) + Announcements(os[1..])
  }

  /** Both links were created and mapped, and the sender has heard of the receiver, which is about to hear of the sender. */
  function Initial(init: nat, max: nat): System {
    var snd := RunLink(Created(Sender, init, max), [SessionMapped(true), AttachReceived(None)]);
    var rcv := RunLink(Created(Receiver, 0, max), [SessionMapped(true)]);
    System(snd.state, rcv.state, Announcements(snd.outputs), [], 0, 0, 0, 0)
  }

  lemma SenderStart(init: nat, max: nat)
    ensures var o := RunLink(Created(Sender, init, max), [SessionMapped(true), AttachReceived(None)]);
      && o.state == Created(Sender, init, max).(phase := Attached, deliveryCount := init)
      && Announcements(o.outputs) == [Announce(init)]
  {
    var l := Created(Sender, init, max);
    var inputs := [SessionMapped(true), AttachReceived(None)];
    var o := OnInput(l, inputs[0]);
    var p := OnInput(o.state, inputs[1]);
    assert inputs[1..] == [inputs[1]] && inputs[1..][1..] == [];
    assert RunLink(p.state, []) == Out(p.state, []);
    assert RunLink(o.state, inputs[1..]) == Out(p.state, p.outputs + []);
    assert RunLink(l, inputs) == Out(p.state, o.outputs + (p.outputs + []));
    var os := RunLink(l, inputs).outputs;
    assert os == [AttachSent(init), PhaseChanged(HalfAttachedAttachSent), PhaseChanged(Attached)];
    assert os[1..] == [PhaseChanged(HalfAttachedAttachSent), PhaseChanged(Attached)] && os[2..] == [PhaseChanged(Attached)] && os[3..] == [];
    assert os[1..][1..] == os[2..] && os[2..][1..] == os[3..];
    assert Announcements(os[3..]) == [] && Announcements(os[2..]) == [] && Announcements(os[1..]) == [];
  }

  lemma ReceiverStart(max: nat)
    ensures RunLink(Created(Receiver, 0, max), [SessionMapped(true)]).state == Created(Receiver, 0, max).(phase := HalfAttachedAttachSent)
  {
    var o := OnInput(Created(Receiver, 0, max), SessionMapped(true));
    assert RunLink(o.state, []) == Out(o.state, []);
    assert [SessionMapped(true)][1..] == [];
  }

  lemma InitialForm(init: nat, max: nat)
    ensures Initial(init, max) == System(Created(Sender, init, max).(phase := Attached, deliveryCount := init),
      Created(Receiver, 0, max).(phase := HalfAttachedAttachSent), [Announce(init)], [], 0, 0, 0, 0)
  {
    hide RunLink, Announcements;
    SenderStart(init, max);
    ReceiverStart(max);
  }

  predicate Possible(s: System, steps: seq<Step>)
    decreases |steps|
  {
    steps == [] || (Enabled(s, steps[0]) && Possible(Next(s, steps[0]), steps[1..]))
  }

  function Run(s: System, steps: seq<Step>): System
    requires Possible(s, steps)
    decreases |steps|
  {
    if steps == [] then s else Run(Next(s, steps[0]), steps[1..])
  }

  // ---------------------------------------------------------------- the invariant

  function Finals(q: seq<ToReceiver>): nat {
    if q == [] then 0 else (if q[0].Transfer? && !q[0].frame.more then 1 else 0) + Finals(q[1..])
  }

  /** Limits on their way to the sender never go down, and the newest is the one granted last. */
  predicate Rising(ms: seq<ToSender>, from: nat, to: nat) {
    if ms == [] then from == to
    else if ms[0].Flow? then from <= ms[0].limit && Rising(ms[1..], ms[0].limit, to)
    else Rising(ms[1..], from, to)
  }

  /** What a flow says in 32 bits is its limit. */
  predicate Truthful(ms: seq<ToSender>, init: nat) {
    forall k :: 0 <= k < |ms| && ms[k].Flow? ==> (ms[k].count + ms[k].credit) % 0x1_0000_0000 == (init + ms[k].limit) % 0x1_0000_0000
  }

  predicate Unannounced(s: System, init: nat) {
    s.toReceiver == [Announce(init)] && s.toSender == [] && s.sent == s.received == s.granted == s.heard == s.receiver.credit == 0
    && s.receiver.payload == [] && s.receiver.phase.HalfAttachedAttachSent?
  }

  predicate Announced(s: System, init: nat) {
    && s.receiver.phase.Attached?
    && (forall k :: 0 <= k < |s.toReceiver| ==> s.toReceiver[k].Transfer?)
    && s.receiver.deliveryCount == (init + s.received) % 0x1_0000_0000
    && s.granted == s.received + s.receiver.credit
    && s.receiver.credit <= s.receiver.maxCredit
  }

  predicate Invariant(s: System, init: nat, max: nat) {
    && 1 <= max < U32
    && s.sender.role.Sender? && s.sender.phase.Attached? && s.sender.pending.Listed?
    && s.receiver.role.Receiver? && s.receiver.maxCredit == max
    && (Unannounced(s, init) || Announced(s, init))
    && s.sender.deliveryCount == (init + s.sent) % 0x1_0000_0000
    && s.sent <= s.heard && s.sender.credit == s.heard - s.sent
    && s.received + Finals(s.toReceiver) <= s.sent
    && Rising(s.toSender, s.heard, s.granted) && Truthful(s.toSender, init)
  }

  lemma {:induction false} RisingBounds(ms: seq<ToSender>, from: nat, to: nat)
    requires Rising(ms, from, to)
    ensures from <= to
    decreases |ms|
  {
    if ms != [] {
      RisingBounds(ms[1..], if ms[0].Flow? then ms[0].limit else from, to);
    }
  }

  lemma {:induction false} RisingAppend(ms: seq<ToSender>, more: seq<ToSender>, from: nat, mid: nat, to: nat)
    requires Rising(ms, from, mid) && Rising(more, mid, to)
    ensures Rising(ms + more, from, to)
    decreases |ms|
  {
    if ms == [] {
      assert ms + more == more;
    } else {
      assert (ms + more)[0] == ms[0] && (ms + more)[1..] == ms[1..] + more;
      RisingAppend(ms[1..], more, if ms[0].Flow? then ms[0].limit else from, mid, to);
    }
  }

  lemma {:induction false} FinalsAppend(a: seq<ToReceiver>, b: seq<ToReceiver>)
    ensures Finals(a + b) == Finals(a) + Finals(b)
    decreases |a|
  {
    if a == [] {
      assert a + b == b;
    } else {
      assert (a + b)[0] == a[0] && (a + b)[1..] == a[1..] + b;
      FinalsAppend(a[1..], b);
    }
  }

  lemma {:induction false} OneFinal(fs: seq<TransferFrame>)
    requires WellCut(fs)
    ensures Finals(AsTransfers(fs)) == 1
    decreases |fs|
  {
    assert AsTransfers(fs)[1..] == AsTransfers(fs[1..]);
    if |fs| > 1 {
      OneFinal(fs[1..]);
    } else {
      assert Finals(AsTransfers(fs[1..])) == 0;
    }
  }

  /** A flow's 32-bit arithmetic comes out as the true difference. */
  lemma ModularDifference(count: nat, credit: nat, init: nat, limit: nat, sent: nat, dc: nat)
    requires (count + credit) % 0x1_0000_0000 == (init + limit) % 0x1_0000_0000
    requires dc == (init + sent) % 0x1_0000_0000 && sent <= limit < sent + 0x1_0000_0000
    ensures (count + credit - dc) % 0x1_0000_0000 == limit - sent
  {
    var q := (count + credit - (init + limit)) / 0x1_0000_0000;
    assert count + credit - (init + limit) == 0x1_0000_0000 * q by {
      SameRemainder(count + credit, init + limit);
    }
    var p := (init + sent) / 0x1_0000_0000;
    assert dc == init + sent - 0x1_0000_0000 * p;
    assert count + credit - dc == (limit - sent) + 0x1_0000_0000 * (q + p);
  }

  lemma SameRemainder(a: nat, b: nat)
    requires a % 0x1_0000_0000 == b % 0x1_0000_0000
    ensures a - b == 0x1_0000_0000 * ((a - b) / 0x1_0000_0000)
  {
    var x, y := a / 0x1_0000_0000, b / 0x1_0000_0000;
    assert a - b == 0x1_0000_0000 * (x - y);
  }

  lemma SendKeeps(s: System, step: Step, init: nat, max: nat)
    requires Invariant(s, init, max) && step.Send? && Enabled(s, step)
    ensures Invariant(Next(s, step), init, max)
  {
    hide Finals, WellCut, Truthful;
    if TransferVerdict(s.sender, step.answer).TransferStarted? {
      OneFinal(step.frames);
      FinalsAppend(s.toReceiver, AsTransfers(step.frames));
      OneMore(init + s.sent);
    }
  }

  lemma OneMore(n: nat)
    ensures (n % 0x1_0000_0000 + 1) % 0x1_0000_0000 == (n + 1) % 0x1_0000_0000
  {
  }

  lemma FlowKeeps(s: System, init: nat, max: nat)
    requires Invariant(s, init, max) && s.toSender != []
    ensures Invariant(SenderStep(s), init, max)
  {
    var m := s.toSender[0];
    if m.Flow? {
      RisingBounds(s.toSender[1..], m.limit, s.granted);
      ModularDifference(m.count, m.credit, init, m.limit, s.sent, s.sender.deliveryCount);
    }
    assert forall k :: 0 <= k < |s.toSender[1..]| ==> s.toSender[1..][k] == s.toSender[k + 1];
  }

  function DeliveryOutputs(l: LinkState, f: TransferFrame, reply: bool): seq<Output> {
    if f.more || Misplaced(l, f) then []
    else
      var id := if f.id.Some? then f.id.value else l.receivedId;
      [Indicated(id, l.payload + f.payload)] + (if reply then [DispositionSent(id)] else [])
  }

  lemma TransferOutputs(l: LinkState, f: TransferFrame, reply: bool)
    requires l.credit <= l.maxCredit && 1 <= l.maxCredit < U32
    ensures var o := OnTransfer(l, f, reply);
      var topped := if l.credit <= 1 then l.maxCredit else l.credit;
      var done := !f.more && !Misplaced(l, f);
      && o.outputs == TopUp(l).outputs + DeliveryOutputs(l, f, reply)
      && o.state.credit == topped - (if done then 1 else 0)
      && o.state.deliveryCount == (if done then (l.deliveryCount + 1) % 0x1_0000_0000 else l.deliveryCount)
      && o.state.maxCredit == l.maxCredit && o.state.role == l.role
      && o.state.receivedId == (if f.id.Some? then f.id.value else l.receivedId)
  {
    if l.payload == [] {
      assert l.payload + f.payload == f.payload;
    }
  }

  /** What a transfer frame makes the receiver send, and how its credit moves. */
  lemma TransferEffect(l: LinkState, f: TransferFrame, reply: bool, received: nat)
    requires l.credit <= l.maxCredit && 1 <= l.maxCredit < U32
    ensures var o := OnTransfer(l, f, reply);
      var topped := if l.credit <= 1 then l.maxCredit else l.credit;
      var done := !f.more && !Misplaced(l, f);
      var ms := Messages(o.outputs, received);
      && Delivers(o.outputs) == done
      && o.state.credit == topped - (if done then 1 else 0)
      && o.state.deliveryCount == (if done then (l.deliveryCount + 1) % 0x1_0000_0000 else l.deliveryCount)
      && o.state.maxCredit == l.maxCredit && o.state.role == l.role
      && ms == (if l.credit <= 1 then [Flow(l.maxCredit, l.deliveryCount, received + l.maxCredit)] else [])
               + (if done && reply then [Disposition(o.state.receivedId)] else [])
  {
    var o := OnTransfer(l, f, reply);
    var t, tail := TopUp(l).outputs, DeliveryOutputs(l, f, reply);
    TransferOutputs(l, f, reply);
    hide OnTransfer, Messages, Misplaced;
    MessagesAppend(t, tail, received);
    if tail != [] {
      SmallMessages(tail[0], o.state.receivedId, received);
      assert tail == [tail[0]] + tail[1..];
      assert (t + tail)[|t|] == tail[0];
    }
    FlowMessage(l.maxCredit, l.deliveryCount, received);
  }

  lemma {:induction false} MessagesAppend(a: seq<Output>, b: seq<Output>, received: nat)
    ensures Messages(a + b, received) == Messages(a, received) + Messages(b, received)
    decreases |a|
  {
    if a == [] {
      assert a + b == b;
    } else {
      assert (a + b)[0] == a[0] && (a + b)[1..] == a[1..] + b;
      MessagesAppend(a[1..], b, received);
    }
  }

  lemma SmallMessages(i: Output, id: nat, received: nat)
    requires i.Indicated?
    ensures Messages([i] + [], received) == [] && Messages([i] + [DispositionSent(id)], received) == [Disposition(id)]
  {
    assert ([i] + [DispositionSent(id)])[1..] == [DispositionSent(id)] && ([i] + [])[1..] == [];
    assert [DispositionSent(id)][1..] == [];
    assert Messages([], received) == [];
    assert Messages([DispositionSent(id)], received) == [Disposition(id)] + [];
  }

  lemma FlowMessage(credit: nat, count: nat, received: nat)
    ensures Messages([FlowSent(credit, count)], received) == [Flow(credit, count, received + credit)]
    ensures Messages([], received) == []
  {
    assert [FlowSent(credit, count)][1..] == [];
  }

  /** At most one flow and one disposition. */
  lemma FewMessages(ms: seq<ToSender>, flow: seq<ToSender>, disposition: seq<ToSender>, from: nat)
    requires ms == flow + disposition && |flow| <= 1 && |disposition| <= 1
    requires (flow != [] ==> flow[0].Flow? && flow[0].limit >= from) && (disposition != [] ==> disposition[0].Disposition?)
    ensures var to := if flow == [] then from else flow[0].limit; Granted(ms, from) == to && Rising(ms, from, to)
  {
    if disposition != [] {
      assert disposition[1..] == [];
      assert forall x :: Granted([], x) == x && Rising([], x, x);
      assert forall x :: Granted(disposition, x) == x && Rising(disposition, x, x);
    }
    if flow != [] {
      assert ms[1..] == disposition && ms[0] == flow[0];
    } else {
      assert ms == disposition;
    }
  }

  predicate Done(s: System)
    requires s.toReceiver != [] && s.toReceiver[0].Transfer?
  {
    var f := s.toReceiver[0].frame;
    !f.more && !Misplaced(s.receiver, f)
  }

  /** The receiver's side after a transfer frame, with the arithmetic done. */
  lemma TransferNumbers(s: System, reply: bool, init: nat, max: nat)
    requires Invariant(s, init, max) && s.toReceiver != [] && s.toReceiver[0].Transfer?
    ensures var s' := ReceiverStep(s, reply);
      var topped := if s.receiver.credit <= 1 then max else s.receiver.credit;
      && s'.received == s.received + (if Done(s) then 1 else 0)
      && s'.receiver.credit == topped - (if Done(s) then 1 else 0) && s'.receiver.credit <= max
      && s'.receiver.maxCredit == max && s'.receiver.role.Receiver?
      && s'.receiver.deliveryCount == (init + s'.received) % 0x1_0000_0000
      && s'.received + Finals(s'.toReceiver) <= s'.sent
  {
    hide OnTransfer, Messages, Rising, Truthful, Granted;
    TransferEffect(s.receiver, s.toReceiver[0].frame, reply, s.received);
    assert (s.receiver.deliveryCount + 1) % 0x1_0000_0000 == (init + s.received + 1) % 0x1_0000_0000;
  }

  /** The messages that a transfer frame makes the receiver send. */
  lemma TransferMessages(s: System, reply: bool, init: nat, max: nat)
    requires Invariant(s, init, max) && s.toReceiver != [] && s.toReceiver[0].Transfer?
    ensures var s' := ReceiverStep(s, reply);
      && s'.granted == (if s.receiver.credit <= 1 then s.received + max else s.granted)
      && Rising(s'.toSender, s'.heard, s'.granted) && Truthful(s'.toSender, init)
  {
    hide OnTransfer, Messages, Finals, Misplaced, Truthful, Rising, Granted;
    TransferEffect(s.receiver, s.toReceiver[0].frame, reply, s.received);
    var o := OnTransfer(s.receiver, s.toReceiver[0].frame, reply);
    var flow := if s.receiver.credit <= 1 then [Flow(max, s.receiver.deliveryCount, s.received + max)] else [];
    var disposition := if Done(s) && reply then [Disposition(o.state.receivedId)] else [];
    FewMessages(Messages(o.outputs, s.received), flow, disposition, s.granted);
    var s' := ReceiverStep(s, reply);
    RisingAppend(s.toSender, flow + disposition, s.heard, s.granted, s'.granted);
    TruthfulFlow(s.receiver.deliveryCount, max, init, s.received);
    TruthfulAppend(s.toSender, flow, disposition, init);
  }

  lemma TruthfulFlow(count: nat, max: nat, init: nat, received: nat)
    requires count == (init + received) % 0x1_0000_0000
    ensures Truthful([Flow(max, count, received + max)], init) && Truthful([], init)
  {
    var q := (init + received) / 0x1_0000_0000;
    assert init + (received + max) == (count + max) + 0x1_0000_0000 * q;
    WholeTurns(count + max, q);
  }

  lemma WholeTurns(n: nat, q: nat)
    ensures (n + 0x1_0000_0000 * q) % 0x1_0000_0000 == n % 0x1_0000_0000
  {
  }

  lemma TruthfulAppend(ms: seq<ToSender>, flow: seq<ToSender>, disposition: seq<ToSender>, init: nat)
    requires Truthful(ms, init) && Truthful(flow, init) && |disposition| <= 1 && (disposition != [] ==> disposition[0].Disposition?)
    ensures Truthful(ms + (flow + disposition), init)
  {
    var all := ms + (flow + disposition);
    forall k | 0 <= k < |all| && all[k].Flow?
      ensures (all[k].count + all[k].credit) % 0x1_0000_0000 == (init + all[k].limit) % 0x1_0000_0000
    {
      if k < |ms| {
        assert all[k] == ms[k];
      } else if k < |ms| + |flow| {
        assert all[k] == flow[k - |ms|];
      }
    }
  }

  lemma TransferArrives(s: System, reply: bool, init: nat, max: nat)
    requires Invariant(s, init, max) && s.toReceiver != [] && s.toReceiver[0].Transfer?
    ensures Invariant(ReceiverStep(s, reply), init, max)
    ensures ReceiverStep(s, reply).granted >= s.granted
  {
    TransferNumbers(s, reply, init, max);
    TransferMessages(s, reply, init, max);
    hide OnTransfer, Messages, Rising, Truthful, Granted, Finals;
    SameSender(s, reply);
  }

  lemma SameSender(s: System, reply: bool)
    requires s.toReceiver != []
    ensures var s' := ReceiverStep(s, reply);
      s'.sender == s.sender && s'.sent == s.sent && s'.heard == s.heard && s'.toReceiver == s.toReceiver[1..]
  {
  }

  lemma AnnounceArrives(s: System, reply: bool, init: nat, max: nat)
    requires Invariant(s, init, max) && s.toReceiver != [] && s.toReceiver[0].Announce? && init < U32
    ensures Invariant(ReceiverStep(s, reply), init, max)
    ensures var s' := ReceiverStep(s, reply);
      && s'.granted >= s.granted && s'.receiver.credit == max && s'.receiver.payload == []
      && s'.toReceiver == [] && s'.received == s.received == 0 == s'.sent
  {
    assert Unannounced(s, init);
    var o := OnAttach(s.receiver, Some(init));
    var phase := PhaseChanged(o.state.phase);
    assert o.outputs == [FlowSent(max, init)] + [phase];
    MessagesAppend([FlowSent(max, init)], [phase], 0);
    FlowMessage(max, init, 0);
    assert [phase][1..] == [];
    assert Messages([phase], 0) == [];
    var flow := [Flow(max, init, max)];
    assert Messages(o.outputs, 0) == flow + [];
    FewMessages(flow + [], flow, [], 0);
    RisingAppend([], flow, 0, 0, max);
    assert [] + flow == flow && flow + [] == flow;
    assert s.toReceiver[1..] == [];
  }

  lemma StepKeeps(s: System, step: Step, init: nat, max: nat)
    requires Invariant(s, init, max) && Enabled(s, step) && init < U32
    ensures Invariant(Next(s, step), init, max)
    ensures Next(s, step).granted >= s.granted && Next(s, step).heard >= s.heard
  {
    hide ReceiverStep, Rising;
    match step
    case Send(_, _, _, _) => SendKeeps(s, step, init, max);
    case AtReceiver(reply) =>
      if s.toReceiver[0].Announce? {
        AnnounceArrives(s, reply, init, max);
      } else {
        TransferArrives(s, reply, init, max);
      }
      ReceiverKeepsHeard(s, reply);
    case AtSender =>
      FlowKeeps(s, init, max);
      HeardRises(s);
    case CancelSend(_) =>
    case SenderWorks(_) =>
  }

  lemma ReceiverKeepsHeard(s: System, reply: bool)
    requires s.toReceiver != []
    ensures ReceiverStep(s, reply).heard == s.heard
  {
  }

  lemma HeardRises(s: System)
    requires s.toSender != [] && Rising(s.toSender, s.heard, s.granted)
    ensures SenderStep(s).heard >= s.heard && SenderStep(s).granted == s.granted
  {
  }

  lemma InitialInvariant(init: nat, max: nat)
    requires init < U32 && 1 <= max < U32
    ensures Invariant(Initial(init, max), init, max)
  {
    hide Initial;
    InitialForm(init, max);
    var q := Initial(init, max).toReceiver;
    assert q == [Announce(init)] && q[1..] == [] && Finals(q[1..]) == 0;
  }

  lemma {:induction false} RunKeeps(s: System, steps: seq<Step>, init: nat, max: nat)
    requires Invariant(s, init, max) && Possible(s, steps) && init < U32
    ensures Invariant(Run(s, steps), init, max)
    ensures Run(s, steps).granted >= s.granted && Run(s, steps).heard >= s.heard
    decreases |steps|
  {
    hide Invariant, Next, Enabled;
    if steps != [] {
      StepKeeps(s, steps[0], init, max);
      RunKeeps(Next(s, steps[0]), steps[1..], init, max);
    }
  }

  /**
   Credit safety, over every run: the sender never passes the limit it heard of, which is never above the one
   the receiver granted last; its modular credit is the true difference; the receiver's credit never wraps.
   */
  lemma CreditSafety(init: nat, max: nat, steps: seq<Step>)
    requires init < U32 && 1 <= max < U32 && Possible(Initial(init, max), steps)
    ensures var s := Run(Initial(init, max), steps);
      && s.received <= s.sent <= s.heard <= s.granted
      && s.sender.credit == s.heard - s.sent
      && s.sender.deliveryCount == (init + s.sent) % 0x1_0000_0000
      && s.receiver.credit <= max && s.granted == s.received + s.receiver.credit
      && s.sender.phase.Attached? && (s.heard > 0 ==> s.receiver.phase.Attached?)
  {
    hide Run, Possible;
    InitialInvariant(init, max);
    RunKeeps(Initial(init, max), steps, init, max);
    var s := Run(Initial(init, max), steps);
    RisingBounds(s.toSender, s.heard, s.granted);
  }

  /** Limits only go up, at the receiver and as the sender hears of them. */
  lemma LimitsNeverGoDown(init: nat, max: nat, steps: seq<Step>, more: seq<Step>)
    requires init < U32 && 1 <= max < U32
    requires Possible(Initial(init, max), steps) && Possible(Run(Initial(init, max), steps), more)
    ensures var s := Run(Initial(init, max), steps); var t := Run(s, more);
      t.granted >= s.granted && t.heard >= s.heard
  {
    hide Run, Possible;
    InitialInvariant(init, max);
    RunKeeps(Initial(init, max), steps, init, max);
    RunKeeps(Run(Initial(init, max), steps), more, init, max);
  }

  // ---------------------------------------------------------------- no starvation

  /** No frame on its way is one the receiver will drop; `clear` when no delivery is half received. */
  predicate AllArrive(clear: bool, q: seq<ToReceiver>)
    decreases |q|
  {
    if q == [] then clear
    else if q[0].Announce? then AllArrive(clear, q[1..])
    else
      var f := q[0].frame;
      (f.id.Some? || !clear) && AllArrive(if f.more then clear && f.payload == [] else true, q[1..])
  }

  /** The first frame carries the delivery id, and carries payload unless the others have the id too. */
  predicate Receivable(fs: seq<TransferFrame>) {
    WellCut(fs) && fs[0].id.Some? && (fs[0].payload != [] || (forall k :: 0 <= k < |fs| ==> fs[k].id.Some?))
  }

  lemma {:induction false} ArriveAppend(clear: bool, a: seq<ToReceiver>, b: seq<ToReceiver>)
    requires AllArrive(clear, a) && AllArrive(true, b)
    ensures AllArrive(clear, a + b)
    decreases |a|
  {
    if a == [] {
      assert a + b == b;
    } else {
      assert (a + b)[0] == a[0] && (a + b)[1..] == a[1..] + b;
      var f := a[0];
      ArriveAppend(if f.Announce? then clear else if f.frame.more then clear && f.frame.payload == [] else true, a[1..], b);
    }
  }

  lemma {:induction false} CutArrives(clear: bool, fs: seq<TransferFrame>)
    requires WellCut(fs) && (!clear || (fs[0].id.Some? && fs[0].payload != []) || (forall k :: 0 <= k < |fs| ==> fs[k].id.Some?))
    ensures AllArrive(clear, AsTransfers(fs))
    decreases |fs|
  {
    assert AsTransfers(fs)[1..] == AsTransfers(fs[1..]);
    if |fs| > 1 {
      CutArrives(clear && fs[0].payload == [], fs[1..]);
    } else {
      assert AsTransfers(fs[1..]) == [];
    }
  }

  predicate SendsReceivable(steps: seq<Step>) {
    forall k :: 0 <= k < |steps| && steps[k].Send? ==> Receivable(steps[k].frames)
  }

  predicate Live(s: System, init: nat, max: nat) {
    && Invariant(s, init, max) && AllArrive(s.receiver.payload == [], s.toReceiver)
    && s.received + Finals(s.toReceiver) == s.sent
    && (Announced(s, init) ==> s.receiver.credit >= 1)
  }

  lemma SendLive(s: System, step: Step, init: nat, max: nat)
    requires Live(s, init, max) && step.Send? && Receivable(step.frames)
    ensures Live(Next(s, step), init, max)
  {
    hide Invariant, Announced, Rising;
    SendKeeps(s, step, init, max);
    if TransferVerdict(s.sender, step.answer).TransferStarted? {
      OneFinal(step.frames);
      FinalsAppend(s.toReceiver, AsTransfers(step.frames));
      CutArrives(true, step.frames);
      ArriveAppend(s.receiver.payload == [], s.toReceiver, AsTransfers(step.frames));
      NotAnnouncedBySending(s, step, init, max);
    }
  }

  lemma NotAnnouncedBySending(s: System, step: Step, init: nat, max: nat)
    requires Invariant(s, init, max) && step.Send? && Enabled(s, step) && TransferVerdict(s.sender, step.answer).TransferStarted?
    ensures Announced(s, init)
  {
    RisingBounds(s.toSender, s.heard, s.granted);
  }

  lemma ReceiveLive(s: System, reply: bool, init: nat, max: nat)
    requires Live(s, init, max) && s.toReceiver != [] && init < U32 && max >= 2
    ensures Live(ReceiverStep(s, reply), init, max)
  {
    if s.toReceiver[0].Announce? {
      hide ReceiverStep, Rising, Truthful;
      AnnounceArrives(s, reply, init, max);
    } else {
      hide Invariant, Rising, Messages, Granted;
      TransferArrives(s, reply, init, max);
      LiveTransfer(s, reply, init, max);
    }
  }

  lemma LiveTransfer(s: System, reply: bool, init: nat, max: nat)
    requires Live(s, init, max) && s.toReceiver != [] && s.toReceiver[0].Transfer? && max >= 2
    ensures var s' := ReceiverStep(s, reply);
      && AllArrive(s'.receiver.payload == [], s'.toReceiver)
      && s'.received + Finals(s'.toReceiver) == s'.sent && s'.receiver.credit >= 1
  {
    hide Rising, Truthful, Messages, Granted, OnTransfer;
    var f := s.toReceiver[0].frame;
    TransferEffect(s.receiver, f, reply, s.received);
    PayloadAfter(s.receiver, f, reply);
  }

  lemma PayloadAfter(l: LinkState, f: TransferFrame, reply: bool)
    requires !Misplaced(l, f)
    ensures OnTransfer(l, f, reply).state.payload == if f.more then l.payload + f.payload else []
  {
  }

  lemma StepLive(s: System, step: Step, init: nat, max: nat)
    requires Live(s, init, max) && Enabled(s, step) && init < U32 && max >= 2
    requires step.Send? ==> Receivable(step.frames)
    ensures Live(Next(s, step), init, max)
  {
    hide Invariant, ReceiverStep, Rising, AllArrive;
    StepKeeps(s, step, init, max);
    match step
    case Send(_, _, _, _) => SendLive(s, step, init, max);
    case AtReceiver(reply) => ReceiveLive(s, reply, init, max);
    case AtSender =>
    case CancelSend(_) =>
    case SenderWorks(_) =>
  }

  lemma {:induction false} RunLive(s: System, steps: seq<Step>, init: nat, max: nat)
    requires Live(s, init, max) && Possible(s, steps) && init < U32 && max >= 2 && SendsReceivable(steps)
    ensures Live(Run(s, steps), init, max)
    decreases |steps|
  {
    hide Live, Next, Enabled, Receivable;
    if steps != [] {
      StepLive(s, steps[0], init, max);
      RunLive(Next(s, steps[0]), steps[1..], init, max);
    }
  }

  lemma InitialLive(init: nat, max: nat)
    requires init < U32 && 1 <= max < U32
    ensures Live(Initial(init, max), init, max)
  {
    hide Initial;
    InitialForm(init, max);
    InitialInvariant(init, max);
    var q := Initial(init, max).toReceiver;
    assert q[1..] == [];
    assert AllArrive(true, q[1..]) && Finals(q[1..]) == 0;
  }

  /**
   No starvation: when a receiver tops up to at least 2, it always leaves credit for another delivery, and
   when both queues are empty after the announcement the sender can transfer again.
   */
  lemma NoStarvation(init: nat, max: nat, steps: seq<Step>, id: nat)
    requires init < U32 && 2 <= max < U32 && Possible(Initial(init, max), steps) && SendsReceivable(steps)
    ensures var s := Run(Initial(init, max), steps);
      && (s.toReceiver == [] ==> s.granted > s.received == s.sent)
      && (s.toReceiver == [] && s.toSender == [] ==>
            s.sender.credit > 0 && TransferVerdict(s.sender, Taken(id)).TransferStarted?)
  {
    hide Run, Possible, SendsReceivable;
    InitialLive(init, max);
    RunLive(Initial(init, max), steps, init, max);
  }

  /** With a maximum of 1 one delivery is enough: both queues are empty, and the sender has no credit left. */
  lemma StarvesWithOne(init: nat, f: TransferFrame, id: nat)
    requires init < U32 && f.id.Some? && !f.more
    ensures var steps := [AtReceiver(false), AtSender, Send([f], 0, 0, Taken(id)), AtReceiver(false), AtSender];
      && Possible(Initial(init, 1), steps) && SendsReceivable(steps)
      && var s := Run(Initial(init, 1), steps);
         s.toReceiver == [] && s.toSender == [] && s.sent == 1 && s.sender.credit == 0
  {
    hide Invariant, Rising, Finals, ReceiverStep, SenderStep, Initial;
    InitialForm(init, 1);
    var steps := [AtReceiver(false), AtSender, Send([f], 0, 0, Taken(id)), AtReceiver(false), AtSender];
    var s0 := Initial(init, 1);
    FirstCredit(init);
    var s2 := SenderStep(ReceiverStep(s0, false));
    var s3 := Next(s2, steps[2]);
    LastCredit(s3, f, init);
    var s5 := SenderStep(ReceiverStep(s3, false));
    TwoSteps(s0, steps);
    TwoSteps(s3, steps[3..]);
    assert steps[2..][1..] == steps[3..] && steps[3..][2..] == [];
    assert steps[2..][0] == steps[2];
    assert Receivable([f]);
  }

  /** In no run does the sender wait without credit for a receiver that has received and answered everything. */
  ghost predicate NeverStarves(init: nat, max: nat) {
    forall steps: seq<Step> :: Possible(Initial(init, max), steps) && SendsReceivable(steps) ==>
      var s := Run(Initial(init, max), steps); s.toReceiver == [] && s.toSender == [] ==> s.sender.credit > 0
  }

  /** The sender never starves if and only if the maximum is at least 2. */
  lemma StarvesExactlyWhen(init: nat, max: nat)
    requires init < U32 && 1 <= max < U32
    ensures NeverStarves(init, max) <==> max >= 2
  {
    hide Run, Possible, SendsReceivable;
    if max >= 2 {
      forall steps: seq<Step> | Possible(Initial(init, max), steps) && SendsReceivable(steps)
        ensures var s := Run(Initial(init, max), steps); s.toReceiver == [] && s.toSender == [] ==> s.sender.credit > 0
      {
        NoStarvation(init, max, steps, 0);
      }
    } else {
      var f := TransferFrame(Some(0), false, []);
      StarvesWithOne(init, f, 0);
      var steps := [AtReceiver(false), AtSender, Send([f], 0, 0, Taken(0)), AtReceiver(false), AtSender];
      assert Possible(Initial(init, max), steps) && SendsReceivable(steps);
    }
  }

  lemma TwoSteps(s: System, steps: seq<Step>)
    requires |steps| >= 2 && steps[0] == AtReceiver(false) && steps[1] == AtSender
    requires s.toReceiver != [] && ReceiverStep(s, false).toSender != []
    ensures var t := SenderStep(ReceiverStep(s, false));
      Possible(s, steps) == Possible(t, steps[2..]) && (Possible(s, steps) ==> Run(s, steps) == Run(t, steps[2..]))
  {
    hide ReceiverStep, SenderStep;
    assert steps[1..][1..] == steps[2..];
  }

  /** The announcement is worth one delivery. */
  lemma FirstCredit(init: nat)
    requires init < U32
    ensures var r := ReceiverStep(Initial(init, 1), false);
      && r.toSender == [Flow(1, init, 1)]
      && SenderStep(r) == r.(toSender := [], sender := r.sender.(credit := 1), heard := 1)
      && r.sender == Initial(init, 1).sender && r.toReceiver == [] && r.received == 0 && r.sent == 0
      && r.receiver.credit == 1 && r.receiver.deliveryCount == init && r.receiver.payload == [] && r.receiver.maxCredit == 1
  {
    hide Invariant, Rising, Finals, Initial;
    InitialForm(init, 1);
    var s := Initial(init, 1);
    var o := OnAttach(s.receiver, Some(init));
    var phase := PhaseChanged(o.state.phase);
    assert o.outputs == [FlowSent(1, init)] + [phase];
    MessagesAppend([FlowSent(1, init)], [phase], 0);
    FlowMessage(1, init, 0);
    assert [phase][1..] == [];
    assert Messages([phase], 0) == [];
    assert [Flow(1, init, 1)] + [] == [Flow(1, init, 1)];
    assert [Flow(1, init, 1)][1..] == [];
    assert s.toReceiver[1..] == [];
  }

  lemma LastCredit(s: System, f: TransferFrame, init: nat)
    requires init < U32 && f.id.Some? && !f.more && s.toReceiver == [Transfer(f)] && s.toSender == [] && s.received == 0
    requires s.sender.role.Sender? && s.sender.deliveryCount == (init + 1) % 0x1_0000_0000
    requires s.receiver.credit == 1 == s.receiver.maxCredit && s.receiver.deliveryCount == init && s.receiver.payload == []
    ensures var r := ReceiverStep(s, false);
      && r.toSender == [Flow(1, init, 1)] && r.toReceiver == [] && r.sent == s.sent
      && SenderStep(r).sender.credit == 0 && SenderStep(r).toSender == [] && SenderStep(r).toReceiver == [] && SenderStep(r).sent == s.sent
  {
    hide Invariant, Rising, Finals, Messages, OnTransfer;
    TransferEffect(s.receiver, f, false, 0);
    var r := ReceiverStep(s, false);
    assert [Flow(1, init, 1)] + [] == [Flow(1, init, 1)];
    assert [Flow(1, init, 1)][1..] == [];
    ModularDifference(init, 1, init, 1, 1, s.sender.deliveryCount);
  }
}
