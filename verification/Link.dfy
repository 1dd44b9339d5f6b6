/** src/link.c as it runs: one object whose fields every frame, call and timer changes. */
module Links {
  import opened Octets
  import opened Options
  import opened LinkSpec

  class Link {
    const role: Role
    var linkState: Phase
    var deliveryCount: nat
    var currentLinkCredit: nat
    var maxLinkCredit: nat
    var initialDeliveryCount: nat
    /** `None` once the list has been destroyed. */
    var pendingDeliveries: Option<seq<Delivery>>
    var receivedPayload: Bytes
    var receivedDeliveryId: nat
    var isClosed: bool
    /** Each accepted transfer gets a handle of its own. */
    var nextOperation: nat

    function View(): LinkState
      reads this
    {
      LinkState(role, linkState, deliveryCount, currentLinkCredit, maxLinkCredit, initialDeliveryCount,
                if pendingDeliveries.None? then NoList else Listed(pendingDeliveries.value),
                receivedPayload, receivedDeliveryId, isClosed, nextOperation)
    }

    constructor (role: Role, initialDeliveryCount: nat, maxLinkCredit: nat)
      ensures View() == Created(role, initialDeliveryCount, maxLinkCredit)
    {
      this.role, this.initialDeliveryCount, this.maxLinkCredit := role, initialDeliveryCount, maxLinkCredit;
      linkState, deliveryCount, currentLinkCredit, pendingDeliveries := Detached, 0, 0, Some([]);
      receivedPayload, receivedDeliveryId, isClosed, nextOperation := [], 0, false, 0;
    }

    method SetLinkState(phase: Phase) returns (outputs: seq<Output>)
      modifies this`linkState
      ensures View() == old(View()).(phase := phase) && outputs == [PhaseChanged(phase)]
    {
      linkState := phase;
      outputs := [PhaseChanged(phase)];
    }

    /** Calls back every delivery that meets `p` and takes it off the list, in one pass from head to tail. */
    method SettleWhere(p: Delivery -> bool, reason: Reason) returns (outputs: seq<Output>)
      requires pendingDeliveries.Some?
      modifies this`pendingDeliveries
      ensures View() == old(View()).(pending := Listed(Left(old(pendingDeliveries.value), p)))
      ensures outputs == Settlements(Chosen(old(pendingDeliveries.value), p), reason)
    {
      hide Chosen, Left, Settlements;
      outputs := [];
      ghost var all := pendingDeliveries.value;
      ghost var seen := 0;
      var i := 0;
      assert all[0..] == all && [] + all == all;
      while i < |pendingDeliveries.value|
        invariant pendingDeliveries.Some? && seen <= |all| && i <= |pendingDeliveries.value|
        invariant pendingDeliveries.value[i..] == all[seen..]
        invariant pendingDeliveries.value[..i] + Left(all[seen..], p) == Left(all, p)
        invariant outputs + Settlements(Chosen(all[seen..], p), reason) == Settlements(Chosen(all, p), reason)
        decreases |pendingDeliveries.value| - i
      {
        ghost var list := pendingDeliveries.value;
        var d := pendingDeliveries.value[i];
        assert d == all[seen..][0] && all[seen..][1..] == all[seen + 1..];
        FirstOfList(all[seen..], p, reason);
        if p(d) {
          Regroup(outputs, [Settlement(d.op, d.id, reason)], Settlements(Chosen(all[seen + 1..], p), reason));
          outputs := outputs + [Settlement(d.op, d.id, reason)];
          pendingDeliveries := Some(pendingDeliveries.value[..i] + pendingDeliveries.value[i + 1..]);
          assert pendingDeliveries.value[i..] == list[i + 1..] == all[seen + 1..];
          assert pendingDeliveries.value[..i] == list[..i];
        } else {
          assert pendingDeliveries.value[..i + 1] == pendingDeliveries.value[..i] + [d];
          Regroup(pendingDeliveries.value[..i], [d], Left(all[seen + 1..], p));
          i := i + 1;
        }
        seen := seen + 1;
      }
      EndOfList(p, reason);
      assert all[seen..] == [];
      assert pendingDeliveries.value[..i] + [] == pendingDeliveries.value;
      assert outputs + [] == outputs;
    }

    method RemoveAllPendingDeliveries() returns (outputs: seq<Output>)
      modifies this`pendingDeliveries
      ensures Giveup(old(View())) == Out(View(), outputs)
    {
      outputs := [];
      if pendingDeliveries.Some? {
        var ds := pendingDeliveries.value;
        for i := 0 to |ds|
          invariant outputs == Settlements(ds[..i], NotDelivered)
        {
          outputs := outputs + [Settlement(ds[i].op, ds[i].id, NotDelivered)];
        }
        assert ds[..|ds|] == ds;
        pendingDeliveries := None;
      }
    }

    method GiveUp(phase: Phase) returns (outputs: seq<Output>)
      modifies this`pendingDeliveries, this`linkState
      ensures GiveupAndMove(old(View()), phase) == Out(View(), outputs)
    {
      var settled := RemoveAllPendingDeliveries();
      var changed := SetLinkState(phase);
      outputs := settled + changed;
    }

    method SendFlow() returns (outputs: seq<Output>)
      ensures outputs == [FlowSent(currentLinkCredit, deliveryCount)]
    {
      outputs := [FlowSent(currentLinkCredit, deliveryCount)];
    }

    method AttachReceived(count: Option<nat>) returns (outputs: seq<Output>)
      modifies this
      ensures OnAttach(old(View()), count) == Out(View(), outputs)
    {
      outputs := [];
      if role.Receiver? {
        if count.None? {
          outputs := GiveUp(Detached);
          return;
        }
        deliveryCount := count.value;
      }
      if linkState.Detached? || linkState.HalfAttachedAttachSent? {
        if role.Receiver? {
          currentLinkCredit := maxLinkCredit;
          outputs := SendFlow();
        } else {
          currentLinkCredit := 0;
        }
        var changed := SetLinkState(if linkState.Detached? then HalfAttachedAttachReceived else Attached);
        outputs := outputs + changed;
      }
    }

    method FlowReceived(credit: Option<nat>, count: Option<nat>) returns (outputs: seq<Output>)
      modifies this
      ensures OnFlow(old(View()), credit, count) == Out(View(), outputs)
    {
      outputs := [];
      if role.Sender? {
        if credit.None? || count.None? {
          outputs := GiveUp(Detached);
        } else {
          currentLinkCredit := (count.value + credit.value - deliveryCount) % 0x1_0000_0000;
          if currentLinkCredit > 0 {
            outputs := [FlowOn];
          }
        }
      }
    }

    method TransferReceived(f: TransferFrame, reply: bool) returns (outputs: seq<Output>)
      modifies this
      ensures OnTransfer(old(View()), f, reply) == Out(View(), outputs)
    {
      outputs := [];
      if currentLinkCredit <= RECEIVER_MIN_LINK_CREDIT {
        currentLinkCredit := maxLinkCredit;
        outputs := SendFlow();
      }
      if f.id.Some? {
        receivedDeliveryId := f.id.value;
      } else if receivedPayload == [] {
        return;
      }
      if receivedPayload != [] || f.more {
        receivedPayload := receivedPayload + f.payload;
      }
      if !f.more {
        currentLinkCredit := (currentLinkCredit - 1) % 0x1_0000_0000;
        deliveryCount := (deliveryCount + 1) % 0x1_0000_0000;
        outputs := outputs + [Indicated(receivedDeliveryId, if receivedPayload != [] then receivedPayload else f.payload)];
        receivedPayload := [];
        outputs := outputs + if reply then [DispositionSent(receivedDeliveryId)] else [];
      }
    }

    method DispositionReceived(first: nat, last: Option<nat>, settled: bool, hasState: bool) returns (outputs: seq<Output>)
      modifies this`pendingDeliveries
      ensures OnDisposition(old(View()), first, last, settled, hasState) == Out(View(), outputs)
    {
      outputs := [];
      if settled && pendingDeliveries.Some? {
        var to := if last.Some? then last.value else first;
        ghost var p := d => InRange(d, first, if last.Some? then last.value else first);
        SameChoice(pendingDeliveries.value, d => InRange(d, first, to), p);
        outputs := SettleWhere(d => InRange(d, first, to), DispositionSettled);
        if !hasState {
          outputs := [];
        }
      }
    }

    method SendDetachPerformative(close: bool, detachOk: bool) returns (outputs: seq<Output>)
      modifies this`isClosed
      ensures SendDetach(old(View()), close, detachOk) == Out(View(), outputs)
    {
      outputs := [];
      if detachOk {
        if close {
          isClosed := true;
        }
        outputs := [DetachSent(close)];
      }
    }

    method SendAttachPerformative(attachOk: bool) returns (outputs: seq<Output>)
      modifies this`deliveryCount
      ensures SendAttach(old(View()), attachOk) == Out(View(), outputs)
    {
      deliveryCount := initialDeliveryCount;
      outputs := if attachOk then [AttachSent(initialDeliveryCount)] else [];
    }

    method DetachReceived(close: bool, hasError: bool, attachOk: bool, detachOk: bool) returns (outputs: seq<Output>)
      modifies this
      ensures OnDetach(old(View()), close, hasError, attachOk, detachOk) == Out(View(), outputs)
    {
      outputs := [];
      if linkState.Attached? {
        outputs := SendDetachPerformative(close, detachOk);
      } else if close && (linkState.HalfAttachedAttachSent? || linkState.HalfAttachedAttachReceived?) && !isClosed {
        var attach := SendAttachPerformative(attachOk);
        var detach := SendDetachPerformative(true, detachOk);
        outputs := attach + detach;
      }
      var given := GiveUp(if hasError then Failed else Detached);
      outputs := outputs + given;
    }

    method SessionStateMapped(attachOk: bool) returns (outputs: seq<Output>)
      modifies this
      ensures OnSessionMapped(old(View()), attachOk) == Out(View(), outputs)
    {
      outputs := [];
      if linkState.Detached? && !isClosed {
        outputs := SendAttachPerformative(attachOk);
        if attachOk {
          var changed := SetLinkState(HalfAttachedAttachSent);
          outputs := outputs + changed;
        }
      }
    }

    /** `link_transfer_async`; the session's answer comes from outside. */
    method Transfer(now: nat, timeout: nat, answer: Answer) returns (result: TransferResult)
      modifies this
      ensures result == TransferVerdict(old(View()), answer) && View() == OnTransferAsync(old(View()), now, timeout, answer)
    {
      if !role.Sender? || !linkState.Attached? {
        return TransferError;
      }
      if currentLinkCredit == 0 {
        return TransferBusy;
      }
      if pendingDeliveries.None? {
        return TransferError;
      }
      match answer
      case Refused => result := TransferError;
      case Busy => result := TransferBusy;
      case Taken(id) =>
        pendingDeliveries := Some(pendingDeliveries.value + [Delivery(nextOperation, id, now, timeout)]);
        deliveryCount := (deliveryCount + 1) % 0x1_0000_0000;
        currentLinkCredit := currentLinkCredit - 1;
        result := TransferStarted(nextOperation);
        nextOperation := nextOperation + 1;
    }

    method CancelTransfer(op: nat) returns (outputs: seq<Output>)
      modifies this`pendingDeliveries
      ensures OnCancel(old(View()), op) == Out(View(), outputs)
    {
      outputs := [];
      if pendingDeliveries.Some? {
        ghost var p := (d: Delivery) => d.op == op;
        SameChoice(pendingDeliveries.value, (d: Delivery) => d.op == op, p);
        outputs := SettleWhere((d: Delivery) => d.op == op, Cancelled);
      }
    }

    method Work(now: nat) returns (outputs: seq<Output>)
      modifies this`pendingDeliveries
      ensures OnDoWork(old(View()), now) == Out(View(), outputs)
    {
      outputs := [];
      if pendingDeliveries.Some? {
        outputs := SettleWhere((d: Delivery) => Expired(d, now), TimedOut);
      }
    }

    method Detach(close: bool, detachOk: bool) returns (outputs: seq<Output>)
      modifies this
      ensures OnDetachCalled(old(View()), close, detachOk) == Out(View(), outputs)
    {
      outputs := [];
      if isClosed || linkState.Detached? || linkState.Failed? {
        return;
      }
      var wasAttached := linkState.Attached?;
      outputs := SendDetachPerformative(close, detachOk);
      if detachOk {
        var changed := SetLinkState(if wasAttached then HalfAttachedAttachSent else Detached);
        outputs := outputs + changed;
      }
    }
  }

  lemma FirstOfList(ds: seq<Delivery>, p: Delivery -> bool, reason: Reason)
    requires ds != []
    ensures Left(ds, p) == (if p(ds[0]) then Left(ds[1..], p) else [ds[0]] + Left(ds[1..], p))
    ensures Settlements(Chosen(ds, p), reason) ==
      if p(ds[0]) then [Settlement(ds[0].op, ds[0].id, reason)] + Settlements(Chosen(ds[1..], p), reason)
      else Settlements(Chosen(ds[1..], p), reason)
  {
    hide Chosen, Left, Settlements;
    FirstChosen(ds, p);
    FirstSettled(ds[0], Chosen(ds[1..], p), reason);
  }

  lemma FirstChosen(ds: seq<Delivery>, p: Delivery -> bool)
    requires ds != []
    ensures Left(ds, p) == if p(ds[0]) then Left(ds[1..], p) else [ds[0]] + Left(ds[1..], p)
    ensures Chosen(ds, p) == if p(ds[0]) then [ds[0]] + Chosen(ds[1..], p) else Chosen(ds[1..], p)
  {
    var l, c := Left(ds[1..], p), Chosen(ds[1..], p);
    assert [] + l == l && [] + c == c;
  }

  lemma FirstSettled(d: Delivery, ds: seq<Delivery>, reason: Reason)
    ensures Settlements([d] + ds, reason) == [Settlement(d.op, d.id, reason)] + Settlements(ds, reason)
  {
  }

  lemma EndOfList(p: Delivery -> bool, reason: Reason)
    ensures Left([], p) == [] && Settlements(Chosen([], p), reason) == []
  {
  }

  lemma Regroup<T>(a: seq<T>, b: seq<T>, c: seq<T>)
    ensures (a + b) + c == a + (b + c)
  {
  }
}
