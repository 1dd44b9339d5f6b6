/** Multi-frame deliveries (AMQP 1.0 Part 2, section 2.6.14) as a receiving link puts them together. */
module LinkReassembly {
  import opened Octets
  import opened Options
  import opened LinkSpec
  import opened LinkCredit

  function Frames(fs: seq<TransferFrame>, reply: bool): (inputs: seq<Input>)
    ensures |inputs| == |fs|
  {
    if fs == [] then [] else [TransferReceived(fs[0], reply)] + Frames(fs[1..], reply)
  }

  /** What the owner of the link was given. */
  function Indications(os: seq<Output>): seq<Output> {
    if os == [] then [] else (if os[0].Indicated? then [os[0]] else []) + Indications(os[1..])
  }

  function Payloads(fs: seq<TransferFrame>): Bytes {
    if fs == [] then [] else fs[0].payload + Payloads(fs[1..])
  }

  lemma {:induction false} IndicationsConcat(a: seq<Output>, b: seq<Output>)
    ensures Indications(a + b) == Indications(a) + Indications(b)
    decreases |a|
  {
    if a == [] {
      assert a + b == b;
    } else {
      assert (a + b)[0] == a[0] && (a + b)[1..] == a[1..] + b;
      IndicationsConcat(a[1..], b);
    }
  }

  lemma RunFrame(l: LinkState, fs: seq<TransferFrame>, reply: bool)
    requires fs != []
    ensures var o := OnTransfer(l, fs[0], reply);
      var r := RunLink(l, Frames(fs, reply));
      var r' := RunLink(o.state, Frames(fs[1..], reply));
      r.state == r'.state && Indications(r.outputs) == Indications(o.outputs) + Indications(r'.outputs)
  {
    hide OnTransfer, Indications;
    assert Frames(fs, reply)[1..] == Frames(fs[1..], reply);
    assert OnInput(l, Frames(fs, reply)[0]) == OnTransfer(l, fs[0], reply);
    IndicationsConcat(OnTransfer(l, fs[0], reply).outputs, RunLink(OnTransfer(l, fs[0], reply).state, Frames(fs[1..], reply)).outputs);
  }

  lemma NotIndicated(os: seq<Output>)
    requires forall k :: 0 <= k < |os| ==> !os[k].Indicated?
    ensures Indications(os) == []
  {
  }

  lemma FrameEffect(l: LinkState, f: TransferFrame, reply: bool)
    ensures var o := OnTransfer(l, f, reply);
      var id := if f.id.Some? then f.id.value else l.receivedId;
      && o.state.receivedId == id
      && (if Misplaced(l, f) then Indications(o.outputs) == [] && o.state.payload == l.payload && o.state.deliveryCount == l.deliveryCount
          else if f.more then Indications(o.outputs) == [] && o.state.payload == l.payload + f.payload && o.state.deliveryCount == l.deliveryCount
          else Indications(o.outputs) == [Indicated(id, l.payload + f.payload)] && o.state.payload == []
               && o.state.deliveryCount == (l.deliveryCount + 1) % 0x1_0000_0000)
  {
    var o, t := OnTransfer(l, f, reply), TopUp(l).outputs;
    NotIndicated(t);
    if !Misplaced(l, f) && !f.more {
      if l.payload == [] {
        assert l.payload + f.payload == f.payload;
      }
      var tail := if reply then [DispositionSent(o.state.receivedId)] else [];
      var i := Indicated(o.state.receivedId, l.payload + f.payload);
      assert o.outputs == (t + [i]) + tail;
      NotIndicated(tail);
      IndicationsConcat(t + [i], tail);
      IndicationsConcat(t, [i]);
      assert [i][1..] == [];
      assert Indications([i]) == [i];
    }
  }

  /** The frames after the first carry the id of the delivery or none. */
  predicate SameDelivery(fs: seq<TransferFrame>, id: nat) {
    forall k :: 0 <= k < |fs| ==> fs[k].id == None || fs[k].id == Some(id)
  }

  lemma {:induction false} Continuation(l: LinkState, fs: seq<TransferFrame>, id: nat, reply: bool)
    requires WellCut(fs) && SameDelivery(fs, id) && l.receivedId == id
    requires l.payload != [] || (forall k :: 0 <= k < |fs| ==> fs[k].id.Some?)
    ensures var r := RunLink(l, Frames(fs, reply));
      && Indications(r.outputs) == [Indicated(id, l.payload + Payloads(fs))] && r.state.payload == []
      && r.state.deliveryCount == (l.deliveryCount + 1) % 0x1_0000_0000
    decreases |fs|
  {
    hide RunLink, OnTransfer, Indications;
    RunFrame(l, fs, reply);
    FrameEffect(l, fs[0], reply);
    var l' := OnTransfer(l, fs[0], reply).state;
    if |fs| == 1 {
      Finished(l');
      assert Frames(fs[1..], reply) == [];
      assert Payloads(fs[1..]) == [] && fs[0].payload + [] == fs[0].payload;
    } else {
      Continuation(l', fs[1..], id, reply);
      assert (l.payload + fs[0].payload) + Payloads(fs[1..]) == l.payload + (fs[0].payload + Payloads(fs[1..]));
    }
  }

  lemma Finished(l: LinkState)
    ensures RunLink(l, []) == Out(l, []) && Indications([]) == []
  {
  }

  /**
   Reassembly: the owner gets one indication, on the last frame, with all payloads in order and the id of the
   first frame, and nothing is left behind.
   */
  lemma Reassembled(l: LinkState, fs: seq<TransferFrame>, id: nat, reply: bool)
    requires l.payload == [] && Receivable(fs) && fs[0].id == Some(id) && SameDelivery(fs, id)
    ensures var r := RunLink(l, Frames(fs, reply));
      && Indications(r.outputs) == [Indicated(id, Payloads(fs))] && r.state.payload == []
      && r.state.deliveryCount == (l.deliveryCount + 1) % 0x1_0000_0000
  {
    hide RunLink, OnTransfer, Indications;
    assert [] + Payloads(fs) == Payloads(fs);
    if forall k :: 0 <= k < |fs| ==> fs[k].id.Some? {
      Continuation(l.(receivedId := id), fs, id, reply);
      IdAgain(l, fs, id, reply);
    } else {
      RunFrame(l, fs, reply);
      FrameEffect(l, fs[0], reply);
      Continuation(OnTransfer(l, fs[0], reply).state, fs[1..], id, reply);
      assert [] + fs[0].payload == fs[0].payload;
    }
  }

  /** The first frame's id replaces the one of the delivery before. */
  lemma IdAgain(l: LinkState, fs: seq<TransferFrame>, id: nat, reply: bool)
    requires fs != [] && fs[0].id == Some(id)
    ensures RunLink(l, Frames(fs, reply)) == RunLink(l.(receivedId := id), Frames(fs, reply))
  {
    SameTransfer(l, fs[0], id, reply);
    hide OnTransfer, OnInput;
    var first := Frames(fs, reply)[0];
    assert first == TransferReceived(fs[0], reply);
    TransferInput(l, first);
    TransferInput(l.(receivedId := id), first);
  }

  lemma TransferInput(l: LinkState, i: Input)
    requires i.TransferReceived?
    ensures OnInput(l, i) == OnTransfer(l, i.frame, i.reply)
  {
    hide OnTransfer;
  }

  lemma SameTransfer(l: LinkState, f: TransferFrame, id: nat, reply: bool)
    requires f.id == Some(id)
    ensures OnTransfer(l, f, reply) == OnTransfer(l.(receivedId := id), f, reply)
  {
  }

  lemma {:induction false} AllMisplaced(l: LinkState, fs: seq<TransferFrame>, reply: bool)
    requires l.payload == [] && forall k :: 0 <= k < |fs| ==> fs[k].id.None?
    ensures var r := RunLink(l, Frames(fs, reply));
      Indications(r.outputs) == [] && r.state.payload == [] && r.state.deliveryCount == l.deliveryCount
    decreases |fs|
  {
    hide RunLink, OnTransfer, Indications;
    if fs == [] {
      Finished(l);
    } else {
      RunFrame(l, fs, reply);
      FrameEffect(l, fs[0], reply);
      AllMisplaced(OnTransfer(l, fs[0], reply).state, fs[1..], reply);
    }
  }

  /**
   When only the first frame carries the id, a delivery arrives exactly when it has a single frame or a first
   frame that is not empty. Otherwise all of it is dropped and not counted.
   */
  lemma ReassembledExactlyWhen(l: LinkState, fs: seq<TransferFrame>, id: nat, reply: bool)
    requires l.payload == [] && WellCut(fs) && fs[0].id == Some(id) && forall k :: 1 <= k < |fs| ==> fs[k].id.None?
    ensures var r := RunLink(l, Frames(fs, reply));
      && (Indications(r.outputs) == [Indicated(id, Payloads(fs))] <==> |fs| == 1 || fs[0].payload != [])
      && (|fs| > 1 && fs[0].payload == [] ==> Indications(r.outputs) == [] && r.state.deliveryCount == l.deliveryCount)
  {
    hide RunLink, OnTransfer, Indications;
    if |fs| == 1 || fs[0].payload != [] {
      Reassembled(l, fs, id, reply);
    } else {
      RunFrame(l, fs, reply);
      FrameEffect(l, fs[0], reply);
      AllMisplaced(OnTransfer(l, fs[0], reply).state, fs[1..], reply);
    }
  }
}
