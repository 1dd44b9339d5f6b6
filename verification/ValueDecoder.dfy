/**
 The value decoder as the C code runs it: a chain of decoder objects whose loops take as many octets
 at a time as they can. The ghost field `model` of each object is its state in the octet-by-octet specification.
 */
module ValueDecoder {
  import opened Octets
  import opened Options
  import opened AmqpValues
  import opened DecoderSpec
  import opened Chunking
  import opened DecoderTurns

  datatype State = Constructor | TypeData | Finished
  datatype Step = SizeStep | CountStep | ItemsStep | DescriptorStep | ValueStep

  class InternalDecoder {
    const isInternal: bool
    const depth: nat
    var decoderState: State
    var constructorByte: Byte
    var bytesDecoded: nat
    var number: nat
    var length: nat
    var content: Bytes
    var step: Step
    var count: nat
    var items: seq<Value>
    var pairs: seq<Pair>
    var key: Option<Value>
    var itemConstructor: Byte
    var descriptor: Value
    var result: Value
    var inner: InternalDecoder?
    ghost var model: Decoder
    ghost var Repr: set<object>

    ghost predicate Valid()
      reads this, Repr
      decreases Repr
    {
      && this in Repr && depth <= MAX_DEPTH
      && (inner != null ==>
            && inner in Repr && inner.Repr <= Repr && this !in inner.Repr
            && inner.isInternal && inner.depth == depth + 1 && inner.Valid())
      && WellFormed(model, depth, !isInternal)
      && (model.Nest? && model.inner.Running? <==> inner != null)
      && (inner != null ==> model.inner.decoder == inner.model && (inner.model == Start ==> constructorByte == 0x00))
      && Represents(model)
    }

    /** The fields hold state `m`, as far as this decoder itself goes. */
    ghost predicate Represents(m: Decoder)
      reads this
    {
      match m
      case Start => decoderState == Constructor
      case Done(v) => decoderState == Finished && result == v
      case Fixed(c, n, acc) => decoderState == TypeData && constructorByte == c && bytesDecoded == n && number == acc
      case Length(c, n, len) => decoderState == TypeData && constructorByte == c && bytesDecoded == n && length == len
      case Content(c, len, got) =>
        decoderState == TypeData && constructorByte == c && (c == 0x98 || LengthWidth(c) > 0) &&
        length == len && content == got && bytesDecoded == LengthWidth(c) + |got|
      case Size(c, n) => decoderState == TypeData && constructorByte == c && bytesDecoded == n && step == SizeStep
      case Count(c, n, k) => decoderState == TypeData && constructorByte == c && bytesDecoded == n && count == k && step == CountStep
      case Nest(f, i) => decoderState == TypeData && HoldsFrame(f) && (!f.InDescriptor? && !f.InDescribed? ==> (i.NotYet? <==> bytesDecoded == 0))
    }

    ghost predicate HoldsFrame(f: Frame)
      reads this
    {
      match f
      case InList(k, vs) => (constructorByte == 0xC0 || constructorByte == 0xD0) && step == ItemsStep && count == k && items == vs
      case InMap(k, ps, x) => (constructorByte == 0xC1 || constructorByte == 0xD1) && step == ItemsStep && count == k && pairs == ps && key == x
      case InArray(k, vs, c) =>
        (constructorByte == 0xE0 || constructorByte == 0xF0) && step == ItemsStep && count == k && items == vs && itemConstructor == c
      case InDescriptor => constructorByte == 0x00 && step == DescriptorStep
      case InDescribed(d) => constructorByte == 0x00 && step == ValueStep && descriptor == d
    }

    constructor (isInternal: bool, depth: nat)
      requires depth <= MAX_DEPTH
      ensures Valid() && fresh(Repr) && model == Start
      ensures this.isInternal == isInternal && this.depth == depth
    {
      this.isInternal, this.depth := isInternal, depth;
      decoderState, inner := Constructor, null;
      constructorByte, bytesDecoded, number, length, content := 0, 0, 0, 0, [];
      step, count, items, pairs, key := SizeStep, 0, [], [], None;
      itemConstructor, descriptor, result := 0, Null, Null;
      model, Repr := Start, {this};
    }

    /** The callback: an inner decoder is finished, the outermost one goes on from state `next`. */
    method Finish(v: Value, ghost next: Decoder) returns (calls: seq<Value>)
      requires this in Repr && depth <= MAX_DEPTH
      requires !isInternal ==> WellFormed(next, depth, true) && !next.Nest? && Represents(next)
      modifies this
      ensures Valid() && Repr == old(Repr) && Complete(!isInternal, next, v, true) == Ok(model, true, calls)
    {
      hide Feed, Iterate, Slack, Absorb, OnNest, Settle;
      result := v;
      inner := null;
      if isInternal {
        decoderState, calls := Finished, [];
        model := Done(v);
      } else {
        calls := [v];
        model := next;
      }
    }

    method ConstructorOctet(b: Byte) returns (ok: bool, calls: seq<Value>)
      requires Valid() && model == Start
      modifies this
      ensures ok ==> Valid() && fresh(Repr - old(Repr))
      ensures OnConstructor(depth, !isInternal, b) == if ok then Ok(model, true, calls) else Fail(calls)
    {
      hide Feed, Iterate, Slack, Absorb, OnNest, Settle;
      ok, calls := true, [];
      if 0x40 <= b <= 0x45 {
        decoderState := Constructor;
        calls := Finish(ZeroWidthValue(b), Start);
        return;
      }
      constructorByte, bytesDecoded, decoderState := b, 0, TypeData;
      if b == 0x00 {
        ok := OpenDescribed();
      } else if FixedWidth(b) > 0 {
        number := 0;
        model := Fixed(b, 0, 0);
      } else if b == 0x98 {
        length, content := 16, [];
        model := Content(b, 16, []);
      } else if LengthWidth(b) > 0 {
        length := 0;
        model := Length(b, 0, 0);
      } else if CompoundWidth(b) > 0 {
        step := SizeStep;
        model := Size(b, 0);
      } else {
        ok := false;
      }
    }

    method OpenDescribed() returns (ok: bool)
      requires this in Repr && depth <= MAX_DEPTH && decoderState == TypeData && constructorByte == 0x00
      modifies this
      ensures ok ==> Valid() && fresh(Repr - old(Repr)) && model == Nest(InDescriptor, Running(Start))
      ensures ok <==> depth + 1 <= MAX_DEPTH
    {
      hide Feed, Iterate, Slack, Absorb, OnNest, Settle;
      ok := depth + 1 <= MAX_DEPTH;
      if ok {
        inner := new InternalDecoder(true, depth + 1);
        step := DescriptorStep;
        Repr := Repr + inner.Repr;
        model := Nest(InDescriptor, Running(Start));
      }
    }

    method FixedOctet(b: Byte) returns (ok: bool, calls: seq<Value>)
      requires Valid() && model.Fixed?
      modifies this
      ensures Repr == old(Repr) && (ok ==> Valid())
      ensures OnFixed(old(model), !isInternal, b) == if ok then Ok(model, true, calls) else Fail(calls)
    {
      hide Feed, Iterate, Slack, Absorb, OnNest, Settle;
      ok, calls := true, [];
      if constructorByte == 0x56 && b >= 2 {
        ok := false;
        return;
      }
      var w := FixedWidth(constructorByte);
      number := number + Shifted(b, w - 1 - bytesDecoded);
      bytesDecoded := bytesDecoded + 1;
      model := Fixed(constructorByte, bytesDecoded, number);
      if bytesDecoded == w {
        decoderState := Constructor;
        calls := Finish(FixedValue(constructorByte, number), Start);
      }
    }

    method LengthOctet(b: Byte) returns (ok: bool, calls: seq<Value>)
      requires Valid() && model.Length?
      modifies this
      ensures Repr == old(Repr) && (ok ==> Valid())
      ensures OnLength(old(model), !isInternal, b) == if ok then Ok(model, true, calls) else Fail(calls)
    {
      hide Feed, Iterate, Slack, Absorb, OnNest, Settle;
      ok, calls := true, [];
      var w := LengthWidth(constructorByte);
      length := length + Shifted(b, w - 1 - bytesDecoded);
      bytesDecoded := bytesDecoded + 1;
      if bytesDecoded < w {
        model := Length(constructorByte, bytesDecoded, length);
      } else if w == 4 && length + 1 > MAX_MALLOC {
        ok := false;
      } else {
        content := [];
        model := Content(constructorByte, length, []);
        if length == 0 {
          calls := Finish(ContentValue(constructorByte, []), model);
        }
      }
    }

    method SizeOctet()
      requires Valid() && model.Size?
      modifies this
      ensures Repr == old(Repr) && Valid() && OnSize(old(model)) == Ok(model, true, [])
    {
      hide Feed, Iterate, Slack, Absorb, OnNest, Settle;
      bytesDecoded := bytesDecoded + 1;
      if bytesDecoded == CompoundWidth(constructorByte) {
        step, bytesDecoded, count := CountStep, 0, 0;
        model := Count(constructorByte, 0, 0);
      } else {
        model := Size(constructorByte, bytesDecoded);
      }
    }

    method CountOctet(b: Byte) returns (ok: bool, calls: seq<Value>)
      requires Valid() && model.Count?
      modifies this
      ensures Repr == old(Repr) && (ok ==> Valid())
      ensures OnCount(old(model), !isInternal, b) == if ok then Ok(model, true, calls) else Fail(calls)
    {
      hide Feed, Iterate, Slack, Absorb, OnNest, Settle;
      ok, calls := true, [];
      var w := CompoundWidth(constructorByte);
      count := count + Shifted(b, w - 1 - bytesDecoded);
      bytesDecoded := bytesDecoded + 1;
      if !IsMapForm(constructorByte) && count > MAX_ITEM_COUNT {
        ok := false;
      } else if bytesDecoded < w {
        model := Count(constructorByte, bytesDecoded, count);
      } else if count == 0 {
        decoderState := Constructor;
        calls := Finish(EmptyCompound(constructorByte), Start);
      } else {
        ok := OpenItems(w);
      }
    }

    /** The count is known and not 0: what the items, or pairs, are gathered in. */
    method OpenItems(w: nat) returns (ok: bool)
      requires this in Repr && depth <= MAX_DEPTH && inner == null && decoderState == TypeData
      requires 0 < w == CompoundWidth(constructorByte) && count > 0
      requires (w == 1 ==> count < 256) && (!IsMapForm(constructorByte) ==> count <= MAX_ITEM_COUNT)
      modifies this
      ensures Repr == old(Repr) && (ok ==> Valid())
      ensures ok <==> !(IsMapForm(constructorByte) && w == 4 && old(count) / 2 > MAX_ITEM_COUNT)
      ensures ok ==> model == Nest(
        if IsMapForm(constructorByte) then InMap(old(count) / 2, [], None)
        else if constructorByte == 0xC0 || constructorByte == 0xD0 then InList(old(count), [])
        else InArray(old(count), [], 0), NotYet)
      ensures constructorByte == old(constructorByte)
    {
      hide Feed, Iterate, Slack, Absorb, OnNest, Settle, OnCount, OnConstructor, FixedWidth, LengthWidth, WellFormed;
      if IsMapForm(constructorByte) {
        count := count / 2;
        if w == 4 && count > MAX_ITEM_COUNT {
          return false;
        }
      }
      ok := true;
      step, bytesDecoded, items, pairs, key, itemConstructor := ItemsStep, 0, [], [], None, 0;
      model := Nest(
        if IsMapForm(constructorByte) then InMap(count, [], None)
        else if constructorByte == 0xC0 || constructorByte == 0xD0 then InList(count, [])
        else InArray(count, [], 0), NotYet);
      OpenIsWellFormed(model.frame, depth, !isInternal);
    }

    method ContentOctets(bs: Bytes) returns (used: nat, calls: seq<Value>)
      requires Valid() && model.Content? && bs != []
      modifies this
      ensures Repr == old(Repr) && Valid()
      ensures Advances(old(model), model, depth, !isInternal, bs, true, used, calls)
    {
      hide Feed, Iterate, Slack, Absorb, OnNest, Settle;
      var left := length - (bytesDecoded - LengthWidth(constructorByte));
      used := if left > |bs| then |bs| else left;
      calls := [];
      ghost var m0 := model;
      content := content + bs[..used];
      bytesDecoded := bytesDecoded + used;
      if |content| == length {
        decoderState := Constructor;
        calls := Finish(ContentValue(constructorByte, content), Start);
        if used == 0 {
          assert m0.got + bs[..0] == m0.got;
          ContentTurn(m0, depth, !isInternal, bs[0]);
          OneTurnAdvances(m0, OnContent(m0, !isInternal, bs[0]), depth, !isInternal, bs);
        } else {
          FeedCopyEnd(m0.ctor, m0.got, depth, !isInternal, bs, used);
        }
      } else {
        model := Content(constructorByte, length, content);
        FeedCopy(m0.ctor, m0.len, m0.got, depth, !isInternal, bs, used);
        AfterNothing(Feed(model, depth, !isInternal, bs[used..]));
      }
    }

    method ListItemDone(v: Value, ghost f: Frame) returns (calls: seq<Value>)
      requires this in Repr && depth + 1 <= MAX_DEPTH && decoderState == TypeData
      requires HoldsFrame(f) && FrameInvariant(f) && f.InList?
      modifies this
      ensures Valid() && Repr == old(Repr) && Absorb(f, v, depth, !isInternal, true) == Ok(model, true, calls)
    {
      hide Feed;
      inner, calls := null, [];
      items, bytesDecoded := items + [v], 0;
      if |items| == count {
        decoderState := Constructor;
        calls := Finish(List(items), Start);
      } else {
        model := Nest(InList(count, items), NotYet);
      }
    }

    method MapItemDone(v: Value, ghost f: Frame) returns (calls: seq<Value>)
      requires this in Repr && depth + 1 <= MAX_DEPTH && decoderState == TypeData
      requires HoldsFrame(f) && FrameInvariant(f) && f.InMap? && |f.pairs| < f.pairCount
      modifies this
      ensures Valid() && Repr == old(Repr) && Absorb(f, v, depth, !isInternal, true) == Ok(model, true, calls)
    {
      hide Feed;
      inner, calls, bytesDecoded := null, [], 0;
      if key.None? {
        key := Some(v);
        model := Nest(InMap(count, pairs, key), NotYet);
      } else {
        pairs, key := pairs + [Pair(key.value, v)], None;
        if |pairs| == count {
          decoderState := Constructor;
          calls := Finish(Map(pairs), Start);
        } else {
          model := Nest(InMap(count, pairs, None), NotYet);
        }
      }
    }

    /** A decoder for the next array item, fed the constructor the items share. */
    method NextElement() returns (next: InternalDecoder, ok: bool)
      requires depth + 1 <= MAX_DEPTH
      ensures fresh(next) && next.isInternal && next.depth == depth + 1
      ensures ok ==> next.Valid() && fresh(next.Repr)
      ensures ok ==> next.model != Start
      ensures OnConstructor(depth + 1, false, itemConstructor) == if ok then Ok(next.model, true, []) else Fail([])
      decreases MAX_DEPTH - depth, 0
    {
      hide OnConstructor, Iterate, WellFormed;
      next := new InternalDecoder(true, depth + 1);
      var used, calls;
      ok, used, calls := next.DecodeBytes([itemConstructor]);
      FeedOneConstructor(itemConstructor, depth + 1);
      ConstructorKeepsInvariant(depth + 1, false, itemConstructor);
    }

    method ArrayItemDone(v: Value, ghost f: Frame) returns (ok: bool, giveBack: bool, calls: seq<Value>)
      requires this in Repr && depth + 1 <= MAX_DEPTH && decoderState == TypeData
      requires HoldsFrame(f) && FrameInvariant(f) && f.InArray? && bytesDecoded > 0
      modifies this
      ensures ok ==> Valid() && fresh(Repr - old(Repr))
      ensures Absorb(f, v, depth, !isInternal, true) == if ok then Ok(model, !giveBack, calls) else Fail(calls)
      decreases MAX_DEPTH - depth, 2
    {
      hide Feed, Iterate, OnConstructor, Slack;
      inner, ok, giveBack, calls := null, true, false, [];
      items := items + [v];
      if |items| == count {
        decoderState := Constructor;
        calls := Finish(Array(items), Start);
      } else {
        giveBack := 0x40 <= itemConstructor <= 0x45;
        ok := OpenNextElement(InArray(count, items, itemConstructor));
      }
    }

    method OpenNextElement(ghost f: Frame) returns (ok: bool)
      requires this in Repr && depth + 1 <= MAX_DEPTH && decoderState == TypeData
      requires HoldsFrame(f) && FrameInvariant(f) && f.InArray? && bytesDecoded > 0
      modifies this
      ensures ok ==> Valid() && fresh(Repr - old(Repr))
      ensures var t := OnConstructor(depth + 1, false, f.itemConstructor);
        ok == t.Ok? && (ok ==> model == Nest(f, Running(t.state)))
      decreases MAX_DEPTH - depth, 1
    {
      hide Feed, Iterate, OnConstructor, Slack, Absorb, OnNest, Settle, FixedWidth, LengthWidth, CompoundWidth, ContentValue, WellFormed;
      var next;
      next, ok := NextElement();
      if ok {
        inner, Repr := next, Repr + next.Repr;
        ConstructorKeepsInvariant(depth + 1, false, itemConstructor);
        model := Nest(f, Running(next.model));
        NextIsWellFormed(f, next.model, depth, !isInternal);
      }
    }

    method DescribedPartDone(v: Value, ghost f: Frame) returns (calls: seq<Value>)
      requires this in Repr && depth + 1 <= MAX_DEPTH && decoderState == TypeData
      requires HoldsFrame(f) && FrameInvariant(f) && (f.InDescriptor? || f.InDescribed?)
      modifies this
      ensures Valid() && fresh(Repr - old(Repr)) && Absorb(f, v, depth, !isInternal, true) == Ok(model, true, calls)
    {
      hide Feed;
      inner, calls := null, [];
      if step == DescriptorStep {
        descriptor, step := v, ValueStep;
        inner := new InternalDecoder(true, depth + 1);
        Repr := Repr + inner.Repr;
        model := Nest(InDescribed(v), Running(Start));
      } else {
        decoderState := Constructor;
        calls := Finish(Described(descriptor, v), Start);
      }
    }

    /** The inner decoder exists and is in state `i`; this decoder holds frame `f`. */
    ghost predicate Ready(f: Frame, i: Decoder)
      reads this, Repr
    {
      && this in Repr && depth + 1 <= MAX_DEPTH && decoderState == TypeData
      && HoldsFrame(f) && FrameInvariant(f) && (f.InMap? ==> |f.pairs| < f.pairCount)
      && inner != null && inner in Repr && inner.Repr <= Repr && this !in inner.Repr
      && inner.isInternal && inner.depth == depth + 1 && inner.Valid() && inner.model == i
      && (i.Done? ==> f.InArray? && ZeroWidth(f.itemConstructor))
      && (f.InArray? && ZeroWidth(f.itemConstructor) ==> i.Done? || i == Start)
      && (i == Start || f.InDescriptor? || f.InDescribed? || bytesDecoded > 0)
      && (f.InArray? && i == Start ==> bytesDecoded == 0)
    }

    method CreateInner(b: Byte) returns (ok: bool)
      requires Valid() && model.Nest? && inner == null
      modifies this
      ensures ok <==> !NoInner(old(model).frame, depth)
      ensures ok ==> Ready(Opened(old(model).frame, b), Start) && fresh(Repr - old(Repr))
    {
      hide Feed, Iterate;
      if depth + 1 > MAX_DEPTH || ((constructorByte == 0xC1 || constructorByte == 0xD1) && |pairs| >= count) {
        return false;
      }
      ok := true;
      if constructorByte == 0xE0 || constructorByte == 0xF0 {
        itemConstructor := b;
      }
      inner := new InternalDecoder(true, depth + 1);
      Repr := Repr + inner.Repr;
    }

    /** The value of the inner decoder goes where this decoder gathers its own. */
    method InnerDone(v: Value, ghost f: Frame) returns (ok: bool, giveBack: bool, calls: seq<Value>)
      requires this in Repr && depth + 1 <= MAX_DEPTH && decoderState == TypeData
      requires HoldsFrame(f) && FrameInvariant(f) && (f.InMap? ==> |f.pairs| < f.pairCount)
      requires f.InArray? ==> bytesDecoded > 0
      modifies this
      ensures ok ==> Valid() && fresh(Repr - old(Repr))
      ensures Absorb(f, v, depth, !isInternal, true) == if ok then Ok(model, !giveBack, calls) else Fail(calls)
      ensures giveBack ==> f.InArray?
      decreases MAX_DEPTH - depth, 3
    {
      hide Feed, Iterate, Absorb, WellFormed;
      ok, giveBack := true, false;
      if constructorByte == 0xC0 || constructorByte == 0xD0 {
        calls := ListItemDone(v, f);
      } else if constructorByte == 0xC1 || constructorByte == 0xD1 {
        calls := MapItemDone(v, f);
      } else if constructorByte == 0xE0 || constructorByte == 0xF0 {
        ok, giveBack, calls := ArrayItemDone(v, f);
      } else {
        calls := DescribedPartDone(v, f);
      }
    }

    method RunInner(bs: Bytes, ghost f: Frame, ghost i: Decoder) returns (ok: bool, used: nat, calls: seq<Value>)
      requires Ready(f, i) && bs != [] && (f.InArray? && i == Start ==> f.itemConstructor == bs[0])
      modifies Repr
      ensures ok ==> Valid() && fresh(Repr - old(Repr)) && used <= |bs|
      ensures ok && used == 0 ==> Slack(model) < FrameSlack(f) && (i == Start ==> f.InArray?)
      ensures OuterRun(f, Feed(i, depth + 1, false, bs), depth, !isInternal, bs) ==
        if ok then After(calls, Feed(model, depth, !isInternal, bs[used..])) else Broke(calls)
      decreases MAX_DEPTH - depth, 4
    {
      hide Feed, Iterate, Absorb, WellFormed, Slack;
      ok, used, calls := inner.DecodeBytes(bs);
      if ok {
        StartConsumes(i, depth + 1, bs);
        bytesDecoded := bytesDecoded + used;
        assert used == 0 ==> bs[used..] == bs;
        ghost var r := Feed(i, depth + 1, false, bs);
        assert r == Ran(inner.model, bs[used..], []);
        if inner.decoderState == Finished {
          AbsorbKeepsInvariant(f, inner.result, depth, !isInternal, true);
          var giveBack;
          ok, giveBack, calls := InnerDone(inner.result, f);
          used := if giveBack then 0 else used;
        } else {
          StillRunning(f, i, depth, !isInternal, bs);
          Wait(f);
        }
      }
    }

    /** The octets are used up and the inner decoder waits for more. */
    ghost method Wait(f: Frame)
      requires this in Repr && depth + 1 <= MAX_DEPTH && decoderState == TypeData
      requires HoldsFrame(f) && (f.InDescriptor? || f.InDescribed? || bytesDecoded > 0)
      requires inner != null && this !in inner.Repr && inner.Valid()
      requires inner.isInternal && inner.depth == depth + 1 && inner.model != Start
      requires WellFormed(Nest(f, Running(inner.model)), depth, !isInternal)
      modifies this
      ensures Valid() && Repr == old(Repr) + inner.Repr && model == Nest(f, Running(inner.model)) && inner == old(inner)
      ensures inner.Repr == old(inner.Repr) && inner.model == old(inner.model)
    {
      hide Feed, Iterate, Absorb, WellFormed, Slack;
      Repr := Repr + inner.Repr;
      model := Nest(f, Running(inner.model));
    }

    /** A turn with an inner decoder, which may take any number of octets. */
    method NestOctets(bs: Bytes) returns (ok: bool, used: nat, calls: seq<Value>)
      requires Valid() && model.Nest? && bs != []
      modifies Repr
      ensures ok ==> Valid() && fresh(Repr - old(Repr))
      ensures Advances(old(model), model, depth, !isInternal, bs, ok, used, calls)
      decreases MAX_DEPTH - depth, 5
    {
      hide Feed, Iterate, Absorb;
      ghost var m0 := model;
      ghost var f, i := OpenedFrame(model.frame, model.inner, bs[0]), InnerDecoder(model.inner);
      if inner == null {
        var created := CreateInner(bs[0]);
        if !created {
          NoInnerFails(m0.frame, depth, !isInternal, bs);
          return false, 0, [];
        }
      }
      NestedRun(m0.frame, m0.inner, depth, !isInternal, bs);
      ok, used, calls := RunInner(bs, f, i);
    }

    /** The branch the loop takes is the one for the state the fields hold. */
    lemma FieldsTellState()
      requires Valid() && !model.Done?
      ensures decoderState == Constructor <==> model == Start
      ensures decoderState != Finished
      ensures model.Fixed? <==> decoderState == TypeData && FixedWidth(constructorByte) > 0
      ensures model.Length? <==> decoderState == TypeData && LengthWidth(constructorByte) > bytesDecoded
      ensures model.Content? <==> (decoderState == TypeData &&
        (constructorByte == 0x98 || 0 < LengthWidth(constructorByte) <= bytesDecoded))
      ensures model.Size? <==> decoderState == TypeData && CompoundWidth(constructorByte) > 0 && step == SizeStep
      ensures model.Count? <==> decoderState == TypeData && CompoundWidth(constructorByte) > 0 && step == CountStep
      ensures model.Nest? <==> (decoderState == TypeData &&
        (constructorByte == 0x00 || (CompoundWidth(constructorByte) > 0 && step != SizeStep && step != CountStep)))
      ensures decoderState == TypeData && constructorByte != 0x00 && constructorByte != 0x98 ==>
        FixedWidth(constructorByte) > 0 || LengthWidth(constructorByte) > 0 || CompoundWidth(constructorByte) > 0
    {
      hide Feed, Iterate, Slack, Absorb, OnNest, Settle, FrameInvariant;
      match model
      case Start =>
      case Fixed(_, _, _) =>
      case Length(_, _, _) =>
      case Content(_, _, _) =>
      case Size(_, _) =>
      case Count(_, _, _) =>
      case Nest(f, i) =>
    }

    /** One turn of the loop: the state and the constructor octet say what the next octets are. */
    method Turn(bs: Bytes) returns (ok: bool, used: nat, calls: seq<Value>)
      requires Valid() && !model.Done? && bs != []
      modifies Repr
      ensures ok ==> Valid() && fresh(Repr - old(Repr))
      ensures Advances(old(model), model, depth, !isInternal, bs, ok, used, calls)
      decreases MAX_DEPTH - depth, 6
    {
      hide Feed, Iterate, WellFormed, Represents, FixedWidth, LengthWidth, CompoundWidth, Slack;
      ghost var m0 := model;
      FieldsTellState();
      ok, used, calls := true, 1, [];
      if decoderState == Constructor {
        ok, calls := ConstructorOctet(bs[0]);
      } else if constructorByte == 0x00 {
        ok, used, calls := NestOctets(bs);
        return;
      } else if FixedWidth(constructorByte) > 0 {
        ok, calls := FixedOctet(bs[0]);
      } else if LengthWidth(constructorByte) > 0 && bytesDecoded < LengthWidth(constructorByte) {
        ok, calls := LengthOctet(bs[0]);
      } else if LengthWidth(constructorByte) > 0 || constructorByte == 0x98 {
        used, calls := ContentOctets(bs);
        return;
      } else if step == SizeStep {
        SizeOctet();
      } else if step == CountStep {
        ok, calls := CountOctet(bs[0]);
      } else {
        ok, used, calls := NestOctets(bs);
        return;
      }
      FlatTurnAdvances(m0, depth, !isInternal, bs);
    }

    /** `internal_decoder_decode_bytes`: octet by octet or many at once, it does what `Feed` does. */
    method DecodeBytes(buffer: Bytes) returns (ok: bool, used: nat, calls: seq<Value>)
      requires Valid()
      modifies Repr
      ensures ok ==> Valid() && fresh(Repr - old(Repr)) && used <= |buffer|
      ensures Feed(old(model), depth, !isInternal, buffer) == if ok then Ran(model, buffer[used..], calls) else Broke(calls)
      decreases MAX_DEPTH - depth, 7
    {
      hide Feed, Iterate, Slack;
      ok, used, calls := true, 0, [];
      ghost var m0 := model;
      AfterNothing(Feed(model, depth, !isInternal, buffer));
      assert buffer[0..] == buffer;
      while used < |buffer| && decoderState != Finished
        invariant used <= |buffer| && Valid() && fresh(Repr - old(Repr))
        invariant Feed(m0, depth, !isInternal, buffer) == After(calls, Feed(model, depth, !isInternal, buffer[used..]))
        decreases |buffer| - used, Slack(model)
      {
        ghost var m, rest := model, buffer[used..];
        var turnOk, turnUsed, turnCalls := Turn(buffer[used..]);
        if !turnOk {
          return false, used, calls + turnCalls;
        }
        assert rest[turnUsed..] == buffer[used + turnUsed..];
        AfterAfter(calls, turnCalls, Feed(model, depth, !isInternal, rest[turnUsed..]));
        used, calls := used + turnUsed, calls + turnCalls;
      }
      FeedStops(model, depth, !isInternal, buffer[used..]);
    }
  }

  /** The decoder that callers see: outermost, at depth 0, with no octets refused. */
  class AmqpValueDecoder {
    const internalDecoder: InternalDecoder
    ghost var Repr: set<object>

    ghost predicate Valid()
      reads this, Repr
    {
      && this in Repr && internalDecoder in Repr && internalDecoder.Repr <= Repr && this !in internalDecoder.Repr
      && internalDecoder.Valid() && !internalDecoder.isInternal && internalDecoder.depth == 0
    }

    ghost function State(): (d: Decoder)
      reads this, Repr
      requires Valid()
      ensures WellFormed(d, 0, true)
    {
      internalDecoder.model
    }

    constructor ()
      ensures Valid() && fresh(Repr) && State() == Start
    {
      internalDecoder := new InternalDecoder(false, 0);
      new;
      Repr := {this} + internalDecoder.Repr;
    }

    /** `amqpvalue_decode_bytes`. After a failure the decoder is not used again. */
    method DecodeBytes(buffer: Bytes) returns (ok: bool, calls: seq<Value>)
      requires Valid()
      modifies Repr
      ensures buffer == [] ==> !ok && calls == [] && Valid() && State() == old(State()) && Repr == old(Repr)
      ensures if ok then Valid() && fresh(Repr - old(Repr)) else Repr == old(Repr)
      ensures buffer != [] ==>
        Feed(old(State()), 0, true, buffer) == if ok then Ran(State(), [], calls) else Broke(calls)
    {
      hide Feed, WellFormed;
      if buffer == [] {
        return false, [];
      }
      var used;
      ok, used, calls := internalDecoder.DecodeBytes(buffer);
      if ok {
        Repr := Repr + internalDecoder.Repr;
        OutermostNotDone(State(), 0);
      }
    }
  }
}
