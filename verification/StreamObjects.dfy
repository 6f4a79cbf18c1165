/** The messages of chain/eventstream/types/query.pb.go as the program keeps them: objects that Unmarshal
    updates in place, and that are written into a buffer from the back. */
module StreamObjects {
  import opened Words
  import opened Outcomes
  import opened Buffers
  import opened Varint
  import opened Messages
  import opened Fields
  import opened Parts
  import opened Lists
  import opened Embedded
  import opened EventStream

  // ---- AnyEvent ----

  class AnyEvent<T(!new)> {
    var Module: seq<byte>
    var Data: Option<T>

    constructor ()
      ensures Value() == AnyEventV([], None)
    {
      Module, Data := [], None;
    }

    ghost function Value(): AnyEventV<T>
      reads this
    {
      AnyEventV(Module, Data)
    }

    method Size(any: SubCodec<T>) returns (n: nat)
      ensures n == |AnyEventMessage(any).Encode(Value())|
    {
      AnyEventEncoding(any, Value());
      var mod := SizeOptBytes(2, Module);
      var data := SizeOptSub(3, any, Data);
      n := mod + data;
    }

    method MarshalToSizedBuffer(any: SubCodec<T>, dAtA: array<byte>, end: nat) returns (n: nat)
      requires |AnyEventMessage(any).Encode(Value())| <= end <= dAtA.Length <= MAX_INT
      modifies dAtA
      ensures n == |AnyEventMessage(any).Encode(old(Value()))|
      ensures Wrote(dAtA[..], old(dAtA[..]), end - n, AnyEventMessage(any).Encode(old(Value())))
    {
      ghost var before, done := dAtA[..], EncodeAll(OptSub(3, any, Data));
      AnyEventEncoding(any, Value());
      EndsWithNothing(done);
      var i := PutOptSub(dAtA, end, 3, any, Data, before, []);
      i := PutOptBytes(dAtA, i, 2, Module, before, done);
      n := end - i;
    }

    /** Merges the input into the event; an embedded Any is merged into the one that is there. */
    method Unmarshal(any: SubCodec<T>, dAtA: seq<byte>) returns (err: Option<GoError>)
      requires |dAtA| <= MAX_INT
      modifies this
      ensures err.None? ==> AnyEventMessage(any).Decode(dAtA, old(Value())) == Ok(Value())
      ensures err.Some? ==> AnyEventMessage(any).Decode(dAtA, old(Value())) == Err(Class(err.value))
      ensures Value() == AnyEventMessage(any).Left(dAtA, old(Value()))
    {
      ghost var x, goal := Begin(AnyEventMessage(any), dAtA, Value());
      var l := |dAtA|;
      var iNdEx := 0;
      while iNdEx < l
        invariant Pending(x, dAtA, goal, iNdEx, Value())
      {
        ghost var m := Value();
        var preIndex := iNdEx;
        var fieldNum, wireType;
        err, fieldNum, wireType, iNdEx := ReadTag(x, dAtA, goal, iNdEx, m);
        if err.Some? {
          return;
        }
        if fieldNum == 2 || fieldNum == 3 {
          var start, postIndex;
          err, start, postIndex := ReadBytes(x, dAtA, goal, preIndex, m, fieldNum, wireType, iNdEx);
          if err.Some? {
            return;
          }
          if fieldNum == 2 {
            Module := dAtA[start..postIndex];
          } else {
            var r := any.dec(dAtA[start..postIndex], OrEmpty(any, Data));
            if r.Err? {
              Data := Some(any.left(dAtA[start..postIndex], OrEmpty(any, Data)));
              return Some(ErrSubMessage(r.fault));
            }
            Data := Some(r.value);
          }
          iNdEx := postIndex;
        } else {
          err, iNdEx := SkipUnknown(x, dAtA, goal, preIndex, m);
          if err.Some? {
            return;
          }
        }
      }
      End(x, dAtA, goal, Value());
      return None;
    }
  }

  // ---- ModuleEvents ----

  ghost function AnyEventValues<T(!new)>(es: seq<AnyEvent<T>>): seq<AnyEventV<T>>
    reads es
  {
    seq(|es|, i reads es requires 0 <= i < |es| => es[i].Value())
  }

  /** The encodings of the elements, one by one. */
  ghost function AnyEventContents<T(!new)>(any: SubCodec<T>, es: seq<AnyEvent<T>>): seq<seq<byte>>
    reads es
  {
    EncodeEach(AnyEventCodec(any), AnyEventValues(es))
  }

  ghost predicate IsEncoding<T(!new)>(any: SubCodec<T>, e: AnyEvent<T>, d: seq<byte>)
    reads e
  {
    d == AnyEventMessage(any).Encode(e.Value())
  }

  lemma AnyEventContentsAt<T(!new)>(any: SubCodec<T>, es: seq<AnyEvent<T>>)
    ensures |AnyEventContents(any, es)| == |es|
    ensures forall k :: 0 <= k < |es| ==> IsEncoding(any, es[k], AnyEventContents(any, es)[k])
    ensures ModuleEventsMessage(any).Encode(AnyEventValues(es)) == EncodeAll(RepBytes(1, AnyEventContents(any, es)))
  {
    forall k | 0 <= k < |es|
      ensures IsEncoding(any, es[k], AnyEventContents(any, es)[k])
    {
      EncodeEachAt(AnyEventCodec(any), AnyEventValues(es), k);
    }
  }

  lemma AnyEventElement<T(!new)>(any: SubCodec<T>, d: seq<byte>, es: seq<AnyEventV<T>>)
    ensures ApplyList(AnyEventCodec(any), es, BytesField(1, d)) ==
            match AnyEventMessage(any).Decode(d, AnyEventV([], None))
            case Ok(e) => Ok(es + [e])
            case Err(f) => Err(f)
    ensures ModuleEventsMessage(any).burst(es, BytesField(1, d)) ==
            es + [AnyEventMessage(any).Left(d, AnyEventV([], None))]
  {}

  class ModuleEvents<T(!new)> {
    var AnyEvents: seq<AnyEvent<T>>

    constructor ()
      ensures Value() == [] && AnyEvents == []
    {
      AnyEvents := [];
    }

    ghost function Value(): seq<AnyEventV<T>>
      reads this, AnyEvents
    {
      AnyEventValues(AnyEvents)
    }

    method Size(any: SubCodec<T>) returns (n: nat)
      ensures n == |ModuleEventsMessage(any).Encode(Value())|
    {
      ghost var ds := AnyEventContents(any, AnyEvents);
      AnyEventContentsAt(any, AnyEvents);
      n := 0;
      for k := 0 to |AnyEvents|
        invariant n == |EncodeAll(RepBytes(1, ds[..k]))|
      {
        var l := AnyEvents[k].Size(any);
        assert IsEncoding(any, AnyEvents[k], ds[k]);
        n := n + 1 + l + Sov(l);
        RepBytesSizeStep(1, ds, k);
      }
      assert ds[..|AnyEvents|] == ds;
    }

    method MarshalToSizedBuffer(any: SubCodec<T>, dAtA: array<byte>, end: nat) returns (n: nat)
      requires |ModuleEventsMessage(any).Encode(Value())| <= end <= dAtA.Length <= MAX_INT
      modifies dAtA
      ensures n == |ModuleEventsMessage(any).Encode(old(Value()))|
      ensures Wrote(dAtA[..], old(dAtA[..]), end - n, ModuleEventsMessage(any).Encode(old(Value())))
    {
      ghost var ds, full := AnyEventContents(any, AnyEvents), ModuleEventsMessage(any).Encode(Value());
      AnyEventContentsAt(any, AnyEvents);
      var i := MarshalAnyEvents(any, dAtA, end, ds, full);
      n := end - i;
    }

    /** The loop over the elements, from the last to the first. */
    method MarshalAnyEvents(any: SubCodec<T>, dAtA: array<byte>, end: nat, ghost ds: seq<seq<byte>>,
                            ghost full: seq<byte>) returns (i: nat)
      requires |ds| == |AnyEvents| && full == EncodeAll(RepBytes(1, ds))
      requires forall k :: 0 <= k < |ds| ==> IsEncoding(any, AnyEvents[k], ds[k])
      requires |full| <= end <= dAtA.Length <= MAX_INT
      modifies dAtA
      ensures i == end - |full|
      ensures Wrote(dAtA[..], old(dAtA[..]), i, full)
    {
      ghost var before := dAtA[..];
      ghost var done: seq<byte> := [];
      var iNdEx := |AnyEvents|;
      i := end;
      while iNdEx > 0
        invariant 0 <= iNdEx <= |ds|
        invariant done == EncodeAll(RepBytes(1, ds[iNdEx..]))
        invariant i == end - |done|
        invariant Wrote(dAtA[..], before, i, done)
      {
        iNdEx := iNdEx - 1;
        RepBytesSplit(1, ds, iNdEx);
        RepBytesSuffix(1, ds, iNdEx);
        i := MarshalElement(any, dAtA, i, AnyEvents[iNdEx], ds[iNdEx], before, done);
        done := BytesField(1, ds[iNdEx]).Encode() + done;
      }
      assert ds[0..] == ds;
    }

    method MarshalElement(any: SubCodec<T>, dAtA: array<byte>, end: nat, m: AnyEvent<T>,
                          ghost content: seq<byte>, ghost before: seq<byte>, ghost done: seq<byte>)
      returns (at: nat)
      requires IsEncoding(any, m, content)
      requires |BytesField(1, content).Encode()| <= end <= dAtA.Length <= MAX_INT
      requires Wrote(dAtA[..], before, end, done)
      modifies dAtA
      ensures at == end - |BytesField(1, content).Encode()|
      ensures Wrote(dAtA[..], before, at, BytesField(1, content).Encode() + done)
    {
      ghost var buf := dAtA[..];
      ContentFits(1, content);
      var size := m.MarshalToSizedBuffer(any, dAtA, end);
      assert Wrote(dAtA[..], buf, end - size, content);
      at := PutMessage(dAtA, end, 1, size, buf, before, content, done);
    }

    method Unmarshal(any: SubCodec<T>, dAtA: seq<byte>) returns (err: Option<GoError>)
      requires |dAtA| <= MAX_INT
      modifies this
      ensures err.None? ==> ModuleEventsMessage(any).Decode(dAtA, old(Value())) == Ok(Value())
      ensures err.Some? ==> ModuleEventsMessage(any).Decode(dAtA, old(Value())) == Err(Class(err.value))
      ensures Value() == ModuleEventsMessage(any).Left(dAtA, old(Value()))
      ensures forall e | e in AnyEvents :: e in old(AnyEvents) || fresh(e)
      ensures old(AnyEvents) <= AnyEvents
    {
      ghost var x, goal := Begin(ModuleEventsMessage(any), dAtA, Value());
      var l := |dAtA|;
      var iNdEx := 0;
      while iNdEx < l
        invariant Pending(x, dAtA, goal, iNdEx, Value())
        invariant forall e | e in AnyEvents :: e in old(AnyEvents) || fresh(e)
        invariant old(AnyEvents) <= AnyEvents
      {
        ghost var m := Value();
        var preIndex := iNdEx;
        var fieldNum, wireType;
        err, fieldNum, wireType, iNdEx := ReadTag(x, dAtA, goal, iNdEx, m);
        if err.Some? {
          return;
        }
        if fieldNum == 1 {
          var start, postIndex;
          err, start, postIndex := ReadBytes(x, dAtA, goal, preIndex, m, 1, wireType, iNdEx);
          if err.Some? {
            return;
          }
          AnyEventElement(any, dAtA[start..postIndex], m);
          err := UnmarshalElement(any, dAtA[start..postIndex]);
          if err.Some? {
            return;
          }
          iNdEx := postIndex;
        } else {
          err, iNdEx := SkipUnknown(x, dAtA, goal, preIndex, m);
          if err.Some? {
            return;
          }
        }
      }
      End(x, dAtA, goal, Value());
      return None;
    }

    /** `m.AnyEvents = append(m.AnyEvents, &AnyEvent{})`, and decoding into it. */
    method UnmarshalElement(any: SubCodec<T>, d: seq<byte>) returns (err: Option<GoError>)
      requires |d| <= MAX_INT
      modifies this
      ensures err.Some? ==> AnyEventMessage(any).Decode(d, AnyEventV([], None)) == Err(Class(err.value))
      ensures err.None? ==>
                var r := AnyEventMessage(any).Decode(d, AnyEventV([], None));
                r.Ok? && Value() == old(Value()) + [r.value]
      ensures Value() == old(Value()) + [AnyEventMessage(any).Left(d, AnyEventV([], None))]
      ensures forall e | e in AnyEvents :: e in old(AnyEvents) || fresh(e)
      ensures old(AnyEvents) <= AnyEvents
    {
      ghost var m := Value();
      var e := new AnyEvent<T>();
      AnyEvents := AnyEvents + [e];
      err := e.Unmarshal(any, d);
      assert AnyEventValues(AnyEvents) == m + [e.Value()];
    }
  }

  /** The value of an object is what its fields hold, element by element. */
  lemma StreamValues<T(!new)>(e: AnyEvent<T>, es: ModuleEvents<T>, k: nat)
    ensures e.Value() == AnyEventV(e.Module, e.Data)
    ensures |es.Value()| == |es.AnyEvents|
    ensures k < |es.AnyEvents| ==> es.Value()[k] == AnyEventV(es.AnyEvents[k].Module, es.AnyEvents[k].Data)
  {}
}
