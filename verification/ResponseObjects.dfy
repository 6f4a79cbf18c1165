/** EventsResponse, SyncStatus, Block and NewBlockEvent as the program keeps them. */
module ResponseObjects {
  import opened Sequences
  import opened Words
  import opened Outcomes
  import opened Buffers
  import opened Varint
  import opened Messages
  import opened Fields
  import opened Parts
  import opened Embedded
  import opened EventStream
  import opened StreamResponse
  import opened Status
  import opened StreamObjects

  // ---- EventsResponse ----

  ghost function Inner<T(!new)>(es: seq<ModuleEvents<T>>): set<AnyEvent<T>>
    reads es
  {
    set e, a | e in es && a in e.AnyEvents :: a
  }

  ghost function ModuleValues<T(!new)>(es: seq<ModuleEvents<T>>): seq<seq<AnyEventV<T>>>
    reads es, Inner(es)
  {
    seq(|es|, i reads es, Inner(es) requires 0 <= i < |es| =>
      assert forall a | a in es[i].AnyEvents :: es[i] in es && a in Inner(es);
      es[i].Value())
  }

  ghost function ModuleContents<T(!new)>(any: SubCodec<T>, es: seq<ModuleEvents<T>>): seq<seq<byte>>
    reads es, Inner(es)
  {
    EncodeEach(ModuleEventsCodec(any), ModuleValues(es))
  }

  ghost predicate Encodes<T(!new)>(any: SubCodec<T>, e: ModuleEvents<T>, d: seq<byte>)
    reads e, e.AnyEvents
  {
    d == ModuleEventsMessage(any).Encode(e.Value())
  }

  lemma ModuleContentsAt<T(!new)>(any: SubCodec<T>, es: seq<ModuleEvents<T>>)
    ensures |ModuleContents(any, es)| == |es|
    ensures forall k :: 0 <= k < |es| ==> Encodes(any, es[k], ModuleContents(any, es)[k])
  {
    forall k | 0 <= k < |es|
      ensures Encodes(any, es[k], ModuleContents(any, es)[k])
    {
      EncodeEachAt(ModuleEventsCodec(any), ModuleValues(es), k);
    }
  }

  type EventsT<T> = EventsV<seq<AnyEventV<T>>>

  lemma EventElement<T(!new)>(any: SubCodec<T>, d: seq<byte>, m: EventsT<T>)
    ensures EventsResponseMessage(any).apply(m, BytesField(4, d)) ==
            match ModuleEventsMessage(any).Decode(d, [])
            case Ok(e) => Ok(m.(events := m.events + [e]))
            case Err(f) => Err(f)
    ensures EventsResponseMessage(any).burst(m, BytesField(4, d)) ==
            m.(events := m.events + [ModuleEventsMessage(any).Left(d, [])])
  {}

  lemma StringElement<T(!new)>(any: SubCodec<T>, num: nat, d: seq<byte>, m: EventsT<T>)
    requires num in {3, 5, 6}
    ensures EventsResponseMessage(any).apply(m, BytesField(num, d)) == Ok(AddStrings(m, num, [d]))
  {}

  lemma NumberField<T(!new)>(any: SubCodec<T>, num: nat, v: u64, m: EventsT<T>)
    requires num in {1, 2}
    ensures EventsResponseMessage(any).apply(m, IntField(num, v)) ==
            Ok(if num == 1 then m.(height := v) else m.(time := v))
  {}

  /** The parts of the encoding, in the order in which they are written from the back. */
  lemma EncodingFromTheBack<T(!new)>(any: SubCodec<T>, m: EventsT<T>)
    ensures EventsResponseMessage(any).Encode(m) ==
            EncodeAll(OptInt(1, m.height)) + (EncodeAll(OptInt(2, m.time)) + (EncodeAll(RepBytes(3, m.modules)) +
            (EncodeAll(RepSub(4, ModuleEventsCodec(any), m.events)) +
             (EncodeAll(RepBytes(5, m.tmQueries)) + (EncodeAll(RepBytes(6, m.tmData)) + [])))))
  {
    EventsEncoding(ModuleEventsCodec(any), m);
    EndsWithNothing(EncodeAll(RepBytes(6, m.tmData)));
    var a, b, c := EncodeAll(OptInt(1, m.height)), EncodeAll(OptInt(2, m.time)), EncodeAll(RepBytes(3, m.modules));
    var rest := EncodeAll(RepSub(4, ModuleEventsCodec(any), m.events)) +
                (EncodeAll(RepBytes(5, m.tmQueries)) + EncodeAll(RepBytes(6, m.tmData)));
    Associate(a + b, c, rest);
    Associate(a, b, c + rest);
  }

  class EventsResponse<T(!new)> {
    var Height: u64
    var Time: u64
    var Modules: Strings
    var Events: seq<ModuleEvents<T>>
    var TmQueries: Strings
    var TmData: Strings

    constructor ()
      ensures Value() == EventsV(0, 0, [], [], [], [])
    {
      Height, Time, Modules, Events, TmQueries, TmData := 0, 0, [], [], [], [];
    }

    ghost function Value(): EventsT<T>
      reads this, Events, Inner(Events)
    {
      EventsV(Height, Time, Modules, ModuleValues(Events), TmQueries, TmData)
    }

    /** The value is v, element by element. */
    ghost predicate Holds(v: EventsT<T>)
      reads this, Events, Inner(Events)
      ensures Holds(v) ==> Value() == v
    {
      && Height == v.height && Time == v.time && Modules == v.modules
      && TmQueries == v.tmQueries && TmData == v.tmData
      && |Events| == |v.events|
      && forall i :: 0 <= i < |Events| ==>
           (assert forall a | a in Events[i].AnyEvents :: Events[i] in Events && a in Inner(Events);
            EventIs(Events[i], v.events[i]))
    }

    ghost predicate EventIs(e: ModuleEvents<T>, v: seq<AnyEventV<T>>)
      reads e, e.AnyEvents
    {
      e.Value() == v
    }

    method Size(any: SubCodec<T>) returns (n: nat)
      ensures n == |EventsResponseMessage(any).Encode(Value())|
    {
      ghost var ds, m := ModuleContents(any, Events), Value();
      ModuleContentsAt(any, Events);
      var events := SizeEvents(any, ds);
      var others := SizeOthers();
      n := events + others;
      EventsSizeIs(ModuleEventsCodec(any), m);
      assert Holds(m);
    }

    /** The parts that are no messages. */
    method SizeOthers() returns (n: nat)
      ensures n == |EncodeAll(OptInt(1, Height))| + |EncodeAll(OptInt(2, Time))| + |EncodeAll(RepBytes(3, Modules))| +
                   |EncodeAll(RepBytes(5, TmQueries))| + |EncodeAll(RepBytes(6, TmData))|
    {
      var height := SizeOptInt(1, Height);
      var time := SizeOptInt(2, Time);
      var modules := SizeStrings(3, Modules);
      var queries := SizeStrings(5, TmQueries);
      var data := SizeStrings(6, TmData);
      n := height + time + modules + queries + data;
    }

    /** The loop over the events. */
    method SizeEvents(any: SubCodec<T>, ghost ds: seq<seq<byte>>) returns (n: nat)
      requires |ds| == |Events|
      requires forall k :: 0 <= k < |ds| ==> Encodes(any, Events[k], ds[k])
      ensures n == |EncodeAll(RepBytes(4, ds))|
    {
      n := 0;
      for k := 0 to |Events|
        invariant n == |EncodeAll(RepBytes(4, ds[..k]))|
      {
        var size := SizeElement(any, Events[k], ds[k]);
        n := n + size;
        RepBytesSizeStep(4, ds, k);
      }
      assert ds[..|Events|] == ds;
    }

    method SizeElement(any: SubCodec<T>, m: ModuleEvents<T>, ghost content: seq<byte>) returns (n: nat)
      requires Encodes(any, m, content)
      ensures n == 1 + |content| + Sov(|content|)
    {
      var l := m.Size(any);
      n := 1 + l + Sov(l);
    }

    method MarshalToSizedBuffer(any: SubCodec<T>, dAtA: array<byte>, end: nat) returns (n: nat)
      requires |EventsResponseMessage(any).Encode(Value())| <= end <= dAtA.Length <= MAX_INT
      modifies dAtA
      ensures n == |EventsResponseMessage(any).Encode(old(Value()))|
      ensures Wrote(dAtA[..], old(dAtA[..]), end - n, EventsResponseMessage(any).Encode(old(Value())))
    {
      ghost var before, ds := dAtA[..], ModuleContents(any, Events);
      ModuleContentsAt(any, Events);
      EncodingFromTheBack(any, Value());
      var i := MarshalTail(any, dAtA, end, ds, before);
      i := MarshalHead(dAtA, i, before, Tail(ds));
      n := end - i;
    }

    /** The first three fields, which are written last. */
    method MarshalHead(dAtA: array<byte>, end: nat, ghost before: seq<byte>, ghost tail: seq<byte>) returns (i: nat)
      requires |Head(tail)| - |tail| <= end <= dAtA.Length <= MAX_INT
      requires Wrote(dAtA[..], before, end, tail)
      modifies dAtA
      ensures i == end + |tail| - |Head(tail)|
      ensures Wrote(dAtA[..], before, i, Head(tail))
    {
      ghost var done := tail;
      i := PutStrings(dAtA, end, 3, Modules, before, done);
      done := EncodeAll(RepBytes(3, Modules)) + done;
      i := PutOptInt(dAtA, i, 2, Time, before, done);
      done := EncodeAll(OptInt(2, Time)) + done;
      i := PutOptInt(dAtA, i, 1, Height, before, done);
    }

    ghost function Head(tail: seq<byte>): seq<byte>
      reads this
    {
      EncodeAll(OptInt(1, Height)) + (EncodeAll(OptInt(2, Time)) + (EncodeAll(RepBytes(3, Modules)) + tail))
    }

    ghost function Tail(ds: seq<seq<byte>>): seq<byte>
      reads this
    {
      EncodeAll(RepBytes(4, ds)) + (EncodeAll(RepBytes(5, TmQueries)) + (EncodeAll(RepBytes(6, TmData)) + []))
    }

    /** The last three fields, which are written first. */
    method MarshalTail(any: SubCodec<T>, dAtA: array<byte>, end: nat, ghost ds: seq<seq<byte>>,
                       ghost before: seq<byte>) returns (i: nat)
      requires |ds| == |Events|
      requires forall k :: 0 <= k < |ds| ==> Encodes(any, Events[k], ds[k])
      requires |Tail(ds)| <= end <= dAtA.Length <= MAX_INT && before == dAtA[..]
      modifies dAtA
      ensures i == end - |Tail(ds)|
      ensures Wrote(dAtA[..], before, i, Tail(ds))
    {
      ghost var done: seq<byte> := [];
      i := PutStrings(dAtA, end, 6, TmData, before, done);
      done := EncodeAll(RepBytes(6, TmData)) + done;
      i := PutStrings(dAtA, i, 5, TmQueries, before, done);
      done := EncodeAll(RepBytes(5, TmQueries)) + done;
      i := PutEvents(any, dAtA, i, ds, before, done);
    }

    /** The events, in front of what has been written. */
    method PutEvents(any: SubCodec<T>, dAtA: array<byte>, end: nat, ghost ds: seq<seq<byte>>,
                     ghost before: seq<byte>, ghost done: seq<byte>) returns (i: nat)
      requires |ds| == |Events|
      requires forall k :: 0 <= k < |ds| ==> Encodes(any, Events[k], ds[k])
      requires |EncodeAll(RepBytes(4, ds))| <= end <= dAtA.Length <= MAX_INT
      requires Wrote(dAtA[..], before, end, done)
      modifies dAtA
      ensures i == end - |EncodeAll(RepBytes(4, ds))|
      ensures Wrote(dAtA[..], before, i, EncodeAll(RepBytes(4, ds)) + done)
    {
      ghost var buf := dAtA[..];
      i := MarshalEvents(any, dAtA, end, ds);
      WroteTwice(dAtA[..], buf, before, i, end, EncodeAll(RepBytes(4, ds)), done);
    }

    /** The loop over the events, from the last to the first. */
    method MarshalEvents(any: SubCodec<T>, dAtA: array<byte>, end: nat, ghost ds: seq<seq<byte>>) returns (i: nat)
      requires |ds| == |Events|
      requires forall k :: 0 <= k < |ds| ==> Encodes(any, Events[k], ds[k])
      requires |EncodeAll(RepBytes(4, ds))| <= end <= dAtA.Length <= MAX_INT
      modifies dAtA
      ensures i == end - |EncodeAll(RepBytes(4, ds))|
      ensures Wrote(dAtA[..], old(dAtA[..]), i, EncodeAll(RepBytes(4, ds)))
    {
      ghost var before := dAtA[..];
      ghost var done: seq<byte> := [];
      var iNdEx := |Events|;
      i := end;
      while iNdEx > 0
        invariant 0 <= iNdEx <= |ds|
        invariant done == EncodeAll(RepBytes(4, ds[iNdEx..]))
        invariant i == end - |done|
        invariant Wrote(dAtA[..], before, i, done)
      {
        iNdEx := iNdEx - 1;
        RepBytesSplit(4, ds, iNdEx);
        RepBytesSuffix(4, ds, iNdEx);
        i := MarshalElement(any, dAtA, i, Events[iNdEx], ds[iNdEx], before, done);
        done := BytesField(4, ds[iNdEx]).Encode() + done;
      }
      assert ds[0..] == ds;
    }

    method MarshalElement(any: SubCodec<T>, dAtA: array<byte>, end: nat, m: ModuleEvents<T>,
                          ghost content: seq<byte>, ghost before: seq<byte>, ghost done: seq<byte>)
      returns (at: nat)
      requires Encodes(any, m, content)
      requires |BytesField(4, content).Encode()| <= end <= dAtA.Length <= MAX_INT
      requires Wrote(dAtA[..], before, end, done)
      modifies dAtA
      ensures at == end - |BytesField(4, content).Encode()|
      ensures Wrote(dAtA[..], before, at, BytesField(4, content).Encode() + done)
    {
      ghost var buf := dAtA[..];
      ContentFits(4, content);
      assert |content| <= end;
      var size := m.MarshalToSizedBuffer(any, dAtA, end);
      assert size == |content|;
      assert Wrote(dAtA[..], buf, end - size, content);
      at := PutMessage(dAtA, end, 4, size, buf, before, content, done);
    }

    /** Numbers take the last value; strings and events append. */
    method Unmarshal(any: SubCodec<T>, dAtA: seq<byte>) returns (err: Option<GoError>)
      requires |dAtA| <= MAX_INT
      modifies this
      ensures err.None? ==> EventsResponseMessage(any).Decode(dAtA, old(Value())) == Ok(Value())
      ensures err.Some? ==> EventsResponseMessage(any).Decode(dAtA, old(Value())) == Err(Class(err.value))
      ensures Value() == EventsResponseMessage(any).Left(dAtA, old(Value()))
    {
      ghost var x, goal := Begin(EventsResponseMessage(any), dAtA, Value());
      var l := |dAtA|;
      var iNdEx := 0;
      while iNdEx < l
        invariant Pending(x, dAtA, goal, iNdEx, Value())
      {
        ghost var m := Value();
        var preIndex := iNdEx;
        var fieldNum, wireType;
        err, fieldNum, wireType, iNdEx := ReadTag(x, dAtA, goal, iNdEx, m);
        assert Holds(m);
        if err.Some? {
          return;
        }
        err, iNdEx := UnmarshalField(any, x, dAtA, goal, preIndex, fieldNum, wireType, iNdEx);
        if err.Some? {
          return;
        }
      }
      End(x, dAtA, goal, Value());
      return None;
    }

    /** The assignments to the two numbers. */
    method SetNumber(fieldNum: int, v: u64)
      requires fieldNum == 1 || fieldNum == 2
      modifies this`Height, this`Time
      ensures Value() == if fieldNum == 1 then old(Value()).(height := v) else old(Value()).(time := v)
    {
      if fieldNum == 1 {
        Height := v;
      } else {
        Time := v;
      }
    }

    /** The cases of the loop, for the field whose tag lies between `pre` and `start`. */
    method UnmarshalField(any: SubCodec<T>, ghost x: Message<EventsT<T>>, dAtA: seq<byte>,
                          ghost goal: Goal<EventsT<T>>, pre: nat, fieldNum: int, wireType: nat, start: nat)
      returns (err: Option<GoError>, next: nat)
      requires ReadsFields(x) && x.known == EVENTS_KNOWN && x.apply == EventsResponseMessage(any).apply
      requires x.burst == EventsResponseMessage(any).burst
      requires pre < start <= |dAtA| <= MAX_INT && TagAt(dAtA[pre..]) == Ok((fieldNum, wireType, start - pre))
      requires Pending(x, dAtA, goal, pre, Value())
      modifies this
      ensures err.None? ==> pre < next && Pending(x, dAtA, goal, next, Value())
      ensures err.Some? ==> goal == Goal(Err(Class(err.value)), Value())
    {
      ghost var m := Value();
      next := start;
      if fieldNum == 1 || fieldNum == 2 {
        var stores, v;
        err, stores, v, next := ReadInt(x, dAtA, goal, pre, m, fieldNum, wireType, start);
        assert Holds(m);
        if stores {
          NumberField(any, fieldNum, v, m);
          SetNumber(fieldNum, v);
        }
      } else if fieldNum == 3 || fieldNum == 4 || fieldNum == 5 || fieldNum == 6 {
        var from, postIndex;
        err, from, postIndex := ReadBytes(x, dAtA, goal, pre, m, fieldNum, wireType, start);
        assert Holds(m);
        if err.None? {
          err := AppendField(any, fieldNum, dAtA[from..postIndex]);
          next := postIndex;
        }
      } else {
        var skipped;
        err, skipped := SkipUnknown(x, dAtA, goal, pre, m);
        assert Holds(m);
        if err.None? {
          next := skipped;
        }
      }
    }

    /** The cases of the fields that append. */
    method AppendField(any: SubCodec<T>, fieldNum: int, d: seq<byte>) returns (err: Option<GoError>)
      requires fieldNum == 3 || fieldNum == 4 || fieldNum == 5 || fieldNum == 6
      requires |d| <= MAX_INT
      modifies this
      ensures err.None? ==> EventsResponseMessage(any).apply(old(Value()), BytesField(fieldNum, d)) == Ok(Value())
      ensures err.Some? ==>
                EventsResponseMessage(any).apply(old(Value()), BytesField(fieldNum, d)) == Err(Class(err.value)) &&
                Value() == EventsResponseMessage(any).burst(old(Value()), BytesField(fieldNum, d))
    {
      if fieldNum == 4 {
        EventElement(any, d, Value());
        err := UnmarshalElement(any, d);
      } else {
        StringElement(any, fieldNum, d, Value());
        AddString(fieldNum, d);
        err := None;
      }
    }

    /** The appends to the three string fields. */
    method AddString(fieldNum: int, d: seq<byte>)
      requires fieldNum == 3 || fieldNum == 5 || fieldNum == 6
      modifies this`Modules, this`TmQueries, this`TmData
      ensures Value() == AddStrings(old(Value()), fieldNum, [d])
    {
      if fieldNum == 3 {
        Modules := Modules + [d];
      } else if fieldNum == 5 {
        TmQueries := TmQueries + [d];
      } else {
        TmData := TmData + [d];
      }
    }

    /** `m.Events = append(m.Events, &ModuleEvents{})`, and decoding into it. */
    method UnmarshalElement(any: SubCodec<T>, d: seq<byte>) returns (err: Option<GoError>)
      requires |d| <= MAX_INT
      modifies this
      ensures err.Some? ==> ModuleEventsMessage(any).Decode(d, []) == Err(Class(err.value))
      ensures err.None? ==>
                var r := ModuleEventsMessage(any).Decode(d, []);
                r.Ok? && Value() == old(Value()).(events := old(Value()).events + [r.value])
      ensures Value() == old(Value()).(events := old(Value()).events + [ModuleEventsMessage(any).Left(d, [])])
    {
      ghost var m := Value();
      var e := new ModuleEvents<T>();
      Events := Events + [e];
      err := e.Unmarshal(any, d);
      assert ModuleValues(Events) == m.events + [e.Value()];
    }
  }

  // ---- SyncStatus ----

  class SyncStatus {
    var LastBlock: u64
    var LastBlockTime: i64
    var UpdatedAt: i64
    var CurrentVersion: seq<byte>

    constructor ()
      ensures Value() == SyncStatusV(0, 0, 0, [])
    {
      LastBlock, LastBlockTime, UpdatedAt, CurrentVersion := 0, 0, 0, [];
    }

    ghost function Value(): SyncStatusV
      reads this
    {
      SyncStatusV(LastBlock, LastBlockTime, UpdatedAt, CurrentVersion)
    }

    method Size() returns (n: nat)
      ensures n == |SyncMessage().Encode(Value())|
    {
      SyncSizeIs(Value());
      var block := SizeOptInt(1, LastBlock);
      var time := SizeOptInt(2, FromInt64(LastBlockTime));
      var updated := SizeOptInt(3, FromInt64(UpdatedAt));
      var version := SizeOptBytes(4, CurrentVersion);
      n := block + time + updated + version;
    }

    method MarshalToSizedBuffer(dAtA: array<byte>, end: nat) returns (n: nat)
      requires |SyncMessage().Encode(Value())| <= end <= dAtA.Length <= MAX_INT
      modifies dAtA
      ensures n == |SyncMessage().Encode(old(Value()))|
      ensures Wrote(dAtA[..], old(dAtA[..]), end - n, SyncMessage().Encode(old(Value())))
    {
      ghost var before, done := dAtA[..], [];
      SyncFromTheBack(Value());
      var i := PutOptBytes(dAtA, end, 4, CurrentVersion, before, done);
      done := EncodeAll(OptBytes(4, CurrentVersion)) + done;
      i := PutOptInt(dAtA, i, 3, FromInt64(UpdatedAt), before, done);
      done := EncodeAll(OptInt(3, FromInt64(UpdatedAt))) + done;
      i := PutOptInt(dAtA, i, 2, FromInt64(LastBlockTime), before, done);
      done := EncodeAll(OptInt(2, FromInt64(LastBlockTime))) + done;
      i := PutOptInt(dAtA, i, 1, LastBlock, before, done);
      n := end - i;
    }

    method Unmarshal(dAtA: seq<byte>) returns (err: Option<GoError>)
      requires |dAtA| <= MAX_INT
      modifies this
      ensures err.None? ==> SyncMessage().Decode(dAtA, old(Value())) == Ok(Value())
      ensures err.Some? ==> SyncMessage().Decode(dAtA, old(Value())) == Err(Class(err.value))
      ensures Value() == SyncMessage().Left(dAtA, old(Value()))
    {
      ghost var x, goal := Begin(SyncMessage(), dAtA, Value());
      var l := |dAtA|;
      var iNdEx := 0;
      while iNdEx < l
        invariant Pending(x, dAtA, goal, iNdEx, Value())
      {
        ghost var m := Value();
        var preIndex := iNdEx;
        var fieldNum, wireType;
        err, fieldNum, wireType, iNdEx := ReadTag(x, dAtA, goal, iNdEx, m);
        if err.Some? {
          return;
        }
        if fieldNum == 1 || fieldNum == 2 || fieldNum == 3 {
          var stores, v, next;
          err, stores, v, next := ReadInt(x, dAtA, goal, preIndex, m, fieldNum, wireType, iNdEx);
          if stores {
            SetNumber(fieldNum, v);
          }
          if err.Some? {
            return;
          }
          iNdEx := next;
        } else if fieldNum == 4 {
          var start, postIndex;
          err, start, postIndex := ReadBytes(x, dAtA, goal, preIndex, m, 4, wireType, iNdEx);
          if err.Some? {
            return;
          }
          CurrentVersion := dAtA[start..postIndex];
          iNdEx := postIndex;
        } else {
          err, iNdEx := SkipUnknown(x, dAtA, goal, preIndex, m);
          if err.Some? {
            return;
          }
        }
      }
      End(x, dAtA, goal, Value());
      return None;
    }

    /** The assignments to the three numbers. */
    method SetNumber(fieldNum: int, v: u64)
      requires fieldNum == 1 || fieldNum == 2 || fieldNum == 3
      modifies this`LastBlock, this`LastBlockTime, this`UpdatedAt
      ensures ApplySync(old(Value()), IntField(fieldNum, v)) == Ok(Value())
    {
      if fieldNum == 1 {
        LastBlock := v;
      } else if fieldNum == 2 {
        LastBlockTime := ToInt64(v);
      } else {
        UpdatedAt := ToInt64(v);
      }
    }
  }

  lemma SyncFromTheBack(m: SyncStatusV)
    ensures SyncMessage().Encode(m) ==
            EncodeAll(OptInt(1, m.lastBlock)) + (EncodeAll(OptInt(2, FromInt64(m.lastBlockTime))) +
            (EncodeAll(OptInt(3, FromInt64(m.updatedAt))) + (EncodeAll(OptBytes(4, m.version)) + [])))
  {
    SyncEncoding(m);
    var a, b, c, d := EncodeAll(OptInt(1, m.lastBlock)), EncodeAll(OptInt(2, FromInt64(m.lastBlockTime))),
                      EncodeAll(OptInt(3, FromInt64(m.updatedAt))), EncodeAll(OptBytes(4, m.version));
    EndsWithNothing(d);
    Associate(a, b + c, d);
    Associate(b, c, d);
  }

  // ---- Block and NewBlockEvent ----

  class Block<A(!new), B(!new)> {
    var BlockId: Option<A>
    var Block: Option<B>

    constructor ()
      ensures Value() == BlockV(None, None)
    {
      BlockId, Block := None, None;
    }

    ghost function Value(): BlockV<A, B>
      reads this
    {
      BlockV(BlockId, Block)
    }

    method Size(ids: SubCodec<A>, blocks: SubCodec<B>) returns (n: nat)
      ensures n == |BlockMessage(ids, blocks).Encode(Value())|
    {
      BlockEncoding(ids, blocks, Value());
      var id := SizeOptSub(1, ids, BlockId);
      var block := SizeOptSub(2, blocks, Block);
      n := id + block;
    }

    method MarshalToSizedBuffer(ids: SubCodec<A>, blocks: SubCodec<B>, dAtA: array<byte>, end: nat) returns (n: nat)
      requires |BlockMessage(ids, blocks).Encode(Value())| <= end <= dAtA.Length <= MAX_INT
      modifies dAtA
      ensures n == |BlockMessage(ids, blocks).Encode(old(Value()))|
      ensures Wrote(dAtA[..], old(dAtA[..]), end - n, BlockMessage(ids, blocks).Encode(old(Value())))
    {
      ghost var before, done := dAtA[..], EncodeAll(OptSub(2, blocks, Block));
      BlockEncoding(ids, blocks, Value());
      EndsWithNothing(done);
      var i := PutOptSub(dAtA, end, 2, blocks, Block, before, []);
      i := PutOptSub(dAtA, i, 1, ids, BlockId, before, done);
      n := end - i;
    }

    method Unmarshal(ids: SubCodec<A>, blocks: SubCodec<B>, dAtA: seq<byte>) returns (err: Option<GoError>)
      requires |dAtA| <= MAX_INT
      modifies this
      ensures err.None? ==> BlockMessage(ids, blocks).Decode(dAtA, old(Value())) == Ok(Value())
      ensures err.Some? ==> BlockMessage(ids, blocks).Decode(dAtA, old(Value())) == Err(Class(err.value))
      ensures Value() == BlockMessage(ids, blocks).Left(dAtA, old(Value()))
    {
      ghost var x, goal := Begin(BlockMessage(ids, blocks), dAtA, Value());
      var l := |dAtA|;
      var iNdEx := 0;
      while iNdEx < l
        invariant Pending(x, dAtA, goal, iNdEx, Value())
      {
        ghost var m := Value();
        var preIndex := iNdEx;
        var fieldNum, wireType;
        err, fieldNum, wireType, iNdEx := ReadTag(x, dAtA, goal, iNdEx, m);
        if err.Some? {
          return;
        }
        if fieldNum == 1 || fieldNum == 2 {
          var start, postIndex;
          err, start, postIndex := ReadBytes(x, dAtA, goal, preIndex, m, fieldNum, wireType, iNdEx);
          if err.Some? {
            return;
          }
          err := MergePart(ids, blocks, fieldNum, dAtA[start..postIndex]);
          if err.Some? {
            return;
          }
          iNdEx := postIndex;
        } else {
          err, iNdEx := SkipUnknown(x, dAtA, goal, preIndex, m);
          if err.Some? {
            return;
          }
        }
      }
      End(x, dAtA, goal, Value());
      return None;
    }

    /** The two cases of the loop: decoding into the part that is there, or into a new one. */
    method MergePart(ids: SubCodec<A>, blocks: SubCodec<B>, fieldNum: int, d: seq<byte>)
      returns (err: Option<GoError>)
      requires fieldNum == 1 || fieldNum == 2
      modifies this
      ensures err.None? ==> ApplyBlock(ids, blocks, old(Value()), BytesField(fieldNum, d)) == Ok(Value())
      ensures err.Some? ==>
                ApplyBlock(ids, blocks, old(Value()), BytesField(fieldNum, d)) == Err(Class(err.value)) &&
                Value() == BurstBlock(ids, blocks, old(Value()), BytesField(fieldNum, d))
    {
      if fieldNum == 1 {
        var r := ids.dec(d, OrEmpty(ids, BlockId));
        if r.Err? {
          BlockId := Some(ids.left(d, OrEmpty(ids, BlockId)));
          return Some(ErrSubMessage(r.fault));
        }
        BlockId := Some(r.value);
      } else {
        var r := blocks.dec(d, OrEmpty(blocks, Block));
        if r.Err? {
          Block := Some(blocks.left(d, OrEmpty(blocks, Block)));
          return Some(ErrSubMessage(r.fault));
        }
        Block := Some(r.value);
      }
      return None;
    }
  }

  function BlockCodec<A(!new), B(!new)>(ids: SubCodec<A>, blocks: SubCodec<B>): SubCodec<BlockV<A, B>> {
    SubOf(BlockMessage(ids, blocks))
  }

  function NewBlockEventMessage<A(!new), B(!new)>(ids: SubCodec<A>, blocks: SubCodec<B>)
    : Message<NewBlockV<BlockV<A, B>>>
  {
    NewBlockMessage(BlockCodec(ids, blocks))
  }

  lemma MergedBlock<A(!new), B(!new)>(ids: SubCodec<A>, blocks: SubCodec<B>, d: seq<byte>,
                                      m: NewBlockV<BlockV<A, B>>)
    ensures ApplyNewBlock(BlockCodec(ids, blocks), m, BytesField(2, d)) ==
            match BlockMessage(ids, blocks).Decode(d, if m.block.None? then BlockV(None, None) else m.block.value)
            case Ok(b) => Ok(m.(block := Some(b)))
            case Err(f) => Err(f)
    ensures NewBlockEventMessage(ids, blocks).burst(m, BytesField(2, d)) ==
            m.(block := Some(BlockMessage(ids, blocks).Left(d, if m.block.None? then BlockV(None, None)
                                                               else m.block.value)))
  {}

  class NewBlockEvent<A(!new), B(!new)> {
    var Op: i32
    var Block: Block?<A, B>

    constructor ()
      ensures Value() == NewBlockV(0, None) && Block == null
    {
      Op, Block := 0, null;
    }

    ghost function Value(): NewBlockV<BlockV<A, B>>
      reads this, Block
    {
      NewBlockV(Op, if Block == null then None else Some(Block.Value()))
    }

    method Size(ids: SubCodec<A>, blocks: SubCodec<B>) returns (n: nat)
      ensures n == |NewBlockEventMessage(ids, blocks).Encode(Value())|
    {
      NewBlockEncoding(BlockCodec(ids, blocks), Value());
      n := SizeOptInt(1, FromInt64(Op));
      if Block != null {
        var l := Block.Size(ids, blocks);
        n := n + (1 + l + Sov(l));
        HeadOfBytesField(2, BlockMessage(ids, blocks).Encode(Block.Value()));
        EncodeOne(BytesField(2, BlockMessage(ids, blocks).Encode(Block.Value())));
      }
    }

    method MarshalToSizedBuffer(ids: SubCodec<A>, blocks: SubCodec<B>, dAtA: array<byte>, end: nat) returns (n: nat)
      requires |NewBlockEventMessage(ids, blocks).Encode(Value())| <= end <= dAtA.Length <= MAX_INT
      modifies dAtA
      ensures n == |NewBlockEventMessage(ids, blocks).Encode(old(Value()))|
      ensures Wrote(dAtA[..], old(dAtA[..]), end - n, NewBlockEventMessage(ids, blocks).Encode(old(Value())))
    {
      ghost var before, sub := dAtA[..], BlockCodec(ids, blocks);
      ghost var done := EncodeAll(OptSub(2, sub, Value().block));
      NewBlockEncoding(sub, Value());
      EndsWithNothing(done);
      var i := end;
      if Block != null {
        i := MarshalBlock(ids, blocks, dAtA, end);
      }
      i := PutOptInt(dAtA, i, 1, FromInt64(Op), before, done);
      n := end - i;
    }

    /** The lines for the embedded block. */
    method MarshalBlock(ids: SubCodec<A>, blocks: SubCodec<B>, dAtA: array<byte>, end: nat) returns (i: nat)
      requires Block != null
      requires |EncodeAll(OptSub(2, BlockCodec(ids, blocks), Some(Block.Value())))| <= end <= dAtA.Length <= MAX_INT
      modifies dAtA
      ensures i == end - |EncodeAll(OptSub(2, BlockCodec(ids, blocks), Some(old(Block.Value()))))|
      ensures Wrote(dAtA[..], old(dAtA[..]), i, EncodeAll(OptSub(2, BlockCodec(ids, blocks), Some(old(Block.Value())))))
    {
      ghost var before, content := dAtA[..], BlockMessage(ids, blocks).Encode(Block.Value());
      EncodeOne(BytesField(2, content));
      HeadOfBytesField(2, content);
      var size := Block.MarshalToSizedBuffer(ids, blocks, dAtA, end);
      i := PutMessage(dAtA, end, 2, size, before, before, content, []);
      EndsWithNothing(BytesField(2, content).Encode());
    }

    /** The last op wins; a block is merged into the one that is there. */
    method Unmarshal(ids: SubCodec<A>, blocks: SubCodec<B>, dAtA: seq<byte>) returns (err: Option<GoError>)
      requires |dAtA| <= MAX_INT
      modifies this, Block
      ensures err.None? ==> NewBlockEventMessage(ids, blocks).Decode(dAtA, old(Value())) == Ok(Value())
      ensures err.Some? ==> NewBlockEventMessage(ids, blocks).Decode(dAtA, old(Value())) == Err(Class(err.value))
      ensures Value() == NewBlockEventMessage(ids, blocks).Left(dAtA, old(Value()))
    {
      ghost var x, goal := Begin(NewBlockEventMessage(ids, blocks), dAtA, Value());
      var l := |dAtA|;
      var iNdEx := 0;
      while iNdEx < l
        invariant Pending(x, dAtA, goal, iNdEx, Value())
        invariant Block == old(Block) || (Block != null && fresh(Block))
      {
        ghost var m := Value();
        var preIndex := iNdEx;
        var fieldNum, wireType;
        err, fieldNum, wireType, iNdEx := ReadTag(x, dAtA, goal, iNdEx, m);
        if err.Some? {
          return;
        }
        if fieldNum == 1 {
          var stores, v, next;
          ghost var word;
          err, stores, v, next, word := ReadEnumField(x, dAtA, goal, preIndex, m, 1, wireType, iNdEx);
          if stores {
            Op := v;
          }
          if err.Some? {
            return;
          }
          iNdEx := next;
        } else if fieldNum == 2 {
          var start, postIndex;
          err, start, postIndex := ReadBytes(x, dAtA, goal, preIndex, m, 2, wireType, iNdEx);
          if err.Some? {
            return;
          }
          MergedBlock(ids, blocks, dAtA[start..postIndex], m);
          if Block == null {
            Block := new Block<A, B>();
          }
          err := Block.Unmarshal(ids, blocks, dAtA[start..postIndex]);
          if err.Some? {
            return;
          }
          iNdEx := postIndex;
        } else {
          err, iNdEx := SkipUnknown(x, dAtA, goal, preIndex, m);
          if err.Some? {
            return;
          }
        }
      }
      End(x, dAtA, goal, Value());
      return None;
    }
  }

  /** The value of an object is what its fields hold, element by element. */
  lemma ResponseValues<T(!new)>(e: EventsResponse<T>, k: nat)
    ensures var v := e.Value();
            && v.height == e.Height && v.time == e.Time
            && v.modules == e.Modules && v.tmQueries == e.TmQueries && v.tmData == e.TmData
            && |v.events| == |e.Events|
            && (k < |e.Events| ==> v.events[k] == e.Events[k].Value())
  {}

  lemma StatusValues<A(!new), B(!new)>(s: SyncStatus, b: Block<A, B>, n: NewBlockEvent<A, B>)
    ensures s.Value() == SyncStatusV(s.LastBlock, s.LastBlockTime, s.UpdatedAt, s.CurrentVersion)
    ensures b.Value() == BlockV(b.BlockId, b.Block)
    ensures n.Value().op == n.Op && (n.Value().block.None? <==> n.Block == null)
    ensures n.Block != null ==> n.Value().block == Some(BlockV(n.Block.BlockId, n.Block.Block))
  {}
}
