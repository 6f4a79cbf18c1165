/** chain/types/tx_response.pb.go: TxResponseGenericMessage and the list of them, TxResponseData. */
module TxResponse {
  import opened Words
  import opened Outcomes
  import opened Buffers
  import opened Varint
  import Groups
  import opened Skip
  import opened Messages
  import opened Fields
  import opened Parts
  import opened Lists

  // ---- TxResponseGenericMessage as a value ----

  datatype Generic = Generic(header: seq<byte>, data: seq<byte>)

  function ApplyGeneric(m: Generic, f: Field): Result<Generic> {
    match f
    case BytesField(1, d) => Ok(m.(header := d))
    case BytesField(2, d) => Ok(m.(data := d))
    case _ => Ok(m)
  }

  function GenericFields(m: Generic): seq<Field> {
    OptBytes(1, m.header) + OptBytes(2, m.data)
  }

  const GENERIC_KNOWN: map<int, nat> := map[1 := 2, 2 := 2]

  function GenericMessage(): Message<Generic> {
    Message(GENERIC_KNOWN, ReaderOf(GENERIC_KNOWN), Generic([], []), ApplyGeneric, GenericFields,
            SpoilOf(GENERIC_KNOWN, ApplyGeneric), (m, f) => m)
  }

  lemma GenericSize(m: Generic)
    ensures |GenericMessage().Encode(m)| == OptSize(1, |m.header|) + OptSize(2, |m.data|)
  {
    EncodeAllAppend(OptBytes(1, m.header), OptBytes(2, m.data));
    OptBytesSize(1, m.header);
    OptBytesSize(2, m.data);
  }

  lemma GenericRebuilds(m: Generic)
    ensures GenericMessage().Handled(m) && GenericMessage().Rebuilds(m)
  {
    var x := GenericMessage();
    var a, b := OptBytes(1, m.header), OptBytes(2, m.data);
    var half := Generic(m.header, []);
    if m.header != [] {
      FoldOne(x, BytesField(1, m.header), x.empty);
    }
    FoldAppend(x, a, b, x.empty);
    if m.data != [] {
      FoldOne(x, BytesField(2, m.data), half);
    }
  }

  lemma GenericShrinks(m: Generic, f: Field)
    ensures GenericMessage().Shrinks(m, f)
  {
    if GenericMessage().Handles(f) {
      var m' := ApplyGeneric(m, f).value;
      GenericSize(m);
      GenericSize(m');
      OptBytesSize(f.num, f.data);
    }
  }

  lemma GenericLaws()
    ensures GenericMessage().MessageLaws()
  {
    var x := GenericMessage();
    ReaderObeys(x);
    forall m
      ensures x.Handled(m) && x.Rebuilds(m)
    {
      GenericRebuilds(m);
    }
    forall m, f
      ensures x.Shrinks(m, f)
    {
      GenericShrinks(m, f);
    }
  }

  // ---- TxResponseGenericMessage as the program keeps it ----

  class TxResponseGenericMessage {
    var Header: seq<byte>
    var Data: seq<byte>

    constructor ()
      ensures Value() == Generic([], [])
    {
      Header, Data := [], [];
    }

    ghost function Value(): Generic
      reads this
    {
      Generic(Header, Data)
    }

    method Size() returns (n: nat)
      ensures n == |GenericMessage().Encode(Value())|
    {
      n := 0;
      var l := |Header|;
      if l > 0 {
        n := n + 1 + l + Sov(l);
      }
      l := |Data|;
      if l > 0 {
        n := n + 1 + l + Sov(l);
      }
      GenericSize(Value());
      OneByteTag(0xa);
      OneByteTag(0x12);
    }

    /** Writes the encoding so that it ends at `end` (the length of the slice the program passes), and
        touches nothing else. */
    method MarshalToSizedBuffer(dAtA: array<byte>, end: nat) returns (n: nat)
      requires |GenericMessage().Encode(Value())| <= end <= dAtA.Length <= MAX_INT
      modifies dAtA
      ensures n == |GenericMessage().Encode(old(Value()))|
      ensures Wrote(dAtA[..], old(dAtA[..]), end - n, GenericMessage().Encode(old(Value())))
    {
      ghost var before := dAtA[..];
      EncodeAllAppend(OptBytes(1, Header), OptBytes(2, Data));
      EndsWithNothing(EncodeAll(OptBytes(2, Data)));
      var i := end;
      i := PutOptBytes(dAtA, i, 2, Data, before, []);
      i := PutOptBytes(dAtA, i, 1, Header, before, EncodeAll(OptBytes(2, Data)));
      n := end - i;
    }

    /** Merges the input into the message. */
    method Unmarshal(dAtA: seq<byte>) returns (err: Option<GoError>)
      requires |dAtA| <= MAX_INT
      modifies this
      ensures err.None? ==> GenericMessage().Decode(dAtA, old(Value())) == Ok(Value())
      ensures err.Some? ==> GenericMessage().Decode(dAtA, old(Value())) == Err(Class(err.value))
      ensures Value() == GenericMessage().Left(dAtA, old(Value()))
    {
      ghost var x, goal := Begin(GenericMessage(), dAtA, Value());
      var l := |dAtA|;
      var iNdEx := 0;
      while iNdEx < l
        invariant Pending(x, dAtA, goal, iNdEx, Value())
      {
        ghost var m := Value();
        var preIndex := iNdEx;
        var fieldNum, wireType;
        err, fieldNum, wireType, iNdEx := ReadTag(x, dAtA, goal, iNdEx, m);
        if err.Some? {
          return;
        }
        if fieldNum == 1 || fieldNum == 2 {
          var start, postIndex;
          err, start, postIndex := ReadBytes(x, dAtA, goal, preIndex, m, fieldNum, wireType, iNdEx);
          if err.Some? {
            return;
          }
          if fieldNum == 1 {
            Header := dAtA[start..postIndex];
          } else {
            Data := dAtA[start..postIndex];
          }
          iNdEx := postIndex;
        } else {
          err, iNdEx := SkipUnknown(x, dAtA, goal, preIndex, m);
          if err.Some? {
            return;
          }
        }
      }
      End(x, dAtA, goal, Value());
      return None;
    }
  }

  // ---- TxResponseData as a value: the list of its messages ----

  function GenericCodec(): SubCodec<Generic> {
    SubOf(GenericMessage())
  }

  function DataMessage(): Message<seq<Generic>> {
    ListMessage(GenericCodec())
  }

  lemma DataLaws()
    ensures GenericCodec().Lawful() && DataMessage().MessageLaws()
  {
    GenericLaws();
    SubIsLawful(GenericMessage());
    ListLaws(GenericCodec());
  }

  // ---- TxResponseData as the program keeps it ----

  ghost function Values(ms: seq<TxResponseGenericMessage>): seq<Generic>
    reads ms
  {
    seq(|ms|, i reads ms requires 0 <= i < |ms| => ms[i].Value())
  }

  lemma ElementDecodes(d: seq<byte>, ms: seq<Generic>)
    ensures ApplyList(GenericCodec(), ms, BytesField(1, d)) ==
            match GenericMessage().Decode(d, Generic([], []))
            case Ok(e) => Ok(ms + [e])
            case Err(f) => Err(f)
    ensures DataMessage().burst(ms, BytesField(1, d)) == ms + [GenericMessage().Left(d, Generic([], []))]
  {}

  /** The encodings of the elements, one by one. */
  ghost function Contents(ms: seq<TxResponseGenericMessage>): seq<seq<byte>>
    reads ms
  {
    EncodeEach(GenericCodec(), Values(ms))
  }

  lemma ContentsAt(ms: seq<TxResponseGenericMessage>)
    ensures |Contents(ms)| == |ms|
    ensures forall k :: 0 <= k < |ms| ==> Contents(ms)[k] == GenericMessage().Encode(ms[k].Value())
    ensures DataMessage().Encode(Values(ms)) == EncodeAll(RepBytes(1, Contents(ms)))
  {
    forall k | 0 <= k < |ms|
      ensures Contents(ms)[k] == GenericMessage().Encode(ms[k].Value())
    {
      EncodeEachAt(GenericCodec(), Values(ms), k);
    }
  }

  class TxResponseData {
    var Messages: seq<TxResponseGenericMessage>

    constructor ()
      ensures Value() == []
    {
      Messages := [];
    }

    ghost function Value(): seq<Generic>
      reads this, Messages
    {
      Values(Messages)
    }

    method Size() returns (n: nat)
      ensures n == |DataMessage().Encode(Value())|
    {
      ghost var ds := Contents(Messages);
      ContentsAt(Messages);
      n := 0;
      for k := 0 to |Messages|
        invariant n == |EncodeAll(RepBytes(1, ds[..k]))|
      {
        var l := Messages[k].Size();
        n := n + 1 + l + Sov(l);
        RepBytesSizeStep(1, ds, k);
      }
      assert ds[..|Messages|] == ds;
    }

    /** Writes the elements from the last to the first, each ending where the one after it starts. */
    method MarshalToSizedBuffer(dAtA: array<byte>, end: nat) returns (n: nat)
      requires |DataMessage().Encode(Value())| <= end <= dAtA.Length <= MAX_INT
      modifies dAtA
      ensures n == |DataMessage().Encode(old(Value()))|
      ensures Wrote(dAtA[..], old(dAtA[..]), end - n, DataMessage().Encode(old(Value())))
    {
      ghost var before, ds := dAtA[..], Contents(Messages);
      ContentsAt(Messages);
      var i := MarshalMessages(dAtA, end, ds);
      n := end - i;
    }

    /** The loop over the elements. */
    method MarshalMessages(dAtA: array<byte>, end: nat, ghost ds: seq<seq<byte>>) returns (i: nat)
      requires |ds| == |Messages|
      requires forall k :: 0 <= k < |ds| ==> ds[k] == GenericMessage().Encode(Messages[k].Value())
      requires |EncodeAll(RepBytes(1, ds))| <= end <= dAtA.Length <= MAX_INT
      modifies dAtA
      ensures i == end - |EncodeAll(RepBytes(1, ds))|
      ensures Wrote(dAtA[..], old(dAtA[..]), i, EncodeAll(RepBytes(1, ds)))
    {
      ghost var before := dAtA[..];
      ghost var done: seq<byte> := [];
      var iNdEx := |Messages|;
      i := end;
      while iNdEx > 0
        invariant 0 <= iNdEx <= |ds|
        invariant done == EncodeAll(RepBytes(1, ds[iNdEx..]))
        invariant i == end - |done|
        invariant Wrote(dAtA[..], before, i, done)
      {
        iNdEx := iNdEx - 1;
        RepBytesSplit(1, ds, iNdEx);
        RepBytesSuffix(1, ds, iNdEx);
        i := MarshalElement(dAtA, i, Messages[iNdEx], ds[iNdEx], before, done);
        done := BytesField(1, ds[iNdEx]).Encode() + done;
      }
      assert ds[0..] == ds;
    }

    /** The body of that loop: the element, its size, its tag. */
    method MarshalElement(dAtA: array<byte>, end: nat, m: TxResponseGenericMessage,
                          ghost content: seq<byte>, ghost before: seq<byte>, ghost done: seq<byte>)
      returns (at: nat)
      requires content == GenericMessage().Encode(m.Value())
      requires |BytesField(1, content).Encode()| <= end <= dAtA.Length <= MAX_INT
      requires Wrote(dAtA[..], before, end, done)
      modifies dAtA
      ensures at == end - |BytesField(1, content).Encode()|
      ensures Wrote(dAtA[..], before, at, BytesField(1, content).Encode() + done)
    {
      ghost var buf := dAtA[..];
      HeadOfBytesField(1, content);
      var size := m.MarshalToSizedBuffer(dAtA, end);
      at := PutMessage(dAtA, end, 1, size, buf, before, content, done);
    }

    /** `dAtA = make([]byte, size)`, filled from the back; `dAtA[:n]` is all of it. */
    method Marshal() returns (dAtA: array<byte>)
      requires |DataMessage().Encode(Value())| <= MAX_INT
      ensures fresh(dAtA) && dAtA[..] == DataMessage().Encode(Value())
    {
      var size := Size();
      dAtA := new byte[size];
      ghost var before := dAtA[..];
      var n := MarshalToSizedBuffer(dAtA, size);
      Filled(dAtA[..], before, DataMessage().Encode(Value()));
    }

    /** Appends the elements of the input. Those that were there stay in front, also after an error. */
    method Unmarshal(dAtA: seq<byte>) returns (err: Option<GoError>)
      requires |dAtA| <= MAX_INT
      modifies this
      ensures err.None? ==> DataMessage().Decode(dAtA, old(Value())) == Ok(Value())
      ensures err.Some? ==> DataMessage().Decode(dAtA, old(Value())) == Err(Class(err.value))
      ensures Value() == DataMessage().Left(dAtA, old(Value()))
      ensures old(Messages) <= Messages
    {
      ghost var x, goal := Begin(DataMessage(), dAtA, Value());
      var l := |dAtA|;
      var iNdEx := 0;
      while iNdEx < l
        invariant Pending(x, dAtA, goal, iNdEx, Value())
        invariant old(Messages) <= Messages
      {
        ghost var m := Value();
        var preIndex := iNdEx;
        var fieldNum, wireType;
        err, fieldNum, wireType, iNdEx := ReadTag(x, dAtA, goal, iNdEx, m);
        if err.Some? {
          return;
        }
        if fieldNum == 1 {
          var start, postIndex;
          err, start, postIndex := ReadBytes(x, dAtA, goal, preIndex, m, 1, wireType, iNdEx);
          if err.Some? {
            return;
          }
          ElementDecodes(dAtA[start..postIndex], m);
          err := UnmarshalElement(dAtA[start..postIndex]);
          if err.Some? {
            return;
          }
          iNdEx := postIndex;
        } else {
          err, iNdEx := SkipUnknown(x, dAtA, goal, preIndex, m);
          if err.Some? {
            return;
          }
        }
      }
      End(x, dAtA, goal, Value());
      return None;
    }

    /** `m.Messages = append(m.Messages, &TxResponseGenericMessage{})`, and decoding into it. */
    method UnmarshalElement(d: seq<byte>) returns (err: Option<GoError>)
      requires |d| <= MAX_INT
      modifies this
      ensures err.Some? ==> GenericMessage().Decode(d, Generic([], [])) == Err(Class(err.value))
      ensures err.None? ==>
                var r := GenericMessage().Decode(d, Generic([], []));
                r.Ok? && Value() == old(Value()) + [r.value]
      ensures Value() == old(Value()) + [GenericMessage().Left(d, Generic([], []))]
      ensures |Messages| == |old(Messages)| + 1 && old(Messages) <= Messages
    {
      ghost var m := Value();
      var e := new TxResponseGenericMessage();
      Messages := Messages + [e];
      err := e.Unmarshal(d);
      assert Values(Messages) == m + [e.Value()];
    }
  }

  lemma GenericRoundTrip(m: Generic)
    requires |GenericMessage().Encode(m)| <= MAX_INT
    ensures GenericMessage().Decode(GenericMessage().Encode(m), Generic([], [])) == Ok(m)
  {
    GenericLaws();
    GenericMessage().RoundTrip(m);
  }

  /** For every list of messages, empty ones included, decoding the encoding into a fresh value gives
      the same list in the same order. */
  lemma DataRoundTrip(ms: seq<Generic>)
    requires |DataMessage().Encode(ms)| <= MAX_INT
    ensures DataMessage().Decode(DataMessage().Encode(ms), []) == Ok(ms)
  {
    DataLaws();
    DataMessage().RoundTrip(ms);
  }

  /** The value of an object is what its fields hold, element by element. */
  lemma ObjectValues(m: TxResponseData, k: nat)
    ensures |m.Value()| == |m.Messages|
    ensures k < |m.Messages| ==> m.Value()[k] == Generic(m.Messages[k].Header, m.Messages[k].Data)
  {}

  /** The same for the objects: what Marshal writes, Unmarshal reads back into a fresh object, with the same fields in
      the same order. */
  method MarshalAndBack(m: TxResponseData) returns (err: Option<GoError>, r: TxResponseData)
    requires |DataMessage().Encode(m.Value())| <= MAX_INT
    ensures err == None && fresh(r) && r.Value() == old(m.Value())
    ensures |r.Messages| == |m.Messages|
    ensures forall k :: 0 <= k < |m.Messages| ==>
              r.Messages[k].Header == old(m.Messages[k].Header) && r.Messages[k].Data == old(m.Messages[k].Data)
  {
    ghost var before := m.Value();
    DataRoundTrip(m.Value());
    var dAtA := m.Marshal();
    r := new TxResponseData();
    err := r.Unmarshal(dAtA[..]);
    forall k | 0 <= k < |m.Messages|
      ensures r.Messages[k].Header == old(m.Messages[k].Header) && r.Messages[k].Data == old(m.Messages[k].Data)
    {
      assert before[k] == Generic(old(m.Messages[k].Header), old(m.Messages[k].Data));
      assert r.Value()[k] == before[k];
    }
  }

  /** Whatever bytes are accepted, the canonical form of what they mean is no longer than they are, and
      it means the same. */
  lemma DataCanonicalisation(s: seq<byte>)
    requires |s| <= MAX_INT && DataMessage().Decode(s, []).Ok?
    ensures var ms := DataMessage().Decode(s, []).value;
            && |DataMessage().Encode(ms)| <= |s|
            && DataMessage().Decode(DataMessage().Encode(ms), []) == Ok(ms)
  {
    DataLaws();
    DataMessage().Contraction(s, []);
    assert DataMessage().Encode([]) == [];
    DataMessage().RoundTrip(DataMessage().Decode(s, []).value);
  }

  /** Decoding two inputs one after the other is appending their lists. */
  lemma DataConcatenation(a: seq<byte>, b: seq<byte>, ms: seq<Generic>)
    requires DataMessage().Decode(a, ms).Ok?
    ensures DataMessage().Decode(a + b, ms) == DataMessage().Decode(b, DataMessage().Decode(a, ms).value)
  {
    DataLaws();
    DataMessage().ConcatIsMerge(a, b, ms);
  }

  /** A wire field with an unknown number, of any shape and depth, can be inserted at any field boundary. */
  lemma DataIgnoresUnknown(a: seq<byte>, t: Groups.Tree, b: seq<byte>, ms: seq<Generic>)
    requires IsField(t) && NumberOf(t) > 1 && DataMessage().Decode(a, ms).Ok?
    ensures DataMessage().Decode(a + Groups.Print(t) + b, ms) == DataMessage().Decode(a + b, ms)
  {
    UnknownFieldIsTransparent(DataMessage(), a, t, b, ms);
  }
}
