/** chain/eventstream/types/query.pb.go, the messages as values: what their fields do and what they write.
    The embedded types of other packages (Any, BlockID, Block) are codecs passed as parameters. */
module EventStream {
  import opened Words
  import opened Outcomes
  import opened Messages
  import opened Fields
  import opened Parts
  import opened Lists
  import opened Embedded

  // ---- AnyEvent ----

  datatype AnyEventV<T> = AnyEventV(mod: seq<byte>, data: Option<T>)

  const ANY_EVENT_KNOWN: map<int, nat> := map[2 := 2, 3 := 2]

  function ApplyAnyEvent<T(!new)>(any: SubCodec<T>, m: AnyEventV<T>, f: Field): Result<AnyEventV<T>> {
    match f
    case BytesField(2, d) => Ok(m.(mod := d))
    case BytesField(3, d) =>
      var data :- any.dec(d, OrEmpty(any, m.data));
      Ok(m.(data := Some(data)))
    case _ => Ok(m)
  }

  function BurstAnyEvent<T(!new)>(any: SubCodec<T>, m: AnyEventV<T>, f: Field): AnyEventV<T> {
    if f.BytesField? && f.num == 3 then m.(data := Some(any.left(f.data, OrEmpty(any, m.data)))) else m
  }

  function AnyEventFields<T(!new)>(any: SubCodec<T>, m: AnyEventV<T>): seq<Field> {
    OptBytes(2, m.mod) + OptSub(3, any, m.data)
  }

  function AnyEventMessage<T(!new)>(any: SubCodec<T>): Message<AnyEventV<T>> {
    var apply := (m, f) => ApplyAnyEvent(any, m, f);
    Message(ANY_EVENT_KNOWN, ReaderOf(ANY_EVENT_KNOWN), AnyEventV([], None), apply, m => AnyEventFields(any, m),
            SpoilOf(ANY_EVENT_KNOWN, apply), (m, f) => BurstAnyEvent(any, m, f))
  }

  lemma AnyEventEncoding<T(!new)>(any: SubCodec<T>, m: AnyEventV<T>)
    ensures AnyEventMessage(any).Encode(m) == EncodeAll(OptBytes(2, m.mod)) + EncodeAll(OptSub(3, any, m.data))
  {
    EncodeAllAppend(OptBytes(2, m.mod), OptSub(3, any, m.data));
  }

  lemma AnyEventRebuilds<T(!new)>(any: SubCodec<T>, m: AnyEventV<T>)
    requires any.Lawful()
    ensures AnyEventMessage(any).Handled(m) && AnyEventMessage(any).Rebuilds(m)
  {
    var x := AnyEventMessage(any);
    if |x.Encode(m)| <= MAX_INT {
      AnyEventEncoding(any, m);
      if m.mod != [] {
        FoldOne(x, BytesField(2, m.mod), x.empty);
      }
      FoldAppend(x, OptBytes(2, m.mod), OptSub(3, any, m.data), x.empty);
      if m.data.Some? {
        OptSubFits(3, any, m.data.value);
        FoldOne(x, BytesField(3, any.enc(m.data.value)), AnyEventV(m.mod, None));
      }
    }
  }

  lemma AnyEventShrinks<T(!new)>(any: SubCodec<T>, m: AnyEventV<T>, f: Field)
    requires any.Lawful()
    ensures AnyEventMessage(any).Shrinks(m, f)
  {
    var x := AnyEventMessage(any);
    if x.Handles(f) && ApplyAnyEvent(any, m, f).Ok? {
      AnyEventEncoding(any, m);
      AnyEventEncoding(any, ApplyAnyEvent(any, m, f).value);
      if f.num == 2 {
        OptBytesSize(2, f.data);
      } else {
        OptSubShrinks(3, any, m.data, f.data);
      }
    }
  }

  lemma AnyEventLaws<T(!new)>(any: SubCodec<T>)
    requires any.Lawful()
    ensures AnyEventMessage(any).MessageLaws()
  {
    var x := AnyEventMessage(any);
    ReaderObeys(x);
    forall m
      ensures x.Handled(m) && x.Rebuilds(m)
    {
      AnyEventRebuilds(any, m);
    }
    forall m, f
      ensures x.Shrinks(m, f)
    {
      AnyEventShrinks(any, m, f);
    }
  }

  /** Two occurrences of an embedded message mean the same as one that holds both contents. */
  lemma EmbeddedMessagesMerge<T(!new)>(any: SubCodec<T>, m: AnyEventV<T>, p: seq<byte>, q: seq<byte>)
    requires any.Lawful() && ApplyAnyEvent(any, m, BytesField(3, p)).Ok?
    ensures AnyEventMessage(any).Fold([BytesField(3, p), BytesField(3, q)], m) ==
            AnyEventMessage(any).Fold([BytesField(3, p + q)], m)
  {
    var x := AnyEventMessage(any);
    var f, g := BytesField(3, p), BytesField(3, q);
    FoldAppend(x, [f], [g], m);
    FoldOne(x, f, m);
    FoldOne(x, g, ApplyAnyEvent(any, m, f).value);
    FoldOne(x, BytesField(3, p + q), m);
    assert [f, g] == [f] + [g];
    assert any.Merges(p, q, OrEmpty(any, m.data));
  }

  // ---- ModuleEvents ----

  function AnyEventCodec<T(!new)>(any: SubCodec<T>): SubCodec<AnyEventV<T>> {
    SubOf(AnyEventMessage(any))
  }

  function ModuleEventsMessage<T(!new)>(any: SubCodec<T>): Message<seq<AnyEventV<T>>> {
    ListMessage(AnyEventCodec(any))
  }

  function ModuleEventsCodec<T(!new)>(any: SubCodec<T>): SubCodec<seq<AnyEventV<T>>> {
    SubOf(ModuleEventsMessage(any))
  }

  lemma ModuleEventsLaws<T(!new)>(any: SubCodec<T>)
    requires any.Lawful()
    ensures ModuleEventsMessage(any).MessageLaws() && ModuleEventsCodec(any).Lawful()
  {
    AnyEventLaws(any);
    SubIsLawful(AnyEventMessage(any));
    ListLaws(AnyEventCodec(any));
    SubIsLawful(ModuleEventsMessage(any));
  }

  /** AnyEvent and ModuleEvents come back as they were. */
  lemma AnyEventRoundTrip<T(!new)>(any: SubCodec<T>, m: AnyEventV<T>)
    requires any.Lawful() && |AnyEventMessage(any).Encode(m)| <= MAX_INT
    ensures AnyEventMessage(any).Decode(AnyEventMessage(any).Encode(m), AnyEventV([], None)) == Ok(m)
  {
    AnyEventLaws(any);
    AnyEventMessage(any).RoundTrip(m);
  }

  lemma ModuleEventsRoundTrip<T(!new)>(any: SubCodec<T>, es: seq<AnyEventV<T>>)
    requires any.Lawful() && |ModuleEventsMessage(any).Encode(es)| <= MAX_INT
    ensures ModuleEventsMessage(any).Decode(ModuleEventsMessage(any).Encode(es), []) == Ok(es)
  {
    ModuleEventsLaws(any);
    ModuleEventsMessage(any).RoundTrip(es);
  }
}
