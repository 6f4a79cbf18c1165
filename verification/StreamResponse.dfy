/** EventsResponse of chain/eventstream/types/query.pb.go as a value: numbers, repeated strings, and three
    levels of nested messages. */
module StreamResponse {
  import opened Words
  import opened Outcomes
  import opened Messages
  import opened Fields
  import opened Parts
  import opened Lists
  import opened EventStream

  type Strings = seq<seq<byte>>

  datatype EventsV<E> = EventsV(
    height: u64,
    time: u64,
    modules: Strings,
    events: seq<E>,
    tmQueries: Strings,
    tmData: Strings
  )

  const EVENTS_KNOWN: map<int, nat> := map[1 := 0, 2 := 0, 3 := 2, 4 := 2, 5 := 2, 6 := 2]

  /** Numbers take the last value, repeated fields append. */
  function ApplyEvents<E(!new)>(sub: SubCodec<E>, m: EventsV<E>, f: Field): Result<EventsV<E>> {
    match f
    case IntField(1, v) => Ok(m.(height := v))
    case IntField(2, v) => Ok(m.(time := v))
    case BytesField(4, d) =>
      var e :- sub.dec(d, sub.empty);
      Ok(m.(events := m.events + [e]))
    case BytesField(k, d) => Ok(AddStrings(m, k, [d]))
    case _ => Ok(m)
  }

  function AddStrings<E>(m: EventsV<E>, num: nat, ds: Strings): EventsV<E> {
    if num == 3 then m.(modules := m.modules + ds)
    else if num == 5 then m.(tmQueries := m.tmQueries + ds)
    else if num == 6 then m.(tmData := m.tmData + ds)
    else m
  }

  function EventsHead<E(!new)>(sub: SubCodec<E>, m: EventsV<E>): seq<Field> {
    (OptInt(1, m.height) + OptInt(2, m.time)) + RepBytes(3, m.modules)
  }

  function EventsTail<E(!new)>(sub: SubCodec<E>, m: EventsV<E>): seq<Field> {
    RepSub(4, sub, m.events) + (RepBytes(5, m.tmQueries) + RepBytes(6, m.tmData))
  }

  function EventsFields<E(!new)>(sub: SubCodec<E>, m: EventsV<E>): seq<Field> {
    EventsHead(sub, m) + EventsTail(sub, m)
  }

  function BurstEvents<E(!new)>(sub: SubCodec<E>, m: EventsV<E>, f: Field): EventsV<E> {
    if f.BytesField? && f.num == 4 then m.(events := m.events + [sub.left(f.data, sub.empty)]) else m
  }

  function EventsMessage<E(!new)>(sub: SubCodec<E>): Message<EventsV<E>> {
    var apply := (m, f) => ApplyEvents(sub, m, f);
    Message(EVENTS_KNOWN, ReaderOf(EVENTS_KNOWN), EventsV(0, 0, [], [], [], []), apply, m => EventsFields(sub, m),
            SpoilOf(EVENTS_KNOWN, apply), (m, f) => BurstEvents(sub, m, f))
  }

  lemma EventsEncoding<E(!new)>(sub: SubCodec<E>, m: EventsV<E>)
    ensures EventsMessage(sub).Encode(m) ==
            EncodeAll(OptInt(1, m.height)) + EncodeAll(OptInt(2, m.time)) + EncodeAll(RepBytes(3, m.modules)) +
            (EncodeAll(RepSub(4, sub, m.events)) +
             (EncodeAll(RepBytes(5, m.tmQueries)) + EncodeAll(RepBytes(6, m.tmData))))
  {
    EncodeAllAppend(EventsHead(sub, m), EventsTail(sub, m));
    EncodeAllAppend(OptInt(1, m.height) + OptInt(2, m.time), RepBytes(3, m.modules));
    EncodeAllAppend(OptInt(1, m.height), OptInt(2, m.time));
    EncodeAllAppend(RepSub(4, sub, m.events), RepBytes(5, m.tmQueries) + RepBytes(6, m.tmData));
    EncodeAllAppend(RepBytes(5, m.tmQueries), RepBytes(6, m.tmData));
  }

  lemma EventsHandled<E(!new)>(sub: SubCodec<E>, m: EventsV<E>)
    ensures EventsMessage(sub).Handled(m)
  {
    forall f | f in EventsFields(sub, m)
      ensures EventsMessage(sub).Handles(f)
    {
      EventsFieldIsKnown(sub, m, f);
    }
  }

  lemma EventsFieldIsKnown<E(!new)>(sub: SubCodec<E>, m: EventsV<E>, f: Field)
    requires f in EventsFields(sub, m)
    ensures if f.IntField? then f.num in {1, 2} else f.num in {3, 4, 5, 6}
  {}

  // ---- Rebuilding, segment by segment ----

  lemma {:induction false} StringsFold<E(!new)>(sub: SubCodec<E>, num: nat, ds: Strings, m: EventsV<E>)
    requires num in {3, 5, 6}
    ensures EventsMessage(sub).Fold(RepBytes(num, ds), m) == Ok(AddStrings(m, num, ds))
    decreases |ds|
  {
    if ds == [] {
      assert m.modules + [] == m.modules && m.tmQueries + [] == m.tmQueries && m.tmData + [] == m.tmData;
    } else {
      var fs := RepBytes(num, ds);
      assert fs[0] == BytesField(num, ds[0]) && fs[1..] == RepBytes(num, ds[1..]);
      var m' := AddStrings(m, num, [ds[0]]);
      StringsFold(sub, num, ds[1..], m');
      AddStringsTwice(m, num, ds);
    }
  }

  lemma AddStringsTwice<E>(m: EventsV<E>, num: nat, ds: Strings)
    requires ds != []
    ensures AddStrings(AddStrings(m, num, [ds[0]]), num, ds[1..]) == AddStrings(m, num, ds)
  {
    assert [ds[0]] + ds[1..] == ds;
    assert m.modules + [ds[0]] + ds[1..] == m.modules + ds;
    assert m.tmQueries + [ds[0]] + ds[1..] == m.tmQueries + ds;
    assert m.tmData + [ds[0]] + ds[1..] == m.tmData + ds;
  }

  lemma {:induction false} EventsFold<E(!new)>(sub: SubCodec<E>, es: seq<E>, m: EventsV<E>)
    requires sub.Lawful()
    requires forall e | e in es :: |sub.enc(e)| <= MAX_INT
    ensures EventsMessage(sub).Fold(RepSub(4, sub, es), m) == Ok(m.(events := m.events + es))
    decreases |es|
  {
    if es == [] {
      assert m.events + es == m.events;
    } else {
      var fs := RepSub(4, sub, es);
      assert fs[0] == BytesField(4, sub.enc(es[0])) && fs[1..] == RepSub(4, sub, es[1..]);
      assert sub.RoundTrips(es[0]);
      var m' := m.(events := m.events + [es[0]]);
      EventsFold(sub, es[1..], m');
      assert m'.events + es[1..] == m.events + es;
    }
  }

  lemma NumbersFold<E(!new)>(sub: SubCodec<E>, m: EventsV<E>)
    ensures EventsMessage(sub).Fold(OptInt(1, m.height) + OptInt(2, m.time), EventsMessage(sub).empty) ==
            Ok(EventsV(m.height, m.time, [], [], [], []))
  {
    var x := EventsMessage(sub);
    if m.height != 0 {
      FoldOne(x, IntField(1, m.height), x.empty);
    }
    FoldAppend(x, OptInt(1, m.height), OptInt(2, m.time), x.empty);
    if m.time != 0 {
      FoldOne(x, IntField(2, m.time), EventsV(m.height, 0, [], [], [], []));
    }
  }

  lemma HeadFolds<E(!new)>(sub: SubCodec<E>, m: EventsV<E>)
    ensures EventsMessage(sub).Fold(EventsHead(sub, m), EventsMessage(sub).empty) ==
            Ok(EventsV(m.height, m.time, m.modules, [], [], []))
  {
    var x := EventsMessage(sub);
    NumbersFold(sub, m);
    FoldAppend(x, OptInt(1, m.height) + OptInt(2, m.time), RepBytes(3, m.modules), x.empty);
    StringsFold(sub, 3, m.modules, EventsV(m.height, m.time, [], [], [], []));
    assert [] + m.modules == m.modules;
  }

  lemma TailFolds<E(!new)>(sub: SubCodec<E>, m: EventsV<E>)
    requires sub.Lawful()
    requires forall e | e in m.events :: |sub.enc(e)| <= MAX_INT
    ensures EventsMessage(sub).Fold(EventsTail(sub, m), EventsV(m.height, m.time, m.modules, [], [], [])) == Ok(m)
  {
    var x := EventsMessage(sub);
    var m0 := EventsV(m.height, m.time, m.modules, [], [], []);
    var m1, m2 := m0.(events := m.events), m0.(events := m.events, tmQueries := m.tmQueries);
    EventsFold(sub, m.events, m0);
    assert [] + m.events == m.events && [] + m.tmQueries == m.tmQueries && [] + m.tmData == m.tmData;
    FoldAppend(x, RepSub(4, sub, m.events), RepBytes(5, m.tmQueries) + RepBytes(6, m.tmData), m0);
    StringsFold(sub, 5, m.tmQueries, m1);
    FoldAppend(x, RepBytes(5, m.tmQueries), RepBytes(6, m.tmData), m1);
    StringsFold(sub, 6, m.tmData, m2);
  }

  lemma EventsRebuilds<E(!new)>(sub: SubCodec<E>, m: EventsV<E>)
    requires sub.Lawful()
    ensures EventsMessage(sub).Handled(m) && EventsMessage(sub).Rebuilds(m)
  {
    var x := EventsMessage(sub);
    EventsHandled(sub, m);
    if |x.Encode(m)| <= MAX_INT {
      EventsEncoding(sub, m);
      ElementFits(4, EncodeEach(sub, m.events));
      EachIsThere(sub, m.events, MAX_INT);
      HeadFolds(sub, m);
      TailFolds(sub, m);
      FoldAppend(x, EventsHead(sub, m), EventsTail(sub, m), x.empty);
    }
  }

  // ---- Sizes ----

  function EventsSize<E(!new)>(sub: SubCodec<E>, m: EventsV<E>): nat {
    |EncodeAll(OptInt(1, m.height))| + |EncodeAll(OptInt(2, m.time))| + |EncodeAll(RepBytes(3, m.modules))| +
    |EncodeAll(RepSub(4, sub, m.events))| +
    |EncodeAll(RepBytes(5, m.tmQueries))| + |EncodeAll(RepBytes(6, m.tmData))|
  }

  lemma EventsSizeIs<E(!new)>(sub: SubCodec<E>, m: EventsV<E>)
    ensures |EventsMessage(sub).Encode(m)| == EventsSize(sub, m)
  {
    EventsEncoding(sub, m);
  }

  lemma EventsShrinks<E(!new)>(sub: SubCodec<E>, m: EventsV<E>, f: Field)
    requires sub.Lawful()
    ensures EventsMessage(sub).Shrinks(m, f)
  {
    var x := EventsMessage(sub);
    if x.Handles(f) && ApplyEvents(sub, m, f).Ok? {
      EventsSizeIs(sub, m);
      EventsSizeIs(sub, ApplyEvents(sub, m, f).value);
      if f.IntField? {
        OptIntSize(f.num, f.word);
      } else if f.num == 3 {
        RepBytesSnoc(3, m.modules, f.data);
      } else if f.num == 4 {
        DecodedFieldShrinks(4, sub, f.data);
        RepSubSnoc(4, sub, m.events, sub.dec(f.data, sub.empty).value);
      } else if f.num == 5 {
        RepBytesSnoc(5, m.tmQueries, f.data);
      } else {
        RepBytesSnoc(6, m.tmData, f.data);
      }
    }
  }

  lemma EventsLaws<E(!new)>(sub: SubCodec<E>)
    requires sub.Lawful()
    ensures EventsMessage(sub).MessageLaws()
  {
    var x := EventsMessage(sub);
    ReaderObeys(x);
    forall m
      ensures x.Handled(m) && x.Rebuilds(m)
    {
      EventsRebuilds(sub, m);
    }
    forall m, f
      ensures x.Shrinks(m, f)
    {
      EventsShrinks(sub, m, f);
    }
  }

  // ---- With ModuleEvents as the embedded message ----

  function EventsResponseMessage<T(!new)>(any: SubCodec<T>): Message<EventsV<seq<AnyEventV<T>>>> {
    EventsMessage(ModuleEventsCodec(any))
  }

  lemma EventsResponseLaws<T(!new)>(any: SubCodec<T>)
    requires any.Lawful()
    ensures EventsResponseMessage(any).MessageLaws()
  {
    ModuleEventsLaws(any);
    EventsLaws(ModuleEventsCodec(any));
  }

  /** Three levels of nesting come back as they were, for every lawful codec of the embedded Any. */
  lemma EventsRoundTrip<T(!new)>(any: SubCodec<T>, m: EventsV<seq<AnyEventV<T>>>)
    requires any.Lawful() && |EventsResponseMessage(any).Encode(m)| <= MAX_INT
    ensures var x := EventsResponseMessage(any); x.Decode(x.Encode(m), x.empty) == Ok(m)
  {
    EventsResponseLaws(any);
    EventsResponseMessage(any).RoundTrip(m);
  }

  /** The canonical form of accepted bytes is no longer than they are, and means the same. */
  lemma EventsCanonicalisation<T(!new)>(any: SubCodec<T>, s: seq<byte>)
    requires any.Lawful() && |s| <= MAX_INT
    requires EventsResponseMessage(any).Decode(s, EventsResponseMessage(any).empty).Ok?
    ensures var x := EventsResponseMessage(any);
            var m := x.Decode(s, x.empty).value;
            |x.Encode(m)| <= |s| && x.Decode(x.Encode(m), x.empty) == Ok(m)
  {
    var x := EventsResponseMessage(any);
    EventsResponseLaws(any);
    x.Contraction(s, x.empty);
    assert x.Encode(x.empty) == [];
    x.RoundTrip(x.Decode(s, x.empty).value);
  }
}
