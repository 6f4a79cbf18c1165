/** What the fields of an input do to a message: the last one wins, all of them are kept, or they are merged. */
module Effects {
  import opened Sequences
  import opened Words
  import opened Outcomes
  import opened Messages
  import opened Fields
  import opened Embedded
  import opened TxResponse
  import opened Lists
  import opened EventStream
  import opened StreamResponse
  import opened Status

  // ---- A single field ----

  /** Decoding one written field is applying it; if its content is refused, `burst` is left. */
  lemma OneField<M(!new)>(x: Message<M>, f: Field, m: M)
    requires x.ReaderLaws() && x.Handles(f) && (f.BytesField? ==> |f.data| <= MAX_INT)
    ensures x.Ends(f.Encode(), m) ==
            match x.apply(m, f)
            case Ok(m') => Goal(Ok(m'), m')
            case Err(e) => Goal(Err(e), x.burst(m, f))
    ensures x.Decode(f.Encode(), m) == x.apply(m, f)
  {
    assert x.Reads(f, []);
    assert f.Encode() + [] == f.Encode() && f.Encode()[|f.Encode()|..] == [];
    x.LeftOfAccepted(f.Encode(), m);
  }

  /** The fields of an input are those that were written into it. */
  lemma {:induction false} FieldsOfEncoding<M(!new)>(x: Message<M>, fs: seq<Field>)
    requires x.ReaderLaws() && forall f :: f in fs ==> x.Handles(f) && (f.BytesField? ==> |f.data| <= MAX_INT)
    ensures x.FieldsIn(EncodeAll(fs)) == fs
    decreases |fs|
  {
    if fs != [] {
      var f, rest := fs[0], EncodeAll(fs[1..]);
      assert x.Reads(f, rest);
      DropFirst(f.Encode(), rest);
      FieldsOfEncoding(x, fs[1..]);
      assert fs == [f] + fs[1..];
    }
  }

  // ---- The last one wins ----

  /** Field k is the last one with its number. */
  ghost predicate IsLast(fs: seq<Field>, num: nat, k: int) {
    0 <= k < |fs| && fs[k].num == num && forall j :: k < j < |fs| ==> fs[j].num != num
  }

  ghost predicate IsAbsent(fs: seq<Field>, num: nat) {
    forall f :: f in fs ==> f.num != num
  }

  /** A field with this number sets what `get` reads, any other leaves it alone. */
  ghost predicate Sets<M(!new), V>(x: Message<M>, get: M -> V, num: nat, val: Field -> V, m: M, f: Field) {
    x.Handles(f) && x.apply(m, f).Ok? ==> get(x.apply(m, f).value) == if f.num == num then val(f) else get(m)
  }

  ghost predicate LastWins<M(!new), V(!new)>(get: M -> V, num: nat, val: Field -> V, fs: seq<Field>, m: M, r: M) {
    && (forall k :: IsLast(fs, num, k) ==> get(r) == val(fs[k]))
    && (IsAbsent(fs, num) ==> get(r) == get(m))
  }

  lemma {:induction false} LastOfFields<M(!new), V(!new)>(x: Message<M>, get: M -> V, num: nat, val: Field -> V,
                                                          fs: seq<Field>, m: M)
    requires forall m, f :: Sets(x, get, num, val, m, f)
    requires (forall f :: f in fs ==> x.Handles(f)) && x.Fold(fs, m).Ok?
    ensures LastWins(get, num, val, fs, m, x.Fold(fs, m).value)
    decreases |fs|
  {
    if fs != [] {
      var m', rest, r := x.apply(m, fs[0]).value, fs[1..], x.Fold(fs, m).value;
      assert fs == [fs[0]] + rest;
      LastOfFields(x, get, num, val, rest, m');
      assert Sets(x, get, num, val, m, fs[0]);
      forall k | IsLast(fs, num, k)
        ensures get(r) == val(fs[k])
      {
        if k > 0 {
          assert IsLast(rest, num, k - 1);
        } else {
          assert IsAbsent(rest, num);
        }
      }
    }
  }

  lemma LastOfInput<M(!new), V(!new)>(x: Message<M>, get: M -> V, num: nat, val: Field -> V, s: seq<byte>, m: M)
    requires x.ReaderLaws() && x.Decode(s, m).Ok?
    requires forall m, f :: Sets(x, get, num, val, m, f)
    ensures LastWins(get, num, val, x.FieldsIn(s), m, x.Decode(s, m).value)
    ensures forall f | f in x.FieldsIn(s) :: x.Handles(f)
  {
    x.DecodeIsFold(s, m);
    x.FieldsAreTight(s, m);
    LastOfFields(x, get, num, val, x.FieldsIn(s), m);
  }

  function DataOf(f: Field): seq<byte> {
    if f.BytesField? then f.data else []
  }

  function WordOf(f: Field): u64 {
    if f.IntField? then f.word else 0
  }

  /** The new content is that of the last field with the number, or the old one if there is none. */
  ghost predicate LastBytes(fs: seq<Field>, num: nat, old': seq<byte>, new': seq<byte>) {
    && (forall k :: IsLast(fs, num, k) ==> fs[k] == BytesField(num, new'))
    && (IsAbsent(fs, num) ==> new' == old')
  }

  ghost predicate LastWord(fs: seq<Field>, num: nat, old': u64, new': u64) {
    && (forall k :: IsLast(fs, num, k) ==> fs[k] == IntField(num, new'))
    && (IsAbsent(fs, num) ==> new' == old')
  }

  lemma LastBytesOfInput<M(!new)>(x: Message<M>, get: M -> seq<byte>, num: nat, s: seq<byte>, m: M)
    requires x.ReaderLaws() && x.Decode(s, m).Ok? && num in x.known && x.known[num] == 2
    requires forall m, f :: Sets(x, get, num, DataOf, m, f)
    ensures LastBytes(x.FieldsIn(s), num, get(m), get(x.Decode(s, m).value))
  {
    LastOfInput(x, get, num, DataOf, s, m);
    var fs := x.FieldsIn(s);
    forall k | IsLast(fs, num, k)
      ensures fs[k] == BytesField(num, get(x.Decode(s, m).value))
    {
      assert x.Handles(fs[k]);
    }
  }

  lemma LastWordOfInput<M(!new)>(x: Message<M>, get: M -> u64, num: nat, s: seq<byte>, m: M)
    requires x.ReaderLaws() && x.Decode(s, m).Ok? && num in x.known && x.known[num] == 0
    requires forall m, f :: Sets(x, get, num, WordOf, m, f)
    ensures LastWord(x.FieldsIn(s), num, get(m), get(x.Decode(s, m).value))
  {
    LastOfInput(x, get, num, WordOf, s, m);
    var fs := x.FieldsIn(s);
    forall k | IsLast(fs, num, k)
      ensures fs[k] == IntField(num, get(x.Decode(s, m).value))
    {
      assert x.Handles(fs[k]);
    }
  }

  /** After any accepted input, header and data are those of its last fields 1 and 2, or what was there. */
  lemma GenericLastWins(s: seq<byte>, m: Generic)
    requires GenericMessage().Decode(s, m).Ok?
    ensures var r, fs := GenericMessage().Decode(s, m).value, GenericMessage().FieldsIn(s);
            LastBytes(fs, 1, m.header, r.header) && LastBytes(fs, 2, m.data, r.data)
  {
    ReaderObeys(GenericMessage());
    GenericLast(GenericMessage(), s, m);
  }

  // The message type is a variable in the proofs, so that only what they need of it is looked at.

  lemma GenericLast(x: Message<Generic>, s: seq<byte>, m: Generic)
    requires x.ReaderLaws() && x.Decode(s, m).Ok? && x.known == GENERIC_KNOWN && x.apply == ApplyGeneric
    ensures var r, fs := x.Decode(s, m).value, x.FieldsIn(s);
            LastBytes(fs, 1, m.header, r.header) && LastBytes(fs, 2, m.data, r.data)
  {
    LastBytesOfInput(x, (m: Generic) => m.header, 1, s, m);
    LastBytesOfInput(x, (m: Generic) => m.data, 2, s, m);
  }

  lemma AnyEventLastWins<T(!new)>(any: SubCodec<T>, s: seq<byte>, m: AnyEventV<T>)
    requires AnyEventMessage(any).Decode(s, m).Ok?
    ensures var r, fs := AnyEventMessage(any).Decode(s, m).value, AnyEventMessage(any).FieldsIn(s);
            LastBytes(fs, 2, m.mod, r.mod)
  {
    var x := AnyEventMessage(any);
    ReaderObeys(x);
    AnyEventLast(any, x, s, m);
  }

  lemma AnyEventLast<T(!new)>(any: SubCodec<T>, x: Message<AnyEventV<T>>, s: seq<byte>, m: AnyEventV<T>)
    requires x.ReaderLaws() && x.Decode(s, m).Ok? && x.known == ANY_EVENT_KNOWN
    requires forall m, f :: x.apply(m, f) == ApplyAnyEvent(any, m, f)
    ensures LastBytes(x.FieldsIn(s), 2, m.mod, x.Decode(s, m).value.mod)
  {
    LastBytesOfInput(x, (m: AnyEventV<T>) => m.mod, 2, s, m);
  }

  lemma EventsLastWins<E(!new)>(sub: SubCodec<E>, s: seq<byte>, m: EventsV<E>)
    requires EventsMessage(sub).Decode(s, m).Ok?
    ensures var r, fs := EventsMessage(sub).Decode(s, m).value, EventsMessage(sub).FieldsIn(s);
            LastWord(fs, 1, m.height, r.height) && LastWord(fs, 2, m.time, r.time)
  {
    var x := EventsMessage(sub);
    ReaderObeys(x);
    EventsLast(sub, x, s, m);
  }

  lemma EventsLast<E(!new)>(sub: SubCodec<E>, x: Message<EventsV<E>>, s: seq<byte>, m: EventsV<E>)
    requires x.ReaderLaws() && x.Decode(s, m).Ok? && x.known == EVENTS_KNOWN
    requires forall m, f :: x.apply(m, f) == ApplyEvents(sub, m, f)
    ensures var r, fs := x.Decode(s, m).value, x.FieldsIn(s);
            LastWord(fs, 1, m.height, r.height) && LastWord(fs, 2, m.time, r.time)
  {
    LastWordOfInput(x, (m: EventsV<E>) => m.height, 1, s, m);
    LastWordOfInput(x, (m: EventsV<E>) => m.time, 2, s, m);
  }

  lemma SyncLastWins(s: seq<byte>, m: SyncStatusV)
    requires SyncMessage().Decode(s, m).Ok?
    ensures var r, fs := SyncMessage().Decode(s, m).value, SyncMessage().FieldsIn(s);
            && LastWord(fs, 1, m.lastBlock, r.lastBlock)
            && LastWord(fs, 2, FromInt64(m.lastBlockTime), FromInt64(r.lastBlockTime))
            && LastWord(fs, 3, FromInt64(m.updatedAt), FromInt64(r.updatedAt))
            && LastBytes(fs, 4, m.version, r.version)
  {
    var x := SyncMessage();
    ReaderObeys(x);
    SyncLast(x, s, m);
    SyncLastTime(x, 2, s, m);
    SyncLastTime(x, 3, s, m);
  }

  lemma SyncLast(x: Message<SyncStatusV>, s: seq<byte>, m: SyncStatusV)
    requires x.ReaderLaws() && x.Decode(s, m).Ok? && x.known == SYNC_KNOWN && x.apply == ApplySync
    ensures var r, fs := x.Decode(s, m).value, x.FieldsIn(s);
            LastWord(fs, 1, m.lastBlock, r.lastBlock) && LastBytes(fs, 4, m.version, r.version)
  {
    LastWordOfInput(x, (m: SyncStatusV) => m.lastBlock, 1, s, m);
    LastBytesOfInput(x, (m: SyncStatusV) => m.version, 4, s, m);
  }

  lemma SyncLastTime(x: Message<SyncStatusV>, num: nat, s: seq<byte>, m: SyncStatusV)
    requires x.ReaderLaws() && x.Decode(s, m).Ok? && x.known == SYNC_KNOWN && x.apply == ApplySync
    requires num == 2 || num == 3
    ensures var r, fs := x.Decode(s, m).value, x.FieldsIn(s);
            if num == 2 then LastWord(fs, 2, FromInt64(m.lastBlockTime), FromInt64(r.lastBlockTime))
            else LastWord(fs, 3, FromInt64(m.updatedAt), FromInt64(r.updatedAt))
  {
    var get := if num == 2 then (m: SyncStatusV) => FromInt64(m.lastBlockTime)
               else (m: SyncStatusV) => FromInt64(m.updatedAt);
    LastWordOfInput(x, get, num, s, m);
  }

  lemma NewBlockLastWins<E(!new)>(blocks: SubCodec<E>, s: seq<byte>, m: NewBlockV<E>)
    requires NewBlockMessage(blocks).Decode(s, m).Ok?
    ensures var r, fs := NewBlockMessage(blocks).Decode(s, m).value, NewBlockMessage(blocks).FieldsIn(s);
            LastWins((m: NewBlockV<E>) => m.op, 1, f => ToInt32(WordOf(f)), fs, m, r)
  {
    var x := NewBlockMessage(blocks);
    ReaderObeys(x);
    NewBlockLast(blocks, x, s, m);
  }

  lemma NewBlockLast<E(!new)>(blocks: SubCodec<E>, x: Message<NewBlockV<E>>, s: seq<byte>, m: NewBlockV<E>)
    requires x.ReaderLaws() && x.Decode(s, m).Ok? && x.known == NEW_BLOCK_KNOWN
    requires forall m, f :: x.apply(m, f) == ApplyNewBlock(blocks, m, f)
    ensures LastWins((m: NewBlockV<E>) => m.op, 1, f => ToInt32(WordOf(f)), x.FieldsIn(s), m, x.Decode(s, m).value)
  {
    LastOfInput(x, (m: NewBlockV<E>) => m.op, 1, f => ToInt32(WordOf(f)), s, m);
  }

  // ---- All of them are kept ----

  lemma {:induction false} ContentsSnoc(num: nat, fs: seq<Field>, f: Field)
    ensures ContentsOf(num, fs + [f]) ==
            ContentsOf(num, fs) + (if f.BytesField? && f.num == num then [f.data] else [])
  {
    if fs == [] {
      assert fs + [f] == [f];
      ContentsStep(num, [f]);
      assert [f][1..] == [];
    } else {
      assert (fs + [f])[1..] == fs[1..] + [f];
      ContentsSnoc(num, fs[1..], f);
    }
  }

  /** A field with this number appends its content, any other leaves the list alone. */
  ghost predicate Appends<M(!new), V(!new)>(x: Message<M>, get: M -> seq<V>, num: nat,
                                            dec: seq<byte> -> Result<V>, m: M, f: Field)
  {
    x.Handles(f) && x.apply(m, f).Ok? ==>
      var r := x.apply(m, f).value;
      if f.BytesField? && f.num == num then dec(f.data).Ok? && get(r) == get(m) + [dec(f.data).value]
      else get(r) == get(m)
  }

  /** The list r is the list old, and behind it what each of the contents decodes to. */
  ghost predicate Extends<V(!new)>(old': seq<V>, dec: seq<byte> -> Result<V>, ds: seq<seq<byte>>, r: seq<V>) {
    && |r| == |old'| + |ds| && r[..|old'|] == old'
    && forall k :: 0 <= k < |ds| ==> dec(ds[k]) == Ok(r[|old'| + k])
  }

  lemma ExtendsFirst<V(!new)>(old': seq<V>, v: V, dec: seq<byte> -> Result<V>, d: seq<byte>, ds: seq<seq<byte>>,
                              r: seq<V>)
    requires dec(d) == Ok(v) && Extends(old' + [v], dec, ds, r)
    ensures Extends(old', dec, [d] + ds, r)
  {
    assert r[..|old'|] == r[..|old'| + 1][..|old'|];
    assert r[|old'|] == r[..|old'| + 1][|old'|];
    forall k | 0 <= k < |ds| + 1
      ensures dec(([d] + ds)[k]) == Ok(r[|old'| + k])
    {
      if k > 0 {
        assert ([d] + ds)[k] == ds[k - 1];
      }
    }
  }

  lemma {:induction false} AllOfFields<M(!new), V(!new)>(x: Message<M>, get: M -> seq<V>, num: nat,
                                                         dec: seq<byte> -> Result<V>, fs: seq<Field>, m: M)
    requires forall m, f :: Appends(x, get, num, dec, m, f)
    requires (forall f :: f in fs ==> x.Handles(f)) && x.Fold(fs, m).Ok?
    ensures Extends(get(m), dec, ContentsOf(num, fs), get(x.Fold(fs, m).value))
    decreases |fs|
  {
    if fs != [] {
      var f, rest := fs[0], fs[1..];
      assert fs == [f] + rest;
      AllOfFields(x, get, num, dec, rest, x.apply(m, f).value);
      assert Appends(x, get, num, dec, m, f);
      ContentsStep(num, fs);
      if f.BytesField? && f.num == num {
        ExtendsFirst(get(m), dec(f.data).value, dec, f.data, ContentsOf(num, rest), get(x.Fold(fs, m).value));
      }
    }
  }

  lemma AllOfInput<M(!new), V(!new)>(x: Message<M>, get: M -> seq<V>, num: nat, dec: seq<byte> -> Result<V>,
                                     s: seq<byte>, m: M)
    requires x.ReaderLaws() && x.Decode(s, m).Ok?
    requires forall m, f :: Appends(x, get, num, dec, m, f)
    ensures Extends(get(m), dec, ContentsOf(num, x.FieldsIn(s)), get(x.Decode(s, m).value))
  {
    x.DecodeIsFold(s, m);
    x.FieldsAreTight(s, m);
    AllOfFields(x, get, num, dec, x.FieldsIn(s), m);
  }

  /** Into any list: the old elements stay in front, and each occurrence appends what it decodes to. */
  lemma ListKeepsAll<T(!new)>(sub: SubCodec<T>, s: seq<byte>, xs: seq<T>)
    requires ListMessage(sub).Decode(s, xs).Ok?
    ensures Extends(xs, d => sub.dec(d, sub.empty), ContentsOf(1, ListMessage(sub).FieldsIn(s)),
                    ListMessage(sub).Decode(s, xs).value)
  {
    var x := ListMessage(sub);
    ReaderObeys(x);
    AllOfInput(x, (m: seq<T>) => m, 1, d => sub.dec(d, sub.empty), s, xs);
  }

  /** The four repeated fields of an EventsResponse, each in its order. */
  lemma EventsKeepsAll<E(!new)>(sub: SubCodec<E>, s: seq<byte>, m: EventsV<E>)
    requires EventsMessage(sub).Decode(s, m).Ok?
    ensures var r, fs := EventsMessage(sub).Decode(s, m).value, EventsMessage(sub).FieldsIn(s);
            && r.modules == m.modules + ContentsOf(3, fs)
            && r.tmQueries == m.tmQueries + ContentsOf(5, fs)
            && r.tmData == m.tmData + ContentsOf(6, fs)
            && Extends(m.events, d => sub.dec(d, sub.empty), ContentsOf(4, fs), r.events)
  {
    var x := EventsMessage(sub);
    ReaderObeys(x);
    StringsKept(sub, x, s, m);
    EventsKept(sub, x, s, m);
  }

  lemma EventsKept<E(!new)>(sub: SubCodec<E>, x: Message<EventsV<E>>, s: seq<byte>, m: EventsV<E>)
    requires x.ReaderLaws() && x.Decode(s, m).Ok? && x.known == EVENTS_KNOWN
    requires forall m, f :: x.apply(m, f) == ApplyEvents(sub, m, f)
    ensures Extends(m.events, d => sub.dec(d, sub.empty), ContentsOf(4, x.FieldsIn(s)), x.Decode(s, m).value.events)
  {
    AllOfInput(x, (m: EventsV<E>) => m.events, 4, d => sub.dec(d, sub.empty), s, m);
  }

  lemma StringsKept<E(!new)>(sub: SubCodec<E>, x: Message<EventsV<E>>, s: seq<byte>, m: EventsV<E>)
    requires x.ReaderLaws() && x.Decode(s, m).Ok? && x.known == EVENTS_KNOWN
    requires forall m, f :: x.apply(m, f) == ApplyEvents(sub, m, f)
    ensures var r, fs := x.Decode(s, m).value, x.FieldsIn(s);
            && r.modules == m.modules + ContentsOf(3, fs)
            && r.tmQueries == m.tmQueries + ContentsOf(5, fs)
            && r.tmData == m.tmData + ContentsOf(6, fs)
  {
    AllOfInput(x, (m: EventsV<E>) => m.modules, 3, (d: seq<byte>) => Ok(d), s, m);
    AllOfInput(x, (m: EventsV<E>) => m.tmQueries, 5, (d: seq<byte>) => Ok(d), s, m);
    AllOfInput(x, (m: EventsV<E>) => m.tmData, 6, (d: seq<byte>) => Ok(d), s, m);
    var r, fs := x.Decode(s, m).value, x.FieldsIn(s);
    ExtendsByItself(m.modules, ContentsOf(3, fs), r.modules);
    ExtendsByItself(m.tmQueries, ContentsOf(5, fs), r.tmQueries);
    ExtendsByItself(m.tmData, ContentsOf(6, fs), r.tmData);
  }

  lemma ExtendsByItself(old': seq<seq<byte>>, ds: seq<seq<byte>>, r: seq<seq<byte>>)
    requires Extends(old', (d: seq<byte>) => Ok(d), ds, r)
    ensures r == old' + ds
  {
    forall k | 0 <= k < |ds|
      ensures r[|old'| + k] == ds[k]
    {
      assert Ok(ds[k]) == Ok(r[|old'| + k]);
    }
  }

  // ---- They are merged ----

  /** An Any that occurs several times is merged in the order of the occurrences, into the one that was there. */
  lemma {:induction false} AnyEventFolds<T(!new)>(any: SubCodec<T>, fs: seq<Field>, m: AnyEventV<T>)
    requires AnyEventMessage(any).Fold(fs, m).Ok?
    ensures MergeAll(any, m.data, ContentsOf(3, fs)) == Ok(AnyEventMessage(any).Fold(fs, m).value.data)
    decreases |fs|
  {
    if fs != [] {
      AnyEventFolds(any, fs[1..], ApplyAnyEvent(any, m, fs[0]).value);
      ContentsStep(3, fs);
    }
  }

  lemma AnyEventMerges<T(!new)>(any: SubCodec<T>, s: seq<byte>, m: AnyEventV<T>)
    requires AnyEventMessage(any).Decode(s, m).Ok?
    ensures var x := AnyEventMessage(any);
            MergeAll(any, m.data, ContentsOf(3, x.FieldsIn(s))) == Ok(x.Decode(s, m).value.data)
  {
    var x := AnyEventMessage(any);
    x.DecodeIsFold(s, m);
    AnyEventFolds(any, x.FieldsIn(s), m);
  }
}
