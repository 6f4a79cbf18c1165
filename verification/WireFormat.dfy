/** The wire format of the messages in bytes: what each field is written as, and what reading it does. */
module WireFormat {
  import opened Words
  import opened Outcomes
  import opened Varint
  import opened Groups
  import opened Skip
  import opened Messages
  import opened Fields
  import opened Parts
  import opened Lists
  import opened Embedded
  import opened TxResponse
  import opened EventStream
  import opened StreamResponse
  import opened Status
  import opened Effects

  // ---- Fields in bytes ----

  /** A length-delimited field: one byte of tag, the length, the content. */
  function Piece(tag: byte, d: seq<byte>): seq<byte> {
    [tag] + EncVarint(|d|) + d
  }

  /** A number field. */
  function Number(tag: byte, v: u64): seq<byte> {
    [tag] + EncVarint(v)
  }

  /** The same for what is not written when it is empty, zero or absent. */
  function OptionalPiece(tag: byte, d: seq<byte>): seq<byte> {
    if d == [] then [] else Piece(tag, d)
  }

  function OptionalNumber(tag: byte, v: u64): seq<byte> {
    if v == 0 then [] else Number(tag, v)
  }

  function OptionalMessage<T(!new)>(tag: byte, sub: SubCodec<T>, x: Option<T>): seq<byte> {
    if x.None? then [] else Piece(tag, sub.enc(x.value))
  }

  function Pieces(tag: byte, ds: seq<seq<byte>>): seq<byte> {
    if ds == [] then [] else Piece(tag, ds[0]) + Pieces(tag, ds[1..])
  }

  lemma PieceOf(num: nat, d: seq<byte>)
    requires num <= 15
    ensures BytesField(num, d).Encode() == Piece(num * 8 + 2, d)
  {
    HeadOfBytesField(num, d);
  }

  lemma NumberOfField(num: nat, v: u64)
    requires num <= 15
    ensures IntField(num, v).Encode() == Number(num * 8, v)
  {
    OneByteTag(num * 8);
  }

  lemma OptPiece(num: nat, d: seq<byte>)
    requires num <= 15
    ensures EncodeAll(OptBytes(num, d)) == OptionalPiece(num * 8 + 2, d)
  {
    PieceOf(num, d);
    EncodeOne(BytesField(num, d));
  }

  lemma OptNumber(num: nat, v: u64)
    requires num <= 15
    ensures EncodeAll(OptInt(num, v)) == OptionalNumber(num * 8, v)
  {
    NumberOfField(num, v);
    EncodeOne(IntField(num, v));
  }

  lemma OptMessage<T(!new)>(num: nat, sub: SubCodec<T>, x: Option<T>)
    requires num <= 15
    ensures EncodeAll(OptSub(num, sub, x)) == OptionalMessage(num * 8 + 2, sub, x)
  {
    if x.Some? {
      PieceOf(num, sub.enc(x.value));
      EncodeOne(BytesField(num, sub.enc(x.value)));
    }
  }

  lemma {:induction false} RepPieces(num: nat, ds: seq<seq<byte>>)
    requires num <= 15
    ensures EncodeAll(RepBytes(num, ds)) == Pieces(num * 8 + 2, ds)
  {
    if ds != [] {
      PieceOf(num, ds[0]);
      RepPieces(num, ds[1..]);
      assert RepBytes(num, ds)[1..] == RepBytes(num, ds[1..]);
    }
  }

  /** What each element is written as. */
  function Each<T(!new)>(sub: SubCodec<T>, xs: seq<T>): seq<seq<byte>> {
    seq(|xs|, i requires 0 <= i < |xs| => sub.enc(xs[i]))
  }

  lemma EachIs<T(!new)>(sub: SubCodec<T>, xs: seq<T>)
    ensures EncodeEach(sub, xs) == Each(sub, xs)
  {
    forall k | 0 <= k < |xs|
      ensures EncodeEach(sub, xs)[k] == sub.enc(xs[k])
    {
      EncodeEachAt(sub, xs, k);
    }
  }

  // ---- What is written ----

  /** Header is field 1 and Data field 2; empty ones are not written. */
  lemma GenericBytes(h: seq<byte>, d: seq<byte>)
    ensures GenericMessage().Encode(Generic(h, d)) ==
            (if h == [] then [] else [0x0A] + EncVarint(|h|) + h) +
            (if d == [] then [] else [0x12] + EncVarint(|d|) + d)
  {
    EncodeAllAppend(OptBytes(1, h), OptBytes(2, d));
    OptPiece(1, h);
    OptPiece(2, d);
  }

  /** The elements of a list are fields 1, in order, also the empty ones. */
  lemma ListBytes<T(!new)>(sub: SubCodec<T>, xs: seq<T>, x: T)
    ensures ListMessage(sub).Encode([]) == []
    ensures ListMessage(sub).Encode(xs + [x]) ==
            ListMessage(sub).Encode(xs) + ([0x0A] + EncVarint(|sub.enc(x)|) + sub.enc(x))
  {
    RepSubSnoc(1, sub, xs, x);
    PieceOf(1, sub.enc(x));
  }

  /** The two messages of the transaction response, down to the bytes. */
  lemma DataBytes(ms: seq<Generic>, m: Generic)
    ensures DataMessage().Encode([]) == []
    ensures DataMessage().Encode(ms + [m]) ==
            DataMessage().Encode(ms) +
            ([0x0A] + EncVarint(|GenericMessage().Encode(m)|) + GenericMessage().Encode(m))
  {
    ListBytes(GenericCodec(), ms, m);
  }

  lemma AnyEventBytes<T(!new)>(any: SubCodec<T>, m: AnyEventV<T>)
    ensures AnyEventMessage(any).Encode(m) ==
            OptionalPiece(0x12, m.mod) + OptionalMessage(0x1A, any, m.data)
  {
    AnyEventEncoding(any, m);
    OptPiece(2, m.mod);
    OptMessage(3, any, m.data);
  }

  lemma ModuleEventsBytes<T(!new)>(any: SubCodec<T>, es: seq<AnyEventV<T>>, e: AnyEventV<T>)
    ensures ModuleEventsMessage(any).Encode([]) == []
    ensures ModuleEventsMessage(any).Encode(es + [e]) ==
            ModuleEventsMessage(any).Encode(es) + Piece(0x0A, AnyEventMessage(any).Encode(e))
  {
    ListBytes(AnyEventCodec(any), es, e);
  }

  lemma EventsBytes<E(!new)>(sub: SubCodec<E>, m: EventsV<E>)
    ensures EventsMessage(sub).Encode(m) ==
            OptionalNumber(0x08, m.height) + OptionalNumber(0x10, m.time) + Pieces(0x1A, m.modules) +
            (Pieces(0x22, Each(sub, m.events)) + (Pieces(0x2A, m.tmQueries) + Pieces(0x32, m.tmData)))
  {
    EventsEncoding(sub, m);
    OptNumber(1, m.height);
    OptNumber(2, m.time);
    RepPieces(3, m.modules);
    RepPieces(4, EncodeEach(sub, m.events));
    EachIs(sub, m.events);
    RepPieces(5, m.tmQueries);
    RepPieces(6, m.tmData);
  }

  /** The times are written as their 64-bit patterns. */
  lemma SyncBytes(m: SyncStatusV)
    ensures SyncMessage().Encode(m) ==
            OptionalNumber(0x08, m.lastBlock) +
            (OptionalNumber(0x10, FromInt64(m.lastBlockTime)) + OptionalNumber(0x18, FromInt64(m.updatedAt))) +
            OptionalPiece(0x22, m.version)
  {
    SyncEncoding(m);
    OptNumber(1, m.lastBlock);
    OptNumber(2, FromInt64(m.lastBlockTime));
    OptNumber(3, FromInt64(m.updatedAt));
    OptPiece(4, m.version);
  }

  lemma BlockBytes<A(!new), B(!new)>(ids: SubCodec<A>, blocks: SubCodec<B>, m: BlockV<A, B>)
    ensures BlockMessage(ids, blocks).Encode(m) ==
            OptionalMessage(0x0A, ids, m.id) + OptionalMessage(0x12, blocks, m.block)
  {
    BlockEncoding(ids, blocks, m);
    OptMessage(1, ids, m.id);
    OptMessage(2, blocks, m.block);
  }

  /** The op is sign-extended to 64 bits. */
  lemma NewBlockBytes<E(!new)>(blocks: SubCodec<E>, m: NewBlockV<E>)
    ensures NewBlockMessage(blocks).Encode(m) ==
            OptionalNumber(0x08, FromInt64(m.op)) + OptionalMessage(0x12, blocks, m.block)
  {
    NewBlockEncoding(blocks, m);
    OptNumber(1, FromInt64(m.op));
    OptMessage(2, blocks, m.block);
  }

  // ---- What is read ----

  /** A field in bytes does to a message what applying it does. */
  lemma ReadsPiece<M(!new)>(x: Message<M>, num: nat, d: seq<byte>, m: M)
    requires x.ReaderLaws() && 1 <= num <= 15 && num in x.known && x.known[num] == 2 && |d| <= MAX_INT
    ensures x.Ends(Piece(num * 8 + 2, d), m) ==
            match x.apply(m, BytesField(num, d))
            case Ok(m') => Goal(Ok(m'), m')
            case Err(e) => Goal(Err(e), x.burst(m, BytesField(num, d)))
  {
    OneField(x, BytesField(num, d), m);
    PieceOf(num, d);
  }

  lemma ReadsNumber<M(!new)>(x: Message<M>, num: nat, v: u64, m: M)
    requires x.ReaderLaws() && 1 <= num <= 15 && num in x.known && x.known[num] == 0
    requires x.apply(m, IntField(num, v)).Ok?
    ensures var m' := x.apply(m, IntField(num, v)).value; x.Ends(Number(num * 8, v), m) == Goal(Ok(m'), m')
  {
    OneField(x, IntField(num, v), m);
    NumberOfField(num, v);
  }

  /** Into any message, whatever it holds: a header or data that is read replaces the one that is there. */
  lemma GenericReads(m: Generic, d: seq<byte>)
    requires |d| <= MAX_INT
    ensures GenericMessage().Decode(BytesField(1, d).Encode(), m) == Ok(m.(header := d))
    ensures GenericMessage().Decode(BytesField(2, d).Encode(), m) == Ok(m.(data := d))
    ensures GenericMessage().Ends([0x0A] + EncVarint(|d|) + d, m) == Goal(Ok(m.(header := d)), m.(header := d))
    ensures GenericMessage().Ends([0x12] + EncVarint(|d|) + d, m) == Goal(Ok(m.(data := d)), m.(data := d))
  {
    var x := GenericMessage();
    ReaderObeys(x);
    OneField(x, BytesField(1, d), m);
    OneField(x, BytesField(2, d), m);
    PieceOf(1, d);
    PieceOf(2, d);
  }

  /** An element that is read is appended; one that is refused as well, with what its decoding left. */
  lemma ListReads<T(!new)>(sub: SubCodec<T>, xs: seq<T>, d: seq<byte>)
    requires |d| <= MAX_INT
    ensures ListMessage(sub).Ends(Piece(0x0A, d), xs) ==
            var r := sub.dec(d, sub.empty);
            var kept := xs + [if r.Ok? then r.value else sub.left(d, sub.empty)];
            Goal(if r.Ok? then Ok(kept) else Err(r.fault), kept)
  {
    ReaderObeys(ListMessage(sub));
    ReadsPiece(ListMessage(sub), 1, d, xs);
  }

  /** The two lists of the package, with their elements. */
  lemma DataReads(ms: seq<Generic>, d: seq<byte>)
    requires |d| <= MAX_INT
    ensures var g := GenericMessage().Ends(d, Generic([], []));
            DataMessage().Ends([0x0A] + EncVarint(|d|) + d, ms) ==
            Goal(if g.result.Ok? then Ok(ms + [g.left]) else Err(g.result.fault), ms + [g.left])
  {
    ListReads(GenericCodec(), ms, d);
    GenericMessage().LeftOfAccepted(d, Generic([], []));
  }

  lemma ModuleEventsReads<T(!new)>(any: SubCodec<T>, es: seq<AnyEventV<T>>, d: seq<byte>)
    requires |d| <= MAX_INT
    ensures var g := AnyEventMessage(any).Ends(d, AnyEventV([], None));
            ModuleEventsMessage(any).Ends(Piece(0x0A, d), es) ==
            Goal(if g.result.Ok? then Ok(es + [g.left]) else Err(g.result.fault), es + [g.left])
  {
    ListReads(AnyEventCodec(any), es, d);
    AnyEventMessage(any).LeftOfAccepted(d, AnyEventV([], None));
  }

  lemma AnyEventReads<T(!new)>(any: SubCodec<T>, m: AnyEventV<T>, d: seq<byte>)
    requires |d| <= MAX_INT
    ensures AnyEventMessage(any).Ends(Piece(0x12, d), m) == Goal(Ok(m.(mod := d)), m.(mod := d))
  {
    ReaderObeys(AnyEventMessage(any));
    ReadsPiece(AnyEventMessage(any), 2, d, m);
  }

  /** An Any that is read is merged into the one that is there. */
  lemma AnyEventReadsAny<T(!new)>(any: SubCodec<T>, m: AnyEventV<T>, d: seq<byte>)
    requires |d| <= MAX_INT
    ensures var was := if m.data.Some? then m.data.value else any.empty;
            var r := any.dec(d, was);
            var kept := m.(data := Some(if r.Ok? then r.value else any.left(d, was)));
            AnyEventMessage(any).Ends(Piece(0x1A, d), m) == Goal(if r.Ok? then Ok(kept) else Err(r.fault), kept)
  {
    ReaderObeys(AnyEventMessage(any));
    ReadsPiece(AnyEventMessage(any), 3, d, m);
  }

  lemma EventsReads<E(!new)>(sub: SubCodec<E>, m: EventsV<E>, d: seq<byte>)
    requires |d| <= MAX_INT
    ensures var r := m.(modules := m.modules + [d]); EventsMessage(sub).Ends(Piece(0x1A, d), m) == Goal(Ok(r), r)
    ensures var r := m.(tmQueries := m.tmQueries + [d]); EventsMessage(sub).Ends(Piece(0x2A, d), m) == Goal(Ok(r), r)
    ensures var r := m.(tmData := m.tmData + [d]); EventsMessage(sub).Ends(Piece(0x32, d), m) == Goal(Ok(r), r)
  {
    ReaderObeys(EventsMessage(sub));
    ReadsStrings(sub, EventsMessage(sub), m, d);
  }

  lemma ReadsStrings<E(!new)>(sub: SubCodec<E>, x: Message<EventsV<E>>, m: EventsV<E>, d: seq<byte>)
    requires |d| <= MAX_INT && x.ReaderLaws() && x.known == EVENTS_KNOWN
    requires forall m, f :: x.apply(m, f) == ApplyEvents(sub, m, f)
    ensures var r := m.(modules := m.modules + [d]); x.Ends(Piece(0x1A, d), m) == Goal(Ok(r), r)
    ensures var r := m.(tmQueries := m.tmQueries + [d]); x.Ends(Piece(0x2A, d), m) == Goal(Ok(r), r)
    ensures var r := m.(tmData := m.tmData + [d]); x.Ends(Piece(0x32, d), m) == Goal(Ok(r), r)
  {
    ReadsPiece(x, 3, d, m);
    ReadsPiece(x, 5, d, m);
    ReadsPiece(x, 6, d, m);
  }

  lemma EventsReadsElement<E(!new)>(sub: SubCodec<E>, m: EventsV<E>, d: seq<byte>)
    requires |d| <= MAX_INT
    ensures var r := sub.dec(d, sub.empty);
            var kept := m.(events := m.events + [if r.Ok? then r.value else sub.left(d, sub.empty)]);
            EventsMessage(sub).Ends(Piece(0x22, d), m) == Goal(if r.Ok? then Ok(kept) else Err(r.fault), kept)
  {
    ReaderObeys(EventsMessage(sub));
    ReadsPiece(EventsMessage(sub), 4, d, m);
  }

  lemma EventsNumbers<E(!new)>(sub: SubCodec<E>, m: EventsV<E>, v: u64)
    ensures EventsMessage(sub).Ends(Number(0x08, v), m) == Goal(Ok(m.(height := v)), m.(height := v))
    ensures EventsMessage(sub).Ends(Number(0x10, v), m) == Goal(Ok(m.(time := v)), m.(time := v))
  {
    ReaderObeys(EventsMessage(sub));
    ReadsNumber(EventsMessage(sub), 1, v, m);
    ReadsNumber(EventsMessage(sub), 2, v, m);
  }

  lemma SyncReads(m: SyncStatusV, v: u64, t: i64, d: seq<byte>)
    requires |d| <= MAX_INT
    ensures SyncMessage().Ends(Number(0x08, v), m) == Goal(Ok(m.(lastBlock := v)), m.(lastBlock := v))
    ensures var r := m.(lastBlockTime := t); SyncMessage().Ends(Number(0x10, FromInt64(t)), m) == Goal(Ok(r), r)
    ensures var r := m.(updatedAt := t); SyncMessage().Ends(Number(0x18, FromInt64(t)), m) == Goal(Ok(r), r)
    ensures SyncMessage().Ends(Piece(0x22, d), m) == Goal(Ok(m.(version := d)), m.(version := d))
  {
    ReaderObeys(SyncMessage());
    ReadsSync(SyncMessage(), m, v, t, d);
  }

  lemma ReadsSync(x: Message<SyncStatusV>, m: SyncStatusV, v: u64, t: i64, d: seq<byte>)
    requires |d| <= MAX_INT && x.ReaderLaws() && x.known == SYNC_KNOWN && x.apply == ApplySync
    ensures x.Ends(Number(0x08, v), m) == Goal(Ok(m.(lastBlock := v)), m.(lastBlock := v))
    ensures var r := m.(lastBlockTime := t); x.Ends(Number(0x10, FromInt64(t)), m) == Goal(Ok(r), r)
    ensures var r := m.(updatedAt := t); x.Ends(Number(0x18, FromInt64(t)), m) == Goal(Ok(r), r)
    ensures x.Ends(Piece(0x22, d), m) == Goal(Ok(m.(version := d)), m.(version := d))
  {
    SignIsKept(t);
    ReadsNumber(x, 1, v, m);
    ReadsNumber(x, 2, FromInt64(t), m);
    ReadsNumber(x, 3, FromInt64(t), m);
    ReadsPiece(x, 4, d, m);
  }

  lemma BlockReadsId<A(!new), B(!new)>(ids: SubCodec<A>, blocks: SubCodec<B>, m: BlockV<A, B>, d: seq<byte>)
    requires |d| <= MAX_INT
    ensures var was := if m.id.Some? then m.id.value else ids.empty;
            var r := ids.dec(d, was);
            var kept := m.(id := Some(if r.Ok? then r.value else ids.left(d, was)));
            BlockMessage(ids, blocks).Ends(Piece(0x0A, d), m) == Goal(if r.Ok? then Ok(kept) else Err(r.fault), kept)
  {
    ReaderObeys(BlockMessage(ids, blocks));
    ReadsPiece(BlockMessage(ids, blocks), 1, d, m);
  }

  lemma BlockReadsBlock<A(!new), B(!new)>(ids: SubCodec<A>, blocks: SubCodec<B>, m: BlockV<A, B>, d: seq<byte>)
    requires |d| <= MAX_INT
    ensures var was := if m.block.Some? then m.block.value else blocks.empty;
            var r := blocks.dec(d, was);
            var kept := m.(block := Some(if r.Ok? then r.value else blocks.left(d, was)));
            BlockMessage(ids, blocks).Ends(Piece(0x12, d), m) == Goal(if r.Ok? then Ok(kept) else Err(r.fault), kept)
  {
    ReaderObeys(BlockMessage(ids, blocks));
    ReadsPiece(BlockMessage(ids, blocks), 2, d, m);
  }

  lemma NewBlockReads<E(!new)>(blocks: SubCodec<E>, m: NewBlockV<E>, v: u64, d: seq<byte>)
    requires |d| <= MAX_INT
    ensures NewBlockMessage(blocks).Ends(Number(0x08, v), m) ==
            Goal(Ok(m.(op := ToInt32(v))), m.(op := ToInt32(v)))
    ensures var was := if m.block.Some? then m.block.value else blocks.empty;
            var r := blocks.dec(d, was);
            var kept := m.(block := Some(if r.Ok? then r.value else blocks.left(d, was)));
            NewBlockMessage(blocks).Ends(Piece(0x12, d), m) == Goal(if r.Ok? then Ok(kept) else Err(r.fault), kept)
  {
    ReaderObeys(NewBlockMessage(blocks));
    ReadsNumber(NewBlockMessage(blocks), 1, v, m);
    ReadsPiece(NewBlockMessage(blocks), 2, d, m);
  }
}
