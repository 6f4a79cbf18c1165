/** SyncStatus, Block and NewBlockEvent of chain/eventstream/types/query.pb.go as values: signed numbers,
    an int32 enum, and an embedded message that is merged. */
module Status {
  import opened Words
  import opened Outcomes
  import opened Varint
  import opened Messages
  import opened Fields
  import opened Parts
  import opened Embedded

  // ---- SyncStatus ----

  datatype SyncStatusV = SyncStatusV(lastBlock: u64, lastBlockTime: i64, updatedAt: i64, version: seq<byte>)

  const SYNC_KNOWN: map<int, nat> := map[1 := 0, 2 := 0, 3 := 0, 4 := 2]

  function ApplySync(m: SyncStatusV, f: Field): Result<SyncStatusV> {
    match f
    case IntField(1, v) => Ok(m.(lastBlock := v))
    case IntField(2, v) => Ok(m.(lastBlockTime := ToInt64(v)))
    case IntField(3, v) => Ok(m.(updatedAt := ToInt64(v)))
    case BytesField(4, d) => Ok(m.(version := d))
    case _ => Ok(m)
  }

  function SyncNumbers(m: SyncStatusV): seq<Field> {
    OptInt(1, m.lastBlock) + (OptInt(2, FromInt64(m.lastBlockTime)) + OptInt(3, FromInt64(m.updatedAt)))
  }

  function SyncFields(m: SyncStatusV): seq<Field> {
    SyncNumbers(m) + OptBytes(4, m.version)
  }

  function SyncMessage(): Message<SyncStatusV> {
    Message(SYNC_KNOWN, ReaderOf(SYNC_KNOWN), SyncStatusV(0, 0, 0, []), ApplySync, SyncFields,
            SpoilOf(SYNC_KNOWN, ApplySync), (m, f) => m)
  }

  lemma SyncEncoding(m: SyncStatusV)
    ensures SyncMessage().Encode(m) ==
            EncodeAll(OptInt(1, m.lastBlock)) +
            (EncodeAll(OptInt(2, FromInt64(m.lastBlockTime))) + EncodeAll(OptInt(3, FromInt64(m.updatedAt)))) +
            EncodeAll(OptBytes(4, m.version))
  {
    var a, b, c := OptInt(1, m.lastBlock), OptInt(2, FromInt64(m.lastBlockTime)), OptInt(3, FromInt64(m.updatedAt));
    EncodeAllAppend(a + (b + c), OptBytes(4, m.version));
    EncodeAllAppend(a, b + c);
    EncodeAllAppend(b, c);
  }

  lemma SignIsKept(x: i64)
    ensures ToInt64(FromInt64(x)) == x && (FromInt64(x) == 0 <==> x == 0)
  {}

  lemma SyncHandled(m: SyncStatusV)
    ensures SyncMessage().Handled(m)
  {}

  lemma SyncFolds(m: SyncStatusV, block: u64, time: i64, updated: i64, version: seq<byte>)
    ensures SyncMessage().Fold(OptInt(1, block), m) == Ok(if block == 0 then m else m.(lastBlock := block))
    ensures SyncMessage().Fold(OptInt(2, FromInt64(time)), m) == Ok(if time == 0 then m else m.(lastBlockTime := time))
    ensures SyncMessage().Fold(OptInt(3, FromInt64(updated)), m) ==
            Ok(if updated == 0 then m else m.(updatedAt := updated))
    ensures SyncMessage().Fold(OptBytes(4, version), m) == Ok(if version == [] then m else m.(version := version))
  {
    SignIsKept(time);
    SignIsKept(updated);
    var x := SyncMessage();
    FoldOptional(x, OptInt(1, block), m, if block == 0 then m else m.(lastBlock := block));
    FoldOptional(x, OptInt(2, FromInt64(time)), m, if time == 0 then m else m.(lastBlockTime := time));
    FoldOptional(x, OptInt(3, FromInt64(updated)), m, if updated == 0 then m else m.(updatedAt := updated));
    FoldOptional(x, OptBytes(4, version), m, if version == [] then m else m.(version := version));
  }

  lemma SyncRebuilds(m: SyncStatusV)
    ensures SyncMessage().Rebuilds(m)
  {
    var m1 := SyncStatusV(m.lastBlock, 0, 0, []);
    var m2 := m1.(lastBlockTime := m.lastBlockTime);
    var m3 := m2.(updatedAt := m.updatedAt);
    SyncFolds(SyncStatusV(0, 0, 0, []), m.lastBlock, 0, 0, []);
    SyncFolds(m1, 0, m.lastBlockTime, 0, []);
    SyncFolds(m2, 0, 0, m.updatedAt, []);
    SyncFolds(m3, 0, 0, 0, m.version);
    FoldFour(SyncMessage(), OptInt(1, m.lastBlock), OptInt(2, FromInt64(m.lastBlockTime)),
             OptInt(3, FromInt64(m.updatedAt)), OptBytes(4, m.version),
             SyncStatusV(0, 0, 0, []), m1, m2, m3, m);
  }

  function SyncSize(m: SyncStatusV): nat {
    |EncodeAll(OptInt(1, m.lastBlock))| + |EncodeAll(OptInt(2, FromInt64(m.lastBlockTime)))| +
    |EncodeAll(OptInt(3, FromInt64(m.updatedAt)))| + |EncodeAll(OptBytes(4, m.version))|
  }

  lemma SyncSizeIs(m: SyncStatusV)
    ensures |SyncMessage().Encode(m)| == SyncSize(m)
  {
    SyncEncoding(m);
  }

  lemma SyncGrows(m: SyncStatusV, f: Field)
    requires SyncMessage().Handles(f)
    ensures SyncSize(ApplySync(m, f).value) <= SyncSize(m) + |f.Encode()|
  {
    if f.IntField? {
      OptIntSize(f.num, f.word);
      PatternIsKept(f.word);
      assert f.num == 1 || f.num == 2 || f.num == 3;
    } else {
      OptBytesSize(4, f.data);
    }
  }

  lemma SyncShrinks(m: SyncStatusV, f: Field)
    ensures SyncMessage().Shrinks(m, f)
  {
    if SyncMessage().Handles(f) {
      SyncSizeIs(m);
      SyncSizeIs(ApplySync(m, f).value);
      SyncGrows(m, f);
    }
  }

  lemma PatternIsKept(u: u64)
    ensures FromInt64(ToInt64(u)) == u
  {}

  lemma SyncLaws()
    ensures SyncMessage().MessageLaws()
  {
    var x := SyncMessage();
    ReaderObeys(x);
    forall m
      ensures x.Handled(m) && x.Rebuilds(m)
    {
      SyncHandled(m);
      SyncRebuilds(m);
    }
    forall m, f
      ensures x.Shrinks(m, f)
    {
      SyncShrinks(m, f);
    }
  }

  /** Every int64, negative or not, comes back. */
  lemma SyncRoundTrip(m: SyncStatusV)
    requires |SyncMessage().Encode(m)| <= MAX_INT
    ensures SyncMessage().Decode(SyncMessage().Encode(m), SyncMessage().empty) == Ok(m)
  {
    SyncLaws();
    SyncMessage().RoundTrip(m);
  }

  // ---- Block: two embedded messages of another package ----

  datatype BlockV<A, B> = BlockV(id: Option<A>, block: Option<B>)

  const BLOCK_KNOWN: map<int, nat> := map[1 := 2, 2 := 2]

  function ApplyBlock<A(!new), B(!new)>(ids: SubCodec<A>, blocks: SubCodec<B>, m: BlockV<A, B>, f: Field)
    : Result<BlockV<A, B>>
  {
    match f
    case BytesField(1, d) =>
      var x :- ids.dec(d, OrEmpty(ids, m.id));
      Ok(m.(id := Some(x)))
    case BytesField(2, d) =>
      var x :- blocks.dec(d, OrEmpty(blocks, m.block));
      Ok(m.(block := Some(x)))
    case _ => Ok(m)
  }

  function BurstBlock<A(!new), B(!new)>(ids: SubCodec<A>, blocks: SubCodec<B>, m: BlockV<A, B>, f: Field)
    : BlockV<A, B>
  {
    match f
    case BytesField(1, d) => m.(id := Some(ids.left(d, OrEmpty(ids, m.id))))
    case BytesField(2, d) => m.(block := Some(blocks.left(d, OrEmpty(blocks, m.block))))
    case _ => m
  }

  function BlockFields<A(!new), B(!new)>(ids: SubCodec<A>, blocks: SubCodec<B>, m: BlockV<A, B>): seq<Field> {
    OptSub(1, ids, m.id) + OptSub(2, blocks, m.block)
  }

  function BlockMessage<A(!new), B(!new)>(ids: SubCodec<A>, blocks: SubCodec<B>): Message<BlockV<A, B>> {
    var apply := (m, f) => ApplyBlock(ids, blocks, m, f);
    Message(BLOCK_KNOWN, ReaderOf(BLOCK_KNOWN), BlockV(None, None), apply, m => BlockFields(ids, blocks, m),
            SpoilOf(BLOCK_KNOWN, apply), (m, f) => BurstBlock(ids, blocks, m, f))
  }

  lemma BlockEncoding<A(!new), B(!new)>(ids: SubCodec<A>, blocks: SubCodec<B>, m: BlockV<A, B>)
    ensures BlockMessage(ids, blocks).Encode(m) ==
            EncodeAll(OptSub(1, ids, m.id)) + EncodeAll(OptSub(2, blocks, m.block))
  {
    EncodeAllAppend(OptSub(1, ids, m.id), OptSub(2, blocks, m.block));
  }

  lemma BlockRebuilds<A(!new), B(!new)>(ids: SubCodec<A>, blocks: SubCodec<B>, m: BlockV<A, B>)
    requires ids.WritesBack() && blocks.WritesBack()
    ensures BlockMessage(ids, blocks).Handled(m) && BlockMessage(ids, blocks).Rebuilds(m)
  {
    var x := BlockMessage(ids, blocks);
    if |x.Encode(m)| <= MAX_INT {
      BlockEncoding(ids, blocks, m);
      if m.id.Some? {
        OptSubFits(1, ids, m.id.value);
        FoldOne(x, BytesField(1, ids.enc(m.id.value)), x.empty);
      }
      FoldAppend(x, OptSub(1, ids, m.id), OptSub(2, blocks, m.block), x.empty);
      if m.block.Some? {
        OptSubFits(2, blocks, m.block.value);
        FoldOne(x, BytesField(2, blocks.enc(m.block.value)), BlockV(m.id, None));
      }
    }
  }

  /** All that a block needs of its parts is that they come back. */
  lemma BlockLaws<A(!new), B(!new)>(ids: SubCodec<A>, blocks: SubCodec<B>)
    requires ids.WritesBack() && blocks.WritesBack()
    ensures BlockMessage(ids, blocks).WritesLaws() && SubOf(BlockMessage(ids, blocks)).WritesBack()
  {
    var x := BlockMessage(ids, blocks);
    ReaderObeys(x);
    forall m
      ensures x.Handled(m) && x.Rebuilds(m)
    {
      BlockRebuilds(ids, blocks, m);
    }
    forall m
      ensures SubOf(x).RoundTrips(m)
    {
      if |x.Encode(m)| <= MAX_INT {
        x.RoundTrip(m);
      }
    }
  }

  lemma BlockRoundTrip<A(!new), B(!new)>(ids: SubCodec<A>, blocks: SubCodec<B>, m: BlockV<A, B>)
    requires ids.WritesBack() && blocks.WritesBack() && |BlockMessage(ids, blocks).Encode(m)| <= MAX_INT
    ensures BlockMessage(ids, blocks).Decode(BlockMessage(ids, blocks).Encode(m), BlockV(None, None)) == Ok(m)
  {
    BlockLaws(ids, blocks);
    BlockMessage(ids, blocks).RoundTrip(m);
  }

  /** The fields of one number are merged, independently of the others. */
  lemma {:induction false} BlockFolds<A(!new), B(!new)>(ids: SubCodec<A>, blocks: SubCodec<B>, fs: seq<Field>,
                                                        m: BlockV<A, B>)
    requires BlockMessage(ids, blocks).Fold(fs, m).Ok?
    ensures var r := BlockMessage(ids, blocks).Fold(fs, m).value;
            && MergeAll(ids, m.id, ContentsOf(1, fs)) == Ok(r.id)
            && MergeAll(blocks, m.block, ContentsOf(2, fs)) == Ok(r.block)
    decreases |fs|
  {
    if fs != [] {
      BlockFolds(ids, blocks, fs[1..], ApplyBlock(ids, blocks, m, fs[0]).value);
      ContentsStep(1, fs);
      ContentsStep(2, fs);
    }
  }

  lemma {:induction false} BlockSplit<A(!new), B(!new)>(ids: SubCodec<A>, blocks: SubCodec<B>, fs: seq<Field>)
    requires forall f | f in fs :: BlockMessage(ids, blocks).Handles(f)
    ensures |EncodeAll(fs)| ==
            |EncodeAll(RepBytes(1, ContentsOf(1, fs)))| + |EncodeAll(RepBytes(2, ContentsOf(2, fs)))|
    decreases |fs|
  {
    if fs != [] {
      var f := fs[0];
      assert BlockMessage(ids, blocks).Handles(f);
      assert f.BytesField? && (f.num == 1 || f.num == 2);
      BlockSplit(ids, blocks, fs[1..]);
      ContentsSize(1, fs);
      ContentsSize(2, fs);
      assert |EncodeAll(fs)| == |f.Encode()| + |EncodeAll(fs[1..])|;
    }
  }

  /** By how much a block can outgrow the input s that it is read from. */
  function BlockGain<A(!new), B(!new)>(ids: SubCodec<A>, gi: seq<byte> -> nat, blocks: SubCodec<B>,
                                       gb: seq<byte> -> nat, s: seq<byte>): nat
  {
    var fs := BlockMessage(ids, blocks).FieldsIn(s);
    Gain(ids, gi, ContentsOf(1, fs)) + Gain(blocks, gb, ContentsOf(2, fs))
  }

  function BlockGrowth<A(!new), B(!new)>(ids: SubCodec<A>, gi: seq<byte> -> nat, blocks: SubCodec<B>,
                                         gb: seq<byte> -> nat): seq<byte> -> nat
  {
    s => BlockGain(ids, gi, blocks, gb, s)
  }

  lemma BlockGrows<A(!new), B(!new)>(ids: SubCodec<A>, gi: seq<byte> -> nat, blocks: SubCodec<B>,
                                     gb: seq<byte> -> nat, s: seq<byte>, m: BlockV<A, B>)
    requires ids.Gains(gi) && blocks.Gains(gb) && BlockMessage(ids, blocks).Decode(s, m).Ok?
    ensures var x := BlockMessage(ids, blocks);
            |x.Encode(x.Decode(s, m).value)| <= |x.Encode(m)| + |s| + BlockGain(ids, gi, blocks, gb, s)
  {
    var x := BlockMessage(ids, blocks);
    var r, fs := x.Decode(s, m).value, x.FieldsIn(s);
    ReaderObeys(x);
    x.DecodeIsFold(s, m);
    x.FieldsAreTight(s, m);
    BlockFolds(ids, blocks, fs, m);
    BlockSplit(ids, blocks, fs);
    EmbeddedBound(1, ids, gi, m.id, ContentsOf(1, fs));
    EmbeddedBound(2, blocks, gb, m.block, ContentsOf(2, fs));
    BlockEncoding(ids, blocks, m);
    BlockEncoding(ids, blocks, r);
  }

  /** The same, as a fact about a block that is embedded itself. */
  lemma BlockGains<A(!new), B(!new)>(ids: SubCodec<A>, gi: seq<byte> -> nat, blocks: SubCodec<B>,
                                     gb: seq<byte> -> nat)
    requires ids.Gains(gi) && blocks.Gains(gb)
    ensures SubOf(BlockMessage(ids, blocks)).Gains(BlockGrowth(ids, gi, blocks, gb))
    ensures SubOf(BlockMessage(ids, blocks)).enc(BlockV(None, None)) == []
  {
    var growth := BlockGrowth(ids, gi, blocks, gb);
    forall s, m
      ensures SubOf(BlockMessage(ids, blocks)).GainsAt(growth, s, m)
    {
      if BlockMessage(ids, blocks).Decode(s, m).Ok? {
        BlockGrows(ids, gi, blocks, gb, s, m);
      }
    }
  }

  /** Whatever bytes are accepted, the canonical form exceeds them by no more than the gain, and means the same. */
  lemma BlockCanonicalisation<A(!new), B(!new)>(ids: SubCodec<A>, gi: seq<byte> -> nat, blocks: SubCodec<B>,
                                                gb: seq<byte> -> nat, s: seq<byte>)
    requires ids.WritesBack() && blocks.WritesBack() && ids.Gains(gi) && blocks.Gains(gb)
    requires BlockMessage(ids, blocks).Decode(s, BlockV(None, None)).Ok?
    ensures var x := BlockMessage(ids, blocks);
            var m := x.Decode(s, x.empty).value;
            && |x.Encode(m)| <= |s| + BlockGain(ids, gi, blocks, gb, s)
            && (|x.Encode(m)| <= MAX_INT ==> x.Decode(x.Encode(m), x.empty) == Ok(m))
  {
    var x := BlockMessage(ids, blocks);
    BlockGrows(ids, gi, blocks, gb, s, BlockV(None, None));
    BlockLaws(ids, blocks);
    if |x.Encode(x.Decode(s, x.empty).value)| <= MAX_INT {
      x.RoundTrip(x.Decode(s, x.empty).value);
    }
  }

  /** For an input that is one field, the condition is exact: it is not lengthened if and only if its content is
      not. */
  lemma BlockFieldCanonicalisation<A(!new), B(!new)>(ids: SubCodec<A>, blocks: SubCodec<B>, d: seq<byte>)
    requires |d| <= MAX_INT
    ensures var x := BlockMessage(ids, blocks);
            && (ids.dec(d, ids.empty).Ok? ==>
                  var s, y := BytesField(1, d).Encode(), ids.dec(d, ids.empty).value;
                  && x.Decode(s, x.empty) == Ok(BlockV(Some(y), None))
                  && (|x.Encode(BlockV(Some(y), None))| <= |s| <==> |ids.enc(y)| <= |d|))
            && (blocks.dec(d, blocks.empty).Ok? ==>
                  var s, y := BytesField(2, d).Encode(), blocks.dec(d, blocks.empty).value;
                  && x.Decode(s, x.empty) == Ok(BlockV(None, Some(y)))
                  && (|x.Encode(BlockV(None, Some(y)))| <= |s| <==> |blocks.enc(y)| <= |d|))
  {
    var x := BlockMessage(ids, blocks);
    ReaderObeys(x);
    if ids.dec(d, ids.empty).Ok? {
      var y := ids.dec(d, ids.empty).value;
      BlockEncoding(ids, blocks, BlockV(Some(y), None));
      EndsWithNothing(EncodeAll(OptSub(1, ids, Some(y))));
      OneFieldCanonicalisation(x, 1, ids, d, BlockV(Some(y), None), y);
    }
    if blocks.dec(d, blocks.empty).Ok? {
      var y := blocks.dec(d, blocks.empty).value;
      BlockEncoding(ids, blocks, BlockV(None, Some(y)));
      OneFieldCanonicalisation(x, 2, blocks, d, BlockV(None, Some(y)), y);
    }
  }

  /** So an empty field read into an absent id grows exactly when an empty id is written with some bytes. */
  lemma EmptyIdGrows<A(!new), B(!new)>(ids: SubCodec<A>, blocks: SubCodec<B>)
    requires ids.dec([], ids.empty) == Ok(ids.empty)
    ensures var x, s := BlockMessage(ids, blocks), BytesField(1, []).Encode();
            && x.Decode(s, x.empty) == Ok(BlockV(Some(ids.empty), None))
            && (|x.Encode(BlockV(Some(ids.empty), None))| <= |s| <==> ids.enc(ids.empty) == [])
  {
    BlockFieldCanonicalisation(ids, blocks, []);
  }

  // ---- NewBlockEvent: an enum and a merged block ----

  datatype NewBlockV<E> = NewBlockV(op: i32, block: Option<E>)

  const NEW_BLOCK_KNOWN: map<int, nat> := map[1 := 0, 2 := 2]

  function ApplyNewBlock<E(!new)>(blocks: SubCodec<E>, m: NewBlockV<E>, f: Field): Result<NewBlockV<E>> {
    match f
    case IntField(1, v) => Ok(m.(op := ToInt32(v)))
    case BytesField(2, d) =>
      var x :- blocks.dec(d, OrEmpty(blocks, m.block));
      Ok(m.(block := Some(x)))
    case _ => Ok(m)
  }

  function BurstNewBlock<E(!new)>(blocks: SubCodec<E>, m: NewBlockV<E>, f: Field): NewBlockV<E> {
    if f.BytesField? && f.num == 2 then m.(block := Some(blocks.left(f.data, OrEmpty(blocks, m.block)))) else m
  }

  function NewBlockFields<E(!new)>(blocks: SubCodec<E>, m: NewBlockV<E>): seq<Field> {
    OptInt(1, FromInt64(m.op)) + OptSub(2, blocks, m.block)
  }

  function NewBlockMessage<E(!new)>(blocks: SubCodec<E>): Message<NewBlockV<E>> {
    var apply := (m, f) => ApplyNewBlock(blocks, m, f);
    Message(NEW_BLOCK_KNOWN, ReaderOf(NEW_BLOCK_KNOWN), NewBlockV(0, None), apply, m => NewBlockFields(blocks, m),
            SpoilOf(NEW_BLOCK_KNOWN, apply), (m, f) => BurstNewBlock(blocks, m, f))
  }

  lemma NewBlockEncoding<E(!new)>(blocks: SubCodec<E>, m: NewBlockV<E>)
    ensures NewBlockMessage(blocks).Encode(m) ==
            EncodeAll(OptInt(1, FromInt64(m.op))) + EncodeAll(OptSub(2, blocks, m.block))
  {
    EncodeAllAppend(OptInt(1, FromInt64(m.op)), OptSub(2, blocks, m.block));
  }

  lemma NewBlockRebuilds<E(!new)>(blocks: SubCodec<E>, m: NewBlockV<E>)
    requires blocks.WritesBack()
    ensures NewBlockMessage(blocks).Handled(m) && NewBlockMessage(blocks).Rebuilds(m)
  {
    var x := NewBlockMessage(blocks);
    if |x.Encode(m)| <= MAX_INT {
      NewBlockEncoding(blocks, m);
      SignExtension(m.op);
      if m.op != 0 {
        FoldOne(x, IntField(1, FromInt64(m.op)), x.empty);
      }
      FoldAppend(x, OptInt(1, FromInt64(m.op)), OptSub(2, blocks, m.block), x.empty);
      if m.block.Some? {
        OptSubFits(2, blocks, m.block.value);
        FoldOne(x, BytesField(2, blocks.enc(m.block.value)), NewBlockV(m.op, None));
      }
    }
  }

  lemma NewBlockWrites<E(!new)>(blocks: SubCodec<E>)
    requires blocks.WritesBack()
    ensures NewBlockMessage(blocks).WritesLaws()
  {
    var x := NewBlockMessage(blocks);
    ReaderObeys(x);
    forall m
      ensures x.Handled(m) && x.Rebuilds(m)
    {
      NewBlockRebuilds(blocks, m);
    }
  }

  /** Every enum value, negative ones included, and the block come back. */
  lemma NewBlockRoundTrip<E(!new)>(blocks: SubCodec<E>, m: NewBlockV<E>)
    requires blocks.WritesBack() && |NewBlockMessage(blocks).Encode(m)| <= MAX_INT
    ensures NewBlockMessage(blocks).Decode(NewBlockMessage(blocks).Encode(m), NewBlockMessage(blocks).empty) == Ok(m)
  {
    NewBlockWrites(blocks);
    NewBlockMessage(blocks).RoundTrip(m);
  }

  /** The bytes an op takes. */
  function OpSize(op: i32): nat {
    if op == 0 then 0 else 1 + Sov(FromInt64(op))
  }

  lemma OptOpSize(op: i32)
    ensures |EncodeAll(OptInt(1, FromInt64(op)))| == OpSize(op)
  {
    SignExtension(op);
    OneByteTag(8);
    EncVarintSize(FromInt64(op));
    OptIntSize(1, FromInt64(op));
  }

  lemma NegativeOpSize(op: i32)
    requires op < 0
    ensures OpSize(op) == 11
  {
    var w := FromInt64(op);
    SovOfWord(w);
    TenBytes(w);
  }

  lemma TenBytes(v: u64)
    ensures Sov(v) >= 10 <==> v >= TWO63
  {
    Pow2Values();
    SovIsLeast(v, 9);
  }

  lemma FiveBytes(v: u64)
    requires v >= TWO31
    ensures Sov(v) >= 5
  {
    Pow2Small();
    Pow2Mono(28, 31);
    SovIsLeast(v, 4);
  }

  lemma OpSizes(v: u64)
    ensures ToInt32(v) >= 0 ==> OpSize(ToInt32(v)) <= 1 + Sov(v)
    ensures ToInt32(v) < 0 ==> OpSize(ToInt32(v)) == 11 && 5 <= Sov(v)
    ensures Sov(v) >= 10 <==> v >= TWO63
  {
    TenBytes(v);
    TruncationBounds(v);
    if ToInt32(v) >= 0 {
      SovMono(ToInt32(v), v);
    } else {
      NegativeOpSize(ToInt32(v));
      FiveBytes(v);
    }
  }

  // The canonical form of an enum need not be shorter: an int32 that becomes negative by truncation is
  // written with ten bytes, whatever it was read from.

  /** What the op read from v gains: the bytes that sign extension adds. */
  function OpGain(v: u64): nat {
    if ToInt32(v) < 0 && Sov(v) < 10 then 10 - Sov(v) else 0
  }

  /** Nothing is gained by an op that stays non-negative, or that was a 64-bit negative number already. */
  predicate OpKept(v: u64) {
    ToInt32(v) >= 0 || v >= TWO63
  }

  lemma OpGainIs(v: u64)
    ensures OpSize(ToInt32(v)) <= |IntField(1, v).Encode()| + OpGain(v)
    ensures ToInt32(v) < 0 ==> OpSize(ToInt32(v)) == |IntField(1, v).Encode()| + OpGain(v)
    ensures OpGain(v) == 0 <==> OpKept(v)
    ensures OpGain(v) <= 5
  {
    OpSizes(v);
    OneByteTag(8);
    EncVarintSize(v);
    SovOfWord(v);
  }

  /** The last op field decides. */
  function LastOp(fs: seq<Field>): Option<u64> {
    if fs == [] then None
    else if LastOp(fs[1..]).Some? then LastOp(fs[1..])
    else if fs[0].IntField? && fs[0].num == 1 then Some(fs[0].word)
    else None
  }

  lemma {:induction false} NewBlockFolds<E(!new)>(blocks: SubCodec<E>, fs: seq<Field>, m: NewBlockV<E>)
    requires NewBlockMessage(blocks).Fold(fs, m).Ok?
    ensures var r := NewBlockMessage(blocks).Fold(fs, m).value;
            && r.op == (if LastOp(fs).Some? then ToInt32(LastOp(fs).value) else m.op)
            && MergeAll(blocks, m.block, ContentsOf(2, fs)) == Ok(r.block)
    decreases |fs|
  {
    if fs != [] {
      NewBlockFolds(blocks, fs[1..], ApplyNewBlock(blocks, m, fs[0]).value);
      ContentsStep(2, fs);
    }
  }

  function OpRoom(fs: seq<Field>): nat {
    if LastOp(fs).Some? then |IntField(1, LastOp(fs).value).Encode()| else 0
  }

  lemma {:induction false} NewBlockSplit<E(!new)>(blocks: SubCodec<E>, fs: seq<Field>)
    requires forall f | f in fs :: NewBlockMessage(blocks).Handles(f)
    ensures OpRoom(fs) + |EncodeAll(RepBytes(2, ContentsOf(2, fs)))| <= |EncodeAll(fs)|
    decreases |fs|
  {
    if fs != [] {
      NewBlockSplit(blocks, fs[1..]);
      ContentsSize(2, fs);
    }
  }

  /** By how much an event can outgrow the input s that it is read from: by the last op, and by its block. */
  function NewBlockGain<E(!new)>(blocks: SubCodec<E>, growth: seq<byte> -> nat, s: seq<byte>): nat {
    var fs := NewBlockMessage(blocks).FieldsIn(s);
    (if LastOp(fs).Some? then OpGain(LastOp(fs).value) else 0) + Gain(blocks, growth, ContentsOf(2, fs))
  }

  lemma NewBlockGrows<E(!new)>(blocks: SubCodec<E>, growth: seq<byte> -> nat, s: seq<byte>, m: NewBlockV<E>)
    requires blocks.Gains(growth) && NewBlockMessage(blocks).Decode(s, m).Ok?
    ensures var x := NewBlockMessage(blocks);
            |x.Encode(x.Decode(s, m).value)| <= |x.Encode(m)| + |s| + NewBlockGain(blocks, growth, s)
  {
    var x := NewBlockMessage(blocks);
    var r, fs := x.Decode(s, m).value, x.FieldsIn(s);
    ReaderObeys(x);
    x.DecodeIsFold(s, m);
    x.FieldsAreTight(s, m);
    NewBlockFolds(blocks, fs, m);
    NewBlockSplit(blocks, fs);
    EmbeddedBound(2, blocks, growth, m.block, ContentsOf(2, fs));
    NewBlockEncoding(blocks, m);
    NewBlockEncoding(blocks, r);
    OptOpSize(m.op);
    OptOpSize(r.op);
    if LastOp(fs).Some? {
      OpGainIs(LastOp(fs).value);
    }
  }

  /** Whatever bytes are accepted, the canonical form exceeds them by no more than the gain, and means the same. In
      particular it is no longer than they are if the last op field keeps its size and the block gains nothing. */
  lemma NewBlockCanonicalisation<E(!new)>(blocks: SubCodec<E>, growth: seq<byte> -> nat, s: seq<byte>)
    requires blocks.WritesBack() && blocks.Gains(growth)
    requires NewBlockMessage(blocks).Decode(s, NewBlockV(0, None)).Ok?
    ensures var x := NewBlockMessage(blocks);
            var m, fs := x.Decode(s, x.empty).value, x.FieldsIn(s);
            && |x.Encode(m)| <= |s| + NewBlockGain(blocks, growth, s)
            && (LastOp(fs).None? || OpKept(LastOp(fs).value) ==>
                  |x.Encode(m)| <= |s| + Gain(blocks, growth, ContentsOf(2, fs)))
            && (|x.Encode(m)| <= MAX_INT ==> x.Decode(x.Encode(m), x.empty) == Ok(m))
  {
    var x := NewBlockMessage(blocks);
    var fs := x.FieldsIn(s);
    NewBlockGrows(blocks, growth, s, x.empty);
    NewBlockWrites(blocks);
    if LastOp(fs).Some? {
      OpGainIs(LastOp(fs).value);
    }
    if |x.Encode(x.Decode(s, x.empty).value)| <= MAX_INT {
      x.RoundTrip(x.Decode(s, x.empty).value);
    }
  }

  /** For every canonical event, an op field followed by a block or by none, the condition on the op is exact. */
  lemma OpFieldCanonicalisation<E(!new)>(blocks: SubCodec<E>, v: u64, b: Option<E>)
    requires blocks.WritesBack() && |EncodeAll(OptSub(2, blocks, b))| <= MAX_INT
    ensures var x := NewBlockMessage(blocks);
            var s, m := IntField(1, v).Encode() + EncodeAll(OptSub(2, blocks, b)), NewBlockV(ToInt32(v), b);
            && x.Decode(s, x.empty) == Ok(m)
            && (|x.Encode(m)| <= |s| <==> OpKept(v))
  {
    var x := NewBlockMessage(blocks);
    var f, fs, m := IntField(1, v), OptSub(2, blocks, b), NewBlockV(ToInt32(v), b);
    NewBlockWrites(blocks);
    assert x.Reads(f, EncodeAll(fs));
    assert (f.Encode() + EncodeAll(fs))[|f.Encode()|..] == EncodeAll(fs);
    if b.Some? {
      OptSubFits(2, blocks, b.value);
      OptSubSize(2, blocks, b);
      FoldOne(x, fs[0], NewBlockV(ToInt32(v), None));
    }
    x.DecodeFolds(fs, NewBlockV(ToInt32(v), None));
    OpGainIs(v);
    OptOpSize(m.op);
    NewBlockEncoding(blocks, m);
  }

  /** For an event that is one block field, the condition on the block is exact. */
  lemma BlockInEventCanonicalisation<E(!new)>(blocks: SubCodec<E>, d: seq<byte>)
    requires |d| <= MAX_INT && blocks.dec(d, blocks.empty).Ok?
    ensures var x, s, y := NewBlockMessage(blocks), BytesField(2, d).Encode(), blocks.dec(d, blocks.empty).value;
            && x.Decode(s, x.empty) == Ok(NewBlockV(0, Some(y)))
            && (|x.Encode(NewBlockV(0, Some(y)))| <= |s| <==> |blocks.enc(y)| <= |d|)
  {
    var x, y := NewBlockMessage(blocks), blocks.dec(d, blocks.empty).value;
    ReaderObeys(x);
    NewBlockEncoding(blocks, NewBlockV(0, Some(y)));
    OneFieldCanonicalisation(x, 2, blocks, d, NewBlockV(0, Some(y)), y);
  }

  /** The event as the program embeds it: ids and blocks may write bytes when they are empty, and may gain by
      decoding. */
  lemma EventCanonicalisation<A(!new), B(!new)>(ids: SubCodec<A>, gi: seq<byte> -> nat, blocks: SubCodec<B>,
                                                gb: seq<byte> -> nat, s: seq<byte>)
    requires ids.WritesBack() && blocks.WritesBack() && ids.Gains(gi) && blocks.Gains(gb)
    requires NewBlockMessage(SubOf(BlockMessage(ids, blocks))).Decode(s, NewBlockV(0, None)).Ok?
    ensures var x := NewBlockMessage(SubOf(BlockMessage(ids, blocks)));
            var m, fs := x.Decode(s, x.empty).value, x.FieldsIn(s);
            && |x.Encode(m)| <= |s| + (if LastOp(fs).Some? then OpGain(LastOp(fs).value) else 0) +
                                Surplus(Sov, Total(BlockGrowth(ids, gi, blocks, gb), ContentsOf(2, fs)))
            && (|x.Encode(m)| <= MAX_INT ==> x.Decode(x.Encode(m), x.empty) == Ok(m))
  {
    var sub, growth := SubOf(BlockMessage(ids, blocks)), BlockGrowth(ids, gi, blocks, gb);
    BlockLaws(ids, blocks);
    BlockGains(ids, gi, blocks, gb);
    NewBlockCanonicalisation(sub, growth, s);
    GainOfSilent(sub, growth, ContentsOf(2, NewBlockMessage(sub).FieldsIn(s)));
  }
}
