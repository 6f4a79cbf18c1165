/** Tags, lengths and payloads in bytes: what is accepted, what is refused and with which fault, and what a refused
    field leaves. */
module WireRules {
  import opened Sequences
  import opened Words
  import opened Outcomes
  import opened Varint
  import opened Groups
  import opened Skip
  import opened Messages
  import opened Fields
  import opened TxResponse
  import opened Lists
  import opened EventStream
  import opened StreamResponse
  import opened Status

  // ---- Tags and lengths ----

  /** A tag is a word: its low three bits are the wire type, and the 32 bits above them the field number, which has to
      be positive as an int32. An end-group tag is refused first. */
  lemma TagRules(wire: u64, t: seq<byte>)
    ensures TagAt(EncVarint(wire) + t) ==
            if wire % 8 == 4 then Err(EndGroupTag)
            else if 1 <= wire / 8 % 0x1_0000_0000 < 0x8000_0000
            then Ok((wire / 8 % 0x1_0000_0000, wire % 8, |EncVarint(wire)|))
            else Err(IllegalTag)
  {
    VarintRoundTrip(wire, t);
  }

  /** A length has to be a non-negative int64, and to fit into what is left. */
  lemma LengthRules(n: u64, t: seq<byte>)
    ensures DelimitedAt(EncVarint(n) + t) ==
            if n < 0x8000_0000_0000_0000 && n <= |t| then Ok((t[..n], |EncVarint(n)| + n)) else Err(OutOfBounds)
  {
    VarintRoundTrip(n, t);
    var l := EncVarint(n);
    if n <= |t| {
      assert (l + t)[|l|..|l| + n] == t[..n];
    }
  }

  // ---- The payloads that the skipper passes over ----

  lemma TagFirst(wire: u64, t: seq<byte>)
    ensures DecVarint(EncVarint(wire) + t) == Ok((wire, |EncVarint(wire)|))
    ensures (EncVarint(wire) + t)[|EncVarint(wire)|..] == t
  {
    VarintRoundTrip(wire, t);
    DropFirst(EncVarint(wire), t);
  }

  lemma SkipsPayload(wire: u64, t: seq<byte>)
    requires wire % 8 != 3 && wire % 8 != 4
    ensures SkipAt(EncVarint(wire) + t, 0) ==
            match PayloadSize(wire % 8, t)
            case Ok(p) => if p <= |t| then Ok(|EncVarint(wire)| + p) else Err(OutOfBounds)
            case Err(e) => Err(e)
  {
    TagFirst(wire, t);
  }

  /** What follows the tag of an unknown field, by its wire type: a varint, eight bytes, a length and as many bytes, or
      four bytes. Wire types 6 and 7 do not exist. */
  lemma SkipRules(wire: u64, t: seq<byte>)
    ensures wire % 8 == 0 ==>
              SkipAt(EncVarint(wire) + t, 0) ==
              if DecVarint(t).Ok? then Ok(|EncVarint(wire)| + DecVarint(t).value.1) else Err(DecVarint(t).fault)
    ensures wire % 8 == 1 ==>
              SkipAt(EncVarint(wire) + t, 0) == if |t| >= 8 then Ok(|EncVarint(wire)| + 8) else Err(OutOfBounds)
    ensures wire % 8 == 5 ==>
              SkipAt(EncVarint(wire) + t, 0) == if |t| >= 4 then Ok(|EncVarint(wire)| + 4) else Err(OutOfBounds)
    ensures wire % 8 == 6 || wire % 8 == 7 ==> SkipAt(EncVarint(wire) + t, 0) == Err(IllegalWireType)
  {
    if wire % 8 != 3 && wire % 8 != 4 {
      SkipsPayload(wire, t);
    }
  }

  lemma SkipsBytes(wire: u64, n: u64, t: seq<byte>)
    requires wire % 8 == 2
    ensures SkipAt(EncVarint(wire) + (EncVarint(n) + t), 0) ==
            if n < 0x8000_0000_0000_0000 && n <= |t| then Ok(|EncVarint(wire)| + |EncVarint(n)| + n)
            else Err(OutOfBounds)
  {
    SkipsPayload(wire, EncVarint(n) + t);
    VarintRoundTrip(n, t);
  }

  /** An end-group tag is refused where no group is open, and ends the group where one is. */
  lemma SkipsGroupEnd(close: u64, t: seq<byte>)
    requires close % 8 == 4
    ensures SkipAt(EncVarint(close) + t, 0) == Err(UnexpectedEndGroup)
    ensures SkipAt(EncVarint(close) + t, 1) == Ok(|EncVarint(close)|)
  {
    TagFirst(close, t);
  }

  /** A start-group tag opens a group, and what follows is skipped inside it; a group that is not ended is refused. */
  lemma SkipsGroupStart(open: u64, t: seq<byte>)
    requires open % 8 == 3
    ensures SkipAt(EncVarint(open) + t, 0) ==
            match SkipAt(t, 1)
            case Ok(n) => Ok(|EncVarint(open)| + n)
            case Err(e) => Err(e)
    ensures SkipAt([], 1) == Err(OutOfBounds)
  {
    TagFirst(open, t);
  }

  /** The strict skipper takes an empty group if and only if both tags have the same number. */
  lemma StrictGroups(open: u64, close: u64, t: seq<byte>)
    requires open % 8 == 3 && close % 8 == 4
    ensures StrictSkip(EncVarint(open) + (EncVarint(close) + t)) ==
            if open / 8 == close / 8 then Some(|EncVarint(open)| + |EncVarint(close)|) else None
  {
    var a, b := EncVarint(open), EncVarint(close);
    NumberOfTag(open, b + t);
    NumberOfTag(close, t);
    StrictPair(a, b, t);
  }

  lemma NumberOfTag(wire: u64, t: seq<byte>)
    requires wire % 8 == 3 || wire % 8 == 4
    ensures NumberIn(EncVarint(wire)) == wire / 8
    ensures Token(EncVarint(wire) + t) == Ok((|EncVarint(wire)|, if wire % 8 == 3 then 1 else -1))
  {
    TagFirst(wire, t);
    TagFirst(wire, []);
    assert EncVarint(wire) + [] == EncVarint(wire);
  }

  lemma StrictPair(a: seq<byte>, b: seq<byte>, t: seq<byte>)
    requires |a| > 0 && |b| > 0 && Token(a + (b + t)) == Ok((|a|, 1)) && Token(b + t) == Ok((|b|, -1))
    ensures StrictSkip(a + (b + t)) == if NumberIn(a) == NumberIn(b) then Some(|a| + |b|) else None
  {
    StrictStart(a, b + t, NumberIn(a));
    StrictEnd(b, t, NumberIn(a), NumberIn(b));
  }

  lemma StrictStart(a: seq<byte>, c: seq<byte>, num: nat)
    requires |a| > 0 && Token(a + c) == Ok((|a|, 1)) && NumberIn(a) == num
    ensures StrictSkip(a + c) == Further(|a|, StrictWith(Token, NumberIn, c, [num]))
  {
    assert (a + c)[..|a|] == a && (a + c)[|a|..] == c;
    assert [] + [num] == [num];
  }

  lemma StrictEnd(b: seq<byte>, t: seq<byte>, open: nat, num: nat)
    requires |b| > 0 && Token(b + t) == Ok((|b|, -1)) && NumberIn(b) == num
    ensures StrictWith(Token, NumberIn, b + t, [open]) == if open == num then Some(|b|) else None
  {
    assert (b + t)[..|b|] == b;
    assert [open][..0] == [];
  }

  // ---- Refused fields, and what they leave ----

  /** Reads fields by the shared reader. */
  ghost predicate Shared<M(!new)>(x: Message<M>) {
    x.next == ReaderOf(x.known) && x.spoil == SpoilOf(x.known, x.apply)
  }

  lemma NextRules(known: map<int, nat>, num: nat, wt: nat, t: seq<byte>)
    requires 1 <= num < 0x8000_0000 && wt < 8 && wt != 4 && (num in known ==> known[num] != wt)
    ensures var s := EncVarint(num * 8 + wt) + t;
            NextField(known, s) == if num in known then Err(WrongWireType)
                                   else if SkipAt(s, 0).Ok? then Ok((None, SkipAt(s, 0).value))
                                   else Err(SkipAt(s, 0).fault)
  {
    TagParts(num, wt);
    TagRules(num * 8 + wt, t);
  }

  /** A known number with the wrong wire type, a tag that is refused, and an unknown field that cannot be skipped
      leave the message as it is. */
  lemma WrongTypeRules<M(!new)>(x: Message<M>, num: nat, wt: nat, t: seq<byte>, m: M)
    requires Shared(x) && 1 <= num < 0x8000_0000 && num in x.known && wt < 8 && wt != 4 && x.known[num] != wt
    ensures x.Ends(EncVarint(num * 8 + wt) + t, m) == Goal(Err(WrongWireType), m)
  {
    NextRules(x.known, num, wt, t);
    TagParts(num, wt);
    TagRules(num * 8 + wt, t);
    assert x.spoil(m, EncVarint(num * 8 + wt) + t) == m;
  }

  lemma BadTagRules<M(!new)>(x: Message<M>, wire: u64, t: seq<byte>, m: M)
    requires Shared(x) && (wire % 8 == 4 || wire / 8 % 0x1_0000_0000 == 0 || wire / 8 % 0x1_0000_0000 >= 0x8000_0000)
    ensures x.Ends(EncVarint(wire) + t, m) == Goal(Err(if wire % 8 == 4 then EndGroupTag else IllegalTag), m)
  {
    TagRules(wire, t);
  }

  /** A bytes field whose content does not fit leaves the message as it is. */
  lemma ShortContentRules<M(!new)>(x: Message<M>, num: nat, n: u64, t: seq<byte>, m: M)
    requires Shared(x) && 1 <= num < 0x8000_0000 && num in x.known && x.known[num] == 2
    requires n >= 0x8000_0000_0000_0000 || n > |t|
    ensures x.Ends(EncVarint(num * 8 + 2) + (EncVarint(n) + t), m) == Goal(Err(OutOfBounds), m)
  {
    var tag, rest := EncVarint(num * 8 + 2), EncVarint(n) + t;
    EncodedTag(num, 2, rest);
    DropFirst(tag, rest);
    LengthRules(n, t);
    KnownFront(x.known, tag + rest, num, |tag|, Err(OutOfBounds));
  }

  /** A number that cannot be read keeps the sum of the bytes that are there. */
  lemma BrokenNumber<M(!new)>(x: Message<M>, num: nat, t: seq<byte>, m: M)
    requires Shared(x) && 1 <= num < 0x8000_0000 && num in x.known && x.known[num] == 0
    requires DecVarint(t).Err? && x.apply(m, IntField(num, Partial(t))).Ok?
    ensures x.Ends(EncVarint(num * 8) + t, m) ==
            Goal(Err(DecVarint(t).fault), x.apply(m, IntField(num, Partial(t))).value)
  {
    var tag := EncVarint(num * 8);
    EncodedTag(num, 0, t);
    DropFirst(tag, t);
    KnownFront(x.known, tag + t, num, |tag|, Err(DecVarint(t).fault));
    SpoiledNumber(x.known, x.apply, m, tag + t, num, |tag|);
  }

  lemma BrokenEventsNumber<E(!new)>(sub: SubCodec<E>, m: EventsV<E>, t: seq<byte>)
    requires DecVarint(t).Err?
    ensures EventsMessage(sub).Ends([0x08] + t, m) == Goal(Err(DecVarint(t).fault), m.(height := Partial(t)))
    ensures EventsMessage(sub).Ends([0x10] + t, m) == Goal(Err(DecVarint(t).fault), m.(time := Partial(t)))
  {
    BrokenNumber(EventsMessage(sub), 1, t, m);
    BrokenNumber(EventsMessage(sub), 2, t, m);
  }

  lemma BrokenSyncNumber(m: SyncStatusV, t: seq<byte>)
    requires DecVarint(t).Err?
    ensures SyncMessage().Ends([0x08] + t, m) == Goal(Err(DecVarint(t).fault), m.(lastBlock := Partial(t)))
    ensures SyncMessage().Ends([0x10] + t, m) == Goal(Err(DecVarint(t).fault), m.(lastBlockTime := ToInt64(Partial(t))))
    ensures SyncMessage().Ends([0x18] + t, m) == Goal(Err(DecVarint(t).fault), m.(updatedAt := ToInt64(Partial(t))))
  {
    BrokenNumber(SyncMessage(), 1, t, m);
    BrokenNumber(SyncMessage(), 2, t, m);
    BrokenNumber(SyncMessage(), 3, t, m);
  }

  lemma BrokenOp<E(!new)>(blocks: SubCodec<E>, m: NewBlockV<E>, t: seq<byte>)
    requires DecVarint(t).Err?
    ensures NewBlockMessage(blocks).Ends([0x08] + t, m) == Goal(Err(DecVarint(t).fault), m.(op := ToInt32(Partial(t))))
  {
    BrokenNumber(NewBlockMessage(blocks), 1, t, m);
  }

  /** Every message type reads its fields in this way, and these are the fields it knows: 0 is a number, 2 has a
      length. */
  lemma KnownFields<T(!new), E(!new), A(!new), B(!new)>(any: SubCodec<T>, sub: SubCodec<E>, ids: SubCodec<A>,
                                                       blocks: SubCodec<B>)
    ensures Shared(GenericMessage()) && GenericMessage().known == map[1 := 2, 2 := 2]
    ensures Shared(ListMessage(sub)) && ListMessage(sub).known == map[1 := 2]
    ensures Shared(AnyEventMessage(any)) && AnyEventMessage(any).known == map[2 := 2, 3 := 2]
    ensures Shared(EventsMessage(sub))
    ensures EventsMessage(sub).known == map[1 := 0, 2 := 0, 3 := 2, 4 := 2, 5 := 2, 6 := 2]
    ensures Shared(SyncMessage()) && SyncMessage().known == map[1 := 0, 2 := 0, 3 := 0, 4 := 2]
    ensures Shared(BlockMessage(ids, blocks)) && BlockMessage(ids, blocks).known == map[1 := 2, 2 := 2]
    ensures Shared(NewBlockMessage(blocks)) && NewBlockMessage(blocks).known == map[1 := 0, 2 := 2]
  {}

  // ---- Unknown fields ----

  /** A field with any other number is skipped, and does nothing. */
  lemma OthersAreSkipped<M(!new)>(x: Message<M>, num: nat, wt: nat, t: seq<byte>, m: M)
    requires Shared(x) && 1 <= num < 0x8000_0000 && num !in x.known && wt < 8 && wt != 4
    ensures var s := EncVarint(num * 8 + wt) + t;
            x.Ends(s, m) == if SkipAt(s, 0).Ok? then x.Ends(s[SkipAt(s, 0).value..], m)
                            else Goal(Err(SkipAt(s, 0).fault), m)
  {
    var s := EncVarint(num * 8 + wt) + t;
    NextRules(x.known, num, wt, t);
    TagParts(num, wt);
    TagRules(num * 8 + wt, t);
    assert x.spoil(m, s) == m;
    assert x.next(s) == NextField(x.known, s);
  }
}
