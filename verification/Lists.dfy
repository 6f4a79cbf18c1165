/** A message whose one field is a repeated message, numbered 1: TxResponseData and ModuleEvents. */
module Lists {
  import opened Words
  import opened Outcomes
  import opened Messages
  import opened Fields
  import opened Parts

  const LIST_KNOWN: map<int, nat> := map[1 := 2]

  /** Every occurrence of the field appends a fresh element. */
  function ApplyList<T(!new)>(sub: SubCodec<T>, xs: seq<T>, f: Field): Result<seq<T>> {
    match f
    case BytesField(1, d) =>
      var x :- sub.dec(d, sub.empty);
      Ok(xs + [x])
    case _ => Ok(xs)
  }

  /** An element that is refused has been appended, with what its decoding left. */
  function BurstList<T(!new)>(sub: SubCodec<T>, xs: seq<T>, f: Field): seq<T> {
    if f.BytesField? then xs + [sub.left(f.data, sub.empty)] else xs
  }

  function ListMessage<T(!new)>(sub: SubCodec<T>): Message<seq<T>> {
    var apply := (xs, f) => ApplyList(sub, xs, f);
    Message(LIST_KNOWN, ReaderOf(LIST_KNOWN), [], apply, xs => RepSub(1, sub, xs),
            SpoilOf(LIST_KNOWN, apply), (xs, f) => BurstList(sub, xs, f))
  }

  /** No element of a repeated field is longer than the whole. */
  lemma {:induction false} ElementFits(num: nat, ds: seq<seq<byte>>)
    requires |EncodeAll(RepBytes(num, ds))| <= MAX_INT
    ensures forall d | d in ds :: |d| <= MAX_INT
  {
    if ds != [] {
      ElementFits(num, ds[1..]);
      BytesFieldSize(num, ds[0]);
    }
  }

  lemma {:induction false} EachIsThere<T(!new)>(sub: SubCodec<T>, xs: seq<T>, limit: nat)
    requires forall d | d in EncodeEach(sub, xs) :: |d| <= limit
    ensures forall x | x in xs :: |sub.enc(x)| <= limit
  {
    if xs != [] {
      EachIsThere(sub, xs[1..], limit);
    }
  }

  /** Elements come back in order, empty ones included. */
  lemma {:induction false} ListFolds<T(!new)>(sub: SubCodec<T>, xs: seq<T>, ys: seq<T>)
    requires sub.Lawful()
    requires forall y | y in ys :: |sub.enc(y)| <= MAX_INT
    ensures ListMessage(sub).Fold(RepSub(1, sub, ys), xs) == Ok(xs + ys)
    decreases |ys|
  {
    if ys == [] {
      assert xs + ys == xs;
    } else {
      assert sub.RoundTrips(ys[0]);
      ListFolds(sub, xs + [ys[0]], ys[1..]);
      assert (xs + [ys[0]]) + ys[1..] == xs + ys;
      var fs := RepSub(1, sub, ys);
      assert fs[0] == BytesField(1, sub.enc(ys[0])) && fs[1..] == RepSub(1, sub, ys[1..]);
    }
  }

  lemma ListRebuilds<T(!new)>(sub: SubCodec<T>, xs: seq<T>)
    requires sub.Lawful()
    ensures ListMessage(sub).Handled(xs) && ListMessage(sub).Rebuilds(xs)
  {
    if |ListMessage(sub).Encode(xs)| <= MAX_INT {
      ElementFits(1, EncodeEach(sub, xs));
      EachIsThere(sub, xs, MAX_INT);
      ListFolds(sub, [], xs);
      assert [] + xs == xs;
    }
  }

  /** What a payload decodes to is encoded in a field no longer than the one it came from. */
  lemma DecodedFieldShrinks<T(!new)>(num: nat, sub: SubCodec<T>, d: seq<byte>)
    requires sub.Lawful() && sub.dec(d, sub.empty).Ok?
    ensures |BytesField(num, sub.enc(sub.dec(d, sub.empty).value)).Encode()| <= |BytesField(num, d).Encode()|
  {
    var x := sub.dec(d, sub.empty).value;
    assert sub.Contracts(d, sub.empty);
    BytesFieldSize(num, sub.enc(x));
    BytesFieldSize(num, d);
    BytesSizeMono(num, |sub.enc(x)|, |d|);
  }

  lemma ListShrinks<T(!new)>(sub: SubCodec<T>, xs: seq<T>, f: Field)
    requires sub.Lawful()
    ensures ListMessage(sub).Shrinks(xs, f)
  {
    if ListMessage(sub).Handles(f) && ApplyList(sub, xs, f).Ok? {
      DecodedFieldShrinks(1, sub, f.data);
      RepSubSnoc(1, sub, xs, sub.dec(f.data, sub.empty).value);
    }
  }

  lemma ListLaws<T(!new)>(sub: SubCodec<T>)
    requires sub.Lawful()
    ensures ListMessage(sub).MessageLaws()
  {
    var x := ListMessage(sub);
    ReaderObeys(x);
    forall xs
      ensures x.Handled(xs) && x.Rebuilds(xs)
    {
      ListRebuilds(sub, xs);
    }
    forall xs, f
      ensures x.Shrinks(xs, f)
    {
      ListShrinks(sub, xs, f);
    }
  }
}
