/** The front of a message body: a tag and what follows it. */
module Fields {
  import opened Sequences
  import opened Words
  import opened Outcomes
  import opened Varint
  import opened Groups
  import opened Skip
  import opened Messages

  /** Field number, wire type and size of the tag at the front of s. */
  function TagAt(s: seq<byte>): (r: Result<(nat, nat, nat)>)
    ensures r.Ok? ==> 1 <= r.value.0 < TWO31 && 1 <= r.value.2 <= |s|
  {
    var (wire, n) :- DecVarint(s);
    var num := ToInt32(wire / 8);
    if wire % 8 == 4 then Err(EndGroupTag)
    else if num <= 0 then Err(IllegalTag)
    else Ok((num, wire % 8, n))
  }

  /** The length-delimited payload at the front of s, and its size with the length. */
  function DelimitedAt(s: seq<byte>): (r: Result<(seq<byte>, nat)>)
    ensures r.Ok? ==> 1 <= r.value.1 <= |s| && |r.value.0| < r.value.1
  {
    var (length, n) :- DecVarint(s);
    if length >= TWO63 || n + length > |s| then Err(OutOfBounds)
    else Ok((s[n..n + length], n + length))
  }

  /** The content of the known field that starts at the front of s. */
  function ContentAt(num: nat, wt: nat, s: seq<byte>): (r: Result<(Field, nat)>)
    ensures r.Ok? ==> r.value.1 <= |s|
  {
    if wt == 0 then
      var (v, k) :- DecVarint(s);
      Ok((IntField(num, v), k))
    else
      var (d, k) :- DelimitedAt(s);
      Ok((BytesField(num, d), k))
  }

  /** One turn of the loop of Unmarshal: a known field is read, any other is skipped from its tag on. */
  function NextField(known: map<int, nat>, s: seq<byte>): (r: Result<(Option<Field>, pos)>)
    ensures r.Ok? ==> r.value.1 <= |s|
  {
    var (num, wt, n) :- TagAt(s);
    if num in known then
      if wt != known[num] then Err(WrongWireType)
      else
        var (f, k) :- ContentAt(num, wt, s[n..]);
        Ok((Some(f), n + k))
    else
      var k :- SkipAt(s, 0);
      Ok((None, k))
  }

  function ReaderOf(known: map<int, nat>): Reader {
    s => NextField(known, s)
  }

  /** What a field that cannot be read leaves in m: a number keeps what its loop has read of it. */
  function Spoiled<M(!new)>(known: map<int, nat>, apply: (M, Field) -> Result<M>, m: M, s: seq<byte>): M {
    match TagAt(s)
    case Err(_) => m
    case Ok((num, wt, n)) =>
      if num in known && known[num] == 0 && wt == 0 && apply(m, IntField(num, Partial(s[n..]))).Ok?
      then apply(m, IntField(num, Partial(s[n..]))).value
      else m
  }

  function SpoilOf<M(!new)>(known: map<int, nat>, apply: (M, Field) -> Result<M>): (M, seq<byte>) -> M {
    (m, s) => Spoiled(known, apply, m, s)
  }

  // ---- The reader obeys the laws ----

  lemma TagAppend(s: seq<byte>, t: seq<byte>)
    requires TagAt(s).Ok?
    ensures TagAt(s + t) == TagAt(s)
    ensures (s + t)[TagAt(s).value.2..] == s[TagAt(s).value.2..] + t
  {
    VarintAppend(s, t);
  }

  lemma DelimitedAppend(s: seq<byte>, t: seq<byte>)
    requires DelimitedAt(s).Ok?
    ensures DelimitedAt(s + t) == DelimitedAt(s)
  {
    VarintAppend(s, t);
    var (length, n) := DecVarint(s).value;
    assert (s + t)[n..n + length] == s[n..n + length];
  }

  lemma ContentAppend(num: nat, wt: nat, s: seq<byte>, t: seq<byte>)
    requires ContentAt(num, wt, s).Ok?
    ensures ContentAt(num, wt, s + t) == ContentAt(num, wt, s)
  {
    if wt == 0 {
      VarintAppend(s, t);
    } else {
      DelimitedAppend(s, t);
    }
  }

  lemma NextFieldAppend(known: map<int, nat>, s: seq<byte>, t: seq<byte>)
    requires NextField(known, s).Ok?
    ensures NextField(known, s + t) == NextField(known, s)
  {
    TagAppend(s, t);
    var (num, wt, n) := TagAt(s).value;
    if num in known {
      ContentAppend(num, wt, s[n..], t);
    } else {
      SkipAppend(s, t);
    }
  }

  lemma TagParts(num: nat, wt: nat)
    requires 1 <= num < TWO31 && wt < 8
    ensures (num * 8 + wt) / 8 == num && (num * 8 + wt) % 8 == wt && ToInt32(num) == num
  {}

  lemma EncodedTag(num: nat, wt: nat, t: seq<byte>)
    requires 1 <= num < TWO31 && wt in {0, 2}
    ensures TagAt(EncVarint(num * 8 + wt) + t) == Ok((num, wt, |EncVarint(num * 8 + wt)|))
  {
    TagParts(num, wt);
    VarintRoundTrip(num * 8 + wt, t);
  }

  /** A word is the number and the wire type of its tag, and what truncation to 32 bits loses. */
  lemma TagOfWord(wire: nat, num: nat, wt: nat, lost: nat)
    requires wire == (num + lost * TWO32) * 8 + wt && 1 <= num < TWO31 && wt < 8
    ensures wire / 8 == num + lost * TWO32 && wire % 8 == wt && ToInt32(wire / 8) == num
    ensures wire % 0x8_0000_0000 == num * 8 + wt
    ensures lost == 0 <==> wire < 0x4_0000_0000
  {
    assert wire == 8 * (num + lost * TWO32) + wt;
    ModMultiple(num, lost, TWO32);
    ModMultiple(num * 8 + wt, lost, 0x8_0000_0000);
  }

  lemma WordOfTag(wire: nat)
    requires ToInt32(wire / 8) > 0
    ensures wire == (ToInt32(wire / 8) + wire / 8 / TWO32 * TWO32) * 8 + wire % 8
  {
    assert wire / 8 == wire / 8 / TWO32 * TWO32 + wire / 8 % TWO32;
  }

  /** The number is truncated to 32 bits, so that several tags stand for one field. */
  lemma TagsCollide(num: nat, wt: nat, k: nat, t: seq<byte>)
    requires 1 <= num < TWO31 && wt < 8 && wt != 4
    requires (num + k * TWO32) * 8 + wt < TWO64
    ensures var tag := EncVarint((num + k * TWO32) * 8 + wt); TagAt(tag + t) == Ok((num, wt, |tag|))
  {
    var wire := (num + k * TWO32) * 8 + wt;
    VarintRoundTrip(wire, t);
    TagOfWord(wire, num, wt, k);
  }

  /** An accepted tag keeps its number if and only if its word is below 2^34. */
  lemma TagIsKept(s: seq<byte>)
    requires TagAt(s).Ok?
    ensures var (num, wt, n) := TagAt(s).value;
            var wire := DecVarint(s).value.0;
            && wire == (num + wire / 8 / TWO32 * TWO32) * 8 + wt
            && (wire / 8 == num <==> wire < 0x4_0000_0000)
            && num * 8 + wt == wire % 0x8_0000_0000
  {
    var (num, wt, n) := TagAt(s).value;
    var wire := DecVarint(s).value.0;
    WordOfTag(wire);
    TagOfWord(wire, num, wt, wire / 8 / TWO32);
  }

  /** Two accepted tags stand for the same field and wire type if and only if their words agree modulo 2^35. */
  lemma TagsExactly(s: seq<byte>, t: seq<byte>)
    requires TagAt(s).Ok? && TagAt(t).Ok?
    ensures TagAt(s).value.0 == TagAt(t).value.0 && TagAt(s).value.1 == TagAt(t).value.1 <==>
            DecVarint(s).value.0 % 0x8_0000_0000 == DecVarint(t).value.0 % 0x8_0000_0000
  {
    TagIsKept(s);
    TagIsKept(t);
  }

  lemma EncodedBytes(d: seq<byte>, t: seq<byte>)
    requires |d| <= MAX_INT
    ensures DelimitedAt((EncVarint(|d|) + d) + t) == Ok((d, |EncVarint(|d|) + d|))
  {
    VarintRoundTrip(|d|, d + t);
    DelimitedParts(EncVarint(|d|), d, t);
  }

  lemma DelimitedParts(l: seq<byte>, d: seq<byte>, t: seq<byte>)
    requires |d| <= MAX_INT && DecVarint(l + (d + t)) == Ok((|d|, |l|))
    ensures DelimitedAt((l + d) + t) == Ok((d, |l + d|))
  {
    Associate(l, d, t);
    DropFirst(l, d + t);
    assert ((l + d) + t)[|l|..|l| + |d|] == d;
  }

  function ContentOf(f: Field): seq<byte> {
    if f.IntField? then EncVarint(f.word) else EncVarint(|f.data|) + f.data
  }

  lemma EncodedContent(f: Field, t: seq<byte>)
    requires f.BytesField? ==> |f.data| <= MAX_INT
    ensures ContentAt(f.num, f.WireType(), ContentOf(f) + t) == Ok((f, |ContentOf(f)|))
  {
    if f.IntField? {
      VarintRoundTrip(f.word, t);
    } else {
      EncodedBytes(f.data, t);
    }
  }

  lemma EncodedField(known: map<int, nat>, f: Field, t: seq<byte>)
    requires 1 <= f.num < TWO31 && f.num in known && known[f.num] == f.WireType()
    requires f.BytesField? ==> |f.data| <= MAX_INT
    ensures NextField(known, f.Encode() + t) == Ok((Some(f), |f.Encode()|))
  {
    var tag, content := EncVarint(f.Tag()), ContentOf(f);
    EncodedTag(f.num, f.WireType(), content + t);
    EncodedContent(f, t);
    KnownField(known, f, tag, content, t);
    assert f.Encode() == tag + content;
  }

  lemma KnownField(known: map<int, nat>, f: Field, tag: seq<byte>, content: seq<byte>, t: seq<byte>)
    requires f.num in known && known[f.num] == f.WireType()
    requires TagAt(tag + (content + t)) == Ok((f.num, f.WireType(), |tag|))
    requires ContentAt(f.num, f.WireType(), content + t) == Ok((f, |content|))
    ensures NextField(known, (tag + content) + t) == Ok((Some(f), |tag + content|))
  {
    Associate(tag, content, t);
    DropFirst(tag, content + t);
    KnownAt(known, (tag + content) + t, |tag|, f, |content|);
  }

  lemma KnownAt(known: map<int, nat>, s: seq<byte>, n: nat, f: Field, k: nat)
    requires f.num in known && known[f.num] == f.WireType()
    requires TagAt(s) == Ok((f.num, f.WireType(), n))
    requires ContentAt(f.num, f.WireType(), s[n..]) == Ok((f, k))
    ensures NextField(known, s) == Ok((Some(f), n + k))
  {}

  lemma TagIsShortest(s: seq<byte>)
    requires TagAt(s).Ok?
    ensures |EncVarint(TagAt(s).value.0 * 8 + TagAt(s).value.1)| <= TagAt(s).value.2
  {
    var (wire, n) := DecVarint(s).value;
    DecodedIsShortest(s);
    var canonical := TagAt(s).value.0 * 8 + TagAt(s).value.1;
    SovMono(canonical, wire);
    EncVarintSize(canonical);
  }

  lemma ContentIsShortest(num: nat, wt: nat, s: seq<byte>)
    requires ContentAt(num, wt, s).Ok?
    ensures var (f, k) := ContentAt(num, wt, s).value;
            |f.Encode()| - |EncVarint(f.Tag())| <= k && f.num == num && (wt in {0, 2} ==> f.WireType() == wt)
  {
    DecodedIsShortest(s);
    EncVarintSize(DecVarint(s).value.0);
  }

  lemma NextFieldIsTight(known: map<int, nat>, s: seq<byte>)
    requires NextField(known, s).Ok? && NextField(known, s).value.0.Some?
    requires forall k | k in known :: known[k] in {0, 2}
    ensures var (f, n) := NextField(known, s).value;
            && 1 <= f.value.num < TWO31 && f.value.num in known && known[f.value.num] == f.value.WireType()
            && |f.value.Encode()| <= n
  {
    var (num, wt, n) := TagAt(s).value;
    TagIsShortest(s);
    ContentIsShortest(num, wt, s[n..]);
  }

  lemma ReaderObeys<M(!new)>(x: Message<M>)
    requires x.next == ReaderOf(x.known)
    requires forall k | k in x.known :: x.known[k] in {0, 2}
    ensures x.ReaderLaws()
  {
    forall s, t
      ensures x.Local(s, t)
    {
      if NextField(x.known, s).Ok? {
        NextFieldAppend(x.known, s, t);
      }
    }
    forall f, t
      ensures x.Reads(f, t)
    {
      if x.Handles(f) && (f.BytesField? ==> |f.data| <= MAX_INT) {
        EncodedField(x.known, f, t);
      }
    }
    forall s
      ensures x.Tight(s)
    {
      if NextField(x.known, s).Ok? && NextField(x.known, s).value.0.Some? {
        NextFieldIsTight(x.known, s);
      }
    }
  }

  // ---- Unknown fields ----

  /** The number in the first tag of a wire field. */
  function NumberOf(t: Tree): int {
    if DecVarint(Print(t)).Ok? then ToInt32(DecVarint(Print(t)).value.0 / 8) else 0
  }

  lemma {:induction false} PrintStartsWithTag(t: Tree)
    requires IsField(t)
    ensures DecVarint(Print(t)).Ok? && DecVarint(Print(t)).value.0 % 8 != 4
  {
    if t.Group? {
      VarintAppend(t.open, PrintAll(t.body) + t.close);
    }
  }

  /** A wire field of any shape and depth whose positive number the message does not know is passed
      over exactly. */
  lemma UnknownFieldIsRead(known: map<int, nat>, t: Tree)
    requires IsField(t) && NumberOf(t) > 0 && NumberOf(t) !in known
    ensures NextField(known, Print(t)) == Ok((None, |Print(t)|))
  {
    PrintStartsWithTag(t);
    SkipsAnyField(t, []);
    assert Print(t) + [] == Print(t);
  }

  /** ... so that inserting it at a field boundary changes nothing. */
  lemma UnknownFieldIsTransparent<M(!new)>(x: Message<M>, a: seq<byte>, t: Tree, b: seq<byte>, m: M)
    requires x.next == ReaderOf(x.known)
    requires forall k | k in x.known :: x.known[k] in {0, 2}
    requires IsField(t) && NumberOf(t) > 0 && NumberOf(t) !in x.known
    requires x.Decode(a, m).Ok?
    ensures x.Decode(a + Print(t) + b, m) == x.Decode(a + b, m)
  {
    ReaderObeys(x);
    UnknownFieldIsRead(x.known, t);
    x.UnknownIsTransparent(a, Print(t), b, m);
  }

  // ---- One turn of the loop of Unmarshal, in the middle of the input ----

  /** x reads fields by NextField. */
  ghost predicate ReadsFields<M(!new)>(x: Message<M>) {
    && (forall s {:trigger NextField(x.known, s)} :: x.next(s) == NextField(x.known, s))
    && x.spoil == SpoilOf(x.known, x.apply)
  }

  /** The loop's invariant: the result for the whole input is what is left to do from index i on. */
  ghost predicate Pending<M(!new)>(x: Message<M>, s: seq<byte>, goal: Goal<M>, i: int, m: M) {
    0 <= i <= |s| && goal == x.Ends(s[i..], m)
  }

  /** The state before the first turn. */
  lemma Begin<M(!new)>(y: Message<M>, s: seq<byte>, m: M) returns (x: Message<M>, goal: Goal<M>)
    requires y.next == ReaderOf(y.known) && y.spoil == SpoilOf(y.known, y.apply)
    ensures ReadsFields(x) && x.known == y.known && x.apply == y.apply && x.burst == y.burst
    ensures goal == Goal(y.Decode(s, m), y.Left(s, m)) && Pending(x, s, goal, 0, m)
  {
    x, goal := y, y.Ends(s, m);
    y.LeftOfAccepted(s, m);
    assert s[0..] == s;
  }

  lemma End<M(!new)>(x: Message<M>, s: seq<byte>, goal: Goal<M>, m: M)
    requires Pending(x, s, goal, |s|, m)
    ensures goal == Goal(Ok(m), m)
  {}

  lemma BadTag<M(!new)>(x: Message<M>, s: seq<byte>, goal: Goal<M>, pre: nat, m: M)
    requires ReadsFields(x) && pre < |s| && Pending(x, s, goal, pre, m)
    requires TagAt(s[pre..]).Err?
    ensures goal == Goal(Err(TagAt(s[pre..]).fault), m)
  {
    var r := NextField(x.known, s[pre..]);
    x.Turn(s, pre, m);
  }

  lemma WrongType<M(!new)>(x: Message<M>, s: seq<byte>, goal: Goal<M>, pre: nat, m: M)
    requires ReadsFields(x) && pre < |s| && Pending(x, s, goal, pre, m)
    requires TagAt(s[pre..]).Ok? && TagAt(s[pre..]).value.0 in x.known
    requires x.known[TagAt(s[pre..]).value.0] != TagAt(s[pre..]).value.1
    ensures goal == Goal(Err(WrongWireType), m)
  {
    var r := NextField(x.known, s[pre..]);
    x.Turn(s, pre, m);
  }

  lemma Unknown<M(!new)>(x: Message<M>, s: seq<byte>, goal: Goal<M>, pre: nat, m: M)
    requires ReadsFields(x) && pre < |s| && Pending(x, s, goal, pre, m)
    requires TagAt(s[pre..]).Ok? && TagAt(s[pre..]).value.0 !in x.known
    ensures SkipAt(s[pre..], 0).Err? ==> goal == Goal(Err(SkipAt(s[pre..], 0).fault), m)
    ensures SkipAt(s[pre..], 0).Ok? ==> Pending(x, s, goal, pre + SkipAt(s[pre..], 0).value, m)
  {
    var r := NextField(x.known, s[pre..]);
    x.Turn(s, pre, m);
  }

  /** What is left to do once field f has been read, up to index `next`. */
  ghost predicate Applied<M(!new)>(x: Message<M>, s: seq<byte>, goal: Goal<M>, f: Field, next: int, m: M) {
    match x.apply(m, f)
    case Err(e) => goal == Goal(Err(e), x.burst(m, f))
    case Ok(m') => Pending(x, s, goal, next, m')
  }

  /** A field that is read, up to index `next`. */
  lemma Known<M(!new)>(x: Message<M>, s: seq<byte>, goal: Goal<M>, pre: nat, m: M, f: Field, next: nat)
    requires ReadsFields(x) && pre < next <= |s| && Pending(x, s, goal, pre, m)
    requires NextField(x.known, s[pre..]) == Ok((Some(f), next - pre))
    ensures Applied(x, s, goal, f, next, m)
  {
    x.Turn(s, pre, m);
  }

  /** A field that cannot be read. */
  lemma Refused<M(!new)>(x: Message<M>, s: seq<byte>, goal: Goal<M>, pre: nat, m: M, fault: Fault)
    requires ReadsFields(x) && pre < |s| && Pending(x, s, goal, pre, m)
    requires NextField(x.known, s[pre..]) == Err(fault)
    ensures goal == Goal(Err(fault), Spoiled(x.known, x.apply, m, s[pre..]))
  {
    x.Turn(s, pre, m);
  }

  /** A known length-delimited field, read or refused. */
  lemma KnownBytes<M(!new)>(x: Message<M>, s: seq<byte>, goal: Goal<M>, pre: nat, num: nat, i: nat, m: M,
                            d: seq<byte>, size: nat)
    requires ReadsFields(x) && pre < i <= |s| && Pending(x, s, goal, pre, m)
    requires num in x.known && x.known[num] == 2 && TagAt(s[pre..]) == Ok((num, 2, i - pre))
    requires DelimitedAt(s[i..]) == Ok((d, size))
    ensures Applied(x, s, goal, BytesField(num, d), i + size, m)
  {
    assert s[pre..][i - pre..] == s[i..];
    KnownFront(x.known, s[pre..], num, i - pre, Ok((BytesField(num, d), size)));
    Known(x, s, goal, pre, m, BytesField(num, d), i + size);
  }

  lemma FailedBytes<M(!new)>(x: Message<M>, s: seq<byte>, goal: Goal<M>, pre: nat, num: nat, i: nat, m: M,
                             fault: Fault)
    requires ReadsFields(x) && pre < i <= |s| && Pending(x, s, goal, pre, m)
    requires num in x.known && x.known[num] == 2 && TagAt(s[pre..]) == Ok((num, 2, i - pre))
    requires DelimitedAt(s[i..]) == Err(fault)
    ensures goal == Goal(Err(fault), m)
  {
    assert s[pre..][i - pre..] == s[i..];
    KnownFront(x.known, s[pre..], num, i - pre, Err(fault));
    Refused(x, s, goal, pre, m, fault);
  }

  /** What the object has to hold once the number v has been stored in the field (which happens while it is read,
      so also when reading it fails). */
  ghost predicate Stored<M(!new)>(x: Message<M>, dAtA: seq<byte>, goal: Goal<M>, err: Option<GoError>, f: Field,
                                  next: nat, m: M)
  {
    match x.apply(m, f)
    case Err(_) => true
    case Ok(m') =>
      if err.Some? then goal == Goal(Err(Class(err.value)), m') else Pending(x, dAtA, goal, next, m')
  }

  /** A known number that is read. */
  lemma KnownInt<M(!new)>(x: Message<M>, s: seq<byte>, goal: Goal<M>, pre: nat, num: nat, i: nat, m: M,
                          v: nat, size: nat)
    requires ReadsFields(x) && pre < i <= |s| && Pending(x, s, goal, pre, m)
    requires num in x.known && x.known[num] == 0 && TagAt(s[pre..]) == Ok((num, 0, i - pre))
    requires DecVarint(s[i..]) == Ok((v, size))
    ensures Stored(x, s, goal, None, IntField(num, v), i + size, m)
  {
    assert s[pre..][i - pre..] == s[i..];
    KnownFront(x.known, s[pre..], num, i - pre, Ok((IntField(num, v), size)));
    Known(x, s, goal, pre, m, IntField(num, v), i + size);
  }

  /** A known number that cannot be read. */
  lemma FailedInt<M(!new)>(x: Message<M>, s: seq<byte>, goal: Goal<M>, pre: nat, num: nat, i: nat, m: M,
                           err: GoError, next: nat)
    requires ReadsFields(x) && pre < i <= |s| && Pending(x, s, goal, pre, m)
    requires num in x.known && x.known[num] == 0 && TagAt(s[pre..]) == Ok((num, 0, i - pre))
    requires DecVarint(s[i..]) == Err(Class(err))
    ensures Stored(x, s, goal, Some(err), IntField(num, Partial(s[i..])), next, m)
  {
    assert s[pre..][i - pre..] == s[i..];
    KnownFront(x.known, s[pre..], num, i - pre, Err(Class(err)));
    Refused(x, s, goal, pre, m, Class(err));
    SpoiledNumber(x.known, x.apply, m, s[pre..], num, i - pre);
  }

  lemma IntRead<M(!new)>(x: Message<M>, s: seq<byte>, goal: Goal<M>, pre: nat, num: nat, i: nat, m: M,
                         err: Option<GoError>, word: u64, next: nat)
    requires ReadsFields(x) && pre < i <= |s| && Pending(x, s, goal, pre, m)
    requires num in x.known && x.known[num] == 0 && TagAt(s[pre..]) == Ok((num, 0, i - pre))
    requires err.None? ==> i <= next && DecVarint(s[i..]) == Ok((word, next - i))
    requires err.Some? ==> DecVarint(s[i..]) == Err(Class(err.value)) && word == Partial(s[i..])
    ensures Stored(x, s, goal, err, IntField(num, word), next, m)
  {
    if err.Some? {
      FailedInt(x, s, goal, pre, num, i, m, err.value, next);
    } else {
      KnownInt(x, s, goal, pre, num, i, m, word, next - i);
    }
  }

  lemma SpoiledNumber<M(!new)>(known: map<int, nat>, apply: (M, Field) -> Result<M>, m: M, s: seq<byte>,
                               num: nat, n: nat)
    requires num in known && known[num] == 0 && TagAt(s) == Ok((num, 0, n))
    ensures var partial := apply(m, IntField(num, Partial(s[n..])));
            partial.Ok? ==> Spoiled(known, apply, m, s) == partial.value
  {}

  lemma KnownFront(known: map<int, nat>, s: seq<byte>, num: nat, n: nat, content: Result<(Field, nat)>)
    requires num in known && TagAt(s) == Ok((num, known[num], n))
    requires content == ContentAt(num, known[num], s[n..])
    ensures NextField(known, s) ==
            if content.Err? then Err(content.fault) else Ok((Some(content.value.0), n + content.value.1))
  {}

  // ---- The methods ----

  /** The tag and its checks. */
  method TagLoop(dAtA: seq<byte>, start: nat)
    returns (err: Option<GoError>, fieldNum: int, wireType: nat, next: nat)
    requires start <= |dAtA|
    ensures start <= next <= |dAtA|
    ensures err.None? ==> start < next && TagAt(dAtA[start..]) == Ok((fieldNum, wireType, next - start))
    ensures err.Some? ==> TagAt(dAtA[start..]) == Err(Class(err.value))
  {
    var wire;
    fieldNum, wireType := 0, 0;
    err, wire, next := ReadVarint(dAtA, start);
    if err.Some? {
      return;
    }
    fieldNum := ToInt32(wire / 8);
    wireType := wire % 8;
    if wireType == 4 {
      err := Some(ErrEndGroupForNonGroup);
    } else if fieldNum <= 0 {
      err := Some(ErrIllegalTag);
    }
  }

  /** The length of a bytes, string or message field, with the checks that keep the slice in range:
      a negative length, a sum that wrapped around, and the end of the input. */
  method ReadLength(dAtA: seq<byte>, start: nat)
    returns (err: Option<GoError>, iNdEx: nat, postIndex: int)
    requires start <= |dAtA| <= MAX_INT
    ensures err.None? ==> start < iNdEx <= postIndex <= |dAtA|
    ensures err.None? ==> DelimitedAt(dAtA[start..]) == Ok((dAtA[iNdEx..postIndex], postIndex - start))
    ensures err.Some? ==> DelimitedAt(dAtA[start..]) == Err(Class(err.value))
  {
    var word;
    postIndex := 0;
    err, word, iNdEx := ReadVarint(dAtA, start);
    if err.Some? {
      return;
    }
    var length := ToInt64(word);
    if length < 0 {
      err := Some(ErrInvalidLength);
      return;
    }
    AddIntWraps(iNdEx, length);
    postIndex := AddInt(iNdEx, length);
    if postIndex < 0 {
      err := Some(ErrInvalidLength);
      return;
    }
    if postIndex > |dAtA| {
      err := Some(ErrUnexpectedEOF);
      return;
    }
    assert dAtA[start..][iNdEx - start..postIndex - start] == dAtA[iNdEx..postIndex];
  }

  /** Skip from the tag on, and check the new index. */
  method SkipFrom(dAtA: seq<byte>, preIndex: nat) returns (err: Option<GoError>, next: int)
    requires preIndex <= |dAtA| <= MAX_INT
    ensures err.None? ==> preIndex < next <= |dAtA| && SkipAt(dAtA[preIndex..], 0) == Ok(next - preIndex)
    ensures err.Some? ==> SkipAt(dAtA[preIndex..], 0) == Err(Class(err.value))
  {
    var skippy;
    next := 0;
    err, skippy := SkipField(dAtA[preIndex..]);
    if err.Some? {
      return;
    }
    AddIntWraps(preIndex, skippy);
    if skippy < 0 || AddInt(preIndex, skippy) < 0 {
      err := Some(ErrInvalidLength);
      return;
    }
    if AddInt(preIndex, skippy) > |dAtA| {
      err := Some(ErrUnexpectedEOF);
      return;
    }
    next := AddInt(preIndex, skippy);
  }

  // ---- The same, as turns of a decoding loop ----
  // x is the message type, m its value, and goal the result for the whole input; all three are ghosts.

  /** The start of the loop of every Unmarshal. */
  method ReadTag<M(!new)>(ghost x: Message<M>, dAtA: seq<byte>, ghost goal: Goal<M>, start: nat, ghost m: M)
    returns (err: Option<GoError>, fieldNum: int, wireType: nat, next: nat)
    requires ReadsFields(x) && start < |dAtA| && Pending(x, dAtA, goal, start, m)
    ensures err.None? ==> start < next <= |dAtA| && TagAt(dAtA[start..]) == Ok((fieldNum, wireType, next - start))
    ensures err.Some? ==> goal == Goal(Err(Class(err.value)), m)
  {
    err, fieldNum, wireType, next := TagLoop(dAtA, start);
    if err.Some? {
      BadTag(x, dAtA, goal, start, m);
    }
  }

  /** The case of a bytes, string or message field: the content is `dAtA[iNdEx:postIndex]`. */
  method ReadBytes<M(!new)>(ghost x: Message<M>, dAtA: seq<byte>, ghost goal: Goal<M>, ghost pre: nat, ghost m: M,
                            num: nat, wireType: nat, start: nat)
    returns (err: Option<GoError>, iNdEx: nat, postIndex: int)
    requires ReadsFields(x) && pre < start <= |dAtA| <= MAX_INT && Pending(x, dAtA, goal, pre, m)
    requires num in x.known && x.known[num] == 2 && TagAt(dAtA[pre..]) == Ok((num, wireType, start - pre))
    ensures err.Some? ==> goal == Goal(Err(Class(err.value)), m)
    ensures err.None? ==> start < iNdEx <= postIndex <= |dAtA|
    ensures err.None? ==> Applied(x, dAtA, goal, BytesField(num, dAtA[iNdEx..postIndex]), postIndex, m)
  {
    if wireType != 2 {
      WrongType(x, dAtA, goal, pre, m);
      return Some(ErrWrongWireType), 0, 0;
    }
    err, iNdEx, postIndex := ReadLength(dAtA, start);
    if err.Some? {
      FailedBytes(x, dAtA, goal, pre, num, start, m, Class(err.value));
    } else {
      KnownBytes(x, dAtA, goal, pre, num, start, m, dAtA[iNdEx..postIndex], postIndex - start);
    }
  }

  /** The case of a 64-bit number: unless the wire type is wrong, v is stored in the field. */
  method ReadInt<M(!new)>(ghost x: Message<M>, dAtA: seq<byte>, ghost goal: Goal<M>, ghost pre: nat, ghost m: M,
                          num: nat, wireType: nat, start: nat)
    returns (err: Option<GoError>, stores: bool, v: u64, next: nat)
    requires ReadsFields(x) && pre < start <= |dAtA| && Pending(x, dAtA, goal, pre, m)
    requires num in x.known && x.known[num] == 0 && TagAt(dAtA[pre..]) == Ok((num, wireType, start - pre))
    ensures !stores ==> err.Some? && goal == Goal(Err(Class(err.value)), m)
    ensures stores ==> Stored(x, dAtA, goal, err, IntField(num, v), next, m)
    ensures err.None? ==> start < next <= |dAtA|
  {
    if wireType != 0 {
      WrongType(x, dAtA, goal, pre, m);
      return Some(ErrWrongWireType), false, 0, 0;
    }
    stores := true;
    err, v, next := ReadVarint(dAtA, start);
    IntRead(x, dAtA, goal, pre, num, start, m, err, v, next);
  }

  /** The case of an int32 enum: v is the low half of the word. */
  method ReadEnumField<M(!new)>(ghost x: Message<M>, dAtA: seq<byte>, ghost goal: Goal<M>, ghost pre: nat,
                                ghost m: M, num: nat, wireType: nat, start: nat)
    returns (err: Option<GoError>, stores: bool, v: i32, next: nat, ghost word: u64)
    requires ReadsFields(x) && pre < start <= |dAtA| && Pending(x, dAtA, goal, pre, m)
    requires num in x.known && x.known[num] == 0 && TagAt(dAtA[pre..]) == Ok((num, wireType, start - pre))
    ensures !stores ==> err.Some? && goal == Goal(Err(Class(err.value)), m)
    ensures stores ==> ToInt32(word) == v && Stored(x, dAtA, goal, err, IntField(num, word), next, m)
    ensures err.None? ==> start < next <= |dAtA|
  {
    if wireType != 0 {
      WrongType(x, dAtA, goal, pre, m);
      return Some(ErrWrongWireType), false, 0, 0, 0;
    }
    stores := true;
    err, v, next, word := ReadEnum(dAtA, start);
    IntRead(x, dAtA, goal, pre, num, start, m, err, word, next);
  }

  /** The default case of every Unmarshal. */
  method SkipUnknown<M(!new)>(ghost x: Message<M>, dAtA: seq<byte>, ghost goal: Goal<M>, preIndex: nat, ghost m: M)
    returns (err: Option<GoError>, next: int)
    requires ReadsFields(x) && preIndex < |dAtA| <= MAX_INT && Pending(x, dAtA, goal, preIndex, m)
    requires TagAt(dAtA[preIndex..]).Ok? && TagAt(dAtA[preIndex..]).value.0 !in x.known
    ensures err.Some? ==> goal == Goal(Err(Class(err.value)), m)
    ensures err.None? ==> preIndex < next && Pending(x, dAtA, goal, next, m)
  {
    Unknown(x, dAtA, goal, preIndex, m);
    err, next := SkipFrom(dAtA, preIndex);
  }
}
