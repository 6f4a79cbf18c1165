/** Messages in general: decoding field by field and merging, whatever the message type. The laws that
    every message type of the package relies on are proved here once. */
module Messages {
  import opened Words
  import opened Outcomes
  import opened Varint
  import opened Groups

  /** The content of a known field. */
  datatype Field =
    | IntField(num: nat, word: u64)
    | BytesField(num: nat, data: seq<byte>)
  {
    function WireType(): nat {
      if IntField? then 0 else 2
    }

    function Tag(): nat {
      num * 8 + WireType()
    }

    /** The tag, then the number, or the length and the bytes. */
    function Encode(): seq<byte> {
      if IntField? then EncVarint(Tag()) + EncVarint(word)
      else EncVarint(Tag()) + (EncVarint(|data|) + data)
    }
  }

  function EncodeAll(fs: seq<Field>): seq<byte> {
    if fs == [] then [] else fs[0].Encode() + EncodeAll(fs[1..])
  }

  /** What is at the front of the input, None for a field the message does not know, and its size. */
  type Reader = seq<byte> -> Result<(Option<Field>, pos)>

  datatype Goal<M> = Goal(result: Result<M>, left: M)

  /** A message type: how it reads a field, what it does with it, and what it writes. When a field cannot be read,
      `spoil` is what it leaves behind, and `burst` when its content is refused. */
  datatype Message<!M(!new)> = Message(
    known: map<int, nat>,
    next: Reader,
    empty: M,
    apply: (M, Field) -> Result<M>,
    fields: M -> seq<Field>,
    spoil: (M, seq<byte>) -> M,
    burst: (M, Field) -> M
  ) {
    predicate Handles(f: Field) {
      1 <= f.num < TWO31 && f.num in known && known[f.num] == f.WireType()
    }

    /** Unmarshal into m. (A field never reaches past the input, so the last test is never needed
        with a reader that obeys the laws.) */
    function Decode(s: seq<byte>, m: M): Result<M>
      decreases |s|
    {
      if s == [] then Ok(m)
      else
        var (f, n) :- next(s);
        if n > |s| then Err(OutOfBounds)
        else if f.None? then Decode(s[n..], m)
        else
          var m' :- apply(m, f.value);
          Decode(s[n..], m')
    }

    /** The result of Unmarshal, and what it leaves in m also when it fails. */
    function Ends(s: seq<byte>, m: M): Goal<M>
      decreases |s|
    {
      if s == [] then Goal(Ok(m), m)
      else
        match next(s)
        case Err(e) => Goal(Err(e), spoil(m, s))
        case Ok((f, n)) =>
          if n > |s| then Goal(Err(OutOfBounds), m)
          else if f.None? then Ends(s[n..], m)
          else match apply(m, f.value)
               case Err(e) => Goal(Err(e), burst(m, f.value))
               case Ok(m') => Ends(s[n..], m')
    }

    function Left(s: seq<byte>, m: M): M {
      Ends(s, m).left
    }

    /** Applying fields one after the other. */
    function Fold(fs: seq<Field>, m: M): Result<M> {
      if fs == [] then Ok(m)
      else
        var m' :- apply(m, fs[0]);
        Fold(fs[1..], m')
    }

    /** The known fields of an input, in the order in which they are read, up to the first that is refused. */
    function FieldsIn(s: seq<byte>): seq<Field>
      decreases |s|
    {
      if s == [] || next(s).Err? || next(s).value.1 > |s| then []
      else
        var (f, n) := next(s).value;
        (if f.None? then [] else [f.value]) + FieldsIn(s[n..])
    }

    // ---- What a reader has to obey ----

    ghost predicate Local(s: seq<byte>, t: seq<byte>) {
      next(s).Ok? ==> next(s).value.1 <= |s| && next(s + t) == next(s)
    }

    ghost predicate Reads(f: Field, t: seq<byte>) {
      Handles(f) && (f.BytesField? ==> |f.data| <= MAX_INT) ==>
        next(f.Encode() + t).Ok?
        && next(f.Encode() + t).value.0 == Some(f)
        && next(f.Encode() + t).value.1 == |f.Encode()|
    }

    ghost predicate Tight(s: seq<byte>) {
      next(s).Ok? && next(s).value.0.Some? ==>
        var f := next(s).value.0.value;
        Handles(f) && |f.Encode()| <= next(s).value.1
    }

    ghost predicate ReaderLaws() {
      && (forall s, t :: Local(s, t))
      && (forall f, t :: Reads(f, t))
      && (forall s :: Tight(s))
    }

    // ---- What a message type has to obey ----

    ghost predicate Handled(m: M) {
      forall f | f in fields(m) :: Handles(f)
    }

    function Encode(m: M): seq<byte> {
      EncodeAll(fields(m))
    }

    /** Applying what m writes to an empty message rebuilds m. */
    ghost predicate Rebuilds(m: M) {
      |Encode(m)| <= MAX_INT ==> Fold(fields(m), empty) == Ok(m)
    }

    /** A field adds no more to a size than its own encoding. */
    ghost predicate Grows(size: M -> int, m: M, f: Field) {
      Handles(f) && apply(m, f).Ok? ==> size(apply(m, f).value) <= size(m) + |f.Encode()|
    }

    ghost predicate Shrinks(m: M, f: Field) {
      Grows(m => |Encode(m)|, m, f)
    }

    ghost predicate WritesLaws() {
      && ReaderLaws()
      && fields(empty) == []
      && (forall m :: Handled(m) && Rebuilds(m))
    }

    ghost predicate MessageLaws() {
      && WritesLaws()
      && (forall m, f :: Shrinks(m, f))
    }

    // ---- Concatenation is merge ----

    /** If a is accepted, decoding a + b is decoding b into what a left: scalars take the last value,
        repeated fields append, and errors in b are reported alike. */
    lemma {:induction false} ConcatIsMerge(a: seq<byte>, b: seq<byte>, m: M)
      requires ReaderLaws() && Decode(a, m).Ok?
      ensures Decode(a + b, m) == Decode(b, Decode(a, m).value)
      decreases |a|
    {
      if a == [] {
        assert a + b == b;
      } else {
        assert Local(a, b);
        var (f, n) := next(a).value;
        assert (a + b)[n..] == a[n..] + b;
        ConcatIsMerge(a[n..], b, if f.None? then m else apply(m, f.value).value);
      }
    }

    /** A field the message does not know can be inserted after any accepted prefix. */
    lemma UnknownIsTransparent(a: seq<byte>, u: seq<byte>, b: seq<byte>, m: M)
      requires ReaderLaws() && Decode(a, m).Ok?
      requires next(u).Ok? && next(u).value.0.None? && next(u).value.1 == |u|
      ensures Decode(a + u + b, m) == Decode(a + b, m)
    {
      ConcatIsMerge(a, b, m);
      ConcatIsMerge(a, u + b, m);
      assert a + u + b == a + (u + b);
      assert Local(u, b);
      assert (u + b)[|u|..] == b;
    }

    // ---- Decoding is applying the fields that are there ----

    lemma {:induction false} DecodeIsFold(s: seq<byte>, m: M)
      requires Decode(s, m).Ok?
      ensures Decode(s, m) == Fold(FieldsIn(s), m)
      decreases |s|
    {
      if s != [] {
        var (f, n) := next(s).value;
        if f.None? {
          DecodeIsFold(s[n..], m);
          assert [] + FieldsIn(s[n..]) == FieldsIn(s[n..]);
        } else {
          DecodeIsFold(s[n..], apply(m, f.value).value);
          assert ([f.value] + FieldsIn(s[n..]))[1..] == FieldsIn(s[n..]);
        }
      }
    }

    /** They are fields of this message, and in canonical form they take no more room than the input. */
    lemma {:induction false} FieldsAreTight(s: seq<byte>, m: M)
      requires ReaderLaws() && Decode(s, m).Ok?
      ensures |EncodeAll(FieldsIn(s))| <= |s|
      ensures forall f | f in FieldsIn(s) :: Handles(f)
      decreases |s|
    {
      if s != [] {
        var (f, n) := next(s).value;
        if f.None? {
          FieldsAreTight(s[n..], m);
          assert [] + FieldsIn(s[n..]) == FieldsIn(s[n..]);
        } else {
          assert Tight(s);
          FieldsAreTight(s[n..], apply(m, f.value).value);
          assert ([f.value] + FieldsIn(s[n..]))[1..] == FieldsIn(s[n..]);
        }
      }
    }

    // ---- One turn of the loop of Unmarshal, in the middle of the input ----

    lemma Turn(s: seq<byte>, pre: nat, m: M)
      requires pre < |s| && (next(s[pre..]).Ok? ==> next(s[pre..]).value.1 <= |s| - pre)
      ensures Ends(s[pre..], m) ==
              match next(s[pre..])
              case Err(e) => Goal(Err(e), spoil(m, s[pre..]))
              case Ok(r) =>
                if r.0.None? then Ends(s[pre + r.1..], m)
                else match apply(m, r.0.value)
                case Err(e) => Goal(Err(e), burst(m, r.0.value))
                case Ok(m') => Ends(s[pre + r.1..], m')
    {
      if next(s[pre..]).Ok? {
        var n := next(s[pre..]).value.1;
        assert s[pre..][n..] == s[pre + n..];
      }
    }

    // ---- What is left after a failure ----

    /** The result is that of decoding, and an accepted input leaves it. */
    lemma {:induction false} LeftOfAccepted(s: seq<byte>, m: M)
      ensures Ends(s, m).result == Decode(s, m)
      ensures Decode(s, m).Ok? ==> Left(s, m) == Decode(s, m).value
      decreases |s|
    {
      if s != [] && next(s).Ok? {
        var (f, n) := next(s).value;
        if n <= |s| && f.None? {
          LeftOfAccepted(s[n..], m);
        } else if n <= |s| && apply(m, f.value).Ok? {
          LeftOfAccepted(s[n..], apply(m, f.value).value);
        }
      }
    }

    /** What precedes the failure has its full effect: if a is accepted, a + b leaves what b leaves after a. */
    lemma {:induction false} LeftAfterPrefix(a: seq<byte>, b: seq<byte>, m: M)
      requires ReaderLaws() && Decode(a, m).Ok?
      ensures Left(a + b, m) == Left(b, Decode(a, m).value)
      decreases |a|
    {
      if a == [] {
        assert a + b == b;
      } else {
        assert Local(a, b);
        var (f, n) := next(a).value;
        assert (a + b)[n..] == a[n..] + b;
        LeftAfterPrefix(a[n..], b, if f.None? then m else apply(m, f.value).value);
      }
    }

    // ---- Round trip ----

    lemma {:induction false} DecodeFolds(fs: seq<Field>, m: M)
      requires ReaderLaws()
      requires forall f | f in fs :: Handles(f)
      requires |EncodeAll(fs)| <= MAX_INT
      ensures Decode(EncodeAll(fs), m) == Fold(fs, m)
      decreases |fs|
    {
      if fs != [] {
        var f, rest := fs[0], EncodeAll(fs[1..]);
        assert Reads(f, rest);
        assert (f.Encode() + rest)[|f.Encode()|..] == rest;
        if apply(m, f).Ok? {
          DecodeFolds(fs[1..], apply(m, f).value);
        }
      }
    }

    lemma RoundTrip(m: M)
      requires WritesLaws()
      requires |Encode(m)| <= MAX_INT
      ensures Decode(Encode(m), empty) == Ok(m)
    {
      assert Handled(m) && Rebuilds(m);
      DecodeFolds(fields(m), empty);
    }

    // ---- Canonicalisation ----

    /** Any size that every field respects grows by no more than the input is long. */
    lemma {:induction false} SizeContraction(size: M -> int, s: seq<byte>, m: M)
      requires ReaderLaws() && Decode(s, m).Ok?
      requires forall m, f :: Grows(size, m, f)
      ensures size(Decode(s, m).value) <= size(m) + |s|
      decreases |s|
    {
      if s != [] {
        var (f, n) := next(s).value;
        if f.None? {
          SizeContraction(size, s[n..], m);
        } else {
          assert Tight(s);
          assert Grows(size, m, f.value);
          SizeContraction(size, s[n..], apply(m, f.value).value);
        }
      }
    }

    /** Encoding what was decoded is never longer than the input: overlong varints, repeated fields
        and unknown fields only shrink. */
    lemma Contraction(s: seq<byte>, m: M)
      requires MessageLaws() && Decode(s, m).Ok?
      ensures |Encode(Decode(s, m).value)| <= |Encode(m)| + |s|
    {
      var size := (m: M) => |Encode(m)|;
      forall m, f
        ensures Grows(size, m, f)
      {
        assert Shrinks(m, f);
      }
      SizeContraction(size, s, m);
    }
  }

  // ---- A message type as the type of a field of another ----

  /** What a containing message needs of an embedded one; `left` is what a failed decoding leaves. */
  datatype SubCodec<!T(!new)> = SubCodec(empty: T, enc: T -> seq<byte>, dec: (seq<byte>, T) -> Result<T>,
                                         left: (seq<byte>, T) -> T) {

    ghost predicate RoundTrips(x: T) {
      |enc(x)| <= MAX_INT ==> dec(enc(x), empty) == Ok(x)
    }

    ghost predicate Merges(a: seq<byte>, b: seq<byte>, x: T) {
      dec(a, x).Ok? ==> dec(a + b, x) == dec(b, dec(a, x).value)
    }

    ghost predicate Contracts(s: seq<byte>, x: T) {
      dec(s, x).Ok? ==> |enc(dec(s, x).value)| <= |enc(x)| + |s|
    }

    /** Decoding d adds no more than its length, and `growth(d)`. */
    ghost predicate GainsAt(growth: seq<byte> -> nat, s: seq<byte>, x: T) {
      dec(s, x).Ok? ==> |enc(dec(s, x).value)| <= |enc(x)| + |s| + growth(s)
    }

    ghost predicate WritesBack() {
      forall x :: RoundTrips(x)
    }

    ghost predicate Gains(growth: seq<byte> -> nat) {
      forall s, x :: GainsAt(growth, s, x)
    }

    /** The laws of a message type that writes nothing when it is empty, and never more than it has read. */
    ghost predicate Lawful() {
      && enc(empty) == []
      && WritesBack()
      && (forall a, b, x :: Merges(a, b, x))
      && (forall s, x :: Contracts(s, x))
    }
  }

  function SubOf<M(!new)>(x: Message<M>): SubCodec<M> {
    SubCodec(x.empty, m => x.Encode(m), (s, m) => x.Decode(s, m), (s, m) => x.Left(s, m))
  }

  /** Every message type that obeys the laws can be embedded in another. */
  lemma SubIsLawful<M(!new)>(x: Message<M>)
    requires x.MessageLaws()
    ensures SubOf(x).Lawful()
  {
    var sub := SubOf(x);
    forall m
      ensures sub.RoundTrips(m)
    {
      if |x.Encode(m)| <= MAX_INT {
        x.RoundTrip(m);
      }
    }
    forall a, b, m
      ensures sub.Merges(a, b, m)
    {
      if x.Decode(a, m).Ok? {
        x.ConcatIsMerge(a, b, m);
      }
    }
    forall s, m
      ensures sub.Contracts(s, m)
    {
      if x.Decode(s, m).Ok? {
        x.Contraction(s, m);
      }
    }
  }
}
