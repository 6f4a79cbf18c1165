/** Optional embedded messages: decoding one merges it into the value that is there, or into an empty one. */
module Embedded {
  import opened Words
  import opened Outcomes
  import opened Varint
  import opened Messages
  import opened Parts

  // ---- An embedded message: decoding merges into the one that is there ----

  function OrEmpty<T(!new)>(sub: SubCodec<T>, x: Option<T>): T {
    if x.None? then sub.empty else x.value
  }

  lemma OptSubShrinks<T(!new)>(num: nat, sub: SubCodec<T>, x: Option<T>, d: seq<byte>)
    requires sub.Lawful() && sub.dec(d, OrEmpty(sub, x)).Ok?
    ensures |EncodeAll(OptSub(num, sub, Some(sub.dec(d, OrEmpty(sub, x)).value)))| <=
            |EncodeAll(OptSub(num, sub, x))| + |BytesField(num, d).Encode()|
  {
    var old', new' := OrEmpty(sub, x), sub.dec(d, OrEmpty(sub, x)).value;
    assert sub.Contracts(d, old');
    OptSubSize(num, sub, x);
    OptSubSize(num, sub, Some(new'));
    BytesFieldSize(num, d);
    BytesSizeMono(num, |sub.enc(new')|, |sub.enc(old')| + |d|);
    if x.Some? {
      BytesSizeAdd(num, |sub.enc(old')|, |d|);
    }
  }

  lemma OptSubFits<T(!new)>(num: nat, sub: SubCodec<T>, x: T)
    requires sub.WritesBack() && |EncodeAll(OptSub(num, sub, Some(x)))| <= MAX_INT
    ensures sub.dec(sub.enc(x), sub.empty) == Ok(x)
  {
    OptSubSize(num, sub, Some(x));
    assert sub.RoundTrips(x);
  }

  // ---- Several occurrences, and what they add up to ----

  /** The contents of the fields with a number. */
  function ContentsOf(num: nat, fs: seq<Field>): seq<seq<byte>> {
    if fs == [] then []
    else (if fs[0].BytesField? && fs[0].num == num then [fs[0].data] else []) + ContentsOf(num, fs[1..])
  }

  lemma ContentsStep(num: nat, fs: seq<Field>)
    requires fs != []
    ensures var rest := ContentsOf(num, fs[1..]);
            if fs[0].BytesField? && fs[0].num == num
            then ContentsOf(num, fs) == [fs[0].data] + rest && ([fs[0].data] + rest)[1..] == rest
            else ContentsOf(num, fs) == rest
  {}

  lemma ContentsSize(num: nat, fs: seq<Field>)
    requires fs != []
    ensures |EncodeAll(RepBytes(num, ContentsOf(num, fs)))| ==
            |EncodeAll(RepBytes(num, ContentsOf(num, fs[1..])))| +
            if fs[0].BytesField? && fs[0].num == num then |fs[0].Encode()| else 0
  {
    ContentsStep(num, fs);
  }

  function MergeAll<T(!new)>(sub: SubCodec<T>, x: Option<T>, ds: seq<seq<byte>>): Result<Option<T>>
    decreases |ds|
  {
    if ds == [] then Ok(x)
    else
      var y :- sub.dec(ds[0], OrEmpty(sub, x));
      MergeAll(sub, Some(y), ds[1..])
  }

  function Length(ds: seq<seq<byte>>): nat {
    if ds == [] then 0 else |ds[0]| + Length(ds[1..])
  }

  function Total(growth: seq<byte> -> nat, ds: seq<seq<byte>>): nat {
    if ds == [] then 0 else growth(ds[0]) + Total(growth, ds[1..])
  }

  // ---- The arithmetic of contents and the lengths in front of them ----

  // v(n) is the size of the length in front of n bytes; what follows holds of any monotone and subadditive v.

  ghost predicate Ordered(v: nat -> nat, a: nat, b: nat) {
    a <= b ==> v(a) <= v(b)
  }

  ghost predicate Adds(v: nat -> nat, a: nat, b: nat) {
    v(a + b) <= v(a) + v(b)
  }

  ghost predicate IsPrefix(v: nat -> nat) {
    && (forall a: nat, b: nat :: Ordered(v, a, b))
    && (forall a: nat, b: nat :: Adds(v, a, b))
  }

  lemma SovIsPrefix()
    ensures IsPrefix(Sov)
  {
    forall a: nat, b: nat
      ensures Ordered(Sov, a, b)
    {
      if a <= b {
        SovMono(a, b);
      }
    }
    forall a: nat, b: nat
      ensures Adds(Sov, a, b)
    {
      SovAdd(a, b);
    }
  }

  /** A content and the length in front of it. */
  function Delimited(v: nat -> nat, n: nat): nat {
    n + v(n)
  }

  /** What g more bytes of content can cost, with the length in front of them. */
  function Surplus(v: nat -> nat, g: nat): nat {
    if g == 0 then 0 else Delimited(v, g)
  }

  lemma DelimitedSum(v: nat -> nat, a: nat, b: nat, size: nat)
    requires IsPrefix(v) && size <= a + b
    ensures Delimited(v, size) <= Delimited(v, a) + Surplus(v, b)
  {
    assert Ordered(v, size, a + b) && Adds(v, a, b);
  }

  /** The room that the fields take, each with a tag of h bytes. */
  function FieldsLength(v: nat -> nat, h: nat, ds: seq<seq<byte>>): nat {
    if ds == [] then 0 else h + Delimited(v, |ds[0]|) + FieldsLength(v, h, ds[1..])
  }

  /** One field for all contents is no longer than a field for each. */
  lemma {:induction false} OneFieldForAll(v: nat -> nat, h: nat, ds: seq<seq<byte>>)
    requires IsPrefix(v) && ds != []
    ensures h + Delimited(v, Length(ds)) <= FieldsLength(v, h, ds)
    decreases |ds|
  {
    if |ds| > 1 {
      OneFieldForAll(v, h, ds[1..]);
      DelimitedSum(v, |ds[0]|, Length(ds[1..]), Length(ds));
    }
  }

  /** The value had n bytes if it was there, the contents are merged into it, g bytes are gained, and it has `size`
      bytes now. */
  lemma MergedIn(v: nat -> nat, h: nat, empty: nat, present: bool, n: nat, ds: seq<seq<byte>>, g: nat, size: nat)
    requires IsPrefix(v) && ds != [] && size <= n + Length(ds) + g && (!present ==> n == empty)
    ensures h + Delimited(v, size) <=
            (if present then h + Delimited(v, n) else 0) + FieldsLength(v, h, ds) + Surplus(v, empty + g)
  {
    OneFieldForAll(v, h, ds);
    var more := Length(ds);
    if present {
      DelimitedSum(v, n + more, g, size);
      DelimitedSum(v, n, more, n + more);
      assert Ordered(v, g, empty + g);
    } else {
      DelimitedSum(v, more, empty + g, size);
    }
  }

  // ---- What an embedded message can gain ----

  /** By how much an embedded message can outgrow the fields it was read from: by what its type writes when it is
      empty, and by what its contents gain. */
  function Gain<T(!new)>(sub: SubCodec<T>, growth: seq<byte> -> nat, ds: seq<seq<byte>>): nat {
    if ds == [] then 0 else Surplus(Sov, |sub.enc(sub.empty)| + Total(growth, ds))
  }

  /** A type that writes nothing when it is empty gains only by its contents. */
  lemma GainOfSilent<T(!new)>(sub: SubCodec<T>, growth: seq<byte> -> nat, ds: seq<seq<byte>>)
    requires sub.enc(sub.empty) == []
    ensures Gain(sub, growth, ds) == Surplus(Sov, Total(growth, ds))
  {}

  function Nothing(): seq<byte> -> nat {
    s => 0
  }

  /** A lawful type gains nothing, so that its fields only shrink. */
  lemma {:induction false} LawfulGainsNothing<T(!new)>(sub: SubCodec<T>, ds: seq<seq<byte>>)
    requires sub.Lawful()
    ensures sub.Gains(Nothing()) && Total(Nothing(), ds) == 0 && Gain(sub, Nothing(), ds) == 0
    decreases |ds|
  {
    forall s, x
      ensures sub.GainsAt(Nothing(), s, x)
    {
      assert sub.Contracts(s, x);
    }
    if ds != [] {
      LawfulGainsNothing(sub, ds[1..]);
    }
  }

  lemma {:induction false} MergedSize<T(!new)>(sub: SubCodec<T>, growth: seq<byte> -> nat, x: Option<T>,
                                               ds: seq<seq<byte>>)
    requires sub.Gains(growth) && ds != [] && MergeAll(sub, x, ds).Ok?
    ensures var r := MergeAll(sub, x, ds).value;
            r.Some? && |sub.enc(r.value)| <= |sub.enc(OrEmpty(sub, x))| + Length(ds) + Total(growth, ds)
    decreases |ds|
  {
    assert sub.GainsAt(growth, ds[0], OrEmpty(sub, x));
    if |ds| > 1 {
      MergedSize(sub, growth, Some(sub.dec(ds[0], OrEmpty(sub, x)).value), ds[1..]);
    }
  }

  lemma {:induction false} FieldsLengthIs(num: nat, ds: seq<seq<byte>>)
    ensures |EncodeAll(RepBytes(num, ds))| == FieldsLength(Sov, TagSize(num), ds)
  {
    if ds != [] {
      var f := BytesField(num, ds[0]);
      BytesFieldSize(num, ds[0]);
      FieldsLengthIs(num, ds[1..]);
      assert RepBytes(num, ds) == [f] + RepBytes(num, ds[1..]);
      EncodeAllAppend([f], RepBytes(num, ds[1..]));
      EncodeOne(f);
    }
  }

  lemma OptSubIs<T(!new)>(num: nat, sub: SubCodec<T>, x: Option<T>)
    ensures |EncodeAll(OptSub(num, sub, x))| ==
            if x.Some? then TagSize(num) + Delimited(Sov, |sub.enc(OrEmpty(sub, x))|) else 0
  {
    OptSubSize(num, sub, x);
  }

  lemma EmbeddedBound<T(!new)>(num: nat, sub: SubCodec<T>, growth: seq<byte> -> nat, x: Option<T>,
                               ds: seq<seq<byte>>)
    requires sub.Gains(growth) && MergeAll(sub, x, ds).Ok?
    ensures |EncodeAll(OptSub(num, sub, MergeAll(sub, x, ds).value))| <=
            |EncodeAll(OptSub(num, sub, x))| + |EncodeAll(RepBytes(num, ds))| + Gain(sub, growth, ds)
  {
    if ds != [] {
      MergedSize(sub, growth, x, ds);
      MergedRoom(num, sub, x, ds, Total(growth, ds), MergeAll(sub, x, ds).value);
    }
  }

  lemma MergedRoom<T(!new)>(num: nat, sub: SubCodec<T>, x: Option<T>, ds: seq<seq<byte>>, g: nat, r: Option<T>)
    requires ds != [] && r.Some? && |sub.enc(r.value)| <= |sub.enc(OrEmpty(sub, x))| + Length(ds) + g
    ensures |EncodeAll(OptSub(num, sub, r))| <=
            |EncodeAll(OptSub(num, sub, x))| + |EncodeAll(RepBytes(num, ds))| + Surplus(Sov, |sub.enc(sub.empty)| + g)
  {
    OptSubIs(num, sub, x);
    OptSubIs(num, sub, r);
    FieldsLengthIs(num, ds);
    SovIsPrefix();
    MergedIn(Sov, TagSize(num), |sub.enc(sub.empty)|, x.Some?, |sub.enc(OrEmpty(sub, x))|, ds, g, |sub.enc(r.value)|);
  }

  lemma BytesSizeOrder(num: nat, a: nat, b: nat)
    ensures BytesSize(num, a) <= BytesSize(num, b) <==> a <= b
  {
    if a <= b {
      SovMono(a, b);
    } else {
      SovMono(b, a);
    }
  }

  /** A single field read into an absent message grows if and only if its content does. */
  lemma FieldGrowsExactly<T(!new)>(num: nat, sub: SubCodec<T>, d: seq<byte>, y: T)
    ensures |EncodeAll(OptSub(num, sub, Some(y)))| <= |BytesField(num, d).Encode()| <==> |sub.enc(y)| <= |d|
  {
    OptSubSize(num, sub, Some(y));
    BytesFieldSize(num, d);
    BytesSizeOrder(num, |sub.enc(y)|, |d|);
  }

  /** ... so for an input that is a single embedded field, contraction fails exactly when the content that it leaves
      is longer than the one that was read. */
  lemma OneFieldCanonicalisation<M(!new), T(!new)>(x: Message<M>, num: nat, sub: SubCodec<T>, d: seq<byte>, m: M,
                                                   y: T)
    requires x.ReaderLaws() && x.Handles(BytesField(num, d)) && |d| <= MAX_INT
    requires x.apply(x.empty, BytesField(num, d)) == Ok(m) && x.Encode(m) == EncodeAll(OptSub(num, sub, Some(y)))
    ensures x.Decode(BytesField(num, d).Encode(), x.empty) == Ok(m)
    ensures |x.Encode(m)| <= |BytesField(num, d).Encode()| <==> |sub.enc(y)| <= |d|
  {
    var f := BytesField(num, d);
    assert x.Reads(f, []);
    assert f.Encode() + [] == f.Encode() && f.Encode()[|f.Encode()|..] == [];
    FieldGrowsExactly(num, sub, d, y);
  }
}
