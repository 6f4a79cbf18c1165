/** The kinds of field a message is made of: what they write, how long that is, and how it is written
    into the buffer from the back. */
module Parts {
  import opened Sequences
  import opened Words
  import opened Outcomes
  import opened Buffers
  import opened Varint
  import opened Messages

  // ---- Fields of the encoding ----

  /** A proto3 scalar: zero is not written. */
  function OptInt(num: nat, v: u64): seq<Field> {
    if v == 0 then [] else [IntField(num, v)]
  }

  /** A string or bytes field: empty is not written. */
  function OptBytes(num: nat, d: seq<byte>): seq<Field> {
    if d == [] then [] else [BytesField(num, d)]
  }

  /** A repeated string field: every element is written, also an empty one. */
  function RepBytes(num: nat, ds: seq<seq<byte>>): (fs: seq<Field>)
    ensures |fs| == |ds|
    ensures forall f | f in fs :: f.BytesField? && f.num == num
  {
    if ds == [] then [] else [BytesField(num, ds[0])] + RepBytes(num, ds[1..])
  }

  /** The encodings of the elements of a repeated message field. */
  function EncodeEach<T(!new)>(sub: SubCodec<T>, xs: seq<T>): (ds: seq<seq<byte>>)
    ensures |ds| == |xs|
  {
    if xs == [] then [] else [sub.enc(xs[0])] + EncodeEach(sub, xs[1..])
  }

  function RepSub<T(!new)>(num: nat, sub: SubCodec<T>, xs: seq<T>): seq<Field> {
    RepBytes(num, EncodeEach(sub, xs))
  }

  /** An embedded message: written when present, also if it is empty. */
  function OptSub<T(!new)>(num: nat, sub: SubCodec<T>, x: Option<T>): seq<Field> {
    if x.None? then [] else [BytesField(num, sub.enc(x.value))]
  }

  lemma {:induction false} EncodeAllAppend(a: seq<Field>, b: seq<Field>)
    ensures EncodeAll(a + b) == EncodeAll(a) + EncodeAll(b)
  {
    if a == [] {
      assert a + b == b;
    } else {
      assert (a + b)[1..] == a[1..] + b;
      EncodeAllAppend(a[1..], b);
    }
  }

  lemma EncodeOne(f: Field)
    ensures EncodeAll([f]) == f.Encode()
  {
    assert EncodeAll([f][1..]) == [];
  }

  lemma {:induction false} RepBytesAppend(num: nat, a: seq<seq<byte>>, b: seq<seq<byte>>)
    ensures RepBytes(num, a + b) == RepBytes(num, a) + RepBytes(num, b)
  {
    if a == [] {
      assert a + b == b;
    } else {
      assert (a + b)[1..] == a[1..] + b;
      RepBytesAppend(num, a[1..], b);
    }
  }

  lemma {:induction false} EncodeEachAppend<T(!new)>(sub: SubCodec<T>, a: seq<T>, b: seq<T>)
    ensures EncodeEach(sub, a + b) == EncodeEach(sub, a) + EncodeEach(sub, b)
  {
    if a == [] {
      assert a + b == b;
    } else {
      assert (a + b)[1..] == a[1..] + b;
      EncodeEachAppend(sub, a[1..], b);
    }
  }

  /** One more element adds exactly its field. */
  lemma RepBytesSnoc(num: nat, ds: seq<seq<byte>>, d: seq<byte>)
    ensures EncodeAll(RepBytes(num, ds + [d])) == EncodeAll(RepBytes(num, ds)) + BytesField(num, d).Encode()
  {
    RepBytesAppend(num, ds, [d]);
    assert RepBytes(num, [d]) == [BytesField(num, d)] by { assert [d][1..] == []; }
    EncodeAllAppend(RepBytes(num, ds), [BytesField(num, d)]);
    EncodeOne(BytesField(num, d));
  }

  lemma RepSubSnoc<T(!new)>(num: nat, sub: SubCodec<T>, xs: seq<T>, x: T)
    ensures EncodeAll(RepSub(num, sub, xs + [x])) ==
            EncodeAll(RepSub(num, sub, xs)) + BytesField(num, sub.enc(x)).Encode()
  {
    EncodeEachAppend(sub, xs, [x]);
    assert EncodeEach(sub, [x]) == [sub.enc(x)] by { assert [x][1..] == []; }
    RepBytesSnoc(num, EncodeEach(sub, xs), sub.enc(x));
  }

  lemma {:induction false} EncodeEachAt<T(!new)>(sub: SubCodec<T>, xs: seq<T>, k: nat)
    requires k < |xs|
    ensures EncodeEach(sub, xs)[k] == sub.enc(xs[k])
  {
    if k > 0 {
      EncodeEachAt(sub, xs[1..], k - 1);
    }
  }

  /** The suffix from k on starts with the field of element k. */
  lemma RepBytesSuffix(num: nat, ds: seq<seq<byte>>, k: nat)
    requires k < |ds|
    ensures EncodeAll(RepBytes(num, ds[k..])) ==
            BytesField(num, ds[k]).Encode() + EncodeAll(RepBytes(num, ds[k + 1..]))
  {
    assert ds[k..][1..] == ds[k + 1..];
    assert RepBytes(num, ds[k..])[1..] == RepBytes(num, ds[k + 1..]);
  }

  /** Prefix and suffix sizes add up. */
  lemma RepBytesSplit(num: nat, ds: seq<seq<byte>>, k: nat)
    requires k <= |ds|
    ensures |EncodeAll(RepBytes(num, ds))| ==
            |EncodeAll(RepBytes(num, ds[..k]))| + |EncodeAll(RepBytes(num, ds[k..]))|
  {
    assert ds == ds[..k] + ds[k..];
    RepBytesAppend(num, ds[..k], ds[k..]);
    EncodeAllAppend(RepBytes(num, ds[..k]), RepBytes(num, ds[k..]));
  }

  /** What Size adds for one more element. */
  lemma RepBytesSizeStep(num: nat, ds: seq<seq<byte>>, k: nat)
    requires num <= 15 && k < |ds|
    ensures |EncodeAll(RepBytes(num, ds[..k + 1]))| ==
            |EncodeAll(RepBytes(num, ds[..k]))| + 1 + |ds[k]| + Sov(|ds[k]|)
  {
    assert ds[..k + 1] == ds[..k] + [ds[k]];
    RepBytesSnoc(num, ds[..k], ds[k]);
    HeadOfBytesField(num, ds[k]);
  }

  // ---- Sizes ----

  /** The size of the encoding of a bytes field of n bytes. */
  function BytesSize(num: nat, n: nat): nat {
    TagSize(num) + Sov(n) + n
  }

  function TagSize(num: nat): nat {
    |EncVarint(num * 8 + 2)|
  }

  lemma BytesFieldSize(num: nat, d: seq<byte>)
    ensures |BytesField(num, d).Encode()| == BytesSize(num, |d|)
  {
    EncVarintSize(|d|);
  }

  lemma BytesSizeMono(num: nat, a: nat, b: nat)
    requires a <= b
    ensures BytesSize(num, a) <= BytesSize(num, b)
  {
    SovMono(a, b);
  }

  /** Two fields cost at least as much as one that holds both contents. */
  lemma BytesSizeAdd(num: nat, a: nat, b: nat)
    ensures BytesSize(num, a + b) <= BytesSize(num, a) + BytesSize(num, b)
  {
    SovAdd(a, b);
  }

  /** The size of an optional bytes field. */
  function OptSize(num: nat, n: nat): nat {
    if n == 0 then 0 else BytesSize(num, n)
  }

  lemma OptBytesSize(num: nat, d: seq<byte>)
    ensures |EncodeAll(OptBytes(num, d))| == OptSize(num, |d|)
    ensures |EncodeAll(OptBytes(num, d))| <= |BytesField(num, d).Encode()|
  {
    BytesFieldSize(num, d);
    if d != [] {
      EncodeOne(BytesField(num, d));
    }
  }

  lemma OptSubSize<T(!new)>(num: nat, sub: SubCodec<T>, x: Option<T>)
    ensures |EncodeAll(OptSub(num, sub, x))| == if x.None? then 0 else BytesSize(num, |sub.enc(x.value)|)
  {
    if x.Some? {
      BytesFieldSize(num, sub.enc(x.value));
      EncodeOne(BytesField(num, sub.enc(x.value)));
    }
  }

  lemma OptIntSize(num: nat, v: u64)
    ensures |EncodeAll(OptInt(num, v))| <= |IntField(num, v).Encode()|
    ensures v != 0 ==> EncodeAll(OptInt(num, v)) == IntField(num, v).Encode()
  {
    if v != 0 {
      EncodeOne(IntField(num, v));
    }
  }

  // ---- Folding ----

  lemma {:induction false} FoldAppend<M(!new)>(x: Message<M>, a: seq<Field>, b: seq<Field>, m: M)
    requires x.Fold(a, m).Ok?
    ensures x.Fold(a + b, m) == x.Fold(b, x.Fold(a, m).value)
  {
    if a == [] {
      assert a + b == b;
    } else {
      assert (a + b)[1..] == a[1..] + b;
      FoldAppend(x, a[1..], b, x.apply(m, a[0]).value);
    }
  }

  lemma FoldOne<M(!new)>(x: Message<M>, f: Field, m: M)
    ensures x.Fold([f], m) == x.apply(m, f)
  {
    assert [f][1..] == [];
  }

  /** An optional field: nothing to do when it is absent, one step when it is there. */
  lemma FoldOptional<M(!new)>(x: Message<M>, fs: seq<Field>, m: M, n: M)
    requires |fs| <= 1
    requires fs == [] ==> m == n
    requires |fs| == 1 ==> x.apply(m, fs[0]) == Ok(n)
    ensures x.Fold(fs, m) == Ok(n)
  {
    if |fs| == 1 {
      assert fs == [fs[0]];
      FoldOne(x, fs[0], m);
    }
  }

  lemma FoldFour<M(!new)>(x: Message<M>, a: seq<Field>, b: seq<Field>, c: seq<Field>, d: seq<Field>,
                          m0: M, m1: M, m2: M, m3: M, m4: M)
    requires x.Fold(a, m0) == Ok(m1) && x.Fold(b, m1) == Ok(m2) && x.Fold(c, m2) == Ok(m3) && x.Fold(d, m3) == Ok(m4)
    ensures x.Fold(a + (b + c) + d, m0) == Ok(m4)
  {
    FoldAppend(x, b, c, m1);
    FoldAppend(x, a, b + c, m0);
    FoldAppend(x, a + (b + c), d, m0);
  }

  // ---- The parts of Size ----

  method SizeOptInt(num: nat, v: u64) returns (n: nat)
    requires num <= 15
    ensures n == |EncodeAll(OptInt(num, v))|
  {
    n := 0;
    if v != 0 {
      n := 1 + Sov(v);
      OneByteTag(num * 8);
      EncVarintSize(v);
      EncodeOne(IntField(num, v));
    }
  }

  method SizeOptBytes(num: nat, d: seq<byte>) returns (n: nat)
    requires num <= 15
    ensures n == |EncodeAll(OptBytes(num, d))|
  {
    var l := |d|;
    n := 0;
    if l > 0 {
      n := 1 + l + Sov(l);
      HeadOfBytesField(num, d);
      EncodeOne(BytesField(num, d));
    }
  }

  method SizeOptSub<T(!new)>(num: nat, sub: SubCodec<T>, x: Option<T>) returns (n: nat)
    requires num <= 15
    ensures n == |EncodeAll(OptSub(num, sub, x))|
  {
    n := 0;
    if x.Some? {
      var l := |sub.enc(x.value)|;
      n := 1 + l + Sov(l);
      HeadOfBytesField(num, sub.enc(x.value));
      EncodeOne(BytesField(num, sub.enc(x.value)));
    }
  }

  method SizeStrings(num: nat, ds: seq<seq<byte>>) returns (n: nat)
    requires num <= 15
    ensures n == |EncodeAll(RepBytes(num, ds))|
  {
    n := 0;
    for k := 0 to |ds|
      invariant n == |EncodeAll(RepBytes(num, ds[..k]))|
    {
      var l := |ds[k]|;
      n := n + 1 + l + Sov(l);
      RepBytesSizeStep(num, ds, k);
    }
    assert ds[..|ds|] == ds;
  }

  // ---- Writing a field in front of what is already there ----

  lemma OneByteTag(tag: nat)
    requires tag < 128
    ensures EncVarint(tag) == [tag]
  {}

  /** `i = encodeVarint(dAtA, i, n); i--; dAtA[i] = tag` */
  method PutTagged(dAtA: array<byte>, i: nat, tag: byte, n: u64) returns (at: nat)
    requires tag < 128 && Sov(n) + 1 <= i <= dAtA.Length
    modifies dAtA
    ensures at == i - |[tag] + EncVarint(n)|
    ensures dAtA[..] == Splice(old(dAtA[..]), at, [tag] + EncVarint(n))
  {
    ghost var before := dAtA[..];
    at := EncodeVarint(dAtA, i, n);
    at := at - 1;
    Put(dAtA, at, tag);
    SpliceBefore(before, at, [tag], EncVarint(n));
  }

  // In the methods below, `done` is what has been written into `before` so far, from index i on.

  /** Puts length and tag in front of a content that has just been written. */
  method PutHead(dAtA: array<byte>, i: nat, num: nat, size: nat,
                 ghost before: seq<byte>, ghost content: seq<byte>, ghost done: seq<byte>)
    returns (at: nat)
    requires num <= 15 && size == |content| <= MAX_INT && i + size <= dAtA.Length
    requires |BytesField(num, content).Encode()| <= i + size
    requires Wrote(dAtA[..], before, i, content + done)
    modifies dAtA
    ensures at == i + size - |BytesField(num, content).Encode()|
    ensures Wrote(dAtA[..], before, at, BytesField(num, content).Encode() + done)
  {
    HeadOfBytesField(num, content);
    var head := [num * 8 + 2] + EncVarint(size);
    ghost var buf := dAtA[..];
    at := PutTagged(dAtA, i, num * 8 + 2, size);
    WroteMore(buf, before, at, head, content + done);
    assert head + (content + done) == (head + content) + done;
  }

  /** The lines the generator emits around an embedded message: its content has just been written into
      `buf`, up to index end. */
  method PutMessage(dAtA: array<byte>, end: nat, num: nat, size: nat, ghost buf: seq<byte>,
                    ghost before: seq<byte>, ghost content: seq<byte>, ghost done: seq<byte>)
    returns (at: nat)
    requires num <= 15 && size == |content| <= MAX_INT
    requires |BytesField(num, content).Encode()| <= end <= dAtA.Length
    requires Wrote(dAtA[..], buf, end - size, content) && Wrote(buf, before, end, done)
    modifies dAtA
    ensures at == end - |BytesField(num, content).Encode()|
    ensures Wrote(dAtA[..], before, at, BytesField(num, content).Encode() + done)
  {
    var i := end - size;
    WroteTwice(dAtA[..], buf, before, i, end, content, done);
    at := PutHead(dAtA, i, num, size, before, content, done);
  }

  /** The lines the generator emits for one bytes or string field. */
  method PutBytesField(dAtA: array<byte>, i: nat, num: nat, data: seq<byte>,
                       ghost before: seq<byte>, ghost done: seq<byte>) returns (at: nat)
    requires num <= 15 && |BytesField(num, data).Encode()| <= i <= dAtA.Length <= MAX_INT
    requires Wrote(dAtA[..], before, i, done)
    modifies dAtA
    ensures at == i - |BytesField(num, data).Encode()|
    ensures Wrote(dAtA[..], before, at, BytesField(num, data).Encode() + done)
  {
    HeadOfBytesField(num, data);
    ghost var buf := dAtA[..];
    at := i - |data|;
    Copy(dAtA, at, data);
    WroteMore(buf, before, at, data, done);
    at := PutHead(dAtA, at, num, |data|, before, data, done);
  }

  lemma ContentFits(num: nat, data: seq<byte>)
    requires num <= 15
    ensures |data| <= |BytesField(num, data).Encode()|
  {
    HeadOfBytesField(num, data);
  }

  lemma HeadOfBytesField(num: nat, data: seq<byte>)
    requires num <= 15
    ensures BytesField(num, data).Encode() == ([num * 8 + 2] + EncVarint(|data|)) + data
    ensures |BytesField(num, data).Encode()| == 1 + Sov(|data|) + |data|
  {
    OneByteTag(num * 8 + 2);
    EncVarintSize(|data|);
  }

  /** The lines for one number field. */
  method PutIntField(dAtA: array<byte>, i: nat, num: nat, v: u64, ghost before: seq<byte>, ghost done: seq<byte>)
    returns (at: nat)
    requires num <= 15 && |IntField(num, v).Encode()| <= i <= dAtA.Length
    requires Wrote(dAtA[..], before, i, done)
    modifies dAtA
    ensures at == i - |IntField(num, v).Encode()|
    ensures Wrote(dAtA[..], before, at, IntField(num, v).Encode() + done)
  {
    OneByteTag(num * 8);
    EncVarintSize(v);
    ghost var buf := dAtA[..];
    at := PutTagged(dAtA, i, num * 8, v);
    WroteMore(buf, before, at, IntField(num, v).Encode(), done);
  }

  /** The loop for a repeated string or bytes field, from the last element to the first. */
  method PutStrings(dAtA: array<byte>, end: nat, num: nat, ds: seq<seq<byte>>,
                    ghost before: seq<byte>, ghost done: seq<byte>) returns (i: nat)
    requires num <= 15 && |EncodeAll(RepBytes(num, ds))| <= end <= dAtA.Length <= MAX_INT
    requires Wrote(dAtA[..], before, end, done)
    modifies dAtA
    ensures i == end - |EncodeAll(RepBytes(num, ds))|
    ensures Wrote(dAtA[..], before, i, EncodeAll(RepBytes(num, ds)) + done)
  {
    ghost var mine: seq<byte> := [];
    assert mine + done == done;
    var iNdEx := |ds|;
    i := end;
    while iNdEx > 0
      invariant 0 <= iNdEx <= |ds|
      invariant mine == EncodeAll(RepBytes(num, ds[iNdEx..]))
      invariant i == end - |mine|
      invariant Wrote(dAtA[..], before, i, mine + done)
    {
      iNdEx := iNdEx - 1;
      RepBytesSplit(num, ds, iNdEx);
      RepBytesSuffix(num, ds, iNdEx);
      i := PutBytesField(dAtA, i, num, ds[iNdEx], before, mine + done);
      ghost var field := BytesField(num, ds[iNdEx]).Encode();
      Associate(field, mine, done);
      mine := field + mine;
    }
    assert ds[0..] == ds;
  }

  lemma EndsWithNothing(a: seq<byte>)
    ensures a + [] == a
  {}

  /** `if v != 0 { ... }` around a number field. */
  method PutOptInt(dAtA: array<byte>, end: nat, num: nat, v: u64, ghost before: seq<byte>, ghost done: seq<byte>)
    returns (i: nat)
    requires num <= 15 && |EncodeAll(OptInt(num, v))| <= end <= dAtA.Length
    requires Wrote(dAtA[..], before, end, done)
    modifies dAtA
    ensures i == end - |EncodeAll(OptInt(num, v))|
    ensures Wrote(dAtA[..], before, i, EncodeAll(OptInt(num, v)) + done)
  {
    OptIntSize(num, v);
    i := end;
    if v != 0 {
      i := PutIntField(dAtA, i, num, v, before, done);
    } else {
      assert [] + done == done;
    }
  }

  /** `if len(d) > 0 { ... }` around a bytes field. */
  method PutOptBytes(dAtA: array<byte>, end: nat, num: nat, d: seq<byte>,
                     ghost before: seq<byte>, ghost done: seq<byte>)
    returns (i: nat)
    requires num <= 15 && |EncodeAll(OptBytes(num, d))| <= end <= dAtA.Length <= MAX_INT
    requires Wrote(dAtA[..], before, end, done)
    modifies dAtA
    ensures i == end - |EncodeAll(OptBytes(num, d))|
    ensures Wrote(dAtA[..], before, i, EncodeAll(OptBytes(num, d)) + done)
  {
    EncodeOne(BytesField(num, d));
    i := end;
    if |d| > 0 {
      i := PutBytesField(dAtA, i, num, d, before, done);
    } else {
      assert [] + done == done;
    }
  }

  /** `if m.X != nil { ... }` around an embedded message of another package. */
  method PutOptSub<T(!new)>(dAtA: array<byte>, end: nat, num: nat, sub: SubCodec<T>, x: Option<T>,
                            ghost before: seq<byte>, ghost done: seq<byte>)
    returns (i: nat)
    requires num <= 15 && |EncodeAll(OptSub(num, sub, x))| <= end <= dAtA.Length <= MAX_INT
    requires Wrote(dAtA[..], before, end, done)
    modifies dAtA
    ensures i == end - |EncodeAll(OptSub(num, sub, x))|
    ensures Wrote(dAtA[..], before, i, EncodeAll(OptSub(num, sub, x)) + done)
  {
    i := end;
    if x.Some? {
      EncodeOne(BytesField(num, sub.enc(x.value)));
      i := PutBytesField(dAtA, i, num, sub.enc(x.value), before, done);
    } else {
      assert [] + done == done;
    }
  }
}
