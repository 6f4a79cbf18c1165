/** Base 128 varints: the number a byte string denotes, the in-place writer, and the reader. */
module Varint {
  import opened Words
  import opened Outcomes
  import opened Buffers

  /** Little-endian sum of the low seven bits of every byte. */
  function Base128(s: seq<byte>): nat {
    if s == [] then 0 else s[0] % 128 + 128 * Base128(s[1..])
  }

  /** The number of leading bytes whose continuation bit is set. */
  function Run(s: seq<byte>): (n: nat)
    ensures n <= |s|
  {
    if s == [] || s[0] < 128 then 0 else 1 + Run(s[1..])
  }

  /** What the reader makes of the front of s: the exact sum and the number of bytes it takes. */
  function RawVarint(s: seq<byte>): (r: Result<(nat, nat)>)
    ensures r.Ok? ==> 1 <= r.value.1 <= 10 && r.value.1 <= |s|
  {
    if Run(s) >= 10 then Err(Overflow)
    else if Run(s) == |s| then Err(OutOfBounds)
    else Ok((Base128(s[..Run(s) + 1]), Run(s) + 1))
  }

  /** ... as a uint64: the sum modulo 2^64. */
  function DecVarint(s: seq<byte>): (r: Result<(nat, nat)>)
    ensures r.Ok? ==> 1 <= r.value.1 <= 10 && r.value.1 <= |s| && r.value.0 < TWO64
  {
    var (sum, n) :- RawVarint(s);
    Ok((sum % TWO64, n))
  }

  /** The bytes that the loop reads before it fails. */
  function Tried(s: seq<byte>): seq<byte> {
    if |s| < 10 then s else s[..10]
  }

  /** What a 64-bit variable holds when the loop that fills it fails: the sum of these bytes. */
  function Partial(s: seq<byte>): u64 {
    Base128(Tried(s)) % TWO64
  }

  /** ... as an int32 enum: the low 32 bits of the sum, signed. */
  function DecEnum(s: seq<byte>): (r: Result<(i32, nat)>)
    ensures r.Ok? ==> 1 <= r.value.1 <= 10 && r.value.1 <= |s|
  {
    var (sum, n) :- RawVarint(s);
    Ok((ToInt32(sum), n))
  }

  /** The canonical varint of v. */
  function EncVarint(v: nat): (s: seq<byte>)
    ensures |s| >= 1
  {
    if v < 128 then [v] else [v % 128 + 128] + EncVarint(v / 128)
  }

  /** sovTxResponse / sovQuery. */
  function Sov(x: nat): nat {
    (BitLen(BitOr(x, 1)) + 6) / 7
  }

  /** Both words see the same varint; the enum is the low half of the uint64. */
  lemma EnumOfWord(s: seq<byte>)
    ensures DecEnum(s).Err? ==> DecVarint(s) == Err(DecEnum(s).fault)
    ensures DecEnum(s).Ok? ==>
              DecVarint(s).Ok? && DecVarint(s).value.1 == DecEnum(s).value.1 &&
              DecEnum(s).value.0 == ToInt32(DecVarint(s).value.0)
  {
    if RawVarint(s).Ok? {
      LowHalf(RawVarint(s).value.0);
    }
  }

  lemma LowHalf(x: nat)
    ensures (x % TWO64) % TWO32 == x % TWO32
  {
    assert x == x % TWO64 + (TWO32 * (x / TWO64)) * TWO32;
    ModMultiple(x % TWO64, TWO32 * (x / TWO64), TWO32);
  }

  // ---- Facts about the size function ----

  lemma OrOne(v: nat)
    ensures BitOr(v, 1) == if v % 2 == 1 then v else v + 1
  {
    OrZero(v / 2);
  }

  /** sov(v) is the least k >= 1 with v < 128^k. */
  lemma SovIsLeast(v: nat, k: nat)
    requires k >= 1
    ensures Sov(v) >= 1
    ensures Sov(v) <= k <==> v < Pow2(7 * k)
  {
    var x, n := BitOr(v, 1), BitLen(BitOr(v, 1));
    OrOne(v);
    BitLenBounds(x);
    SevenBits(v, x, n, k);
  }

  lemma SevenBits(v: nat, x: nat, n: nat, k: nat)
    requires k >= 1 && n >= 1 && x == (if v % 2 == 1 then v else v + 1) && Pow2(n - 1) <= x < Pow2(n)
    ensures (n + 6) / 7 >= 1
    ensures (n + 6) / 7 <= k <==> v < Pow2(7 * k)
  {
    var m := 7 * k;
    assert (n + 6) / 7 <= k <==> n <= m;
    BitsFit(v, x, n, m);
  }

  lemma BitsFit(v: nat, x: nat, n: nat, m: nat)
    requires m >= 1 && n >= 1 && x == (if v % 2 == 1 then v else v + 1) && Pow2(n - 1) <= x < Pow2(n)
    ensures n <= m <==> v < Pow2(m)
  {
    if n <= m {
      Pow2Mono(n, m);
    } else {
      Pow2Mono(m, n - 1);
      assert Pow2(m) == 2 * Pow2(m - 1);
    }
  }

  lemma SovOfWord(v: nat)
    requires v < TWO64
    ensures 1 <= Sov(v) <= 10
    ensures v < 128 ==> Sov(v) == 1
  {
    Pow2Values();
    SovIsLeast(v, 10);
    SovIsLeast(v, 1);
  }

  lemma SovMono(a: nat, b: nat)
    requires a <= b
    ensures Sov(a) <= Sov(b)
  {
    SovIsLeast(b, 1);
    SovIsLeast(b, Sov(b));
    SovIsLeast(a, Sov(b));
  }

  lemma SovAdd(a: nat, b: nat)
    ensures Sov(a + b) <= Sov(a) + Sov(b)
  {
    SovIsLeast(a, 1);
    SovIsLeast(b, 1);
    var k := if Sov(a) >= Sov(b) then Sov(a) else Sov(b);
    SovIsLeast(a, k);
    SovIsLeast(b, k);
    Pow2Next(k);
    SovIsLeast(a + b, k + 1);
  }

  lemma Pow2Next(k: nat)
    ensures Pow2(7 * (k + 1)) == 128 * Pow2(7 * k)
  {
    Pow2Add(7, 7 * k);
    Pow2Values();
    assert 7 * (k + 1) == 7 + 7 * k;
  }

  /** The canonical varint has exactly sov(v) bytes. */
  lemma {:induction false} EncVarintSize(v: nat)
    ensures |EncVarint(v)| == Sov(v)
  {
    if v < 128 {
      Pow2Values();
      SovIsLeast(v, 1);
    } else {
      EncVarintSize(v / 128);
      SovStep(v);
    }
  }

  lemma SovStep(v: nat)
    requires v >= 128
    ensures Sov(v) == 1 + Sov(v / 128)
  {
    var k := Sov(v / 128);
    SovIsLeast(v / 128, 1);
    SovAgrees(v, k + 1);
    SovAgrees(v, k);
  }

  /** One seven-bit group less is one byte less. */
  lemma SovAgrees(v: nat, k: nat)
    requires v >= 128 && k >= 1
    ensures Sov(v) <= k <==> Sov(v / 128) <= k - 1
  {
    SovIsLeast(v, k);
    SovIsLeast(v / 128, 1);
    Scale128(v, k - 1);
    if k > 1 {
      SovIsLeast(v / 128, k - 1);
    }
  }

  lemma Scale128(v: nat, k: nat)
    ensures v / 128 < Pow2(7 * k) <==> v < Pow2(7 * (k + 1))
  {
    Pow2Next(k);
  }

  // ---- The digits ----

  /** Byte k of a canonical varint holds the k-th seven-bit group, the lowest first; every byte but the last has the
      continuation bit. */
  lemma {:induction false} VarintDigits(v: nat, k: nat)
    requires k < |EncVarint(v)|
    ensures EncVarint(v)[k] == v / Pow2(7 * k) % 128 + if k + 1 < |EncVarint(v)| then 128 else 0
    decreases k
  {
    if k > 0 {
      VarintDigits(v / 128, k - 1);
      DropDigit(v, k);
    }
  }

  lemma DropDigit(v: nat, k: nat)
    requires k > 0
    ensures v / Pow2(7 * k) == v / 128 / Pow2(7 * (k - 1))
  {
    Pow2Next(k - 1);
    DivTwice(v, v / 128, Pow2(7 * (k - 1)));
  }

  lemma DivTwice(v: nat, u: nat, p: nat)
    requires p > 0 && u == v / 128
    ensures v / (128 * p) == u / p
  {
    var q, r, d := u / p, u % p, v % 128;
    assert u == p * q + r;
    Nested(p, q, r, d);
    DivModUnique(v, q, 128 * r + d, 128 * p);
  }

  lemma Nested(p: nat, q: nat, r: nat, d: nat)
    ensures 128 * (p * q + r) + d == (128 * p) * q + (128 * r + d)
  {}

  /** The sum of a byte string has its low seven bits as digits, whatever their continuation bits, and no others. */
  lemma {:induction false} SumDigits(s: seq<byte>, k: nat)
    ensures Base128(s) / Pow2(7 * k) % 128 == if k < |s| then s[k] % 128 else 0
    decreases k
  {
    if k > 0 {
      DropDigit(Base128(s), k);
      if s == [] {
        SumDigits([], k - 1);
      } else {
        SumDigits(s[1..], k - 1);
        DivModUnique(Base128(s), Base128(s[1..]), s[0] % 128, 128);
      }
    }
  }

  /** A varint ends at its first byte without a continuation bit. It is read if this is one of the first ten bytes, and
      is an overflow if not. */
  lemma ReadsUpTo(s: seq<byte>, n: nat)
    requires n < |s| && s[n] < 128 && forall j :: 0 <= j < n ==> s[j] >= 128
    ensures DecVarint(s) ==
            if n < 10 then Ok((Base128(s[..n + 1]) % 0x1_0000_0000_0000_0000, n + 1)) else Err(Overflow)
  {
    RunIs(s, n);
  }

  /** Without such a byte it is the end of the input, or an overflow. What has been read then is the sum of what there
      is, of the first ten bytes at most. */
  lemma FailsWithoutEnd(s: seq<byte>)
    requires forall j :: 0 <= j < |s| ==> s[j] >= 128
    ensures DecVarint(s) == Err(if |s| < 10 then OutOfBounds else Overflow)
    ensures Partial(s) == Base128(if |s| < 10 then s else s[..10]) % 0x1_0000_0000_0000_0000
  {
    RunAtLeast(s, |s|);
  }

  // ---- Reading back what was written ----

  lemma {:induction false} EncVarintValue(v: nat)
    ensures Base128(EncVarint(v)) == v
  {
    if v >= 128 {
      EncVarintValue(v / 128);
      assert EncVarint(v)[1..] == EncVarint(v / 128);
    } else {
      assert [v][1..] == [];
    }
  }

  lemma {:induction false} EncVarintRun(v: nat, t: seq<byte>)
    ensures Run(EncVarint(v) + t) == |EncVarint(v)| - 1
  {
    var s := EncVarint(v) + t;
    if v >= 128 {
      EncVarintRun(v / 128, t);
      assert s[1..] == EncVarint(v / 128) + t;
    } else {
      assert s[0] == v;
    }
  }

  /** Write then read, whatever follows. */
  lemma RawRoundTrip(v: nat, t: seq<byte>)
    requires v < TWO64
    ensures RawVarint(EncVarint(v) + t) == Ok((v, |EncVarint(v)|))
  {
    var e := EncVarint(v);
    EncVarintRun(v, t);
    EncVarintValue(v);
    assert |e| <= 10 by { EncVarintSize(v); SovOfWord(v); }
    assert (e + t)[..|e|] == e;
  }

  /** Write then read, for every uint64. */
  lemma VarintRoundTrip(v: nat, t: seq<byte>)
    requires v < TWO64
    ensures DecVarint(EncVarint(v) + t) == Ok((v, |EncVarint(v)|))
  {
    RawRoundTrip(v, t);
  }

  /** A signed value goes through its 64-bit pattern, so all int64 values come back. */
  lemma SignedRoundTrip(x: i64, t: seq<byte>)
    ensures var r := DecVarint(EncVarint(FromInt64(x)) + t);
            r.Ok? && ToInt64(r.value.0) == x && (x < 0 ==> r.value.1 == 10)
  {
    VarintRoundTrip(FromInt64(x), t);
    EncVarintSize(FromInt64(x));
    if x < 0 {
      Pow2Values();
      SovOfWord(FromInt64(x));
      SovIsLeast(FromInt64(x), 9);
    }
  }

  /** An int32 enum is sign-extended on write and truncated on read. */
  lemma EnumRoundTrip(x: i32, t: seq<byte>)
    ensures DecEnum(EncVarint(FromInt64(x)) + t) == Ok((x, |EncVarint(FromInt64(x))|))
    ensures x < 0 ==> |EncVarint(FromInt64(x))| == 10
  {
    SignExtension(x);
    RawRoundTrip(FromInt64(x), t);
    SignedRoundTrip(x, t);
  }

  lemma {:induction false} Base128Bound(s: seq<byte>)
    ensures Base128(s) < Pow2(7 * |s|)
  {
    if s != [] {
      Base128Bound(s[1..]);
      Pow2Add(7 * |s[1..]|, 7);
      Pow2Values();
      assert 7 * |s| == 7 * |s[1..]| + 7;
    }
  }

  lemma {:induction false} Base128Snoc(s: seq<byte>, b: byte)
    ensures Base128(s + [b]) == Base128(s) + (b % 128) * Pow2(7 * |s|)
  {
    if s == [] {
      assert Base128([b]) == b % 128 + 128 * Base128([]);
    } else {
      assert (s + [b])[1..] == s[1..] + [b];
      Base128Snoc(s[1..], b);
      var m := 7 * |s[1..]|;
      assert Pow2(7 * |s|) == 128 * Pow2(m) by {
        Pow2Add(7, m);
        Pow2Values();
        assert 7 * |s| == 7 + m;
      }
      SwapFactors(b % 128, Pow2(m));
    }
  }

  lemma SwapFactors(a: nat, p: nat)
    ensures 128 * (a * p) == a * (128 * p)
  {}

  /** No encoding of v is shorter than the canonical one: overlong varints only shrink. */
  lemma DecodedIsShortest(s: seq<byte>)
    requires DecVarint(s).Ok?
    ensures Sov(DecVarint(s).value.0) <= DecVarint(s).value.1
  {
    var (sum, n) := RawVarint(s).value;
    Base128Bound(s[..n]);
    SovIsLeast(sum % TWO64, n);
  }

  /** The same for an enum, unless truncation to 32 bits makes it negative. */
  lemma EnumIsShortest(s: seq<byte>)
    requires DecEnum(s).Ok? && DecEnum(s).value.0 >= 0
    ensures Sov(FromInt64(DecEnum(s).value.0)) <= DecEnum(s).value.1
  {
    var (sum, n) := RawVarint(s).value;
    Base128Bound(s[..n]);
    SovIsLeast(sum % TWO32, n);
  }

  lemma {:induction false} RunAppend(s: seq<byte>, t: seq<byte>)
    requires Run(s) < |s|
    ensures Run(s + t) == Run(s)
  {
    if s[0] >= 128 {
      RunAppend(s[1..], t);
      assert (s + t)[1..] == s[1..] + t;
    }
  }

  /** What follows an accepted varint does not matter. */
  lemma VarintAppend(s: seq<byte>, t: seq<byte>)
    requires RawVarint(s).Ok?
    ensures RawVarint(s + t) == RawVarint(s)
  {
    RunAppend(s, t);
    assert (s + t)[..Run(s) + 1] == s[..Run(s) + 1];
  }

  /** The bytes of an accepted varint alone are accepted. */
  lemma DecVarintTake(s: seq<byte>)
    requires DecVarint(s).Ok?
    ensures DecVarint(s[..DecVarint(s).value.1]) == DecVarint(s)
  {
    var n := Run(s) + 1;
    RunPrefix(s);
    RunIs(s[..n], n - 1);
    assert s[..n][..n] == s[..n];
  }

  lemma {:induction false} RunPrefix(s: seq<byte>)
    ensures forall j :: 0 <= j < Run(s) ==> s[j] >= 128
    ensures Run(s) < |s| ==> s[Run(s)] < 128
  {
    if s != [] && s[0] >= 128 {
      RunPrefix(s[1..]);
    }
  }

  lemma {:induction false} RunIs(s: seq<byte>, n: nat)
    requires n < |s| && s[n] < 128
    requires forall j :: 0 <= j < n ==> s[j] >= 128
    ensures Run(s) == n
  {
    if n > 0 {
      RunIs(s[1..], n - 1);
    }
  }

  lemma {:induction false} RunAtLeast(s: seq<byte>, n: nat)
    requires n <= |s|
    requires forall j :: 0 <= j < n ==> s[j] >= 128
    ensures Run(s) >= n
  {
    if n > 0 {
      RunAtLeast(s[1..], n - 1);
    }
  }

  // ---- The methods ----

  /** encodeVarintTxResponse / encodeVarintQuery: writes v so that it ends just before `offset`. */
  method EncodeVarint(dAtA: array<byte>, offset: nat, v: u64) returns (base: nat)
    requires Sov(v) <= offset <= dAtA.Length
    modifies dAtA
    ensures base == offset - Sov(v) == offset - |EncVarint(v)|
    ensures dAtA[..] == Splice(old(dAtA[..]), base, EncVarint(v))
  {
    EncVarintSize(v);
    ghost var before, enc := dAtA[..], EncVarint(v);
    base := offset - Sov(v);
    var at, rest := base, v;
    ghost var written: seq<byte> := [];
    SpliceNothing(before, base);
    while rest >= 128
      invariant at == base + |written| && base + |enc| == offset
      invariant written + EncVarint(rest) == enc
      invariant dAtA[..] == Splice(before, base, written)
      decreases rest
    {
      LowBitsWithMark(rest);
      EncVarintStep(rest, written);
      Put(dAtA, at, BitOr(rest % 128, 0x80));
      SpliceAfter(before, base, written, [rest % 128 + 128]);
      written := written + [rest % 128 + 128];
      rest := rest / 128;
      at := at + 1;
    }
    Put(dAtA, at, rest);
    SpliceAfter(before, base, written, [rest]);
  }

  lemma EncVarintStep(v: nat, written: seq<byte>)
    requires v >= 128
    ensures written + EncVarint(v) == (written + [v % 128 + 128]) + EncVarint(v / 128)
  {}

  lemma LowBitsWithMark(v: nat)
    ensures BitOr(v % 128, 0x80) == v % 128 + 128
  {
    Pow2Values();
    OrDisjoint(v % 128, 1, 7);
  }

  /** What one more byte adds to the word. */
  lemma OneMoreByte(width: nat, s: seq<byte>, n: nat, word: nat)
    requires n < |s| && word == Base128(s[..n]) % Pow2(width)
    ensures BitOr(word, ShiftLeft(width, s[n] % 128, 7 * n)) == Base128(s[..n + 1]) % Pow2(width)
  {
    Base128Bound(s[..n]);
    OrShiftIsSum(width, Base128(s[..n]), s[n] % 128, 7 * n);
    Base128Snoc(s[..n], s[n]);
    assert s[..n] + [s[n]] == s[..n + 1];
  }

  /** The varint loop that the generator inlines wherever a tag, a length or a number is read; the
      variable it fills has `width` bits. On success `next` is the index just after the varint. */
  method ReadWord(width: nat, dAtA: seq<byte>, start: nat)
    returns (err: Option<GoError>, word: nat, next: nat)
    requires start <= |dAtA|
    ensures start <= next <= |dAtA|
    ensures err.None? ==> RawVarint(dAtA[start..]).Ok? && next == start + RawVarint(dAtA[start..]).value.1
    ensures err.None? ==> word == RawVarint(dAtA[start..]).value.0 % Pow2(width)
    ensures err.Some? ==> RawVarint(dAtA[start..]) == Err(Class(err.value))
    ensures err.Some? ==> word == Base128(Tried(dAtA[start..])) % Pow2(width)
    ensures err == Some(ErrIntOverflow) <==> Run(dAtA[start..]) >= 10
    ensures err == Some(ErrUnexpectedEOF) <==> Run(dAtA[start..]) == |dAtA| - start < 10
  {
    ghost var s := dAtA[start..];
    word, next := 0, start;
    var shift := 0;
    SmallMod(0, Pow2(width));
    while true
      invariant start <= next <= |dAtA|
      invariant shift == 7 * (next - start) <= 70
      invariant forall j :: 0 <= j < next - start ==> s[j] >= 128
      invariant word == Base128(s[..next - start]) % Pow2(width)
      decreases 70 - shift
    {
      if shift >= 64 {
        RunAtLeast(s, 10);
        return Some(ErrIntOverflow), word, next;
      }
      if next >= |dAtA| {
        RunAtLeast(s, |s|);
        assert s[..|s|] == s;
        return Some(ErrUnexpectedEOF), word, next;
      }
      ghost var n := next - start;
      var b := dAtA[next];
      next := next + 1;
      OneMoreByte(width, s, n, word);
      word := BitOr(word, ShiftLeft(width, b % 128, shift));
      if b < 0x80 {
        RunIs(s, n);
        return None, word, next;
      }
      shift := shift + 7;
    }
  }

  /** The loop filling a 64-bit variable. */
  method ReadVarint(dAtA: seq<byte>, start: nat)
    returns (err: Option<GoError>, word: u64, next: nat)
    requires start <= |dAtA|
    ensures start <= next <= |dAtA|
    ensures err.None? ==> start < next && DecVarint(dAtA[start..]) == Ok((word, next - start))
    ensures err.Some? ==> DecVarint(dAtA[start..]) == Err(Class(err.value)) && word == Partial(dAtA[start..])
  {
    Pow2Values();
    err, word, next := ReadWord(64, dAtA, start);
  }

  /** The low 32 bits are the same before and after truncation to a word. */
  lemma LowBits(x: nat)
    ensures ToInt32(x % TWO32) == ToInt32(x) == ToInt32(x % TWO64)
  {
    LowHalf(x);
  }

  /** The loop filling an int32 enum: bits shifted past the word are lost on the way. */
  method ReadEnum(dAtA: seq<byte>, start: nat)
    returns (err: Option<GoError>, value: i32, next: nat, ghost word: u64)
    requires start <= |dAtA|
    ensures start <= next <= |dAtA| && value == ToInt32(word)
    ensures err.None? ==> start < next && DecEnum(dAtA[start..]) == Ok((value, next - start))
    ensures err.None? ==> DecVarint(dAtA[start..]) == Ok((word, next - start))
    ensures err.Some? ==> DecEnum(dAtA[start..]) == Err(Class(err.value)) && word == Partial(dAtA[start..])
    ensures err.Some? ==> DecVarint(dAtA[start..]) == Err(Class(err.value))
  {
    Pow2Values();
    var w;
    err, w, next := ReadWord(32, dAtA, start);
    ghost var s := dAtA[start..];
    ghost var sum := if err.None? then RawVarint(s).value.0 else Base128(Tried(s));
    LowBits(sum);
    value, word := ToInt32(w), sum % TWO64;
  }
}
