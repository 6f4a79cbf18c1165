/** Skipping an unknown field: the depth-counting skipper against the grammar of wire fields. */
module Skip {
  import opened Words
  import opened Outcomes
  import opened Varint
  import opened Groups

  // ---- The skipper as a function of the bytes at hand ----

  /** The size of the payload that wire type wt announces at the front of s. */
  function PayloadSize(wt: nat, s: seq<byte>): Result<nat> {
    if wt == 0 then
      var (_, n) :- DecVarint(s);
      Ok(n)
    else if wt == 1 then Ok(8)
    else if wt == 2 then
      var (length, n) :- DecVarint(s);
      if length >= TWO63 then Err(OutOfBounds) else Ok(n + length)
    else if wt == 5 then Ok(4)
    else Err(IllegalWireType)
  }

  /** One step of the skipper: the bytes it takes and the change of depth. */
  function Token(s: seq<byte>): Result<(pos, int)> {
    var (wire, n) :- DecVarint(s);
    if wire % 8 == 3 then Ok((n, 1))
    else if wire % 8 == 4 then Ok((n, -1))
    else
      var p :- PayloadSize(wire % 8, s[n..]);
      Ok((n + p, 0))
  }

  function SkipAt(s: seq<byte>, depth: nat): (r: Result<nat>)
    ensures r.Ok? ==> 1 <= r.value <= |s|
  {
    SkipWith(Token, s, depth)
  }

  // ---- The grammar of wire fields (Protocol Buffers Encoding, "Message Structure", "Groups") ----

  /** s is exactly one varint, overlong or not. */
  predicate IsVarint(s: seq<byte>) {
    DecVarint(s).Ok? && DecVarint(s).value.1 == |s|
  }

  predicate IsTag(s: seq<byte>, wt: nat) {
    IsVarint(s) && DecVarint(s).value.0 % 8 == wt
  }

  /** p is a payload of wire type wt. */
  predicate IsPayload(wt: nat, p: seq<byte>) {
    || (wt == 0 && IsVarint(p))
    || (wt == 1 && |p| == 8)
    || (wt == 2 && DecVarint(p).Ok? && DecVarint(p).value.0 == |p| - DecVarint(p).value.1 < TWO63)
    || (wt == 5 && |p| == 4)
  }

  /** b is a tag followed by a payload of its wire type, or a tag that opens or closes a group. The
      number in a closing tag is free: the skipper does not compare it. */
  predicate IsToken(b: seq<byte>, d: int) {
    if d == 1 then IsTag(b, 3)
    else if d == -1 then IsTag(b, 4)
    else
      && d == 0
      && DecVarint(b).Ok?
      && IsPayload(DecVarint(b).value.0 % 8, b[DecVarint(b).value.1..])
  }

  /** A wire field: scalar, bytes, or a group of fields nested to any depth. */
  ghost predicate IsField(t: Tree) {
    WellFormed(IsToken, t)
  }

  ghost function WireLexer(): Lexer {
    Lexer(Token, IsToken)
  }

  lemma PayloadFound(wt: nat, p: seq<byte>, rest: seq<byte>)
    requires IsPayload(wt, p)
    ensures PayloadSize(wt, p + rest) == Ok(|p|)
  {
    if wt == 0 || wt == 2 {
      VarintAppend(p, rest);
    }
  }

  lemma PayloadTaken(wt: nat, s: seq<byte>)
    requires PayloadSize(wt, s).Ok? && PayloadSize(wt, s).value <= |s|
    ensures IsPayload(wt, s[..PayloadSize(wt, s).value])
  {
    if wt == 0 || wt == 2 {
      var p := s[..PayloadSize(wt, s).value];
      DecVarintTake(s);
      var v := s[..DecVarint(s).value.1];
      VarintAppend(v, p[|v|..]);
      assert v + p[|v|..] == p;
    }
  }

  lemma TokenFound(b: seq<byte>, d: int, rest: seq<byte>)
    ensures WireLexer().Finds(b, d, rest)
  {
    if IsToken(b, d) {
      VarintAppend(b, rest);
      if d == 0 {
        var (wire, n) := DecVarint(b).value;
        PayloadFound(wire % 8, b[n..], rest);
        assert (b + rest)[n..] == b[n..] + rest;
      }
    }
  }

  lemma TokenTaken(s: seq<byte>)
    ensures WireLexer().FindsOnly(s)
  {
    if Token(s).Ok? && Token(s).value.0 <= |s| {
      var (wire, n) := DecVarint(s).value;
      var k := Token(s).value.0;
      var b := s[..k];
      DecVarintTake(s);
      VarintAppend(s[..n], b[n..]);
      assert s[..n] + b[n..] == b;
      if k > n {
        PayloadTaken(wire % 8, s[n..]);
        assert b[n..] == s[n..][..k - n];
      }
    }
  }

  lemma WireLexerAgrees()
    ensures WireLexer().Agrees()
  {
    forall b, d, rest
      ensures WireLexer().Finds(b, d, rest)
    {
      TokenFound(b, d, rest);
    }
    forall s
      ensures WireLexer().FindsOnly(s)
    {
      TokenTaken(s);
    }
  }

  /** The skipper takes n bytes exactly when those n bytes are one wire field. */
  lemma SkipIsTheGrammar(s: seq<byte>, n: nat)
    requires n <= |s|
    ensures SkipAt(s, 0) == Ok(n) <==> exists t :: IsField(t) && Print(t) == s[..n]
  {
    WireLexerAgrees();
    CountingIsMatching(WireLexer(), s, n);
    if t :| WellFormed(IsToken, t) && Print(t) == s[..n] {
      assert IsField(t);
    }
  }

  /** In particular a field is skipped exactly, whatever follows it. */
  lemma SkipsAnyField(t: Tree, rest: seq<byte>)
    requires IsField(t)
    ensures SkipAt(Print(t) + rest, 0) == Ok(|Print(t)|)
  {
    WireLexerAgrees();
    SkipTree(WireLexer(), t, rest, 0);
  }

  /** What follows a skipped field does not matter. */
  lemma SkipAppend(s: seq<byte>, more: seq<byte>)
    requires SkipAt(s, 0).Ok?
    ensures SkipAt(s + more, 0) == SkipAt(s, 0)
  {
    WireLexerAgrees();
    SkipWithAppend(WireLexer(), s, more);
  }

  lemma OneByteVarint(b: byte)
    requires b < 128
    ensures DecVarint([b]) == Ok((b, 1))
  {
    VarintRoundTrip(b, []);
    assert EncVarint(b) + [] == [b];
  }

  // ---- The guide asks for more: a group is closed under the number it was opened with ----

  function NumberIn(tag: seq<byte>): nat {
    if DecVarint(tag).Ok? then DecVarint(tag).value.0 / 8 else 0
  }

  ghost predicate Matched(t: Tree) {
    Named(NumberIn, t)
  }

  /** The first n bytes are a field as the guide defines it. */
  ghost predicate Conforms(s: seq<byte>, n: nat)
    requires n <= |s|
  {
    exists t :: IsField(t) && Matched(t) && Print(t) == s[..n]
  }

  /** What the skipper takes can be read in one way only. */
  lemma FieldIsUnique(t: Tree, u: Tree)
    requires IsField(t) && IsField(u) && Print(t) == Print(u)
    ensures t == u
  {
    WireLexerAgrees();
    TreeIsUnique(WireLexer(), t, [], u, []);
  }

  /** So what is skipped conforms to the guide if and only if the numbers match in that reading. */
  lemma ConformsExactly(s: seq<byte>, n: nat, t: Tree)
    requires n <= |s| && IsField(t) && Print(t) == s[..n]
    ensures SkipAt(s, 0) == Ok(n)
    ensures Conforms(s, n) <==> Matched(t)
  {
    SkipIsTheGrammar(s, n);
    if u :| IsField(u) && Matched(u) && Print(u) == s[..n] {
      FieldIsUnique(t, u);
    }
  }

  /** A skipper for the guide's fields, which keeps the numbers of the open groups. None when s does not start with
      such a field. */
  function StrictSkip(s: seq<byte>): Option<nat> {
    StrictWith(Token, NumberIn, s, [])
  }

  /** Conforming to the guide is a matter of the bytes alone: it is exactly what that skipper accepts. */
  lemma StrictIsTheGuide(s: seq<byte>, n: nat)
    requires n <= |s|
    ensures StrictSkip(s) == Some(n) <==> Conforms(s, n)
  {
    WireLexerAgrees();
    StrictIsNamed(WireLexer(), NumberIn, s, n);
    if t :| IsField(t) && Matched(t) && Print(t) == s[..n] {
      assert WellFormed(IsToken, t) && Named(NumberIn, t);
    }
    if t :| WellFormed(IsToken, t) && Named(NumberIn, t) && Print(t) == s[..n] {
      assert IsField(t) && Matched(t);
    }
  }

  /** Every field of the guide is skipped, but not the other way round (field 1 opened, field 2 closed). */
  lemma MismatchedGroupIsSkipped()
    ensures SkipAt([0x0B, 0x14], 0) == Ok(2) && !Conforms([0x0B, 0x14], 2)
  {
    OneByteVarint(0x0B);
    OneByteVarint(0x14);
    var t := Group([0x0B], [], [0x14]);
    assert Print(t) == [0x0B, 0x14][..2];
    assert NumberIn(t.open) == 1 && NumberIn(t.close) == 2;
    ConformsExactly([0x0B, 0x14], 2, t);
  }

  // ---- The method ----

  lemma AddIntWraps(a: i64, b: i64)
    requires a >= 0 && b >= 0
    ensures AddInt(a, b) == if a + b <= MAX_INT then a + b else a + b - TWO64
  {}

  /** The body of the skipper's loop up to the checks at its end: the tag and the switch. The index
      moves with wrap-around. */
  method SkipStep(dAtA: seq<byte>, start: nat, depth: nat)
    returns (err: Option<GoError>, iNdEx: i64, newDepth: int)
    requires start <= |dAtA| <= MAX_INT
    ensures Turned(Token(dAtA[start..]), start, depth, err, iNdEx, newDepth)
  {
    newDepth := depth;
    var wire, next;
    err, wire, next := ReadVarint(dAtA, start);
    iNdEx := next;
    if err.Some? {
      return;
    }
    assert dAtA[start..][next - start..] == dAtA[next..];
    var wireType := wire % 8;
    if wireType == 3 {
      newDepth := depth + 1;
    } else if wireType == 4 {
      if depth == 0 {
        err := Some(ErrUnexpectedEndOfGroup);
        return;
      }
      newDepth := depth - 1;
    } else {
      err, iNdEx := SkipPayload(dAtA, wireType, next);
    }
  }

  /** The cases of the switch that move past a payload. */
  method SkipPayload(dAtA: seq<byte>, wireType: nat, start: nat) returns (err: Option<GoError>, iNdEx: i64)
    requires start <= |dAtA| <= MAX_INT
    ensures err.Some? ==> PayloadSize(wireType, dAtA[start..]) == Err(Class(err.value))
    ensures err.None? ==>
              var size := PayloadSize(wireType, dAtA[start..]);
              && size.Ok? && start + size.value <= 2 * MAX_INT
              && iNdEx == if start + size.value <= MAX_INT then start + size.value else start + size.value - TWO64
  {
    err, iNdEx := None, start;
    if wireType == 0 {
      var word, next;
      err, word, next := ReadVarint(dAtA, start);
      iNdEx := next;
    } else if wireType == 1 {
      AddIntWraps(iNdEx, 8);
      iNdEx := AddInt(iNdEx, 8);
    } else if wireType == 2 {
      var word, next;
      err, word, next := ReadVarint(dAtA, start);
      iNdEx := next;
      if err.Some? {
        return;
      }
      var length := ToInt64(word);
      if length < 0 {
        err := Some(ErrInvalidLength);
        return;
      }
      AddIntWraps(iNdEx, length);
      iNdEx := AddInt(iNdEx, length);
    } else if wireType == 5 {
      AddIntWraps(iNdEx, 4);
      iNdEx := AddInt(iNdEx, 4);
    } else {
      err := Some(ErrIllegalWireType);
    }
  }

  /** skipTxResponse / skipQuery. A result beyond the end of the input is left for the caller to
      reject. */
  method SkipField(dAtA: seq<byte>) returns (err: Option<GoError>, n: int)
    requires |dAtA| <= MAX_INT
    ensures err.Some? ==> SkipAt(dAtA, 0) == Err(Class(err.value))
    ensures err.None? ==> 0 <= n <= MAX_INT
    ensures err.None? ==> SkipAt(dAtA, 0) == if n <= |dAtA| then Ok(n) else Err(OutOfBounds)
  {
    var l := |dAtA|;
    var iNdEx: i64 := 0;
    var depth := 0;
    ghost var goal := SkipAt(dAtA, 0);
    assert dAtA[0..] == dAtA;
    while iNdEx < l
      invariant Counting(Token, dAtA, goal, iNdEx, depth)
      decreases l - iNdEx
    {
      ghost var start, before := iNdEx, depth;
      err, iNdEx, depth := SkipStep(dAtA, iNdEx, depth);
      TurnKeepsCounting(Token, dAtA, goal, start, before, err, iNdEx, depth);
      if err.Some? {
        return err, 0;
      }
      if iNdEx < 0 {
        return Some(ErrInvalidLength), 0;
      }
      if depth == 0 {
        return None, iNdEx;
      }
    }
    return Some(ErrUnexpectedEOF), 0;
  }
}
