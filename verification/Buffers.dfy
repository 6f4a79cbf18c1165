/** In-place writes into a fixed buffer, described by what they do to its contents. */
module Buffers {
  import opened Sequences
  import opened Words

  /** `buf` with `bytes` written over it from index i on, one after the other. */
  function Splice(buf: seq<byte>, i: nat, bytes: seq<byte>): (r: seq<byte>)
    requires i + |bytes| <= |buf|
    ensures |r| == |buf|
    decreases |bytes|
  {
    if bytes == [] then buf else Splice(buf[i := bytes[0]], i + 1, bytes[1..])
  }

  /** The bytes are there, and everything else is as before. */
  lemma {:induction false} SpliceParts(buf: seq<byte>, i: nat, bytes: seq<byte>)
    requires i + |bytes| <= |buf|
    ensures Splice(buf, i, bytes) == buf[..i] + bytes + buf[i + |bytes|..]
    decreases |bytes|
  {
    if bytes != [] {
      SpliceParts(buf[i := bytes[0]], i + 1, bytes[1..]);
    }
  }

  /** Writing x just before y is writing x + y: back-to-front writing builds a concatenation. */
  lemma SpliceBefore(buf: seq<byte>, i: nat, x: seq<byte>, y: seq<byte>)
    requires i + |x| + |y| <= |buf|
    ensures Splice(Splice(buf, i + |x|, y), i, x) == Splice(buf, i, x + y)
  {
    var inner := Splice(buf, i + |x|, y);
    SpliceParts(buf, i + |x|, y);
    SpliceParts(inner, i, x);
    SpliceParts(buf, i, x + y);
    var front, back := buf[..i], buf[i + |x| + |y|..];
    assert inner[..i] == front;
    assert inner[i + |x|..] == y + back;
    Associate(front + x, y, back);
    Associate(front, x, y);
  }

  lemma SpliceAfter(buf: seq<byte>, i: nat, x: seq<byte>, y: seq<byte>)
    requires i + |x| + |y| <= |buf|
    ensures Splice(Splice(buf, i, x), i + |x|, y) == Splice(buf, i, x + y)
  {
    var inner := Splice(buf, i, x);
    SpliceParts(buf, i, x);
    SpliceParts(inner, i + |x|, y);
    SpliceParts(buf, i, x + y);
    assert inner[..i + |x|] == buf[..i] + x;
    assert inner[i + |x| + |y|..] == buf[i + |x| + |y|..];
  }

  lemma SpliceNothing(buf: seq<byte>, i: nat)
    requires i <= |buf|
    ensures Splice(buf, i, []) == buf
  {}

  /** `buf` is `before` with `done` written over it from index i on. */
  ghost predicate Wrote(buf: seq<byte>, before: seq<byte>, i: int, done: seq<byte>) {
    0 <= i && i + |done| <= |before| && buf == Splice(before, i, done)
  }

  /** Exactly: the bytes stand from index i on, and every other index holds what it held before. */
  lemma WroteExactly(buf: seq<byte>, before: seq<byte>, i: nat, done: seq<byte>)
    requires i + |done| <= |before|
    ensures Wrote(buf, before, i, done) <==>
            && |buf| == |before| && buf[i..i + |done|] == done
            && forall k :: 0 <= k < |before| && !(i <= k < i + |done|) ==> buf[k] == before[k]
  {
    SpliceParts(before, i, done);
    if |buf| == |before| && buf[i..i + |done|] == done
       && forall k :: 0 <= k < |before| && !(i <= k < i + |done|) ==> buf[k] == before[k] {
      assert buf == buf[..i] + buf[i..i + |done|] + buf[i + |done|..];
      assert buf[..i] == before[..i] && buf[i + |done|..] == before[i + |done|..];
    }
  }

  /** Writing x in front of what has been written. */
  lemma WroteMore(buf: seq<byte>, before: seq<byte>, i: nat, x: seq<byte>, done: seq<byte>)
    requires i + |x| <= |buf| && Wrote(buf, before, i + |x|, done)
    ensures Wrote(Splice(buf, i, x), before, i, x + done)
  {
    SpliceBefore(before, i, x, done);
  }

  /** Two writes, the second in front of the first. */
  lemma WroteTwice(buf: seq<byte>, between: seq<byte>, before: seq<byte>, i: int, end: int,
                   x: seq<byte>, done: seq<byte>)
    requires Wrote(between, before, end, done) && Wrote(buf, between, i, x) && i + |x| == end
    ensures Wrote(buf, before, i, x + done)
  {
    WroteMore(between, before, i, x, done);
  }

  /** A buffer that is exactly filled holds exactly what was written. */
  lemma Filled(buf: seq<byte>, before: seq<byte>, done: seq<byte>)
    requires Wrote(buf, before, 0, done) && |done| == |before|
    ensures buf == done
  {
    SpliceParts(before, 0, done);
  }

  /** `dAtA[i] = b`. */
  method Put(dAtA: array<byte>, i: nat, b: byte)
    requires i < dAtA.Length
    modifies dAtA
    ensures dAtA[..] == Splice(old(dAtA[..]), i, [b])
  {
    dAtA[i] := b;
    SpliceParts(old(dAtA[..]), i, [b]);
  }

  /** `copy(dAtA[i:], data)`. */
  method Copy(dAtA: array<byte>, i: nat, data: seq<byte>)
    requires i + |data| <= dAtA.Length
    modifies dAtA
    ensures dAtA[..] == Splice(old(dAtA[..]), i, data)
  {
    forall k | 0 <= k < |data| {
      dAtA[i + k] := data[k];
    }
    SpliceParts(old(dAtA[..]), i, data);
  }
}
