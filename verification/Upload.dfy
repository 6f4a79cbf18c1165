/** The program upload of client/svm/helper.go: bytes are cut into write instructions, and these are packed into
    transactions. */
module Upload {
  import opened Sequences
  import opened Words
  import opened Outcomes

  const CHUNK: nat := 1200
  const PER_TX: nat := 750

  // ---- Little-endian numbers ----

  function LE(n: nat, k: nat): (s: seq<byte>)
    ensures |s| == k
  {
    if k == 0 then [] else [n % 256] + LE(n / 256, k - 1)
  }

  function FromLE(s: seq<byte>): nat {
    if s == [] then 0 else s[0] + 256 * FromLE(s[1..])
  }

  function Pow256(k: nat): (p: nat)
    ensures p > 0
  {
    if k == 0 then 1 else 256 * Pow256(k - 1)
  }

  lemma {:induction false} LERoundTrip(n: nat, k: nat)
    requires n < Pow256(k)
    ensures FromLE(LE(n, k)) == n
  {
    if k > 0 {
      LERoundTrip(n / 256, k - 1);
    }
  }

  // ---- Instruction data ----

  /** What the loader program reads from an instruction. */
  datatype Instruction = Write(offset: nat, data: seq<byte>) | Deploy(maxLen: nat)

  function WriteIx(offset: u32, data: seq<byte>): seq<byte> {
    LE(1, 4) + LE(offset, 4) + LE(|data| % TWO64, 8) + data
  }

  function DeployIx(dataLen: u64): seq<byte> {
    LE(2, 4) + LE(dataLen, 8)
  }

  function Parse(s: seq<byte>): Option<Instruction> {
    if |s| >= 16 && FromLE(s[..4]) == 1 && FromLE(s[8..16]) == |s| - 16 then Some(Write(FromLE(s[4..8]), s[16..]))
    else if |s| == 12 && FromLE(s[..4]) == 2 then Some(Deploy(FromLE(s[4..])))
    else None
  }

  lemma Pow256Values()
    ensures Pow256(4) == TWO32 && Pow256(8) == TWO64
  {
    assert Pow256(4) == 256 * (256 * (256 * (256 * Pow256(0))));
    assert Pow256(8) == 256 * (256 * (256 * (256 * Pow256(4))));
  }

  lemma WordRoundTrip(n: nat)
    requires n < TWO32
    ensures FromLE(LE(n, 4)) == n
  {
    Pow256Values();
    LERoundTrip(n, 4);
  }

  lemma LongRoundTrip(n: nat)
    requires n < TWO64
    ensures FromLE(LE(n, 8)) == n
  {
    Pow256Values();
    LERoundTrip(n, 8);
  }

  /** Byte j of a number is its j-th base-256 digit, the lowest first. */
  lemma {:induction false} LEDigits(n: nat, k: nat, j: nat)
    requires j < k
    ensures LE(n, k)[j] == n / Pow256(j) % 256
  {
    if j > 0 {
      LEDigits(n / 256, k - 1, j - 1);
      DivTwice(n, n / 256, Pow256(j - 1));
    }
  }

  lemma DivTwice(v: nat, u: nat, p: nat)
    requires p > 0 && u == v / 256
    ensures v / (256 * p) == u / p
  {
    var q, r, d := u / p, u % p, v % 256;
    assert u == p * q + r;
    Nested(p, q, r, d);
    DivModUnique(v, q, 256 * r + d, 256 * p);
  }

  lemma Nested(p: nat, q: nat, r: nat, d: nat)
    ensures 256 * (p * q + r) + d == (256 * p) * q + (256 * r + d)
  {}

  lemma SmallWords()
    ensures LE(1, 4) == [1, 0, 0, 0] && LE(2, 4) == [2, 0, 0, 0]
  {
    assert LE(0, 3) == [0] + ([0] + ([0] + LE(0, 0)));
  }

  /** The bytes are the digits of n. */
  ghost predicate IsLE(bytes: seq<byte>, n: nat) {
    forall j :: 0 <= j < |bytes| ==> bytes[j] == n / Pow256(j) % 256
  }

  lemma LEIs(n: nat, k: nat)
    ensures IsLE(LE(n, k), n)
  {
    forall j | 0 <= j < k
      ensures LE(n, k)[j] == n / Pow256(j) % 256
    {
      LEDigits(n, k, j);
    }
  }

  /** The write instruction down to the bytes: its kind, the offset, the 64-bit length and the data. */
  lemma WriteBytesAre(offset: u32, data: seq<byte>)
    requires |data| < 0x1_0000_0000_0000_0000
    ensures var s := WriteIx(offset, data);
            && |s| == 16 + |data| && s[..4] == [1, 0, 0, 0] && s[16..] == data
            && IsLE(s[4..8], offset) && IsLE(s[8..16], |data|)
  {
    SmallWords();
    SmallMod(|data|, TWO64);
    LEIs(offset, 4);
    LEIs(|data|, 8);
    HeaderParts(LE(1, 4), LE(offset, 4), LE(|data|, 8), data);
  }

  /** The deployment: its kind and the 64-bit size. */
  lemma DeployBytesAre(dataLen: u64)
    ensures var s := DeployIx(dataLen); |s| == 12 && s[..4] == [2, 0, 0, 0] && IsLE(s[4..], dataLen)
  {
    SmallWords();
    var s := DeployIx(dataLen);
    assert s[..4] == LE(2, 4) && s[4..] == LE(dataLen, 8);
    LEIs(dataLen, 8);
  }

  lemma HeaderParts(a: seq<byte>, b: seq<byte>, c: seq<byte>, d: seq<byte>)
    requires |a| == 4 && |b| == 4 && |c| == 8
    ensures var s := a + b + c + d;
            s[..4] == a && s[4..8] == b && s[8..16] == c && s[16..] == d && |s| == 16 + |d|
  {}

  lemma AppendParts(o: seq<byte>, a: seq<byte>, b: seq<byte>, c: seq<byte>, d: seq<byte>)
    ensures o + a + b + c + d == o + (a + b + c + d)
  {}

  lemma ParseParts(a: seq<byte>, b: seq<byte>, c: seq<byte>, d: seq<byte>)
    requires |a| == 4 && |b| == 4 && |c| == 8 && FromLE(a) == 1 && FromLE(c) == |d|
    ensures Parse(a + b + c + d) == Some(Write(FromLE(b), d))
  {
    HeaderParts(a, b, c, d);
  }

  lemma WriteRoundTrip(offset: u32, data: seq<byte>)
    requires |data| < TWO64
    ensures Parse(WriteIx(offset, data)) == Some(Write(offset, data))
  {
    WordRoundTrip(1);
    WordRoundTrip(offset);
    LongRoundTrip(|data|);
    var a, b, c := LE(1, 4), LE(offset, 4), LE(|data|, 8);
    assert |data| % TWO64 == |data|;
    assert WriteIx(offset, data) == a + b + c + data;
    ParseParts(a, b, c, data);
  }

  lemma DeployRoundTrip(dataLen: u64)
    ensures Parse(DeployIx(dataLen)) == Some(Deploy(dataLen))
  {
    var s := DeployIx(dataLen);
    WordRoundTrip(2);
    LongRoundTrip(dataLen);
    assert s[..4] == LE(2, 4) && s[4..] == LE(dataLen, 8);
  }

  /** The encoder that both instructions are written to. */
  class Encoder {
    var buf: seq<byte>

    constructor ()
      ensures buf == []
    {
      buf := [];
    }

    method WriteInt(n: nat, width: nat)
      modifies this
      ensures buf == old(buf) + LE(n, width)
    {
      var k, rest := 0, n;
      while k < width
        invariant 0 <= k <= width
        invariant buf + LE(rest, width - k) == old(buf) + LE(n, width)
      {
        ghost var was, left := buf, LE(rest, width - k);
        buf := buf + [rest % 256];
        rest, k := rest / 256, k + 1;
        assert left == [buf[|was|]] + LE(rest, width - k);
        assert was + left == buf + LE(rest, width - k);
      }
      assert buf + LE(rest, 0) == buf;
    }

    method WriteBytes(data: seq<byte>)
      modifies this
      ensures buf == old(buf) + data
    {
      buf := buf + data;
    }

    /** WriteBuffer.MarshalWithEncoder */
    method MarshalWrite(offset: u32, data: seq<byte>)
      modifies this
      ensures buf == old(buf) + WriteIx(offset, data)
    {
      ghost var was := buf;
      AppendParts(buf, LE(1, 4), LE(offset, 4), LE(|data| % TWO64, 8), data);
      WriteInt(1, 4);
      WriteInt(offset, 4);
      WriteInt(|data| % TWO64, 8);
      WriteBytes(data);
      assert buf == was + LE(1, 4) + LE(offset, 4) + LE(|data| % TWO64, 8) + data;
    }

    /** DeployWithMaxDataLen.MarshalWithEncoder */
    method MarshalDeploy(dataLen: u64)
      modifies this
      ensures buf == old(buf) + DeployIx(dataLen)
    {
      WriteInt(2, 4);
      WriteInt(dataLen, 8);
    }
  }

  // ---- The pieces of a program ----

  function Count(p: seq<byte>): nat {
    (|p| + CHUNK - 1) / CHUNK
  }

  function ChunkEnd(p: seq<byte>, k: nat): nat {
    if CHUNK * (k + 1) > |p| then |p| else CHUNK * (k + 1)
  }

  function ChunkIx(p: seq<byte>, k: nat): seq<byte>
    requires k < Count(p)
  {
    WriteIx(CHUNK * k % TWO32, p[CHUNK * k..ChunkEnd(p, k)])
  }

  function Writes(p: seq<byte>): (ixs: seq<seq<byte>>)
    ensures |ixs| == Count(p)
  {
    seq(Count(p), k requires 0 <= k < Count(p) => ChunkIx(p, k))
  }

  /** All writes in order, and then the deployment. */
  function Instructions(p: seq<byte>): seq<seq<byte>> {
    Writes(p) + [DeployIx((|p| + 48) % TWO64)]
  }

  type Tx = seq<seq<byte>>

  function Flatten(txs: seq<Tx>): seq<seq<byte>> {
    if txs == [] then [] else Flatten(txs[..|txs| - 1]) + txs[|txs| - 1]
  }

  lemma FlattenSnoc(txs: seq<Tx>, tx: Tx)
    ensures Flatten(txs + [tx]) == Flatten(txs) + tx
  {
    assert (txs + [tx])[..|txs|] == txs;
  }

  // ---- CreateProgramUploadMsgs ----

  datatype UploadError = BuildFails | NoProgramAddress

  datatype UploadResult = Messages(txs: seq<Tx>) | Failed(err: UploadError)

  /** All writes in order and then the deployment; every transaction but the last holds PER_TX writes. */
  ghost predicate Packs(txs: seq<Tx>, p: seq<byte>) {
    && Flatten(txs) == Instructions(p)
    && |txs| == Count(p) / PER_TX + 1
    && (forall i :: 0 <= i < |txs| - 1 ==> |txs[i]| == PER_TX)
    && |txs[|txs| - 1]| == Count(p) % PER_TX + 1
  }

  /** Between iterations: n pieces are done. */
  ghost predicate Packing(txs: seq<Tx>, tx: Tx, p: seq<byte>, n: nat) {
    && n <= Count(p)
    && Flatten(txs) + tx == Writes(p)[..n]
    && (forall i :: 0 <= i < |txs| ==> |txs[i]| == PER_TX)
    && |txs| == n / PER_TX && |tx| == n % PER_TX
  }

  /** One more write at the end. */
  lemma WritesSnoc(txs: seq<Tx>, tx: Tx, p: seq<byte>, n: nat)
    requires n < Count(p) && Flatten(txs) + tx == Writes(p)[..n]
    ensures Flatten(txs) + (tx + [ChunkIx(p, n)]) == Writes(p)[..n + 1]
    ensures Flatten(txs + [tx + [ChunkIx(p, n)]]) + [] == Writes(p)[..n + 1]
  {
    var ix := ChunkIx(p, n);
    assert Writes(p)[..n + 1] == Writes(p)[..n] + [ix];
    Associate(Flatten(txs), tx, [ix]);
    FlattenSnoc(txs, tx + [ix]);
  }

  lemma NextCount(n: nat, w: nat)
    requires n < w
    ensures n % PER_TX + 1 == PER_TX ==> (n + 1) / PER_TX == n / PER_TX + 1 <= w / PER_TX && (n + 1) % PER_TX == 0
    ensures n % PER_TX + 1 < PER_TX ==> (n + 1) / PER_TX == n / PER_TX && (n + 1) % PER_TX == n % PER_TX + 1
  {}

  /** A full transaction is not the last one. */
  lemma PackOne(txs: seq<Tx>, tx: Tx, p: seq<byte>, n: nat)
    requires Packing(txs, tx, p, n) && n < Count(p)
    ensures |tx| + 1 == PER_TX ==> Packing(txs + [tx + [ChunkIx(p, n)]], [], p, n + 1)
    ensures |tx| + 1 == PER_TX ==> |txs| < Count(p) / PER_TX
    ensures |tx| + 1 < PER_TX ==> Packing(txs, tx + [ChunkIx(p, n)], p, n + 1)
    ensures |tx| + 1 <= PER_TX
  {
    WritesSnoc(txs, tx, p, n);
    NextCount(n, Count(p));
  }

  lemma NextChunk(p: seq<byte>, n: nat, idx: nat)
    requires idx == Begin(p, n) && idx < |p| && n <= Count(p)
    ensures n < Count(p) && idx == CHUNK * n
    ensures ChunkEnd(p, n) == Begin(p, n + 1)
    ensures Begin(p, n + 1) == |p| ==> n + 1 == Count(p)
    ensures idx < Begin(p, n + 1)
  {}

  function Begin(p: seq<byte>, n: nat): nat {
    if CHUNK * n > |p| then |p| else CHUNK * n
  }

  lemma LastPack(txs: seq<Tx>, tx: Tx, p: seq<byte>)
    requires Packing(txs, tx, p, Count(p))
    ensures Packs(txs + [tx + [DeployIx((|p| + 48) % TWO64)]], p) && |txs| == Count(p) / PER_TX
  {
    var ix := DeployIx((|p| + 48) % TWO64);
    assert Writes(p)[..Count(p)] == Writes(p);
    FlattenSnoc(txs, tx + [ix]);
    assert Flatten(txs) + (tx + [ix]) == (Flatten(txs) + tx) + [ix];
  }

  /** How an upload ends: with all transactions, or with the first failure. */
  ghost predicate Ends(r: UploadResult, p: seq<byte>, failAt: Option<nat>, noAddress: bool) {
    var full := Count(p) / PER_TX;
    match r
    case Messages(txs) => Packs(txs, p) && !noAddress && (failAt.None? || failAt.value > full)
    case Failed(BuildFails) => failAt.Some? && failAt.value <= full && (noAddress ==> failAt.value < full)
    case Failed(NoProgramAddress) => noAddress && (failAt.None? || failAt.value >= full)
  }

  /** `failAt` is the transaction whose build fails, if one does; `noAddress` says that no program address is
      found. */
  method CreateProgramUploadMsgs(p: seq<byte>, failAt: Option<nat>, noAddress: bool) returns (r: UploadResult)
    ensures var full := Count(p) / 750;
            match r
            case Messages(txs) => Packs(txs, p) && !noAddress && (failAt.None? || failAt.value > full)
            case Failed(BuildFails) => failAt.Some? && failAt.value <= full && (noAddress ==> failAt.value < full)
            case Failed(NoProgramAddress) => noAddress && (failAt.None? || failAt.value >= full)
  {
    var programSize := |p|;
    var tx: Tx := [];
    var instructionCount, idx := 0, 0;
    var res: seq<Tx> := [];
    ghost var n := 0;
    while idx < programSize
      invariant idx == Begin(p, n) && n <= Count(p) && (idx == |p| ==> n == Count(p))
      invariant Packing(res, tx, p, n) && instructionCount == |tx|
      invariant failAt.Some? ==> failAt.value >= |res|
      decreases programSize - idx
    {
      var data, end := NextWrite(p, idx, n);
      var ok;
      ok, res, tx, instructionCount := AddInstruction(res, tx, instructionCount, data, failAt, p, n);
      if !ok {
        return Failed(BuildFails);
      }
      idx, n := end, n + 1;
    }
    var data := MarshalDeploy((programSize + 48) % TWO64);
    r := BuildLast(p, res, tx, data, failAt, noAddress);
  }

  /** What follows the loop: the deployment ends the last transaction. */
  method BuildLast(ghost p: seq<byte>, txs: seq<Tx>, pending: Tx, data: seq<byte>, failAt: Option<nat>, noAddress: bool)
    returns (r: UploadResult)
    requires Packing(txs, pending, p, Count(p)) && data == DeployIx((|p| + 48) % TWO64)
    requires failAt.Some? ==> failAt.value >= |txs|
    ensures Ends(r, p, failAt, noAddress)
  {
    LastPack(txs, pending, p);
    if noAddress {
      return Failed(NoProgramAddress);
    }
    if failAt == Some(|txs|) {
      return Failed(BuildFails);
    }
    return Messages(txs + [pending + [data]]);
  }

  /** The end of the loop's body: the instruction joins the transaction, which is built when it is full. */
  method AddInstruction(txs: seq<Tx>, pending: Tx, count: nat, data: seq<byte>, failAt: Option<nat>,
                        ghost p: seq<byte>, ghost n: nat)
    returns (ok: bool, res: seq<Tx>, tx: Tx, instructionCount: nat)
    requires Packing(txs, pending, p, n) && n < Count(p) && data == ChunkIx(p, n) && count == |pending|
    requires failAt.Some? ==> failAt.value >= |txs|
    ensures ok ==> Packing(res, tx, p, n + 1) && instructionCount == |tx| && (failAt.Some? ==> failAt.value >= |res|)
    ensures !ok ==> failAt.Some? && failAt.value < Count(p) / PER_TX
  {
    PackOne(txs, pending, p, n);
    res, tx, instructionCount := txs, pending + [data], count + 1;
    if instructionCount == PER_TX {
      instructionCount := 0;
      if failAt == Some(|res|) {
        return false, res, tx, instructionCount;
      }
      res := res + [tx];
      tx := [];
    }
    ok := true;
  }

  /** The slice of the next piece and the data of its instruction. */
  method NextWrite(p: seq<byte>, idx: nat, ghost n: nat) returns (data: seq<byte>, end: nat)
    requires idx == Begin(p, n) && idx < |p| && n <= Count(p)
    ensures n < Count(p) && data == ChunkIx(p, n)
    ensures end == Begin(p, n + 1) && idx < end && (end == |p| ==> n + 1 == Count(p))
  {
    NextChunk(p, n, idx);
    end := idx + CHUNK;
    if end > |p| {
      end := |p|;
    }
    var codeSlice := p[idx..end];
    data := MarshalWrite(idx % TWO32, codeSlice);
  }

  method MarshalDeploy(dataLen: u64) returns (bz: seq<byte>)
    ensures bz == DeployIx(dataLen)
  {
    var enc := new Encoder();
    enc.MarshalDeploy(dataLen);
    return enc.buf;
  }

  method MarshalWrite(offset: u32, data: seq<byte>) returns (bz: seq<byte>)
    ensures bz == WriteIx(offset, data)
  {
    var enc := new Encoder();
    enc.MarshalWrite(offset, data);
    return enc.buf;
  }

  // ---- What the writes do to the buffer account ----

  /** None when the write does not fit. The deployment changes no byte of the buffer. */
  function Apply(buf: seq<byte>, i: Instruction): Option<seq<byte>> {
    match i
    case Write(o, d) => if o + |d| <= |buf| then Some(buf[..o] + d + buf[o + |d|..]) else None
    case Deploy(_) => Some(buf)
  }

  function Execute(buf: seq<byte>, ixs: seq<seq<byte>>): Option<seq<byte>>
    decreases |ixs|
  {
    if ixs == [] then Some(buf)
    else
      match Parse(ixs[0])
      case None => None
      case Some(i) =>
        match Apply(buf, i)
        case None => None
        case Some(b) => Execute(b, ixs[1..])
  }

  function Blank(n: nat): seq<byte> {
    seq(n, _ => 0)
  }

  /** The instruction writes a part of p to its place. */
  ghost predicate Faithful(ix: seq<byte>, p: seq<byte>) {
    match Parse(ix)
    case Some(Write(o, d)) => o + |d| <= |p| && d == p[o..o + |d|]
    case Some(Deploy(_)) => true
    case None => false
  }

  ghost predicate Covers(ix: seq<byte>, j: nat) {
    match Parse(ix)
    case Some(Write(o, d)) => o <= j < o + |d|
    case _ => false
  }

  ghost predicate Covered(ixs: seq<seq<byte>>, j: nat) {
    exists ix :: ix in ixs && Covers(ix, j)
  }

  /** Faithful writes can come in any order and any number: what they cover is p, the rest is as before. */
  lemma {:induction false} ExecuteFaithful(buf: seq<byte>, ixs: seq<seq<byte>>, p: seq<byte>)
    requires |buf| == |p| && forall ix :: ix in ixs ==> Faithful(ix, p)
    ensures Execute(buf, ixs).Some?
    ensures var r := Execute(buf, ixs).value;
            |r| == |p| && forall j :: 0 <= j < |p| ==> r[j] == if Covered(ixs, j) then p[j] else buf[j]
    decreases |ixs|
  {
    if ixs != [] {
      assert Faithful(ixs[0], p);
      var next := Apply(buf, Parse(ixs[0]).value).value;
      ExecuteFaithful(next, ixs[1..], p);
      forall j | 0 <= j < |p|
        ensures Covered(ixs, j) <==> Covers(ixs[0], j) || Covered(ixs[1..], j)
      {
        assert ixs == [ixs[0]] + ixs[1..];
      }
    }
  }

  // ---- Reassembly ----

  /** The largest program whose last piece starts below 2^32. */
  const MAX_PROGRAM: nat := 4_294_968_000

  /** The pieces have 1 to CHUNK bytes, and cover the program without a gap or an overlap. */
  lemma ChunksPartition(p: seq<byte>, j: nat)
    requires j < |p|
    ensures j / 1200 < Count(p)
    ensures forall k :: 0 <= k < Count(p) ==> (1200 * k <= j < ChunkEnd(p, k) <==> k == j / 1200)
    ensures forall k :: 0 <= k < Count(p) ==> 1 <= ChunkEnd(p, k) - 1200 * k <= 1200
  {}

  lemma ChunkStart(p: seq<byte>, k: nat)
    requires k < Count(p)
    ensures CHUNK * k < ChunkEnd(p, k) <= |p|
    ensures |p| <= MAX_PROGRAM ==> CHUNK * k % TWO32 == CHUNK * k
  {}

  lemma ChunkIsFaithful(p: seq<byte>, k: nat)
    requires |p| <= MAX_PROGRAM && k < Count(p)
    ensures Parse(ChunkIx(p, k)) == Some(Write(CHUNK * k, p[CHUNK * k..ChunkEnd(p, k)]))
    ensures Faithful(ChunkIx(p, k), p)
  {
    ChunkStart(p, k);
    var o, d := CHUNK * k, p[CHUNK * k..ChunkEnd(p, k)];
    WriteRoundTrip(o, d);
    assert ChunkIx(p, k) == WriteIx(o, d) && o + |d| == ChunkEnd(p, k);
  }

  lemma AllFaithful(p: seq<byte>, ix: seq<byte>)
    requires |p| <= MAX_PROGRAM && ix in Instructions(p)
    ensures Faithful(ix, p)
  {
    if ix in Writes(p) {
      var k :| 0 <= k < Count(p) && ix == ChunkIx(p, k);
      ChunkIsFaithful(p, k);
    } else {
      DeployRoundTrip((|p| + 48) % TWO64);
    }
  }

  lemma AllCovered(p: seq<byte>, j: nat)
    requires |p| <= MAX_PROGRAM && j < |p|
    ensures Covered(Writes(p), j)
  {
    ChunksPartition(p, j);
    ChunkIsFaithful(p, j / CHUNK);
    var ix := Writes(p)[j / CHUNK];
    assert ix == ChunkIx(p, j / CHUNK);
    assert ix in Writes(p) && Covers(ix, j);
  }

  /** Executed on a blank buffer, the instructions of an upload give back the program: in any order, and also if
      some are executed again. */
  lemma Reassembles(p: seq<byte>, ixs: seq<seq<byte>>)
    requires |p| <= MAX_PROGRAM
    requires forall ix :: ix in ixs <==> ix in Instructions(p)
    ensures Execute(Blank(|p|), ixs) == Some(p)
  {
    forall ix | ix in ixs
      ensures Faithful(ix, p)
    {
      AllFaithful(p, ix);
    }
    ExecuteFaithful(Blank(|p|), ixs, p);
    forall j | 0 <= j < |p|
      ensures Covered(ixs, j)
    {
      AllCovered(p, j);
      var ix :| ix in Writes(p) && Covers(ix, j);
      assert ix in Instructions(p);
    }
    var r := Execute(Blank(|p|), ixs).value;
    assert r == p;
  }

  /** In particular what the transactions hold, in every permutation. */
  lemma AnyPermutation(p: seq<byte>, txs: seq<Tx>, ixs: seq<seq<byte>>)
    requires |p| <= MAX_PROGRAM && Packs(txs, p) && multiset(ixs) == multiset(Flatten(txs))
    ensures Execute(Blank(|p|), ixs) == Some(p)
  {
    forall ix
      ensures ix in ixs <==> ix in Instructions(p)
    {
      assert ix in multiset(ixs) <==> ix in multiset(Flatten(txs));
    }
    Reassembles(p, ixs);
  }

  /** The bound is exact: the offsets of all writes are their places if and only if the program is not larger.
      Beyond it the offset of a later piece wraps to the front of the buffer. */
  lemma OffsetsAreExact(p: seq<byte>)
    requires |p| < TWO63
    ensures (forall k :: 0 <= k < Count(p) ==>
               Parse(ChunkIx(p, k)) == Some(Write(1200 * k, p[1200 * k..ChunkEnd(p, k)])))
            <==> |p| <= 4_294_968_000
  {
    if |p| <= MAX_PROGRAM {
      forall k | 0 <= k < Count(p)
        ensures Parse(ChunkIx(p, k)) == Some(Write(CHUNK * k, p[CHUNK * k..ChunkEnd(p, k)]))
      {
        ChunkIsFaithful(p, k);
      }
    } else {
      var k := MAX_PROGRAM / CHUNK;
      WriteRoundTrip(CHUNK * k % TWO32, p[CHUNK * k..ChunkEnd(p, k)]);
      assert Parse(ChunkIx(p, k)).value.offset != CHUNK * k;
    }
  }

  // ---- No larger program is rebuilt ----

  /** The instruction does not write anything but a zero at j. */
  ghost predicate Dark(ix: seq<byte>, j: nat) {
    match Parse(ix)
    case Some(Write(o, d)) => o <= j < o + |d| ==> d[j - o] == 0
    case _ => true
  }

  lemma {:induction false} StaysDark(buf: seq<byte>, ixs: seq<seq<byte>>, j: nat)
    requires j < |buf| && buf[j] == 0 && forall ix :: ix in ixs ==> Dark(ix, j)
    requires Execute(buf, ixs).Some?
    ensures var r := Execute(buf, ixs).value; |r| == |buf| && r[j] == 0
    decreases |ixs|
  {
    if ixs != [] {
      assert Dark(ixs[0], j);
      StaysDark(Apply(buf, Parse(ixs[0]).value).value, ixs[1..], j);
    }
  }

  /** A program of n bytes with a single one, just where offsets begin to wrap. */
  function Marked(n: nat): (p: seq<byte>)
    ensures |p| == n
  {
    seq(n, i => if i == MAX_PROGRAM then 1 else 0)
  }

  lemma ChunkIsDark(n: nat, k: nat)
    requires MAX_PROGRAM < n < TWO63 && k < Count(Marked(n))
    ensures Dark(ChunkIx(Marked(n), k), MAX_PROGRAM)
  {
    var p := Marked(n);
    ChunkStart(p, k);
    var o, d := CHUNK * k % TWO32, p[CHUNK * k..ChunkEnd(p, k)];
    WriteRoundTrip(o, d);
    if o <= MAX_PROGRAM < o + |d| {
      assert d[MAX_PROGRAM - o] == p[CHUNK * k + (MAX_PROGRAM - o)];
      NotInPlace(k, |d|);
    }
  }

  /** A piece that reaches MAX_PROGRAM is not written to its place. */
  lemma NotInPlace(k: nat, size: nat)
    requires size <= CHUNK && CHUNK * k % TWO32 <= MAX_PROGRAM < CHUNK * k % TWO32 + size
    ensures CHUNK * k != CHUNK * k % TWO32
  {}

  /** Whatever the order, the instructions of that program do not rebuild it. */
  lemma MarkIsLost(n: nat, ixs: seq<seq<byte>>)
    requires MAX_PROGRAM < n < TWO63
    requires forall ix :: ix in ixs ==> ix in Instructions(Marked(n))
    ensures Execute(Blank(n), ixs) != Some(Marked(n))
  {
    var p := Marked(n);
    DeployRoundTrip((|p| + 48) % TWO64);
    forall ix | ix in ixs
      ensures Dark(ix, MAX_PROGRAM)
    {
      if ix in Writes(p) {
        var k :| 0 <= k < Count(p) && ix == ChunkIx(p, k);
        ChunkIsDark(n, k);
      }
    }
    if Execute(Blank(n), ixs).Some? {
      StaysDark(Blank(n), ixs, MAX_PROGRAM);
      assert p[MAX_PROGRAM] == 1;
    }
  }

  /** So the bound is exact for the upload as a whole: all programs of n bytes are rebuilt if and only if n does not
      exceed it. */
  lemma RebuiltExactly(n: nat)
    requires n < TWO63
    ensures (forall p: seq<byte> | |p| == n :: Execute(Blank(n), Instructions(p)) == Some(p)) <==> n <= 4_294_968_000
  {
    if n <= MAX_PROGRAM {
      forall p: seq<byte> | |p| == n
        ensures Execute(Blank(n), Instructions(p)) == Some(p)
      {
        Reassembles(p, Instructions(p));
      }
    } else {
      MarkIsLost(n, Instructions(Marked(n)));
    }
  }

  lemma LastOfAll(p: seq<byte>, txs: seq<Tx>)
    requires Packs(txs, p)
    ensures var last := txs[|txs| - 1]; last[|last| - 1] == DeployIx((|p| + 48) % TWO64)
  {
    var last := txs[|txs| - 1];
    FlattenSnoc(txs[..|txs| - 1], last);
    assert txs == txs[..|txs| - 1] + [last];
    assert Flatten(txs)[|Flatten(txs)| - 1] == last[|last| - 1];
  }

  lemma OnlyWrites(p: seq<byte>, ix: seq<byte>)
    requires |p| < TWO63 && ix in Writes(p)
    ensures Parse(ix).Some? && Parse(ix).value.Write?
  {
    var k :| 0 <= k < Count(p) && ix == ChunkIx(p, k);
    WriteRoundTrip(CHUNK * k % TWO32, p[CHUNK * k..ChunkEnd(p, k)]);
  }

  /** The writes stand in the order of the program, piece by piece, and the deployment follows them. */
  lemma InOrder(p: seq<byte>, txs: seq<Tx>, k: nat)
    requires |p| <= 4_294_968_000 && Packs(txs, p) && k < |Flatten(txs)|
    ensures Parse(Flatten(txs)[k]) ==
            Some(if 1200 * k >= |p| then Deploy((|p| + 48) % TWO64)
                 else Write(1200 * k, p[1200 * k..if 1200 * (k + 1) > |p| then |p| else 1200 * (k + 1)]))
  {
    if k < Count(p) {
      ChunkIsFaithful(p, k);
      assert Flatten(txs)[k] == ChunkIx(p, k);
    } else {
      DeployRoundTrip((|p| + 48) % TWO64);
    }
  }

  /** No transaction exceeds PER_TX instructions, and the deployment is alone at the end of the last one. */
  lemma TransactionsFit(p: seq<byte>, txs: seq<Tx>)
    requires Packs(txs, p)
    ensures forall tx :: tx in txs ==> 1 <= |tx| <= 750
    ensures forall i :: 0 <= i < |txs| - 1 ==> |txs[i]| == 750
    ensures |Flatten(txs)| == (|p| + 1199) / 1200 + 1
    ensures var last := txs[|txs| - 1];
            Parse(last[|last| - 1]) == Some(Deploy((|p| + 48) % TWO64))
    ensures |p| < TWO63 ==> forall ix :: ix in Writes(p) ==> Parse(ix).Some? && Parse(ix).value.Write?
  {
    LastOfAll(p, txs);
    DeployRoundTrip((|p| + 48) % TWO64);
    if |p| < TWO63 {
      forall ix | ix in Writes(p)
        ensures Parse(ix).Some? && Parse(ix).value.Write?
      {
        OnlyWrites(p, ix);
      }
    }
  }
}
