/** Gas for signature verification, chain/app/ante/ante.go: a meter that is charged along a tree of multisig
    keys, by two functions that call each other. */
module MultisigGas {
  import opened Words

  datatype PubKey = Ed25519 | EthSecp256k1 | Multisig(keys: seq<PubKey>) | OtherKey

  /** The bit array says which keys have signed; the signatures are those of the signers only. */
  datatype SigData = Single | MultiSignature(bits: seq<bool>, sigs: seq<SigData>)

  datatype Params = Params(costEd25519: u64, costSecp256k1: u64)

  datatype Verdict = Done | Rejected | Panics(why: Cause)

  datatype Cause = OutOfGas | IndexOutOfRange

  // ---- Which keys have signed ----

  /** The number of set bits below i. */
  function Rank(bits: seq<bool>, i: nat): (r: nat)
    requires i <= |bits|
    ensures r <= i
  {
    if i == 0 then 0 else Rank(bits, i - 1) + if bits[i - 1] then 1 else 0
  }

  /** It is that number. */
  lemma {:induction false} RankCounts(bits: seq<bool>, i: nat)
    requires i <= |bits|
    ensures Rank(bits, i) == |set k: nat | k < i && bits[k]|
  {
    if i == 0 {
      assert (set k: nat | k < 0 && bits[k]) == {};
    } else {
      RankCounts(bits, i - 1);
      OneMore(bits, i - 1);
    }
  }

  lemma OneMore(bits: seq<bool>, i: nat)
    requires i < |bits|
    ensures |set k: nat | k < i + 1 && bits[k]| == |set k: nat | k < i && bits[k]| + if bits[i] then 1 else 0
  {
    var more, fewer := set k: nat | k < i + 1 && bits[k], set k: nat | k < i && bits[k];
    if bits[i] {
      assert more == fewer + {i};
    } else {
      assert more == fewer;
    }
  }

  /** Every signer is a key of the list, has a signature, and this signature fits its key. */
  ghost predicate WellFormed(key: PubKey, sig: SigData) {
    match key
    case Ed25519 => true
    case EthSecp256k1 => true
    case OtherKey => false
    case Multisig(keys) =>
      sig.MultiSignature? &&
      forall i :: 0 <= i < |sig.bits| && sig.bits[i] ==>
        i < |keys| && Rank(sig.bits, i) < |sig.sigs| && WellFormed(keys[i], sig.sigs[Rank(sig.bits, i)])
  }

  /** The recursive sum of the costs of the leaves that have signed. */
  function GasOf(key: PubKey, sig: SigData, p: Params): nat
    decreases key, 1, 0
  {
    match key
    case Ed25519 => p.costEd25519
    case EthSecp256k1 => p.costSecp256k1
    case OtherKey => 0
    case Multisig(keys) => if sig.MultiSignature? then GasBelow(key, sig, p, |sig.bits|) else 0
  }

  /** ... of the signers below i. */
  function GasBelow(key: PubKey, sig: SigData, p: Params, i: nat): nat
    requires key.Multisig? && sig.MultiSignature? && i <= |sig.bits|
    decreases key, 0, i
  {
    if i == 0 then 0
    else
      GasBelow(key, sig, p, i - 1) +
      if sig.bits[i - 1] && i - 1 < |key.keys| && Rank(sig.bits, i - 1) < |sig.sigs|
      then GasOf(key.keys[i - 1], sig.sigs[Rank(sig.bits, i - 1)], p) else 0
  }

  // ---- What the traversal charges, in order ----

  /** The charges up to the point where the traversal ends, and how it ends if the gas suffices. */
  datatype Bill = Bill(costs: seq<u64>, end: Verdict)
  {
    function Then(next: Bill): Bill {
      if end.Done? then Bill(costs + next.costs, next.end) else this
    }
  }

  function BillFor(key: PubKey, sig: SigData, p: Params): Bill
    decreases key, 1, 0
  {
    match key
    case Ed25519 => Bill([p.costEd25519], Done)
    case EthSecp256k1 => Bill([p.costSecp256k1], Done)
    case OtherKey => Bill([], Rejected)
    case Multisig(keys) => if sig.MultiSignature? then BillFrom(key, sig, p, 0) else Bill([], Rejected)
  }

  /** The signers from i on. */
  function BillFrom(key: PubKey, sig: SigData, p: Params, i: nat): Bill
    requires key.Multisig? && sig.MultiSignature? && i <= |sig.bits|
    decreases key, 0, |sig.bits| - i
  {
    if i == |sig.bits| then Bill([], Done)
    else if !sig.bits[i] then BillFrom(key, sig, p, i + 1)
    else if i >= |key.keys| || Rank(sig.bits, i) >= |sig.sigs| then Bill([], Panics(IndexOutOfRange))
    else BillFor(key.keys[i], sig.sigs[Rank(sig.bits, i)], p).Then(BillFrom(key, sig, p, i + 1))
  }

  /** A meter that is charged item by item: it keeps the charge that exceeds its limit. */
  function Pay(consumed: u64, limit: u64, b: Bill): (u64, Verdict)
    decreases |b.costs|
  {
    if b.costs == [] then (consumed, b.end)
    else if consumed + b.costs[0] >= TWO64 then (TWO64 - 1, Panics(OutOfGas))
    else if consumed + b.costs[0] > limit then (consumed + b.costs[0], Panics(OutOfGas))
    else Pay(consumed + b.costs[0], limit, Bill(b.costs[1..], b.end))
  }

  // ---- The two functions in place ----

  class GasMeter {
    var consumed: u64
    const limit: u64

    constructor (limit: u64)
      ensures consumed == 0 && this.limit == limit
    {
      consumed, this.limit := 0, limit;
    }

    method ConsumeGas(amount: u64) returns (o: Verdict)
      modifies this
      ensures (consumed, o) == Pay(old(consumed), limit, Bill([amount], Done))
    {
      assert [amount][1..] == [];
      if consumed + amount >= TWO64 {
        consumed := TWO64 - 1;
        return Panics(OutOfGas);
      }
      consumed := consumed + amount;
      return if consumed > limit then Panics(OutOfGas) else Done;
    }
  }

  method DefaultSigVerificationGasConsumer(meter: GasMeter, pubKey: PubKey, data: SigData, p: Params)
    returns (o: Verdict)
    modifies meter
    ensures (meter.consumed, o) == Pay(old(meter.consumed), meter.limit, BillFor(pubKey, data, p))
    decreases pubKey, 1
  {
    match pubKey {
      case Ed25519 => o := meter.ConsumeGas(p.costEd25519);
      case EthSecp256k1 => o := meter.ConsumeGas(p.costSecp256k1);
      case Multisig(_) =>
        if !data.MultiSignature? {
          return Rejected;
        }
        o := ConsumeMultisignatureVerificationGas(meter, data, pubKey, p);
      case OtherKey => return Rejected;
    }
  }

  method ConsumeMultisignatureVerificationGas(meter: GasMeter, sig: SigData, pubkey: PubKey, p: Params)
    returns (o: Verdict)
    requires sig.MultiSignature? && pubkey.Multisig?
    modifies meter
    ensures (meter.consumed, o) == Pay(old(meter.consumed), meter.limit, BillFor(pubkey, sig, p))
    decreases pubkey, 0
  {
    var size := |sig.bits|;
    var i, sigIndex := 0, 0;
    while i < size
      invariant 0 <= i <= size && sigIndex == Rank(sig.bits, i)
      invariant Pay(meter.consumed, meter.limit, BillFrom(pubkey, sig, p, i)) ==
                Pay(old(meter.consumed), meter.limit, BillFor(pubkey, sig, p))
    {
      if sig.bits[i] {
        if i >= |pubkey.keys| || sigIndex >= |sig.sigs| {
          return Panics(IndexOutOfRange);
        }
        PayThen(meter.consumed, meter.limit, BillFor(pubkey.keys[i], sig.sigs[sigIndex], p),
                BillFrom(pubkey, sig, p, i + 1));
        o := DefaultSigVerificationGasConsumer(meter, pubkey.keys[i], sig.sigs[sigIndex], p);
        if o != Done {
          return;
        }
        sigIndex := sigIndex + 1;
      }
      i := i + 1;
    }
    return Done;
  }

  /** Paying one bill and then another. */
  lemma {:induction false} PayThen(consumed: u64, limit: u64, b: Bill, next: Bill)
    ensures Pay(consumed, limit, b.Then(next)) ==
            var (c, o) := Pay(consumed, limit, b);
            if o.Done? then Pay(c, limit, next) else (c, o)
    decreases |b.costs|
  {
    if b.costs == [] {
      assert [] + next.costs == next.costs;
    } else {
      var rest := Bill(b.costs[1..], b.end);
      assert b.end.Done? ==> (b.costs + next.costs)[1..] == b.costs[1..] + next.costs;
      if consumed + b.costs[0] <= limit {
        PayThen(consumed + b.costs[0], limit, rest, next);
      }
    }
  }

  // ---- What it means ----

  function Sum(costs: seq<u64>): nat {
    if costs == [] then 0 else costs[0] + Sum(costs[1..])
  }

  lemma {:induction false} SumAppend(a: seq<u64>, b: seq<u64>)
    ensures Sum(a + b) == Sum(a) + Sum(b)
  {
    if a == [] {
      assert a + b == b;
    } else {
      assert (a + b)[1..] == a[1..] + b;
      SumAppend(a[1..], b);
    }
  }

  lemma {:induction false} PaySum(consumed: u64, limit: u64, b: Bill)
    requires consumed <= limit
    ensures consumed + Sum(b.costs) <= limit ==> Pay(consumed, limit, b) == (consumed + Sum(b.costs), b.end)
    ensures consumed + Sum(b.costs) > limit ==> Pay(consumed, limit, b).1 == Panics(OutOfGas)
    decreases |b.costs|
  {
    if b.costs != [] && consumed + b.costs[0] <= limit {
      PaySum(consumed + b.costs[0], limit, Bill(b.costs[1..], b.end));
    }
  }

  /** The signers from i on fit their keys. */
  ghost predicate WellFormedFrom(key: PubKey, sig: SigData, i: nat)
    requires key.Multisig? && sig.MultiSignature?
  {
    forall k :: i <= k < |sig.bits| && sig.bits[k] ==>
      k < |key.keys| && Rank(sig.bits, k) < |sig.sigs| && WellFormed(key.keys[k], sig.sigs[Rank(sig.bits, k)])
  }

  /** The traversal ends well exactly on well-formed signatures, and then charges what all signing leaves cost. */
  lemma {:induction false} BillIsGas(key: PubKey, sig: SigData, p: Params)
    ensures BillFor(key, sig, p).end.Done? <==> WellFormed(key, sig)
    ensures BillFor(key, sig, p).end.Done? ==> Sum(BillFor(key, sig, p).costs) == GasOf(key, sig, p)
    decreases key, 1, 0
  {
    match key {
      case Ed25519 => SumOne(p.costEd25519);
      case EthSecp256k1 => SumOne(p.costSecp256k1);
      case OtherKey => 
      case Multisig(_) =>
        if sig.MultiSignature? {
          BillFromIsGas(key, sig, p, 0);
          assert WellFormedFrom(key, sig, 0) <==> WellFormed(key, sig);
        }
    }
  }

  lemma SumOne(cost: u64)
    ensures Sum([cost]) == cost
  {
    assert [cost][1..] == [];
  }

  lemma {:induction false} BillFromIsGas(key: PubKey, sig: SigData, p: Params, i: nat)
    requires key.Multisig? && sig.MultiSignature? && i <= |sig.bits|
    ensures BillFrom(key, sig, p, i).end.Done? <==> WellFormedFrom(key, sig, i)
    ensures BillFrom(key, sig, p, i).end.Done? ==>
              Sum(BillFrom(key, sig, p, i).costs) + GasBelow(key, sig, p, i) == GasBelow(key, sig, p, |sig.bits|)
    decreases key, 0, |sig.bits| - i
  {
    if i < |sig.bits| {
      var r := Rank(sig.bits, i);
      BillFromIsGas(key, sig, p, i + 1);
      if sig.bits[i] && i < |key.keys| && r < |sig.sigs| {
        BillIsGas(key.keys[i], sig.sigs[r], p);
        SumAppend(BillFor(key.keys[i], sig.sigs[r], p).costs, BillFrom(key, sig, p, i + 1).costs);
      }
      FromNext(key, sig, i);
    }
  }

  lemma FromNext(key: PubKey, sig: SigData, i: nat)
    requires key.Multisig? && sig.MultiSignature? && i < |sig.bits|
    ensures WellFormedFrom(key, sig, i) <==>
            && (sig.bits[i] ==>
                  i < |key.keys| && Rank(sig.bits, i) < |sig.sigs| &&
                  WellFormed(key.keys[i], sig.sigs[Rank(sig.bits, i)]))
            && WellFormedFrom(key, sig, i + 1)
  {}

  /** A meter within its limit: verification succeeds if and only if the signature is well-formed and the gas
      suffices, and then exactly the gas of the signing leaves has been consumed. */
  lemma SuccessExactly(key: PubKey, sig: SigData, p: Params, consumed: u64, limit: u64)
    requires consumed <= limit
    ensures var (c, o) := Pay(consumed, limit, BillFor(key, sig, p));
            && (o.Done? <==> WellFormed(key, sig) && consumed + GasOf(key, sig, p) <= limit)
            && (o.Done? ==> c == consumed + GasOf(key, sig, p))
  {
    PaySum(consumed, limit, BillFor(key, sig, p));
    BillIsGas(key, sig, p);
  }

  // ---- The number of signing leaves of each kind ----

  function Leaves(key: PubKey, sig: SigData, kind: PubKey): nat
    decreases key, 1, 0
  {
    match key
    case Multisig(_) => if sig.MultiSignature? then LeavesBelow(key, sig, kind, |sig.bits|) else 0
    case _ => if key == kind then 1 else 0
  }

  function LeavesBelow(key: PubKey, sig: SigData, kind: PubKey, i: nat): nat
    requires key.Multisig? && sig.MultiSignature? && i <= |sig.bits|
    decreases key, 0, i
  {
    if i == 0 then 0
    else
      LeavesBelow(key, sig, kind, i - 1) +
      if sig.bits[i - 1] && i - 1 < |key.keys| && Rank(sig.bits, i - 1) < |sig.sigs|
      then Leaves(key.keys[i - 1], sig.sigs[Rank(sig.bits, i - 1)], kind) else 0
  }

  /** However deep the nesting: the gas is the number of Ed25519 leaves times their price, and so on. */
  lemma {:induction false} GasCountsLeaves(key: PubKey, sig: SigData, p: Params)
    ensures GasOf(key, sig, p) ==
            Leaves(key, sig, Ed25519) * p.costEd25519 + Leaves(key, sig, EthSecp256k1) * p.costSecp256k1
    decreases key, 1, 0
  {
    if key.Multisig? && sig.MultiSignature? {
      GasBelowCounts(key, sig, p, |sig.bits|);
    }
  }

  lemma Distribute(a: nat, b: nat, x: nat)
    ensures (a + b) * x == a * x + b * x
  {}

  lemma {:induction false} GasBelowCounts(key: PubKey, sig: SigData, p: Params, i: nat)
    requires key.Multisig? && sig.MultiSignature? && i <= |sig.bits|
    ensures GasBelow(key, sig, p, i) ==
            LeavesBelow(key, sig, Ed25519, i) * p.costEd25519 + LeavesBelow(key, sig, EthSecp256k1, i) * p.costSecp256k1
    decreases key, 0, i
  {
    if i > 0 {
      GasBelowCounts(key, sig, p, i - 1);
      if sig.bits[i - 1] && i - 1 < |key.keys| && Rank(sig.bits, i - 1) < |sig.sigs| {
        var k, d := key.keys[i - 1], sig.sigs[Rank(sig.bits, i - 1)];
        GasCountsLeaves(k, d, p);
        Distribute(LeavesBelow(key, sig, Ed25519, i - 1), Leaves(k, d, Ed25519), p.costEd25519);
        Distribute(LeavesBelow(key, sig, EthSecp256k1, i - 1), Leaves(k, d, EthSecp256k1), p.costSecp256k1);
      }
    }
  }

  // ---- The signers without indexes ----

  /** The signing keys with their signatures, in order, until a key or a signature is missing. */
  datatype Signers = Signers(pairs: seq<(PubKey, SigData)>, complete: bool)

  /** Key list and bit array are peeled together; a set bit takes a signature as well. */
  function Paired(keys: seq<PubKey>, bits: seq<bool>, sigs: seq<SigData>): Signers {
    if bits == [] then Signers([], true)
    else
      var keys' := if keys == [] then [] else keys[1..];
      if !bits[0] then Paired(keys', bits[1..], sigs)
      else if keys == [] || sigs == [] then Signers([], false)
      else
        var rest := Paired(keys', bits[1..], sigs[1..]);
        Signers([(keys[0], sigs[0])] + rest.pairs, rest.complete)
  }

  function BillAll(pairs: seq<(PubKey, SigData)>, p: Params, end: Verdict): Bill {
    if pairs == [] then Bill([], end)
    else BillFor(pairs[0].0, pairs[0].1, p).Then(BillAll(pairs[1..], p, end))
  }

  /** What is left of a list from index i on. */
  function From<T>(xs: seq<T>, i: nat): seq<T> {
    if i < |xs| then xs[i..] else []
  }

  function BillOf(s: Signers, p: Params): Bill {
    BillAll(s.pairs, p, if s.complete then Done else Panics(IndexOutOfRange))
  }

  /** The loop with its two indexes charges the signers one after the other, and panics at the first one that lacks a
      key or a signature. */
  lemma BillIsInOrder(keys: seq<PubKey>, bits: seq<bool>, sigs: seq<SigData>, p: Params)
    ensures var s := Paired(keys, bits, sigs);
            BillFor(Multisig(keys), MultiSignature(bits, sigs), p) ==
            BillAll(s.pairs, p, if s.complete then Done else Panics(IndexOutOfRange))
  {
    BillFromIsInOrder(keys, bits, sigs, p, 0);
    assert From(keys, 0) == keys && From(sigs, 0) == sigs && bits[0..] == bits;
  }

  lemma FromNextIs<T>(xs: seq<T>, i: nat)
    ensures From(xs, i) == [] <==> i >= |xs|
    ensures From(xs, i + 1) == if From(xs, i) == [] then [] else From(xs, i)[1..]
    ensures i < |xs| ==> From(xs, i)[0] == xs[i]
  {}

  lemma BillOfFirst(keys: seq<PubKey>, bits: seq<bool>, sigs: seq<SigData>, p: Params)
    requires bits != []
    ensures BillOf(Paired(keys, bits, sigs), p) ==
            var keys' := if keys == [] then [] else keys[1..];
            if !bits[0] then BillOf(Paired(keys', bits[1..], sigs), p)
            else if keys == [] || sigs == [] then Bill([], Panics(IndexOutOfRange))
            else BillFor(keys[0], sigs[0], p).Then(BillOf(Paired(keys', bits[1..], sigs[1..]), p))
  {
    var s := Paired(keys, bits, sigs);
    if bits[0] && keys != [] && sigs != [] {
      assert s.pairs[1..] == Paired(keys[1..], bits[1..], sigs[1..]).pairs;
    }
  }

  lemma BillOfNext(keys: seq<PubKey>, bits: seq<bool>, sigs: seq<SigData>, p: Params, i: nat)
    requires i < |bits|
    ensures BillOf(Paired(keys, bits[i..], sigs), p) ==
            var keys' := if keys == [] then [] else keys[1..];
            if !bits[i] then BillOf(Paired(keys', bits[i + 1..], sigs), p)
            else if keys == [] || sigs == [] then Bill([], Panics(IndexOutOfRange))
            else BillFor(keys[0], sigs[0], p).Then(BillOf(Paired(keys', bits[i + 1..], sigs[1..]), p))
  {
    BillOfFirst(keys, bits[i..], sigs, p);
    assert bits[i..][1..] == bits[i + 1..];
  }

  lemma {:induction false} BillFromIsInOrder(keys: seq<PubKey>, bits: seq<bool>, sigs: seq<SigData>, p: Params, i: nat)
    requires i <= |bits|
    ensures BillFrom(Multisig(keys), MultiSignature(bits, sigs), p, i) ==
            BillOf(Paired(From(keys, i), bits[i..], From(sigs, Rank(bits, i))), p)
    decreases |bits| - i
  {
    if i < |bits| {
      var r := Rank(bits, i);
      BillFromIsInOrder(keys, bits, sigs, p, i + 1);
      FromNextIs(keys, i);
      FromNextIs(sigs, r);
      BillOfNext(From(keys, i), bits, From(sigs, r), p, i);
    }
  }

  lemma {:induction false} AllPaired(keys: seq<PubKey>, bits: seq<bool>, sigs: seq<SigData>)
    requires |bits| <= |keys| && Rank(bits, |bits|) <= |sigs|
    ensures var s := Paired(keys, bits, sigs); s.complete && |s.pairs| == Rank(bits, |bits|)
    decreases |bits|
  {
    if bits != [] {
      RankPeel(bits);
      AllPaired(keys[1..], bits[1..], if bits[0] then sigs[1..] else sigs);
    }
  }

  /** The pairing is complete exactly if every set bit has its key and its signature. */
  lemma {:induction false} CompleteExactly(keys: seq<PubKey>, bits: seq<bool>, sigs: seq<SigData>)
    ensures Paired(keys, bits, sigs).complete <==>
            forall i :: 0 <= i < |bits| && bits[i] ==> HasBoth(keys, bits, sigs, i)
    ensures |Paired(keys, bits, sigs).pairs| <= |bits|
    decreases |bits|
  {
    if bits != [] {
      var keys' := if keys == [] then [] else keys[1..];
      var sigs' := if bits[0] && sigs != [] then sigs[1..] else sigs;
      CompleteExactly(keys', bits[1..], sigs');
      if bits[0] && (keys == [] || sigs == []) {
        assert !HasBoth(keys, bits, sigs, 0);
      } else {
        forall i | 0 <= i < |bits| - 1 && bits[i + 1]
          ensures HasBoth(keys, bits, sigs, i + 1) <==> HasBoth(keys', bits[1..], sigs', i)
        {
          RankShift(bits, i);
        }
        assert forall i :: 0 < i < |bits| && bits[i] ==>
            (HasBoth(keys, bits, sigs, i) <==> HasBoth(keys', bits[1..], sigs', i - 1));
        assert forall i :: 0 <= i < |bits| - 1 ==> bits[1..][i] == bits[i + 1];
      }
    }
  }

  predicate HasBoth(keys: seq<PubKey>, bits: seq<bool>, sigs: seq<SigData>, i: nat) {
    i < |bits| && i < |keys| && Rank(bits, i) < |sigs|
  }

  lemma RankPeel(bits: seq<bool>)
    requires bits != []
    ensures Rank(bits, |bits|) == Rank(bits[1..], |bits| - 1) + if bits[0] then 1 else 0
  {
    RankShift(bits, |bits| - 1);
  }

  lemma {:induction false} RankShift(bits: seq<bool>, i: nat)
    requires i < |bits|
    ensures Rank(bits, i + 1) == Rank(bits[1..], i) + if bits[0] then 1 else 0
  {
    if i > 0 {
      RankShift(bits, i - 1);
    }
  }

  lemma {:induction false} FlatBill(pairs: seq<(PubKey, SigData)>, p: Params, end: Verdict)
    requires forall q :: q in pairs ==> q.0 == Ed25519
    ensures BillAll(pairs, p, end).end == end
    ensures Sum(BillAll(pairs, p, end).costs) == |pairs| * p.costEd25519
    decreases |pairs|
  {
    if pairs != [] {
      var rest := BillAll(pairs[1..], p, end);
      FlatBill(pairs[1..], p, end);
      SumAppend([p.costEd25519], rest.costs);
      SumOne(p.costEd25519);
      Distribute(1, |pairs| - 1, p.costEd25519);
    }
  }

  /** In numbers: a list of Ed25519 keys of which some have signed, each set bit with its key and its signature, costs
      one price for each set bit. */
  lemma FlatMultisig(keys: seq<PubKey>, bits: seq<bool>, sigs: seq<SigData>, p: Params, consumed: u64, limit: u64)
    requires |bits| <= |keys| && (forall k :: k in keys ==> k == Ed25519)
    requires |set k: nat | k < |bits| && bits[k]| <= |sigs|
    requires consumed + |set k: nat | k < |bits| && bits[k]| * p.costEd25519 <= limit
    ensures Pay(consumed, limit, BillFor(Multisig(keys), MultiSignature(bits, sigs), p)) ==
            (consumed + |set k: nat | k < |bits| && bits[k]| * p.costEd25519, Done)
  {
    RankCounts(bits, |bits|);
    AllPaired(keys, bits, sigs);
    FlatKeys(keys, bits, sigs);
    BillIsInOrder(keys, bits, sigs, p);
    var pairs := Paired(keys, bits, sigs).pairs;
    FlatBill(pairs, p, Done);
    PaySum(consumed, limit, BillAll(pairs, p, Done));
  }

  /** If a set bit has no key, or fewer signatures than set bits up to it are there, the loop runs out of its range,
      with gas for all the keys. */
  lemma FlatMultisigPanics(keys: seq<PubKey>, bits: seq<bool>, sigs: seq<SigData>, p: Params, consumed: u64,
                           limit: u64, i: nat)
    requires (forall k :: k in keys ==> k == Ed25519) && i < |bits| && bits[i]
    requires i >= |keys| || |set k: nat | k < i && bits[k]| >= |sigs|
    requires consumed + |bits| * p.costEd25519 <= limit
    ensures Pay(consumed, limit, BillFor(Multisig(keys), MultiSignature(bits, sigs), p)).1 == Panics(IndexOutOfRange)
  {
    RankCounts(bits, i);
    CompleteExactly(keys, bits, sigs);
    assert !HasBoth(keys, bits, sigs, i);
    BillIsInOrder(keys, bits, sigs, p);
    var pairs := Paired(keys, bits, sigs).pairs;
    FlatKeys(keys, bits, sigs);
    FlatBill(pairs, p, Panics(IndexOutOfRange));
    Fewer(|pairs|, |bits|, p.costEd25519);
    PaySum(consumed, limit, BillAll(pairs, p, Panics(IndexOutOfRange)));
  }

  lemma Fewer(a: nat, b: nat, x: nat)
    requires a <= b
    ensures a * x <= b * x
  {}

  lemma {:induction false} FlatKeys(keys: seq<PubKey>, bits: seq<bool>, sigs: seq<SigData>)
    requires forall k :: k in keys ==> k == Ed25519
    ensures forall q :: q in Paired(keys, bits, sigs).pairs ==> q.0 == Ed25519
    decreases |bits|
  {
    if bits != [] {
      var keys' := if keys == [] then [] else keys[1..];
      forall k | k in keys' ensures k in keys {}
      FlatKeys(keys', bits[1..], if bits[0] && sigs != [] then sigs[1..] else sigs);
      assert keys != [] ==> keys[0] in keys;
    }
  }

  // ---- Single keys, refusals and the meter ----

  /** A single key costs the price of its kind, whatever the signature is. */
  lemma SingleKeys(sig: SigData, p: Params, consumed: u64, limit: u64)
    ensures consumed + p.costEd25519 <= limit ==>
              Pay(consumed, limit, BillFor(Ed25519, sig, p)) == (consumed + p.costEd25519, Done)
    ensures consumed + p.costSecp256k1 <= limit ==>
              Pay(consumed, limit, BillFor(EthSecp256k1, sig, p)) == (consumed + p.costSecp256k1, Done)
  {
    assert [p.costEd25519][1..] == [] && [p.costSecp256k1][1..] == [];
  }

  /** A key of another kind, and a multisig key with a single signature, are refused before anything is charged. */
  lemma Refusals(keys: seq<PubKey>, sig: SigData, p: Params, consumed: u64, limit: u64)
    ensures Pay(consumed, limit, BillFor(OtherKey, sig, p)) == (consumed, Rejected)
    ensures Pay(consumed, limit, BillFor(Multisig(keys), Single, p)) == (consumed, Rejected)
  {}

  /** The charge that exceeds the limit stays on the meter, up to the largest word. */
  lemma {:induction false} PayStops(consumed: u64, limit: u64, b: Bill, j: nat)
    requires j < |b.costs|
    requires consumed + Sum(b.costs[..j]) <= limit < consumed + Sum(b.costs[..j + 1])
    ensures var total := consumed + Sum(b.costs[..j + 1]);
            Pay(consumed, limit, b) == (if total < TWO64 then total else TWO64 - 1, Panics(OutOfGas))
    decreases j
  {
    assert b.costs[..j + 1] == [b.costs[0]] + b.costs[1..j + 1];
    SumAppend([b.costs[0]], b.costs[1..j + 1]);
    SumOne(b.costs[0]);
    if j > 0 {
      var rest := Bill(b.costs[1..], b.end);
      assert b.costs[..j] == [b.costs[0]] + b.costs[1..j];
      SumAppend([b.costs[0]], b.costs[1..j]);
      assert rest.costs[..j] == b.costs[1..j + 1] && rest.costs[..j - 1] == b.costs[1..j];
      PayStops(consumed + b.costs[0], limit, rest, j - 1);
    } else {
      assert b.costs[1..1] == [];
    }
  }
}
