/** When the local account sequence of client/chain/chain.go heals, and when it does not. */
module NonceRuns {
  import opened Words
  import opened Outcomes
  import opened Nonce
  import BatchLoop

  // ---- What a call does, from its chances alone ----

  /** One attempt: each way in which it can end, and what becomes of the account. `looked` says that what has to be
      looked up can be, `seq` and `no` are what is signed, and `met` is the account's sequence at delivery. */
  lemma AttemptExactly(simulate: bool, await: bool, num: u64, sequence: u64, chain: Account, a: Attempt)
    ensures var (reply, after) := Broadcast(simulate, await, num, sequence, chain, a);
            var looked := (num != 0 && sequence != 0) || a.read.Some?;
            var no := if num != 0 || a.read.None? then num else a.read.value.num;
            var seq' := if sequence != 0 || a.read.None? then sequence else a.read.value.sequence;
            var met := if a.moved.Some? then a.moved.value else chain.sequence;
            var simulated := !simulate || (a.simulated.Passes? && seq' == chain.sequence);
            var arrives := a.found && looked && simulated && a.built;
            var taken := arrives && a.sent == Accepts && seq' == met && no == chain.num;
            && (reply == Failed(SequenceMismatch) <==>
                  a.found && looked && simulate && a.simulated != FailsBefore && seq' != chain.sequence)
            && (reply == Failed(TimedOut) <==> taken && await && a.waited.Expired?)
            && (reply == Done(Zero) <==> taken && (await ==> a.waited.Included? && !a.waited.fails))
            && (reply == Done(WrongSequence) <==>
                  arrives && (a.sent == Accepts || a.sent == Refuses(false)) && seq' != met)
            && (reply == Done(OtherCode) <==>
                  || (arrives && a.sent == Refuses(true))
                  || (arrives && a.sent == Refuses(false) && seq' == met)
                  || (arrives && a.sent == Accepts && seq' == met && no != chain.num)
                  || (taken && await && a.waited.Included? && a.waited.fails))
            && reply != Panicked
            && after.num == chain.num
            && after.sequence ==
               if || (taken && !(await && a.waited in {Expired(false), Included(true, false)}))
                  || (arrives && a.sent == Breaks(true) && seq' == met && no == chain.num)
               then (met + 1) % 0x1_0000_0000_0000_0000
               else if a.found && looked && (simulate ==> a.simulated != FailsBefore && seq' == chain.sequence) then met
               else chain.sequence
  {}

  /** A call is its last attempt. There is a second one exactly after the mismatch error of a simulation, if the
      re-read did not find another account number; it signs with the sequence that was re-read, meets the account
      where others have moved it, and waits for its block if the first one does. Every result with a code advances
      the local sequence by one. */
  lemma CallExactly(simulate: bool, await: bool, accNum: u64, accSeq: u64, chain: Account, c: Chance)
    ensures var o := Call(simulate, await, accNum, accSeq, chain, c);
            var mismatch := Broadcast(simulate, await, accNum, accSeq, chain, c.first).0 == Failed(SequenceMismatch);
            var other := c.read.Some? && c.read.value.num != accNum;
            var local := if mismatch && !other && c.read.Some? then c.read.value.sequence else accSeq;
            var now := if c.after.Some? then c.after.value
                       else if c.before.Some? then c.before.value else chain.sequence;
            && o.attempts == (if mismatch && !other then 2 else 1)
            && (!mismatch ==> (o.reply, o.chain) == Broadcast(simulate, await, accNum, accSeq, chain, c.first))
            && (mismatch && !other ==>
                  (o.reply, o.chain) ==
                  Broadcast(simulate, await, accNum, local, Account(chain.num, now), c.second))
            && (o.reply == Panicked <==> mismatch && other)
            && (o.reply == Panicked ==>
                  o.chain == Account(chain.num, if c.before.Some? then c.before.value else chain.sequence))
            && o.signed == local
            && o.accSeq == if o.reply.Done? then (local + 1) % 0x1_0000_0000_0000_0000 else local
  {
    AttemptExactly(simulate, await, accNum, accSeq, chain, c.first);
    AttemptExactly(simulate, await, accNum, Reread(accSeq, c.read), Later(chain, c), c.second);
  }

  /** So the block decides, also after a retry: an attempt that the node accepts reports a result only when the block
      has shown it, with its code, and an expired wait is an error. Only without waiting the node's check is enough. */
  lemma BlockDecides(simulate: bool, await: bool, accNum: u64, accSeq: u64, chain: Account, c: Chance)
    ensures var o := Call(simulate, await, accNum, accSeq, chain, c);
            var a := if o.attempts == 1 then c.first else c.second;
            var local := if o.attempts == 1 || c.read.None? then accSeq else c.read.value.sequence;
            var start := if o.attempts == 1 then chain.sequence
                         else if c.after.Some? then c.after.value
                         else if c.before.Some? then c.before.value else chain.sequence;
            var met := if a.moved.Some? then a.moved.value else start;
            var no := if accNum != 0 || a.read.None? then accNum else a.read.value.num;
            var seq' := if local != 0 || a.read.None? then local else a.read.value.sequence;
            && a.found && (a.read.Some? || (accNum != 0 && local != 0)) && no == chain.num && seq' == met
            && (simulate ==> a.simulated.Passes? && seq' == start) && a.built && a.sent.Accepts?
            ==>
              && (await ==> (o.reply == Failed(TimedOut) <==> a.waited.Expired?))
              && (await ==> (o.reply == Done(OtherCode) <==> a.waited.Included? && a.waited.fails))
              && (await ==> (o.reply == Done(Zero) <==> a.waited.Included? && !a.waited.fails))
              && (!await ==> o.reply == Done(Zero))
              && o.accSeq == if o.reply == Failed(TimedOut) then local else (local + 1) % 0x1_0000_0000_0000_0000
  {
    CallExactly(simulate, await, accNum, accSeq, chain, c);
    var o := Call(simulate, await, accNum, accSeq, chain, c);
    if o.attempts == 1 {
      AttemptExactly(simulate, await, accNum, accSeq, chain, c.first);
    } else {
      AttemptExactly(simulate, await, accNum, Reread(accSeq, c.read), Later(chain, c), c.second);
    }
  }

  // ---- How a call can end because of the sequence ----

  /** The attempt gets as far as the sequence check, and the sequence that it signs with is not the account's. */
  predicate Stale(accNum: u64, accSeq: u64, chain: Account, a: Attempt) {
    && a.found && !a.simulated.FailsBefore?
    && (accNum == 0 || accSeq == 0 ==> a.read.Some?)
    && (if accSeq == 0 then a.read.value.sequence else accSeq) != chain.sequence
  }

  /** The attempt gets as far as the node's check of the delivered transaction, and by then the sequence that it
      signed with is not the account's. */
  predicate Overtaken(accNum: u64, accSeq: u64, chain: Account, a: Attempt) {
    && a.found && a.simulated.Passes? && a.built && !a.sent.Breaks? && a.sent != Refuses(true)
    && (accNum == 0 || accSeq == 0 ==> a.read.Some?)
    && (if accSeq == 0 then a.read.value.sequence else accSeq) != chain.Moved(a.moved).sequence
  }

  /** The sequence after the re-read: what it returned, or, if it failed, the one that was there. */
  function Reread(accSeq: u64, read: Option<Account>): u64 {
    if read.Some? then read.value.sequence else accSeq
  }

  /** The account as the retry finds it. */
  function Later(chain: Account, c: Chance): Account {
    chain.Moved(c.before).Moved(c.after)
  }

  /** Nobody else moves the sequence between a check of it and its use. */
  predicate Calm(c: Chance) {
    c.first.moved.None? && c.second.moved.None? && c.after.None?
  }

  /** One attempt with simulation. */
  lemma AttemptEnds(await: bool, accNum: u64, accSeq: u64, chain: Account, a: Attempt)
    ensures var reply := Broadcast(true, await, accNum, accSeq, chain, a).0;
            && (reply == Failed(SequenceMismatch) <==> Stale(accNum, accSeq, chain, a))
            && (reply == Done(WrongSequence) <==>
                  !Stale(accNum, accSeq, chain, a) && Overtaken(accNum, accSeq, chain, a))
            && (a.moved.None? ==> reply != Done(WrongSequence))
            && !reply.Panicked?
  {}

  /** With simulation, whatever others do in the meantime. A call ends in the mismatch error if and only if it was
      stale and what it re-read, or kept, is stale again. It ends in the code of a mismatch, which is not retried,
      if and only if its last attempt was not stale when it was simulated and is overtaken before it is delivered;
      in calm calls that does not happen. It panics if and only if it was stale and the re-read found another
      account number. */
  lemma MismatchExactly(await: bool, accNum: u64, accSeq: u64, chain: Account, c: Chance)
    ensures var reply := Call(true, await, accNum, accSeq, chain, c).reply;
            var other, again := c.read.Some? && c.read.value.num != accNum, Reread(accSeq, c.read);
            var first, second := Stale(accNum, accSeq, chain, c.first), Stale(accNum, again, Later(chain, c), c.second);
            && (reply == Failed(SequenceMismatch) <==> first && !other && second)
            && (reply == Done(WrongSequence) <==>
                  || (!first && Overtaken(accNum, accSeq, chain, c.first))
                  || (first && !other && !second && Overtaken(accNum, again, Later(chain, c), c.second)))
            && (reply.Panicked? <==> first && other)
            && (Calm(c) ==> reply != Done(WrongSequence))
  {
    AttemptEnds(await, accNum, accSeq, chain, c.first);
    AttemptEnds(await, accNum, Reread(accSeq, c.read), Later(chain, c), c.second);
  }

  /** The window is between simulation and delivery: a call that starts with the right sequence, on a node whose
      reads agree with its check, is lost when somebody else uses the account there. It reports no error, nothing
      of it is sent, and the local sequence advances; if it was overtaken by exactly one transaction, the two
      sequences are equal again. */
  lemma RaceLosesCall(await: bool, accNum: u64, chain: Account, c: Chance, to: u64)
    requires accNum == chain.num != 0 && chain.sequence != 0
    requires c.first.found && c.first.simulated.Passes? && c.first.built && c.first.sent.Accepts?
    requires c.first.moved == Some(to) && to != chain.sequence
    ensures var o := Call(true, await, accNum, chain.sequence, chain, c);
            && o.reply == Done(WrongSequence) && o.attempts == 1
            && o.chain == chain.Moved(Some(to)) && o.accSeq == Next(chain.sequence)
            && (o.accSeq == o.chain.sequence <==> to == Next(chain.sequence))
  {}

  /** The account as the last attempt of a call finds it at delivery. */
  function Met(o: Outcome, chain: Account, c: Chance): Account {
    if o.attempts == 1 then chain.Moved(c.first.moved) else Later(chain, c).Moved(c.second.moved)
  }

  /** No call makes more than two attempts, a retry follows only an attempt that was never sent, and so, whatever
      others do, a call takes at most one sequence of the account, and none if it ends in a mismatch. */
  lemma AtMostOneTransaction(simulate: bool, await: bool, accNum: u64, accSeq: u64, chain: Account, c: Chance)
    ensures var o := Call(simulate, await, accNum, accSeq, chain, c);
            var start := if o.attempts == 1 then chain else Later(chain, c);
            && 1 <= o.attempts <= 2
            && (o.attempts == 2 ==>
                  Broadcast(simulate, await, accNum, accSeq, chain, c.first) == (Failed(SequenceMismatch), chain))
            && (!o.reply.Panicked? ==>
                  o.chain == start || o.chain == Met(o, chain, c) || o.chain == Met(o, chain, c).Advanced())
            && (o.reply == Failed(SequenceMismatch) ==> o.chain == start)
            && (o.reply == Done(WrongSequence) ==> o.chain == Met(o, chain, c))
            && (o.reply.Panicked? ==> o.chain == chain.Moved(c.before))
  {}

  lemma NextIsInjective(a: u64, b: u64)
    ensures Next(a) == Next(b) <==> a == b
  {}

  /** After an accepted call, local and chain sequence are equal, except when the local one was zero and the
      account's was not: then the sequence that prepareFactory looked up is not kept. */
  lemma EqualExactly(simulate: bool, await: bool, accNum: u64, accSeq: u64, chain: Account, c: Chance)
    requires Call(simulate, await, accNum, accSeq, chain, c).reply == Done(Zero)
    ensures var o := Call(simulate, await, accNum, accSeq, chain, c);
            && o.signed == (if o.attempts == 1 then accSeq else Reread(accSeq, c.read))
            && (o.accSeq == o.chain.sequence <==> o.signed != 0 || Met(o, chain, c).sequence == 0)
  {
    var o := Call(simulate, await, accNum, accSeq, chain, c);
    NextIsInjective(o.signed, Met(o, chain, c).sequence);
  }

  // ---- Reads that agree with the node's check ----

  /** Queries return what the node checks with, and the re-read succeeds. On the asynchronous path this is an
      assumption: there a query may return a state without the transactions that are pending. */
  predicate Agrees(chain: Account, c: Chance) {
    && c.read == Some(chain.Moved(c.before))
    && (c.first.read.Some? ==> c.first.read.value == chain)
    && (c.second.read.Some? ==> c.second.read.value == chain.Moved(c.before))
  }

  /** The same for one attempt: a mismatch changes nothing. */
  lemma AttemptDrift(await: bool, accNum: u64, accSeq: u64, chain: Account, a: Attempt)
    requires a.moved.None? && accNum == chain.num && (accSeq != 0 || chain.sequence == 0)
    requires a.read.Some? ==> a.read.value == chain
    ensures var r := Broadcast(true, await, accNum, accSeq, chain, a);
            match r.0
            case Done(code) =>
              && accSeq == chain.sequence && (code == Zero || code == OtherCode)
              && (r.1 == chain.Advanced() || (code == OtherCode && r.1 == chain))
            case Failed(e) =>
              || r.1 == chain
              || (accSeq == chain.sequence && r.1 == chain.Advanced() && e != SequenceMismatch)
            case Panicked => false
    ensures Broadcast(true, await, accNum, accSeq, chain, a).0 == Failed(SequenceMismatch) ==> accSeq != chain.sequence
    ensures Broadcast(true, await, accNum, accSeq, chain, a).0 == Failed(TimedOut) ==> accSeq == chain.sequence
  {}

  /** A call that is not accepted drifts by one at most, and in a known direction: ahead of the account after a
      result with a code, behind it after an error. An error before the check leaves both as they are. */
  lemma DriftIsSmall(await: bool, accNum: u64, accSeq: u64, chain: Account, c: Chance)
    requires Calm(c) && Agrees(chain, c) && accNum == chain.num && (accSeq != 0 || chain.sequence == 0)
    ensures var o := Call(true, await, accNum, accSeq, chain, c);
            match o.reply
            case Done(code) => o.accSeq == o.chain.sequence || (code == OtherCode && o.accSeq == Next(o.chain.sequence))
            case Failed(e) => || o.accSeq == o.chain.sequence || o.chain.sequence == Next(o.accSeq)
                              || (e == OtherErr && o.accSeq == accSeq && o.chain == chain)
            case Panicked => false
  {
    AttemptDrift(await, accNum, accSeq, chain, c.first);
    AttemptDrift(await, accNum, chain.Moved(c.before).sequence, chain.Moved(c.before), c.second);
  }

  /** Without the agreement the retry can fail as the first attempt did: transactions are pending, the query returns
      the sequence before them, and the local sequence is neither. */
  lemma LaggingReadMismatches(await: bool, accNum: u64, accSeq: u64, chain: Account, c: Chance)
    requires Calm(c) && c.before.None? && c.read.Some? && c.read.value.num == accNum != 0
    requires c.first.found && c.second.found && c.first.simulated.Passes? && c.second.simulated.Passes?
    requires accSeq != 0 && accSeq != chain.sequence
    requires c.read.value.sequence != 0 && c.read.value.sequence != chain.sequence
    ensures var o := Call(true, await, accNum, accSeq, chain, c);
            o.reply == Failed(SequenceMismatch) && o.attempts == 2 && o.accSeq == c.read.value.sequence
  {}

  // ---- Calls on a node that answers ----

  predicate Answers(a: Attempt) {
    && a.found && a.read.Some? && a.simulated.Passes? && a.built
    && a.sent.Accepts? && a.waited == Included(false, true)
  }

  /** Nothing but a stale sequence stands in the way of the call. */
  predicate Good(chain: Account, c: Chance) {
    Calm(c) && Agrees(chain, c) && Answers(c.first) && Answers(c.second)
  }

  /** From any drift, a call with simulation goes through and leaves the two sequences equal. */
  lemma CallRepairs(await: bool, accNum: u64, accSeq: u64, chain: Account, c: Chance)
    requires Good(chain, c) && accNum == chain.num && (accSeq != 0 || chain.sequence == 0)
    ensures var o := Call(true, await, accNum, accSeq, chain, c);
            && o.reply == Done(Zero)
            && o.attempts == (if accSeq == chain.sequence then 1 else 2)
            && o.chain == (if accSeq == chain.sequence then chain else chain.Moved(c.before)).Advanced()
            && o.accSeq == o.chain.sequence
  {}

  // ---- Runs: calls on the three paths, one after the other under the mutex ----

  /** `drift` is an outside move before the call, or while the one before it waited for its block. */
  datatype Turn = Turn(await: bool, drift: Option<u64>, chance: Chance)

  function Perform(simulate: bool, accNum: u64, accSeq: u64, chain: Account, t: Turn): Outcome {
    Call(simulate, t.await, accNum, accSeq, chain.Moved(t.drift), t.chance)
  }

  function Results(simulate: bool, accNum: u64, accSeq: u64, chain: Account, ts: seq<Turn>): (os: seq<Outcome>)
    ensures |os| == |ts|
    decreases |ts|
  {
    if ts == [] then []
    else
      var o := Perform(simulate, accNum, accSeq, chain, ts[0]);
      [o] + Results(simulate, accNum, o.accSeq, o.chain, ts[1..])
  }

  /** The turn is of some kind, in the state of the account in which it is taken. */
  ghost predicate Always(kind: (Account, Turn) -> bool, simulate: bool, accNum: u64, accSeq: u64, chain: Account,
                         ts: seq<Turn>)
    decreases |ts|
  {
    ts == [] ||
    (kind(chain, ts[0]) &&
     var o := Perform(simulate, accNum, accSeq, chain, ts[0]);
     Always(kind, simulate, accNum, o.accSeq, o.chain, ts[1..]))
  }

  /** Reads agree with the check, and others leave the sequence alone between the re-read and the retry. They may
      use the account at any other time, also between simulation and delivery. */
  predicate Fair(chain: Account, t: Turn) {
    Agrees(chain.Moved(t.drift), t.chance) && t.chance.after.None?
  }

  /** Local sequence and account at the start of call k of a run. */
  function Start(accSeq: u64, os: seq<Outcome>, k: nat): u64
    requires k <= |os|
  {
    if k == 0 then accSeq else os[k - 1].accSeq
  }

  function StartChain(chain: Account, os: seq<Outcome>, k: nat): Account
    requires k <= |os|
  {
    if k == 0 then chain else os[k - 1].chain
  }

  /** The attempt that gets past simulation, the first or else the retry, is overtaken. */
  predicate Raced(accNum: u64, accSeq: u64, chain: Account, c: Chance) {
    if Stale(accNum, accSeq, chain, c.first)
    then Overtaken(accNum, chain.Moved(c.before).sequence, chain.Moved(c.before), c.second)
    else Overtaken(accNum, accSeq, chain, c.first)
  }

  predicate Heals(accNum: u64, start: u64, chain: Account, t: Turn, o: Outcome) {
    && o.reply != Failed(SequenceMismatch) && !o.reply.Panicked? && o.attempts <= 2
    && (o.reply == Done(WrongSequence) <==> Raced(accNum, start, chain.Moved(t.drift), t.chance))
    && (Calm(t.chance) ==> !o.reply.IsMismatch())
    && (o.reply == Done(Zero) && start != 0 ==> o.accSeq == o.chain.sequence)
  }

  lemma CallHeals(accNum: u64, accSeq: u64, chain: Account, t: Turn)
    requires accNum == chain.num && Fair(chain, t)
    ensures var o := Perform(true, accNum, accSeq, chain, t);
            Heals(accNum, accSeq, chain, t, o) && o.chain.num == chain.num
  {
    MismatchExactly(t.await, accNum, accSeq, chain.Moved(t.drift), t.chance);
    if Perform(true, accNum, accSeq, chain, t).reply == Done(Zero) {
      EqualExactly(true, t.await, accNum, accSeq, chain.Moved(t.drift), t.chance);
    }
  }

  /** Over any run with simulation and reads that agree with the node's check, whatever else fails and however
      others move the sequence, except between a re-read and its retry: no call ends in the mismatch error or a
      panic, none needs more than two attempts, exactly the calls that are overtaken between simulation and delivery
      are lost, and each accepted call that did not start from zero ends with equal sequences. */
  lemma {:induction false} RunsHeal(accNum: u64, accSeq: u64, chain: Account, ts: seq<Turn>, k: nat)
    requires accNum == chain.num && k < |ts|
    requires Always(Fair, true, accNum, accSeq, chain, ts)
    ensures var os := Results(true, accNum, accSeq, chain, ts);
            Heals(accNum, Start(accSeq, os, k), StartChain(chain, os, k), ts[k], os[k])
    decreases k
  {
    CallHeals(accNum, accSeq, chain, ts[0]);
    if k > 0 {
      var o := Perform(true, accNum, accSeq, chain, ts[0]);
      RunsHeal(accNum, o.accSeq, o.chain, ts[1..], k - 1);
    }
  }

  /** The two sequences are at most one apart. */
  predicate Near(accSeq: u64, sequence: u64) {
    -1 <= accSeq - sequence <= 1
  }

  /** Nobody else uses the account. */
  predicate Alone(chain: Account, t: Turn) {
    Fair(chain, t) && Calm(t.chance) && t.drift.None? && t.chance.before.None?
  }

  lemma CallStaysNear(accNum: u64, accSeq: u64, chain: Account, t: Turn)
    requires accNum == chain.num && Alone(chain, t) && Near(accSeq, chain.sequence)
    requires 0 < accSeq < TWO64 - 1 && 0 < chain.sequence < TWO64 - 1
    ensures var o := Perform(true, accNum, accSeq, chain, t);
            && Near(o.accSeq, o.chain.sequence) && o.chain.num == chain.num
            && 0 < o.accSeq && 0 < o.chain.sequence <= chain.sequence + 1
  {
    AttemptDrift(t.await, accNum, accSeq, chain, t.chance.first);
    AttemptDrift(t.await, accNum, chain.sequence, chain, t.chance.second);
  }

  /** A client that uses its account alone never drifts by more than one, however often the node refuses, fails
      or times out: the errors of a run do not add up. */
  lemma {:induction false} DriftStaysSmall(accNum: u64, accSeq: u64, chain: Account, ts: seq<Turn>, k: nat)
    requires accNum == chain.num && Near(accSeq, chain.sequence) && k < |ts|
    requires 0 < accSeq && 0 < chain.sequence < TWO64 - 2 - |ts|
    requires Always(Alone, true, accNum, accSeq, chain, ts)
    ensures var o := Results(true, accNum, accSeq, chain, ts)[k]; Near(o.accSeq, o.chain.sequence)
    decreases k
  {
    CallStaysNear(accNum, accSeq, chain, ts[0]);
    if k > 0 {
      var o := Perform(true, accNum, accSeq, chain, ts[0]);
      DriftStaysSmall(accNum, o.accSeq, o.chain, ts[1..], k - 1);
    }
  }

  /** The transaction is accepted and kept, but the wait for it expires. */
  predicate TimesOut(chain: Account, t: Turn) {
    && Fair(chain, t) && Calm(t.chance) && t.drift.None? && t.await
    && Answers(t.chance.first.(waited := Included(false, true))) && t.chance.first.waited == Expired(true)
  }

  /** Only a local sequence of zero lets them add up: each call looks the sequence up, and none keeps it. */
  lemma {:induction false} ZeroDriftsApart(accNum: u64, chain: Account, ts: seq<Turn>, k: nat)
    requires accNum == chain.num && k < |ts| && chain.sequence + |ts| < TWO64
    requires Always(TimesOut, true, accNum, 0, chain, ts)
    ensures var o := Results(true, accNum, 0, chain, ts)[k];
            o.reply == Failed(TimedOut) && o.accSeq == 0 && o.chain.sequence == chain.sequence + k + 1
    decreases k
  {
    var o := Perform(true, accNum, 0, chain, ts[0]);
    assert o.reply == Failed(TimedOut) && o.accSeq == 0 && o.chain == chain.Advanced();
    if k > 0 {
      ZeroDriftsApart(accNum, o.chain, ts[1..], k - 1);
    }
  }

  // ---- The same without simulation ----

  /** The mismatch is then a code and not an error: it is not retried, the call reports no error, nothing was
      sent, and the local sequence advances all the same. */
  lemma WithoutSimulation(await: bool, accNum: u64, accSeq: u64, chain: Account, c: Chance)
    requires Good(chain, c) && accNum == chain.num
    ensures var o := Call(false, await, accNum, accSeq, chain, c);
            && o.attempts == 1
            && (o.reply.IsMismatch() <==> accSeq != 0 && accSeq != chain.sequence)
            && (o.reply.IsMismatch() ==> o.reply.Done? && o.chain == chain && o.accSeq == Next(accSeq))
            && (!o.reply.IsMismatch() ==> o.reply == Done(Zero) && o.chain == chain.Advanced())
  {}

  /** Exactly: the code of a mismatch comes from a sequence that is not the account's at delivery, and there is never
      a second attempt. */
  lemma UnsimulatedMismatch(await: bool, accNum: u64, accSeq: u64, chain: Account, c: Chance)
    ensures var o := Call(false, await, accNum, accSeq, chain, c);
            && o.attempts == 1 && o.reply != Failed(SequenceMismatch)
            && (o.reply == Done(WrongSequence) <==> Overtaken(accNum, accSeq, chain, c.first.(simulated := Passes)))
  {}

  /** How many of n calls are lost without simulation, starting from a non-zero local sequence. */
  function Lost(accSeq: u64, sequence: u64, n: nat): nat {
    if accSeq > sequence then n else if n < sequence - accSeq then n else sequence - accSeq
  }

  function Accepted(os: seq<Outcome>): nat {
    if os == [] then 0 else (if os[0].reply == Done(Zero) then 1 else 0) + Accepted(os[1..])
  }

  /** A good call on an account that nobody else uses. */
  predicate Smooth(chain: Account, t: Turn) {
    Good(chain, t.chance) && t.drift.None? && t.chance.before.None?
  }

  lemma SmoothCall(accNum: u64, accSeq: u64, chain: Account, t: Turn)
    requires Smooth(chain, t) && accNum == chain.num && 0 < accSeq < TWO64 - 1 && chain.sequence < TWO64 - 1
    ensures var o, good := Perform(false, accNum, accSeq, chain, t), accSeq == chain.sequence;
            && o.accSeq == accSeq + 1 && o.chain == (if good then chain.Advanced() else chain)
            && (o.reply == Done(Zero) <==> good)
  {
    WithoutSimulation(t.await, accNum, accSeq, chain, t.chance);
  }

  /** A client that is behind loses one call for each step it is behind; one that is ahead loses all of them. */
  lemma {:induction false} LostExactly(accNum: u64, accSeq: u64, chain: Account, ts: seq<Turn>)
    requires Always(Smooth, false, accNum, accSeq, chain, ts) && accNum == chain.num
    requires accSeq != 0 && accSeq + |ts| < TWO64 && chain.sequence + |ts| < TWO64
    ensures Accepted(Results(false, accNum, accSeq, chain, ts)) == |ts| - Lost(accSeq, chain.sequence, |ts|)
    decreases |ts|
  {
    if ts != [] {
      var o := Perform(false, accNum, accSeq, chain, ts[0]);
      SmoothCall(accNum, accSeq, chain, ts[0]);
      LostExactly(accNum, o.accSeq, o.chain, ts[1..]);
    }
  }

  /** With simulation no call of such a run is lost, from any drift. */
  lemma {:induction false} NoneLost(accNum: u64, accSeq: u64, chain: Account, ts: seq<Turn>)
    requires Always(Smooth, true, accNum, accSeq, chain, ts)
    requires accNum == chain.num && (accSeq != 0 || chain.sequence == 0)
    ensures Accepted(Results(true, accNum, accSeq, chain, ts)) == |ts|
    decreases |ts|
  {
    if ts != [] {
      var o := Perform(true, accNum, accSeq, chain, ts[0]);
      CallRepairs(ts[0].await, accNum, accSeq, chain, ts[0].chance);
      NoneLost(accNum, o.accSeq, o.chain, ts[1..]);
    }
  }

  /** The drift comes from the program itself: a wait that expires although the transaction is kept makes the
      next call without simulation vanish, although it is reported without an error. */
  lemma TimeoutLosesNextCall(accNum: u64, sequence: u64, c: Chance, d: Chance)
    requires 0 < sequence < MAX_INT && TimesOut(Account(accNum, sequence), Turn(true, None, c))
    requires Good(Account(accNum, sequence + 1), d)
    ensures var o := Call(false, true, accNum, sequence, Account(accNum, sequence), c);
            && o.reply == Failed(TimedOut)
            && Call(false, true, accNum, o.accSeq, o.chain, d).reply == Done(WrongSequence)
            && Call(true, true, accNum, o.accSeq, o.chain, d).reply == Done(Zero)
  {}

  // ---- The batches that the goroutine hands over ----

  /** How the goroutine of BatchLoop sees the end of a broadcast. */
  function Seen(r: Reply): BatchLoop.Ending {
    if r.Done? then BatchLoop.Accepted
    else if r == Failed(SequenceMismatch) then BatchLoop.Mismatch
    else BatchLoop.Failed
  }

  /** A submit of the goroutine reads its slice once for each attempt of the call that it makes, and signals
      Broadcasted exactly if the call ends with a result. */
  lemma SubmitIsOneCall<M>(l: BatchLoop.Loop<M>, simulate: bool, accNum: u64, accSeq: u64, chain: Account, c: Chance)
    requires l.Valid() && l.phase.Submitting? && l.phase.seen == []
    requires !Call(simulate, true, accNum, accSeq, chain, c).reply.Panicked?
    ensures var o := Call(simulate, true, accNum, accSeq, chain, c);
            var first, last := Seen(Broadcast(simulate, true, accNum, accSeq, chain, c.first).0), Seen(o.reply);
            var once := BatchLoop.Attempt(l, first);
            var done := if once.phase.Submitting? then BatchLoop.Attempt(once, last) else once;
            && |done.handed| == |l.handed| + 1 && |done.handed[|l.handed|]| == o.attempts
            && (done.phase.Notifying? <==> o.reply.Done?)
            && BatchLoop.Submit(l, first, last).handed == done.handed
  {
    BatchLoop.AttemptConserves(l, Seen(Broadcast(simulate, true, accNum, accSeq, chain, c.first).0));
  }
}
