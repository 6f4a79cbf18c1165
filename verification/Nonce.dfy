/** The account sequence of client/chain/chain.go: three paths that hold syncMux, sign with a local sequence,
    retry once when the node reports a sequence mismatch, and advance the local sequence. */
module Nonce {
  import opened Words
  import opened Outcomes

  // ---- What the node and the world do during a call ----

  /** The account on the chain. Other clients may move its sequence. */
  datatype Account = Account(num: u64, sequence: u64)
  {
    function Moved(to: Option<u64>): Account {
      if to.Some? then this.(sequence := to.value) else this
    }

    function Advanced(): Account {
      this.(sequence := Next(sequence))
    }
  }

  function Next(sequence: u64): u64 {
    (sequence + 1) % TWO64
  }

  datatype Code = Zero | WrongSequence | OtherCode

  datatype Err = SequenceMismatch | TimedOut | OtherErr

  datatype Reply = Done(code: Code) | Failed(err: Err) | Panicked
  {
    /** The call ended because of the sequence: as an error, or as the code of the node's check. */
    predicate IsMismatch() {
      this == Failed(SequenceMismatch) || this == Done(WrongSequence)
    }
  }

  /** How a transaction that the node accepted ends: it is seen in a block, where it may fail, or the wait
      expires. Its sequence is kept, unless it was dropped. */
  datatype Waited = Included(fails: bool, kept: bool) | Expired(kept: bool)

  /** The answer to BroadcastTx: the node's check refuses for a reason of its own, before or after it has compared
      the sequence; it accepts; or the request fails, before or after the node has seen it. */
  datatype Sent = Refuses(early: bool) | Accepts | Breaks(landed: bool)

  /** How simulation ends: it fails before or after the sequence is compared, or passes if that is right. */
  datatype Simulated = FailsBefore | FailsAfter | Passes

  /** One call of broadcastTx: whether the account exists, what a query of it returns (the committed state, which
      may lag behind the state that the node checks with), and so on. `moved` is an outside move after simulation. */
  datatype Attempt = Attempt(found: bool, read: Option<Account>, simulated: Simulated, moved: Option<u64>,
                             built: bool, sent: Sent, waited: Waited)

  /** One call of a broadcast method. `read` is what the re-read returns, `before` and `after` are outside moves
      around it. */
  datatype Chance = Chance(first: Attempt, before: Option<u64>, read: Option<Account>, after: Option<u64>,
                           second: Attempt)

  // ---- broadcastTx and the retry, as functions ----

  /** prepareFactory: the number and sequence to sign with, or None on an error. */
  function Prepared(num: u64, sequence: u64, a: Attempt): Option<Account> {
    if !a.found then None
    else if num != 0 && sequence != 0 then Some(Account(num, sequence))
    else if a.read.None? then None
    else Some(Account(if num == 0 then a.read.value.num else num,
                      if sequence == 0 then a.read.value.sequence else sequence))
  }

  /** The signed transaction reaches the node, which checks it against `chain`. */
  function Delivered(await: bool, signed: Account, chain: Account, a: Attempt): (Reply, Account) {
    if a.sent.Breaks? then
      (Failed(OtherErr), if a.sent.landed && signed == chain then chain.Advanced() else chain)
    else if a.sent.Refuses? && a.sent.early then (Done(OtherCode), chain)
    else if signed.sequence != chain.sequence then (Done(WrongSequence), chain)
    else if a.sent.Refuses? || signed.num != chain.num then (Done(OtherCode), chain)
    else if !await then (Done(Zero), chain.Advanced())
    else
      match a.waited
      case Expired(kept) => (Failed(TimedOut), if kept then chain.Advanced() else chain)
      case Included(fails, kept) =>
        (Done(if fails then OtherCode else Zero), if fails && !kept then chain else chain.Advanced())
  }

  function Broadcast(simulate: bool, await: bool, num: u64, sequence: u64, chain: Account, a: Attempt)
    : (Reply, Account)
  {
    match Prepared(num, sequence, a)
    case None => (Failed(OtherErr), chain)
    case Some(signed) =>
      if simulate && a.simulated.FailsBefore? then (Failed(OtherErr), chain)
      else if simulate && signed.sequence != chain.sequence then (Failed(SequenceMismatch), chain)
      else if (simulate && a.simulated.FailsAfter?) || !a.built then (Failed(OtherErr), chain.Moved(a.moved))
      else Delivered(await, signed, chain.Moved(a.moved), a)
  }

  /** What a broadcast method leaves behind. `signed` is the sequence it last put into the factory. */
  datatype Outcome = Outcome(accSeq: u64, chain: Account, reply: Reply, signed: u64, attempts: nat)

  function Finished(accSeq: u64, r: (Reply, Account), attempts: nat): Outcome {
    Outcome(if r.0.Done? then Next(accSeq) else accSeq, r.1, r.0, accSeq, attempts)
  }

  /** syncNonce: a failed read changes nothing, another account number panics (None). */
  function Synced(accNum: u64, accSeq: u64, read: Option<Account>): Option<u64> {
    if read.None? then Some(accSeq) else if read.value.num != accNum then None else Some(read.value.sequence)
  }

  function Call(simulate: bool, await: bool, accNum: u64, accSeq: u64, chain: Account, c: Chance): Outcome {
    var once := Broadcast(simulate, await, accNum, accSeq, chain, c.first);
    if once.0 != Failed(SequenceMismatch) then Finished(accSeq, once, 1)
    else
      var now := once.1.Moved(c.before);
      match Synced(accNum, accSeq, c.read)
      case None => Outcome(accSeq, now, Panicked, accSeq, 1)
      case Some(sequence) =>
        Finished(sequence, Broadcast(simulate, await, accNum, sequence, now.Moved(c.after), c.second), 2)
  }

  // ---- The client in place ----

  class Node {
    var num: u64
    var sequence: u64

    function At(): Account
      reads this
    {
      Account(num, sequence)
    }

    method Move(to: Option<u64>)
      modifies this
      ensures At() == old(At()).Moved(to)
    {
      if to.Some? {
        sequence := to.value;
      }
    }

    method BroadcastTx(await: bool, signed: Account, a: Attempt) returns (r: Reply)
      modifies this
      ensures (r, At()) == Delivered(await, signed, old(At()), a)
    {
      var inOrder := signed.sequence == sequence;
      var good := inOrder && signed.num == num;
      match a.sent {
        case Breaks(landed) =>
          r := Failed(OtherErr);
          if good && landed {
            sequence := Next(sequence);
          }
        case Refuses(early) =>
          r := Done(if early || inOrder then OtherCode else WrongSequence);
        case Accepts =>
          if !good {
            r := Done(if inOrder then OtherCode else WrongSequence);
          } else if !await {
            r := Done(Zero);
            sequence := Next(sequence);
          } else {
            r := Await(a.waited);
          }
      }
    }

    /** The wait for the block. */
    method Await(w: Waited) returns (r: Reply)
      modifies this
      ensures r == (match w
                    case Expired(_) => Failed(TimedOut)
                    case Included(fails, _) => Done(if fails then OtherCode else Zero))
      ensures At() == if w == Expired(false) || w == Included(true, false) then old(At()) else old(At()).Advanced()
    {
      match w {
        case Expired(kept) =>
          r := Failed(TimedOut);
          if kept {
            sequence := Next(sequence);
          }
        case Included(fails, kept) =>
          r := Done(if fails then OtherCode else Zero);
          if !fails || kept {
            sequence := Next(sequence);
          }
      }
    }
  }

  class ChainClient {
    const simulate: bool
    const node: Node
    var accNum: u64
    var accSeq: u64
    var txNum: u64
    var txSeq: u64

    /** A client that can sign starts from what it reads of its account. */
    constructor (simulate: bool, node: Node)
      ensures this.simulate == simulate && this.node == node
      ensures Account(accNum, accSeq) == node.At()
    {
      this.simulate, this.node := simulate, node;
      accNum, accSeq, txNum, txSeq := node.num, node.sequence, 0, 0;
    }

    /** Takes over the sequence that was read, unless the read failed. */
    method SyncNonce(read: Option<Account>) returns (panics: bool)
      modifies this`accSeq
      ensures match Synced(accNum, old(accSeq), read)
              case None => panics && accSeq == old(accSeq)
              case Some(sequence) => !panics && accSeq == sequence
    {
      panics := false;
      if read.None? {
        return;
      } else if read.value.num != accNum {
        panics := true;
        return;
      }
      accSeq := read.value.sequence;
    }

    method PrepareFactory(a: Attempt) returns (r: Option<Account>)
      ensures r == Prepared(txNum, txSeq, a)
    {
      if !a.found {
        return None;
      }
      var num, sequence := txNum, txSeq;
      if txNum == 0 || txSeq == 0 {
        if a.read.None? {
          return None;
        }
        if txNum == 0 {
          num := a.read.value.num;
        }
        if txSeq == 0 {
          sequence := a.read.value.sequence;
        }
      }
      return Some(Account(num, sequence));
    }

    method BroadcastTx(await: bool, a: Attempt) returns (r: Reply)
      modifies node
      ensures (r, node.At()) == Broadcast(simulate, await, txNum, txSeq, old(node.At()), a)
    {
      var txf := PrepareFactory(a);
      if txf.None? {
        return Failed(OtherErr);
      }
      if simulate {
        if a.simulated.FailsBefore? {
          return Failed(OtherErr);
        }
        if txf.value.sequence != node.sequence {
          return Failed(SequenceMismatch);
        }
        if a.simulated.FailsAfter? {
          node.Move(a.moved);
          return Failed(OtherErr);
        }
      }
      node.Move(a.moved);
      if !a.built {
        return Failed(OtherErr);
      }
      r := node.BroadcastTx(await, txf.value, a);
    }

    method SyncBroadcastMsg(c: Chance) returns (r: Reply)
      modifies this, node
      ensures var o := Call(simulate, true, old(accNum), old(accSeq), old(node.At()), c);
              r == o.reply && accSeq == o.accSeq && node.At() == o.chain && txSeq == o.signed
      ensures accNum == old(accNum) == txNum
    {
      txSeq, txNum := accSeq, accNum;
      r := BroadcastTx(true, c.first);
      if r == Failed(SequenceMismatch) {
        node.Move(c.before);
        var panics := SyncNonce(c.read);
        if panics {
          return Panicked;
        }
        txSeq, txNum := accSeq, accNum;
        node.Move(c.after);
        r := BroadcastTx(true, c.second);
      }
      if r.Failed? {
        return;
      }
      accSeq := Next(accSeq);
    }

    method AsyncBroadcastMsg(c: Chance) returns (r: Reply)
      modifies this, node
      ensures var o := Call(simulate, false, old(accNum), old(accSeq), old(node.At()), c);
              r == o.reply && accSeq == o.accSeq && node.At() == o.chain && txSeq == o.signed
      ensures accNum == old(accNum) == txNum
    {
      txSeq, txNum := accSeq, accNum;
      r := BroadcastTx(false, c.first);
      if r == Failed(SequenceMismatch) {
        node.Move(c.before);
        var panics := SyncNonce(c.read);
        if panics {
          return Panicked;
        }
        txSeq, txNum := accSeq, accNum;
        node.Move(c.after);
        r := BroadcastTx(false, c.second);
      }
      if r.Failed? {
        return;
      }
      accSeq := Next(accSeq);
    }

    /** The closure of runBatchBroadcast; `notified` is the send on Broadcasted. */
    method SubmitBatch(c: Chance) returns (ghost r: Reply, notified: bool)
      modifies this, node
      ensures var o := Call(simulate, true, old(accNum), old(accSeq), old(node.At()), c);
              r == o.reply && accSeq == o.accSeq && node.At() == o.chain && txSeq == o.signed
      ensures accNum == old(accNum) == txNum
      ensures notified <==> r.Done?
    {
      notified := false;
      txSeq, txNum := accSeq, accNum;
      var res := BroadcastTx(true, c.first);
      if res == Failed(SequenceMismatch) {
        node.Move(c.before);
        var panics := SyncNonce(c.read);
        if panics {
          return Panicked, false;
        }
        txSeq, txNum := accSeq, accNum;
        node.Move(c.after);
        res := BroadcastTx(true, c.second);
      }
      r := res;
      if res.Failed? {
        return;
      }
      accSeq := Next(accSeq);
      notified := true;
    }
  }
}
