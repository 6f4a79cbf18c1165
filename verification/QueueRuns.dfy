/** What the queue of client/chain/chain.go guarantees over whole runs, whatever the interleaving. */
module QueueRuns {
  import opened Outcomes
  import opened BatchLoop
  import opened Queue

  /** Safety: what went out, what is in the hands of the goroutine and what is queued are all that was ever
      sent, in the order of the sends; every batch has 1 to LIMIT messages, also when it was read again for a
      retry; and between turns the pending batch is not full. */
  lemma MessagesAreConserved<M>(canSign: bool, zero: M, steps: seq<Step<M>>)
    requires Run(Init(canSign, zero), steps).Some?
    ensures var s := Run(Init(canSign, zero), steps).value;
            && s.loop.Valid()
            && Payloads(s.sent) == Flatten(s.loop.handed) + s.loop.InHand() + s.msgC
            && (forall seen :: seen in s.loop.handed ==>
                  1 <= |seen| <= 2 && 1 <= |seen[0]| <= 1024 && forall r :: r in seen ==> r == seen[0])
            && (s.loop.phase.Selecting? ==> |s.loop.InHand()| < 1024)
            && |s.msgC| <= 1024
  {
    InitInv(canSign, zero);
    RunKeeps(Init(canSign, zero), steps);
    forall seen | seen in Run(Init(canSign, zero), steps).value.loop.handed
      ensures OneBatch(seen)
    {}
  }

  /** Each call of QueueBroadcastMsg contributes a prefix of its arguments, in order: all of them exactly when
      it returns nil, none when it is refused. */
  lemma CallsContributePrefixes<M>(canSign: bool, zero: M, steps: seq<Step<M>>, c: nat)
    requires Run(Init(canSign, zero), steps).Some?
    requires c < |Run(Init(canSign, zero), steps).value.calls|
    ensures var s := Run(Init(canSign, zero), steps).value;
            var call := s.calls[c];
            && By(s.sent, c) <= call.args
            && |By(s.sent, c)| == call.Count()
            && (call.Returned? ==>
                  && (call.err == None <==>
                        By(s.sent, c) == call.args && call.err !in {Some(ReadOnly), Some(QueueClosed)})
                  && (call.err in {Some(ReadOnly), Some(QueueClosed)} ==> By(s.sent, c) == []))
  {
    InitInv(canSign, zero);
    RunKeeps(Init(canSign, zero), steps);
    var s := Run(Init(canSign, zero), steps).value;
    assert CallIs(s.calls[c], By(s.sent, c));
  }

  /** Once doneC is closed, every message ever sent has been handed to a submit; a Close returns only then. */
  lemma CloseDrains<M>(zero: M, steps: seq<Step<M>>)
    requires Run(Init(true, zero), steps).Some?
    ensures var s := Run(Init(true, zero), steps).value;
            && ((exists j :: 0 <= j < |s.closers| && s.closers[j].Gone?) ==> s.loop.phase.Exited?)
            && (s.loop.phase.Exited? ==> s.shut && Payloads(s.sent) == Flatten(s.loop.handed))
  {
    InitInv(true, zero);
    RunKeeps(Init(true, zero), steps);
    var s := Run(Init(true, zero), steps).value;
    ReachableSigning(Init(true, zero), steps);
    if s.loop.phase.Exited? {
      assert s.loop.Taken() == Flatten(s.loop.handed);
    }
  }

  lemma {:induction false} ReachableSigning<M>(s: State<M>, steps: seq<Step<M>>)
    requires Run(s, steps).Some?
    ensures Run(s, steps).value.canSign == s.canSign
    decreases |steps|
  {
    if steps != [] {
      ReachableSigning(Do(s, steps[0]).value, steps[1..]);
    }
  }

  /** msgC is never closed twice, whatever number of Close calls race. */
  lemma NoDoubleClose<M>(canSign: bool, zero: M, steps: seq<Step<M>>)
    requires Run(Init(canSign, zero), steps).Some?
    ensures Run(Init(canSign, zero), steps).value.panic != Some(CloseOfClosed)
  {
    InitInv(canSign, zero);
    RunKeeps(Init(canSign, zero), steps);
  }

  // ---- When a run can panic ----

  ghost predicate SomeoneSends<M>(s: State<M>) {
    exists c :: 0 <= c < |s.calls| && s.calls[c].AboutToSend()
  }

  ghost predicate CanPanic<M(!new)>(s: State<M>) {
    exists steps :: Run(s, steps).Some? && Run(s, steps).value.panic.Some?
  }

  lemma QuietStep<M>(s: State<M>, a: Step<M>)
    requires Inv(s) && s.closed && s.panic.None? && !SomeoneSends(s) && Do(s, a).Some?
    ensures var t := Do(s, a).value; t.closed && t.panic.None? && !SomeoneSends(t)
  {
    StepKeeps(s, a);
    forall c | 0 <= c < |Do(s, a).value.calls|
      ensures !Do(s, a).value.calls[c].AboutToSend()
    {}
  }

  lemma {:induction false} QuietRun<M>(s: State<M>, steps: seq<Step<M>>)
    requires Inv(s) && s.closed && s.panic.None? && !SomeoneSends(s) && Run(s, steps).Some?
    ensures Run(s, steps).value.panic.None?
    decreases |steps|
  {
    if steps != [] {
      QuietStep(s, steps[0]);
      StepKeeps(s, steps[0]);
      QuietRun(Do(s, steps[0]).value, steps[1..]);
    }
  }

  lemma RunOne<M>(s: State<M>, a: Step<M>)
    ensures Run(s, [a]) == Do(s, a)
  {
    assert [a][1..] == [];
  }

  lemma RunTwo<M>(s: State<M>, a: Step<M>, b: Step<M>)
    ensures Run(s, [a, b]) == match Do(s, a) case None => None case Some(t) => Do(t, b)
  {
    assert [a, b][1..] == [b];
    if Do(s, a).Some? {
      RunOne(Do(s, a).value, b);
    }
  }

  lemma SenderCanPanic<M(!new)>(s: State<M>, c: nat)
    requires Inv(s) && s.closed && s.panic.None? && c < |s.calls| && s.calls[c].AboutToSend()
    ensures CanPanic(s)
  {
    if s.shut {
      RunOne(s, Send(c));
      assert Run(s, [Send(c)]).Some?;
    } else {
      assert SomeoneCloses(s.closers);
      var j :| 0 <= j < |s.closers| && s.closers[j].Closing?;
      RunTwo(s, CloseQueue(j), Send(c));
      assert Run(s, [CloseQueue(j), Send(c)]).Some?;
    }
  }

  lemma CanPanicLater<M(!new)>(s: State<M>, a: Step<M>)
    requires Do(s, a).Some? && CanPanic(Do(s, a).value)
    ensures CanPanic(s)
  {
    var t := Do(s, a).value;
    var rest :| Run(t, rest).Some? && Run(t, rest).value.panic.Some?;
    RunFirst(s, a, rest);
    assert Run(s, [a] + rest).value.panic.Some?;
  }

  /** Before any Close, a new producer and a new Close can always race: the check comes before the send. */
  lemma OpenCanPanic<M(!new)>(s: State<M>, x: M)
    requires Inv(s) && s.panic.None? && s.canSign && !s.closed
    ensures CanPanic(s)
  {
    var c, j := |s.calls|, |s.closers|;
    var s1 := Do(s, NewCall([x])).value;
    var s2 := Do(s1, Check(c)).value;
    var s3 := Do(s2, NewCloser).value;
    var s4 := Do(s3, Swap(j)).value;
    StepKeeps(s, NewCall([x]));
    StepKeeps(s1, Check(c));
    StepKeeps(s2, NewCloser);
    StepKeeps(s3, Swap(j));
    SenderCanPanic(s4, c);
    CanPanicLater(s3, Swap(j));
    CanPanicLater(s2, NewCloser);
    CanPanicLater(s1, Check(c));
    CanPanicLater(s, NewCall([x]));
  }

  /** From any state, a client that can sign can still panic exactly if no Close has set the flag yet, or some
      producer is past its closed check and has a message left: closing while no QueueBroadcastMsg is under way is
      safe, closing during one never is. */
  lemma PanicExactly<M(!new)>(s: State<M>, x: M)
    requires Inv(s) && s.panic.None?
    ensures CanPanic(s) <==> s.canSign && (!s.closed || SomeoneSends(s))
  {
    if s.canSign && !s.closed {
      OpenCanPanic(s, x);
    } else if s.canSign && SomeoneSends(s) {
      var c :| 0 <= c < |s.calls| && s.calls[c].AboutToSend();
      SenderCanPanic(s, c);
    } else {
      forall steps | Run(s, steps).Some?
        ensures Run(s, steps).value.panic.None?
      {
        if s.canSign {
          QuietRun(s, steps);
        } else {
          RunKeeps(s, steps);
          ReachableSigning(s, steps);
        }
      }
    }
  }

  /** In particular from the start. */
  lemma RacingClosePanics<M(!new)>(zero: M, x: M)
    ensures CanPanic(Init(true, zero))
  {
    InitInv(true, zero);
    OpenCanPanic(Init(true, zero), x);
  }

  lemma RunFirst<M>(s: State<M>, a: Step<M>, rest: seq<Step<M>>)
    requires Do(s, a).Some?
    ensures Run(s, [a] + rest) == Run(Do(s, a).value, rest)
  {
    assert ([a] + rest)[1..] == rest;
  }

  // ---- After the queue is closed ----

  function Receives<M>(steps: seq<Step<M>>): nat {
    if steps == [] then 0
    else (if steps[0].ReceiveMsg? || steps[0].SeesClosed? then 1 else 0) + Receives(steps[1..])
  }

  predicate HasSeenClosed<M>(l: Loop<M>) {
    match l.phase
    case Selecting => false
    case Submitting(_, _, last) => last
    case Notifying(last) => last
    case Exited => true
  }

  function Budget<M>(s: State<M>): nat {
    |s.msgC| + if HasSeenClosed(s.loop) then 0 else 1
  }

  lemma StepInBudget<M>(s: State<M>, a: Step<M>)
    requires Inv(s) && s.shut && Do(s, a).Some?
    ensures var t := Do(s, a).value;
            t.shut && Budget(t) + (if a.ReceiveMsg? || a.SeesClosed? then 1 else 0) <= Budget(s)
  {}

  /** After the close, the goroutine receives at most once for each queued message and once more. */
  lemma {:induction false} ReceivesAfterClose<M>(s: State<M>, steps: seq<Step<M>>)
    requires Inv(s) && s.shut && Run(s, steps).Some?
    ensures Receives(steps) + Budget(Run(s, steps).value) <= Budget(s) <= |s.msgC| + 1
    decreases |steps|
  {
    if steps != [] {
      StepInBudget(s, steps[0]);
      StepKeeps(s, steps[0]);
      ReceivesAfterClose(Do(s, steps[0]).value, steps[1..]);
    }
  }

  /** What is left to do: each turn of the goroutine that changes anything makes this smaller. */
  function Rank<M>(s: State<M>): nat {
    8 * |s.msgC| + match s.loop.phase
                   case Selecting => if s.loop.len > 0 then 5 else 1
                   case Submitting(_, seen, _) => if seen == [] then 4 else 3
                   case Notifying(_) => 2
                   case Exited => 0
  }

  ghost function Turns<M>(s: State<M>, steps: seq<Step<M>>): nat
    decreases |steps|
  {
    if steps == [] || Do(s, steps[0]).None? then 0
    else
      var t := Do(s, steps[0]).value;
      (if t.loop != s.loop then 1 else 0) + Turns(t, steps[1..])
  }

  lemma TurnLowersRank<M>(s: State<M>, a: Step<M>)
    requires Inv(s) && s.shut && Do(s, a).Some?
    ensures var t := Do(s, a).value;
            t.shut && Rank(t) + (if t.loop != s.loop then 1 else 0) <= Rank(s)
  {}

  /** Whatever the schedule, the turns of the goroutine after the close are bounded. */
  lemma {:induction false} TurnsAfterClose<M>(s: State<M>, steps: seq<Step<M>>)
    requires Inv(s) && s.shut && Run(s, steps).Some?
    ensures Turns(s, steps) + Rank(Run(s, steps).value) <= Rank(s) <= 8 * |s.msgC| + 5
    decreases |steps|
  {
    if steps != [] {
      TurnLowersRank(s, steps[0]);
      StepKeeps(s, steps[0]);
      TurnsAfterClose(Do(s, steps[0]).value, steps[1..]);
    }
  }

  /** The goroutine always has a turn to take until it has exited, as long as Broadcasted has room. */
  lemma NotStuck<M>(s: State<M>) returns (a: Step<M>)
    requires Inv(s) && s.shut && s.panic.None? && !s.loop.phase.Exited? && s.tokens < TOKENS
    ensures Do(s, a).Some? && Do(s, a).value.loop != s.loop && Do(s, a).value.panic.None?
  {
    match s.loop.phase {
      case Selecting => a := if s.msgC != [] then ReceiveMsg else SeesClosed;
      case Submitting(_, _, _) => a := Broadcast(Accepted);
      case Notifying(_) => a := Notify;
      case Exited => assert false;
    }
  }

  lemma NextTurn<M>(s: State<M>) returns (a: Step<M>)
    requires Inv(s) && s.shut && s.panic.None? && !s.loop.phase.Exited?
    ensures Do(s, a).Some?
    ensures var t := Do(s, a).value;
            && Inv(t) && t.shut && t.panic.None? && t.sent == s.sent
            && t.calls == s.calls && t.closers == s.closers
            && (Rank(t) < Rank(s) || (Rank(t) == Rank(s) && t.tokens < s.tokens))
  {
    if s.tokens < TOKENS {
      a := NotStuck(s);
    } else {
      a := Drain;
    }
    TurnLowersRank(s, a);
    StepKeeps(s, a);
  }

  /** So from every closed state the run can be driven to the end, where everything sent has gone out. */
  lemma ClosedQueueDrains<M>(s: State<M>) returns (steps: seq<Step<M>>)
    requires Inv(s) && s.shut && s.panic.None?
    ensures Run(s, steps).Some?
    ensures var t := Run(s, steps).value;
            t.loop.phase.Exited? && t.sent == s.sent && Flatten(t.loop.handed) == Payloads(s.sent)
    decreases Rank(s), s.tokens
  {
    if s.loop.phase.Exited? {
      steps := [];
      assert s.loop.Taken() == Flatten(s.loop.handed);
    } else {
      var a := NextTurn(s);
      var rest := ClosedQueueDrains(Do(s, a).value);
      RunFirst(s, a, rest);
      steps := [a] + rest;
    }
  }
}
