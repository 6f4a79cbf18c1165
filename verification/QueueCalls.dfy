/** What a call of QueueBroadcastMsg or Close of client/chain/chain.go does and returns, and that it can return. */
module QueueCalls {
  import opened Sequences
  import opened Outcomes
  import opened BatchLoop
  import opened Queue
  import opened QueueRuns

  // ---- When each step can happen ----

  /** A send blocks exactly while the queue is open and full; the other steps of a call wait only for its own turn. */
  lemma CallStepsExactly<M>(s: State<M>, c: nat, args: seq<M>)
    requires s.panic.None?
    ensures Do(s, NewCall(args)).Some?
    ensures Do(s, Check(c)).Some? <==> c < |s.calls| && s.calls[c].Entered?
    ensures Do(s, Send(c)).Some? <==>
            c < |s.calls| && s.calls[c].Sending? && s.calls[c].k < |s.calls[c].args| && (s.shut || |s.msgC| < 1024)
    ensures Do(s, TimeOut(c)).Some? <==>
            c < |s.calls| && s.calls[c].Sending? && s.calls[c].k < |s.calls[c].args|
    ensures Do(s, Finish(c)).Some? <==>
            c < |s.calls| && s.calls[c].Sending? && s.calls[c].k >= |s.calls[c].args|
  {}

  /** Close blocks only to wait for the loop. */
  lemma CloserStepsExactly<M>(s: State<M>, j: nat)
    requires s.panic.None?
    ensures Do(s, NewCloser).Some?
    ensures Do(s, Swap(j)).Some? <==> j < |s.closers| && s.closers[j].Started?
    ensures Do(s, CloseQueue(j)).Some? <==> j < |s.closers| && s.closers[j].Closing?
    ensures Do(s, Awake(j)).Some? <==> j < |s.closers| && s.closers[j].Waiting? && s.loop.phase.Exited?
  {}

  /** The goroutine blocks only on an empty queue that is open, though the timer can wake it there, and on a full
      channel of tokens. */
  lemma LoopStepsExactly<M>(s: State<M>, o: Ending)
    requires s.loop.Valid() && s.panic.None?
    ensures Do(s, ReceiveMsg).Some? <==> s.canSign && s.loop.phase.Selecting? && s.msgC != []
    ensures Do(s, SeesClosed).Some? <==> s.canSign && s.loop.phase.Selecting? && s.msgC == [] && s.shut
    ensures Do(s, TimerFires).Some? <==> s.canSign && s.loop.phase.Selecting?
    ensures Do(s, Step.Broadcast(o)).Some? <==> s.canSign && s.loop.phase.Submitting?
    ensures Do(s, Notify).Some? <==> s.canSign && s.loop.phase.Notifying? && s.tokens < 100_000_000
    ensures Do(s, Drain).Some? <==> s.tokens > 0
  {}

  /** The first message of the queue joins the batch in hand, which goes out when it has 1024 messages. */
  lemma ReceiveTakesFirst<M>(s: State<M>)
    requires s.loop.Valid() && s.panic.None? && s.canSign && s.loop.phase.Selecting? && s.msgC != []
    ensures Do(s, ReceiveMsg).Some?
    ensures var t := Do(s, ReceiveMsg).value;
            && t == s.(msgC := s.msgC[1..], loop := t.loop) && t.loop.Valid()
            && t.loop.InHand() == s.loop.InHand() + [s.msgC[0]]
            && (t.loop.phase.Submitting? <==> |s.loop.InHand()| == 1023)
  {
    ReceiveConserves(s.loop, s.msgC[0]);
  }

  /** A broadcast is repeated exactly after a first mismatch, and is signalled exactly after a success. */
  lemma BroadcastExactly<M>(s: State<M>, o: Ending)
    requires s.loop.Valid() && s.panic.None? && s.canSign && s.loop.phase.Submitting?
    ensures Do(s, Step.Broadcast(o)).Some?
    ensures var t := Do(s, Step.Broadcast(o)).value;
            && t == s.(loop := t.loop)
            && (t.loop.phase.Submitting? <==> o == Mismatch && s.loop.phase.seen == [])
            && (t.loop.phase.Notifying? <==> o == Accepted)
  {
    AttemptConserves(s.loop, o);
  }

  /** The signal is one token, and the loop goes on, or ends if the queue was seen closed. */
  lemma NotifyExactly<M>(s: State<M>)
    requires s.loop.Valid() && s.panic.None? && s.canSign && s.loop.phase.Notifying? && s.tokens < 100_000_000
    ensures Do(s, Notify).Some?
    ensures var t := Do(s, Notify).value;
            && t == s.(loop := t.loop, tokens := s.tokens + 1) && t.loop.handed == s.loop.handed
            && t.loop.phase == if s.loop.phase.last then Exited else Selecting
  {
    NotifiedConserves(s.loop);
  }

  /** A call or Close that is new, and a token that somebody takes, change nothing else. */
  lemma ArrivalsAreQuiet<M>(s: State<M>, args: seq<M>)
    requires s.panic.None?
    ensures Do(s, NewCall(args)) == Some(s.(calls := s.calls + [Entered(args)]))
    ensures Do(s, NewCloser) == Some(s.(closers := s.closers + [Started]))
    ensures s.tokens > 0 ==> Do(s, Drain) == Some(s.(tokens := s.tokens - 1))
  {}

  /** The closed check lets a call pass exactly if the client can sign and the flag is not set; otherwise the call
      returns, as read-only if the client cannot sign, and as closed if it can. */
  lemma CheckExactly<M>(s: State<M>, c: nat)
    requires s.panic.None? && c < |s.calls| && s.calls[c].Entered?
    ensures Do(s, Check(c)).Some?
    ensures var t := Do(s, Check(c)).value;
            var args := s.calls[c].args;
            && t == s.(calls := t.calls)
            && |t.calls| == |s.calls| && (forall d :: 0 <= d < |s.calls| && d != c ==> t.calls[d] == s.calls[d])
            && (t.calls[c] == Returned(args, 0, Some(ReadOnly)) <==> !s.canSign)
            && (t.calls[c] == Returned(args, 0, Some(QueueClosed)) <==> s.canSign && s.closed)
            && (t.calls[c] == Sending(args, 0) <==> s.canSign && !s.closed)
  {}

  /** While the queue is open and has room, the next argument enters it. */
  lemma SendEnters<M>(s: State<M>, c: nat)
    requires s.panic.None? && !s.shut && |s.msgC| < 1024
    requires c < |s.calls| && s.calls[c].Sending? && s.calls[c].k < |s.calls[c].args|
    ensures Do(s, Send(c)).Some?
    ensures var t := Do(s, Send(c)).value;
            var (args, k) := (s.calls[c].args, s.calls[c].k);
            && t.msgC == s.msgC + [args[k]] && t.sent == s.sent + [(c, args[k])]
            && t.calls == s.calls[c := Sending(args, k + 1)]
            && t == s.(msgC := t.msgC, sent := t.sent, calls := t.calls)
  {}

  /** A call that times out, or has nothing left to send, returns; a send on a closed queue panics. Nothing else
      changes. */
  lemma ReturnsExactly<M>(s: State<M>, c: nat)
    requires s.panic.None? && c < |s.calls| && s.calls[c].Sending? && s.calls[c].k <= |s.calls[c].args|
    ensures var (args, k) := (s.calls[c].args, s.calls[c].k);
            && (k == |args| ==> Do(s, Finish(c)) == Some(s.(calls := s.calls[c := Returned(args, k, None)])))
            && (k < |args| ==>
                  Do(s, TimeOut(c)) == Some(s.(calls := s.calls[c := Returned(args, k, Some(EnqueueTimeout))])))
            && (k < |args| && s.shut ==> Do(s, Send(c)) == Some(s.(panic := Some(SendOnClosed))))
  {}

  /** Close: a client that cannot sign returns at once, the first Close of another wins the flag and closes the queue,
      and every other one waits like it for the loop to exit. */
  lemma CloseExactly<M>(s: State<M>, j: nat)
    requires Inv(s) && s.panic.None? && j < |s.closers|
    ensures s.closers[j].Started? ==>
              Do(s, Swap(j)) ==
              Some(if !s.canSign then s.(closers := s.closers[j := Gone])
                   else if s.closed then s.(closers := s.closers[j := Waiting])
                   else s.(closed := true, closers := s.closers[j := Closing]))
    ensures s.closers[j].Closing? ==>
              !s.shut && Do(s, CloseQueue(j)) == Some(s.(shut := true, closers := s.closers[j := Waiting]))
    ensures s.closers[j].Waiting? && s.loop.phase.Exited? ==>
              Do(s, Awake(j)) == Some(s.(closers := s.closers[j := Gone]))
  {
    if s.closers[j].Closing? {
      assert SomeoneCloses(s.closers);
    }
  }

  // ---- What a call returns ----

  /** The run checks call c at some point, and the flag is set there. */
  ghost predicate CheckedClosed<M(!new)>(s: State<M>, steps: seq<Step<M>>, c: nat) {
    exists i :: CheckedAt(s, steps, c, i)
  }

  ghost predicate CheckedAt<M(!new)>(s: State<M>, steps: seq<Step<M>>, c: nat, i: nat) {
    i < |steps| && steps[i] == Check(c) && Run(s, steps[..i]).Some? && Run(s, steps[..i]).value.closed
  }

  lemma CheckedFirst<M(!new)>(s: State<M>, a: Step<M>, rest: seq<Step<M>>, c: nat)
    requires Do(s, a).Some?
    ensures CheckedClosed(s, [a] + rest, c) <==> (a == Check(c) && s.closed) || CheckedClosed(Do(s, a).value, rest, c)
  {
    var steps, t := [a] + rest, Do(s, a).value;
    assert steps[..0] == [] && Run(s, []) == Some(s);
    forall i: nat | i < |rest|
      ensures CheckedAt(t, rest, c, i) <==> CheckedAt(s, steps, c, i + 1)
    {
      assert steps[..i + 1] == [a] + rest[..i];
      RunFirst(s, a, rest[..i]);
    }
    if i: nat :| CheckedAt(s, steps, c, i) {
      assert i > 0 ==> CheckedAt(t, rest, c, i - 1);
    }
    if a == Check(c) && s.closed {
      assert CheckedAt(s, steps, c, 0);
    }
    if i: nat :| CheckedAt(t, rest, c, i) {
      assert CheckedAt(s, steps, c, i + 1);
    }
  }

  ghost predicate IsClosedOut<M>(s: State<M>, c: nat) {
    c < |s.calls| && s.calls[c].Returned? && s.calls[c].err == Some(QueueClosed)
  }

  lemma SettledStep<M>(s: State<M>, a: Step<M>, c: nat)
    requires Do(s, a).Some? && c < |s.calls| && !s.calls[c].Entered?
    ensures var t := Do(s, a).value;
            c < |t.calls| && !t.calls[c].Entered? && a != Check(c) && (IsClosedOut(t, c) <==> IsClosedOut(s, c))
  {}

  /** Past its check, a call is not refused any more. */
  lemma {:induction false} Settled<M(!new)>(s: State<M>, steps: seq<Step<M>>, c: nat)
    requires Run(s, steps).Some? && c < |s.calls| && !s.calls[c].Entered?
    ensures !CheckedClosed(s, steps, c) && (IsClosedOut(Run(s, steps).value, c) <==> IsClosedOut(s, c))
    decreases |steps|
  {
    if steps != [] {
      SettledStep(s, steps[0], c);
      Settled(Do(s, steps[0]).value, steps[1..], c);
      CheckedFirst(s, steps[0], steps[1..], c);
      assert steps == [steps[0]] + steps[1..];
    }
  }

  lemma UnsettledStep<M>(s: State<M>, a: Step<M>, c: nat)
    requires Do(s, a).Some? && (c < |s.calls| ==> s.calls[c].Entered?)
    ensures var t := Do(s, a).value;
            if a == Check(c) then
              c < |t.calls| && !t.calls[c].Entered? && (IsClosedOut(t, c) <==> s.canSign && s.closed)
            else c < |t.calls| ==> t.calls[c].Entered?
    ensures Do(s, a).value.canSign == s.canSign
  {}

  lemma {:induction false} ClosedOutExactly<M(!new)>(s: State<M>, steps: seq<Step<M>>, c: nat)
    requires Run(s, steps).Some? && (c < |s.calls| ==> s.calls[c].Entered?)
    ensures IsClosedOut(Run(s, steps).value, c) <==> s.canSign && CheckedClosed(s, steps, c)
    decreases |steps|
  {
    if steps != [] {
      var a, t, rest := steps[0], Do(s, steps[0]).value, steps[1..];
      UnsettledStep(s, a, c);
      CheckedFirst(s, a, rest, c);
      assert steps == [a] + rest;
      if a == Check(c) {
        Settled(t, rest, c);
      } else {
        ClosedOutExactly(t, rest, c);
      }
    }
  }

  /** Over any run: a call that has returned was refused as read-only if and only if the client cannot sign, and as
      closed if and only if the client can sign and the flag was set at the call's check. Otherwise it returns nil if
      and only if all its messages have been sent, and a timeout if and only if some have not. */
  lemma RefusedExactly<M(!new)>(canSign: bool, zero: M, steps: seq<Step<M>>, c: nat)
    requires Run(Init(canSign, zero), steps).Some?
    requires c < |Run(Init(canSign, zero), steps).value.calls|
    requires Run(Init(canSign, zero), steps).value.calls[c].Returned?
    ensures var s := Run(Init(canSign, zero), steps).value;
            var call := s.calls[c];
            var refused := !canSign || CheckedClosed(Init(canSign, zero), steps, c);
            && (call.err == Some(ReadOnly) <==> !canSign)
            && (call.err == Some(QueueClosed) <==> canSign && CheckedClosed(Init(canSign, zero), steps, c))
            && (call.err == None <==> !refused && By(s.sent, c) == call.args)
            && (call.err == Some(EnqueueTimeout) <==> !refused && By(s.sent, c) < call.args)
            && (refused ==> By(s.sent, c) == [])
  {
    var start := Init(canSign, zero);
    InitInv(canSign, zero);
    RunKeeps(start, steps);
    ReachableSigning(start, steps);
    ClosedOutExactly(start, steps, c);
    var s := Run(start, steps).value;
    ReturnedIs(s, c);
  }

  lemma ReturnedIs<M>(s: State<M>, c: nat)
    requires CallsAre(s.calls, s.sent) && CallsPermitted(s) && c < |s.calls| && s.calls[c].Returned?
    ensures var (call, mine) := (s.calls[c], By(s.sent, c));
            && (call.err == Some(ReadOnly) <==> !s.canSign)
            && (call.err == None ==> mine == call.args)
            && (call.err == Some(EnqueueTimeout) ==> mine < call.args)
            && (call.err == Some(ReadOnly) || call.err == Some(QueueClosed) ==> mine == [])
            && call.err in {None, Some(ReadOnly), Some(QueueClosed), Some(EnqueueTimeout)}
  {
    assert CallIs(s.calls[c], By(s.sent, c)) && Permitted(s.calls[c], s.canSign, s.closed);
  }

  // ---- A call can always go through while the queue is open ----

  /** The loop can be run until it selects again, and then takes a message out of the queue. */
  ghost predicate Open<M>(s: State<M>) {
    Inv(s) && s.panic.None? && s.canSign && !s.shut
  }

  /** How far the loop is from selecting. */
  function Distance<M>(s: State<M>): nat {
    match s.loop.phase
    case Selecting => 0
    case Notifying(_) => 1
    case Submitting(_, _, _) => 2
    case Exited => 0
  }

  lemma BackToSelect<M>(s: State<M>) returns (steps: seq<Step<M>>)
    requires Open(s)
    ensures Run(s, steps).Some?
    ensures var t := Run(s, steps).value;
            Open(t) && t.loop.phase.Selecting? && t == s.(loop := t.loop, tokens := t.tokens)
    decreases Distance(s), s.tokens
  {
    if s.loop.phase.Selecting? {
      steps := [];
    } else {
      var a := if s.loop.phase.Submitting? then Step.Broadcast(Accepted)
               else if s.tokens < TOKENS then Notify else Drain;
      StepKeeps(s, a);
      var rest := BackToSelect(Do(s, a).value);
      RunFirst(s, a, rest);
      steps := [a] + rest;
    }
  }

  lemma {:induction false} RunAppend<M>(s: State<M>, a: seq<Step<M>>, b: seq<Step<M>>)
    requires Run(s, a).Some?
    ensures Run(s, a + b) == Run(Run(s, a).value, b)
    decreases |a|
  {
    if a == [] {
      assert a + b == b;
    } else {
      assert (a + b)[1..] == a[1..] + b;
      RunAppend(Do(s, a[0]).value, a[1..], b);
    }
  }

  lemma MakeRoom<M>(s: State<M>) returns (steps: seq<Step<M>>)
    requires Open(s)
    ensures Run(s, steps).Some?
    ensures var t := Run(s, steps).value;
            Open(t) && |t.msgC| < 1024 && t == s.(loop := t.loop, tokens := t.tokens, msgC := t.msgC)
  {
    steps := BackToSelect(s);
    var t := Run(s, steps).value;
    if t.msgC != [] {
      StepKeeps(t, ReceiveMsg);
      RunOne(t, ReceiveMsg);
      RunAppend(s, steps, [ReceiveMsg]);
      steps := steps + [ReceiveMsg];
    }
  }

  /** The call is under way in s, and has sent all it had in t; nothing has happened to the others. */
  ghost predicate WentThrough<M>(s: State<M>, t: State<M>, c: nat) {
    && Open(t) && t.closed == s.closed && t.closers == s.closers
    && c < |s.calls| && t.calls == s.calls[c := Returned(s.calls[c].args, |s.calls[c].args|, None)]
    && By(t.sent, c) == s.calls[c].args
  }

  /** Room is made, and the next message is sent. */
  lemma SendNext<M>(s: State<M>, c: nat) returns (steps: seq<Step<M>>)
    requires Open(s) && c < |s.calls| && s.calls[c].Sending? && s.calls[c].k < |s.calls[c].args|
    ensures Run(s, steps).Some?
    ensures var t := Run(s, steps).value;
            Open(t) && t.closed == s.closed && t.closers == s.closers &&
            t.calls == s.calls[c := Sending(s.calls[c].args, s.calls[c].k + 1)]
  {
    steps := MakeRoom(s);
    var t := Run(s, steps).value;
    SendEnters(t, c);
    StepKeeps(t, Send(c));
    RunOne(t, Send(c));
    RunAppend(s, steps, [Send(c)]);
    steps := steps + [Send(c)];
  }

  lemma AllSent<M>(s: State<M>, c: nat)
    requires Open(s) && c < |s.calls| && s.calls[c].Sending? && s.calls[c].k == |s.calls[c].args|
    ensures Do(s, Finish(c)).Some? && WentThrough(s, Do(s, Finish(c)).value, c)
  {
    var call := s.calls[c];
    StepKeeps(s, Finish(c));
    assert CallIs(call, By(s.sent, c));
    assert call.args[..call.k] == call.args;
  }

  lemma {:induction false} SendTheRest<M>(s: State<M>, c: nat) returns (steps: seq<Step<M>>)
    requires Open(s) && c < |s.calls| && s.calls[c].Sending? && s.calls[c].k <= |s.calls[c].args|
    ensures Run(s, steps).Some? && WentThrough(s, Run(s, steps).value, c)
    decreases |s.calls[c].args| - s.calls[c].k
  {
    if s.calls[c].k == |s.calls[c].args| {
      AllSent(s, c);
      RunOne(s, Finish(c));
      steps := [Finish(c)];
    } else {
      var one := SendNext(s, c);
      var t := Run(s, one).value;
      var rest := SendTheRest(t, c);
      RunAppend(s, one, rest);
      steps := one + rest;
      WentOn(s, t, Run(t, rest).value, c);
    }
  }

  lemma WentOn<M>(s: State<M>, t: State<M>, u: State<M>, c: nat)
    requires c < |s.calls| && s.calls[c].Sending? && t.closed == s.closed && t.closers == s.closers
    requires t.calls == s.calls[c := Sending(s.calls[c].args, s.calls[c].k + 1)] && WentThrough(t, u, c)
    ensures WentThrough(s, u, c)
  {
    var args := s.calls[c].args;
    var done := Returned(args, |args|, None);
    assert s.calls[c := Sending(args, s.calls[c].k + 1)][c := done] == s.calls[c := done];
  }

  /** From every state in which a call is past its check and the queue is open, the call can send all its messages
      and return nil: the loop can always make room. */
  lemma CallGoesThrough<M>(s: State<M>, c: nat) returns (steps: seq<Step<M>>)
    requires Inv(s) && s.panic.None? && !s.shut && c < |s.calls| && s.calls[c].Sending?
    ensures Run(s, steps).Some?
    ensures var (t, args) := (Run(s, steps).value, s.calls[c].args);
            t.panic.None? && c < |t.calls| && t.calls[c] == Returned(args, |args|, None) && By(t.sent, c) == args
  {
    assert Permitted(s.calls[c], s.canSign, s.closed) && CallIs(s.calls[c], By(s.sent, c));
    steps := SendTheRest(s, c);
  }

  /** And so can every new call of an open client. */
  lemma NewCallGoesThrough<M>(s: State<M>, args: seq<M>) returns (steps: seq<Step<M>>)
    requires Inv(s) && s.panic.None? && s.canSign && !s.closed
    ensures Run(s, [NewCall(args), Check(|s.calls|)] + steps).Some?
    ensures var (t, c) := (Run(s, [NewCall(args), Check(|s.calls|)] + steps).value, |s.calls|);
            t.panic.None? && c < |t.calls| && t.calls[c] == Returned(args, |args|, None) && By(t.sent, c) == args
  {
    var c := |s.calls|;
    var first := [NewCall(args), Check(c)];
    var s1 := Do(s, NewCall(args)).value;
    StepKeeps(s, NewCall(args));
    StepKeeps(s1, Check(c));
    RunTwo(s, NewCall(args), Check(c));
    steps := CallGoesThrough(Do(s1, Check(c)).value, c);
    RunAppend(s, first, steps);
  }

  // ---- A Close can always return ----

  lemma {:induction false} DrainForCloser<M>(s: State<M>, j: nat) returns (steps: seq<Step<M>>)
    requires Inv(s) && s.shut && s.panic.None? && j < |s.closers| && s.closers[j].Waiting?
    ensures Run(s, steps).Some?
    ensures var t := Run(s, steps).value; t.panic.None? && j < |t.closers| && t.closers[j].Gone?
    decreases Rank(s), s.tokens
  {
    if s.loop.phase.Exited? {
      RunOne(s, Awake(j));
      steps := [Awake(j)];
    } else {
      var a := NextTurn(s);
      var rest := DrainForCloser(Do(s, a).value, j);
      RunFirst(s, a, rest);
      steps := [a] + rest;
    }
  }

  lemma ShutForCloser<M>(s: State<M>, j: nat) returns (steps: seq<Step<M>>)
    requires Inv(s) && s.closed && s.panic.None? && j < |s.closers| && (s.closers[j].Waiting? || s.closers[j].Closing?)
    ensures Run(s, steps).Some?
    ensures var t := Run(s, steps).value; t.panic.None? && j < |t.closers| && t.closers[j].Gone?
  {
    if s.shut {
      CloseExactly(s, j);
      steps := DrainForCloser(s, j);
    } else {
      assert SomeoneCloses(s.closers);
      var i :| 0 <= i < |s.closers| && s.closers[i].Closing?;
      CloseExactly(s, i);
      StepKeeps(s, CloseQueue(i));
      var rest := DrainForCloser(Do(s, CloseQueue(i)).value, j);
      RunFirst(s, CloseQueue(i), rest);
      steps := [CloseQueue(i)] + rest;
    }
  }

  /** Whoever has called Close, and whatever is queued: unless something panics, the run can go on so that this Close
      returns. */
  lemma CloseReturns<M>(s: State<M>, j: nat) returns (steps: seq<Step<M>>)
    requires Inv(s) && s.panic.None? && j < |s.closers|
    ensures Run(s, steps).Some?
    ensures var t := Run(s, steps).value; t.panic.None? && j < |t.closers| && t.closers[j].Gone?
  {
    match s.closers[j] {
      case Gone => steps := [];
      case Started =>
        CloseExactly(s, j);
        StepKeeps(s, Swap(j));
        if s.canSign {
          var rest := ShutForCloser(Do(s, Swap(j)).value, j);
          RunFirst(s, Swap(j), rest);
          steps := [Swap(j)] + rest;
        } else {
          RunOne(s, Swap(j));
          steps := [Swap(j)];
        }
      case _ => steps := ShutForCloser(s, j);
    }
  }
}
