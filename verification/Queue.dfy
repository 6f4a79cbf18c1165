/** The message queue of client/chain/chain.go as a state machine: concurrent calls of QueueBroadcastMsg and
    Close, the goroutine that batches, its timer, and the broadcasts. */
module Queue {
  import opened Sequences
  import opened Outcomes
  import opened BatchLoop

  /** The capacity of the channel `Broadcasted`. */
  const TOKENS: nat := 100_000_000

  datatype QueueError = ReadOnly | QueueClosed | EnqueueTimeout

  /** A call of QueueBroadcastMsg. `k` of its messages are in the queue. */
  datatype Call<M> =
    | Entered(args: seq<M>)
    | Sending(args: seq<M>, k: nat)
    | Returned(args: seq<M>, k: nat, err: Option<QueueError>)
  {
    function Count(): nat {
      if Entered? then 0 else k
    }

    /** The closed check is behind it and the next send is still to come. */
    predicate AboutToSend() {
      Sending? && k < |args|
    }
  }

  /** A call of Close: before its compare-and-swap, about to close the queue, waiting for doneC, returned. */
  datatype Closer = Started | Closing | Waiting | Gone

  datatype Panic = SendOnClosed | CloseOfClosed

  /** `shut` says that msgC is closed, `closed` is the atomic flag; doneC is closed when the loop has exited.
      `sent` is the history of all sends, with the call that made each. */
  datatype State<M> = State(
    canSign: bool, closed: bool, msgC: seq<M>, shut: bool, loop: Loop<M>, tokens: nat,
    calls: seq<Call<M>>, closers: seq<Closer>, sent: seq<(nat, M)>, panic: Option<Panic>)

  /** Slices lie inside their array. */
  predicate InBounds<M>(l: Loop<M>) {
    l.len <= |l.backing| && (l.phase.Submitting? ==> l.phase.n <= |l.backing|)
  }

  function Init<M>(canSign: bool, zero: M): State<M> {
    State(canSign, false, [], false, Loop(seq(LIMIT, i => zero), 0, Selecting, []), 0, [], [], [], None)
  }

  datatype Step<M> =
    | NewCall(args: seq<M>)
    | Check(c: nat)
    | Send(c: nat)
    | TimeOut(c: nat)
    | Finish(c: nat)
    | NewCloser
    | Swap(j: nat)
    | CloseQueue(j: nat)
    | Awake(j: nat)
    | ReceiveMsg
    | TimerFires
    | SeesClosed
    | Broadcast(o: Ending)
    | Notify
    | Drain

  // ---- What each step does; None when it cannot happen now ----

  function Do<M>(s: State<M>, a: Step<M>): Option<State<M>> {
    if s.panic.Some? then None
    else
      match a
      case NewCall(args) => Some(s.(calls := s.calls + [Entered(args)]))
      case NewCloser => Some(s.(closers := s.closers + [Started]))
      case Check(c) => DoCheck(s, c)
      case Send(c) => DoSend(s, c)
      case TimeOut(c) => DoTimeOut(s, c)
      case Finish(c) => DoFinish(s, c)
      case Swap(j) => DoSwap(s, j)
      case CloseQueue(j) => DoClose(s, j)
      case Awake(j) => DoAwake(s, j)
      case Drain => if s.tokens > 0 then Some(s.(tokens := s.tokens - 1)) else None
      case _ => if s.canSign && InBounds(s.loop) then DoLoop(s, a) else None
  }

  function DoCheck<M>(s: State<M>, c: nat): Option<State<M>> {
    if c < |s.calls| && s.calls[c].Entered? then
      var args := s.calls[c].args;
      Some(s.(calls := s.calls[c :=
        if !s.canSign then Returned(args, 0, Some(ReadOnly))
        else if s.closed then Returned(args, 0, Some(QueueClosed))
        else Sending(args, 0)]))
    else None
  }

  function DoSend<M>(s: State<M>, c: nat): Option<State<M>> {
    if c < |s.calls| && s.calls[c].AboutToSend() then
      var x := s.calls[c].args[s.calls[c].k];
      if s.shut then Some(s.(panic := Some(SendOnClosed)))
      else if |s.msgC| < LIMIT then
        Some(s.(msgC := s.msgC + [x], sent := s.sent + [(c, x)],
                calls := s.calls[c := Sending(s.calls[c].args, s.calls[c].k + 1)]))
      else None
    else None
  }

  function DoTimeOut<M>(s: State<M>, c: nat): Option<State<M>> {
    if c < |s.calls| && s.calls[c].AboutToSend() then
      Some(s.(calls := s.calls[c := Returned(s.calls[c].args, s.calls[c].k, Some(EnqueueTimeout))]))
    else None
  }

  function DoFinish<M>(s: State<M>, c: nat): Option<State<M>> {
    if c < |s.calls| && s.calls[c].Sending? && !s.calls[c].AboutToSend() then
      Some(s.(calls := s.calls[c := Returned(s.calls[c].args, s.calls[c].k, None)]))
    else None
  }

  function DoSwap<M>(s: State<M>, j: nat): Option<State<M>> {
    if j < |s.closers| && s.closers[j].Started? then
      if !s.canSign then Some(s.(closers := s.closers[j := Gone]))
      else if !s.closed then Some(s.(closed := true, closers := s.closers[j := Closing]))
      else Some(s.(closers := s.closers[j := Waiting]))
    else None
  }

  function DoClose<M>(s: State<M>, j: nat): Option<State<M>> {
    if j < |s.closers| && s.closers[j].Closing? then
      if s.shut then Some(s.(panic := Some(CloseOfClosed)))
      else Some(s.(shut := true, closers := s.closers[j := Waiting]))
    else None
  }

  function DoAwake<M>(s: State<M>, j: nat): Option<State<M>> {
    if j < |s.closers| && s.closers[j].Waiting? && s.loop.phase.Exited? then
      Some(s.(closers := s.closers[j := Gone]))
    else None
  }

  /** The steps of the batching goroutine. */
  function DoLoop<M>(s: State<M>, a: Step<M>): Option<State<M>>
    requires InBounds(s.loop)
  {
    match s.loop.phase
    case Selecting =>
      if a.ReceiveMsg? && s.msgC != [] then
        Some(s.(msgC := s.msgC[1..], loop := Receive(s.loop, s.msgC[0])))
      else if a.SeesClosed? && s.shut && s.msgC == [] then Some(s.(loop := SeeClosed(s.loop)))
      else if a.TimerFires? then Some(s.(loop := Tick(s.loop)))
      else None
    case Submitting(_, _, _) =>
      if a.Broadcast? then Some(s.(loop := Attempt(s.loop, a.o))) else None
    case Notifying(_) =>
      if a.Notify? && s.tokens < TOKENS then Some(s.(loop := Notified(s.loop), tokens := s.tokens + 1)) else None
    case Exited => None
  }

  /** The state after a run, or None if one of its steps could not happen. */
  function Run<M>(s: State<M>, steps: seq<Step<M>>): Option<State<M>>
    decreases |steps|
  {
    if steps == [] then Some(s)
    else match Do(s, steps[0])
         case None => None
         case Some(t) => Run(t, steps[1..])
  }

  // ---- The history ----

  function Payloads<M>(sent: seq<(nat, M)>): seq<M> {
    seq(|sent|, i requires 0 <= i < |sent| => sent[i].1)
  }

  /** What call c has sent, in order. */
  function By<M>(sent: seq<(nat, M)>, c: nat): seq<M> {
    if sent == [] then []
    else
      var (d, x) := sent[|sent| - 1];
      By(sent[..|sent| - 1], c) + (if c == d then [x] else [])
  }

  lemma BySnoc<M>(sent: seq<(nat, M)>, d: nat, x: M, c: nat)
    ensures By(sent + [(d, x)], c) == By(sent, c) + (if c == d then [x] else [])
  {
    assert (sent + [(d, x)])[..|sent|] == sent;
  }

  // ---- What holds in every reachable state ----

  /** Nothing is lost, repeated or reordered between the producers and the submits. */
  ghost predicate Conserved<M>(s: State<M>) {
    && s.loop.Valid()
    && |s.msgC| <= LIMIT
    && Payloads(s.sent) == s.loop.Taken() + s.msgC
  }

  /** The goroutine takes its last steps only when the queue is closed and empty. */
  ghost predicate EndsAtTheEnd<M>(s: State<M>) {
    var p := s.loop.phase;
    (p.Exited? || (p.Submitting? && p.last) || (p.Notifying? && p.last)) ==> s.shut && s.msgC == []
  }

  /** `mine` is what the call has sent: always a prefix of its arguments, and all of them if it returns nil. */
  ghost predicate CallIs<M>(call: Call<M>, mine: seq<M>) {
    && call.Count() <= |call.args|
    && mine == call.args[..call.Count()]
    && (call.Returned? ==> match call.err
                           case None => call.k == |call.args|
                           case Some(EnqueueTimeout) => call.k < |call.args|
                           case Some(_) => call.k == 0)
  }

  ghost predicate CallsAre<M>(calls: seq<Call<M>>, sent: seq<(nat, M)>) {
    && (forall c :: 0 <= c < |calls| ==> CallIs(calls[c], By(sent, c)))
    && (forall c :: |calls| <= c ==> By(sent, c) == [])
  }

  /** Exactly one Close wins the swap, and it closes the queue once. */
  ghost predicate ClosersAre(closers: seq<Closer>, closed: bool, shut: bool) {
    && (shut ==> closed)
    && (forall i, j :: 0 <= i < |closers| && 0 <= j < |closers| && closers[i].Closing? && closers[j].Closing?
          ==> i == j)
    && (SomeoneCloses(closers) <==> closed && !shut)
  }

  ghost predicate SomeoneCloses(closers: seq<Closer>) {
    exists j :: 0 <= j < |closers| && closers[j].Closing?
  }

  /** A Close of a client that can sign returns only after the loop has ended. */
  ghost predicate CloseWaits<M>(s: State<M>) {
    forall j :: 0 <= j < |s.closers| && s.closers[j].Gone? && s.canSign ==> s.loop.phase.Exited?
  }

  /** Only a client that can sign gets past the closed check; a call of any other is refused as read-only. */
  ghost predicate Permitted<M>(call: Call<M>, canSign: bool, closed: bool) {
    match call
    case Entered(_) => true
    case Sending(_, _) => canSign
    case Returned(_, _, err) => (err == Some(ReadOnly) <==> !canSign) && (err == Some(QueueClosed) ==> closed)
  }

  ghost predicate CallsPermitted<M>(s: State<M>) {
    forall c :: 0 <= c < |s.calls| ==> Permitted(s.calls[c], s.canSign, s.closed)
  }

  /** A Close of a client that cannot sign returns at its first step. */
  ghost predicate ClosersPermitted<M>(s: State<M>) {
    forall j :: 0 <= j < |s.closers| && !s.closers[j].Started? && !s.closers[j].Gone? ==> s.canSign && s.closed
  }

  ghost predicate PanicsAre<M>(s: State<M>) {
    s.panic.Some? ==> s.panic.value.SendOnClosed? && s.shut
  }

  ghost predicate Inv<M>(s: State<M>) {
    && Conserved(s) && EndsAtTheEnd(s)
    && CallsAre(s.calls, s.sent) && ClosersAre(s.closers, s.closed, s.shut) && CloseWaits(s) && PanicsAre(s)
    && CallsPermitted(s) && ClosersPermitted(s)
    && s.tokens <= TOKENS && (s.closed ==> s.canSign)
  }

  lemma InitInv<M>(canSign: bool, zero: M)
    ensures Inv(Init(canSign, zero))
  {}

  lemma LoopConserves<M>(s: State<M>, a: Step<M>)
    requires Conserved(s) && InBounds(s.loop) && DoLoop(s, a).Some?
    ensures Conserved(DoLoop(s, a).value)
  {
    match s.loop.phase {
      case Selecting =>
        if a.ReceiveMsg? {
          ReceiveConserves(s.loop, s.msgC[0]);
          assert s.msgC == [s.msgC[0]] + s.msgC[1..];
          Associate(s.loop.Taken(), [s.msgC[0]], s.msgC[1..]);
        } else if a.SeesClosed? {
          SeeClosedConserves(s.loop);
        } else {
          TickConserves(s.loop);
        }
      case Submitting(_, _, _) => AttemptConserves(s.loop, a.o);
      case Notifying(_) => NotifiedConserves(s.loop);
      case Exited => 
    }
  }

  /** The rest of the state, which these steps leave alone. */
  lemma LoopFrame<M>(s: State<M>, a: Step<M>)
    requires EndsAtTheEnd(s) && InBounds(s.loop) && DoLoop(s, a).Some?
    ensures var t := DoLoop(s, a).value;
            && EndsAtTheEnd(t) && !s.loop.phase.Exited?
            && t == s.(msgC := t.msgC, loop := t.loop, tokens := t.tokens)
            && (s.tokens <= TOKENS ==> t.tokens <= TOKENS)
  {}

  lemma LoopKeeps<M>(s: State<M>, a: Step<M>)
    requires Inv(s) && InBounds(s.loop) && DoLoop(s, a).Some?
    ensures Inv(DoLoop(s, a).value)
  {
    LoopConserves(s, a);
    LoopFrame(s, a);
  }

  lemma SendKeeps<M>(s: State<M>, c: nat)
    requires Inv(s) && DoSend(s, c).Some? && s.panic.None?
    ensures Inv(DoSend(s, c).value)
  {
    var t := DoSend(s, c).value;
    if !s.shut {
      var call := s.calls[c];
      var x := call.args[call.k];
      assert Payloads(t.sent) == Payloads(s.sent) + [x];
      Associate(s.loop.Taken(), s.msgC, [x]);
      assert call.args[..call.k] + [x] == call.args[..call.k + 1];
      forall d | 0 <= d
        ensures By(t.sent, d) == By(s.sent, d) + (if d == c then [x] else [])
      {
        BySnoc(s.sent, c, x, d);
      }
      forall d | 0 <= d < |t.calls|
        ensures CallIs(t.calls[d], By(t.sent, d))
      {
        assert CallIs(s.calls[d], By(s.sent, d));
      }
    }
  }

  /** These steps change the calls alone, and keep what each has sent. */
  lemma CallFrame<M>(s: State<M>, a: Step<M>)
    requires CallsAre(s.calls, s.sent) && CallsPermitted(s)
    requires Do(s, a).Some? && (a.NewCall? || a.Check? || a.TimeOut? || a.Finish?)
    ensures var t := Do(s, a).value;
            && t == s.(calls := t.calls) && |t.calls| >= |s.calls|
            && (forall d :: 0 <= d < |t.calls| ==>
                  CallIs(t.calls[d], By(s.sent, d)) && Permitted(t.calls[d], s.canSign, s.closed))
  {
    var t := Do(s, a).value;
    forall d | 0 <= d < |t.calls|
      ensures CallIs(t.calls[d], By(s.sent, d)) && Permitted(t.calls[d], s.canSign, s.closed)
    {
      assert d < |s.calls| ==> CallIs(s.calls[d], By(s.sent, d)) && Permitted(s.calls[d], s.canSign, s.closed);
    }
  }

  lemma CallStepKeeps<M>(s: State<M>, a: Step<M>)
    requires Inv(s) && Do(s, a).Some? && (a.NewCall? || a.Check? || a.TimeOut? || a.Finish?)
    ensures Inv(Do(s, a).value)
  {
    CallFrame(s, a);
  }

  lemma SameClosing(closers: seq<Closer>, next: seq<Closer>)
    requires |closers| <= |next|
    requires forall j :: 0 <= j < |next| ==> (next[j].Closing? <==> j < |closers| && closers[j].Closing?)
    ensures SomeoneCloses(next) <==> SomeoneCloses(closers)
  {
    if SomeoneCloses(closers) {
      var j :| 0 <= j < |closers| && closers[j].Closing?;
      assert next[j].Closing?;
    }
  }

  lemma SwapKeeps<M>(s: State<M>, j: nat)
    requires ClosersAre(s.closers, s.closed, s.shut) && DoSwap(s, j).Some?
    ensures var t := DoSwap(s, j).value; ClosersAre(t.closers, t.closed, t.shut)
  {
    var t := DoSwap(s, j).value;
    if s.canSign && !s.closed {
      assert t.closers[j].Closing?;
    } else {
      SameClosing(s.closers, t.closers);
    }
  }

  lemma CloseKeeps<M>(s: State<M>, j: nat)
    requires ClosersAre(s.closers, s.closed, s.shut) && DoClose(s, j).Some?
    ensures var t := DoClose(s, j).value; t.panic == s.panic && ClosersAre(t.closers, t.closed, t.shut)
  {
    assert s.closers[j].Closing?;
    assert SomeoneCloses(s.closers);
  }

  lemma CloserStepKeeps<M>(s: State<M>, a: Step<M>)
    requires Inv(s) && Do(s, a).Some? && (a.NewCloser? || a.Swap? || a.CloseQueue? || a.Awake?)
    ensures Inv(Do(s, a).value)
  {
    var t := Do(s, a).value;
    if a.Swap? {
      SwapKeeps(s, a.j);
    } else if a.CloseQueue? {
      CloseKeeps(s, a.j);
    } else {
      SameClosing(s.closers, t.closers);
    }
  }

  lemma StepKeeps<M>(s: State<M>, a: Step<M>)
    requires Inv(s) && Do(s, a).Some?
    ensures Inv(Do(s, a).value)
  {
    match a {
      case Send(c) => SendKeeps(s, c);
      case NewCall(_) => CallStepKeeps(s, a);
      case Check(_) => CallStepKeeps(s, a);
      case TimeOut(_) => CallStepKeeps(s, a);
      case Finish(_) => CallStepKeeps(s, a);
      case NewCloser => CloserStepKeeps(s, a);
      case Swap(_) => CloserStepKeeps(s, a);
      case CloseQueue(_) => CloserStepKeeps(s, a);
      case Awake(_) => CloserStepKeeps(s, a);
      case Drain => 
      case _ => LoopKeeps(s, a);
    }
  }

  lemma {:induction false} RunKeeps<M>(s: State<M>, steps: seq<Step<M>>)
    requires Inv(s) && Run(s, steps).Some?
    ensures Inv(Run(s, steps).value)
    decreases |steps|
  {
    if steps != [] {
      StepKeeps(s, steps[0]);
      RunKeeps(Do(s, steps[0]).value, steps[1..]);
    }
  }
}
