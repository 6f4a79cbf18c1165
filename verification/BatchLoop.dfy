/** The goroutine of client/chain/chain.go that groups queued messages into transactions. It appends to one
    backing array, and hands out slices of that same array. */
module BatchLoop {
  import opened Sequences

  const LIMIT: nat := 1024

  /** What broadcastTx came back with: no error, a sequence mismatch, any other error. */
  datatype Ending = Accepted | Mismatch | Failed

  /** Where the goroutine stands. Submitting is the call of submitBatch on the slice `backing[..n]`; `seen`
      is what the broadcasts of this call have read from it. `last` says that the queue was seen closed. */
  datatype Phase<M> =
    | Selecting
    | Submitting(n: nat, seen: seq<seq<M>>, last: bool)
    | Notifying(last: bool)
    | Exited

  /** The slice msgBatch is `backing[..len]`; `handed` holds, for each submit that is over, what its
      broadcasts read. */
  datatype Loop<M> = Loop(backing: seq<M>, len: nat, phase: Phase<M>, handed: seq<seq<seq<M>>>)
  {
    ghost predicate Valid() {
      && |backing| == LIMIT && len <= LIMIT
      && (forall r :: r in handed ==> OneBatch(r))
      && match phase
         case Selecting => len < LIMIT
         case Submitting(n, seen, last) =>
           1 <= n <= LIMIT && |seen| <= 1 && (forall r :: r in seen ==> r == backing[..n]) &&
           len == (if last then n else 0)
         case Notifying(last) => last || len == 0
         case Exited => true
    }

    /** The messages that are taken from the queue and not yet handed to a submit that is over. */
    function InHand(): seq<M>
      requires Valid()
    {
      match phase
      case Selecting => backing[..len]
      case Submitting(n, _, _) => backing[..n]
      case _ => []
    }

    /** Everything ever taken from the queue, in the order in which it went out. */
    function Taken(): seq<M>
      requires Valid()
    {
      Flatten(handed) + InHand()
    }
  }

  /** All broadcasts of a submit saw the same batch, and its size is in range. */
  predicate OneBatch<M(==)>(seen: seq<seq<M>>) {
    1 <= |seen| <= 2 && 1 <= |seen[0]| <= LIMIT && forall r :: r in seen ==> r == seen[0]
  }

  function Batch<M>(seen: seq<seq<M>>): seq<M> {
    if seen == [] then [] else seen[0]
  }

  function Flatten<M>(handed: seq<seq<seq<M>>>): seq<M> {
    if handed == [] then [] else Flatten(handed[..|handed| - 1]) + Batch(handed[|handed| - 1])
  }

  lemma FlattenSnoc<M>(handed: seq<seq<seq<M>>>, seen: seq<seq<M>>)
    ensures Flatten(handed + [seen]) == Flatten(handed) + Batch(seen)
  {
    assert (handed + [seen])[..|handed|] == handed;
  }

  // ---- The steps ----

  /** `append(backing[:len], x)`: in place while there is room, else in a new array. */
  function Append<M>(backing: seq<M>, len: nat, x: M): seq<M>
    requires len <= |backing|
  {
    if len < |backing| then backing[len := x] else backing + [x]
  }

  /** A message is received. A full batch is submitted, after msgBatch has been reset over it. */
  function Receive<M>(l: Loop<M>, x: M): Loop<M>
    requires l.len <= |l.backing|
  {
    var backing, n := Append(l.backing, l.len, x), l.len + 1;
    if n >= LIMIT then l.(backing := backing, len := 0, phase := Submitting(n, [], false))
    else l.(backing := backing, len := n)
  }

  /** The timer fires: what is there is submitted. */
  function Tick<M>(l: Loop<M>): Loop<M> {
    if l.len > 0 then l.(len := 0, phase := Submitting(l.len, [], false)) else l
  }

  /** The queue is closed and empty: what is there is submitted, without a reset. */
  function SeeClosed<M>(l: Loop<M>): Loop<M> {
    l.(phase := if l.len > 0 then Submitting(l.len, [], true) else Exited)
  }

  /** One call of broadcastTx inside submitBatch: it reads the slice as it is now. A mismatch is retried once. */
  function Attempt<M>(l: Loop<M>, o: Ending): Loop<M>
    requires l.phase.Submitting? && l.phase.n <= |l.backing|
  {
    var seen := l.phase.seen + [l.backing[..l.phase.n]];
    if o.Mismatch? && l.phase.seen == [] then l.(phase := l.phase.(seen := seen))
    else
      l.(handed := l.handed + [seen],
         phase := if o.Accepted? then Notifying(l.phase.last) else AfterSubmit(l.phase.last))
  }

  function AfterSubmit<M>(last: bool): Phase<M> {
    if last then Exited else Selecting
  }

  /** `c.Broadcasted <- struct{}{}` and the return of submitBatch. */
  function Notified<M>(l: Loop<M>): Loop<M>
    requires l.phase.Notifying?
  {
    l.(phase := AfterSubmit(l.phase.last))
  }

  // ---- Each step keeps the messages and their order ----

  /** A batch goes out on size exactly when it is full, and nothing stays behind. */
  lemma ReceiveConserves<M>(l: Loop<M>, x: M)
    requires l.Valid() && l.phase.Selecting?
    ensures Receive(l, x).Valid() && Receive(l, x).Taken() == l.Taken() + [x]
    ensures Receive(l, x).InHand() == l.InHand() + [x]
    ensures Receive(l, x).phase.Submitting? <==> |l.InHand()| + 1 == 1024
    ensures Receive(l, x).handed == l.handed && !Receive(l, x).phase.Exited?
  {
    var b := Append(l.backing, l.len, x);
    assert b[..l.len + 1] == l.backing[..l.len] + [x];
  }

  /** A tick submits all that is pending. */
  lemma TickConserves<M>(l: Loop<M>)
    requires l.Valid() && l.phase.Selecting?
    ensures Tick(l).Valid() && Tick(l).Taken() == l.Taken() && Tick(l).InHand() == l.InHand()
    ensures Tick(l).phase.Submitting? <==> l.InHand() != []
    ensures Tick(l).handed == l.handed && !Tick(l).phase.Exited?
  {}

  lemma SeeClosedConserves<M>(l: Loop<M>)
    requires l.Valid() && l.phase.Selecting?
    ensures SeeClosed(l).Valid() && SeeClosed(l).Taken() == l.Taken()
    ensures SeeClosed(l).phase.Exited? <==> l.InHand() == []
    ensures SeeClosed(l).handed == l.handed
    ensures l.InHand() != [] ==>
              SeeClosed(l).phase.Submitting? && SeeClosed(l).phase.last && SeeClosed(l).InHand() == l.InHand()
  {}

  /** A retry reads from the array that msgBatch has been reset over, and still finds the same batch. Broadcasted is
      signalled exactly after a success. */
  lemma AttemptConserves<M>(l: Loop<M>, o: Ending)
    requires l.Valid() && l.phase.Submitting?
    ensures Attempt(l, o).Valid() && Attempt(l, o).Taken() == l.Taken()
    ensures Attempt(l, o).phase.Submitting? <==> o.Mismatch? && l.phase.seen == []
    ensures Attempt(l, o).phase.Submitting? ==>
              Attempt(l, o).phase.seen == [l.InHand()] && Attempt(l, o).phase.last == l.phase.last
    ensures Attempt(l, o).phase.Notifying? <==> o.Accepted?
    ensures Attempt(l, o).phase.Notifying? ==> Attempt(l, o).phase.last == l.phase.last
    ensures o.Failed? || (o.Mismatch? && l.phase.seen != []) ==>
              Attempt(l, o).phase == if l.phase.last then Exited else Selecting
    ensures !Attempt(l, o).phase.Submitting? ==>
              |Attempt(l, o).handed| == |l.handed| + 1 && Batch(Attempt(l, o).handed[|l.handed|]) == l.InHand()
  {
    var now := l.backing[..l.phase.n];
    var seen := l.phase.seen + [now];
    assert l.phase.seen != [] ==> l.phase.seen[0] in l.phase.seen;
    assert Batch(seen) == now && OneBatch(seen);
    FlattenSnoc(l.handed, seen);
  }

  lemma NotifiedConserves<M>(l: Loop<M>)
    requires l.Valid() && l.phase.Notifying?
    ensures Notified(l).Valid() && Notified(l).Taken() == l.Taken()
    ensures Notified(l).phase == (if l.phase.last then Exited else Selecting) && Notified(l).handed == l.handed
  {}

  // ---- One turn of the loop, as the goroutine alone performs it ----

  /** What select chose, and what the broadcasts that follow from it (if any) came back with. */
  datatype Event<M> =
    | Message(msg: M, first: Ending, second: Ending)
    | Timer(first: Ending, second: Ending)
    | Closed(first: Ending, second: Ending)

  function React<M>(l: Loop<M>, e: Event<M>): Loop<M>
    requires l.len <= |l.backing|
  {
    match e
    case Message(x, _, _) => Receive(l, x)
    case Timer(_, _) => Tick(l)
    case Closed(_, _) => SeeClosed(l)
  }

  /** submitBatch from its first broadcast to its return. */
  function Submit<M>(l: Loop<M>, first: Ending, second: Ending): Loop<M>
    requires l.phase.Submitting? && l.phase.n <= |l.backing|
  {
    var once := Attempt(l, first);
    var done := if once.phase.Submitting? then Attempt(once, second) else once;
    if done.phase.Notifying? then Notified(done) else done
  }

  function Turn<M>(l: Loop<M>, e: Event<M>): Loop<M>
    requires l.Valid() && l.phase.Selecting?
  {
    var m := React(l, e);
    if m.phase.Submitting? && m.phase.n <= |m.backing| then Submit(m, e.first, e.second) else m
  }

  /** The events up to and including the first close. */
  function After<M>(l: Loop<M>, es: seq<Event<M>>): Loop<M>
    requires l.Valid()
    decreases |es|
  {
    if es == [] || !l.phase.Selecting? then l
    else
      TurnConserves(l, es[0]);
      After(Turn(l, es[0]), es[1..])
  }

  function Arrival<M>(e: Event<M>): seq<M> {
    if e.Message? then [e.msg] else []
  }

  function Received<M>(es: seq<Event<M>>): seq<M> {
    if es == [] || es[0].Closed? then [] else Arrival(es[0]) + Received(es[1..])
  }

  /** Only what comes before the first close is received. */
  lemma {:induction false} ReceivedIsMessages<M>(a: seq<Event<M>>, b: seq<Event<M>>, e: Event<M>)
    ensures Received(a + b) == if Ends(a) then Received(a) else Received(a) + Received(b)
    ensures Received([e]) == if e.Message? then [e.msg] else []
  {
    assert Received([e][1..]) == [];
    if a == [] {
      assert a + b == b;
    } else {
      EndsHere(a);
      assert (a + b)[1..] == a[1..] + b;
      ReceivedIsMessages(a[1..], b, e);
      if !a[0].Closed? && !Ends(a[1..]) {
        Associate(Arrival(a[0]), Received(a[1..]), Received(b));
      }
    }
  }

  ghost predicate Ends<M>(es: seq<Event<M>>) {
    exists e :: e in es && e.Closed?
  }

  lemma EndsHere<M>(es: seq<Event<M>>)
    requires es != []
    ensures Ends(es) <==> es[0].Closed? || Ends(es[1..])
  {
    assert es == [es[0]] + es[1..];
  }

  lemma SubmitConserves<M>(l: Loop<M>, first: Ending, second: Ending)
    requires l.Valid() && l.phase.Submitting? && l.phase.seen == []
    ensures var r := Submit(l, first, second);
            r.Valid() && r.Taken() == l.Taken() && r.phase == AfterSubmit(l.phase.last)
  {
    var once := Attempt(l, first);
    AttemptConserves(l, first);
    var done := if once.phase.Submitting? then Attempt(once, second) else once;
    if once.phase.Submitting? {
      AttemptConserves(once, second);
    }
    if done.phase.Notifying? {
      NotifiedConserves(done);
    }
  }

  lemma TurnConserves<M>(l: Loop<M>, e: Event<M>)
    requires l.Valid() && l.phase.Selecting?
    ensures Turn(l, e).Valid()
    ensures Turn(l, e).Taken() == l.Taken() + (if e.Message? then [e.msg] else [])
    ensures Turn(l, e).phase == if e.Closed? then Exited else Selecting
  {
    match e {
      case Message(x, _, _) => ReceiveConserves(l, x);
      case Timer(_, _) => TickConserves(l);
      case Closed(_, _) => SeeClosedConserves(l);
    }
    var m := React(l, e);
    if m.phase.Submitting? {
      SubmitConserves(m, e.first, e.second);
    }
  }

  /** Over any history of events: everything received has gone out, or is still pending, in order; and after a
      close nothing is pending. */
  lemma {:induction false} AfterConserves<M>(l: Loop<M>, es: seq<Event<M>>)
    requires l.Valid() && l.phase.Selecting?
    ensures After(l, es).Valid()
    ensures After(l, es).Taken() == l.Taken() + Received(es)
    ensures After(l, es).phase == if Ends(es) then Exited else Selecting
    decreases |es|
  {
    if es != [] {
      EndsHere(es);
      TurnConserves(l, es[0]);
      var next := Turn(l, es[0]);
      if !es[0].Closed? {
        AfterConserves(next, es[1..]);
        Associate(l.Taken(), Arrival(es[0]), Received(es[1..]));
      }
    }
  }

  // ---- The goroutine in place ----

  class Batcher<M> {
    var backing: array<M>
    var len: nat
    var handed: seq<seq<seq<M>>>

    ghost function At(phase: Phase<M>): Loop<M>
      reads this, backing
    {
      Loop(backing[..], len, phase, handed)
    }

    /** `make([]sdk.Msg, 0, msgCommitBatchSizeLimit)` */
    constructor (zero: M)
      ensures fresh(backing) && At(Selecting).Valid() && At(Selecting).Taken() == []
    {
      backing := new M[LIMIT](_ => zero);
      len, handed := 0, [];
    }

    method SubmitBatch(n: nat, first: Ending, second: Ending, ghost last: bool)
      requires n <= backing.Length
      modifies this`handed
      ensures At(AfterSubmit(last)) == Submit(old(At(Submitting(n, [], last))), first, second)
    {
      var seen := [backing[..n]];
      if first.Mismatch? {
        seen := seen + [backing[..n]];
      }
      handed := handed + [seen];
      assert [] + [backing[..n]] == [backing[..n]];
    }

    /** One turn of the loop. */
    method Handle(e: Event<M>) returns (exit: bool)
      requires At(Selecting).Valid()
      modifies this`len, this`handed, backing
      ensures backing == old(backing)
      ensures exit == e.Closed?
      ensures At(if exit then Exited else Selecting) == Turn(old(At(Selecting)), e)
    {
      exit := e.Closed?;
      match e {
        case Message(msg, first, second) =>
          backing[len] := msg;
          len := len + 1;
          if len >= LIMIT {
            var toSubmit := len;
            len := 0;
            SubmitBatch(toSubmit, first, second, false);
          }
        case Timer(first, second) =>
          if len > 0 {
            var toSubmit := len;
            len := 0;
            SubmitBatch(toSubmit, first, second, false);
          }
        case Closed(first, second) =>
          if len > 0 {
            SubmitBatch(len, first, second, true);
          }
      }
    }

    /** The loop: it ends when the queue is seen closed. */
    method Run(events: seq<Event<M>>) returns (exit: bool)
      requires At(Selecting).Valid()
      modifies this`len, this`handed, backing
      ensures backing == old(backing)
      ensures At(if exit then Exited else Selecting) == After(old(At(Selecting)), events)
      ensures exit == Ends(events)
      ensures exit ==> Flatten(handed) == old(At(Selecting)).Taken() + Received(events)
    {
      ghost var l := At(Selecting);
      AfterConserves(l, events);
      var k := 0;
      exit := false;
      while k < |events| && !exit
        invariant 0 <= k <= |events|
        invariant backing == old(backing)
        invariant At(if exit then Exited else Selecting).Valid()
        invariant After(l, events) == After(At(if exit then Exited else Selecting), events[k..])
      {
        TurnConserves(At(Selecting), events[k]);
        assert events[k..][0] == events[k] && events[k..][1..] == events[k + 1..];
        exit := Handle(events[k]);
        k := k + 1;
      }
      assert After(l, events).phase == if exit then Exited else Selecting;
    }
  }
}
