/** Counting depth against matching brackets, for any way of cutting bytes into tokens. */
module Groups {
  import opened Words
  import opened Sequences
  import opened Outcomes

  type pos = n: nat | n > 0 witness 1

  /** `tok` takes a token off the front of a byte string: its size and the change of depth.
      `isToken` says which byte strings are tokens with which change of depth. */
  datatype Lexer = Lexer(tok: seq<byte> -> Result<(pos, int)>, isToken: (seq<byte>, int) -> bool) {

    /** A token is found, whatever follows it. */
    ghost predicate Finds(b: seq<byte>, d: int, rest: seq<byte>) {
      isToken(b, d) ==>
        tok(b + rest).Ok? && tok(b + rest).value.0 == |b| && tok(b + rest).value.1 == d
    }

    /** Only tokens are found. */
    ghost predicate FindsOnly(s: seq<byte>) {
      tok(s).Ok? && tok(s).value.0 <= |s| ==>
        isToken(s[..tok(s).value.0], tok(s).value.1) && -1 <= tok(s).value.1 <= 1
    }

    ghost predicate Agrees() {
      && (forall b, d, rest :: Finds(b, d, rest))
      && (forall s :: FindsOnly(s))
    }
  }

  /** Adds the bytes already taken to a result for the rest. */
  function Bump(k: nat, r: Result<nat>): Result<nat> {
    if r.Ok? then Ok(k + r.value) else r
  }

  /** The number of bytes up to the point where the depth is back at zero. */
  function SkipWith(tok: seq<byte> -> Result<(pos, int)>, s: seq<byte>, depth: nat): (r: Result<nat>)
    ensures r.Ok? ==> 1 <= r.value <= |s|
    decreases |s|
  {
    if s == [] then Err(OutOfBounds)
    else
      var (k, d) :- tok(s);
      if depth + d < 0 then Err(UnexpectedEndGroup)
      else if k > |s| then Err(OutOfBounds)
      else if depth + d == 0 then Ok(k)
      else Bump(k, SkipWith(tok, s[k..], depth + d))
  }

  /** What one turn of the loop has done at index `start` and depth `before` of s, by its error, its
      new index (which may have wrapped around) and its new depth. */
  ghost predicate Turned(t: Result<(pos, int)>, start: nat, before: nat, err: Option<GoError>, index: i64,
                         depth: int)
  {
    match err
    case Some(e) =>
      || t == Err(Class(e))
      || (e == ErrUnexpectedEndOfGroup && before == 0 && t.Ok? && t.value.1 == -1)
    case None =>
      && depth >= 0
      && t.Ok? && t.value.1 == depth - before && start + t.value.0 <= 2 * MAX_INT
      && index == if start + t.value.0 <= MAX_INT then start + t.value.0 else start + t.value.0 - TWO64
  }

  /** The loop's invariant: the result for the whole of s is what is left to do from `index` on. */
  ghost predicate Counting(tok: seq<byte> -> Result<(pos, int)>, s: seq<byte>, goal: Result<nat>, index: int,
                          depth: int)
  {
    && 0 <= index && 0 <= depth
    && goal == if index <= |s| then Bump(index, SkipWith(tok, s[index..], depth)) else Err(OutOfBounds)
  }

  lemma TurnKeepsCounting(tok: seq<byte> -> Result<(pos, int)>, s: seq<byte>, goal: Result<nat>, start: nat,
                          before: nat, err: Option<GoError>, index: i64, depth: int)
    requires start < |s| <= MAX_INT && Counting(tok, s, goal, start, before)
    requires Turned(tok(s[start..]), start, before, err, index, depth)
    ensures err.Some? ==> goal == Err(Class(err.value))
    ensures err.None? && index < 0 ==> goal == Err(OutOfBounds)
    ensures err.None? && index >= 0 ==> start < index
    ensures err.None? && index >= 0 && depth == 0 ==> goal == if index <= |s| then Ok(index) else Err(OutOfBounds)
    ensures err.None? && index >= 0 && depth > 0 ==> Counting(tok, s, goal, index, depth)
  {
    if tok(s[start..]).Ok? {
      var k := tok(s[start..]).value.0;
      if start + k <= |s| {
        assert s[start..][k..] == s[start + k..];
      }
    }
  }

  datatype Tree = Leaf(bytes: seq<byte>) | Group(open: seq<byte>, body: seq<Tree>, close: seq<byte>)

  ghost predicate WellFormed(isToken: (seq<byte>, int) -> bool, t: Tree) {
    match t
    case Leaf(bytes) => isToken(bytes, 0)
    case Group(open, body, close) =>
      isToken(open, 1) && isToken(close, -1) && forall c | c in body :: WellFormed(isToken, c)
  }

  function Print(t: Tree): seq<byte>
    decreases t, 0
  {
    match t
    case Leaf(bytes) => bytes
    case Group(open, body, close) => open + (PrintAll(body) + close)
  }

  function PrintAll(ts: seq<Tree>): seq<byte>
    decreases ts, 0
  {
    if ts == [] then [] else Print(ts[0]) + PrintAll(ts[1..])
  }

  // ---- Every well-formed tree is taken whole, whatever follows ----

  lemma OneToken(x: Lexer, b: seq<byte>, d: int, rest: seq<byte>, depth: nat)
    requires x.Agrees() && x.isToken(b, d) && depth + d >= 0
    ensures SkipWith(x.tok, b + rest, depth) ==
            if depth + d == 0 then Ok(|b|) else Bump(|b|, SkipWith(x.tok, rest, depth + d))
  {
    assert x.Finds(b, d, rest);
    assert (b + rest)[|b|..] == rest;
  }

  lemma {:induction false} SkipTree(x: Lexer, t: Tree, rest: seq<byte>, depth: nat)
    requires x.Agrees() && WellFormed(x.isToken, t)
    ensures SkipWith(x.tok, Print(t) + rest, depth) ==
            if depth == 0 then Ok(|Print(t)|) else Bump(|Print(t)|, SkipWith(x.tok, rest, depth))
    decreases t, 0
  {
    if t.Leaf? {
      OneToken(x, t.bytes, 0, rest, depth);
    } else {
      SkipGroup(x, t.open, t.body, t.close, rest, depth);
    }
  }

  lemma {:induction false} SkipGroup(x: Lexer, open: seq<byte>, body: seq<Tree>, close: seq<byte>, rest: seq<byte>,
                                     depth: nat)
    requires x.Agrees() && x.isToken(open, 1) && x.isToken(close, -1)
    requires forall c | c in body :: WellFormed(x.isToken, c)
    ensures var b := open + (PrintAll(body) + close);
            SkipWith(x.tok, b + rest, depth) ==
            if depth == 0 then Ok(|b|) else Bump(|b|, SkipWith(x.tok, rest, depth))
    decreases body, 1
  {
    var inside, outside := PrintAll(body), close + rest;
    Regroup(open, inside, close, rest);
    OneToken(x, open, 1, inside + outside, depth);
    SkipForest(x, body, outside, depth + 1);
    OneToken(x, close, -1, rest, depth + 1);
    var end := if depth == 0 then Ok(|close|) else Bump(|close|, SkipWith(x.tok, rest, depth));
    assert SkipWith(x.tok, outside, depth + 1) == end;
    assert SkipWith(x.tok, open + (inside + outside), depth) == Bump(|open|, Bump(|inside|, end));
  }

  lemma {:induction false} SkipForest(x: Lexer, ts: seq<Tree>, rest: seq<byte>, depth: nat)
    requires x.Agrees() && depth > 0
    requires forall c | c in ts :: WellFormed(x.isToken, c)
    ensures SkipWith(x.tok, PrintAll(ts) + rest, depth) == Bump(|PrintAll(ts)|, SkipWith(x.tok, rest, depth))
    decreases ts, 0
  {
    if ts == [] {
      assert PrintAll(ts) + rest == rest;
    } else {
      var first, others := Print(ts[0]), PrintAll(ts[1..]);
      assert PrintAll(ts) + rest == first + (others + rest);
      SkipTree(x, ts[0], others + rest, depth);
      SkipForest(x, ts[1..], rest, depth);
    }
  }

  // ---- Nothing else is taken ----

  /** Inside an open group: what is taken is a sequence of trees, a closing token, and then whatever
      closes the groups further out. */
  lemma {:induction false} ParseForest(x: Lexer, s: seq<byte>, depth: nat)
    returns (ts: seq<Tree>, close: seq<byte>, after: seq<byte>)
    requires x.Agrees() && depth > 0 && SkipWith(x.tok, s, depth).Ok?
    ensures forall c | c in ts :: WellFormed(x.isToken, c)
    ensures x.isToken(close, -1)
    ensures s == (PrintAll(ts) + close) + after
    ensures SkipWith(x.tok, s, depth) ==
            if depth == 1 then Ok(|PrintAll(ts) + close|)
            else Bump(|PrintAll(ts) + close|, SkipWith(x.tok, after, depth - 1))
    decreases |s|, 1
  {
    assert x.FindsOnly(s);
    var (k, d) := x.tok(s).value;
    if d == -1 {
      ts, close, after := [], s[..k], s[k..];
      assert PrintAll(ts) + close == close;
    } else {
      var t, rest := ParseTree(x, s, depth);
      var more;
      more, close, after := ParseForest(x, rest, depth);
      ts := [t] + more;
      Prepend(t, more, close, after);
    }
  }

  /** A tree in front of the rest of a group. */
  lemma Prepend(t: Tree, more: seq<Tree>, close: seq<byte>, after: seq<byte>)
    ensures PrintAll([t] + more) + close == Print(t) + (PrintAll(more) + close)
    ensures (PrintAll([t] + more) + close) + after == Print(t) + ((PrintAll(more) + close) + after)
  {
    assert ([t] + more)[1..] == more;
    assert PrintAll([t] + more) == Print(t) + PrintAll(more);
  }

  /** One tree, in or out of a group. */
  lemma {:induction false} ParseTree(x: Lexer, s: seq<byte>, depth: nat) returns (t: Tree, rest: seq<byte>)
    requires x.Agrees() && SkipWith(x.tok, s, depth).Ok? && x.tok(s).value.1 != -1
    ensures WellFormed(x.isToken, t) && s == Print(t) + rest && |rest| < |s|
    ensures SkipWith(x.tok, s, depth) ==
            if depth == 0 then Ok(|Print(t)|) else Bump(|Print(t)|, SkipWith(x.tok, rest, depth))
    decreases |s|, 0
  {
    assert x.FindsOnly(s);
    var (k, d) := x.tok(s).value;
    if d == 1 {
      var open := s[..k];
      var body, close, after := ParseForest(x, s[k..], depth + 1);
      t, rest := Group(open, body, close), after;
      assert Print(t) == open + (PrintAll(body) + close);
    } else {
      t, rest := Leaf(s[..k]), s[k..];
    }
  }

  /** The counter takes n bytes exactly when those n bytes are one well-formed tree. */
  lemma CountingIsMatching(x: Lexer, s: seq<byte>, n: nat)
    requires x.Agrees() && n <= |s|
    ensures SkipWith(x.tok, s, 0) == Ok(n) <==> exists t :: WellFormed(x.isToken, t) && Print(t) == s[..n]
  {
    if SkipWith(x.tok, s, 0) == Ok(n) {
      var t, rest := ParseTree(x, s, 0);
      assert s[..n] == Print(t);
    }
    if t :| WellFormed(x.isToken, t) && Print(t) == s[..n] {
      SkipTree(x, t, s[n..], 0);
      assert Print(t) + s[n..] == s;
    }
  }

  /** What follows a taken tree does not matter. */
  lemma SkipWithAppend(x: Lexer, s: seq<byte>, more: seq<byte>)
    requires x.Agrees() && SkipWith(x.tok, s, 0).Ok?
    ensures SkipWith(x.tok, s + more, 0) == SkipWith(x.tok, s, 0)
  {
    var t, rest := ParseTree(x, s, 0);
    assert s + more == Print(t) + (rest + more);
    SkipTree(x, t, rest + more, 0);
  }

  // ---- There is only one way to read it ----

  /** The first token of a tree tells a leaf from a group, and neither from a closing token. */
  lemma FirstToken(x: Lexer, t: Tree, rest: seq<byte>)
    requires x.Agrees() && WellFormed(x.isToken, t)
    ensures x.tok(Print(t) + rest) == if t.Leaf? then Ok((|t.bytes|, 0)) else Ok((|t.open|, 1))
  {
    if t.Leaf? {
      assert x.Finds(t.bytes, 0, rest);
    } else {
      Regroup(t.open, PrintAll(t.body), t.close, rest);
      assert x.Finds(t.open, 1, PrintAll(t.body) + (t.close + rest));
    }
  }

  lemma {:induction false} TreeIsUnique(x: Lexer, t: Tree, r: seq<byte>, u: Tree, q: seq<byte>)
    requires x.Agrees() && WellFormed(x.isToken, t) && WellFormed(x.isToken, u)
    requires Print(t) + r == Print(u) + q
    ensures t == u && r == q
    decreases t, 0
  {
    FirstToken(x, t, r);
    FirstToken(x, u, q);
    var s := Print(t) + r;
    if t.Leaf? {
      assert t.bytes == s[..|t.bytes|] && u.bytes == s[..|u.bytes|];
      assert r == s[|t.bytes|..] && q == s[|u.bytes|..];
    } else {
      Regroup(t.open, PrintAll(t.body), t.close, r);
      Regroup(u.open, PrintAll(u.body), u.close, q);
      assert t.open == s[..|t.open|] && u.open == s[..|u.open|];
      assert PrintAll(t.body) + (t.close + r) == s[|t.open|..];
      assert PrintAll(u.body) + (u.close + q) == s[|u.open|..];
      ForestIsUnique(x, t.body, t.close, r, u.body, u.close, q);
    }
  }

  lemma {:induction false} ForestIsUnique(x: Lexer, ts: seq<Tree>, c: seq<byte>, r: seq<byte>,
                                          us: seq<Tree>, d: seq<byte>, q: seq<byte>)
    requires x.Agrees() && x.isToken(c, -1) && x.isToken(d, -1)
    requires forall t | t in ts :: WellFormed(x.isToken, t)
    requires forall u | u in us :: WellFormed(x.isToken, u)
    requires PrintAll(ts) + (c + r) == PrintAll(us) + (d + q)
    ensures ts == us && c == d && r == q
    decreases ts, 1
  {
    var s := PrintAll(ts) + (c + r);
    FirstOfForest(x, ts, c, r);
    FirstOfForest(x, us, d, q);
    if ts == [] {
      assert us == [];
      assert s == c + r && s == d + q;
      assert c == s[..|c|] && d == s[..|d|] && r == s[|c|..] && q == s[|d|..];
    } else {
      var more, others := PrintAll(ts[1..]) + (c + r), PrintAll(us[1..]) + (d + q);
      assert s == Print(ts[0]) + more && s == Print(us[0]) + others;
      TreeIsUnique(x, ts[0], more, us[0], others);
      ForestIsUnique(x, ts[1..], c, r, us[1..], d, q);
      assert ts == [ts[0]] + ts[1..] && us == [us[0]] + us[1..];
    }
  }

  lemma FirstOfForest(x: Lexer, ts: seq<Tree>, c: seq<byte>, r: seq<byte>)
    requires x.Agrees() && x.isToken(c, -1) && forall t | t in ts :: WellFormed(x.isToken, t)
    ensures var k := x.tok(PrintAll(ts) + (c + r));
            k.Ok? && (k.value.1 == -1 <==> ts == []) && (ts == [] ==> k.value.0 == |c|)
  {
    if ts == [] {
      assert PrintAll(ts) + (c + r) == c + r;
      assert x.Finds(c, -1, r);
    } else {
      assert PrintAll(ts) + (c + r) == Print(ts[0]) + (PrintAll(ts[1..]) + (c + r));
      FirstToken(x, ts[0], PrintAll(ts[1..]) + (c + r));
    }
  }

  // ---- Brackets with names ----

  /** Every group is closed under the name it was opened with. */
  ghost predicate Named(name: seq<byte> -> nat, t: Tree) {
    t.Group? ==> name(t.open) == name(t.close) && forall c | c in t.body :: Named(name, c)
  }

  /** Like SkipWith, with the names of the open groups, the innermost last, in the place of their number. */
  function StrictWith(tok: seq<byte> -> Result<(pos, int)>, name: seq<byte> -> nat, s: seq<byte>, open: seq<nat>)
    : Option<nat>
    decreases |s|
  {
    if tok(s).Err? || tok(s).value.0 > |s| then None
    else
      var (k, d) := tok(s).value;
      if d == 1 then Further(k, StrictWith(tok, name, s[k..], open + [name(s[..k])]))
      else if d == -1 then
        if open == [] || open[|open| - 1] != name(s[..k]) then None
        else After(k, StrictWith(tok, name, s[k..], open[..|open| - 1]), open[..|open| - 1])
      else if d == 0 then After(k, StrictWith(tok, name, s[k..], open), open)
      else None
  }

  function Further(k: nat, r: Option<nat>): Option<nat> {
    if r.None? then None else Some(k + r.value)
  }

  /** After k bytes: done when no group is open, and on to the rest otherwise. */
  function After(k: nat, rest: Option<nat>, open: seq<nat>): Option<nat> {
    if open == [] then Some(k) else Further(k, rest)
  }

  lemma StrictToken(x: Lexer, name: seq<byte> -> nat, b: seq<byte>, d: int, rest: seq<byte>, open: seq<nat>)
    requires x.Agrees() && x.isToken(b, d) && -1 <= d <= 1
    ensures StrictWith(x.tok, name, b + rest, open) ==
            if d == 1 then Further(|b|, StrictWith(x.tok, name, rest, open + [name(b)]))
            else if d == -1 then
              if open == [] || open[|open| - 1] != name(b) then None
              else After(|b|, StrictWith(x.tok, name, rest, open[..|open| - 1]), open[..|open| - 1])
            else After(|b|, StrictWith(x.tok, name, rest, open), open)
  {
    assert x.Finds(b, d, rest);
    assert (b + rest)[..|b|] == b && (b + rest)[|b|..] == rest;
  }

  /** A tree is taken whole if its names match, and refused if they do not. */
  lemma {:induction false} StrictTree(x: Lexer, name: seq<byte> -> nat, t: Tree, rest: seq<byte>, open: seq<nat>)
    requires x.Agrees() && WellFormed(x.isToken, t)
    ensures StrictWith(x.tok, name, Print(t) + rest, open) ==
            if Named(name, t) then After(|Print(t)|, StrictWith(x.tok, name, rest, open), open) else None
    decreases t, 0
  {
    if t.Leaf? {
      StrictToken(x, name, t.bytes, 0, rest, open);
    } else {
      StrictGroup(x, name, t.open, t.body, t.close, rest, open);
    }
  }

  lemma {:induction false} StrictGroup(x: Lexer, name: seq<byte> -> nat, first: seq<byte>, body: seq<Tree>,
                                       last: seq<byte>, rest: seq<byte>, open: seq<nat>)
    requires x.Agrees() && x.isToken(first, 1) && x.isToken(last, -1)
    requires forall c | c in body :: WellFormed(x.isToken, c)
    ensures var b := first + (PrintAll(body) + last);
            StrictWith(x.tok, name, b + rest, open) ==
            if name(first) == name(last) && forall c | c in body :: Named(name, c)
            then After(|b|, StrictWith(x.tok, name, rest, open), open) else None
    decreases body, 1
  {
    var inside, outside, stack := PrintAll(body), last + rest, open + [name(first)];
    Regroup(first, inside, last, rest);
    StrictToken(x, name, first, 1, inside + outside, open);
    StrictForest(x, name, body, outside, stack);
    StrictToken(x, name, last, -1, rest, stack);
    assert stack[..|stack| - 1] == open;
  }

  lemma {:induction false} StrictForest(x: Lexer, name: seq<byte> -> nat, ts: seq<Tree>, rest: seq<byte>,
                                        open: seq<nat>)
    requires x.Agrees() && open != [] && forall t | t in ts :: WellFormed(x.isToken, t)
    ensures StrictWith(x.tok, name, PrintAll(ts) + rest, open) ==
            if forall t | t in ts :: Named(name, t) then Further(|PrintAll(ts)|, StrictWith(x.tok, name, rest, open))
            else None
    decreases ts, 0
  {
    if ts == [] {
      assert PrintAll(ts) + rest == rest;
    } else {
      var first, others := Print(ts[0]), PrintAll(ts[1..]);
      assert PrintAll(ts) + rest == first + (others + rest);
      StrictTree(x, name, ts[0], others + rest, open);
      StrictForest(x, name, ts[1..], rest, open);
      assert ts == [ts[0]] + ts[1..];
    }
  }

  /** It accepts nothing that counting does not, and takes as much of it. */
  lemma {:induction false} StrictCounts(tok: seq<byte> -> Result<(pos, int)>, name: seq<byte> -> nat, s: seq<byte>,
                                        open: seq<nat>)
    requires StrictWith(tok, name, s, open).Some?
    ensures SkipWith(tok, s, |open|) == Ok(StrictWith(tok, name, s, open).value)
    decreases |s|
  {
    var (k, d) := tok(s).value;
    if d == 1 {
      StrictCounts(tok, name, s[k..], open + [name(s[..k])]);
    } else if d == -1 {
      if |open| > 1 {
        StrictCounts(tok, name, s[k..], open[..|open| - 1]);
      }
    } else if open != [] {
      StrictCounts(tok, name, s[k..], open);
    }
  }

  lemma StrictTakesNamed(x: Lexer, name: seq<byte> -> nat, s: seq<byte>, t: Tree, rest: seq<byte>)
    requires x.Agrees() && WellFormed(x.isToken, t) && s == Print(t) + rest
    ensures StrictWith(x.tok, name, s, []) == if Named(name, t) then Some(|Print(t)|) else None
  {
    StrictTree(x, name, t, rest, []);
  }

  /** Keeping the names accepts exactly the prints of well-formed trees whose names match. */
  lemma StrictIsNamed(x: Lexer, name: seq<byte> -> nat, s: seq<byte>, n: nat)
    requires x.Agrees() && n <= |s|
    ensures StrictWith(x.tok, name, s, []) == Some(n) <==>
            exists t :: WellFormed(x.isToken, t) && Named(name, t) && Print(t) == s[..n]
  {
    if StrictWith(x.tok, name, s, []) == Some(n) {
      StrictCounts(x.tok, name, s, []);
      var t, rest := ParseTree(x, s, 0);
      StrictTakesNamed(x, name, s, t, rest);
      assert s[..n] == Print(t);
    }
    if t :| WellFormed(x.isToken, t) && Named(name, t) && Print(t) == s[..n] {
      StrictTakesNamed(x, name, s, t, s[n..]);
    }
  }
}
