/** The bounded pool of parsers: concurrent Parse calls and Shutdown as an interleaving of steps
    on the channel of idle parsers. */
module ParserPool {
  import opened Text

  type Parser = nat
  type CallId = nat

  /** Where a Parse call stands. */
  datatype Call =
    /** Past the first closed check, in the select. */
    | Waiting
    /** Took a parser, before the re-check. */
    | Acquired(p: Parser)
    | Using(p: Parser)
    /** About to send the parser back. */
    | Returning(p: Parser)

  /** Where the Shutdown call that won the compare-and-swap stands. */
  datatype Shutdown =
    | NotCalled
    | Won
    | Draining(received: nat, holding: Option<Parser>)
    | Returned

  datatype State = State(
    size: nat,
    idle: seq<Parser>,
    calls: map<CallId, Call>,
    closedFlag: bool,
    shutdown: Shutdown,
    closed: seq<Parser>,
    /** Shutdown calls that lost the compare-and-swap and returned at once. */
    lost: nat)

  datatype Step =
    | Enter(c: CallId)
    | Acquire(c: CallId)
    | GiveUp(c: CallId)
    | Recheck(c: CallId, cancelled: bool)
    | Use(c: CallId)
    | Finish(c: CallId)
    | PutBack(c: CallId)
    | Swap
    | LoseSwap
    | CloseDone
    | Receive
    | CloseParser
    | Return

  predicate Init(s: State) {
    && s.size >= 1
    && s.idle == seq(s.size, i => i)
    && s == State(s.size, s.idle, map[], false, NotCalled, [], 0)
  }

  ghost predicate Next(s: State, t: State, step: Step) {
    match step
    case Enter(c) => c !in s.calls && !s.closedFlag && t == s.(calls := s.calls[c := Waiting])
    case Acquire(c) =>
      c in s.calls && s.calls[c].Waiting? && s.idle != [] &&
      t == s.(idle := s.idle[1..], calls := s.calls[c := Acquired(s.idle[0])])
    // Unblocked by the closed done channel or by cancellation.
    case GiveUp(c) => c in s.calls && s.calls[c].Waiting? && t == s.(calls := s.calls - {c})
    case Recheck(c, cancelled) =>
      c in s.calls && s.calls[c].Acquired? &&
      t == s.(calls := s.calls[c := if s.closedFlag || cancelled then Returning(s.calls[c].p) else Using(s.calls[c].p)])
    case Use(c) => c in s.calls && s.calls[c].Using? && t == s
    case Finish(c) => c in s.calls && s.calls[c].Using? && t == s.(calls := s.calls[c := Returning(s.calls[c].p)])
    // A send on the buffered channel waits while the buffer is full.
    case PutBack(c) =>
      c in s.calls && s.calls[c].Returning? && |s.idle| < s.size &&
      t == s.(idle := s.idle + [s.calls[c].p], calls := s.calls - {c})
    case Swap => !s.closedFlag && t == s.(closedFlag := true, shutdown := Won)
    case LoseSwap => s.closedFlag && t == s.(lost := s.lost + 1)
    case CloseDone => s.shutdown.Won? && t == s.(shutdown := Draining(0, None))
    case Receive =>
      s.shutdown.Draining? && s.shutdown.holding.None? && s.shutdown.received < s.size && s.idle != [] &&
      t == s.(idle := s.idle[1..], shutdown := Draining(s.shutdown.received, Some(s.idle[0])))
    case CloseParser =>
      s.shutdown.Draining? && s.shutdown.holding.Some? &&
      t == s.(shutdown := Draining(s.shutdown.received + 1, None), closed := s.closed + [s.shutdown.holding.value])
    case Return => s.shutdown == Draining(s.size, None) && t == s.(shutdown := Returned)
  }

  // ----- Places

  predicate HeldBy(s: State, c: CallId, p: Parser) {
    c in s.calls && !s.calls[c].Waiting? && s.calls[c].p == p
  }

  predicate HeldByShutdown(s: State, p: Parser) {
    s.shutdown.Draining? && s.shutdown.holding == Some(p)
  }

  ghost predicate HeldBySomeone(s: State, p: Parser) {
    exists c: CallId :: HeldBy(s, c, p)
  }

  ghost predicate Distinct(xs: seq<Parser>) {
    forall i, j :: 0 <= i < j < |xs| ==> xs[i] != xs[j]
  }

  /** Each parser is in exactly one place: idle, with one call, with Shutdown, or closed. */
  ghost predicate OnePlace(s: State) {
    && Distinct(s.idle) && Distinct(s.closed)
    && (forall p :: p in s.idle ==> p < s.size && p !in s.closed && !HeldByShutdown(s, p))
    && (forall p :: p in s.closed ==> p < s.size && !HeldByShutdown(s, p))
    && (forall c: CallId, p: Parser :: HeldBy(s, c, p) ==> p < s.size && p !in s.idle && p !in s.closed && !HeldByShutdown(s, p))
    && (forall c: CallId, d: CallId, p: Parser :: HeldBy(s, c, p) && HeldBy(s, d, p) ==> c == d)
    && (forall p: Parser :: HeldByShutdown(s, p) ==> p < s.size)
    && (forall p: nat :: p < s.size ==> p in s.idle || p in s.closed || HeldByShutdown(s, p) || HeldBySomeone(s, p))
  }

  /** What is closed so far is what Shutdown has drained. */
  predicate DrainedSoFar(s: State) {
    match s.shutdown
    case NotCalled => s.closed == [] && !s.closedFlag
    case Won => s.closed == [] && s.closedFlag
    case Draining(received, holding) => |s.closed| == received <= s.size && s.closedFlag
    case Returned => |s.closed| == s.size && s.closedFlag
  }

  ghost predicate Inv(s: State) {
    s.size >= 1 && OnePlace(s) && DrainedSoFar(s)
  }

  // ----- Preservation

  lemma InitInv(s: State)
    requires Init(s)
    ensures Inv(s)
  {
    forall p: nat | p < s.size
      ensures p in s.idle
    {
      assert s.idle[p] == p;
    }
  }

  /** Every call but `c` holds what it held. */
  ghost predicate OthersKeep(s: State, t: State, c: CallId) {
    forall d: CallId, p: Parser :: d != c ==> (HeldBy(t, d, p) <==> HeldBy(s, d, p))
  }

  lemma TakeFirst(xs: seq<Parser>)
    requires Distinct(xs) && xs != []
    ensures Distinct(xs[1..]) && xs[0] !in xs[1..] && forall p :: p in xs <==> p == xs[0] || p in xs[1..]
  {
    assert xs == [xs[0]] + xs[1..];
  }

  lemma AcquirePreserves(s: State, t: State, c: CallId)
    requires Inv(s) && Next(s, t, Acquire(c))
    ensures Inv(t)
  {
    var taken := s.idle[0];
    TakeFirst(s.idle);
    assert OthersKeep(s, t, c);
    assert forall p: Parser :: HeldByShutdown(t, p) <==> HeldByShutdown(s, p);
    assert HeldBy(t, c, taken);
    forall p: nat | p < t.size
      ensures p in t.idle || p in t.closed || HeldByShutdown(t, p) || HeldBySomeone(t, p)
    {
      if p != taken && HeldBySomeone(s, p) {
        var d: CallId :| HeldBy(s, d, p);
        assert HeldBy(t, d, p);
      }
    }
  }

  lemma PutBackPreserves(s: State, t: State, c: CallId)
    requires Inv(s) && Next(s, t, PutBack(c))
    ensures Inv(t)
  {
    var p0 := s.calls[c].p;
    assert HeldBy(s, c, p0);
    assert OthersKeep(s, t, c);
    assert forall p: Parser :: HeldByShutdown(t, p) <==> HeldByShutdown(s, p);
    assert t.idle[|s.idle|] == p0;
    forall p: nat | p < t.size
      ensures p in t.idle || p in t.closed || HeldByShutdown(t, p) || HeldBySomeone(t, p)
    {
      if p in s.idle {
        assert p in t.idle;
      } else if p != p0 && HeldBySomeone(s, p) {
        var d: CallId :| HeldBy(s, d, p);
        assert HeldBy(t, d, p);
      }
    }
  }

  /** A call moves on with what it has. */
  lemma CallMovesPreserves(s: State, t: State, c: CallId)
    requires Inv(s) && t == s.(calls := t.calls) && OthersKeep(s, t, c)
    requires forall p: Parser :: HeldBy(t, c, p) <==> HeldBy(s, c, p)
    ensures Inv(t)
  {
    assert forall p: Parser :: HeldByShutdown(t, p) <==> HeldByShutdown(s, p);
    assert forall d: CallId, p: Parser :: HeldBy(t, d, p) <==> HeldBy(s, d, p);
    forall p: nat | p < t.size && HeldBySomeone(s, p)
      ensures HeldBySomeone(t, p)
    {
      var d: CallId :| HeldBy(s, d, p);
      assert HeldBy(t, d, p);
    }
  }

  lemma ReceivePreserves(s: State, t: State)
    requires Inv(s) && Next(s, t, Receive)
    ensures Inv(t)
  {
    var taken := s.idle[0];
    TakeFirst(s.idle);
    assert forall p: Parser :: HeldByShutdown(t, p) <==> p == taken;
    assert forall d: CallId, p: Parser :: HeldBy(t, d, p) <==> HeldBy(s, d, p);
    forall p: nat | p < t.size
      ensures p in t.idle || p in t.closed || HeldByShutdown(t, p) || HeldBySomeone(t, p)
    {
      if HeldBySomeone(s, p) {
        var d: CallId :| HeldBy(s, d, p);
        assert HeldBy(t, d, p);
      }
    }
  }

  /** At most `n` distinct numbers lie below `n`; if there are `n`, they are all there. */
  lemma {:induction false} AtMostSize(xs: seq<Parser>, n: nat)
    requires Distinct(xs) && forall i :: 0 <= i < |xs| ==> xs[i] < n
    ensures |xs| <= n
    ensures |xs| == n ==> forall p: nat :: p < n ==> p in xs
    decreases n
  {
    assert |xs| > 0 ==> xs[0] < n;
    if n == 0 {
    } else if i :| 0 <= i < |xs| && xs[i] == n - 1 {
      var rest := xs[..i] + xs[i + 1..];
      WithoutOne(xs, i, rest);
      hide Distinct;
      AtMostSize(rest, n - 1);
      assert forall x :: x in rest ==> x in xs;
    } else {
      AtMostSize(xs, n - 1);
    }
  }

  /** Without one of them, distinct numbers stay distinct and the largest is gone. */
  lemma WithoutOne(xs: seq<Parser>, i: nat, rest: seq<Parser>)
    requires Distinct(xs) && i < |xs| && rest == xs[..i] + xs[i + 1..]
    requires forall j :: 0 <= j < |xs| ==> xs[j] <= xs[i]
    ensures Distinct(rest) && forall j :: 0 <= j < |rest| ==> rest[j] < xs[i]
  {
    forall j | 0 <= j < |rest|
      ensures rest[j] == xs[if j < i then j else j + 1] && rest[j] < xs[i]
    {
      var k := if j < i then j else j + 1;
      assert rest[j] == xs[k] && xs[k] != xs[i];
    }
  }

  lemma CloseParserPreserves(s: State, t: State)
    requires Inv(s) && Next(s, t, CloseParser)
    ensures Inv(t)
  {
    var p0 := s.shutdown.holding.value;
    assert HeldByShutdown(s, p0);
    assert forall d: CallId, p: Parser :: HeldBy(t, d, p) <==> HeldBy(s, d, p);
    assert t.closed[|s.closed|] == p0;
    assert forall i :: 0 <= i < |t.closed| ==> t.closed[i] in s.closed || t.closed[i] == p0;
    AtMostSize(t.closed, s.size);
    forall p: nat | p < t.size
      ensures p in t.idle || p in t.closed || HeldByShutdown(t, p) || HeldBySomeone(t, p)
    {
      if p in s.closed {
        assert p in t.closed;
      } else if HeldBySomeone(s, p) {
        var d: CallId :| HeldBy(s, d, p);
        assert HeldBy(t, d, p);
      }
    }
  }

  /** Steps that change neither the calls nor who holds what. */
  lemma FlagsPreserve(s: State, t: State)
    requires Inv(s) && t.idle == s.idle && t.calls == s.calls && t.closed == s.closed && t.size == s.size
    requires forall p: Parser :: HeldByShutdown(t, p) <==> HeldByShutdown(s, p)
    requires DrainedSoFar(t)
    ensures Inv(t)
  {
    assert forall d: CallId, p: Parser :: HeldBy(t, d, p) <==> HeldBy(s, d, p);
    forall p: nat | p < t.size && HeldBySomeone(s, p)
      ensures HeldBySomeone(t, p)
    {
      var d: CallId :| HeldBy(s, d, p);
      assert HeldBy(t, d, p);
    }
  }

  lemma NextPreserves(s: State, t: State, step: Step)
    requires Inv(s) && Next(s, t, step)
    ensures Inv(t)
  {
    match step
    case Acquire(c) => AcquirePreserves(s, t, c);
    case PutBack(c) => PutBackPreserves(s, t, c);
    case Receive => ReceivePreserves(s, t);
    case CloseParser => CloseParserPreserves(s, t);
    case Enter(c) => hide OnePlace; CallMovesPreserves(s, t, c);
    case GiveUp(c) => hide OnePlace; CallMovesPreserves(s, t, c);
    case Recheck(c, cancelled) => hide OnePlace; CallMovesPreserves(s, t, c);
    case Use(c) =>
    case Finish(c) => hide OnePlace; CallMovesPreserves(s, t, c);
    case Swap => hide OnePlace; FlagsPreserve(s, t);
    case LoseSwap => hide OnePlace; FlagsPreserve(s, t);
    case CloseDone => hide OnePlace; FlagsPreserve(s, t);
    case Return => hide OnePlace; FlagsPreserve(s, t);
  }

  // ----- Whole runs

  ghost predicate Run(states: seq<State>, steps: seq<Step>) {
    && |states| == |steps| + 1 && Init(states[0])
    && forall i :: 0 <= i < |steps| ==> Next(states[i], states[i + 1], steps[i])
  }

  lemma {:induction false} RunKeepsInv(states: seq<State>, steps: seq<Step>, k: nat)
    requires Run(states, steps) && k < |states|
    ensures Inv(states[k])
  {
    hide Next, Inv;
    if k == 0 {
      InitInv(states[0]);
    } else {
      RunKeepsInv(states, steps, k - 1);
      assert Next(states[k - 1], states[k - 1 + 1], steps[k - 1]);
      NextPreserves(states[k - 1], states[k], steps[k - 1]);
    }
  }

  /** In every interleaving each parser stays in exactly one place. */
  lemma AlwaysOnePlace(states: seq<State>, steps: seq<Step>)
    requires Run(states, steps)
    ensures forall k :: 0 <= k < |states| ==> OnePlace(states[k])
  {
    forall k | 0 <= k < |states|
      ensures OnePlace(states[k])
    {
      RunKeepsInv(states, steps, k);
    }
  }

  /** Returning a parser never blocks: whenever a call is about to, the channel has room. */
  lemma ReturningNeverBlocks(states: seq<State>, steps: seq<Step>, k: nat, c: CallId)
    requires Run(states, steps) && k < |states|
    requires c in states[k].calls && states[k].calls[c].Returning?
    ensures |states[k].idle| < states[k].size
  {
    var s := states[k];
    RunKeepsInv(states, steps, k);
    assert HeldBy(s, c, s.calls[c].p);
    hide Run;
    var all := s.idle + [s.calls[c].p];
    assert forall i :: 0 <= i < |s.idle| ==> all[i] in s.idle;
    AtMostSize(all, s.size);
  }

  /** No closed parser is used, held or put back, and none is closed twice. */
  lemma ClosedStaysClosed(states: seq<State>, steps: seq<Step>, k: nat, c: CallId)
    requires Run(states, steps) && k < |states|
    ensures Distinct(states[k].closed)
    ensures c in states[k].calls && !states[k].calls[c].Waiting? ==> states[k].calls[c].p !in states[k].closed
    ensures forall p :: p in states[k].closed ==> p !in states[k].idle
  {
    RunKeepsInv(states, steps, k);
    if c in states[k].calls && !states[k].calls[c].Waiting? {
      assert HeldBy(states[k], c, states[k].calls[c].p);
    }
  }

  /** When the Shutdown call that won the swap returns, every parser is closed, no call holds one
      and none is idle. */
  lemma ShutdownClosesAll(states: seq<State>, steps: seq<Step>, k: nat)
    requires Run(states, steps) && k < |states| && states[k].shutdown.Returned?
    ensures forall p: nat :: p < states[k].size ==> p in states[k].closed
    ensures states[k].idle == [] && forall c: CallId, p: Parser :: !HeldBy(states[k], c, p)
  {
    var s := states[k];
    RunKeepsInv(states, steps, k);
    hide Run;
    assert forall i :: 0 <= i < |s.closed| ==> s.closed[i] in s.closed;
    AtMostSize(s.closed, s.size);
    var all := s.idle + s.closed;
    assert forall i :: 0 <= i < |all| ==> all[i] in s.idle || all[i] in s.closed;
    assert forall i :: 0 <= i < |s.idle| ==> s.idle[i] in s.idle;
    AtMostSize(all, s.size);
  }

  /** Shutdown waits only for running calls: if it finds the channel empty before it has drained
      every parser, some call still holds one and will return it. */
  lemma ShutdownWaitsForACall(states: seq<State>, steps: seq<Step>, k: nat)
    requires Run(states, steps) && k < |states|
    requires states[k].shutdown.Draining? && states[k].shutdown.holding.None?
    requires states[k].shutdown.received < states[k].size && states[k].idle == []
    ensures exists c: CallId, p: Parser :: HeldBy(states[k], c, p)
  {
    var s := states[k];
    RunKeepsInv(states, steps, k);
    hide Run;
    assert !forall p: nat :: p < s.size ==> p in s.closed by {
      if forall p: nat :: p < s.size ==> p in s.closed { TooFew(s.closed, s.size); }
    }
    var p: nat :| p < s.size && p !in s.closed;
    assert HeldBySomeone(s, p);
  }

  lemma {:induction false} TooFew(xs: seq<Parser>, n: nat)
    requires forall p: nat :: p < n ==> p in xs
    ensures |xs| >= n
  {
    if n > 0 {
      assert n - 1 in xs;
      var i :| 0 <= i < |xs| && xs[i] == n - 1;
      var rest := xs[..i] + xs[i + 1..];
      forall p: nat | p < n - 1
        ensures p in rest
      {
        assert p in xs;
        var j :| 0 <= j < |xs| && xs[j] == p;
        assert rest[if j < i then j else j - 1] == p;
      }
      TooFew(rest, n - 1);
    }
  }

  /** Once the pool is shut down no call enters it, and none that is inside starts to parse: whatever
      parser it got goes back unused. */
  lemma NoUseAfterShutdown(states: seq<State>, steps: seq<Step>, k: nat, c: CallId)
    requires Run(states, steps) && k < |steps| && !states[k].shutdown.NotCalled?
    ensures states[k].closedFlag && states[k + 1].closedFlag
    ensures c in states[k + 1].calls ==> c in states[k].calls
    ensures c in states[k + 1].calls && states[k + 1].calls[c].Using? ==> states[k + 1].calls[c] == states[k].calls[c]
  {
    RunKeepsInv(states, steps, k);
    RunKeepsInv(states, steps, k + 1);
    assert Next(states[k], states[k + 1], steps[k]);
    hide OnePlace;
  }

  /** A call can enter exactly until the pool is shut down; a waiting call gets the first idle parser
      whenever there is one; the first Shutdown call wins and every later one loses. */
  lemma StepsDecide(s: State, c: CallId)
    ensures (exists t :: Next(s, t, Enter(c))) <==> c !in s.calls && !s.closedFlag
    ensures (exists t :: Next(s, t, Acquire(c))) <==> c in s.calls && s.calls[c].Waiting? && s.idle != []
    ensures forall t :: Next(s, t, Acquire(c)) ==> c in t.calls && t.calls[c] == Acquired(s.idle[0]) && t.idle == s.idle[1..]
    ensures (exists t :: Next(s, t, Swap)) <==> !s.closedFlag
    ensures (exists t :: Next(s, t, LoseSwap)) <==> s.closedFlag
  {
    assert c !in s.calls && !s.closedFlag ==> Next(s, s.(calls := s.calls[c := Waiting]), Enter(c));
    if c in s.calls && s.calls[c].Waiting? && s.idle != [] {
      assert Next(s, s.(idle := s.idle[1..], calls := s.calls[c := Acquired(s.idle[0])]), Acquire(c));
    }
    assert !s.closedFlag ==> Next(s, s.(closedFlag := true, shutdown := Won), Swap);
    assert s.closedFlag ==> Next(s, s.(lost := s.lost + 1), LoseSwap);
  }

  /** Shutdown takes idle parsers until it has had as many as the pool has, closes each, and returns
      exactly when all are done; a parser that is to be returned can be whenever the channel has room. */
  lemma ShutdownDecides(s: State, c: CallId)
    ensures (exists t :: Next(s, t, CloseDone)) <==> s.shutdown.Won?
    ensures (exists t :: Next(s, t, Receive)) <==>
              s.shutdown.Draining? && s.shutdown.holding.None? && s.shutdown.received < s.size && s.idle != []
    ensures (exists t :: Next(s, t, CloseParser)) <==> s.shutdown.Draining? && s.shutdown.holding.Some?
    ensures (exists t :: Next(s, t, Return)) <==> s.shutdown == Draining(s.size, None)
    ensures (exists t :: Next(s, t, PutBack(c))) <==> c in s.calls && s.calls[c].Returning? && |s.idle| < s.size
  {
    if s.shutdown.Won? { assert Next(s, s.(shutdown := Draining(0, None)), CloseDone); }
    if s.shutdown == Draining(s.size, None) { assert Next(s, s.(shutdown := Returned), Return); }
    if s.shutdown.Draining? && s.shutdown.holding.None? && s.shutdown.received < s.size && s.idle != [] {
      assert Next(s, s.(idle := s.idle[1..], shutdown := Draining(s.shutdown.received, Some(s.idle[0]))), Receive);
    }
    if s.shutdown.Draining? && s.shutdown.holding.Some? {
      assert Next(s, s.(shutdown := Draining(s.shutdown.received + 1, None), closed := s.closed + [s.shutdown.holding.value]), CloseParser);
    }
    if c in s.calls && s.calls[c].Returning? && |s.idle| < s.size {
      assert Next(s, s.(idle := s.idle + [s.calls[c].p], calls := s.calls - {c}), PutBack(c));
    }
  }

  /** Before that, a call that got a parser uses it unless it was cancelled. */
  lemma RecheckDecides(s: State, t: State, c: CallId, cancelled: bool)
    requires Next(s, t, Recheck(c, cancelled))
    ensures c in t.calls && t.calls[c] == if s.closedFlag || cancelled then Returning(s.calls[c].p) else Using(s.calls[c].p)
  {
  }

  /** A call leaves the pool only with nothing in its hands: while waiting, or by putting its parser back. */
  lemma CallsReturnTheirParser(s: State, t: State, step: Step, c: CallId)
    requires Next(s, t, step) && c in s.calls && c !in t.calls
    ensures s.calls[c].Waiting? || (s.calls[c].Returning? && t.idle == s.idle + [s.calls[c].p])
  {
  }

  ghost predicate AllClosed(s: State) {
    forall p: nat :: p < s.size ==> p in s.closed
  }

  /** The Shutdown call that won the swap has closed its last parser. */
  predicate Drained(s: State) {
    s.shutdown.Returned? || s.shutdown == Draining(s.size, None)
  }

  lemma ClosedIsNotHeld(s: State, p: Parser)
    requires OnePlace(s) && AllClosed(s)
    ensures !HeldByShutdown(s, p)
  {
  }

  /** In every reachable state, all parsers are closed exactly when the winner has drained the pool. */
  lemma AllClosedExactly(states: seq<State>, steps: seq<Step>, k: nat)
    requires Run(states, steps) && k < |states|
    ensures AllClosed(states[k]) <==> Drained(states[k])
  {
    var s := states[k];
    RunKeepsInv(states, steps, k);
    hide Run;
    if AllClosed(s) {
      TooFew(s.closed, s.size);
      if s.shutdown.Draining? && s.shutdown.holding.Some? {
        ClosedIsNotHeld(s, s.shutdown.holding.value);
      }
    }
    if Drained(s) {
      assert forall i :: 0 <= i < |s.closed| ==> s.closed[i] in s.closed;
      AtMostSize(s.closed, s.size);
    }
  }

  /** A Shutdown call that loses the swap returns with all parsers closed exactly when the winner
      was done by then; the winner itself always does. */
  lemma LosingReturn(states: seq<State>, steps: seq<Step>, k: nat)
    requires Run(states, steps) && k < |steps| && steps[k] == LoseSwap
    ensures AllClosed(states[k + 1]) <==> Drained(states[k])
  {
    assert Next(states[k], states[k + 1], steps[k]);
    AllClosedExactly(states, steps, k + 1);
  }

  /** In a pool of any size, a losing call can return before a single parser is closed. */
  lemma LoserMayReturnFirst(size: nat) returns (states: seq<State>, steps: seq<Step>)
    requires size >= 1
    ensures Run(states, steps) && states[0].size == size && steps == [Swap, LoseSwap]
    ensures var last := states[|states| - 1]; last.closed == [] && !AllClosed(last)
  {
    var s0 := State(size, seq(size, i => i), map[], false, NotCalled, [], 0);
    var s1 := s0.(closedFlag := true, shutdown := Won);
    var s2 := s1.(lost := 1);
    states, steps := [s0, s1, s2], [Swap, LoseSwap];
    AllClosedExactly(states, steps, 2);
  }
}
