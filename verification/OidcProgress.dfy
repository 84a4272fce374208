// The lock around the provider cache never stands in the way for long: no guard is held while its
// owner awaits the network, and every run of the protocol is short and can be completed.

module OidcProgress {
  import opened Options
  import opened OidcFlow
  import opened OidcRuns

  // ---------- Who holds a guard ----------

  predicate Writes(pc: Pc) {
    pc.Writing? || pc.Emptying?
  }

  predicate Holds(s: State, i: nat) {
    i in s.lock.readers || s.lock.writer == Some(i)
  }

  /** The guards are held by exactly those requests that are at work on the cache, and a write guard
      excludes all others. */
  ghost predicate LockOk(s: State) {
    && (forall w: nat :: w in s.lock.readers <==> w < |s.locals| && s.locals[w].pc.Reading?)
    && (forall w: nat :: s.lock.writer == Some(w) <==> w < |s.locals| && Writes(s.locals[w].pc))
    && (s.lock.writer.Some? ==> s.lock.readers == {})
  }

  /** What a step does to the lock. */
  lemma GuardStep(env: Env, l: Local, cache: Option<Provider>, lock: Lock, input: Input)
    requires Advance(env, l, cache, lock, input).Some?
    ensures var e := Advance(env, l, cache, lock, input).value;
            match e.guard
            case Same => !l.pc.Reading? && !Writes(l.pc) && !e.pc.Reading? && !Writes(e.pc)
            case TakeRead => lock.writer == None && e.pc.Reading?
            case DropRead => l.pc.Reading? && !e.pc.Reading? && !Writes(e.pc)
            case TakeWrite => lock == FREE && Writes(e.pc)
            case DropWrite => Writes(l.pc) && !e.pc.Reading? && !Writes(e.pc)
  {
  }

  lemma StepKeepsLock(env: Env, s: State, m: Move)
    requires LockOk(s) && Step(env, s, m).Some?
    ensures LockOk(Step(env, s, m).value)
  {
    GuardStep(env, s.locals[m.who], s.cache, s.lock, m.input);
  }

  lemma {:induction false} RunKeepsLock(env: Env, s: State, moves: seq<Move>)
    requires LockOk(s) && Exec(env, s, moves).Some?
    ensures LockOk(Exec(env, s, moves).value)
    decreases |moves|
  {
    if moves != [] {
      StepKeepsLock(env, s, moves[0]);
      RunKeepsLock(env, Step(env, s, moves[0]).value, moves[1..]);
    }
  }

  lemma ReachableLock(env: Env, requests: seq<Request>, s: State)
    requires Reachable(env, requests, s)
    ensures LockOk(s)
  {
    var moves :| Exec(env, Init(requests), moves) == Some(s);
    RunKeepsLock(env, Init(requests), moves);
  }

  predicate AwaitsNetwork(pc: Pc) {
    pc.Discovering? || pc.Exchanging?
  }

  lemma HolderReleases(env: Env, s: State, i: nat)
    requires LockOk(s) && Holds(s, i)
    ensures i < |s.locals| && !AwaitsNetwork(s.locals[i].pc) && Step(env, s, Move(i, Tick)).Some?
    ensures var t := Step(env, s, Move(i, Tick)).value;
            && |t.locals| == |s.locals|
            && t.lock.readers == s.lock.readers - {i}
            && t.lock.writer == (if s.lock.writer == Some(i) then None else s.lock.writer)
            && forall w :: 0 <= w < |s.locals| && w != i ==> t.locals[w] == s.locals[w]
  {
  }

  /** No guard is held across an await: whoever holds one is not waiting for the network, can go on at
      once, and has given the guard back after that step. Writers exclude readers and each other. */
  lemma NoGuardAcrossAwait(env: Env, requests: seq<Request>, s: State, i: nat)
    requires Reachable(env, requests, s) && Holds(s, i)
    ensures i < |s.locals| && !AwaitsNetwork(s.locals[i].pc) && !s.locals[i].pc.Done?
    ensures Step(env, s, Move(i, Tick)).Some? && !Holds(Step(env, s, Move(i, Tick)).value, i)
    ensures s.lock.writer == Some(i) ==> forall w: nat :: Holds(s, w) ==> w == i
  {
    ReachableLock(env, requests, s);
    HolderReleases(env, s, i);
  }

  // ---------- Waiting for a guard ----------

  /** The request can go on at once, or with every answer of the network it is waiting for. */
  ghost predicate CanGoOn(env: Env, s: State, i: nat)
    requires i < |s.locals|
  {
    match s.locals[i].pc
    case Discovering(_) => forall p :: Step(env, s, Move(i, Discovered(p))).Some?
    case Exchanging(_) => forall a :: Step(env, s, Move(i, Exchanged(a))).Some?
    case _ =>
      Step(env, s, Move(i, Tick)).Some? || forall a, b, c :: Step(env, s, Move(i, Random(a, b, c))).Some?
  }

  lemma BlockedByGuard(env: Env, s: State, i: nat)
    requires i < |s.locals| && !s.locals[i].pc.Done?
    ensures CanGoOn(env, s, i) || s.lock.readers != {} || s.lock.writer.Some?
  {
  }

  function Guards(lock: Lock): nat {
    |lock.readers| + if lock.writer.Some? then 1 else 0
  }

  lemma {:induction false} Release(env: Env, s: State, i: nat) returns (moves: seq<Move>)
    requires LockOk(s) && i < |s.locals| && !s.locals[i].pc.Done?
    ensures forall m | m in moves :: m.input == Tick && m.who != i && Holds(s, m.who)
    ensures |moves| <= Guards(s.lock)
    ensures Exec(env, s, moves).Some?
    ensures var t := Exec(env, s, moves).value;
            |t.locals| == |s.locals| && t.locals[i] == s.locals[i] && CanGoOn(env, t, i)
    decreases Guards(s.lock)
  {
    BlockedByGuard(env, s, i);
    if CanGoOn(env, s, i) {
      return [];
    }
    var w: nat;
    if s.lock.writer.Some? {
      w := s.lock.writer.value;
    } else {
      w :| w in s.lock.readers;
    }
    assert Holds(s, w);
    HolderReleases(env, s, w);
    var m := Move(w, Tick);
    var t := Step(env, s, m).value;
    StepKeepsLock(env, s, m);
    var rest := Release(env, t, i);
    moves := [m] + rest;
    assert moves[1..] == rest;
  }

  /** A request waits for no other one but to give back a guard: from every reachable state, one step
      each of requests that hold a guard, without any answer of the network, lets it go on. */
  lemma NeverBlocked(env: Env, requests: seq<Request>, s: State, i: nat) returns (moves: seq<Move>)
    requires Reachable(env, requests, s) && i < |s.locals| && !s.locals[i].pc.Done?
    ensures forall m | m in moves :: m.input == Tick && m.who != i && Holds(s, m.who)
    ensures |moves| <= Guards(s.lock)
    ensures Exec(env, s, moves).Some?
    ensures var t := Exec(env, s, moves).value;
            |t.locals| == |s.locals| && t.locals[i] == s.locals[i] && CanGoOn(env, t, i)
  {
    ReachableLock(env, requests, s);
    moves := Release(env, s, i);
  }

  // ---------- Every run is short and can be completed ----------

  /** How many steps a request has left at most. */
  function Rank(pc: Pc): nat {
    match pc
    case Start => 17
    case Lookup(phase) => if phase.First? then 16 else 6
    case Reading(phase) => if phase.First? then 15 else 5
    case Discovering(phase) => if phase.First? then 14 else 4
    case Storing(phase, _) => if phase.First? then 13 else 3
    case Writing(phase, _) => if phase.First? then 12 else 2
    case HasProvider(phase, _) => if phase.First? then 11 else 1
    case Exchanging(_) => 10
    case Validating(_, _) => 9
    case Clearing(_) => 8
    case Emptying(_) => 7
    case Done(_) => 0
  }

  function Potential(locals: seq<Local>): nat {
    if locals == [] then 0 else Rank(locals[0].pc) + Potential(locals[1..])
  }

  lemma {:induction false} PotentialUpdate(locals: seq<Local>, i: nat, l: Local)
    requires i < |locals|
    ensures Potential(locals[i := l]) + Rank(locals[i].pc) == Potential(locals) + Rank(l.pc)
  {
    if i == 0 {
      assert locals[0 := l][1..] == locals[1..];
    } else {
      assert locals[i := l][1..] == locals[1..][i - 1 := l];
      PotentialUpdate(locals[1..], i - 1, l);
    }
  }

  lemma RankLowers(env: Env, l: Local, cache: Option<Provider>, lock: Lock, input: Input)
    requires Advance(env, l, cache, lock, input).Some?
    ensures Rank(Advance(env, l, cache, lock, input).value.pc) < Rank(l.pc)
  {
  }

  lemma StepLowers(env: Env, s: State, m: Move)
    requires Step(env, s, m).Some?
    ensures Potential(Step(env, s, m).value.locals) < Potential(s.locals)
  {
    var l := s.locals[m.who];
    var e := Advance(env, l, s.cache, s.lock, m.input).value;
    RankLowers(env, l, s.cache, s.lock, m.input);
    PotentialUpdate(s.locals, m.who, Moved(l, e, m.input));
  }

  lemma {:induction false} RunLowers(env: Env, s: State, moves: seq<Move>)
    requires Exec(env, s, moves).Some?
    ensures |moves| + Potential(Exec(env, s, moves).value.locals) <= Potential(s.locals)
    decreases |moves|
  {
    if moves != [] {
      StepLowers(env, s, moves[0]);
      RunLowers(env, Step(env, s, moves[0]).value, moves[1..]);
    }
  }

  lemma {:induction false} InitialPotential(locals: seq<Local>)
    requires forall l | l in locals :: l.pc.Start?
    ensures Potential(locals) == 17 * |locals|
  {
    if locals != [] {
      assert locals[0] in locals;
      InitialPotential(locals[1..]);
    }
  }

  /** Every run is over after at most seventeen steps for each request. */
  lemma RunsAreShort(env: Env, requests: seq<Request>, moves: seq<Move>)
    requires Exec(env, Init(requests), moves).Some?
    ensures |moves| <= 17 * |requests|
  {
    InitialPotential(Init(requests).locals);
    RunLowers(env, Init(requests), moves);
  }

  predicate AllDone(s: State) {
    forall i :: 0 <= i < |s.locals| ==> s.locals[i].pc.Done?
  }

  function Answer(pc: Pc): Input {
    if pc.Discovering? then Discovered(None) else if pc.Exchanging? then Exchanged(NoIdToken) else Tick
  }

  lemma {:induction false} Complete(env: Env, s: State) returns (moves: seq<Move>)
    requires LockOk(s)
    ensures Exec(env, s, moves).Some? && AllDone(Exec(env, s, moves).value)
    decreases Potential(s.locals)
  {
    if AllDone(s) {
      return [];
    }
    var i: nat :| i < |s.locals| && !s.locals[i].pc.Done?;
    var before := Release(env, s, i);
    var t := Exec(env, s, before).value;
    RunKeepsLock(env, s, before);
    RunLowers(env, s, before);
    var m := Move(i, Answer(s.locals[i].pc));
    if Step(env, t, m) == None {
      m := Move(i, Random("", "", ""));
    }
    StepLowers(env, t, m);
    StepKeepsLock(env, t, m);
    var rest := Complete(env, Step(env, t, m).value);
    moves := before + ([m] + rest);
    assert ([m] + rest)[1..] == rest;
    ExecAppend(env, s, before, [m] + rest);
  }

  lemma {:induction false} ExecAppend(env: Env, s: State, a: seq<Move>, b: seq<Move>)
    requires Exec(env, s, a).Some?
    ensures Exec(env, s, a + b) == Exec(env, Exec(env, s, a).value, b)
    decreases |a|
  {
    if a == [] {
      assert a + b == b;
    } else {
      assert (a + b)[1..] == a[1..] + b;
      ExecAppend(env, Step(env, s, a[0]).value, a[1..], b);
    }
  }

  /** From every reachable state the requests can be completed: there is no deadlock. */
  lemma CanFinish(env: Env, requests: seq<Request>, s: State) returns (moves: seq<Move>)
    requires Reachable(env, requests, s)
    ensures Exec(env, s, moves).Some? && AllDone(Exec(env, s, moves).value)
  {
    ReachableLock(env, requests, s);
    moves := Complete(env, s);
  }
}
