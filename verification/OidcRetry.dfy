// Does the retry of a callback work with keys that were requested after it cleared the cache?

module OidcRetry {
  import opened Options
  import opened OidcFlow
  import opened OidcRuns
  import opened OidcProgress

  /** Some discovery that began at or after position `mark` of the log returned the provider; a
      request has one discovery under way at a time. */
  ghost predicate FetchedSince(log: seq<Event>, mark: nat, p: Provider) {
    exists j, k, who ::
      mark <= j < k < |log| && log[j] == Event(who, Started) && log[k] == Event(who, Fetched(p))
  }

  ghost predicate StartedSince(log: seq<Event>, mark: nat, who: nat) {
    exists j :: mark <= j < |log| && log[j] == Event(who, Started)
  }

  predicate Stores(pc: Pc) {
    pc.Storing? || pc.Writing?
  }

  /** Whatever the request has asked for, or holds to be stored, is new. */
  ghost predicate RequestNew(log: seq<Event>, mark: nat, who: nat, l: Local) {
    && (l.pc.Discovering? ==> StartedSince(log, mark, who))
    && (Stores(l.pc) ==> FetchedSince(log, mark, l.pc.provider))
  }

  ghost predicate CacheNew(log: seq<Event>, mark: nat, cache: Option<Provider>) {
    cache.Some? ==> FetchedSince(log, mark, cache.value)
  }

  /** The callback retries with nothing but new keys, or is done. */
  ghost predicate RetryNew(log: seq<Event>, mark: nat, l: Local) {
    && l.request.Callback?
    && (Retrying(l.pc) || l.pc.Done?)
    && (l.pc.HasProvider? ==> FetchedSince(log, mark, l.pc.provider))
  }

  ghost predicate AllNew(s: State, mark: nat, i: nat) {
    && i < |s.locals| && mark <= |s.log|
    && CacheNew(s.log, mark, s.cache)
    && (forall w :: 0 <= w < |s.locals| ==> RequestNew(s.log, mark, w, s.locals[w]))
    && RetryNew(s.log, mark, s.locals[i])
  }

  lemma SinceGrows(log: seq<Event>, e: Event, mark: nat)
    requires mark <= |log|
    ensures forall p | FetchedSince(log, mark, p) :: FetchedSince(log + [e], mark, p)
    ensures forall w | StartedSince(log, mark, w) :: StartedSince(log + [e], mark, w)
    ensures e.what.Started? ==> StartedSince(log + [e], mark, e.who)
    ensures e.what.Fetched? && StartedSince(log, mark, e.who) ==> FetchedSince(log + [e], mark, e.what.provider)
  {
    var all := log + [e];
    assert all[|log|] == e && forall j :: 0 <= j < |log| ==> all[j] == log[j];
    forall p | FetchedSince(log, mark, p) ensures FetchedSince(all, mark, p) {
      var j, k, who :|
        mark <= j < k < |log| && log[j] == Event(who, Started) && log[k] == Event(who, Fetched(p));
      assert all[j] == log[j] && all[k] == log[k];
    }
    forall w | StartedSince(log, mark, w) ensures StartedSince(all, mark, w) {
      var j :| mark <= j < |log| && log[j] == Event(w, Started);
      assert all[j] == log[j];
    }
    if e.what.Fetched? && StartedSince(log, mark, e.who) {
      var j :| mark <= j < |log| && log[j] == Event(e.who, Started);
      assert all[j] == log[j];
    }
  }

  /** The log after a step still shows what was new before. */
  lemma StillNew(log: seq<Event>, who: nat, what: Option<What>, mark: nat)
    requires mark <= |log|
    ensures forall p | FetchedSince(log, mark, p) :: FetchedSince(Logged(log, who, what), mark, p)
    ensures forall w | StartedSince(log, mark, w) :: StartedSince(Logged(log, who, what), mark, w)
  {
    if what.Some? {
      SinceGrows(log, Event(who, what.value), mark);
    }
  }

  lemma NewOwn(env: Env, log: seq<Event>, mark: nat, who: nat, l: Local, cache: Option<Provider>, lock: Lock,
               input: Input)
    requires Advance(env, l, cache, lock, input).Some? && mark <= |log|
    requires RequestNew(log, mark, who, l) && CacheNew(log, mark, cache)
    ensures var e := Advance(env, l, cache, lock, input).value;
            RequestNew(Logged(log, who, e.event), mark, who, Moved(l, e, input))
            && CacheNew(Logged(log, who, e.event), mark, e.cache)
  {
    var e := Advance(env, l, cache, lock, input).value;
    StillNew(log, who, e.event, mark);
    if e.event.Some? {
      SinceGrows(log, Event(who, e.event.value), mark);
    }
  }

  lemma NewRetry(env: Env, log: seq<Event>, mark: nat, who: nat, l: Local, cache: Option<Provider>, lock: Lock,
                 input: Input)
    requires Advance(env, l, cache, lock, input).Some? && mark <= |log|
    requires RequestNew(log, mark, who, l) && CacheNew(log, mark, cache) && RetryNew(log, mark, l)
    ensures var e := Advance(env, l, cache, lock, input).value;
            RetryNew(Logged(log, who, e.event), mark, Moved(l, e, input))
  {
    StillNew(log, who, Advance(env, l, cache, lock, input).value.event, mark);
  }

  lemma NewStep(env: Env, s: State, mark: nat, i: nat, m: Move)
    requires AllNew(s, mark, i) && Step(env, s, m).Some?
    ensures AllNew(Step(env, s, m).value, mark, i)
  {
    var l := s.locals[m.who];
    var e := Advance(env, l, s.cache, s.lock, m.input).value;
    NewOwn(env, s.log, mark, m.who, l, s.cache, s.lock, m.input);
    StillNew(s.log, m.who, e.event, mark);
    if m.who == i {
      NewRetry(env, s.log, mark, i, l, s.cache, s.lock, m.input);
    }
  }

  lemma {:induction false} NewRun(env: Env, s: State, mark: nat, i: nat, moves: seq<Move>)
    requires AllNew(s, mark, i) && Exec(env, s, moves).Some?
    ensures AllNew(Exec(env, s, moves).value, mark, i)
    decreases |moves|
  {
    if moves != [] {
      NewStep(env, s, mark, i, moves[0]);
      NewRun(env, Step(env, s, moves[0]).value, mark, i, moves[1..]);
    }
  }

  /** Request `i` is about to check its token again, with a provider that no discovery begun since
      the mark returned. */
  ghost predicate RetriesStale(s: State, mark: nat, i: nat) {
    && i < |s.locals| && s.locals[i].pc.HasProvider? && s.locals[i].pc.phase.Retry?
    && !FetchedSince(s.log, mark, s.locals[i].pc.provider)
  }

  /** Some run from `s` leads there. */
  ghost predicate CanRetryStale(env: Env, s: State, mark: nat, i: nat) {
    exists moves :: Exec(env, s, moves).Some? && RetriesStale(Exec(env, s, moves).value, mark, i)
  }

  /** The request has begun a discovery whose result it has not cached yet. */
  predicate UnderWay(pc: Pc) {
    pc.Discovering? || pc.Storing?
  }

  /** Clearing the cache does not always bring newer keys: the retry can end up with a provider
      that was asked for before the clearing exactly when, at the moment of the clearing, some other
      request has a discovery under way or has not stored its result yet. */
  lemma StaleRetryIff(env: Env, requests: seq<Request>, s: State, i: nat)
    requires Reachable(env, requests, s) && i < |s.locals| && s.locals[i].pc.Emptying?
    ensures var t := Step(env, s, Move(i, Tick));
            && t.Some?
            && (CanRetryStale(env, t.value, |t.value.log|, i)
                <==> exists w :: 0 <= w < |s.locals| && UnderWay(s.locals[w].pc))
  {
    AfterClearing(env, requests, s, i);
    var t := Step(env, s, Move(i, Tick)).value;
    var mark := |t.log|;
    if w :| 0 <= w < |s.locals| && UnderWay(s.locals[w].pc) {
      if s.locals[w].pc.Discovering? {
        StaleDiscovery(env, t, mark, w, i);
      } else {
        StaleStore(env, t, mark, w, i);
      }
    } else if CanRetryStale(env, t, mark, i) {
      var moves :| Exec(env, t, moves).Some? && RetriesStale(Exec(env, t, moves).value, mark, i);
      NewRun(env, t, mark, i, moves);
    }
  }

  lemma AfterClearing(env: Env, requests: seq<Request>, s: State, i: nat)
    requires Reachable(env, requests, s) && i < |s.locals| && s.locals[i].pc.Emptying?
    ensures var t := Step(env, s, Move(i, Tick));
            && t.Some? && t.value.lock == FREE && t.value.cache == None && |t.value.locals| == |s.locals|
            && t.value.locals[i].pc == Lookup(Retry(s.locals[i].pc.token)) && t.value.locals[i].request.Callback?
            && (forall w :: 0 <= w < |s.locals| && w != i ==> t.value.locals[w] == s.locals[w])
            && (forall w :: 0 <= w < |s.locals| ==> !s.locals[w].pc.Writing?)
  {
    HoldsAlone(env, requests, s, i);
    StepKeepsLock(env, s, Move(i, Tick));
  }

  lemma HoldsAlone(env: Env, requests: seq<Request>, s: State, i: nat)
    requires Reachable(env, requests, s) && i < |s.locals| && s.locals[i].pc.Emptying?
    ensures s.locals[i].request.Callback? && LockOk(s) && s.lock == Lock({}, Some(i))
    ensures forall w :: 0 <= w < |s.locals| ==> !s.locals[w].pc.Writing?
  {
    ReachableInv(env, requests, s);
    ReachableLock(env, requests, s);
    assert LocalOk(env, s.locals[i]);
    assert s.lock.writer == Some(i);
    forall w: nat | w < |s.locals| ensures !s.locals[w].pc.Writing? {
      assert s.lock.writer == Some(w) <==> Writes(s.locals[w].pc);
    }
  }

  ghost predicate NoneStarted(log: seq<Event>, mark: nat) {
    forall j :: mark <= j < |log| ==> !log[j].what.Started?
  }

  lemma Before(env: Env, s: State, m: Move, mark: nat, i: nat)
    requires Step(env, s, m).Some? && CanRetryStale(env, Step(env, s, m).value, mark, i)
    ensures CanRetryStale(env, s, mark, i)
  {
    var t := Step(env, s, m).value;
    var moves :| Exec(env, t, moves).Some? && RetriesStale(Exec(env, t, moves).value, mark, i);
    assert ([m] + moves)[1..] == moves;
    assert Exec(env, s, [m] + moves) == Exec(env, t, moves);
  }

  lemma AtOnce(env: Env, s: State, mark: nat, i: nat)
    requires RetriesStale(s, mark, i)
    ensures CanRetryStale(env, s, mark, i)
  {
    assert Exec(env, s, []) == Some(s);
  }

  /** The retry reads the cache the other request has just filled. */
  lemma StaleRead(env: Env, s: State, mark: nat, i: nat)
    requires i < |s.locals| && s.lock == FREE && s.cache.Some? && NoneStarted(s.log, mark)
    requires s.locals[i].pc.Lookup? && s.locals[i].pc.phase.Retry?
    ensures CanRetryStale(env, s, mark, i)
  {
    var m := Move(i, Tick);
    var t := Step(env, s, m).value;
    var u := Step(env, t, m).value;
    assert u.log == s.log;
    AtOnce(env, u, mark, i);
    Before(env, t, m, mark, i);
    Before(env, s, m, mark, i);
  }

  /** The other request stores what it discovered. */
  lemma StaleStore(env: Env, s: State, mark: nat, w: nat, i: nat)
    requires w < |s.locals| && i < |s.locals| && s.lock == FREE && NoneStarted(s.log, mark)
    requires s.locals[w].pc.Storing? && s.locals[i].pc.Lookup? && s.locals[i].pc.phase.Retry?
    ensures CanRetryStale(env, s, mark, i)
  {
    var m := Move(w, Tick);
    var t := Step(env, s, m).value;
    var u := Step(env, t, m).value;
    StaleRead(env, u, mark, i);
    Before(env, t, m, mark, i);
    Before(env, s, m, mark, i);
  }

  /** The discovery the other request began before the clearing is answered. */
  lemma StaleDiscovery(env: Env, s: State, mark: nat, w: nat, i: nat)
    requires w < |s.locals| && i < |s.locals| && s.lock == FREE && NoneStarted(s.log, mark)
    requires s.locals[w].pc.Discovering? && s.locals[i].pc.Lookup? && s.locals[i].pc.phase.Retry?
    ensures CanRetryStale(env, s, mark, i)
  {
    var m := Move(w, Discovered(Some(Provider({}, false, None))));
    StaleStore(env, Step(env, s, m).value, mark, w, i);
    Before(env, s, m, mark, i);
  }

  // ---------- Such runs exist ----------

  lemma ReachOn(env: Env, requests: seq<Request>, s: State, m: Move)
    requires Reachable(env, requests, s) && Step(env, s, m).Some?
    ensures Reachable(env, requests, Step(env, s, m).value)
  {
    var moves :| Exec(env, Init(requests), moves) == Some(s);
    ExecAppend(env, Init(requests), moves, [m]);
    assert [m][1..] == [];
  }

  /** A callback about to fetch its first provider comes to clear the cache when it is given keys
      that lack the key of its token, whatever the other requests are doing meanwhile. */
  lemma ComesToClear(env: Env, requests: seq<Request>, s: State, i: nat, given: Provider, token: Token)
    returns (t: State)
    requires Reachable(env, requests, s) && i < |s.locals| && s.lock == FREE
    requires s.locals[i].pc == Discovering(First) && s.locals[i].request.Callback?
    requires given.tokenEndpoint && Check(env, s.locals[i].request, given, token) == NoMatchingKey
    ensures Reachable(env, requests, t) && |t.locals| == |s.locals| && t.locals[i].pc == Emptying(token)
    ensures forall w :: 0 <= w < |s.locals| && w != i ==> t.locals[w] == s.locals[w]
  {
    var a := StoresOwn(env, requests, s, i, given);
    var b := GetsToken(env, requests, a, i, given, token);
    t := TakesWrite(env, requests, b, i, token);
  }

  lemma StoresOwn(env: Env, requests: seq<Request>, s: State, i: nat, given: Provider) returns (t: State)
    requires Reachable(env, requests, s) && i < |s.locals| && s.lock == FREE && s.locals[i].pc == Discovering(First)
    ensures Reachable(env, requests, t) && |t.locals| == |s.locals| && t.lock == FREE
    ensures t.locals[i].pc == HasProvider(First, given) && t.locals[i].request == s.locals[i].request
    ensures forall w :: 0 <= w < |s.locals| && w != i ==> t.locals[w] == s.locals[w]
  {
    var a := Follow(env, requests, s, i, Discovered(Some(given)));
    assert a.locals[i].pc == Storing(First, given) && a.lock == FREE;
    t := StoresWaiting(env, requests, a, i, given);
  }

  lemma StoresWaiting(env: Env, requests: seq<Request>, s: State, i: nat, given: Provider) returns (t: State)
    requires Reachable(env, requests, s) && i < |s.locals| && s.lock == FREE && s.locals[i].pc == Storing(First, given)
    ensures Reachable(env, requests, t) && |t.locals| == |s.locals| && t.lock == FREE
    ensures t.locals[i].pc == HasProvider(First, given) && t.locals[i].request == s.locals[i].request
    ensures forall w :: 0 <= w < |s.locals| && w != i ==> t.locals[w] == s.locals[w]
  {
    var a := Follow(env, requests, s, i, Tick);
    assert a.locals[i].pc == Writing(First, given) && a.lock == Lock({}, Some(i));
    t := Follow(env, requests, a, i, Tick);
  }

  lemma GetsToken(env: Env, requests: seq<Request>, s: State, i: nat, given: Provider, token: Token) returns (t: State)
    requires Reachable(env, requests, s) && i < |s.locals| && s.lock == FREE && given.tokenEndpoint
    requires s.locals[i].pc == HasProvider(First, given) && s.locals[i].request.Callback?
    ensures Reachable(env, requests, t) && |t.locals| == |s.locals| && t.lock == FREE
    ensures t.locals[i].pc == Validating(given, token) && t.locals[i].request == s.locals[i].request
    ensures forall w :: 0 <= w < |s.locals| && w != i ==> t.locals[w] == s.locals[w]
  {
    var a := Follow(env, requests, s, i, Tick);
    assert a.locals[i].pc == Exchanging(given) && a.lock == FREE;
    t := Follow(env, requests, a, i, Exchanged(IdToken(token)));
  }

  lemma TakesWrite(env: Env, requests: seq<Request>, s: State, i: nat, token: Token) returns (t: State)
    requires Reachable(env, requests, s) && i < |s.locals| && s.lock == FREE && s.locals[i].pc.Validating?
    requires s.locals[i].pc.token == token
    requires Check(env, s.locals[i].request, s.locals[i].pc.provider, token) == NoMatchingKey
    ensures Reachable(env, requests, t) && |t.locals| == |s.locals| && t.locals[i].pc == Emptying(token)
    ensures forall w :: 0 <= w < |s.locals| && w != i ==> t.locals[w] == s.locals[w]
  {
    var a := Follow(env, requests, s, i, Tick);
    assert a.locals[i].pc == Clearing(token) && a.lock == FREE;
    t := Follow(env, requests, a, i, Tick);
  }

  lemma Follow(env: Env, requests: seq<Request>, s: State, i: nat, input: Input) returns (t: State)
    requires Reachable(env, requests, s) && i < |s.locals|
    requires Advance(env, s.locals[i], s.cache, s.lock, input).Some?
    ensures Reachable(env, requests, t) && |t.locals| == |s.locals|
    ensures forall w :: 0 <= w < |s.locals| && w != i ==> t.locals[w] == s.locals[w]
    ensures var e := Advance(env, s.locals[i], s.cache, s.lock, input).value;
            && t.locals[i].request == s.locals[i].request && t.locals[i].pc == e.pc
            && t.lock == Guarded(s.lock, i, e.guard) && t.cache == e.cache
  {
    t := Step(env, s, Move(i, input)).value;
    ReachOn(env, requests, s, Move(i, input));
  }

  /** The condition is met in real runs: a callback whose token the given keys do not cover clears
      the cache while another request, begun together with it, still has its discovery under way. */
  lemma StaleRetryHappens(env: Env, callback: Request, other: Request, given: Provider, token: Token)
    returns (s: State)
    requires callback.Callback? && Begin(env, callback) == Begin(env, other) == Lookup(First)
    requires given.tokenEndpoint && Check(env, callback, given, token) == NoMatchingKey
    ensures Reachable(env, [callback, other], s) && |s.locals| == 2 && s.locals[0].pc == Emptying(token)
    ensures var t := Step(env, s, Move(0, Tick));
            t.Some? && CanRetryStale(env, t.value, |t.value.log|, 0)
  {
    var requests := [callback, other];
    var begun := BothDiscover(env, callback, other);
    s := ComesToClear(env, requests, begun, 0, given, token);
    assert UnderWay(s.locals[1].pc);
    StaleRetryIff(env, requests, s, 0);
  }

  lemma BothDiscover(env: Env, callback: Request, other: Request) returns (s: State)
    requires Begin(env, callback) == Begin(env, other) == Lookup(First)
    ensures Reachable(env, [callback, other], s) && |s.locals| == 2 && s.lock == FREE
    ensures s.locals[0].request == callback && s.locals[0].pc == s.locals[1].pc == Discovering(First)
  {
    var requests := [callback, other];
    var a := BothLook(env, callback, other);
    var b := BothRead(env, requests, a);
    var c := Follow(env, requests, b, 0, Tick);
    assert c.locals[0].pc == Discovering(First) && c.lock.readers == {1};
    s := Follow(env, requests, c, 1, Tick);
    assert s.lock.readers == {};
  }

  lemma BothRead(env: Env, requests: seq<Request>, s: State) returns (t: State)
    requires Reachable(env, requests, s) && |s.locals| == 2 && s.lock == FREE && s.cache == None
    requires s.locals[0].pc == s.locals[1].pc == Lookup(First)
    ensures Reachable(env, requests, t) && |t.locals| == 2 && t.lock == Lock({0, 1}, None) && t.cache == None
    ensures t.locals[0].pc == t.locals[1].pc == Reading(First) && t.locals[0].request == s.locals[0].request
  {
    var a := Follow(env, requests, s, 0, Tick);
    assert a.lock == Lock({0}, None) && a.cache == None;
    t := Follow(env, requests, a, 1, Tick);
    assert t.lock.readers == {0, 1};
  }

  lemma BothLook(env: Env, callback: Request, other: Request) returns (s: State)
    requires Begin(env, callback) == Begin(env, other) == Lookup(First)
    ensures Reachable(env, [callback, other], s) && |s.locals| == 2 && s.lock == FREE && s.cache == None
    ensures s.locals[0].request == callback && s.locals[0].pc == s.locals[1].pc == Lookup(First)
  {
    var requests := [callback, other];
    var start := Init(requests);
    assert Exec(env, start, []) == Some(start);
    var a := Follow(env, requests, start, 0, Tick);
    s := Follow(env, requests, a, 1, Tick);
  }
}
