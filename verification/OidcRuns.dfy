// What holds in every run of the OIDC protocol, over all interleavings of its requests and all
// answers of the network.

module OidcRuns {
  import opened Options
  import opened ReturnTo
  import opened OidcFlow

  // ---------- The log of the cache ----------

  ghost predicate WasFetched(log: seq<Event>, p: Provider) {
    exists who :: Event(who, Fetched(p)) in log
  }

  /** The content of the cache, read off the log of its writes. */
  function Replay(log: seq<Event>): Option<Provider> {
    if log == [] then None
    else
      match log[|log| - 1].what
      case Stored(p) => Some(p)
      case Cleared => None
      case _ => Replay(log[..|log| - 1])
  }

  /** What the cache holds was stored after every clearing. */
  lemma {:induction false} ReplayStored(log: seq<Event>) returns (at: nat)
    requires Replay(log).Some?
    ensures at < |log| && log[at].what == Stored(Replay(log).value)
    ensures forall k :: at < k < |log| ==> !log[k].what.Cleared?
  {
    at := |log| - 1;
    if log[at].what.Fetched? || log[at].what.Started? {
      at := ReplayStored(log[..at]);
    }
  }

  /** The provider was stored or fetched after the request's own clearing of the cache. */
  ghost predicate FreshFor(log: seq<Event>, who: nat, p: Provider) {
    exists k, j ::
      0 <= k < j < |log| && log[k] == Event(who, Cleared) && (log[j].what == Stored(p) || log[j].what == Fetched(p))
  }

  function ProviderOf(pc: Pc): Option<Provider> {
    match pc
    case Storing(_, p) => Some(p)
    case Writing(_, p) => Some(p)
    case HasProvider(_, p) => Some(p)
    case Exchanging(p) => Some(p)
    case Validating(p, _) => Some(p)
    case Done(SessionMinted(_, _, p, _)) => Some(p)
    case _ => None
  }

  /** The request has a provider in hand for its retry, or minted a session after one. */
  predicate UsesRetryProvider(l: Local) {
    (l.pc.HasProvider? && l.pc.phase.Retry?)
    || (l.pc.Done? && l.pc.outcome.SessionMinted? && l.work.clears == 1)
  }

  // ---------- The invariant ----------

  ghost predicate RequestOk(env: Env, log: seq<Event>, who: nat, l: Local) {
    && LocalOk(env, l)
    && (ProviderOf(l.pc).Some? ==> WasFetched(log, ProviderOf(l.pc).value))
    && (forall x | x in l.past && ProviderOf(x.pc).Some? :: WasFetched(log, ProviderOf(x.pc).value))
    && (Event(who, Cleared) in log <==> l.work.clears >= 1)
    && (UsesRetryProvider(l) ==> FreshFor(log, who, ProviderOf(l.pc).value))
  }

  ghost predicate LogOk(log: seq<Event>) {
    forall e | e in log && e.what.Stored? :: WasFetched(log, e.what.provider)
  }

  ghost predicate Inv(env: Env, requests: seq<Request>, s: State) {
    && |s.locals| == |requests|
    && (forall i :: 0 <= i < |requests| ==> s.locals[i].request == requests[i])
    && (forall i :: 0 <= i < |requests| ==> RequestOk(env, s.log, i, s.locals[i]))
    && s.cache == Replay(s.log)
    && LogOk(s.log)
  }

  lemma FreshGrows(log: seq<Event>, e: Event, who: nat, p: Provider)
    requires FreshFor(log, who, p)
    ensures FreshFor(log + [e], who, p)
  {
    var k, j :|
      0 <= k < j < |log| && log[k] == Event(who, Cleared) && (log[j].what == Stored(p) || log[j].what == Fetched(p));
    assert (log + [e])[k] == log[k] && (log + [e])[j] == log[j];
  }

  lemma RequestGrows(env: Env, log: seq<Event>, e: Event, who: nat, l: Local)
    requires RequestOk(env, log, who, l) && e.who != who
    ensures RequestOk(env, log + [e], who, l)
  {
    assert forall x :: x in log ==> x in log + [e];
    if UsesRetryProvider(l) {
      FreshGrows(log, e, who, ProviderOf(l.pc).value);
    }
  }

  lemma CachedIsFetched(log: seq<Event>)
    requires LogOk(log) && Replay(log).Some?
    ensures WasFetched(log, Replay(log).value)
  {
    var at := ReplayStored(log);
    assert log[at] in log;
  }

  /** A cache hit after the request's own clearing yields a provider stored after it. */
  lemma HitIsFresh(log: seq<Event>, who: nat)
    requires Event(who, Cleared) in log && Replay(log).Some?
    ensures FreshFor(log, who, Replay(log).value)
  {
    var at := ReplayStored(log);
    var k :| 0 <= k < |log| && log[k] == Event(who, Cleared);
    assert k < at;
  }

  lemma StoreIsFresh(log: seq<Event>, who: nat, writer: nat, p: Provider)
    requires Event(who, Cleared) in log
    ensures FreshFor(log + [Event(writer, Stored(p))], who, p)
  {
    var k :| 0 <= k < |log| && log[k] == Event(who, Cleared);
    var all := log + [Event(writer, Stored(p))];
    assert all[k] == log[k] && all[|log|] == Event(writer, Stored(p));
  }

  /** Where the provider a request has in hand after a step comes from. */
  lemma ProviderSource(env: Env, l: Local, cache: Option<Provider>, lock: Lock, input: Input)
    requires Advance(env, l, cache, lock, input).Some?
    ensures var e := Advance(env, l, cache, lock, input).value;
            ProviderOf(e.pc).Some? ==>
              || ProviderOf(l.pc) == ProviderOf(e.pc)
              || (l.pc.Reading? && cache == ProviderOf(e.pc))
              || e.event == Some(Fetched(ProviderOf(e.pc).value))
  {
  }

  lemma ClearedOnce(env: Env, l: Local, cache: Option<Provider>, lock: Lock, input: Input)
    requires Advance(env, l, cache, lock, input).Some?
    ensures var e := Advance(env, l, cache, lock, input).value;
            e.work.clears == l.work.clears + if e.event == Some(Cleared) then 1 else 0
  {
  }

  /** How a request comes by the provider of its retry, and keeps it. */
  lemma RetrySource(env: Env, l: Local, cache: Option<Provider>, lock: Lock, input: Input)
    requires WorkOk(l.pc, l.work) && Advance(env, l, cache, lock, input).Some?
    requires UsesRetryProvider(Moved(l, Advance(env, l, cache, lock, input).value, input))
    ensures var e := Advance(env, l, cache, lock, input).value;
            && ProviderOf(e.pc).Some? && l.work.clears == 1
            && (|| (UsesRetryProvider(l) && ProviderOf(l.pc) == ProviderOf(e.pc) && e.event == None)
                || (cache == ProviderOf(e.pc) && e.event == None)
                || e.event == Some(Stored(ProviderOf(e.pc).value)))
  {
  }

  lemma OwnFetched(env: Env, log: seq<Event>, who: nat, l: Local, cache: Option<Provider>, lock: Lock, input: Input)
    requires RequestOk(env, log, who, l) && LogOk(log) && cache == Replay(log)
    requires Advance(env, l, cache, lock, input).Some?
    ensures var e := Advance(env, l, cache, lock, input).value;
            && (ProviderOf(e.pc).Some? ==> WasFetched(Logged(log, who, e.event), ProviderOf(e.pc).value))
            && (forall p | WasFetched(log, p) :: WasFetched(Logged(log, who, e.event), p))
  {
    var event := Advance(env, l, cache, lock, input).value.event;
    ProviderSource(env, l, cache, lock, input);
    if cache.Some? {
      CachedIsFetched(log);
    }
    LogGrows(log, who, event);
  }

  lemma LogGrows(log: seq<Event>, who: nat, what: Option<What>)
    ensures forall x :: x in Logged(log, who, what) <==> x in log || (what.Some? && x == Event(who, what.value))
    ensures forall p | WasFetched(log, p) :: WasFetched(Logged(log, who, what), p)
    ensures what.Some? && what.value.Fetched? ==> WasFetched(Logged(log, who, what), what.value.provider)
  {
    if what.Some? {
      assert Event(who, what.value) in Logged(log, who, what);
    }
  }

  /** When a retry gets a provider, it is stored or fetched after the clearing. */
  lemma OwnFresh(env: Env, log: seq<Event>, who: nat, l: Local, cache: Option<Provider>, lock: Lock, input: Input)
    requires RequestOk(env, log, who, l) && cache == Replay(log)
    requires Advance(env, l, cache, lock, input).Some?
    requires UsesRetryProvider(Moved(l, Advance(env, l, cache, lock, input).value, input))
    ensures var e := Advance(env, l, cache, lock, input).value;
            ProviderOf(e.pc).Some? && FreshFor(Logged(log, who, e.event), who, ProviderOf(e.pc).value)
  {
    var e := Advance(env, l, cache, lock, input).value;
    RetrySource(env, l, cache, lock, input);
    if e.event.Some? {
      StoreIsFresh(log, who, who, ProviderOf(e.pc).value);
    } else if cache == ProviderOf(e.pc) {
      HitIsFresh(log, who);
    }
  }

  /** One request's own step keeps what is known of it. */
  lemma OwnStep(env: Env, log: seq<Event>, who: nat, l: Local, cache: Option<Provider>, lock: Lock, input: Input)
    requires RequestOk(env, log, who, l) && LogOk(log) && cache == Replay(log)
    requires Advance(env, l, cache, lock, input).Some?
    ensures var e := Advance(env, l, cache, lock, input).value;
            RequestOk(env, Logged(log, who, e.event), who, Moved(l, e, input))
  {
    var e := Advance(env, l, cache, lock, input).value;
    StepKeepsLocal(env, l, cache, lock, input);
    OwnFetched(env, log, who, l, cache, lock, input);
    ClearedOnce(env, l, cache, lock, input);
    LogGrows(log, who, e.event);
    if UsesRetryProvider(Moved(l, e, input)) {
      OwnFresh(env, log, who, l, cache, lock, input);
    }
  }

  /** Only storing and clearing change the cache. */
  lemma CacheEffect(env: Env, l: Local, cache: Option<Provider>, lock: Lock, input: Input)
    requires Advance(env, l, cache, lock, input).Some?
    ensures var e := Advance(env, l, cache, lock, input).value;
            match e.event
            case None => e.cache == cache
            case Some(Started) => e.cache == cache
            case Some(Fetched(_)) => e.cache == cache
            case Some(Stored(p)) => e.cache == Some(p) && ProviderOf(l.pc) == Some(p)
            case Some(Cleared) => e.cache == None
  {
  }

  lemma LogAppend(log: seq<Event>, e: Event)
    requires LogOk(log) && (e.what.Stored? ==> WasFetched(log, e.what.provider))
    ensures LogOk(log + [e])
    ensures Replay(log + [e]) == match e.what case Stored(p) => Some(p) case Cleared => None case _ => Replay(log)
  {
  }

  lemma LogStep(env: Env, log: seq<Event>, who: nat, l: Local, cache: Option<Provider>, lock: Lock, input: Input)
    requires RequestOk(env, log, who, l) && LogOk(log) && cache == Replay(log)
    requires Advance(env, l, cache, lock, input).Some?
    ensures var e := Advance(env, l, cache, lock, input).value;
            LogOk(Logged(log, who, e.event)) && e.cache == Replay(Logged(log, who, e.event))
  {
    CacheEffect(env, l, cache, lock, input);
    var e := Advance(env, l, cache, lock, input).value;
    if e.event.Some? {
      LogAppend(log, Event(who, e.event.value));
    }
  }

  lemma StepKeeps(env: Env, requests: seq<Request>, s: State, m: Move)
    requires Inv(env, requests, s) && Step(env, s, m).Some?
    ensures Inv(env, requests, Step(env, s, m).value)
  {
    var l, t := s.locals[m.who], Step(env, s, m).value;
    var e := Advance(env, l, s.cache, s.lock, m.input).value;
    OwnStep(env, s.log, m.who, l, s.cache, s.lock, m.input);
    LogStep(env, s.log, m.who, l, s.cache, s.lock, m.input);
    forall i | 0 <= i < |requests| ensures RequestOk(env, t.log, i, t.locals[i]) {
      if i != m.who && e.event.Some? {
        RequestGrows(env, s.log, Event(m.who, e.event.value), i, s.locals[i]);
      }
    }
  }

  lemma {:induction false} RunKeeps(env: Env, requests: seq<Request>, s: State, moves: seq<Move>)
    requires Inv(env, requests, s) && Exec(env, s, moves).Some?
    ensures Inv(env, requests, Exec(env, s, moves).value)
    decreases |moves|
  {
    if moves != [] {
      StepKeeps(env, requests, s, moves[0]);
      RunKeeps(env, requests, Step(env, s, moves[0]).value, moves[1..]);
    }
  }

  lemma InitOk(env: Env, requests: seq<Request>)
    ensures Inv(env, requests, Init(requests))
  {
  }

  /** `s` is reached by some run of the requests. */
  ghost predicate Reachable(env: Env, requests: seq<Request>, s: State) {
    exists moves :: Exec(env, Init(requests), moves) == Some(s)
  }

  lemma ReachableInv(env: Env, requests: seq<Request>, s: State)
    requires Reachable(env, requests, s)
    ensures Inv(env, requests, s)
  {
    var moves :| Exec(env, Init(requests), moves) == Some(s);
    InitOk(env, requests);
    RunKeeps(env, requests, Init(requests), moves);
  }

  // ---------- Safety ----------

  /** The cache never holds anything but a provider that some discovery returned. */
  lemma CacheHoldsDiscovered(env: Env, requests: seq<Request>, s: State)
    requires Reachable(env, requests, s)
    ensures s.cache.Some? ==> WasFetched(s.log, s.cache.value)
  {
    ReachableInv(env, requests, s);
    if s.cache.Some? {
      CachedIsFetched(s.log);
    }
  }

  /** The token endpoint gave the request an ID token, and checking it under the login's nonce
      against keys that some discovery returned found no matching key. */
  predicate TokenLacksKey(env: Env, l: Local, x: Stage) {
    KeyMissing(env, l.request, x) && Received(l.past, x.pc.token)
  }

  ghost predicate KeyWasMissing(env: Env, l: Local, log: seq<Event>) {
    exists x :: x in l.past && TokenLacksKey(env, l, x) && WasFetched(log, x.pc.provider)
  }

  lemma MissingKeyIff(env: Env, log: seq<Event>, who: nat, l: Local)
    requires RequestOk(env, log, who, l)
    ensures KeyWasMissing(env, l, log) <==> SawKeyMissing(env, l.request, l.past)
  {
    if SawKeyMissing(env, l.request, l.past) {
      var x :| x in l.past && KeyMissing(env, l.request, x);
      assert TokenOf(x.pc).Some? && ProviderOf(x.pc).Some?;
      assert TokenLacksKey(env, l, x);
    }
  }

  /** No request ever exchanges a code twice, clears the cache twice, discovers more than twice or
      validates more than twice. It clears the cache, and checks its token again, only if the first
      check found no matching key; a request that has come to its end has cleared it exactly then. */
  lemma WorkIsBounded(env: Env, requests: seq<Request>, s: State, i: nat)
    requires Reachable(env, requests, s) && i < |s.locals|
    ensures var l := s.locals[i];
            && l.work.exchanges <= 1 && l.work.clears <= 1 && l.work.discoveries <= 2 && l.work.validations <= 2
            && (Event(i, Cleared) in s.log <==> l.work.clears == 1)
            && (l.work.clears == 1 || l.work.validations == 2 ==> KeyWasMissing(env, l, s.log))
            && (l.pc.Done? && KeyWasMissing(env, l, s.log) ==> l.work.clears == 1)
            && (l.work.exchanges == 1 ==> l.request.Callback?)
  {
    ReachableInv(env, requests, s);
    MissingKeyIff(env, s.log, i, s.locals[i]);
    ClearsOnlyThen(env, s.locals[i]);
  }

  lemma ClearsOnlyThen(env: Env, l: Local)
    requires LocalOk(env, l)
    ensures l.work.clears == 1 || l.work.validations == 2 ==> SawKeyMissing(env, l.request, l.past)
  {
  }

  lemma MintedIsProven(env: Env, requests: seq<Request>, s: State, i: nat)
    requires Reachable(env, requests, s) && i < |s.locals|
    requires s.locals[i].pc.Done? && s.locals[i].pc.outcome.SessionMinted?
    ensures var l, o, login := s.locals[i], s.locals[i].pc.outcome, VerifiedLogin(env, s.locals[i].request);
            && |s.locals| == |requests| && l.request == requests[i]
            && env.configured && login.Some? && l.work.exchanges == 1 && Received(l.past, o.token)
            && env.verify(o.provider, o.token, login.value.nonce) == Accepted(o.claims)
            && o.returnTo == env.sanitize(login.value.returnTo)
            && WasFetched(s.log, o.provider)
            && (Event(i, Cleared) in s.log ==> FreshFor(s.log, i, o.provider))
  {
    ReachableInv(env, requests, s);
    assert LocalOk(env, s.locals[i]) && RequestOk(env, s.log, i, s.locals[i]);
  }

  /** A session is minted only for a callback whose login cookie verified and whose state matched,
      for the identity that the exchanged ID token proves under the login's nonce, against keys that
      some discovery returned; after a retry these were stored or fetched after the request had
      cleared the cache. The browser goes to the sanitized return-to path of that login. */
  lemma SessionIsProven(configured: bool, verify: (Provider, Token, string) -> Verdict, requests: seq<Request>,
                        s: State, i: nat)
    requires Reachable(Backend(configured, verify), requests, s) && i < |s.locals|
    requires s.locals[i].pc.Done? && s.locals[i].pc.outcome.SessionMinted?
    ensures |s.locals| == |requests| && configured
    ensures requests[i].Callback? && requests[i].code.Some? && requests[i].cookie.Some?
    ensures s.locals[i].work.exchanges == 1 && Received(s.locals[i].past, s.locals[i].pc.outcome.token)
    ensures var o, login := s.locals[i].pc.outcome, ParseLogin(requests[i].cookie.value);
            && login.Some?
            && login.value.state == (if requests[i].state.Some? then requests[i].state.value else "")
            && verify(o.provider, o.token, login.value.nonce) == Accepted(o.claims)
            && WasFetched(s.log, o.provider)
            && (Event(i, Cleared) in s.log ==> FreshFor(s.log, i, o.provider))
            && o.returnTo == Sanitize(Some(login.value.returnTo))
            && SameOrigin(o.returnTo)
  {
    var env := Backend(configured, verify);
    MintedIsProven(env, requests, s, i);
    LoginRead(configured, verify, requests[i]);
    SanitizeIsSafe(Some(VerifiedLogin(env, requests[i]).value.returnTo));
  }

  lemma LoginRead(configured: bool, verify: (Provider, Token, string) -> Verdict, r: Request)
    requires VerifiedLogin(Backend(configured, verify), r).Some?
    ensures r.Callback? && r.code.Some? && r.cookie.Some?
    ensures ParseLogin(r.cookie.value) == VerifiedLogin(Backend(configured, verify), r)
    ensures ParseLogin(r.cookie.value).value.state == (if r.state.Some? then r.state.value else "")
  {
  }
}
