// The OIDC endpoints as a protocol: any number of login, callback and logout requests share one
// refreshable provider cache behind a readers-writer lock. A request is a program counter over the
// stretches of code between two points at which another request can run; what the network answers
// is an input.

module OidcFlow {
  import opened Options
  import opened ReturnTo
  import Session

  // ---------- Requests and their environment ----------

  /** The result of one discovery: the published keys and endpoints. */
  datatype Provider = Provider(keys: set<string>, tokenEndpoint: bool, endSession: Option<string>)

  datatype Token = Token(raw: string)

  datatype Verdict = Accepted(claims: Session.Claims) | NoMatchingKey | Rejected

  /** Whether the endpoints are configured; what checking an ID token against a provider's keys and
      a nonce yields; how the login cookie is read and how a return-to path is sanitized. */
  datatype Env = Env(
    configured: bool,
    verify: (Provider, Token, string) -> Verdict,
    readCookie: string -> Option<LoginData>,
    sanitize: string -> string)

  /** The environment of the backend: the login cookie and return-to path of module `ReturnTo`. */
  function Backend(configured: bool, verify: (Provider, Token, string) -> Verdict): Env {
    Env(configured, verify, ParseLogin, (path: string) => Sanitize(Some(path)))
  }

  /** The cookie of a callback is the payload of the login cookie once its signature is verified. */
  datatype Request =
    | Login(returnTo: string)
    | Callback(code: Option<string>, state: Option<string>, cookie: Option<string>)
    | Logout

  datatype FlowError = Unavailable | ProviderUnavailable | Unauthorized

  datatype Outcome =
    | SentToProvider(login: LoginData)
    | SessionMinted(claims: Session.Claims, returnTo: string, provider: Provider, token: Token)
    | LoggedOut(endSession: Option<string>)
    | Failed(error: FlowError)

  /** The retry holds on to the ID token of the one exchange. */
  datatype Phase = First | Retry(token: Token)

  /** A request waits for a guard of the lock in `Lookup`, `Storing` and `Clearing`, holds it in
      `Reading`, `Writing` and `Emptying`, and awaits the network in `Discovering` and `Exchanging`. */
  datatype Pc =
    | Start
    | Lookup(phase: Phase)
    | Reading(phase: Phase)
    | Discovering(phase: Phase)
    | Storing(phase: Phase, provider: Provider)
    | Writing(phase: Phase, provider: Provider)
    | HasProvider(phase: Phase, provider: Provider)
    | Exchanging(provider: Provider)
    | Validating(provider: Provider, token: Token)
    | Clearing(token: Token)
    | Emptying(token: Token)
    | Done(outcome: Outcome)

  /** How often a request has turned to the network, checked a token and cleared the cache. */
  datatype Work = Work(discoveries: nat, exchanges: nat, validations: nat, clears: nat)

  datatype TokenAnswer = ExchangeFailed | NoIdToken | IdToken(token: Token)

  /** What a step is given: nothing, fresh random values, or the answer it was waiting for. */
  datatype Input =
    | Tick
    | Random(state: string, nonce: string, verifier: string)
    | Discovered(provider: Option<Provider>)
    | Exchanged(answer: TokenAnswer)

  /** A step a request has taken: where it stood and what it was given. */
  datatype Stage = Stage(pc: Pc, input: Input)

  /** One request, with all the steps it has taken. */
  datatype Local = Local(request: Request, pc: Pc, work: Work, past: seq<Stage>)

  // ---------- The lock ----------

  /** Who holds a read guard and who the write guard. */
  datatype Lock = Lock(readers: set<nat>, writer: Option<nat>)

  datatype Guard = Same | TakeRead | DropRead | TakeWrite | DropWrite

  const FREE: Lock := Lock({}, None)

  function Guarded(lock: Lock, who: nat, g: Guard): Lock {
    match g
    case Same => lock
    case TakeRead => lock.(readers := lock.readers + {who})
    case DropRead => lock.(readers := lock.readers - {who})
    case TakeWrite => lock.(writer := Some(who))
    case DropWrite => lock.(writer := None)
  }

  // ---------- One step of one request ----------

  datatype What = Started | Fetched(provider: Provider) | Stored(provider: Provider) | Cleared

  datatype Event = Event(who: nat, what: What)

  /** The state of one request and the cache after a step, and what the step did to the lock and in
      view of the cache. */
  datatype Effect = Effect(pc: Pc, work: Work, cache: Option<Provider>, guard: Guard, event: Option<What>)

  /** The login data a callback may rely on: code present, cookie recognizable, state matching. */
  function VerifiedLogin(env: Env, r: Request): Option<LoginData> {
    if !r.Callback? || r.code == None || r.cookie == None then None
    else
      match env.readCookie(r.cookie.value)
      case None => None
      case Some(login) =>
        if login.state == (if r.state.Some? then r.state.value else "") then Some(login) else None
  }

  function Begin(env: Env, r: Request): Pc {
    if r.Callback? && r.code == None then Done(Failed(Unauthorized))
    else if !env.configured then Done(Failed(Unavailable))
    else if r.Callback? && VerifiedLogin(env, r) == None then Done(Failed(Unauthorized))
    else Lookup(First)
  }

  function Nonce(env: Env, r: Request): string {
    match VerifiedLogin(env, r) case Some(login) => login.nonce case None => ""
  }

  /** What checking the token against the provider's keys under the login's nonce yields. */
  function Check(env: Env, r: Request, p: Provider, token: Token): Verdict {
    env.verify(p, token, Nonce(env, r))
  }

  function Mint(env: Env, r: Request, claims: Session.Claims, p: Provider, token: Token): Outcome {
    match VerifiedLogin(env, r)
    case Some(login) => SessionMinted(claims, env.sanitize(login.returnTo), p, token)
    case None => Failed(Unauthorized)
  }

  /** Going on without touching the cache or the lock. */
  function Go(pc: Pc, w: Work, cache: Option<Provider>): Option<Effect> {
    Some(Effect(pc, w, cache, Same, None))
  }

  /** The request has its provider, from the cache or from its own discovery. */
  function Provided(env: Env, l: Local, cache: Option<Provider>, phase: Phase, p: Provider, input: Input)
    : Option<Effect>
  {
    var w := l.work;
    match l.request
    case Login(returnTo) =>
      if !input.Random? then None
      else
        var login := LoginData(input.state, input.nonce, input.verifier, env.sanitize(returnTo));
        Go(Done(SentToProvider(login)), w, cache)
    case Logout => if input.Tick? then Go(Done(LoggedOut(p.endSession)), w, cache) else None
    case Callback(_, _, _) =>
      if !input.Tick? then None
      else
        match phase
        case First =>
          if p.tokenEndpoint then Go(Exchanging(p), w.(exchanges := w.exchanges + 1), cache)
          else Go(Done(Failed(ProviderUnavailable)), w, cache)
        case Retry(token) =>
          var verdict := Check(env, l.request, p, token);
          Go(Done(if verdict.Accepted? then Mint(env, l.request, verdict.claims, p, token)
                  else Failed(Unauthorized)),
             w.(validations := w.validations + 1), cache)
  }

  /** What the request does next with the given input; None if it is not waiting for that input, or
      the guard it needs is taken. */
  function Advance(env: Env, l: Local, cache: Option<Provider>, lock: Lock, input: Input): Option<Effect> {
    var w := l.work;
    match l.pc
    case Start => if input.Tick? then Go(Begin(env, l.request), w, cache) else None
    case Lookup(phase) =>
      if input.Tick? && lock.writer == None then Some(Effect(Reading(phase), w, cache, TakeRead, None)) else None
    case Reading(phase) =>
      if !input.Tick? then None
      else if cache.Some? then Some(Effect(HasProvider(phase, cache.value), w, cache, DropRead, None))
      else Some(Effect(Discovering(phase), w.(discoveries := w.discoveries + 1), cache, DropRead, Some(Started)))
    case Discovering(phase) =>
      if !input.Discovered? then None
      else if input.provider.Some? then
        Some(Effect(Storing(phase, input.provider.value), w, cache, Same, Some(Fetched(input.provider.value))))
      else
        Go(Done(if l.request.Logout? then LoggedOut(None) else Failed(ProviderUnavailable)), w, cache)
    case Storing(phase, p) =>
      if input.Tick? && lock == FREE then Some(Effect(Writing(phase, p), w, cache, TakeWrite, None)) else None
    case Writing(phase, p) =>
      if input.Tick? then Some(Effect(HasProvider(phase, p), w, Some(p), DropWrite, Some(Stored(p)))) else None
    case HasProvider(phase, p) => Provided(env, l, cache, phase, p, input)
    case Exchanging(p) =>
      if !input.Exchanged? then None
      else
        (match input.answer
         case ExchangeFailed => Go(Done(Failed(ProviderUnavailable)), w, cache)
         case NoIdToken => Go(Done(Failed(Unauthorized)), w, cache)
         case IdToken(token) => Go(Validating(p, token), w, cache))
    case Validating(p, token) =>
      if !input.Tick? then None
      else
        var checked := w.(validations := w.validations + 1);
        (match Check(env, l.request, p, token)
         case Accepted(claims) => Go(Done(Mint(env, l.request, claims, p, token)), checked, cache)
         case NoMatchingKey => Go(Clearing(token), checked, cache)
         case Rejected => Go(Done(Failed(Unauthorized)), checked, cache))
    case Clearing(token) =>
      if input.Tick? && lock == FREE then Some(Effect(Emptying(token), w, cache, TakeWrite, None)) else None
    case Emptying(token) =>
      if input.Tick? then
        Some(Effect(Lookup(Retry(token)), w.(clears := w.clears + 1), None, DropWrite, Some(Cleared)))
      else None
    case Done(_) => None
  }

  // ---------- Runs ----------

  /** The shared cache and its lock, the requests, and everything that was ever started, fetched,
      stored and cleared. */
  datatype State = State(cache: Option<Provider>, lock: Lock, locals: seq<Local>, log: seq<Event>)

  /** One step of a run: which request goes on, and with which input. */
  datatype Move = Move(who: nat, input: Input)

  function Moved(l: Local, e: Effect, input: Input): Local {
    Local(l.request, e.pc, e.work, l.past + [Stage(l.pc, input)])
  }

  function Logged(log: seq<Event>, who: nat, what: Option<What>): seq<Event> {
    if what.Some? then log + [Event(who, what.value)] else log
  }

  function Step(env: Env, s: State, m: Move): Option<State> {
    if m.who >= |s.locals| then None
    else
      var l := s.locals[m.who];
      match Advance(env, l, s.cache, s.lock, m.input)
      case None => None
      case Some(e) =>
        Some(State(e.cache, Guarded(s.lock, m.who, e.guard), s.locals[m.who := Moved(l, e, m.input)],
                   Logged(s.log, m.who, e.event)))
  }

  function Exec(env: Env, s: State, moves: seq<Move>): Option<State>
    decreases |moves|
  {
    if moves == [] then Some(s)
    else
      match Step(env, s, moves[0])
      case None => None
      case Some(next) => Exec(env, next, moves[1..])
  }

  function Fresh(r: Request): Local {
    Local(r, Start, Work(0, 0, 0, 0), [])
  }

  function Init(requests: seq<Request>): State {
    State(None, FREE, seq(|requests|, i requires 0 <= i < |requests| => Fresh(requests[i])), [])
  }

  // ---------- What a request has gone through ----------

  /** The discovery or the exchange failed at this stage, or there was no endpoint to exchange at. */
  predicate UpstreamFailure(r: Request, x: Stage) {
    || x.input == Discovered(None)
    || x.input == Exchanged(ExchangeFailed)
    || (r.Callback? && x.pc.HasProvider? && x.pc.phase.First? && !x.pc.provider.tokenEndpoint)
  }

  /** The callback turned out not to be trustworthy at this stage: at the start, by an answer
      without an ID token, by a token rejected at once or not accepted in the retry. */
  predicate Distrust(env: Env, r: Request, x: Stage) {
    && r.Callback?
    && (x.input == Exchanged(NoIdToken)
        || match x.pc
           case Start => r.code == None || (env.configured && VerifiedLogin(env, r) == None)
           case Validating(p, token) => Check(env, r, p, token).Rejected?
           case HasProvider(Retry(token), p) => !Check(env, r, p, token).Accepted?
           case _ => false)
  }

  predicate KeyMissing(env: Env, r: Request, x: Stage) {
    x.pc.Validating? && Check(env, r, x.pc.provider, x.pc.token).NoMatchingKey?
  }

  /** A stage no request survives. */
  predicate Ends(env: Env, r: Request, x: Stage) {
    || x.input in {Discovered(None), Exchanged(ExchangeFailed), Exchanged(NoIdToken)}
    || match x.pc
       case Start => Begin(env, r).Done?
       case HasProvider(phase, p) => !r.Callback? || phase.Retry? || !p.tokenEndpoint
       case Validating(_, _) => !KeyMissing(env, r, x)
       case _ => false
  }

  lemma FailureEnds(env: Env, r: Request, x: Stage)
    ensures UpstreamFailure(r, x) || Distrust(env, r, x) ==> Ends(env, r, x)
  {
  }

  predicate Survived(env: Env, r: Request, past: seq<Stage>) {
    forall x | x in past :: !Ends(env, r, x)
  }

  predicate SawKeyMissing(env: Env, r: Request, past: seq<Stage>) {
    exists x | x in past :: KeyMissing(env, r, x)
  }

  /** The token endpoint answered with this ID token. */
  predicate Received(past: seq<Stage>, token: Token) {
    exists x | x in past :: x.pc.Exchanging? && x.input == Exchanged(IdToken(token))
  }

  // ---------- What holds of each request ----------

  /** How much a request has done at each point. */
  predicate WorkOk(pc: Pc, w: Work) {
    match pc
    case Start => w == Work(0, 0, 0, 0)
    case Lookup(First) => w == Work(0, 0, 0, 0)
    case Reading(First) => w == Work(0, 0, 0, 0)
    case Discovering(First) => w == Work(1, 0, 0, 0)
    case Storing(First, _) => w == Work(1, 0, 0, 0)
    case Writing(First, _) => w == Work(1, 0, 0, 0)
    case HasProvider(First, _) => w.discoveries <= 1 && w == Work(w.discoveries, 0, 0, 0)
    case Exchanging(_) => w.discoveries <= 1 && w == Work(w.discoveries, 1, 0, 0)
    case Validating(_, _) => w.discoveries <= 1 && w == Work(w.discoveries, 1, 0, 0)
    case Clearing(_) => w.discoveries <= 1 && w == Work(w.discoveries, 1, 1, 0)
    case Emptying(_) => w.discoveries <= 1 && w == Work(w.discoveries, 1, 1, 0)
    case Lookup(Retry(_)) => w.discoveries <= 1 && w == Work(w.discoveries, 1, 1, 1)
    case Reading(Retry(_)) => w.discoveries <= 1 && w == Work(w.discoveries, 1, 1, 1)
    case Discovering(Retry(_)) => w.discoveries <= 2 && w == Work(w.discoveries, 1, 1, 1)
    case Storing(Retry(_), _) => w.discoveries <= 2 && w == Work(w.discoveries, 1, 1, 1)
    case Writing(Retry(_), _) => w.discoveries <= 2 && w == Work(w.discoveries, 1, 1, 1)
    case HasProvider(Retry(_), _) => w.discoveries <= 2 && w == Work(w.discoveries, 1, 1, 1)
    case Done(_) =>
      w.discoveries <= 2 && w.exchanges <= 1 && w.validations <= 2 && w.clears <= 1
      && (w.validations == 2 ==> w.clears == 1)
  }

  predicate Retrying(pc: Pc) {
    (pc.Lookup? || pc.Reading? || pc.Discovering? || pc.Storing? || pc.Writing? || pc.HasProvider?) && pc.phase.Retry?
  }

  predicate OnlyCallback(pc: Pc) {
    pc.Exchanging? || pc.Validating? || pc.Clearing? || pc.Emptying? || Retrying(pc)
  }

  /** The token a request works with, or minted its session from. */
  function TokenOf(pc: Pc): Option<Token> {
    match pc
    case Validating(_, token) => Some(token)
    case Clearing(token) => Some(token)
    case Emptying(token) => Some(token)
    case Done(SessionMinted(_, _, _, token)) => Some(token)
    case _ => if Retrying(pc) then Some(pc.phase.token) else None
  }

  /** How a request can end, given its last stage and what it has done. */
  predicate OutcomeOk(env: Env, r: Request, w: Work, last: Stage, o: Outcome) {
    && (o == Failed(ProviderUnavailable) <==> UpstreamFailure(r, last) && !r.Logout?)
    && (o == Failed(Unauthorized) <==> Distrust(env, r, last))
    && (o == Failed(Unavailable) <==> !env.configured && (r.Callback? ==> r.code.Some?))
    && (o.SentToProvider? ==>
          && r.Login? && env.configured && last.pc.HasProvider? && last.input.Random?
          && o.login == LoginData(last.input.state, last.input.nonce, last.input.verifier, env.sanitize(r.returnTo)))
    && (o.LoggedOut? ==>
          && r.Logout? && env.configured
          && if last.input == Discovered(None) then o.endSession == None && last.pc.Discovering?
             else last.pc.HasProvider? && o.endSession == last.pc.provider.endSession)
    && (o.SessionMinted? ==>
          && r.Callback? && env.configured && w.exchanges == 1
          && (w.validations == 2 <==> w.clears == 1)
          && VerifiedLogin(env, r).Some?
          && o.returnTo == env.sanitize(VerifiedLogin(env, r).value.returnTo)
          && Check(env, r, o.provider, o.token) == Accepted(o.claims))
  }

  /** Nothing but its last stage ends a request. */
  predicate Ended(env: Env, l: Local)
    requires l.pc.Done?
  {
    && l.past != []
    && var k := |l.past| - 1;
       && Survived(env, l.request, l.past[..k]) && Ends(env, l.request, l.past[k])
       && OutcomeOk(env, l.request, l.work, l.past[k], l.pc.outcome)
  }

  predicate TokensOk(l: Local) {
    && (TokenOf(l.pc).Some? ==> Received(l.past, TokenOf(l.pc).value))
    && forall x | x in l.past && TokenOf(x.pc).Some? :: Received(l.past, TokenOf(x.pc).value)
  }

  predicate KeysOk(env: Env, l: Local) {
    SawKeyMissing(env, l.request, l.past)
    <==> if l.pc.Done? then l.work.clears == 1 else l.pc.Clearing? || l.pc.Emptying? || Retrying(l.pc)
  }

  /** Only callbacks with verified login data come this far. */
  predicate RoleOk(env: Env, l: Local) {
    && (if l.pc.Start? then l.past == [] else l.past != [] && l.past[0] == Stage(Start, Tick))
    && (|l.past| > 1 ==> env.configured)
    && (!l.pc.Start? && !l.pc.Done? ==> env.configured && (l.request.Callback? ==> VerifiedLogin(env, l.request).Some?))
    && (OnlyCallback(l.pc) || l.work.exchanges > 0 ==> l.request.Callback?)
  }

  predicate PastOk(env: Env, l: Local) {
    if l.pc.Done? then Ended(env, l) else Survived(env, l.request, l.past)
  }

  predicate LocalOk(env: Env, l: Local) {
    WorkOk(l.pc, l.work) && RoleOk(env, l) && TokensOk(l) && KeysOk(env, l) && PastOk(env, l)
  }

  // ---------- Every step keeps it ----------

  lemma TokensKept(env: Env, l: Local, cache: Option<Provider>, lock: Lock, input: Input)
    requires TokensOk(l) && Advance(env, l, cache, lock, input).Some?
    ensures TokensOk(Moved(l, Advance(env, l, cache, lock, input).value, input))
  {
    var n := Moved(l, Advance(env, l, cache, lock, input).value, input);
    assert Stage(l.pc, input) in n.past;
    forall token | Received(l.past, token) ensures Received(n.past, token) {
      var x :| x in l.past && x.pc.Exchanging? && x.input == Exchanged(IdToken(token));
      assert x in n.past;
    }
  }

  lemma KeysKept(env: Env, l: Local, cache: Option<Provider>, lock: Lock, input: Input)
    requires LocalOk(env, l) && Advance(env, l, cache, lock, input).Some?
    ensures KeysOk(env, Moved(l, Advance(env, l, cache, lock, input).value, input))
  {
    var n := Moved(l, Advance(env, l, cache, lock, input).value, input);
    var x := Stage(l.pc, input);
    assert SawKeyMissing(env, l.request, n.past)
           <==> SawKeyMissing(env, l.request, l.past) || KeyMissing(env, l.request, x) by {
      assert x in n.past;
      assert forall y :: y in n.past <==> y in l.past || y == x;
    }
  }

  /** A stage after which the request goes on is no end. */
  lemma GoesOn(env: Env, l: Local, cache: Option<Provider>, lock: Lock, input: Input)
    requires RoleOk(env, l) && Advance(env, l, cache, lock, input).Some?
    requires !Advance(env, l, cache, lock, input).value.pc.Done?
    ensures !Ends(env, l.request, Stage(l.pc, input))
  {
  }

  /** A stage after which it does not is one, and accounts for the outcome. */
  lemma ComesToEnd(env: Env, l: Local, cache: Option<Provider>, lock: Lock, input: Input)
    requires WorkOk(l.pc, l.work) && RoleOk(env, l) && Advance(env, l, cache, lock, input).Some?
    requires Advance(env, l, cache, lock, input).value.pc.Done?
    ensures var e := Advance(env, l, cache, lock, input).value;
            Ends(env, l.request, Stage(l.pc, input))
            && OutcomeOk(env, l.request, e.work, Stage(l.pc, input), e.pc.outcome)
  {
  }

  lemma PastKept(env: Env, l: Local, cache: Option<Provider>, lock: Lock, input: Input)
    requires WorkOk(l.pc, l.work) && RoleOk(env, l) && PastOk(env, l) && Advance(env, l, cache, lock, input).Some?
    ensures PastOk(env, Moved(l, Advance(env, l, cache, lock, input).value, input))
  {
    var n := Moved(l, Advance(env, l, cache, lock, input).value, input);
    assert n.past[..|l.past|] == l.past && n.past[|l.past|] == Stage(l.pc, input);
    if n.pc.Done? {
      ComesToEnd(env, l, cache, lock, input);
    } else {
      GoesOn(env, l, cache, lock, input);
    }
  }

  lemma WorkKept(env: Env, l: Local, cache: Option<Provider>, lock: Lock, input: Input)
    requires WorkOk(l.pc, l.work) && Advance(env, l, cache, lock, input).Some?
    ensures WorkOk(Advance(env, l, cache, lock, input).value.pc, Advance(env, l, cache, lock, input).value.work)
  {
  }

  lemma RoleKept(env: Env, l: Local, cache: Option<Provider>, lock: Lock, input: Input)
    requires LocalOk(env, l) && Advance(env, l, cache, lock, input).Some?
    ensures RoleOk(env, Moved(l, Advance(env, l, cache, lock, input).value, input))
  {
  }

  /** Every step keeps a request in order, whatever the cache and the lock hold and the network
      answers. */
  lemma StepKeepsLocal(env: Env, l: Local, cache: Option<Provider>, lock: Lock, input: Input)
    requires LocalOk(env, l)
    ensures var e := Advance(env, l, cache, lock, input);
            e.Some? ==> LocalOk(env, Moved(l, e.value, input))
  {
    var e := Advance(env, l, cache, lock, input);
    if e.Some? {
      WorkKept(env, l, cache, lock, input);
      RoleKept(env, l, cache, lock, input);
      TokensKept(env, l, cache, lock, input);
      KeysKept(env, l, cache, lock, input);
      PastKept(env, l, cache, lock, input);
      Together(env, Moved(l, e.value, input));
    }
  }

  lemma Together(env: Env, l: Local)
    requires WorkOk(l.pc, l.work) && RoleOk(env, l) && TokensOk(l) && KeysOk(env, l) && PastOk(env, l)
    ensures LocalOk(env, l)
  {
  }

  /** A request that has come to its end carries one stage that ended it, its last one. */
  lemma EndsOnce(env: Env, l: Local, x: Stage)
    requires LocalOk(env, l) && l.pc.Done? && x in l.past && Ends(env, l.request, x)
    ensures l.past != [] && x == l.past[|l.past| - 1]
  {
    var last := |l.past| - 1;
    forall k | 0 <= k < last ensures l.past[k] != x {
      assert l.past[k] in l.past[..last];
    }
  }
}
