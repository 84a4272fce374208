// How the requests of an OIDC run end, told by what happens to them in the run.

module OidcOutcomes {
  import opened Options
  import opened ReturnTo
  import opened OidcFlow
  import opened OidcRuns

  // ---------- What a request goes through in a run ----------

  /** The state after the first `n` moves. */
  function After(env: Env, requests: seq<Request>, moves: seq<Move>, n: nat): Option<State>
    requires n <= |moves|
  {
    Exec(env, Init(requests), moves[..n])
  }

  predicate TakesAt(env: Env, requests: seq<Request>, moves: seq<Move>, n: nat, i: nat, x: Stage)
    requires n < |moves|
  {
    && moves[n] == Move(i, x.input)
    && After(env, requests, moves, n).Some?
    && i < |After(env, requests, moves, n).value.locals|
    && After(env, requests, moves, n).value.locals[i].pc == x.pc
  }

  /** At some point of the run request `i` stands at `x.pc` and is given `x.input`. */
  ghost predicate Takes(env: Env, requests: seq<Request>, moves: seq<Move>, i: nat, x: Stage) {
    exists n :: 0 <= n < |moves| && TakesAt(env, requests, moves, n, i, x)
  }

  lemma {:induction false} ExecLast(env: Env, s: State, moves: seq<Move>, m: Move)
    ensures Exec(env, s, moves + [m])
         == match Exec(env, s, moves) case None => None case Some(t) => Step(env, t, m)
    decreases |moves|
  {
    if moves == [] {
      assert moves + [m] == [m] && [m][1..] == [];
    } else {
      assert (moves + [m])[1..] == moves[1..] + [m];
      if Step(env, s, moves[0]).Some? {
        ExecLast(env, Step(env, s, moves[0]).value, moves[1..], m);
      }
    }
  }

  lemma TakesLast(env: Env, requests: seq<Request>, moves: seq<Move>, m: Move, i: nat, x: Stage)
    ensures Takes(env, requests, moves + [m], i, x)
            <==> Takes(env, requests, moves, i, x) || TakesAt(env, requests, moves + [m], |moves|, i, x)
  {
    var all := moves + [m];
    forall n | 0 <= n < |moves|
      ensures TakesAt(env, requests, all, n, i, x) <==> TakesAt(env, requests, moves, n, i, x)
    {
      assert all[..n] == moves[..n];
    }
  }

  /** The stages a request carries are those it takes in the run. */
  lemma {:induction false} PastIsRun(env: Env, requests: seq<Request>, moves: seq<Move>, i: nat, x: Stage)
    requires Exec(env, Init(requests), moves).Some? && i < |requests|
    ensures var s := Exec(env, Init(requests), moves).value;
            i < |s.locals| && (x in s.locals[i].past <==> Takes(env, requests, moves, i, x))
    decreases |moves|
  {
    if moves != [] {
      var k := |moves| - 1;
      var before, m := moves[..k], moves[k];
      assert moves == before + [m];
      ExecLast(env, Init(requests), before, m);
      PastIsRun(env, requests, before, i, x);
      TakesLast(env, requests, before, m, i, x);
      assert moves[..k] == before;
    }
  }

  // ---------- How requests end ----------

  /** At some point of the run request `i` goes on from `pc`. */
  ghost predicate Leaves(env: Env, requests: seq<Request>, moves: seq<Move>, i: nat, pc: Pc) {
    exists input :: Takes(env, requests, moves, i, Stage(pc, input))
  }

  /** A discovery or the exchange fails under the request, or the provider it is to exchange its
      code with has no token endpoint. */
  ghost predicate UpstreamFails(env: Env, requests: seq<Request>, moves: seq<Move>, i: nat)
    requires i < |requests|
  {
    || Move(i, Discovered(None)) in moves
    || Move(i, Exchanged(ExchangeFailed)) in moves
    || (requests[i].Callback?
        && exists p: Provider :: !p.tokenEndpoint && Leaves(env, requests, moves, i, HasProvider(First, p)))
  }

  /** The callback brings no code or no verified login, gets no ID token for the code, or its token
      is rejected at once or not accepted in the retry. */
  ghost predicate Untrusted(env: Env, requests: seq<Request>, moves: seq<Move>, i: nat)
    requires i < |requests|
  {
    var r := requests[i];
    && r.Callback?
    && (|| r.code == None
        || (env.configured
            && (|| VerifiedLogin(env, r) == None
                || Move(i, Exchanged(NoIdToken)) in moves
                || (exists p: Provider, token: Token :: Leaves(env, requests, moves, i, Validating(p, token))
                                       && Check(env, r, p, token).Rejected?)
                || (exists p: Provider, token: Token :: Leaves(env, requests, moves, i, HasProvider(Retry(token), p))
                                       && !Check(env, r, p, token).Accepted?))))
  }

  lemma {:induction false} PrefixRuns(env: Env, s: State, moves: seq<Move>, n: nat)
    requires Exec(env, s, moves).Some? && n <= |moves|
    ensures Exec(env, s, moves[..n]).Some?
    decreases n
  {
    if n > 0 {
      assert moves[..n][1..] == moves[1..][..n - 1];
      PrefixRuns(env, Step(env, s, moves[0]).value, moves[1..], n - 1);
    }
  }

  /** What request `i` was given in the run, and where it stood, can be seen from its stages. */
  lemma StagesTell(env: Env, requests: seq<Request>, moves: seq<Move>, i: nat)
    requires Exec(env, Init(requests), moves).Some? && i < |requests|
    ensures i < |Exec(env, Init(requests), moves).value.locals|
    ensures var past := Exec(env, Init(requests), moves).value.locals[i].past;
            && (forall input :: Move(i, input) in moves <==> exists x :: x in past && x.input == input)
            && (forall pc :: Leaves(env, requests, moves, i, pc) <==> exists x :: x in past && x.pc == pc)
  {
    PastIsRun(env, requests, moves, i, Stage(Start, Tick));
    var past := Exec(env, Init(requests), moves).value.locals[i].past;
    forall x ensures x in past <==> Takes(env, requests, moves, i, x) {
      PastIsRun(env, requests, moves, i, x);
    }
    forall input | Move(i, input) in moves ensures exists x :: x in past && x.input == input {
      var n :| 0 <= n < |moves| && moves[n] == Move(i, input);
      PrefixRuns(env, Init(requests), moves, n);
      PastIsRun(env, requests, moves[..n], i, Stage(Start, Tick));
      var x := Stage(After(env, requests, moves, n).value.locals[i].pc, input);
      assert TakesAt(env, requests, moves, n, i, x);
      assert Takes(env, requests, moves, i, x);
    }
    forall x | x in past ensures Move(i, x.input) in moves && Leaves(env, requests, moves, i, x.pc) {
      assert x == Stage(x.pc, x.input);
    }
  }

  lemma UpstreamInPast(env: Env, requests: seq<Request>, moves: seq<Move>, i: nat)
    requires Exec(env, Init(requests), moves).Some? && i < |requests|
    ensures i < |Exec(env, Init(requests), moves).value.locals|
    ensures var past := Exec(env, Init(requests), moves).value.locals[i].past;
            UpstreamFails(env, requests, moves, i) <==> exists x :: x in past && UpstreamFailure(requests[i], x)
  {
    StagesTell(env, requests, moves, i);
    var past := Exec(env, Init(requests), moves).value.locals[i].past;
    if x :| x in past && UpstreamFailure(requests[i], x) && x.pc.HasProvider? {
      assert Leaves(env, requests, moves, i, x.pc);
    }
  }

  lemma UntrustedShows(env: Env, requests: seq<Request>, moves: seq<Move>, i: nat, past: seq<Stage>)
    requires i < |requests| && Untrusted(env, requests, moves, i)
    requires forall input :: Move(i, input) in moves <==> exists x :: x in past && x.input == input
    requires forall pc :: Leaves(env, requests, moves, i, pc) <==> exists x :: x in past && x.pc == pc
    requires Stage(Start, Tick) in past
    ensures exists x :: x in past && Distrust(env, requests[i], x)
  {
    var r := requests[i];
    if r.code == None || VerifiedLogin(env, r) == None {
      assert Distrust(env, r, Stage(Start, Tick));
    } else if Move(i, Exchanged(NoIdToken)) in moves {
      var x :| x in past && x.input == Exchanged(NoIdToken);
      assert Distrust(env, r, x);
    } else if p: Provider, token: Token :|
        Leaves(env, requests, moves, i, Validating(p, token)) && Check(env, r, p, token).Rejected? {
      var x :| x in past && x.pc == Validating(p, token);
      assert Distrust(env, r, x);
    } else {
      var p: Provider, token: Token :|
        Leaves(env, requests, moves, i, HasProvider(Retry(token), p)) && !Check(env, r, p, token).Accepted?;
      var x :| x in past && x.pc == HasProvider(Retry(token), p);
      assert Distrust(env, r, x);
    }
  }

  lemma DistrustShows(env: Env, requests: seq<Request>, moves: seq<Move>, i: nat, past: seq<Stage>, x: Stage)
    requires i < |requests| && x in past && Distrust(env, requests[i], x)
    requires past[0] == Stage(Start, Tick) && (|past| > 1 ==> env.configured)
    requires Move(i, x.input) in moves && Leaves(env, requests, moves, i, x.pc)
    ensures Untrusted(env, requests, moves, i)
  {
    if x != Stage(Start, Tick) {
      assert env.configured;
    }
  }

  lemma DistrustInPast(env: Env, requests: seq<Request>, moves: seq<Move>, i: nat)
    requires Exec(env, Init(requests), moves).Some? && i < |requests|
    ensures i < |Exec(env, Init(requests), moves).value.locals|
    ensures var l := Exec(env, Init(requests), moves).value.locals[i];
            RoleOk(env, l) && l.pc.Done? ==>
              (Untrusted(env, requests, moves, i) <==> exists x :: x in l.past && Distrust(env, requests[i], x))
  {
    StagesTell(env, requests, moves, i);
    var l := Exec(env, Init(requests), moves).value.locals[i];
    if RoleOk(env, l) && l.pc.Done? {
      assert Stage(Start, Tick) in l.past;
      if Untrusted(env, requests, moves, i) {
        UntrustedShows(env, requests, moves, i, l.past);
      }
      if x :| x in l.past && Distrust(env, requests[i], x) {
        DistrustShows(env, requests, moves, i, l.past, x);
      }
    }
  }

  /** Every request that ends unsuccessfully says why. It ends with "provider unavailable" exactly when
      a discovery or the exchange failed under it, logouts excepted: these succeed anyway. It ends
      unauthorized exactly when it is a callback that could not be trusted. */
  lemma FailuresAreReported(env: Env, requests: seq<Request>, moves: seq<Move>, i: nat)
    requires Exec(env, Init(requests), moves).Some? && i < |requests|
    ensures var s := Exec(env, Init(requests), moves).value;
            && i < |s.locals|
            && (s.locals[i].pc.Done? ==>
                  var o := s.locals[i].pc.outcome;
                  && (o == Failed(ProviderUnavailable)
                      <==> UpstreamFails(env, requests, moves, i) && !requests[i].Logout?)
                  && (o == Failed(Unauthorized) <==> Untrusted(env, requests, moves, i))
                  && (o == Failed(Unavailable)
                      <==> !env.configured && (requests[i].Callback? ==> requests[i].code.Some?))
                  && (o.Failed? || match requests[i]
                                   case Login(_) => o.SentToProvider?
                                   case Callback(_, _, _) => o.SessionMinted?
                                   case Logout => o.LoggedOut?))
  {
    UpstreamInPast(env, requests, moves, i);
    DistrustInPast(env, requests, moves, i);
    var s := Exec(env, Init(requests), moves).value;
    assert Reachable(env, requests, s);
    ReachableInv(env, requests, s);
    var l := s.locals[i];
    assert RequestOk(env, s.log, i, l);
    if l.pc.Done? {
      var last := l.past[|l.past| - 1];
      assert last in l.past;
      forall x | x in l.past && (UpstreamFailure(l.request, x) || Distrust(env, l.request, x)) ensures x == last {
        FailureEnds(env, l.request, x);
        EndsOnce(env, l, x);
      }
    }
  }

  /** The provider some discovery returned that request `i` goes on with at some point of the run. */
  ghost predicate GoesOnWith(env: Env, requests: seq<Request>, moves: seq<Move>, i: nat, log: seq<Event>, p: Provider) {
    WasFetched(log, p) && exists phase :: Leaves(env, requests, moves, i, HasProvider(phase, p))
  }

  lemma LastStage(env: Env, l: Local)
    requires LocalOk(env, l) && l.pc.Done?
    ensures l.past != [] && l.past[|l.past| - 1] in l.past
    ensures OutcomeOk(env, l.request, l.work, l.past[|l.past| - 1], l.pc.outcome)
    ensures forall x | x in l.past && Ends(env, l.request, x) :: x == l.past[|l.past| - 1]
  {
    forall x | x in l.past && Ends(env, l.request, x) ensures x == l.past[|l.past| - 1] {
      EndsOnce(env, l, x);
    }
  }

  lemma ErrorKinds(o: Outcome)
    ensures o.Failed? ==> o == Failed(Unavailable) || o == Failed(ProviderUnavailable) || o == Failed(Unauthorized)
  {
    if o.Failed? {
      assert o.error.Unavailable? || o.error.ProviderUnavailable? || o.error.Unauthorized?;
    }
  }

  lemma LogoutEnds(env: Env, l: Local, x: Stage)
    requires LocalOk(env, l) && l.pc.Done? && l.request.Logout? && x in l.past
    ensures x.pc.HasProvider? ==> l.pc.outcome == LoggedOut(x.pc.provider.endSession)
    ensures x.input == Discovered(None) ==> l.pc.outcome == LoggedOut(None)
  {
    LastStage(env, l);
    if x.pc.HasProvider? || x.input == Discovered(None) {
      assert Ends(env, l.request, x);
      assert l.past[0] == Stage(Start, Tick) && x != l.past[0];
      assert env.configured;
      ErrorKinds(l.pc.outcome);
    }
  }

  lemma LocalAtEnd(env: Env, requests: seq<Request>, moves: seq<Move>, i: nat)
    requires Exec(env, Init(requests), moves).Some? && i < |requests|
    ensures var s := Exec(env, Init(requests), moves).value;
            && i < |s.locals| && s.locals[i].request == requests[i] && LocalOk(env, s.locals[i])
            && forall x | x in s.locals[i].past && x.pc.HasProvider? ::
                 GoesOnWith(env, requests, moves, i, s.log, x.pc.provider)
  {
    var s := Exec(env, Init(requests), moves).value;
    StagesTell(env, requests, moves, i);
    assert Reachable(env, requests, s);
    ReachableInv(env, requests, s);
    assert RequestOk(env, s.log, i, s.locals[i]);
    forall x | x in s.locals[i].past && x.pc.HasProvider?
      ensures GoesOnWith(env, requests, moves, i, s.log, x.pc.provider)
    {
      assert ProviderOf(x.pc) == Some(x.pc.provider);
      assert x.pc == HasProvider(x.pc.phase, x.pc.provider);
    }
  }

  /** Where a logout goes: to the end-session address of the provider it goes on with, and to none exactly
      if it has none or the discovery fails. */
  lemma LogoutGoesThere(env: Env, requests: seq<Request>, moves: seq<Move>, i: nat)
    requires Exec(env, Init(requests), moves).Some? && i < |requests| && requests[i].Logout?
    ensures var s := Exec(env, Init(requests), moves).value;
            && i < |s.locals|
            && (s.locals[i].pc.Done? ==>
                  var o := s.locals[i].pc.outcome;
                  && (forall p | GoesOnWith(env, requests, moves, i, s.log, p) :: o == LoggedOut(p.endSession))
                  && (Move(i, Discovered(None)) in moves ==> o == LoggedOut(None))
                  && (o.LoggedOut? ==>
                        || Move(i, Discovered(None)) in moves
                        || exists p :: GoesOnWith(env, requests, moves, i, s.log, p)))
  {
    LocalAtEnd(env, requests, moves, i);
    StagesTell(env, requests, moves, i);
    var l := Exec(env, Init(requests), moves).value.locals[i];
    if l.pc.Done? {
      LastStage(env, l);
      forall x | x in l.past {
        LogoutEnds(env, l, x);
      }
    }
  }

  /** What a login takes along to the provider it goes on with: its own random values and the sanitized
      return-to path. */
  lemma LoginTakesAlong(env: Env, requests: seq<Request>, moves: seq<Move>, i: nat)
    requires Exec(env, Init(requests), moves).Some? && i < |requests|
    ensures var s := Exec(env, Init(requests), moves).value;
            && i < |s.locals|
            && (s.locals[i].pc.Done? && s.locals[i].pc.outcome.SentToProvider? ==>
                  var login := s.locals[i].pc.outcome.login;
                  && requests[i].Login? && login.returnTo == env.sanitize(requests[i].returnTo)
                  && Move(i, Random(login.state, login.nonce, login.verifier)) in moves
                  && exists p :: GoesOnWith(env, requests, moves, i, s.log, p))
  {
    LocalAtEnd(env, requests, moves, i);
    StagesTell(env, requests, moves, i);
    var l := Exec(env, Init(requests), moves).value.locals[i];
    if l.pc.Done? {
      LastStage(env, l);
    }
  }

  /** The login a callback relies on, in the backend: a code is present and the signed cookie reads as login
      data whose state is the one the callback brings. */
  lemma VerifiedLoginIff(configured: bool, verify: (Provider, Token, string) -> Verdict, r: Request, login: LoginData)
    ensures VerifiedLogin(Backend(configured, verify), r) == Some(login)
            <==> && r.Callback? && r.code.Some? && r.cookie.Some? && LoginFields(r.cookie.value, login)
                 && login.state == (if r.state.Some? then r.state.value else "")
  {
    if r.Callback? && r.cookie.Some? {
      LoginReadIff(r.cookie.value, login);
    }
  }
}
