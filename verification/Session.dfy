// The session cookie: its payload, the gate that reads it, and what it means for access.

module Session {
  import opened Options
  import opened Utf8
  import opened Percent
  import opened Text
  import opened Access
  import Requests

  datatype Claims = Claims(subject: string, displayName: string, email: string, groups: seq<string>)

  datatype SessionError = Unrecognizable | Expired

  /** `encode_claim`. */
  function EncodeClaim(value: string): string {
    EscapeBytes(Unreserved, Encode(value))
  }

  /** `decode_claim`; None when the bytes are not UTF-8. */
  function DecodeClaim(value: string): Option<string> {
    Decode(DecodeBytes(Encode(value)))
  }

  function EncodeClaims(values: seq<string>): seq<string> {
    if values == [] then [] else [EncodeClaim(values[0])] + EncodeClaims(values[1..])
  }

  function DecodeClaims(values: seq<string>): Option<seq<string>> {
    if values == [] then Some([])
    else
      var first, rest := DecodeClaim(values[0]), DecodeClaims(values[1..]);
      if first == None || rest == None then None else Some([first.value] + rest.value)
  }

  /** The payload `mint_session` signs. */
  function MintSession(expiration: nat, c: Claims): string {
    Join(["v2", Numeral(expiration, 10), EncodeClaim(c.subject), EncodeClaim(c.displayName), EncodeClaim(c.email),
          Join(EncodeClaims(c.groups), ',')], ':')
  }

  function ParseGroups(field: string): Option<seq<string>> {
    if field == "" then Some([]) else DecodeClaims(Split(field, ','))
  }

  /** `parse_session_payload`. */
  function ParseSession(value: string, now: nat): Result<Claims, SessionError> {
    ParseFields(SplitN(value, ':', 6), now)
  }

  function ParseFields(fields: seq<string>, now: nat): Result<Claims, SessionError> {
    if |fields| < 2 || fields[0] != "v2" then Err(Unrecognizable)
    else
      match ParseU64(fields[1])
      case None => Err(Unrecognizable)
      case Some(expiration) =>
        if expiration <= now then Err(Expired)
        else if |fields| < 6 then Err(Unrecognizable)
        else
          var subject, displayName, email, groups :=
            DecodeClaim(fields[2]), DecodeClaim(fields[3]), DecodeClaim(fields[4]), ParseGroups(fields[5]);
          if subject == None || subject == Some("") || displayName == None || email == None || groups == None
          then Err(Unrecognizable)
          else Ok(Claims(subject.value, displayName.value, email.value, groups.value))
  }

  lemma ClaimRoundTrip(value: string)
    ensures DecodeClaim(EncodeClaim(value)) == Some(value)
    ensures ':' !in EncodeClaim(value) && ',' !in EncodeClaim(value)
    ensures EncodeClaim(value) == "" <==> value == ""
  {
    DecodeEscaped(Unreserved, Encode(value));
    DecodeEncode(value);
    EscapedChars(Unreserved, Encode(value));
  }

  /** A claim reads as the text whose bytes its escapes and other characters denote. */
  lemma DecodeClaimIff(value: string, text: string)
    ensures DecodeClaim(value) == Some(text) <==> DecodeBytes(Encode(value)) == Encode(text)
  {
    DecodeEncode(text);
  }

  lemma {:induction false} ClaimsRoundTrip(values: seq<string>)
    ensures DecodeClaims(EncodeClaims(values)) == Some(values)
    ensures |EncodeClaims(values)| == |values|
    ensures forall v | v in EncodeClaims(values) :: ',' !in v
  {
    if values != [] {
      ClaimRoundTrip(values[0]);
      ClaimsRoundTrip(values[1..]);
      assert EncodeClaims(values)[1..] == EncodeClaims(values[1..]);
      assert [values[0]] + values[1..] == values;
    }
  }

  /** The groups as they come back: a single group with an empty name is lost. */
  function Kept(groups: seq<string>): seq<string> {
    if groups == [""] then [] else groups
  }

  lemma GroupsRoundTrip(groups: seq<string>)
    ensures ParseGroups(Join(EncodeClaims(groups), ',')) == Some(Kept(groups))
  {
    ClaimsRoundTrip(groups);
    var field := Join(EncodeClaims(groups), ',');
    if groups != [] {
      ClaimRoundTrip(groups[0]);
      assert field == "" <==> groups == [""];
      SplitJoin(EncodeClaims(groups), ',');
    }
  }

  lemma MintedFields(expiration: nat, c: Claims)
    ensures SplitN(MintSession(expiration, c), ':', 6)
         == ["v2", Numeral(expiration, 10), EncodeClaim(c.subject), EncodeClaim(c.displayName), EncodeClaim(c.email),
             Join(EncodeClaims(c.groups), ',')]
  {
    NumeralChars(expiration, 10);
    ClaimRoundTrip(c.subject);
    ClaimRoundTrip(c.displayName);
    ClaimRoundTrip(c.email);
    SplitNJoin(["v2", Numeral(expiration, 10), EncodeClaim(c.subject), EncodeClaim(c.displayName), EncodeClaim(c.email),
                Join(EncodeClaims(c.groups), ',')], ':');
  }

  /** Reading back a minted session, in every case: it expires at its expiration, a session without
      a subject is refused, and any other one returns its claims, whatever characters they contain. */
  lemma SessionReadBack(expiration: nat, c: Claims, now: nat)
    requires expiration <= MAX_U64
    ensures ParseSession(MintSession(expiration, c), now)
         == if expiration <= now then Err(Expired)
            else if c.subject == "" then Err(Unrecognizable)
            else Ok(c.(groups := Kept(c.groups)))
  {
    MintedFields(expiration, c);
    ParseNumeral(expiration);
    ClaimRoundTrip(c.subject);
    ClaimRoundTrip(c.displayName);
    ClaimRoundTrip(c.email);
    GroupsRoundTrip(c.groups);
    FieldsReadBack(SplitN(MintSession(expiration, c), ':', 6), expiration, c, now);
  }

  lemma FieldsReadBack(f: seq<string>, expiration: nat, c: Claims, now: nat)
    requires |f| == 6 && f[0] == "v2" && ParseU64(f[1]) == Some(expiration) && DecodeClaim(f[2]) == Some(c.subject)
    requires DecodeClaim(f[3]) == Some(c.displayName) && DecodeClaim(f[4]) == Some(c.email)
    requires ParseGroups(f[5]) == Some(Kept(c.groups))
    ensures ParseFields(f, now)
         == if expiration <= now then Err(Expired)
            else if c.subject == "" then Err(Unrecognizable)
            else Ok(c.(groups := Kept(c.groups)))
  {
  }

  /** The payload is six fields, the first five without a colon. */
  predicate SixFields(value: string, f: seq<string>) {
    |f| == 6 && value == Join(f, ':') && forall i :: 0 <= i < 5 ==> ':' !in f[i]
  }

  /** These six fields say that this is a version-2 session of these claims, not yet expired. */
  ghost predicate Says(f: seq<string>, now: nat, c: Claims)
    requires |f| == 6
  {
    && f[0] == "v2"
    && (exists e :: ParseU64(f[1]) == Some(e) && now < e)
    && DecodeClaim(f[2]) == Some(c.subject) && c.subject != ""
    && DecodeClaim(f[3]) == Some(c.displayName) && DecodeClaim(f[4]) == Some(c.email)
    && if f[5] == "" then c.groups == [] else DecodeClaims(Split(f[5], ',')) == Some(c.groups)
  }

  lemma SixFieldsIff(value: string, f: seq<string>)
    ensures SixFields(value, f) <==> |f| == 6 && SplitN(value, ':', 6) == f
  {
    if SixFields(value, f) {
      SplitNJoin(f, ':');
    }
    JoinSplitN(value, ':', 6);
  }

  lemma FieldsAcceptedIff(f: seq<string>, now: nat, c: Claims)
    ensures ParseFields(f, now) == Ok(c) ==> |f| >= 6
    ensures |f| == 6 ==> (ParseFields(f, now) == Ok(c) <==> Says(f, now, c))
  {
  }

  /** A cookie payload is accepted for exactly the claims its fields spell, whoever wrote it. */
  lemma SessionAcceptedIff(value: string, now: nat, c: Claims)
    ensures ParseSession(value, now) == Ok(c) <==> exists f :: SixFields(value, f) && Says(f, now, c)
  {
    var fields := SplitN(value, ':', 6);
    FieldsAcceptedIff(fields, now, c);
    if ParseSession(value, now) == Ok(c) {
      SixFieldsIff(value, fields);
    }
    if f :| SixFields(value, f) && Says(f, now, c) {
      SixFieldsIff(value, f);
    }
  }

  /** It is refused as expired exactly if it names the version and a time that has come, whatever follows. */
  lemma SessionExpiredIff(value: string, now: nat)
    ensures ParseSession(value, now) == Err(Expired)
            <==> var f := SplitN(value, ':', 6);
                 |f| >= 2 && f[0] == "v2" && exists e :: ParseU64(f[1]) == Some(e) && e <= now
  {
  }

  /** The claims survive exactly when the session has not expired, has a subject, and its groups are
      not the one list that is printed like the empty one. */
  lemma SessionRoundTripIff(expiration: nat, c: Claims, now: nat)
    requires expiration <= MAX_U64
    ensures ParseSession(MintSession(expiration, c), now) == Ok(c)
            <==> now < expiration && c.subject != "" && c.groups != [""]
  {
    SessionReadBack(expiration, c, now);
  }

  // ---------- The gate ----------

  datatype AuthState = Missing | Disabled | Oidc

  datatype GateDecision = PassThrough | Authenticated(claims: Claims) | Unavailable | Unauthorized | RedirectToLogin

  const LOGIN_PATH := "/api/v1/auth/login"
  const CALLBACK_PATH := "/api/v1/auth/callback"
  const LOGOUT_PATH := "/api/v1/auth/logout"

  predicate IsPublicPath(path: string) {
    path == LOGIN_PATH || path == CALLBACK_PATH || path == LOGOUT_PATH
  }

  /** `gate_decision`. The payload is that of the session cookie once its signature is verified;
      None stands for a missing cookie and for a wrong signature. */
  function Gate(state: AuthState, path: string, payload: Option<string>, now: nat): GateDecision {
    if IsPublicPath(path) then PassThrough
    else
      match state
      case Missing => Unavailable
      case Disabled => PassThrough
      case Oidc =>
        match (if payload.Some? then ParseSession(payload.value, now) else Err(Unrecognizable))
        case Ok(claims) => Authenticated(claims)
        case Err(_) => if "/api/" <= path then Unauthorized else RedirectToLogin
  }

  /** A minted session opens the gate to its own identity until it expires and not a second longer;
      with authentication configured, nothing but a public path gets through without an identity. */
  lemma SessionLifetime(path: string, expiration: nat, c: Claims, now: nat)
    requires expiration <= MAX_U64 && c.subject != "" && !IsPublicPath(path)
    ensures var d := Gate(Oidc, path, Some(MintSession(expiration, c)), now);
            && (d.Authenticated? <==> now < expiration)
            && (d.Authenticated? ==> d.claims == c.(groups := Kept(c.groups)))
            && !d.PassThrough?
  {
    SessionReadBack(expiration, c, now);
    GateReads(path, MintSession(expiration, c), now);
  }

  lemma GateReads(path: string, payload: string, now: nat)
    requires !IsPublicPath(path)
    ensures Gate(Oidc, path, Some(payload), now)
         == match ParseSession(payload, now)
            case Ok(claims) => Authenticated(claims)
            case Err(_) => if "/api/" <= path then Unauthorized else RedirectToLogin
  {
  }

  /** The gate's decision for every state, path and cookie: the three login endpoints are public, and with
      authentication configured everything else needs a cookie that reads as somebody's claims. */
  lemma GateIff(state: AuthState, path: string, payload: Option<string>, now: nat)
    ensures var d := Gate(state, path, payload, now);
            var public := path in ["/api/v1/auth/login", "/api/v1/auth/callback", "/api/v1/auth/logout"];
            var refused := !public && state.Oidc? && (payload == None || ParseSession(payload.value, now).Err?);
            && (d.PassThrough? <==> public || state.Disabled?)
            && (forall c :: d == Authenticated(c)
                            <==> !public && state.Oidc? && payload.Some? && ParseSession(payload.value, now) == Ok(c))
            && (d.Unavailable? <==> !public && state.Missing?)
            && (d.Unauthorized? <==> refused && "/api/" <= path)
            && (d.RedirectToLogin? <==> refused && !("/api/" <= path))
  {
  }

  /** What the cookie does to the groups never changes what the user may see or delete, because no
      grant can be given to the empty group name. */
  lemma SessionKeepsAccess(access: AccessConfig, c: Claims, expiration: nat, now: nat,
                           endpoint: Requests.Endpoint, requested: string)
    requires now < expiration <= MAX_U64 && c.subject != ""
    requires forall g | g in access.grants :: g.group != ""
    ensures var read := ParseSession(MintSession(expiration, c), now);
            read.Ok?
            && Requests.Respond(Context(access, read.value.groups), endpoint, requested)
               == Requests.Respond(Context(access, c.groups), endpoint, requested)
  {
    SessionReadBack(expiration, c, now);
    Requests.SameAnswers(access, Kept(c.groups), c.groups, endpoint, requested);
  }
}
