// The return-to path of a login: from the gate's redirect through the query string and the login
// cookie to the redirect at the end of the callback.

module ReturnTo {
  import opened Options
  import opened Utf8
  import opened Percent
  import opened Text

  // ---------- The login cookie ----------

  datatype LoginData = LoginData(state: string, nonce: string, verifier: string, returnTo: string)

  /** The payload `mint_login` signs. */
  function MintLogin(d: LoginData): string {
    Join([d.state, d.nonce, d.verifier, d.returnTo], '|')
  }

  function FieldOr(fields: seq<string>, i: nat): string {
    if i < |fields| then fields[i] else ""
  }

  /** `parse_login_payload`; None when the cookie is not recognizable. */
  function ParseLogin(value: string): Option<LoginData> {
    var f := SplitN(value, '|', 4);
    var d := LoginData(FieldOr(f, 0), FieldOr(f, 1), FieldOr(f, 2), FieldOr(f, 3));
    if d.state == "" || d.nonce == "" || d.verifier == "" then None else Some(d)
  }

  predicate CookieSafe(d: LoginData) {
    && d.state != "" && d.nonce != "" && d.verifier != ""
    && '|' !in d.state && '|' !in d.nonce && '|' !in d.verifier
  }

  /** Login data survives its cookie exactly when the three protocol fields are non-empty and free
      of the separator; the return-to path may contain anything. */
  lemma LoginRoundTripIff(d: LoginData)
    ensures ParseLogin(MintLogin(d)) == Some(d) <==> CookieSafe(d)
  {
    if CookieSafe(d) {
      SplitNJoin([d.state, d.nonce, d.verifier, d.returnTo], '|');
    }
  }

  /** The payload is four fields, or three and no return-to path, the first three without the separator. */
  predicate LoginFields(value: string, d: LoginData) {
    && CookieSafe(d)
    && (value == Join([d.state, d.nonce, d.verifier, d.returnTo], '|')
        || (d.returnTo == "" && value == Join([d.state, d.nonce, d.verifier], '|')))
  }

  /** A payload is read as exactly the login data its fields spell, whoever wrote it. */
  lemma LoginReadIff(value: string, d: LoginData)
    ensures ParseLogin(value) == Some(d) <==> LoginFields(value, d)
  {
    if LoginFields(value, d) {
      if value == Join([d.state, d.nonce, d.verifier, d.returnTo], '|') {
        SplitNJoin([d.state, d.nonce, d.verifier, d.returnTo], '|');
      } else {
        JoinThree(d.state, d.nonce, d.verifier);
        ThreeFields(d.state, d.nonce, d.verifier);
      }
    }
    if ParseLogin(value) == Some(d) {
      LoginSpelled(value, d);
    }
  }

  lemma JoinThree(a: string, b: string, c: string)
    ensures Join([a, b, c], '|') == a + ['|'] + (b + ['|'] + c)
  {
    assert [a, b, c][1..] == [b, c] && [b, c][1..] == [c];
    assert Join([c], '|') == c;
    assert Join([b, c], '|') == b + ['|'] + c;
  }

  lemma ThreeFields(a: string, b: string, c: string)
    requires '|' !in a && '|' !in b && '|' !in c
    ensures SplitN(a + ['|'] + (b + ['|'] + c), '|', 4) == [a, b, c]
  {
    SplitNFirst(a, '|', b + ['|'] + c, 4);
    SplitNFirst(b, '|', c, 3);
    SplitNWhole(c, '|', 2);
    assert [a] + ([b] + [c]) == [a, b, c];
  }

  lemma LoginSpelled(value: string, d: LoginData)
    requires ParseLogin(value) == Some(d)
    ensures LoginFields(value, d)
  {
    var f := SplitN(value, '|', 4);
    JoinSplitN(value, '|', 4);
    FieldsSpelled(f, d);
  }

  lemma FieldsSpelled(f: seq<string>, d: LoginData)
    requires |f| <= 4 && forall i :: 0 <= i < |f| && i < 3 ==> '|' !in f[i]
    requires d == LoginData(FieldOr(f, 0), FieldOr(f, 1), FieldOr(f, 2), FieldOr(f, 3))
    requires d.state != "" && d.nonce != "" && d.verifier != ""
    ensures LoginFields(Join(f, '|'), d)
  {
    if |f| == 3 {
      assert f == [d.state, d.nonce, d.verifier];
    } else {
      assert f == [d.state, d.nonce, d.verifier, d.returnTo];
    }
  }

  // ---------- Sanitizing ----------

  /** A path that cannot leave the origin. */
  predicate SameOrigin(path: string) {
    path != "" && path[0] == '/' && '\\' !in path && !("//" <= path)
  }

  /** `sanitize_return_to`. */
  function Sanitize(returnTo: Option<string>): string {
    match returnTo
    case Some(value) => if SameOrigin(value) then value else "/"
    case None => "/"
  }

  /** Whatever is asked for, the result begins with a slash that no other slash follows and has no backslash,
      so that no browser reads it as another origin; exactly the paths of that shape are kept, and anything
      else leads to the root. */
  lemma SanitizeIsSafe(returnTo: Option<string>)
    ensures var s := Sanitize(returnTo);
            s != "" && s[0] == '/' && (|s| > 1 ==> s[1] != '/') && '\\' !in s
    ensures forall v :: Sanitize(Some(v)) == v
                        <==> v != "" && v[0] == '/' && (|v| > 1 ==> v[1] != '/') && '\\' !in v
    ensures Sanitize(returnTo) == "/" || returnTo == Some(Sanitize(returnTo))
    ensures Sanitize(Some(Sanitize(returnTo))) == Sanitize(returnTo)
  {
    forall v: string ensures SameOrigin(v) <==> v != "" && v[0] == '/' && (|v| > 1 ==> v[1] != '/') && '\\' !in v {
      assert |v| > 1 ==> ("//" <= v <==> v[0] == '/' && v[1] == '/');
    }
  }

  // ---------- The query string ----------

  const RETURN_TO_KEY := "returnTo"

  /** The query of the gate's redirect to the login endpoint (`redirect_to_login`). */
  function RedirectQuery(target: Option<string>): string {
    RETURN_TO_KEY + ['='] + EscapeBytes(Unreserved, Encode(Sanitize(target)))
  }

  function PlusToSpace(s: string): string {
    if s == "" then "" else [if s[0] == '+' then ' ' else s[0]] + PlusToSpace(s[1..])
  }

  /** One form-encoded name or value; None when it is not UTF-8. */
  function FormDecode(s: string): Option<string> {
    Decode(DecodeBytes(Encode(PlusToSpace(s))))
  }

  /** The value of the first pair with the given name. */
  function QueryValue(pairs: seq<string>, name: string): Option<string> {
    if pairs == [] then None
    else
      var i := Find(pairs[0], '=');
      if FormDecode(pairs[0][..i]) == Some(name)
      then if i == |pairs[0]| then Some("") else FormDecode(pairs[0][i + 1..])
      else QueryValue(pairs[1..], name)
  }

  /** What the login endpoint reads from its query; a missing value is the empty string. */
  function RequestedReturnTo(query: string): string {
    match QueryValue(Split(query, '&'), RETURN_TO_KEY)
    case Some(value) => value
    case None => ""
  }

  /** The text with every plus sign read as a space. */
  predicate Spaced(s: string, text: string) {
    |text| == |s| && forall i :: 0 <= i < |s| ==> text[i] == if s[i] == '+' then ' ' else s[i]
  }

  lemma {:induction false} PlusIsSpace(s: string)
    ensures Spaced(s, PlusToSpace(s))
  {
    if s != "" {
      PlusIsSpace(s[1..]);
    }
  }

  lemma PlusToSpaceIs(s: string, text: string)
    requires Spaced(s, text)
    ensures PlusToSpace(s) == text
  {
    PlusIsSpace(s);
  }

  predicate Letter(c: char) {
    'a' <= c <= 'z' || 'A' <= c <= 'Z'
  }

  predicate Letters(s: string) {
    forall i :: 0 <= i < |s| ==> Letter(s[i])
  }

  lemma KeyIsLetters()
    ensures Letters(RETURN_TO_KEY)
  {
  }

  lemma {:induction false} PlainDecodes(s: string)
    requires Letters(s)
    ensures DecodeBytes(Encode(s)) == Encode(s)
  {
    if s != "" {
      PlainDecodes(s[1..]);
      assert Letter(s[0]);
      assert EncodeChar(s[0]) == [s[0] as int];
      assert Encode(s)[1..] == Encode(s[1..]);
    }
  }

  /** The value of a pair whose name is plain. */
  lemma PairValue(name: string, value: string, text: string)
    requires Letters(name) && Spaced(value, text)
    ensures QueryValue([name + ['='] + value], name) == Decode(DecodeBytes(Encode(text)))
  {
    var pair := name + ['='] + value;
    assert !Letter('=') && !Letter('+');
    FindFirst(name, '=', value);
    assert pair[..|name|] == name && pair[|name| + 1..] == value;
    PlusToSpaceIs(value, text);
    PlusToSpaceIs(name, name);
    PlainDecodes(name);
    DecodeEncode(name);
  }

  /** What the login endpoint reads from a query with this one pair: plus signs are spaces, escapes are
      decoded, and what is then no text counts as missing. */
  lemma QueryReadIs(value: string, text: string)
    requires '&' !in value && Spaced(value, text)
    ensures RequestedReturnTo("returnTo" + ['='] + value)
         == var d := Decode(DecodeBytes(Encode(text))); if d.Some? then d.value else ""
  {
    var query := RETURN_TO_KEY + ['='] + value;
    KeyIsLetters();
    assert !Letter('&');
    assert Split(query, '&') == [query];
    PairValue(RETURN_TO_KEY, value, text);
  }

  lemma EscapedPlain(text: string)
    ensures var value := EscapeBytes(Unreserved, Encode(text)); '&' !in value && Spaced(value, value)
  {
    var value := EscapeBytes(Unreserved, Encode(text));
    EscapedChars(Unreserved, Encode(text));
    assert forall i :: 0 <= i < |value| ==> value[i] in value;
  }

  lemma QueryRoundTrip(target: Option<string>)
    ensures RequestedReturnTo(RedirectQuery(target)) == Sanitize(target)
  {
    var text := Sanitize(target);
    var value := EscapeBytes(Unreserved, Encode(text));
    EscapedPlain(text);
    DecodeEscaped(Unreserved, Encode(text));
    DecodeEncode(text);
    QueryReadIs(value, value);
  }

  // ---------- The whole way ----------

  /** Where the callback redirects to for a visitor the gate sent to log in: the query of the gate's
      redirect, the login endpoint, the login cookie, the callback. */
  function FinalRedirect(target: Option<string>, state: string, nonce: string, verifier: string): Option<string> {
    var requested := RequestedReturnTo(RedirectQuery(target));
    var cookie := MintLogin(LoginData(state, nonce, verifier, Sanitize(Some(requested))));
    match ParseLogin(cookie)
    case Some(login) => Some(Sanitize(Some(login.returnTo)))
    case None => None
  }

  /** The login flow brings the visitor back to the page they asked for, whatever it contains, and
      never off the origin. */
  lemma ReturnsToTarget(target: Option<string>, state: string, nonce: string, verifier: string)
    requires CookieSafe(LoginData(state, nonce, verifier, ""))
    ensures FinalRedirect(target, state, nonce, verifier) == Some(Sanitize(target))
  {
    QueryRoundTrip(target);
    SanitizeIsSafe(target);
    LoginRoundTripIff(LoginData(state, nonce, verifier, Sanitize(target)));
  }
}
