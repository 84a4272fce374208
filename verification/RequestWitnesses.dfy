// Three concrete requests that are served and lead to an entry the rules deny.

module RequestWitnesses {
  import opened Seqs
  import opened Options
  import opened Utf8
  import opened Percent
  import opened DenyPatterns
  import opened GlobCharacters
  import opened Access
  import opened Paths
  import opened Requests
  import opened ShareTree
  import opened Reach
  import opened Vouching
  import Text

  /** A delete-enabled allow of the whole share and one global deny. */
  function Except(deny: DenyPattern): Context {
    Context(AccessConfig([], [deny], [Grant("team", true, [AllowEntry("", [])])]), ["team"])
  }

  predicate IsDenied(c: Context, segments: seq<string>) {
    var d := Decide(c.access, c.groups, segments);
    d.Hidden? && d.denial.Denied?
  }

  lemma ExceptJudges(deny: DenyPattern, segments: seq<string>)
    requires segments != []
    ensures SegmentsVisible(Except(deny).access, ["team"], segments) <==> !Matches(deny, segments)
    ensures IsDenied(Except(deny), segments) <==> Matches(deny, segments)
  {
    var access := Except(deny).access;
    var g := access.grants[0];
    assert g in access.grants && AllowEntry("", []) in g.allow && deny in access.globalDeny;
    assert HasEntry(access.grants, "team", AllowEntry("", [])) && GrantsPath(access, "team", "");
    assert Allows(access, ["team"], "") && AllowCovers("", segments);
    VisibleIff(access, ["team"], segments);
  }

  lemma ExceptServes(deny: DenyPattern, endpoint: Endpoint, relative: string)
    requires relative != "" && Normalized(relative) == Ok(relative)
    requires !Matches(deny, PathSegments(relative))
    requires DecodedForm(relative).Some? ==> !Matches(deny, DecodeTexts(PathSegments(relative)).value)
    ensures Respond(Except(deny), endpoint, relative) == Serve(relative)
  {
    var c := Except(deny);
    UnchangedIff(relative);
    DecodedSegments(relative);
    ExceptJudges(deny, PathSegments(relative));
    if DecodedForm(relative).Some? {
      ExceptJudges(deny, DecodeTexts(PathSegments(relative)).value);
    }
    assert c.access.grants[0] in c.access.grants && AllowEntry("", []) in c.access.grants[0].allow;
    assert AllowCovers("", PathSegments(relative));
    assert CanDelete(c.access, c.groups, relative);
    ServedIff(c, endpoint, relative, relative);
  }

  // ---------- Evaluating small texts ----------

  lemma OneChar(c: char)
    requires c as int < 0x80 && c != '%'
    ensures Encode([c]) == [c as int] && DecodedPart([c]) == [c as int]
  {
    assert [c][1..] == "" && [c as int][1..] == [];
  }

  lemma EscapedChar(h: char, l: char)
    requires h as int < 0x80 && l as int < 0x80 && Text.DigitOf(h).Some? && Text.DigitOf(l).Some?
    ensures Encode(['%', h, l]) == [PERCENT, h as int, l as int]
    ensures DecodedPart(['%', h, l]) == [Text.DigitOf(h).value * 16 + Text.DigitOf(l).value]
  {
    EncodeThree('%', h, l);
    var b := [PERCENT, h as int, l as int];
    assert Encode(['%', h, l]) == b;
    assert b[3..] == [];
  }

  /** A pattern without wildcards matches the name it spells, and no other. */
  lemma LiteralPattern(p: string, s: string)
    requires '*' !in p && '?' !in p
    ensures SegmentMatches(p, s) <==> s == p
  {
    var literals, t := Encode(p), Encode(s);
    AsciiOccurs(p, '*');
    AsciiOccurs(p, '?');
    LiteralsMatch(BYTES, literals, [], t);
    Whole(literals);
    if t == literals {
      EncodeInjective(s, p);
    }
  }

  lemma PlainChar(c: char)
    requires c as int < 0x80 && c != '%' && c != '.' && c != '/' && c != '\\' && c != '\0' && !Text.IsSpace(c)
    ensures Plain([c]) && Text.Split([c], '/') == [[c]] && Text.Trim([c]) == [c]
    ensures DecodedText([c]) == Some([c])
  {
    OneChar(c);
    DecodeEncode([c]);
    Text.TrimTrimmed([c]);
  }

  lemma PlainEscape(h: char, l: char)
    requires h as int < 0x80 && l as int < 0x80 && Text.DigitOf(h).Some? && Text.DigitOf(l).Some?
    ensures Plain(['%', h, l]) && Text.Split(['%', h, l], '/') == [['%', h, l]]
  {
  }

  /** A component in front of a path that validation leaves alone. */
  lemma Prepended(x: string, rest: string)
    requires Plain(x) && !Text.IsSpace(x[0]) && rest != "" && Canonical(rest) && !Text.IsSpace(rest[|rest| - 1])
    ensures var relative := x + ['/'] + rest;
            && PathSegments(relative) == [x] + PathSegments(rest) && Canonical(relative)
            && Normalized(relative) == Ok(relative)
  {
    var relative := x + ['/'] + rest;
    Text.SplitFirst(x, '/', rest);
    assert PathSegments(relative) == [x] + PathSegments(rest);
    assert relative[|relative| - 1] == rest[|rest| - 1];
    UnchangedIff(relative);
  }

  lemma SinglePath(x: string)
    requires Plain(x)
    ensures PathSegments(x) == [x] && Canonical(x)
  {
    SingleComponent(x);
  }

  // ---------- A component that decodes to `.` ----------

  const A: string := ['a']
  const B: string := ['b']
  const ESCAPED_DOT: string := ['%', '2', 'E']
  const DOT_REQUEST: string := A + ['/'] + (ESCAPED_DOT + ['/'] + B)

  lemma DotSegments()
    ensures PathSegments(DOT_REQUEST) == [A, ESCAPED_DOT, B] && Normalized(DOT_REQUEST) == Ok(DOT_REQUEST)
    ensures Plain(A) && Plain(ESCAPED_DOT) && Plain(B)
  {
    PlainChar('a');
    PlainChar('b');
    PlainEscape('2', 'E');
    SinglePath(B);
    Prepended(ESCAPED_DOT, B);
    Prepended(A, ESCAPED_DOT + ['/'] + B);
    assert [A] + ([ESCAPED_DOT] + [B]) == [A, ESCAPED_DOT, B];
  }

  lemma TextsOfOne(x: string)
    requires DecodedText(x).Some? && DecodedPart(x) != []
    ensures DecodeTexts([x]).Some? && DecodeTexts([x]).value == [DecodedText(x).value]
    ensures Decoded([x]).Some? && Decoded([x]).value == [DecodedPart(x)]
  {
    assert [x][1..] == [];
    DecodeSingle(x);
    assert x != "";
  }

  lemma TextsCons(x: string, rest: seq<string>)
    requires DecodedText(x).Some? && DecodedPart(x) != [] && DecodeTexts(rest).Some? && Decoded(rest).Some?
    ensures DecodeTexts([x] + rest).Some?
    ensures DecodeTexts([x] + rest).value == [DecodedText(x).value] + DecodeTexts(rest).value
    ensures Decoded([x] + rest).Some? && Decoded([x] + rest).value == [DecodedPart(x)] + Decoded(rest).value
  {
    Cons(x, rest);
  }

  lemma PartTexts()
    ensures DecodedText(A) == Some(A) && DecodedText(B) == Some(B) && DecodedText(ESCAPED_DOT) == Some(".")
    ensures DecodedPart(A) == Encode(A) == [0x61] && DecodedPart(B) == Encode(B) == [0x62]
    ensures DecodedPart(ESCAPED_DOT) == [DOT] && Encode(ESCAPED_DOT) == [PERCENT, 0x32, 0x45]
  {
    PlainChar('a');
    PlainChar('b');
    OneChar('a');
    OneChar('b');
    EscapedChar('2', 'E');
    DotIsText();
    DecodeEncode(".");
  }

  lemma DotTexts()
    ensures var segments := [A, ESCAPED_DOT, B];
            && DecodeTexts(segments).Some? && DecodeTexts(segments).value == [A, ".", B]
            && Decoded(segments).Some? && Decoded(segments).value == [Encode(A), [DOT], Encode(B)]
    ensures Decoded([A, ESCAPED_DOT]).Some? && Decoded([A, ESCAPED_DOT]).value == [Encode(A), [DOT]]
  {
    PartTexts();
    TextsOfOne(B);
    TextsOfOne(ESCAPED_DOT);
    TextsCons(ESCAPED_DOT, [B]);
    TextsCons(A, [ESCAPED_DOT] + [B]);
    TextsCons(A, [ESCAPED_DOT]);
    assert [A] + ([ESCAPED_DOT] + [B]) == [A, ESCAPED_DOT, B] && [A] + [ESCAPED_DOT] == [A, ESCAPED_DOT];
  }

  lemma DotReached(endpoint: Endpoint)
    ensures CanReach(endpoint, [A, ESCAPED_DOT, B], DotTarget())
  {
    var segments, q := [A, ESCAPED_DOT, B], [Encode(A), Encode(B)];
    PartTexts();
    DotTexts();
    assert Resolved([Encode(B)]) == [Encode(B)] by {
      assert [Encode(B)][1..] == [];
    }
    var d, front := [Encode(A), [DOT], Encode(B)], [Encode(A), [DOT]];
    assert d[1..] == [[DOT], Encode(B)] && d[1..][1..] == [Encode(B)] && Resolved(d) == q;
    assert front[1..] == [[DOT]] && [[DOT]][1..] == [] && Resolved(front) == [Encode(A)];
    assert segments[..2] == [A, ESCAPED_DOT] && segments[2] == B;
    assert Bytes(segments)[1] == Encode(ESCAPED_DOT) && Bytes([A, ESCAPED_DOT])[1] == Encode(ESCAPED_DOT);
    assert q[1] == Encode(B);
    assert [Encode(A)] + [Encode(B)] == q;
  }

  lemma DenyAB()
    ensures ValidateDenyPattern(A + ['/'] + B).Ok?
    ensures var p := ValidateDenyPattern(A + ['/'] + B).value;
            p.anchored && p.segments == [SegmentMatcher(A, false), SegmentMatcher(B, false)]
  {
    SplitAB();
    var p := ValidateDenyPattern(A + ['/'] + B).value;
    assert p.segments == [SegmentMatcher(A, false), SegmentMatcher(B, false)];
  }

  lemma SplitAB()
    ensures var raw := A + ['/'] + B;
            && Text.Trim(raw) == raw && DenyPatterns.Normalize(raw) == raw
            && Text.Split(raw, '/') == [A] + [B] && FirstBad([A] + [B]) == None
  {
    var raw := A + ['/'] + B;
    Text.TrimTrimmed(raw);
    Text.SplitFirst(A, '/', B);
    PlainChar('b');
    assert "" !in [A] + [B] && ".." !in [A] + [B];
  }

  lemma MatchesAB(p: DenyPattern, segments: seq<string>)
    requires p.anchored && p.segments == [SegmentMatcher(A, false), SegmentMatcher(B, false)] && |segments| >= 2
    ensures Matches(p, segments) <==> segments[0] == A && segments[1] == B
  {
    var rest := [SegmentMatcher(B, false)];
    LiteralPattern(A, segments[0]);
    LiteralPattern(B, segments[1]);
    assert p.segments[1..] == rest && rest[1..] == [];
    assert MatchFrom([], segments, 2);
    assert MatchFrom(rest, segments, 1) <==> SegmentMatches(B, segments[1]);
  }

  /** The request is served and, in some tree, leads to an entry that is denied under its listed name. */
  ghost predicate LedAstray(c: Context, endpoint: Endpoint, relative: string, path: Path) {
    && Respond(c, endpoint, relative) == Serve(relative) && LeadsTo(c, endpoint, relative, path)
    && IsDenied(c, ListedForm(path))
  }

  lemma Astray(c: Context, endpoint: Endpoint, relative: string, path: Path)
    requires Normalized(relative) == Ok(relative) && relative != "" && Respond(c, endpoint, relative) == Serve(relative)
    requires CanReach(endpoint, PathSegments(relative), path) && IsDenied(c, ListedForm(path))
    ensures LedAstray(c, endpoint, relative, path)
  {
    UnchangedIff(relative);
    CanReachIff(endpoint, PathSegments(relative), path);
  }

  lemma DotServed(deny: DenyPattern, endpoint: Endpoint)
    requires deny.anchored && deny.segments == [SegmentMatcher(A, false), SegmentMatcher(B, false)]
    ensures Respond(Except(deny), endpoint, DOT_REQUEST) == Serve(DOT_REQUEST)
  {
    DotSegments();
    DotTexts();
    MatchesAB(deny, [A, ESCAPED_DOT, B]);
    MatchesAB(deny, [A, ".", B]);
    ExceptServes(deny, endpoint, DOT_REQUEST);
  }

  lemma DotDenied(deny: DenyPattern)
    requires deny.anchored && deny.segments == [SegmentMatcher(A, false), SegmentMatcher(B, false)]
    ensures IsDenied(Except(deny), [A, B])
  {
    MatchesAB(deny, [A, B]);
    ExceptJudges(deny, [A, B]);
  }

  function DotTarget(): Path {
    [Encode(A), Encode(B)]
  }

  lemma TargetListed()
    ensures ListedForm(DotTarget()) == [A, B]
  {
    DecodeEncode(A);
    DecodeEncode(B);
  }

  /** `a/%2E/b` is served where `a/b` is denied, and reaches `a/b`: the rules judge a decoded `.` as a name,
      the file system does not. */
  lemma DotRequest(endpoint: Endpoint)
    ensures ValidateDenyPattern(A + ['/'] + B).Ok?
    ensures LedAstray(Except(ValidateDenyPattern(A + ['/'] + B).value), endpoint, DOT_REQUEST, [Encode(A), Encode(B)])
  {
    DenyAB();
    var deny := ValidateDenyPattern(A + ['/'] + B).value;
    DotServed(deny, endpoint);
    DotDenied(deny);
    DotSegments();
    DotReached(endpoint);
    TargetListed();
    Astray(Except(deny), endpoint, DOT_REQUEST, DotTarget());
  }

  // ---------- A component that is not text ----------

  const ESCAPED_A: string := ['%', '6', '1']
  const ESCAPED_FF: string := ['%', 'F', 'F']
  const BINARY_REQUEST: string := ESCAPED_A + ['/'] + ESCAPED_FF

  lemma BinarySegments()
    ensures PathSegments(BINARY_REQUEST) == [ESCAPED_A, ESCAPED_FF] && Normalized(BINARY_REQUEST) == Ok(BINARY_REQUEST)
    ensures Plain(ESCAPED_A) && Plain(ESCAPED_FF)
  {
    PlainEscape('6', '1');
    PlainEscape('F', 'F');
    SinglePath(ESCAPED_FF);
    Prepended(ESCAPED_A, ESCAPED_FF);
    assert [ESCAPED_A] + [ESCAPED_FF] == [ESCAPED_A, ESCAPED_FF];
  }

  lemma BinaryParts()
    ensures DecodedPart(ESCAPED_A) == Encode(A) == [0x61] && DecodedPart(ESCAPED_FF) == [0xFF] && Decode([0xFF]) == None
    ensures Decoded([ESCAPED_A]).Some? && Decoded([ESCAPED_A]).value == [Encode(A)]
    ensures Decoded([ESCAPED_FF]).Some? && Decoded([ESCAPED_FF]).value == [[0xFF]]
    ensures Decoded([ESCAPED_A, ESCAPED_FF]).Some? && Decoded([ESCAPED_A, ESCAPED_FF]).value == [Encode(A), [0xFF]]
    ensures DecodeTexts([ESCAPED_A, ESCAPED_FF]) == None
  {
    OneChar('a');
    EscapedChar('6', '1');
    EscapedChar('F', 'F');
    DecodeSingle(ESCAPED_A);
    DecodeSingle(ESCAPED_FF);
    DecodePartsAppend([ESCAPED_A], ESCAPED_FF);
    assert [ESCAPED_A] + [ESCAPED_FF] == [ESCAPED_A, ESCAPED_FF] && [Encode(A)] + [[0xFF]] == [Encode(A), [0xFF]];
    TextsFail([ESCAPED_A, ESCAPED_FF], 1);
  }

  lemma BinaryReached(endpoint: Endpoint)
    ensures CanReach(endpoint, [ESCAPED_A, ESCAPED_FF], [Encode(A), [0xFF]])
  {
    var segments, q := [ESCAPED_A, ESCAPED_FF], [Encode(A), [0xFF]];
    BinaryParts();
    EscapedChar('6', '1');
    assert Encode(ESCAPED_A) == [PERCENT, 0x36, 0x31] && Bytes(segments)[0] == Encode(ESCAPED_A);
    assert Bytes([ESCAPED_A])[0] == Encode(ESCAPED_A) && q[0] == Encode(A);
    assert [DOT] !in q && [DOT] !in [Encode(A)];
    assert segments[..1] == [ESCAPED_A] && segments[1] == ESCAPED_FF;
    assert [Encode(A)] + [[0xFF]] == q;
  }

  lemma DenyA()
    ensures ValidateDenyPattern(A).Ok?
    ensures var p := ValidateDenyPattern(A).value;
            !p.anchored && p.segments == [SegmentMatcher(A, false)]
  {
    PlainChar('a');
    assert DenyPatterns.Normalize(A) == A;
    assert "" !in [A] && ".." !in [A];
    assert ValidateDenyPattern(A).value.segments == [SegmentMatcher(A, false)];
  }

  lemma BinaryServed(deny: DenyPattern, endpoint: Endpoint)
    requires !deny.anchored && deny.segments == [SegmentMatcher(A, false)]
    ensures Respond(Except(deny), endpoint, BINARY_REQUEST) == Serve(BINARY_REQUEST)
  {
    BinarySegments();
    BinaryParts();
    UnchangedIff(BINARY_REQUEST);
    DecodedSegments(BINARY_REQUEST);
    LiteralPattern(A, ESCAPED_A);
    LiteralPattern(A, ESCAPED_FF);
    assert !Matches(deny, [ESCAPED_A, ESCAPED_FF]);
    ExceptServes(deny, endpoint, BINARY_REQUEST);
  }

  lemma BinaryListed()
    ensures ListedName([0xFF]) == ESCAPED_FF && ListedForm([Encode(A), [0xFF]]) == [A, ESCAPED_FF]
  {
    ListedNameCollides();
    DecodeEncode(A);
  }

  lemma BinaryDenied(deny: DenyPattern)
    requires !deny.anchored && deny.segments == [SegmentMatcher(A, false)]
    ensures IsDenied(Except(deny), ListedForm([Encode(A), [0xFF]]))
  {
    LiteralPattern(A, A);
    assert [A, ESCAPED_FF][0] == A && Matches(deny, [A, ESCAPED_FF]);
    ExceptJudges(deny, [A, ESCAPED_FF]);
    BinaryListed();
  }

  /** `%61/%FF` is served where `a` is denied, and reaches an entry of `a`: a request that does not decode
      to text is judged literally. */
  lemma BinaryRequest(endpoint: Endpoint)
    ensures ValidateDenyPattern(A).Ok?
    ensures LedAstray(Except(ValidateDenyPattern(A).value), endpoint, BINARY_REQUEST, [Encode(A), [0xFF]])
  {
    DenyA();
    var deny := ValidateDenyPattern(A).value;
    BinaryServed(deny, endpoint);
    BinarySegments();
    BinaryReached(endpoint);
    BinaryDenied(deny);
    Astray(Except(deny), endpoint, BINARY_REQUEST, [Encode(A), [0xFF]]);
  }

  // ---------- Another spelling of a name that is not text ----------

  const LOWER_FF: string := ['%', 'f', 'f']

  lemma LowerSegments()
    ensures PathSegments(LOWER_FF) == [LOWER_FF] && Normalized(LOWER_FF) == Ok(LOWER_FF)
  {
    PlainEscape('f', 'f');
    SinglePath(LOWER_FF);
    UnchangedIff(LOWER_FF);
  }

  lemma LowerParts()
    ensures Decoded([LOWER_FF]).Some? && Decoded([LOWER_FF]).value == [[0xFF]]
    ensures DecodeTexts([LOWER_FF]) == None && Encode(LOWER_FF) == [PERCENT, 0x66, 0x66]
  {
    EscapedChar('f', 'f');
    DecodeSingle(LOWER_FF);
    assert Decode([0xFF]) == None;
    TextsFail([LOWER_FF], 0);
  }

  lemma LowerReached(endpoint: Endpoint)
    ensures CanReach(endpoint, [LOWER_FF], [[0xFF]])
  {
    var segments, q := [LOWER_FF], [[0xFF]];
    LowerParts();
    assert Bytes(segments)[0] == Encode(LOWER_FF) && q[0] == [0xFF];
    assert [DOT] !in q;
    assert segments[..0] == [] && segments[0] == LOWER_FF;
    assert [] + q == q;
  }

  lemma DenyFF()
    ensures ValidateDenyPattern(ESCAPED_FF).Ok?
    ensures var p := ValidateDenyPattern(ESCAPED_FF).value;
            !p.anchored && p.segments == [SegmentMatcher(ESCAPED_FF, false)]
  {
    PlainEscape('F', 'F');
    Text.TrimTrimmed(ESCAPED_FF);
    assert DenyPatterns.Normalize(ESCAPED_FF) == ESCAPED_FF;
    assert "" !in [ESCAPED_FF] && ".." !in [ESCAPED_FF];
    assert ValidateDenyPattern(ESCAPED_FF).value.segments == [SegmentMatcher(ESCAPED_FF, false)];
  }

  lemma LowerServed(deny: DenyPattern, endpoint: Endpoint)
    requires !deny.anchored && deny.segments == [SegmentMatcher(ESCAPED_FF, false)]
    ensures Respond(Except(deny), endpoint, LOWER_FF) == Serve(LOWER_FF)
  {
    LowerSegments();
    LowerParts();
    UnchangedIff(LOWER_FF);
    DecodedSegments(LOWER_FF);
    LiteralPattern(ESCAPED_FF, LOWER_FF);
    assert LOWER_FF[1] != ESCAPED_FF[1];
    ExceptServes(deny, endpoint, LOWER_FF);
  }

  lemma DeniedFF(deny: DenyPattern, kind: Kind)
    requires !deny.anchored && deny.segments == [SegmentMatcher(ESCAPED_FF, false)]
    ensures IsDenied(Except(deny), ListedForm([[0xFF]]))
    ensures ListItem(Some(Except(deny)), true, "", Item([0xFF], Some(kind))) == None
  {
    LiteralPattern(ESCAPED_FF, ESCAPED_FF);
    assert [ESCAPED_FF][0] == ESCAPED_FF && Matches(deny, [ESCAPED_FF]);
    ExceptJudges(deny, [ESCAPED_FF]);
    BinaryListed();
    assert ListedForm([[0xFF]]) == [ESCAPED_FF];
    PlainEscape('F', 'F');
    SinglePath(ESCAPED_FF);
  }

  /** `%ff` is served where `%FF` is denied, and reaches the entry 0xFF, which is listed as `%FF` and which
      the listing therefore withholds: the rules judge the spelling of the request. */
  lemma SpellingRequest(endpoint: Endpoint, kind: Kind)
    ensures ValidateDenyPattern(ESCAPED_FF).Ok?
    ensures var c := Except(ValidateDenyPattern(ESCAPED_FF).value);
            && LedAstray(c, endpoint, LOWER_FF, [[0xFF]])
            && ListItem(Some(c), true, "", Item([0xFF], Some(kind))) == None
  {
    DenyFF();
    var deny := ValidateDenyPattern(ESCAPED_FF).value;
    LowerServed(deny, endpoint);
    LowerSegments();
    LowerReached(endpoint);
    DeniedFF(deny, kind);
    Astray(Except(deny), endpoint, LOWER_FF, [[0xFF]]);
  }

  // ---------- A name that can be decoded once more ----------

  const TWICE_A: string := ['%', '2', '5'] + ['6', '1']

  lemma TwiceBytes()
    ensures Encode(TWICE_A) == [PERCENT, 0x32, 0x35] + [0x36, 0x31]
  {
    EncodeConcat(['%', '2', '5'], ['6', '1']);
    EncodeThree('%', '2', '5');
    OneChar('1');
    assert ['6', '1'][1..] == ['1'];
    assert Encode(['6', '1']) == [0x36] + [0x31];
  }

  lemma TwiceOnce()
    ensures DecodedPart(TWICE_A) == Encode(ESCAPED_A)
  {
    var rest: seq<byte> := [0x36, 0x31];
    var b := [PERCENT, 0x32, 0x35] + rest;
    TwiceBytes();
    EscapedChar('6', '1');
    assert b[3..] == rest && Escaped(b);
    NothingToDecode(rest);
    assert DecodeBytes(b) == [PERCENT] + rest;
  }

  lemma TwiceDecoded()
    ensures DecodedPart(TWICE_A) == Encode(ESCAPED_A) && DecodedText(TWICE_A) == Some(ESCAPED_A)
  {
    TwiceOnce();
    PlainEscape('6', '1');
    PlainBytes(ESCAPED_A);
    DecodeEncode(ESCAPED_A);
  }

  lemma TwiceSegments()
    ensures PathSegments(TWICE_A) == [TWICE_A] && Normalized(TWICE_A) == Ok(TWICE_A)
  {
    assert Plain(TWICE_A) && !Text.IsSpace('%') && !Text.IsSpace('1');
    SinglePath(TWICE_A);
    UnchangedIff(TWICE_A);
  }

  lemma TwiceParts()
    ensures Decoded([TWICE_A]).Some? && Decoded([TWICE_A]).value == [Encode(ESCAPED_A)]
    ensures DecodeTexts([TWICE_A]).Some? && DecodeTexts([TWICE_A]).value == [ESCAPED_A]
  {
    TwiceDecoded();
    TextsOfOne(TWICE_A);
  }

  lemma TwiceReached(endpoint: Endpoint)
    ensures CanReach(endpoint, [TWICE_A], [Encode(ESCAPED_A)])
  {
    var segments, q := [TWICE_A], [Encode(ESCAPED_A)];
    TwiceParts();
    TwiceBytes();
    EscapedChar('6', '1');
    assert q[0] != [DOT] && [DOT] !in q;
    assert Bytes(segments)[0] == Encode(TWICE_A);
    assert Encode(TWICE_A) != Encode(ESCAPED_A);
    assert segments[..0] == [] && segments[0] == TWICE_A;
    assert [] + q == q;
  }

  lemma TwiceServed(deny: DenyPattern, endpoint: Endpoint)
    requires !deny.anchored && deny.segments == [SegmentMatcher(A, false)]
    ensures Respond(Except(deny), endpoint, TWICE_A) == Serve(TWICE_A)
  {
    TwiceSegments();
    TwiceParts();
    LiteralPattern(A, TWICE_A);
    LiteralPattern(A, ESCAPED_A);
    assert !Matches(deny, [TWICE_A]) && !Matches(deny, [ESCAPED_A]);
    ExceptServes(deny, endpoint, TWICE_A);
  }

  lemma ListedTwice()
    ensures ListedName(Encode(ESCAPED_A)) == ESCAPED_A && PathSegments(ESCAPED_A) == [ESCAPED_A]
    ensures DecodedForm(ESCAPED_A).Some? && PathSegments(DecodedForm(ESCAPED_A).value) == [A]
    ensures DecodedForm(ESCAPED_A).value != ESCAPED_A
  {
    DecodeEncode(ESCAPED_A);
    PlainEscape('6', '1');
    SinglePath(ESCAPED_A);
    BinaryParts();
    DecodeEncode(A);
    TextsOfOne(ESCAPED_A);
    DecodedSegments(ESCAPED_A);
  }

  lemma TwiceWithheld(deny: DenyPattern, kind: Kind)
    requires !deny.anchored && deny.segments == [SegmentMatcher(A, false)]
    ensures ListItem(Some(Except(deny)), true, "", Item(Encode(ESCAPED_A), Some(kind))) == None
  {
    ListedTwice();
    LiteralPattern(A, A);
    assert [A][0] == A && Matches(deny, [A]);
    ExceptJudges(deny, [A]);
  }

  /** `%2561` is served and reaches the entry that is literally named `%61`, which the listing withholds where
      `a` is denied: it judges that name decoded, too. */
  lemma TwiceRequest(endpoint: Endpoint, kind: Kind)
    ensures ValidateDenyPattern(A).Ok?
    ensures var c := Except(ValidateDenyPattern(A).value);
            && Respond(c, endpoint, TWICE_A) == Serve(TWICE_A) && LeadsTo(c, endpoint, TWICE_A, [Encode(ESCAPED_A)])
            && ListItem(Some(c), true, "", Item(Encode(ESCAPED_A), Some(kind))) == None
  {
    DenyA();
    var deny := ValidateDenyPattern(A).value;
    TwiceServed(deny, endpoint);
    TwiceSegments();
    TwiceReached(endpoint);
    UnchangedIff(TWICE_A);
    CanReachIff(endpoint, [TWICE_A], [Encode(ESCAPED_A)]);
    TwiceWithheld(deny, kind);
  }
}
