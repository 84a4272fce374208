// The deny-pattern matcher: a backtracking glob over the bytes of one segment and a matcher of
// `**` patterns over path segments, each proved to decide its declarative meaning.

module DenyPatterns {
  import opened Seqs
  import opened Options
  import opened Utf8
  import Text

  datatype SegmentMatcher = SegmentMatcher(pattern: string, doubleStar: bool)

  datatype DenyPattern = DenyPattern(raw: string, anchored: bool, segments: seq<SegmentMatcher>)

  // ---------- One segment ----------

  /** The two wildcards of a glob, as bytes or as characters. */
  datatype Wild<T> = Wild(star: T, question: T)

  const BYTES: Wild<byte> := Wild(0x2A, 0x3F)
  const CHARS: Wild<char> := Wild('*', '?')

  /** `glob_match_chars`, over the symbols of any alphabet. */
  predicate GlobMatch<T(==)>(w: Wild<T>, pattern: seq<T>, segment: seq<T>)
    decreases |pattern|
  {
    if pattern == [] then segment == []
    else if pattern[0] == w.star then
      exists i :: 0 <= i <= |segment| && GlobMatch(w, pattern[1..], segment[i..])
    else if pattern[0] == w.question then
      segment != [] && GlobMatch(w, pattern[1..], segment[1..])
    else
      segment != [] && segment[0] == pattern[0] && GlobMatch(w, pattern[1..], segment[1..])
  }

  /** What one pattern symbol may stand for. */
  predicate PieceOk<T(==)>(w: Wild<T>, p: T, piece: seq<T>) {
    if p == w.star then true else if p == w.question then |piece| == 1 else piece == [p]
  }

  predicate PiecesOk<T(==)>(w: Wild<T>, pattern: seq<T>, pieces: seq<seq<T>>) {
    |pieces| == |pattern| && forall i :: 0 <= i < |pattern| ==> PieceOk(w, pattern[i], pieces[i])
  }

  /** The meaning of a glob: the segment is a row of pieces, one for each pattern symbol. */
  ghost predicate GlobMeans<T(!new)>(w: Wild<T>, pattern: seq<T>, segment: seq<T>) {
    exists pieces: seq<seq<T>> :: PiecesOk(w, pattern, pieces) && Flatten(pieces) == segment
  }

  lemma {:induction false} GlobSound<T(!new)>(w: Wild<T>, pattern: seq<T>, segment: seq<T>)
    returns (pieces: seq<seq<T>>)
    requires GlobMatch(w, pattern, segment)
    ensures PiecesOk(w, pattern, pieces) && Flatten(pieces) == segment
    decreases |pattern|
  {
    if pattern == [] {
      pieces := [];
    } else {
      var i := 1;
      if pattern[0] == w.star {
        i :| 0 <= i <= |segment| && GlobMatch(w, pattern[1..], segment[i..]);
      }
      var rest := GlobSound(w, pattern[1..], segment[i..]);
      pieces := [segment[..i]] + rest;
      assert pieces[1..] == rest;
    }
  }

  lemma {:induction false} GlobComplete<T(!new)>(w: Wild<T>, pattern: seq<T>, pieces: seq<seq<T>>)
    requires PiecesOk(w, pattern, pieces)
    ensures GlobMatch(w, pattern, Flatten(pieces))
    decreases |pattern|
  {
    if pattern != [] {
      var segment, i := Flatten(pieces), |pieces[0]|;
      assert PieceOk(w, pattern[0], pieces[0]);
      assert segment[i..] == Flatten(pieces[1..]);
      GlobComplete(w, pattern[1..], pieces[1..]);
    }
  }

  /** The backtracking matcher decides the meaning of the glob. */
  lemma GlobDecides<T(!new)>(w: Wild<T>, pattern: seq<T>, segment: seq<T>)
    ensures GlobMatch(w, pattern, segment) <==> GlobMeans(w, pattern, segment)
  {
    if GlobMatch(w, pattern, segment) {
      var pieces := GlobSound(w, pattern, segment);
    }
    if GlobMeans(w, pattern, segment) {
      var pieces: seq<seq<T>> :| PiecesOk(w, pattern, pieces) && Flatten(pieces) == segment;
      GlobComplete(w, pattern, pieces);
    }
  }

  predicate SegmentMatches(pattern: string, segment: string) {
    GlobMatch(BYTES, Encode(pattern), Encode(segment))
  }

  // ---------- Whole paths ----------

  /** `match_from`. */
  predicate MatchFrom(pattern: seq<SegmentMatcher>, segments: seq<string>, offset: nat)
    decreases |pattern|
  {
    if pattern == [] then true
    else if offset >= |segments| then false
    else if pattern[0].doubleStar then
      exists next :: offset <= next <= |segments| && MatchFrom(pattern[1..], segments, next)
    else
      SegmentMatches(pattern[0].pattern, segments[offset]) && MatchFrom(pattern[1..], segments, offset + 1)
  }

  /** `DenyPattern::matches`. */
  predicate Matches(p: DenyPattern, segments: seq<string>) {
    if !p.anchored then
      p.segments != [] && exists i :: 0 <= i < |segments| && SegmentMatches(p.segments[0].pattern, segments[i])
    else MatchFrom(p.segments, segments, 0)
  }

  /** What one pattern segment may stand for: a plain one for one matching path segment, `**` for
      any run of them, non-empty when the pattern ends there. */
  ghost predicate RunOk(m: SegmentMatcher, final: bool, run: seq<string>) {
    if m.doubleStar then final ==> run != []
    else |run| == 1 && GlobMeans(BYTES, Encode(m.pattern), Encode(run[0]))
  }

  ghost predicate RunsOk(pattern: seq<SegmentMatcher>, runs: seq<seq<string>>) {
    |runs| == |pattern| && forall i :: 0 <= i < |pattern| ==> RunOk(pattern[i], i == |pattern| - 1, runs[i])
  }

  /** The meaning of a deny pattern. An anchored one matches when some prefix of the path is a row
      of runs, one for each pattern segment; a bare name matches a segment at any depth. */
  ghost predicate PatternMeans(p: DenyPattern, segments: seq<string>) {
    if p.anchored then
      exists runs :: RunsOk(p.segments, runs) && Flatten(runs) <= segments
    else
      p.segments != []
      && exists i :: 0 <= i < |segments| && GlobMeans(BYTES, Encode(p.segments[0].pattern), Encode(segments[i]))
  }

  lemma {:induction false} MatchFromSound(pattern: seq<SegmentMatcher>, segments: seq<string>, offset: nat)
    returns (runs: seq<seq<string>>)
    requires MatchFrom(pattern, segments, offset) && offset <= |segments|
    ensures RunsOk(pattern, runs) && Flatten(runs) <= segments[offset..]
    decreases |pattern|
  {
    if pattern == [] {
      runs := [];
    } else {
      var next := offset + 1;
      if pattern[0].doubleStar && |pattern| > 1 {
        next :| offset <= next <= |segments| && MatchFrom(pattern[1..], segments, next);
      } else if !pattern[0].doubleStar {
        GlobDecides(BYTES, Encode(pattern[0].pattern), Encode(segments[offset]));
      }
      var rest := MatchFromSound(pattern[1..], segments, next);
      var run := segments[offset..next];
      runs := [run] + rest;
      assert runs[1..] == rest;
      assert segments[offset..] == run + segments[next..];
    }
  }

  lemma {:induction false} RunsNonEmpty(pattern: seq<SegmentMatcher>, runs: seq<seq<string>>)
    requires RunsOk(pattern, runs) && pattern != []
    ensures Flatten(runs) != []
  {
    assert RunOk(pattern[0], 0 == |pattern| - 1, runs[0]);
    if |pattern| > 1 {
      RunsNonEmpty(pattern[1..], runs[1..]);
    }
  }

  lemma {:induction false} MatchFromComplete(pattern: seq<SegmentMatcher>, segments: seq<string>, offset: nat,
                                             runs: seq<seq<string>>)
    requires offset <= |segments| && RunsOk(pattern, runs) && Flatten(runs) <= segments[offset..]
    ensures MatchFrom(pattern, segments, offset)
    decreases |pattern|
  {
    if pattern != [] {
      RunsNonEmpty(pattern, runs);
      var run, n := runs[0], |runs[0]|;
      assert RunOk(pattern[0], 0 == |pattern| - 1, run);
      assert segments[offset..][n..] == segments[offset + n..];
      assert Flatten(runs)[n..] == Flatten(runs[1..]);
      assert Flatten(runs[1..]) <= segments[offset + n..];
      MatchFromComplete(pattern[1..], segments, offset + n, runs[1..]);
      if !pattern[0].doubleStar {
        assert run[0] == Flatten(runs)[0] == segments[offset..][0];
        GlobDecides(BYTES, Encode(pattern[0].pattern), Encode(segments[offset]));
      }
    }
  }

  /** The path matcher decides the meaning of the pattern. */
  lemma MatchesDecides(p: DenyPattern, segments: seq<string>)
    ensures Matches(p, segments) <==> PatternMeans(p, segments)
  {
    if p.anchored {
      assert segments[0..] == segments;
      if Matches(p, segments) {
        var runs := MatchFromSound(p.segments, segments, 0);
      }
      if PatternMeans(p, segments) {
        var runs :| RunsOk(p.segments, runs) && Flatten(runs) <= segments;
        MatchFromComplete(p.segments, segments, 0, runs);
      }
    } else if p.segments != [] {
      forall i | 0 <= i < |segments| {
        GlobDecides(BYTES, Encode(p.segments[0].pattern), Encode(segments[i]));
      }
    }
  }

  /** A denied directory takes everything underneath with it. */
  lemma MatchesExtends(p: DenyPattern, segments: seq<string>, below: seq<string>)
    requires Matches(p, segments)
    ensures Matches(p, segments + below)
  {
    MatchesDecides(p, segments);
    MatchesDecides(p, segments + below);
    if !p.anchored {
      var i :| 0 <= i < |segments| && SegmentMatches(p.segments[0].pattern, segments[i]);
      assert (segments + below)[i] == segments[i];
    }
  }

  // ---------- Validation ----------

  datatype ConfigError = Blank | BadCharacter | TrailingSlash | EmptySegment | ParentSegment

  /** `normalize_relative_path`. */
  function Normalize(raw: string): string {
    var trimmed := Text.Trim(raw);
    var a := if "/" <= trimmed then trimmed[1..] else trimmed;
    if "./" <= a then a[2..] else a
  }

  function FirstBad(segments: seq<string>): (r: Option<ConfigError>)
    ensures r == None <==> "" !in segments && ".." !in segments
    ensures r.Some? ==> r.value.EmptySegment? || r.value.ParentSegment?
  {
    if segments == [] then None
    else if segments[0] == "" then Some(EmptySegment)
    else if segments[0] == ".." then Some(ParentSegment)
    else FirstBad(segments[1..])
  }

  /** `validate_deny_pattern`. */
  function ValidateDenyPattern(raw: string): Result<DenyPattern, ConfigError> {
    if Text.Trim(raw) == "" then Err(Blank)
    else if '\0' in raw || '\\' in raw then Err(BadCharacter)
    else if raw[|raw| - 1] == '/' then Err(TrailingSlash)
    else
      var segments := Text.Split(Normalize(raw), '/');
      match FirstBad(segments)
      case Some(e) => Err(e)
      case None =>
        Ok(DenyPattern(raw, |segments| > 1,
                       seq(|segments|, i requires 0 <= i < |segments| =>
                         SegmentMatcher(segments[i], segments[i] == "**"))))
  }

  /** The leading marks that `normalize_relative_path` strips. */
  predicate Lead(lead: string) {
    lead == "" || lead == "/" || lead == "./" || lead == "/./"
  }

  /** Normalizing cuts off white space and the longest of these marks, and nothing else. */
  lemma NormalizeIff(raw: string)
    ensures exists lead :: Lead(lead) && Text.Trim(raw) == lead + Normalize(raw)
    ensures forall lead, rest :: Lead(lead) && Text.Trim(raw) == lead + rest ==> |Normalize(raw)| <= |rest|
  {
    var lead := LeadOf(Text.Trim(raw));
    forall l, rest | Lead(l) && Text.Trim(raw) == l + rest ensures |Normalize(raw)| <= |rest| {
      LongestLead(Text.Trim(raw), l, rest);
    }
  }

  lemma LeadOf(t: string) returns (lead: string)
    ensures Lead(lead)
    ensures var a := if "/" <= t then t[1..] else t; t == lead + if "./" <= a then a[2..] else a
  {
    var a := if "/" <= t then t[1..] else t;
    if "/" <= t && "./" <= a {
      assert t[0] == '/' && a[0] == '.' && a[1] == '/';
      lead := "/./";
    } else if "/" <= t {
      lead := "/";
    } else if "./" <= a {
      lead := "./";
    } else {
      lead := "";
    }
  }

  lemma LongestLead(t: string, lead: string, rest: string)
    requires Lead(lead) && t == lead + rest
    ensures var a := if "/" <= t then t[1..] else t; |if "./" <= a then a[2..] else a| <= |rest|
  {
    if lead == "/./" {
      assert t[0] == '/' && t[1..][0] == '.' && t[1..][1] == '/';
    } else if lead == "./" {
      assert t[0] == '.' && t[1] == '/';
    } else if lead == "/" {
      assert t[0] == '/';
    }
  }

  /** The components of a deny text. */
  function Components(raw: string): seq<string> {
    Text.Split(Normalize(raw), '/')
  }

  /** Which texts are refused, and with which complaint; the one about a component is `FirstBadIs`. */
  lemma DenyRefusedIff(raw: string)
    ensures var r, parts := ValidateDenyPattern(raw), Components(raw);
            && (r == Err(Blank) <==> Text.AllSpace(raw))
            && (r == Err(BadCharacter) <==> !Text.AllSpace(raw) && ('\0' in raw || '\\' in raw))
            && (r == Err(TrailingSlash) <==>
                  !Text.AllSpace(raw) && '\0' !in raw && '\\' !in raw && raw[|raw| - 1] == '/')
            && (r.Ok? <==> && !Text.AllSpace(raw) && '\0' !in raw && '\\' !in raw && raw[|raw| - 1] != '/'
                           && "" !in parts && ".." !in parts)
  {
    Text.BlankIff(raw);
  }

  /** What is made of an accepted text: its components in order, `**` alone spanning several segments;
      it is anchored iff there are two or more. */
  lemma DenyCompiled(raw: string)
    requires ValidateDenyPattern(raw).Ok?
    ensures var p, parts := ValidateDenyPattern(raw).value, Components(raw);
            && p.raw == raw && (p.anchored <==> |parts| > 1) && |p.segments| == |parts|
            && forall i :: 0 <= i < |parts| ==>
                 p.segments[i].pattern == parts[i] && (p.segments[i].doubleStar <==> parts[i] == ['*', '*'])
  {
    assert "**" == ['*', '*'];
  }

  /** The complaint about a bad component is about the first one. */
  lemma {:induction false} FirstBadIs(parts: seq<string>, i: nat)
    requires i < |parts| && (parts[i] == "" || parts[i] == "..")
    requires forall k :: 0 <= k < i ==> parts[k] != "" && parts[k] != ".."
    ensures FirstBad(parts) == Some(if parts[i] == "" then EmptySegment else ParentSegment)
  {
    if i > 0 {
      FirstBadIs(parts[1..], i - 1);
    }
  }

  /** What a component of a deny text stands for: `**` for any run of path segments, non-empty at the end,
      any other one for one segment, `*` and `?` being wildcards in it. */
  ghost predicate ComponentRun(part: string, final: bool, run: seq<string>) {
    if part == ['*', '*'] then final ==> run != []
    else |run| == 1 && GlobMeans(BYTES, Encode(part), Encode(run[0]))
  }

  /** What a deny text is documented to match: a single component any segment, wherever it stands; several
      ones the beginning of the path, component by component. */
  ghost predicate TextMeans(parts: seq<string>, segments: seq<string>) {
    if |parts| == 1 then
      exists i :: 0 <= i < |segments| && GlobMeans(BYTES, Encode(parts[0]), Encode(segments[i]))
    else
      exists runs: seq<seq<string>> ::
        && |runs| == |parts| && Flatten(runs) <= segments
        && forall i :: 0 <= i < |parts| ==> ComponentRun(parts[i], i == |parts| - 1, runs[i])
  }

  lemma SameRuns(p: DenyPattern, parts: seq<string>, runs: seq<seq<string>>)
    requires |p.segments| == |parts|
    requires forall i :: 0 <= i < |parts| ==>
               p.segments[i].pattern == parts[i] && (p.segments[i].doubleStar <==> parts[i] == ['*', '*'])
    ensures RunsOk(p.segments, runs)
            <==> && |runs| == |parts|
                 && forall i :: 0 <= i < |parts| ==> ComponentRun(parts[i], i == |parts| - 1, runs[i])
  {
    if |runs| == |parts| {
      forall i | 0 <= i < |parts|
        ensures RunOk(p.segments[i], i == |parts| - 1, runs[i])
                <==> ComponentRun(parts[i], i == |parts| - 1, runs[i])
      {
        if |runs[i]| == 1 {
          GlobDecides(BYTES, Encode(parts[i]), Encode(runs[i][0]));
        }
      }
    }
  }

  /** What a validated pattern matches, in terms of its text alone. */
  lemma ValidatedMatches(raw: string, segments: seq<string>)
    requires ValidateDenyPattern(raw).Ok?
    ensures Matches(ValidateDenyPattern(raw).value, segments) <==> TextMeans(Components(raw), segments)
  {
    var p, parts := ValidateDenyPattern(raw).value, Components(raw);
    DenyCompiled(raw);
    MatchesDecides(p, segments);
    if |parts| == 1 {
      forall i | 0 <= i < |segments|
        ensures GlobMeans(BYTES, Encode(parts[0]), Encode(segments[i])) <==> SegmentMatches(parts[0], segments[i])
      {
        GlobDecides(BYTES, Encode(parts[0]), Encode(segments[i]));
      }
    } else {
      forall runs: seq<seq<string>> {
        SameRuns(p, parts, runs);
      }
    }
  }

  /** No validated deny pattern matches the root; the pattern is anchored exactly when it contains a
      `/` after normalization. */
  lemma ValidatedDeny(raw: string)
    requires ValidateDenyPattern(raw).Ok?
    ensures var p := ValidateDenyPattern(raw).value;
            && p.segments != []
            && !Matches(p, [])
            && (p.anchored <==> '/' in Normalize(raw))
  {
  }
}
