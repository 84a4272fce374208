// Globs are documented in characters and matched in bytes. When do the two readings agree?

module GlobCharacters {
  import opened Seqs
  import opened Utf8
  import opened DenyPatterns

  /** The documented reading: `?` stands for one character. */
  ghost predicate MeansInCharacters(pattern: string, segment: string) {
    GlobMeans(CHARS, pattern, segment)
  }

  predicate Wildcard<T(==)>(w: Wild<T>, x: T) {
    x == w.star || x == w.question
  }

  predicate AllWild<T(==)>(w: Wild<T>, run: seq<T>) {
    forall x | x in run :: Wildcard(w, x)
  }

  function Questions<T(==)>(w: Wild<T>, run: seq<T>): nat {
    if run == [] then 0 else (if run[0] == w.question then 1 else 0) + Questions(w, run[1..])
  }

  /** How many wildcards the pattern begins with. */
  function RunLength(p: string): (n: nat)
    ensures n <= |p| && AllWild(CHARS, p[..n]) && (n < |p| ==> !Wildcard(CHARS, p[n]))
  {
    if p == [] || !Wildcard(CHARS, p[0]) then 0
    else
      var n := RunLength(p[1..]);
      assert p[..n + 1] == [p[0]] + p[1..][..n];
      n + 1
  }

  /** A run of wildcards that counts nothing above one: no `?`, or a single one next to a `*`. */
  predicate LooseRun(run: string) {
    Questions(CHARS, run) == 0 || (Questions(CHARS, run) == 1 && '*' in run)
  }

  /** Every run of wildcards of the pattern is of that kind. */
  predicate Loose(p: string)
    decreases |p|
  {
    var n := RunLength(p);
    LooseRun(p[..n]) && (n < |p| ==> Loose(p[n + 1..]))
  }

  predicate Ascii(s: string) {
    forall c | c in s :: c as int < 0x80
  }

  // ---------- Facts about globs over any alphabet ----------

  lemma {:induction false} FlattenConcat<T>(a: seq<seq<T>>, b: seq<seq<T>>)
    ensures Flatten(a + b) == Flatten(a) + Flatten(b)
  {
    if a == [] {
      assert a + b == b;
    } else {
      TailAppend(a, b);
      FlattenConcat(a[1..], b);
      Assoc(a[0], Flatten(a[1..]), Flatten(b));
    }
  }

  lemma GlobConcat<T(!new)>(w: Wild<T>, p: seq<T>, x: seq<T>, q: seq<T>, y: seq<T>)
    requires GlobMatch(w, p, x) && GlobMatch(w, q, y)
    ensures GlobMatch(w, p + q, x + y)
  {
    var a := GlobSound(w, p, x);
    var b := GlobSound(w, q, y);
    FlattenConcat(a, b);
    GlobComplete(w, p + q, a + b);
  }

  lemma GlobSplit<T(!new)>(w: Wild<T>, p: seq<T>, q: seq<T>, t: seq<T>) returns (i: nat)
    requires GlobMatch(w, p + q, t)
    ensures i <= |t| && GlobMatch(w, p, t[..i]) && GlobMatch(w, q, t[i..])
  {
    var pieces := GlobSound(w, p + q, t);
    var a, b := pieces[..|p|], pieces[|p|..];
    assert pieces == a + b;
    FlattenConcat(a, b);
    i := |Flatten(a)|;
    assert t[..i] == Flatten(a) && t[i..] == Flatten(b);
    assert PiecesOk(w, q, b) by {
      forall j | 0 <= j < |q| ensures PieceOk(w, q[j], b[j]) {
        assert (p + q)[|p| + j] == q[j] && pieces[|p| + j] == b[j];
      }
    }
    assert PiecesOk(w, p, a) by {
      forall j | 0 <= j < |p| ensures PieceOk(w, p[j], a[j]) {
        assert (p + q)[j] == p[j] && pieces[j] == a[j];
      }
    }
    GlobComplete(w, p, a);
    GlobComplete(w, q, b);
  }

  /** How many symbols a run of wildcards can take: one for each question mark, and with a star any
      more. */
  predicate RunTakes<T(==)>(w: Wild<T>, run: seq<T>, n: nat) {
    n == Questions(w, run) || (w.star in run && n > Questions(w, run))
  }

  lemma {:induction false} RunAlone<T(!new)>(w: Wild<T>, run: seq<T>, t: seq<T>)
    requires AllWild(w, run) && w.star != w.question
    ensures GlobMatch(w, run, t) <==> RunTakes(w, run, |t|)
    decreases |run|
  {
    if run != [] {
      assert run[0] in run && forall x | x in run[1..] :: x in run;
      assert w.star in run <==> run[0] == w.star || w.star in run[1..];
      if run[0] == w.star {
        forall j | 0 <= j <= |t| ensures GlobMatch(w, run[1..], t[j..]) <==> RunTakes(w, run[1..], |t| - j) {
          RunAlone(w, run[1..], t[j..]);
        }
        var k := Questions(w, run);
        if |t| >= k {
          assert GlobMatch(w, run[1..], t[|t| - k..]);
        }
      } else if t != [] {
        RunAlone(w, run[1..], t[1..]);
      }
    }
  }

  /** A first part that the run can take, and the rest of the pattern matches behind it. */
  predicate RunThen<T(==)>(w: Wild<T>, run: seq<T>, rest: seq<T>, t: seq<T>) {
    exists i :: 0 <= i <= |t| && RunTakes(w, run, i) && GlobMatch(w, rest, t[i..])
  }

  lemma RunMatches<T(!new)>(w: Wild<T>, run: seq<T>, rest: seq<T>, t: seq<T>)
    requires AllWild(w, run) && w.star != w.question
    ensures GlobMatch(w, run + rest, t) <==> RunThen(w, run, rest, t)
  {
    if GlobMatch(w, run + rest, t) {
      var i := GlobSplit(w, run, rest, t);
      RunAlone(w, run, t[..i]);
    }
    if i :| 0 <= i <= |t| && RunTakes(w, run, i) && GlobMatch(w, rest, t[i..]) {
      RunAlone(w, run, t[..i]);
      GlobConcat(w, run, t[..i], rest, t[i..]);
      assert t[..i] + t[i..] == t;
    }
  }

  /** The least number of symbols a pattern needs. */
  function Solid<T(==)>(w: Wild<T>, p: seq<T>): nat {
    if p == [] then 0 else (if p[0] == w.star then 0 else 1) + Solid(w, p[1..])
  }

  lemma {:induction false} SolidConcat<T>(w: Wild<T>, p: seq<T>, q: seq<T>)
    ensures Solid(w, p + q) == Solid(w, p) + Solid(w, q)
  {
    if p == [] {
      assert p + q == q;
    } else {
      TailAppend(p, q);
      SolidConcat(w, p[1..], q);
    }
  }

  lemma {:induction false} NeedsSolid<T(!new)>(w: Wild<T>, p: seq<T>, t: seq<T>)
    requires GlobMatch(w, p, t)
    ensures |t| >= Solid(w, p)
    decreases |p|
  {
    if p != [] {
      if p[0] == w.star {
        var i :| 0 <= i <= |t| && GlobMatch(w, p[1..], t[i..]);
        NeedsSolid(w, p[1..], t[i..]);
      } else {
        NeedsSolid(w, p[1..], t[1..]);
      }
    }
  }

  lemma {:induction false} LiteralsMatch<T(!new)>(w: Wild<T>, literals: seq<T>, rest: seq<T>, t: seq<T>)
    requires w.star !in literals && w.question !in literals
    ensures GlobMatch(w, literals + rest, t) <==> literals <= t && GlobMatch(w, rest, t[|literals|..])
    decreases |literals|
  {
    if literals == [] {
      assert literals + rest == rest && t[0..] == t;
    } else {
      TailAppend(literals, rest);
      assert literals[0] in literals;
      if t != [] {
        LiteralsMatch(w, literals[1..], rest, t[1..]);
        assert literals <= t <==> literals[0] == t[0] && literals[1..] <= t[1..];
        if literals <= t {
          assert t[1..][|literals| - 1..] == t[|literals|..];
        }
      }
    }
  }

  // ---------- Characters and their bytes ----------

  lemma CharBytes(c: char)
    ensures var b := EncodeChar(c);
            && !Tail(b[0]) && b[|b| - 1] < 0xC0
            && (!Wildcard(CHARS, c) ==> BYTES.star !in b && BYTES.question !in b)
            && (Wildcard(CHARS, c) ==> b == [c as int])
            && (c as int < 0x80 ==> b == [c as int])
  {
  }

  /** A character pattern symbol takes the first character of a text exactly when its bytes are the
      first bytes of the text. */
  lemma FirstChar(c: char, s: string)
    ensures EncodeChar(c) <= Encode(s) <==> s != "" && s[0] == c
    ensures s != "" ==> Encode(s)[|EncodeChar(s[0])|..] == Encode(s[1..])
  {
    if EncodeChar(c) <= Encode(s) && s != "" {
      DecodeEncodedChar(s[0], Encode(s[1..]));
      var rest := Encode(s)[|EncodeChar(c)|..];
      assert Encode(s) == EncodeChar(c) + rest;
      DecodeEncodedChar(c, rest);
    }
  }

  lemma BehindFirst(s: string, i: nat)
    requires 0 < i <= |Encode(s)| && (i < |Encode(s)| ==> !Tail(Encode(s)[i]))
    ensures s != ""
    ensures var n, rest := |EncodeChar(s[0])|, Encode(s[1..]);
            && n <= i <= n + |rest| == |Encode(s)| && Encode(s)[i..] == rest[i - n..]
            && (i < |Encode(s)| ==> rest[i - n] == Encode(s)[i])
  {
    var b := EncodeChar(s[0]);
    assert Encode(s) == b + Encode(s[1..]);
    assert forall k :: 0 < k < |b| ==> Tail(b[k]);
  }

  /** A byte that is no continuation byte starts a character. */
  lemma {:induction false} Boundary(s: string, i: nat) returns (j: nat)
    requires i <= |Encode(s)| && (i < |Encode(s)| ==> !Tail(Encode(s)[i]))
    ensures j <= |s| && Encode(s[j..]) == Encode(s)[i..] && (i > 0 <==> j > 0)
    decreases |s|
  {
    if i == 0 {
      j := 0;
    } else {
      var n := |EncodeChar(s[0])|;
      BehindFirst(s, i);
      var k := Boundary(s[1..], i - n);
      j := k + 1;
      assert s[1..][k..] == s[j..];
    }
  }

  lemma {:induction false} Offset(s: string, j: nat) returns (i: nat)
    requires j <= |s|
    ensures j <= i <= |Encode(s)| && Encode(s[j..]) == Encode(s)[i..] && (i > 0 <==> j > 0)
  {
    EncodeConcat(s[..j], s[j..]);
    assert s == s[..j] + s[j..];
    i := |Encode(s[..j])|;
    AtLeastAsLong(s[..j]);
  }

  lemma {:induction false} AtLeastAsLong(s: string)
    ensures |Encode(s)| >= |s|
    ensures |Encode(s)| == |s| <==> Ascii(s)
  {
    if s != "" {
      AtLeastAsLong(s[1..]);
      assert |EncodeChar(s[0])| == 1 <==> s[0] as int < 0x80;
      assert s[0] in s && forall c :: c in s <==> c == s[0] || c in s[1..];
    }
  }

  lemma {:induction false} WildBytes(run: string)
    requires AllWild(CHARS, run)
    ensures AllWild(BYTES, Encode(run)) && Questions(BYTES, Encode(run)) == Questions(CHARS, run)
    ensures BYTES.star in Encode(run) <==> '*' in run
  {
    if run != "" {
      assert run[0] in run && forall c | c in run[1..] :: c in run;
      WildBytes(run[1..]);
      assert Encode(run) == [run[0] as int] + Encode(run[1..]);
    }
  }

  // ---------- Patterns that read characters ----------

  predicate Agree(p: string, s: string) {
    GlobMatch(BYTES, Encode(p), Encode(s)) <==> GlobMatch(CHARS, p, s)
  }

  /** A match behind a run of wildcards begins at a character. */
  lemma AtCharacter(rest: string, s: string, i: nat)
    requires i <= |Encode(s)| && GlobMatch(BYTES, Encode(rest), Encode(s)[i..])
    requires rest == "" || !Wildcard(CHARS, rest[0])
    ensures i < |Encode(s)| ==> !Tail(Encode(s)[i])
  {
    if rest != "" {
      CharBytes(rest[0]);
      LiteralsMatch(BYTES, EncodeChar(rest[0]), Encode(rest[1..]), Encode(s)[i..]);
    }
  }

  lemma LooseRunCharacters(run: string, rest: string, s: string)
    requires AllWild(CHARS, run) && LooseRun(run) && (rest == "" || !Wildcard(CHARS, rest[0]))
    requires forall j | 0 <= j <= |s| :: Agree(rest, s[j..])
    requires RunThen(BYTES, Encode(run), Encode(rest), Encode(s))
    ensures RunThen(CHARS, run, rest, s)
  {
    var i :|
      0 <= i <= |Encode(s)| && RunTakes(BYTES, Encode(run), i) && GlobMatch(BYTES, Encode(rest), Encode(s)[i..]);
    AtCharacter(rest, s, i);
    var j := Boundary(s, i);
    WildBytes(run);
    assert Agree(rest, s[j..]);
    assert RunTakes(CHARS, run, j);
  }

  lemma LooseRunBytes(run: string, rest: string, s: string)
    requires AllWild(CHARS, run) && LooseRun(run)
    requires forall j | 0 <= j <= |s| :: Agree(rest, s[j..])
    requires RunThen(CHARS, run, rest, s)
    ensures RunThen(BYTES, Encode(run), Encode(rest), Encode(s))
  {
    var j :| 0 <= j <= |s| && RunTakes(CHARS, run, j) && GlobMatch(CHARS, rest, s[j..]);
    var i := Offset(s, j);
    WildBytes(run);
    assert Agree(rest, s[j..]);
    assert RunTakes(BYTES, Encode(run), i);
  }

  lemma LooseRunAgrees(run: string, rest: string, s: string)
    requires AllWild(CHARS, run) && LooseRun(run) && (rest == "" || !Wildcard(CHARS, rest[0]))
    requires forall j | 0 <= j <= |s| :: Agree(rest, s[j..])
    ensures Agree(run + rest, s)
  {
    EncodeConcat(run, rest);
    WildBytes(run);
    RunMatches(BYTES, Encode(run), Encode(rest), Encode(s));
    RunMatches(CHARS, run, rest, s);
    if RunThen(CHARS, run, rest, s) {
      LooseRunBytes(run, rest, s);
    } else if RunThen(BYTES, Encode(run), Encode(rest), Encode(s)) {
      LooseRunCharacters(run, rest, s);
    }
  }

  lemma LiteralAgrees(p: string, s: string)
    requires p != "" && !Wildcard(CHARS, p[0]) && (s != "" ==> Agree(p[1..], s[1..]))
    ensures Agree(p, s)
  {
    CharBytes(p[0]);
    FirstChar(p[0], s);
    LiteralsMatch(BYTES, EncodeChar(p[0]), Encode(p[1..]), Encode(s));
  }

  lemma {:induction false} LooseAgrees(p: string, s: string)
    requires Loose(p)
    ensures Agree(p, s)
    decreases |p|
  {
    var n := RunLength(p);
    var run, rest := p[..n], p[n..];
    assert p == run + rest;
    forall j | 0 <= j <= |s| ensures Agree(rest, s[j..]) {
      if rest != "" {
        if j < |s| {
          assert p[n + 1..] == rest[1..] && s[j..][1..] == s[j + 1..];
          LooseAgrees(p[n + 1..], s[j + 1..]);
        }
        LiteralAgrees(rest, s[j..]);
      }
    }
    LooseRunAgrees(run, rest, s);
  }

  // ---------- Patterns that do not ----------

  /** The shortest text a pattern matches, with `x` for each question mark. */
  function Fill(p: string): string {
    if p == "" then "" else (if p[0] == '*' then "" else if p[0] == '?' then "x" else [p[0]]) + Fill(p[1..])
  }

  lemma {:induction false} FillMatches(p: string)
    ensures GlobMatch(CHARS, p, Fill(p)) && |Fill(p)| == Solid(CHARS, p)
    ensures GlobMatch(BYTES, Encode(p), Encode(Fill(p))) && |Encode(Fill(p))| == Solid(BYTES, Encode(p))
  {
    if p != "" {
      FillMatches(p[1..]);
      var head := if p[0] == '*' then "" else if p[0] == '?' then "x" else [p[0]];
      HeadFills(p[0], head);
      EncodeConcat(head, Fill(p[1..]));
      GlobConcat(CHARS, [p[0]], head, p[1..], Fill(p[1..]));
      GlobConcat(BYTES, EncodeChar(p[0]), Encode(head), Encode(p[1..]), Encode(Fill(p[1..])));
      SolidConcat(BYTES, EncodeChar(p[0]), Encode(p[1..]));
      HeadTail(p);
    }
  }

  lemma HeadFills(c: char, head: string)
    requires head == if c == '*' then "" else if c == '?' then "x" else [c]
    ensures GlobMatch(CHARS, [c], head)
    ensures GlobMatch(BYTES, EncodeChar(c), Encode(head)) && |Encode(head)| == Solid(BYTES, EncodeChar(c))
  {
    CharBytes(c);
    assert Encode("x") == [0x78] && Encode([c]) == EncodeChar(c) + [];
    assert [c][1..] == "" && ""[0..] == "" && [0x2A][1..] == [] && Encode("")[0..] == [];
    if !Wildcard(CHARS, c) {
      var b := EncodeChar(c);
      assert b + [] == b && b[|b|..] == [];
      LiteralsMatch(BYTES, b, [], b);
      SolidLiterals(BYTES, b);
    }
  }

  lemma {:induction false} SolidLiterals<T>(w: Wild<T>, literals: seq<T>)
    requires w.star !in literals
    ensures Solid(w, literals) == |literals|
  {
    if literals != [] {
      SolidLiterals(w, literals[1..]);
    }
  }

  /** A text of `k` bytes in fewer characters. */
  function Dense(k: nat): (s: string)
    requires k >= 2
    ensures |Encode(s)| == k && |s| < k
  {
    if k == 2 then TwoBytes(); "\U{E9}"
    else if k == 3 then ThreeBytes(); "\U{20AC}"
    else
      var rest := Dense(k - 2);
      TwoBytes();
      EncodeConcat("\U{E9}", rest);
      "\U{E9}" + rest
  }

  lemma OneChar(c: char)
    ensures Encode([c]) == EncodeChar(c)
  {
  }

  lemma TwoBytes()
    ensures Encode("\U{E9}") == [0xC3, 0xA9]
  {
  }

  lemma ThreeBytes()
    ensures |Encode("\U{20AC}")| == 3
  {
  }

  predicate EndsLiteral(p: string) {
    p == "" || !Wildcard(CHARS, p[|p| - 1])
  }

  predicate BeginsLiteral(p: string) {
    p == "" || !Wildcard(CHARS, p[0])
  }

  /** A pattern that is not loose has a run of wildcards that is not. */
  lemma {:induction false} FindBadRun(p: string) returns (a: string, run: string, b: string)
    requires !Loose(p)
    ensures p == a + run + b && EndsLiteral(a) && BeginsLiteral(b) && AllWild(CHARS, run) && !LooseRun(run)
    decreases |p|
  {
    var n := RunLength(p);
    if !LooseRun(p[..n]) {
      a, run, b := "", p[..n], p[n..];
    } else {
      var rest: string;
      rest, run, b := FindBadRun(p[n + 1..]);
      a := p[..n + 1] + rest;
      assert p == p[..n + 1] + p[n + 1..];
      Regroup(p[..n + 1], rest, run, b);
    }
  }

  lemma {:induction false} SolidRun(run: string)
    requires AllWild(CHARS, run)
    ensures Solid(CHARS, run) == Questions(CHARS, run)
    ensures Questions(CHARS, run) == 1 && '*' !in run ==> run == "?"
    ensures Questions(CHARS, run) == 0 && '*' !in run ==> run == ""
  {
    if run != "" {
      assert run[0] in run && forall c | c in run[1..] :: c in run;
      SolidRun(run[1..]);
      HeadTail(run);
    }
  }

  /** Two or more `?` in a run: some text has the bytes for them, but not the characters. */
  lemma TooFewCharacters(a: string, run: string, b: string) returns (s: string)
    requires AllWild(CHARS, run) && Questions(CHARS, run) >= 2
    ensures !Agree(a + run + b, s)
  {
    var k := Questions(CHARS, run);
    var x := Dense(k);
    s := Fill(a) + x + Fill(b);
    FillMatches(a);
    FillMatches(b);
    SolidConcat(CHARS, a + run, b);
    SolidConcat(CHARS, a, run);
    SolidRun(run);
    if GlobMatch(CHARS, a + run + b, s) {
      NeedsSolid(CHARS, a + run + b, s);
    }
    RunMatchesBytes(run, x);
    EncodeAround(a, run, b);
    EncodeAround(Fill(a), x, Fill(b));
    GlobConcat(BYTES, Encode(a), Encode(Fill(a)), Encode(run), Encode(x));
    GlobConcat(BYTES, Encode(a) + Encode(run), Encode(Fill(a)) + Encode(x), Encode(b), Encode(Fill(b)));
  }

  lemma RunMatchesBytes(run: string, x: string)
    requires AllWild(CHARS, run) && |Encode(x)| == Questions(CHARS, run)
    ensures GlobMatch(BYTES, Encode(run), Encode(x))
  {
    WildBytes(run);
    RunAlone(BYTES, Encode(run), Encode(x));
  }

  /** A lone `?` between literals takes a character of two bytes in the documented reading only. */
  lemma OneByteShort(a: string, b: string) returns (s: string)
    requires EndsLiteral(a) && BeginsLiteral(b)
    ensures !Agree(a + "?" + b, s)
  {
    var x := "\U{E9}";
    s := Fill(a) + x + Fill(b);
    FillMatches(a);
    FillMatches(b);
    GlobConcat(CHARS, a, Fill(a), "?", x);
    GlobConcat(CHARS, a + "?", Fill(a) + x, b, Fill(b));
    if GlobMatch(BYTES, Encode(a + "?" + b), Encode(s)) {
      NoShift(a, b, s);
    }
  }

  lemma SplitAtQuestion<T(!new)>(w: Wild<T>, p: seq<T>, q: seq<T>, t: seq<T>) returns (i: nat)
    requires GlobMatch(w, p + [w.question] + q, t) && w.star != w.question
    ensures i < |t| && GlobMatch(w, p, t[..i]) && GlobMatch(w, q, t[i + 1..])
  {
    var j := GlobSplit(w, p + [w.question], q, t);
    i := GlobSplit(w, p, [w.question], t[..j]);
    assert [w.question][1..] == [];
    assert |t[..j][i..]| == 1 && t[..j][..i] == t[..i];
  }

  lemma EncodeAround(a: string, x: string, b: string)
    ensures Encode(a + x + b) == Encode(a) + Encode(x) + Encode(b)
  {
    EncodeConcat(a + x, b);
    EncodeConcat(a, x);
  }

  lemma NoShift(a: string, b: string, s: string)
    requires EndsLiteral(a) && BeginsLiteral(b) && s == Fill(a) + "\U{E9}" + Fill(b)
    ensures !GlobMatch(BYTES, Encode(a + "?" + b), Encode(s))
  {
    TwoBytes();
    OneChar('?');
    EncodeAround(a, "?", b);
    EncodeAround(Fill(a), "\U{E9}", Fill(b));
    Shifted(a, b, Encode(s));
  }

  /** One of the two bytes would have to stand where a literal begins or ends. */
  lemma Shifted(a: string, b: string, t: seq<byte>)
    requires EndsLiteral(a) && BeginsLiteral(b) && t == Encode(Fill(a)) + [0xC3, 0xA9] + Encode(Fill(b))
    ensures !GlobMatch(BYTES, Encode(a) + [0x3F] + Encode(b), t)
  {
    if GlobMatch(BYTES, Encode(a) + [0x3F] + Encode(b), t) {
      var i := SplitAtQuestion(BYTES, Encode(a), Encode(b), t);
      FillMatches(a);
      FillMatches(b);
      NeedsSolid(BYTES, Encode(a), t[..i]);
      NeedsSolid(BYTES, Encode(b), t[i + 1..]);
      var n := |Encode(Fill(a))|;
      if i == n {
        assert t[i + 1..][0] == 0xA9;
        FirstLiteral(b, t[i + 1..]);
      } else {
        assert t[..i][n] == 0xC3;
        LastLiteral(a, t[..i]);
      }
    }
  }

  lemma LastSymbol<T(!new)>(w: Wild<T>, p: seq<T>, x: T, t: seq<T>)
    requires GlobMatch(w, p + [x], t) && !Wildcard(w, x)
    ensures t != [] && t[|t| - 1] == x
  {
    var i := GlobSplit(w, p, [x], t);
    assert [x][1..] == [];
    assert |t[i..]| == 1 && t[i..][0] == x;
  }

  lemma CharEnd(c: char) returns (init: seq<byte>, x: byte)
    requires !Wildcard(CHARS, c)
    ensures EncodeChar(c) == init + [x] && x < 0xC0 && !Wildcard(BYTES, x)
  {
    var b := EncodeChar(c);
    CharBytes(c);
    init, x := b[..|b| - 1], b[|b| - 1];
    assert x in b;
  }

  lemma LastByte(head: string, c: char) returns (p: seq<byte>, x: byte)
    requires !Wildcard(CHARS, c)
    ensures Encode(head + [c]) == p + [x] && x < 0xC0 && !Wildcard(BYTES, x)
  {
    var init: seq<byte>;
    init, x := CharEnd(c);
    EncodeConcat(head, [c]);
    OneChar(c);
    p := Encode(head) + init;
    Assoc(Encode(head), init, [x]);
  }

  lemma LastLiteral(a: string, t: seq<byte>)
    requires EndsLiteral(a) && GlobMatch(BYTES, Encode(a), t) && t != []
    ensures t[|t| - 1] < 0xC0
  {
    if a != "" {
      InitLast(a);
      var p, x := LastByte(a[..|a| - 1], a[|a| - 1]);
      LastSymbol(BYTES, p, x, t);
    }
  }

  lemma FirstLiteral(b: string, t: seq<byte>)
    requires BeginsLiteral(b) && GlobMatch(BYTES, Encode(b), t) && t != []
    ensures !Tail(t[0])
  {
    if b != "" {
      CharBytes(b[0]);
      LiteralsMatch(BYTES, EncodeChar(b[0]), Encode(b[1..]), t);
    }
  }

  // ---------- The exact conditions ----------

  /** A pattern matches the names it is documented to match exactly when every `?` in it stands next
      to a `*` and no run of wildcards has two of them. */
  lemma PatternAgreesIff(p: string)
    ensures (forall s :: SegmentMatches(p, s) <==> MeansInCharacters(p, s)) <==> Loose(p)
  {
    forall s ensures MeansInCharacters(p, s) <==> GlobMatch(CHARS, p, s) {
      GlobDecides(CHARS, p, s);
    }
    if Loose(p) {
      forall s ensures SegmentMatches(p, s) <==> MeansInCharacters(p, s) {
        LooseAgrees(p, s);
      }
    } else {
      var a, run, b := FindBadRun(p);
      SolidRun(run);
      var s: string;
      if Questions(CHARS, run) >= 2 {
        s := TooFewCharacters(a, run, b);
      } else {
        s := OneByteShort(a, b);
      }
      assert SegmentMatches(p, s) <==> !MeansInCharacters(p, s);
    }
  }

  lemma {:induction false} NoQuestionIsLoose(p: string)
    requires '?' !in p
    ensures Loose(p)
    decreases |p|
  {
    var n := RunLength(p);
    NoQuestions(p[..n]);
    if n < |p| {
      NoQuestionIsLoose(p[n + 1..]);
    }
  }

  lemma {:induction false} NoQuestions(run: string)
    requires '?' !in run
    ensures Questions(CHARS, run) == 0
  {
    if run != "" {
      NoQuestions(run[1..]);
    }
  }

  lemma {:induction false} AsciiAgrees(p: string, s: string)
    requires Ascii(s)
    ensures Agree(p, s)
    decreases |p|
  {
    if p != "" {
      forall j | 0 <= j <= |s| ensures Agree(p[1..], s[j..]) {
        assert forall c | c in s[j..] :: c in s;
        AsciiAgrees(p[1..], s[j..]);
      }
      if Wildcard(CHARS, p[0]) {
        AsciiWildcard(p, s);
      } else {
        LiteralAgrees(p, s);
      }
    }
  }

  lemma AsciiWildcard(p: string, s: string)
    requires Ascii(s) && p != "" && Wildcard(CHARS, p[0]) && forall j | 0 <= j <= |s| :: Agree(p[1..], s[j..])
    ensures Agree(p, s)
  {
    AtLeastAsLong(s);
    forall j | 0 <= j <= |s|
      ensures GlobMatch(BYTES, Encode(p[1..]), Encode(s)[j..]) <==> GlobMatch(CHARS, p[1..], s[j..])
    {
      AsciiBytes(s, j);
    }
    assert Encode(p) == [p[0] as int] + Encode(p[1..]);
    assert Encode(p)[1..] == Encode(p[1..]);
    WildcardAgrees(p, s, Encode(p), Encode(s));
  }

  /** A wildcard does the same to two texts of one length that the rest of the pattern treats alike. */
  lemma WildcardAgrees(p: string, s: string, q: seq<byte>, t: seq<byte>)
    requires p != "" && q != [] && |s| == |t| && Wildcard(CHARS, p[0]) && q[0] as int == p[0] as int
    requires forall j | 0 <= j <= |s| :: GlobMatch(BYTES, q[1..], t[j..]) <==> GlobMatch(CHARS, p[1..], s[j..])
    ensures GlobMatch(BYTES, q, t) <==> GlobMatch(CHARS, p, s)
  {
    if p[0] == '*' {
      if i :| 0 <= i <= |t| && GlobMatch(BYTES, q[1..], t[i..]) {
        assert GlobMatch(CHARS, p[1..], s[i..]);
      }
      if i :| 0 <= i <= |s| && GlobMatch(CHARS, p[1..], s[i..]) {
        assert GlobMatch(BYTES, q[1..], t[i..]);
      }
    }
  }

  lemma AsciiBytes(s: string, j: nat)
    requires Ascii(s) && j <= |s|
    ensures j <= |Encode(s)| && Encode(s[j..]) == Encode(s)[j..]
  {
    assert s == s[..j] + s[j..];
    assert forall c | c in s[..j] :: c in s;
    EncodeConcat(s[..j], s[j..]);
    AtLeastAsLong(s[..j]);
  }

  /** A pattern without `?`, and any pattern on an ASCII name, reads as documented. */
  lemma ReadsCharacters(p: string, s: string)
    requires '?' !in p || Ascii(s)
    ensures SegmentMatches(p, s) <==> MeansInCharacters(p, s)
  {
    GlobDecides(CHARS, p, s);
    if Ascii(s) {
      AsciiAgrees(p, s);
    } else {
      NoQuestionIsLoose(p);
      LooseAgrees(p, s);
    }
  }

  function QuestionMarks(n: nat): (p: string)
    ensures |p| == n && AllWild(CHARS, p) && '*' !in p && Questions(CHARS, p) == n
  {
    if n == 0 then "" else "?" + QuestionMarks(n - 1)
  }

  /** Every pattern reads a name as documented exactly when the name is ASCII. */
  lemma NameAgreesIff(s: string)
    ensures (forall p :: SegmentMatches(p, s) <==> MeansInCharacters(p, s)) <==> Ascii(s)
  {
    forall p ensures MeansInCharacters(p, s) <==> GlobMatch(CHARS, p, s) {
      GlobDecides(CHARS, p, s);
    }
    if Ascii(s) {
      forall p ensures SegmentMatches(p, s) <==> MeansInCharacters(p, s) {
        AsciiAgrees(p, s);
      }
    } else {
      var p := QuestionMarks(|s|);
      CountsAgree(p, s);
      AtLeastAsLong(s);
      assert SegmentMatches(p, s) <==> !MeansInCharacters(p, s);
    }
  }

  /** Question marks alone count the symbols of a name. */
  lemma CountsAgree(p: string, s: string)
    requires AllWild(CHARS, p) && '*' !in p
    ensures GlobMatch(CHARS, p, s) <==> |s| == Questions(CHARS, p)
    ensures GlobMatch(BYTES, Encode(p), Encode(s)) <==> |Encode(s)| == Questions(CHARS, p)
  {
    WildBytes(p);
    RunAlone(CHARS, p, s);
    RunAlone(BYTES, Encode(p), Encode(s));
  }

  /** The smallest case: `?` matches a one-character name exactly when the character is ASCII. */
  lemma QuestionMarkIsOneByte(c: char)
    ensures SegmentMatches("?", [c]) <==> c as int < 0x80
    ensures MeansInCharacters("?", [c])
  {
    CountsAgree("?", [c]);
    AtLeastAsLong([c]);
    assert c in [c];
    GlobDecides(CHARS, "?", [c]);
  }
}
