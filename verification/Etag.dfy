// Weak entity tags: how they identify the state of a file and how `If-None-Match` is matched.

module Etag {
  import opened Text

  /** The modification time in nanoseconds counts from the epoch; an earlier one counts as zero. */
  function Clamp(modified: int): nat {
    if modified < 0 then 0 else modified
  }

  /** The opaque part of the tag of a file state. */
  function Mark(modified: int, length: nat): string {
    Numeral(Clamp(modified), 16) + ['-'] + Numeral(length, 16)
  }

  /** `compute_weak_etag`. */
  function WeakEtag(modified: int, length: nat): string {
    ['W', '/', '"'] + Mark(modified, length) + ['"']
  }

  function TrimQuotesStart(s: string): string {
    if s != [] && s[0] == '"' then TrimQuotesStart(s[1..]) else s
  }

  function TrimQuotesEnd(s: string): string {
    if s != [] && s[|s| - 1] == '"' then TrimQuotesEnd(s[..|s| - 1]) else s
  }

  /** `etag_opaque_value`. */
  function Opaque(tag: string): string {
    var trimmed := Trim(tag);
    var strong := if ['W', '/'] <= trimmed then trimmed[2..] else trimmed;
    TrimQuotesEnd(TrimQuotesStart(strong))
  }

  /** `etag_matches_weakly`. */
  predicate MatchesWeakly(candidate: string, current: string) {
    Opaque(candidate) == Opaque(current)
  }

  /** `if_none_match_matches`. */
  predicate NoneMatch(header: string, current: string) {
    var value := Trim(header);
    value == "*" || exists tag | tag in Split(value, ',') :: MatchesWeakly(tag, current)
  }

  // ---------- Tags and file states ----------

  lemma MarkChars(modified: int, length: nat)
    ensures forall c | c in Mark(modified, length) :: c == '-' || '0' <= c <= '9' || 'a' <= c <= 'f'
    ensures Mark(modified, length) != ""
  {
    NumeralChars(Clamp(modified), 16);
    NumeralChars(length, 16);
  }

  lemma MarkInjective(m1: int, l1: nat, m2: int, l2: nat)
    requires Mark(m1, l1) == Mark(m2, l2)
    ensures Clamp(m1) == Clamp(m2) && l1 == l2
  {
    var a1, b1, a2, b2 := Numeral(Clamp(m1), 16), Numeral(l1, 16), Numeral(Clamp(m2), 16), Numeral(l2, 16);
    NumeralChars(Clamp(m1), 16);
    NumeralChars(Clamp(m2), 16);
    FindFirst(a1, '-', b1);
    FindFirst(a2, '-', b2);
    assert a1 == Mark(m1, l1)[..|a1|] && a2 == Mark(m2, l2)[..|a2|];
    assert b1 == Mark(m1, l1)[|a1| + 1..] && b2 == Mark(m2, l2)[|a2| + 1..];
    NumeralInjective(Clamp(m1), Clamp(m2), 16);
    NumeralInjective(l1, l2, 16);
  }

  lemma QuotesTrimmed(s: string)
    requires s != "" && s[0] != '"' && s[|s| - 1] != '"'
    ensures TrimQuotesEnd(TrimQuotesStart(['"'] + s + ['"'])) == s
  {
  }

  /** The two forms in which a client may return a tag, weak and strong, with any white space around
      it, have the same opaque value. */
  lemma OpaqueOfTag(pre: string, modified: int, length: nat, post: string)
    requires AllSpace(pre) && AllSpace(post)
    ensures Opaque(pre + WeakEtag(modified, length) + post) == Mark(modified, length)
    ensures Opaque(pre + (['"'] + Mark(modified, length) + ['"']) + post) == Mark(modified, length)
  {
    var quoted := ['"'] + Mark(modified, length) + ['"'];
    UnquotedMark(modified, length);
    PaddedTag(pre, quoted, post);
    PaddedTag(pre, WeakEtag(modified, length), post);
    assert WeakEtag(modified, length)[2..] == quoted;
    assert quoted[0] == '"';
  }

  lemma PaddedTag(pre: string, tag: string, post: string)
    requires AllSpace(pre) && AllSpace(post) && tag != "" && (tag[0] == 'W' || tag[0] == '"') && tag[|tag| - 1] == '"'
    ensures Trim(pre + tag + post) == tag
  {
    TrimPadded(pre, tag, post);
  }

  lemma UnquotedMark(modified: int, length: nat)
    ensures TrimQuotesEnd(TrimQuotesStart(['"'] + Mark(modified, length) + ['"'])) == Mark(modified, length)
  {
    var mark := Mark(modified, length);
    MarkChars(modified, length);
    assert mark[0] in mark && mark[|mark| - 1] in mark;
    QuotesTrimmed(mark);
  }

  /** The same length, and modification times that agree to the nanosecond or both lie before the epoch. */
  predicate SameState(m1: int, l1: nat, m2: int, l2: nat) {
    l1 == l2 && (m1 == m2 || (m1 <= 0 && m2 <= 0))
  }

  /** Two computed tags match exactly when the files have the same length and the same modification
      time, to the nanosecond, all times before the epoch being one. */
  lemma TagsIdentifyStates(m1: int, l1: nat, m2: int, l2: nat)
    ensures MatchesWeakly(WeakEtag(m1, l1), WeakEtag(m2, l2)) <==> SameState(m1, l1, m2, l2)
  {
    OpaqueUnpadded(m1, l1);
    OpaqueUnpadded(m2, l2);
    if Mark(m1, l1) == Mark(m2, l2) {
      MarkInjective(m1, l1, m2, l2);
    }
  }

  lemma OpaqueUnpadded(modified: int, length: nat)
    ensures Opaque(WeakEtag(modified, length)) == Mark(modified, length)
  {
    OpaqueOfTag([], modified, length, []);
    assert [] + WeakEtag(modified, length) + [] == WeakEtag(modified, length);
  }

  // ---------- If-None-Match ----------

  lemma TrimOuter(pre: string, s: string, post: string)
    requires AllSpace(pre) && AllSpace(post)
    ensures Trim(pre + s + post) == Trim(s)
  {
    var a, b := TrimSplits(s);
    assert pre + s + post == (pre + a) + Trim(s) + (b + post);
    TrimPadded(pre + a, Trim(s), b + post);
  }

  /** Some entry of the comma-separated list matches. */
  predicate SomeTag(list: string, current: string) {
    exists tag | tag in Split(list, ',') :: MatchesWeakly(tag, current)
  }

  lemma OneEntry(entry: string, current: string)
    requires ',' !in entry
    ensures SomeTag(entry, current) <==> MatchesWeakly(entry, current)
  {
  }

  lemma ListsJoin(s: string, t: string, current: string)
    ensures SomeTag(s + [','] + t, current) <==> SomeTag(s, current) || SomeTag(t, current)
  {
    SplitAround(s, ',', t);
    assert forall e :: e in Split(s, ',') + Split(t, ',') <==> e in Split(s, ',') || e in Split(t, ',');
  }

  lemma PaddedEntry(pre: string, entry: string, post: string, current: string)
    requires AllSpace(pre) && AllSpace(post) && ',' !in entry
    ensures ',' !in pre + entry + post
    ensures SomeTag(pre + entry + post, current) <==> SomeTag(entry, current)
  {
    assert !IsSpace(',');
    TrimOuter(pre, entry, post);
    OneEntry(pre + entry + post, current);
    OneEntry(entry, current);
  }

  lemma SpaceBefore(pre: string, s: string, current: string)
    requires AllSpace(pre)
    ensures SomeTag(pre + s, current) <==> SomeTag(s, current)
  {
    var i := Find(s, ',');
    var head := s[..i];
    PaddedEntry(pre, head, [], current);
    assert pre + head + [] == pre + head;
    if i < |s| {
      var rest := s[i + 1..];
      assert s == head + [','] + rest && pre + s == (pre + head) + [','] + rest;
      ListsJoin(head, rest, current);
      ListsJoin(pre + head, rest, current);
    } else {
      assert head == s;
    }
  }

  lemma {:induction false} SpaceAfter(s: string, post: string, current: string)
    requires AllSpace(post)
    ensures SomeTag(s + post, current) <==> SomeTag(s, current)
    decreases |s|
  {
    var i := Find(s, ',');
    if i < |s| {
      var head, rest := s[..i], s[i + 1..];
      SpaceAfter(rest, post, current);
      assert s == head + [','] + rest && s + post == head + [','] + (rest + post);
      ListsJoin(head, rest, current);
      ListsJoin(head, rest + post, current);
    } else {
      PaddedEntry([], s, post, current);
      assert [] + s + post == s + post;
    }
  }

  /** White space around the whole header makes no difference to its entries. */
  lemma NoneMatchEntries(header: string, current: string)
    ensures NoneMatch(header, current) <==> Trim(header) == "*" || SomeTag(header, current)
  {
    var pre, post := TrimSplits(header);
    assert header == pre + (Trim(header) + post);
    SpaceBefore(pre, Trim(header) + post, current);
    SpaceAfter(Trim(header), post, current);
  }

  lemma TagEntry(pre: string, m1: int, l1: nat, post: string, m2: int, l2: nat)
    requires AllSpace(pre) && AllSpace(post)
    ensures SomeTag(pre + WeakEtag(m1, l1) + post, WeakEtag(m2, l2)) <==> SameState(m1, l1, m2, l2)
  {
    MarkChars(m1, l1);
    PaddedEntry(pre, WeakEtag(m1, l1), post, WeakEtag(m2, l2));
    OneEntry(WeakEtag(m1, l1), WeakEtag(m2, l2));
    TagsIdentifyStates(m1, l1, m2, l2);
  }

  /** A joined list has a matching entry exactly when one of its parts has one. */
  lemma {:induction false} PartsMatch(parts: seq<string>, current: string)
    requires parts != []
    ensures SomeTag(Join(parts, ','), current) <==> exists i :: 0 <= i < |parts| && SomeTag(parts[i], current)
  {
    if |parts| > 1 {
      var rest := parts[1..];
      assert forall i :: 0 <= i < |rest| ==> rest[i] == parts[i + 1];
      PartsMatch(rest, current);
      ListsJoin(parts[0], Join(rest, ','), current);
    }
  }

  /** The tag as it was sent, or in its strong form. */
  predicate FormOfTag(tag: string, modified: int, length: nat) {
    tag == WeakEtag(modified, length) || tag == ['"'] + Mark(modified, length) + ['"']
  }

  lemma FormMatches(pre: string, tag: string, post: string, modified: int, length: nat)
    requires AllSpace(pre) && AllSpace(post) && FormOfTag(tag, modified, length)
    ensures SomeTag(pre + tag + post, WeakEtag(modified, length))
  {
    var current := WeakEtag(modified, length);
    MarkChars(modified, length);
    OpaqueOfTag(pre, modified, length, post);
    OpaqueUnpadded(modified, length);
    PaddedEntry(pre, tag, post, current);
    OneEntry(pre + tag + post, current);
  }

  /** A list that contains the current tag matches, wherever it stands, whatever the other parts of
      the header are and whatever white space is around it. */
  lemma ContainedTagMatches(parts: seq<string>, i: nat, pre: string, tag: string, post: string, modified: int,
                            length: nat)
    requires i < |parts| && parts[i] == pre + tag + post
    requires AllSpace(pre) && AllSpace(post) && FormOfTag(tag, modified, length)
    ensures NoneMatch(Join(parts, ','), WeakEtag(modified, length))
  {
    FormMatches(pre, tag, post, modified, length);
    PartsMatch(parts, WeakEtag(modified, length));
    NoneMatchEntries(Join(parts, ','), WeakEtag(modified, length));
  }

  /** One entry of a list a client built from tags it was given. */
  datatype Remembered = Remembered(pre: string, modified: int, length: nat, post: string)

  function Entry(r: Remembered): string {
    r.pre + WeakEtag(r.modified, r.length) + r.post
  }

  function Entries(rs: seq<Remembered>): seq<string> {
    if rs == [] then [] else [Entry(rs[0])] + Entries(rs[1..])
  }

  predicate Padded(rs: seq<Remembered>) {
    forall i :: 0 <= i < |rs| ==> AllSpace(rs[i].pre) && AllSpace(rs[i].post)
  }

  predicate Remembers(rs: seq<Remembered>, modified: int, length: nat) {
    exists i :: 0 <= i < |rs| && SameState(rs[i].modified, rs[i].length, modified, length)
  }

  lemma {:induction false} EntriesMatch(rs: seq<Remembered>, modified: int, length: nat)
    requires rs != [] && Padded(rs)
    ensures SomeTag(Join(Entries(rs), ','), WeakEtag(modified, length)) <==> Remembers(rs, modified, length)
  {
    TagEntry(rs[0].pre, rs[0].modified, rs[0].length, rs[0].post, modified, length);
    if |rs| > 1 {
      var rest := rs[1..];
      assert forall i :: 0 <= i < |rest| ==> rest[i] == rs[i + 1];
      EntriesMatch(rest, modified, length);
      assert Entries(rs)[1..] == Entries(rest);
      ListsJoin(Entry(rs[0]), Join(Entries(rest), ','), WeakEtag(modified, length));
      assert Remembers(rs, modified, length)
             <==> || SameState(rs[0].modified, rs[0].length, modified, length)
                  || Remembers(rest, modified, length) by {
        if i :| 0 <= i < |rs| && SameState(rs[i].modified, rs[i].length, modified, length) {
          assert i > 0 ==> rest[i - 1] == rs[i];
        }
      }
    }
  }

  /** A list of remembered tags matches exactly when one of the remembered states is the current one. */
  lemma RememberedMatchIff(rs: seq<Remembered>, modified: int, length: nat)
    requires rs != [] && Padded(rs)
    ensures NoneMatch(Join(Entries(rs), ','), WeakEtag(modified, length)) <==> Remembers(rs, modified, length)
  {
    EntriesMatch(rs, modified, length);
    NoneMatchEntries(Join(Entries(rs), ','), WeakEtag(modified, length));
    NotAStar(rs);
  }

  lemma NotAStar(rs: seq<Remembered>)
    requires rs != []
    ensures Trim(Join(Entries(rs), ',')) != "*"
  {
    var header := Join(Entries(rs), ',');
    var pre, post := TrimSplits(header);
    assert Entry(rs[0]) <= header;
    assert Entry(rs[0])[|rs[0].pre|] == 'W';
    assert 'W' in header && !IsSpace('W');
    assert forall c :: c in header <==> c in pre || c in Trim(header) || c in post;
  }

  // ---------- Any header ----------

  /** The tag is `W/` and, in quotes, the nanoseconds since the epoch and the length in hexadecimal. */
  lemma TagText(modified: int, length: nat)
    ensures exists a, b ::
              && WeakEtag(modified, length) == ['W', '/', '"'] + (a + ['-'] + b) + ['"']
              && AllDigits(a, 16) && ValueOf(a, 16) == (if modified > 0 then modified else 0)
              && AllDigits(b, 16) && ValueOf(b, 16) == length
  {
    NumeralValue(Clamp(modified), 16);
    NumeralValue(length, 16);
    assert WeakEtag(modified, length)
           == ['W', '/', '"'] + (Numeral(Clamp(modified), 16) + ['-'] + Numeral(length, 16)) + ['"'];
  }

  predicate Quotes(s: string) {
    forall i :: 0 <= i < |s| ==> s[i] == '"'
  }

  predicate WrapsIn(pre: string, weak: string, open: string, close: string, post: string) {
    AllSpace(pre) && AllSpace(post) && (weak == [] || weak == ['W', '/']) && Quotes(open) && Quotes(close)
  }

  /** The text is an opaque value and around it white space, `W/` or nothing, quotes. */
  ghost predicate Wraps(text: string, value: string) {
    exists pre, weak, open, close, post ::
      WrapsIn(pre, weak, open, close, post) && text == pre + (weak + (open + (value + close))) + post
  }

  lemma {:induction false} QuotesStart(s: string) returns (open: string)
    ensures s == open + TrimQuotesStart(s) && Quotes(open)
  {
    if s != [] && s[0] == '"' {
      var o := QuotesStart(s[1..]);
      open := [s[0]] + o;
    } else {
      open := [];
    }
  }

  lemma {:induction false} QuotesEnd(s: string) returns (close: string)
    ensures s == TrimQuotesEnd(s) + close && Quotes(close)
  {
    if s != [] && s[|s| - 1] == '"' {
      var c := QuotesEnd(s[..|s| - 1]);
      close := c + [s[|s| - 1]];
    } else {
      close := [];
    }
  }

  lemma {:induction false} QuotesStripped(open: string, s: string)
    requires Quotes(open) && (s == [] || s[0] != '"')
    ensures TrimQuotesStart(open + s) == s
  {
    if open == [] {
      assert open + s == s;
    } else {
      assert (open + s)[1..] == open[1..] + s;
      QuotesStripped(open[1..], s);
    }
  }

  lemma {:induction false} QuotesStrippedEnd(s: string, close: string)
    requires Quotes(close) && (s == [] || s[|s| - 1] != '"')
    ensures TrimQuotesEnd(s + close) == s
  {
    if close == [] {
      assert s + close == s;
    } else {
      var k := |close| - 1;
      assert (s + close)[..|s| + k] == s + close[..k];
      QuotesStrippedEnd(s, close[..k]);
    }
  }

  lemma OpaqueWraps(text: string)
    ensures Wraps(text, Opaque(text))
  {
    var pre, post := TrimSplits(text);
    var weak, strong := Unweakened(Trim(text));
    var open := QuotesStart(strong);
    var close := QuotesEnd(TrimQuotesStart(strong));
    assert text == pre + (weak + (open + (Opaque(text) + close))) + post;
    assert WrapsIn(pre, weak, open, close, post);
  }

  lemma Unweakened(trimmed: string) returns (weak: string, strong: string)
    ensures strong == if ['W', '/'] <= trimmed then trimmed[2..] else trimmed
    ensures trimmed == weak + strong && (weak == [] || weak == ['W', '/'])
  {
    if ['W', '/'] <= trimmed {
      weak, strong := ['W', '/'], trimmed[2..];
    } else {
      weak, strong := [], trimmed;
    }
  }

  lemma StrongPart(pre: string, weak: string, strong: string, post: string)
    requires AllSpace(pre) && AllSpace(post) && (weak == [] || weak == ['W', '/'])
    requires strong != [] && !IsSpace(strong[0]) && strong[0] != 'W' && !IsSpace(strong[|strong| - 1])
    ensures Opaque(pre + (weak + strong) + post) == TrimQuotesEnd(TrimQuotesStart(strong))
  {
    var tag := weak + strong;
    assert tag[|tag| - 1] == strong[|strong| - 1];
    if weak == [] {
      assert tag == strong;
    } else {
      assert tag[0] == 'W' && tag[1] == '/' && tag[2..] == strong;
    }
    TrimPadded(pre, tag, post);
  }

  lemma WrapsOpaque(text: string, value: string)
    requires Wraps(text, value) && value != []
    requires forall c | c in value :: !IsSpace(c) && c != '"' && c != 'W'
    ensures Opaque(text) == value
  {
    var pre, weak, open, close, post :|
      WrapsIn(pre, weak, open, close, post) && text == pre + (weak + (open + (value + close))) + post;
    assert value[0] in value && value[|value| - 1] in value;
    WrappedEnds(open, value, close);
    StrongPart(pre, weak, open + (value + close), post);
    QuotesStripped(open, value + close);
    QuotesStrippedEnd(value, close);
  }

  lemma WrappedEnds(open: string, value: string, close: string)
    requires Quotes(open) && Quotes(close) && value != []
    ensures var s := open + (value + close);
            && (s[0] == '"' || s[0] == value[0])
            && (s[|s| - 1] == '"' || s[|s| - 1] == value[|value| - 1])
            && (value + close)[0] == value[0]
  {
  }

  /** Any header at all: it matches the current state iff it is a star, or some part between commas is the
      opaque value of the state's tag, with or without `W/`, quotes and white space around it. */
  lemma HeaderMatchesIff(header: string, modified: int, length: nat)
    ensures NoneMatch(header, WeakEtag(modified, length))
            <==> Trim(header) == "*" || exists part :: part in Split(header, ',') && Wraps(part, Mark(modified, length))
  {
    NoneMatchEntries(header, WeakEtag(modified, length));
    OpaqueUnpadded(modified, length);
    forall part ensures MatchesWeakly(part, WeakEtag(modified, length)) <==> Wraps(part, Mark(modified, length)) {
      OpaqueWraps(part);
      MarkChars(modified, length);
      if Wraps(part, Mark(modified, length)) {
        WrapsOpaque(part, Mark(modified, length));
      }
    }
  }
}
