// Single byte ranges and the decisions of the download handler.

module Download {
  import opened Seqs
  import opened Options
  import opened Utf8
  import opened Text
  import Etag

  /** What a `Range` header asks for; the bounds of a range are inclusive. */
  datatype RangeDecision = Full | Partial(start: nat, end: nat) | NotSatisfiable

  function LowerAscii(s: string): string {
    if s == "" then ""
    else [if 'A' <= s[0] <= 'Z' then (s[0] as int + 32) as char else s[0]] + LowerAscii(s[1..])
  }

  /** `parse_single_byte_range`. */
  function ParseRange(value: string, total: nat): (d: RangeDecision)
    ensures d.Partial? ==> d.start <= d.end < total
  {
    var i := Find(value, '=');
    if i == |value| || LowerAscii(value[..i]) != "bytes" then Full
    else ParseSpec(Trim(value[i + 1..]), total)
  }

  function ParseSpec(spec: string, total: nat): (d: RangeDecision)
    ensures d.Partial? ==> d.start <= d.end < total
  {
    if total == 0 then NotSatisfiable
    else if ',' in spec then Full
    else
      var dash := Find(spec, '-');
      if dash == |spec| then Full
      else if dash == 0 then
        match ParseU64(Trim(spec[1..]))
        case None => Full
        case Some(n) => if n == 0 then NotSatisfiable else Partial(if n < total then total - n else 0, total - 1)
      else
        match ParseU64(Trim(spec[..dash]))
        case None => Full
        case Some(start) =>
          if start >= total then NotSatisfiable
          else
            var last := Trim(spec[dash + 1..]);
            match ParseU64(last)
            case None => if last == "" then Partial(start, total - 1) else Full
            case Some(end) =>
              if end < start then Full else Partial(start, if end < total then end else total - 1)
  }

  // ---------- The three forms of a range ----------

  /** `first-last`, `first-` and `-length`. */
  datatype RangeSpec = FromTo(first: nat, last: nat) | From(first: nat) | Suffix(length: nat)

  function Digits(n: nat): string {
    Numeral(n, 10)
  }

  function PrintSpec(r: RangeSpec): string {
    match r
    case FromTo(first, last) => Digits(first) + ['-'] + Digits(last)
    case From(first) => Digits(first) + ['-']
    case Suffix(length) => ['-'] + Digits(length)
  }

  predicate Fits(r: RangeSpec) {
    match r
    case FromTo(first, last) => first <= MAX_U64 && last <= MAX_U64
    case From(first) => first <= MAX_U64
    case Suffix(length) => length <= MAX_U64
  }

  /** The positions the range selects in a file (section 14.1.2 of RFC 9110). */
  predicate Selects(r: RangeSpec, total: nat, position: nat) {
    position < total
    && match r
       case FromTo(first, last) => first <= position <= last
       case From(first) => first <= position
       case Suffix(length) => position + length >= total
  }

  /** A range whose first position lies behind its last one is invalid. */
  predicate Valid(r: RangeSpec) {
    r.FromTo? ==> r.first <= r.last
  }

  lemma DigitsAreClean(n: nat)
    ensures Trim(Digits(n)) == Digits(n) && Digits(n) != ""
    ensures '-' !in Digits(n) && ',' !in Digits(n)
    ensures forall c | c in Digits(n) :: !IsSpace(c)
  {
    var s := Digits(n);
    NumeralChars(n, 10);
    assert forall c | NumeralChar(c, 10) :: !IsSpace(c) && c != '-' && c != ',';
    assert s[0] in s && s[|s| - 1] in s;
    TrimTrimmed(s);
  }

  lemma FromToParsed(first: nat, last: nat, total: nat)
    requires first <= MAX_U64 && last <= MAX_U64 && total > 0
    ensures ParseSpec(PrintSpec(FromTo(first, last)), total)
         == if first >= total then NotSatisfiable else if last < first then Full
            else Partial(first, if last < total then last else total - 1)
  {
    var spec := PrintSpec(FromTo(first, last));
    DigitsAreClean(first);
    DigitsAreClean(last);
    FindFirst(Digits(first), '-', Digits(last));
    assert spec[..|Digits(first)|] == Digits(first);
    assert spec[|Digits(first)| + 1..] == Digits(last);
    ParseNumeral(first);
    ParseNumeral(last);
  }

  // ---------- What a range header means ----------

  ghost predicate Padded(text: string, core: string) {
    exists pre, post :: AllSpace(pre) && AllSpace(post) && text == pre + core + post
  }

  predicate Decimal(digits: string, n: nat) {
    digits != "" && AllDigits(digits, 10) && ValueOf(digits, 10) == n <= 18446744073709551615
  }

  /** How a header may write a number: white space around it, a plus sign or none, decimal digits,
      at most 64 bits. */
  ghost predicate Writes(text: string, n: nat) {
    exists core :: Padded(text, core) && (Decimal(core, n) || (['+'] <= core && Decimal(core[1..], n)))
  }

  /** The grammar of a single range, whatever the file. */
  ghost predicate Denotes(spec: string, r: RangeSpec) {
    && Valid(r)
    && match r
       case FromTo(first, last) => exists a, b :: spec == a + ['-'] + b && Writes(a, first) && Writes(b, last)
       case From(first) => exists a, b :: spec == a + ['-'] + b && Writes(a, first) && AllSpace(b)
       case Suffix(length) => exists b :: spec == ['-'] + b && Writes(b, length)
  }

  /** The text is no list and begins with a position at or behind the end of the file. */
  ghost predicate BehindEnd(spec: string, total: nat) {
    ',' !in spec && exists a, b, first: nat :: spec == a + ['-'] + b && Writes(a, first) && first >= total
  }

  /** The unit, in upper or lower case. */
  predicate BytesUnit(unit: string) {
    && |unit| == 5 && (unit[0] == 'b' || unit[0] == 'B') && (unit[1] == 'y' || unit[1] == 'Y')
    && (unit[2] == 't' || unit[2] == 'T') && (unit[3] == 'e' || unit[3] == 'E') && (unit[4] == 's' || unit[4] == 'S')
  }

  lemma {:induction false} LowerLength(s: string)
    ensures |LowerAscii(s)| == |s|
    ensures forall i :: 0 <= i < |s| ==>
              LowerAscii(s)[i] == if 'A' <= s[i] <= 'Z' then (s[i] as int + 32) as char else s[i]
  {
    if s != "" {
      LowerLength(s[1..]);
    }
  }

  lemma BytesUnitIff(unit: string)
    ensures LowerAscii(unit) == "bytes" <==> BytesUnit(unit)
  {
    LowerLength(unit);
    assert "bytes" == ['b', 'y', 't', 'e', 's'];
    if |unit| == 5 {
      assert LowerAscii(unit) == ['b', 'y', 't', 'e', 's'] <==> BytesUnit(unit);
    }
  }

  /** The header asks for bytes with this text, white space around it aside. */
  ghost predicate AsksBytes(value: string, spec: string) {
    exists unit, rest ::
      value == unit + ['='] + rest && '=' !in unit && BytesUnit(unit) && Padded(rest, spec) && Trimmed(spec)
  }

  /** The decision serves exactly the positions the range selects, or refuses if there are none. */
  ghost predicate Serves(d: RangeDecision, r: RangeSpec, total: nat) {
    match d
    case Full => false
    case NotSatisfiable => forall p: nat :: !Selects(r, total, p)
    case Partial(start, end) => start <= end && forall p: nat :: Selects(r, total, p) <==> start <= p <= end
  }

  lemma PaddedIff(text: string, core: string)
    requires Trimmed(core)
    ensures Padded(text, core) <==> Trim(text) == core
  {
    if Padded(text, core) {
      var pre, post :| AllSpace(pre) && AllSpace(post) && text == pre + core + post;
      TrimPadded(pre, core, post);
    }
    var pre, post := TrimSplits(text);
  }

  lemma DecimalIff(core: string, n: nat)
    ensures Decimal(core, n) || (['+'] <= core && Decimal(core[1..], n)) <==> ParseU64(core) == Some(n)
    ensures ParseU64(core) == Some(n) ==> Trimmed(core) && core != "" && '-' !in core && ',' !in core
  {
    assert forall c | IsSpace(c) || c == '+' || c == '-' || c == ',' :: DigitOf(c) == None;
    if core != "" {
      assert core[0] in core && core[|core| - 1] in core;
      assert |core| > 1 ==> core[1..][|core| - 2] in core[1..];
      assert forall c | c in core :: c == core[0] || c in core[1..];
    }
  }

  lemma WritesIff(text: string, n: nat)
    ensures Writes(text, n) <==> ParseU64(Trim(text)) == Some(n)
  {
    if Writes(text, n) {
      var core :| Padded(text, core) && (Decimal(core, n) || (['+'] <= core && Decimal(core[1..], n)));
      DecimalIff(core, n);
      PaddedIff(text, core);
    }
    if ParseU64(Trim(text)) == Some(n) {
      DecimalIff(Trim(text), n);
      PaddedIff(text, Trim(text));
    }
  }

  lemma WritesChars(text: string, n: nat)
    requires Writes(text, n)
    ensures text != "" && '-' !in text && ',' !in text
  {
    WritesIff(text, n);
    DecimalIff(Trim(text), n);
    var pre, post := TrimSplits(text);
    assert !IsSpace('-') && !IsSpace(',');
    assert forall c | c in text :: c in pre || c in Trim(text) || c in post;
  }

  /** The text splits at its first dash, the only one a number can end at. */
  lemma Dashed(a: string, b: string, n: nat)
    requires Writes(a, n)
    ensures var spec := a + ['-'] + b;
            && 0 < Find(spec, '-') == |a| < |spec| && spec[..|a|] == a && spec[|a| + 1..] == b
            && ParseU64(Trim(a)) == Some(n) && (',' in spec <==> ',' in b)
  {
    WritesChars(a, n);
    WritesIff(a, n);
    FindFirst(a, '-', b);
  }

  /** What follows the dash decides how a range goes on that begins with a number. */
  lemma DashedParsed(a: string, b: string, first: nat, total: nat)
    requires Writes(a, first) && ',' !in b && total > 0
    ensures var last := ParseU64(Trim(b));
            ParseSpec(a + ['-'] + b, total)
            == if first >= total then NotSatisfiable
               else if last == None then if Trim(b) == "" then Partial(first, total - 1) else Full
               else if last.value < first then Full
               else Partial(first, if last.value < total then last.value else total - 1)
  {
    Dashed(a, b, first);
  }

  lemma DenotedFromTo(spec: string, first: nat, last: nat, total: nat)
    requires Denotes(spec, FromTo(first, last)) && total > 0
    ensures ParseSpec(spec, total)
         == if first >= total then NotSatisfiable else Partial(first, if last < total then last else total - 1)
  {
    var a, b :| spec == a + ['-'] + b && Writes(a, first) && Writes(b, last);
    WritesChars(b, last);
    WritesIff(b, last);
    DashedParsed(a, b, first, total);
  }

  lemma DenotedFrom(spec: string, first: nat, total: nat)
    requires Denotes(spec, From(first)) && total > 0
    ensures ParseSpec(spec, total) == if first >= total then NotSatisfiable else Partial(first, total - 1)
  {
    var a, b :| spec == a + ['-'] + b && Writes(a, first) && AllSpace(b);
    BlankIff(b);
    assert !IsSpace(',') && ParseU64("") == None;
    DashedParsed(a, b, first, total);
  }

  lemma DenotedSuffix(spec: string, length: nat, total: nat)
    requires Denotes(spec, Suffix(length)) && total > 0
    ensures ParseSpec(spec, total)
         == if length == 0 then NotSatisfiable else Partial(if length < total then total - length else 0, total - 1)
  {
    var b :| spec == ['-'] + b && Writes(b, length);
    WritesChars(b, length);
    WritesIff(b, length);
    assert Find(spec, '-') == 0 && spec[1..] == b;
  }

  lemma DenotedServed(spec: string, r: RangeSpec, total: nat)
    requires Denotes(spec, r)
    ensures Serves(ParseSpec(spec, total), r, total)
  {
    if total > 0 {
      match r {
        case FromTo(first, last) => DenotedFromTo(spec, first, last, total);
        case From(first) => DenotedFrom(spec, first, total);
        case Suffix(length) => DenotedSuffix(spec, length, total);
      }
    }
  }

  lemma BehindEndRefused(spec: string, total: nat)
    requires BehindEnd(spec, total)
    ensures ParseSpec(spec, total) == NotSatisfiable
  {
    var a, b, first: nat :| spec == a + ['-'] + b && Writes(a, first) && first >= total;
    Dashed(a, b, first);
  }

  lemma HeededSuffix(b: string, total: nat)
    requires total > 0 && ParseSpec(['-'] + b, total) != Full
    ensures exists r :: Denotes(['-'] + b, r)
  {
    var spec := ['-'] + b;
    assert Find(spec, '-') == 0 && spec[1..] == b;
    var n := ParseU64(Trim(b)).value;
    WritesIff(b, n);
    assert Denotes(spec, Suffix(n));
  }

  lemma HeededFrom(a: string, b: string, first: nat, total: nat)
    requires 0 < total && first < total && Writes(a, first) && ',' !in b
    requires ParseSpec(a + ['-'] + b, total) != Full
    ensures exists r :: Denotes(a + ['-'] + b, r)
  {
    DashedParsed(a, b, first, total);
    if ParseU64(Trim(b)).Some? {
      var last := ParseU64(Trim(b)).value;
      WritesIff(b, last);
      assert Denotes(a + ['-'] + b, FromTo(first, last));
    } else {
      BlankIff(b);
      assert Denotes(a + ['-'] + b, From(first));
    }
  }

  /** A text that is not ignored denotes a range or starts behind the end. */
  lemma HeededDenotes(spec: string, total: nat)
    requires total > 0 && ParseSpec(spec, total) != Full && !BehindEnd(spec, total)
    ensures exists r :: Denotes(spec, r)
  {
    var dash := Find(spec, '-');
    var a, b := spec[..dash], spec[dash + 1..];
    assert spec == a + ['-'] + b;
    if dash == 0 {
      assert spec == ['-'] + b;
      HeededSuffix(b, total);
    } else {
      HeededNumber(a, b, total);
    }
  }

  lemma HeededNumber(a: string, b: string, total: nat)
    requires a != "" && '-' !in a && total > 0
    requires ParseSpec(a + ['-'] + b, total) != Full && !BehindEnd(a + ['-'] + b, total)
    ensures exists r :: Denotes(a + ['-'] + b, r)
  {
    var spec := a + ['-'] + b;
    FindFirst(a, '-', b);
    assert spec[..|a|] == a && forall c | c in b :: c in spec;
    var first := ParseU64(Trim(a)).value;
    WritesIff(a, first);
    HeededFrom(a, b, first, total);
  }

  lemma SpecAnswered(spec: string, total: nat)
    ensures forall r | Denotes(spec, r) :: Serves(ParseSpec(spec, total), r, total)
    ensures (forall r :: !Denotes(spec, r)) ==>
              ParseSpec(spec, total) == if total == 0 || BehindEnd(spec, total) then NotSatisfiable else Full
  {
    forall r | Denotes(spec, r) ensures Serves(ParseSpec(spec, total), r, total) {
      DenotedServed(spec, r, total);
    }
    if BehindEnd(spec, total) {
      BehindEndRefused(spec, total);
    } else if total > 0 && ParseSpec(spec, total) != Full {
      HeededDenotes(spec, total);
    }
  }

  /** The text behind the unit, if the unit is `bytes`. */
  function BytesText(value: string): Option<string> {
    var i := Find(value, '=');
    if i < |value| && LowerAscii(value[..i]) == "bytes" then Some(Trim(value[i + 1..])) else None
  }

  lemma AsksBytesIff(value: string, spec: string)
    ensures AsksBytes(value, spec) <==> BytesText(value) == Some(spec)
  {
    if AsksBytes(value, spec) {
      var unit, rest :|
        && value == unit + ['='] + rest && '=' !in unit && BytesUnit(unit)
        && Padded(rest, spec) && Trimmed(spec);
      BytesUnitIff(unit);
      FindFirst(unit, '=', rest);
      assert value[..|unit|] == unit && value[|unit| + 1..] == rest;
      PaddedIff(rest, spec);
    } else if BytesText(value) == Some(spec) {
      BytesAsked(value);
    }
  }

  lemma BytesAsked(value: string)
    requires BytesText(value).Some?
    ensures AsksBytes(value, BytesText(value).value)
  {
    var i := Find(value, '=');
    var unit, rest := value[..i], value[i + 1..];
    var pre, post := TrimSplits(rest);
    PaddedIff(rest, Trim(rest));
    BytesUnitIff(unit);
    assert value == unit + ['='] + rest;
  }

  /** What a `Range` header leads to, for every header and file size. One that denotes a range of
      bytes is answered with exactly the positions the range selects (section 14.1.2 of RFC 9110)
      and refused if it selects none. Any other is ignored, unless it asks for bytes and the file is
      empty or the text begins with a position behind the end: that one is refused too. */
  lemma RangeAnswered(value: string, total: nat)
    ensures forall spec, r | AsksBytes(value, spec) && Denotes(spec, r) :: Serves(ParseRange(value, total), r, total)
    ensures (forall spec, r :: AsksBytes(value, spec) ==> !Denotes(spec, r)) ==>
              ParseRange(value, total)
              == if exists spec :: AsksBytes(value, spec) && (total == 0 || BehindEnd(spec, total))
                 then NotSatisfiable else Full
  {
    forall spec ensures AsksBytes(value, spec) <==> BytesText(value) == Some(spec) {
      AsksBytesIff(value, spec);
    }
    match BytesText(value) {
      case None => assert ParseRange(value, total) == Full;
      case Some(spec) =>
        assert ParseRange(value, total) == ParseSpec(spec, total);
        SpecAnswered(spec, total);
    }
  }

  /** Every range the standard allows can be asked for: its canonical print denotes it. */
  lemma PrintDenotes(r: RangeSpec)
    requires Fits(r) && Valid(r)
    ensures Denotes(PrintSpec(r), r)
  {
    match r {
      case FromTo(first, last) =>
        DigitsWrite(first);
        DigitsWrite(last);
      case From(first) =>
        DigitsWrite(first);
        assert PrintSpec(r) == Digits(first) + ['-'] + "" && AllSpace("");
      case Suffix(length) => DigitsWrite(length);
    }
  }

  lemma DigitsWrite(n: nat)
    requires n <= MAX_U64
    ensures Writes(Digits(n), n)
  {
    DigitsAreClean(n);
    ParseNumeral(n);
    WritesIff(Digits(n), n);
  }

  /** "Malformed, so ignored" depends on the file: the same malformed text is ignored for a file of
      ten bytes and refused for one of five. */
  lemma MalformedRefused()
    ensures forall r :: !Denotes("9-x", r)
    ensures ParseSpec("9-x", 10) == Full && ParseSpec("9-x", 5) == NotSatisfiable
  {
    var spec := "9-x";
    assert spec == "9" + ['-'] + "x" && "9" == Digits(9);
    DigitsWrite(9);
    NotANumber();
    DashedParsed("9", "x", 9, 10);
    DashedParsed("9", "x", 9, 5);
    forall r ensures !Denotes(spec, r) {
      if Denotes(spec, r) {
        DenotedServed(spec, r, 10);
      }
    }
  }

  lemma NotANumber()
    ensures Trim("x") == "x" && ParseU64("x") == None
  {
    TrimTrimmed("x");
    assert 'x' in "x" && DigitOf('x') == None;
  }

  // ---------- The handler ----------

  /** The opened file: its bytes, and its modification time unless it cannot be read. */
  datatype File = File(content: seq<byte>, modified: Option<int>)

  /** The request headers that matter. Whether an `If-Range` validator matches is an input. */
  datatype Headers = Headers(noneMatch: Option<string>, range: Option<string>, ifRange: Option<bool>)

  datatype Response =
    | NotModified
    | Whole(length: nat, body: seq<byte>)
    | Part(start: nat, end: nat, total: nat, length: nat, body: seq<byte>)
    | RangeRefused(total: nat)

  function Tag(f: File): Option<string> {
    if f.modified.Some? then Some(Etag.WeakEtag(f.modified.value, |f.content|)) else None
  }

  /** `take` after `seek`: at most `length` bytes from `start` on. */
  function ReadFrom(content: seq<byte>, start: nat, length: nat): seq<byte> {
    if start >= |content| then []
    else if start + length <= |content| then content[start..start + length]
    else content[start..]
  }

  /** What the range headers come to: a failed If-Range widens a range to the whole file. */
  function Asked(h: Headers, total: nat): (d: RangeDecision)
    ensures d.Partial? ==> d.start <= d.end < total
  {
    var asked := if h.range.Some? then ParseRange(h.range.value, total) else Full;
    if asked.Partial? && h.ifRange == Some(false) then Full else asked
  }

  function Answer(content: seq<byte>, d: RangeDecision): Response
    requires d.Partial? ==> d.start <= d.end
  {
    match d
    case NotSatisfiable => RangeRefused(|content|)
    case Full => Whole(|content|, content)
    case Partial(start, end) =>
      var length := end - start + 1;
      Part(start, end, |content|, length, ReadFrom(content, start, length))
  }

  /** The decisions of `download_inner` once the file is open. */
  function Respond(f: File, h: Headers): Response {
    if Tag(f).Some? && h.noneMatch.Some? && Etag.NoneMatch(h.noneMatch.value, Tag(f).value) then NotModified
    else Answer(f.content, Asked(h, |f.content|))
  }

  /** A partial response lies inside the file, carries exactly the bytes its Content-Range names and
      as many as its Content-Length says; a full one carries the file. */
  lemma BodyMatchesHeaders(f: File, h: Headers)
    ensures match Respond(f, h)
            case Part(start, end, total, length, body) =>
              start <= end < total == |f.content| && body == f.content[start..end + 1] && length == |body|
            case Whole(length, body) => body == f.content && length == |body|
            case RangeRefused(total) => total == |f.content| && h.range.Some?
            case NotModified => h.noneMatch.Some?
  {
  }

  /** The answer to every request. It is "not modified" iff the modification time can be read and an
      If-None-Match matches the file's tag. Otherwise the Range header decides: the range it comes to is
      answered in part unless an If-Range failed, a refused range stays refused, and anything else gets the
      whole file. */
  lemma AnsweredIff(f: File, h: Headers)
    ensures var total, r := |f.content|, Respond(f, h);
            var asked := if h.range.Some? then ParseRange(h.range.value, total) else Full;
            var current := && f.modified.Some? && h.noneMatch.Some?
                           && Etag.NoneMatch(h.noneMatch.value, Etag.WeakEtag(f.modified.value, total));
            && (r.NotModified? <==> current)
            && (forall start, end ::
                  r.Part? && r.start == start && r.end == end
                  <==> !current && asked == Partial(start, end) && h.ifRange != Some(false))
            && (r.RangeRefused? <==> !current && asked.NotSatisfiable?)
            && (r.Whole? <==> !current && (asked.Full? || (asked.Partial? && h.ifRange == Some(false))))
  {
  }

  /** A validator that matches changes nothing. */
  lemma HonouredIfRange(f: File, h: Headers)
    requires h.ifRange == Some(true)
    ensures Respond(f, h) == Respond(f, h.(ifRange := None))
  {
  }

  /** A failed If-Range widens a range to the whole file, but a refused range stays refused. */
  lemma FailedIfRange(f: File, h: Headers)
    requires h.ifRange == Some(false)
    ensures !Respond(f, h).Part?
    ensures Respond(f, h).RangeRefused? <==> Respond(f, h.(ifRange := None)).RangeRefused?
    ensures Respond(f, h.(ifRange := None)).Part? ==> Respond(f, h).Whole?
  {
  }

  /** A client that sends back the tag it got for an earlier state of the file is told that nothing
      changed exactly when length and modification time are the same. */
  lemma RevalidationIff(f: File, h: Headers, modified: int, length: nat)
    requires f.modified.Some? && h.noneMatch == Some(Etag.WeakEtag(modified, length))
    ensures Respond(f, h).NotModified?
            <==> Etag.SameState(modified, length, f.modified.value, |f.content|)
  {
    var r := Etag.Remembered([], modified, length, []);
    Etag.RememberedMatchIff([r], f.modified.value, |f.content|);
    assert [r][1..] == [];
    assert Etag.Entries([r]) == [Etag.Entry(r)];
    assert Etag.Entry(r) == Etag.WeakEtag(modified, length);
    assert Join(Etag.Entries([r]), ',') == Etag.WeakEtag(modified, length);
    assert Etag.Remembers([r], f.modified.value, |f.content|)
           <==> Etag.SameState([r][0].modified, [r][0].length, f.modified.value, |f.content|);
  }

  // ---------- Downloading in chunks ----------

  function ChunkHeader(first: nat, last: nat): string {
    ['b', 'y', 't', 'e', 's'] + ['='] + PrintSpec(FromTo(first, last))
  }

  function ChunkRequest(offset: nat, chunk: nat): Headers
    requires chunk >= 1
  {
    Headers(None, Some(ChunkHeader(offset, offset + chunk - 1)), None)
  }

  lemma ChunkParsed(first: nat, last: nat, total: nat)
    requires first <= last <= MAX_U64
    ensures ParseRange(ChunkHeader(first, last), total)
         == if first >= total then NotSatisfiable else Partial(first, if last < total then last else total - 1)
  {
    var spec, unit := PrintSpec(FromTo(first, last)), ['b', 'y', 't', 'e', 's'];
    var value := ChunkHeader(first, last);
    FindFirst(unit, '=', spec);
    assert value[..5] == unit && value[6..] == spec;
    LowerBytes();
    DigitsAreClean(first);
    DigitsAreClean(last);
    assert spec[0] == Digits(first)[0] && spec[|spec| - 1] == Digits(last)[|Digits(last)| - 1];
    TrimTrimmed(spec);
    if total > 0 {
      FromToParsed(first, last, total);
    }
  }

  lemma ChunkAsked(offset: nat, chunk: nat, total: nat)
    requires chunk >= 1 && offset + chunk - 1 <= MAX_U64
    ensures Asked(ChunkRequest(offset, chunk), total)
         == if offset >= total then NotSatisfiable
            else Partial(offset, if offset + chunk - 1 < total then offset + chunk - 1 else total - 1)
  {
    ChunkParsed(offset, offset + chunk - 1, total);
  }

  lemma ChunkAnswer(f: File, offset: nat, chunk: nat)
    requires chunk >= 1 && offset + chunk - 1 <= MAX_U64
    ensures var total, r := |f.content|, Respond(f, ChunkRequest(offset, chunk));
            if offset >= total then r == RangeRefused(total)
            else r.Part? && r.start == offset && offset <= r.end < total && r.body == f.content[offset..r.end + 1]
  {
    ChunkAsked(offset, chunk, |f.content|);
    var d := Asked(ChunkRequest(offset, chunk), |f.content|);
    assert Respond(f, ChunkRequest(offset, chunk)) == Answer(f.content, d);
  }

  lemma LowerBytes()
    ensures LowerAscii(['b', 'y', 't', 'e', 's']) == "bytes"
  {
  }

  /** What a client gathers that asks for one chunk after the other, going on behind the last
      position it was given, until a range is refused; None if any other answer comes. The function
      `ask` is the server's answer to the chunk request at an offset. */
  function Gather(ask: nat -> Response, total: nat, offset: nat): Option<seq<byte>>
    decreases total - offset
  {
    match ask(offset)
    case RangeRefused(_) => Some([])
    case Part(start, end, _, _, body) =>
      if start != offset || end < offset || end >= total then None
      else
        (match Gather(ask, total, end + 1)
         case Some(rest) => Some(body + rest)
         case None => None)
    case _ => None
  }

  function Asker(f: File, chunk: nat): nat -> Response
    requires chunk >= 1
  {
    (offset: nat) => Respond(f, ChunkRequest(offset, chunk))
  }

  function Fetch(f: File, chunk: nat): Option<seq<byte>>
    requires chunk >= 1
  {
    Gather(Asker(f, chunk), |f.content|, 0)
  }

  /** The range is refused exactly from the end of the file on. */
  lemma ChunkRefusedIff(f: File, offset: nat, chunk: nat)
    requires chunk >= 1 && offset + chunk - 1 <= MAX_U64
    ensures Respond(f, ChunkRequest(offset, chunk)).RangeRefused? <==> offset >= |f.content|
  {
    ChunkAnswer(f, offset, chunk);
  }

  /** The answer at an offset inside the file starts there and stays inside; behind the file the
      range is refused. */
  predicate Answers(ask: nat -> Response, content: seq<byte>, offset: nat) {
    var r := ask(offset);
    if offset >= |content| then r.RangeRefused?
    else r.Part? && r.start == offset <= r.end < |content| && r.body == content[offset..r.end + 1]
  }

  lemma {:induction false} GatherAll(ask: nat -> Response, content: seq<byte>, offset: nat)
    requires offset <= |content| && forall o: nat :: o <= |content| ==> Answers(ask, content, o)
    ensures Gather(ask, |content|, offset).Some? && Gather(ask, |content|, offset).value == content[offset..]
    decreases |content| - offset
  {
    assert Answers(ask, content, offset);
    if offset < |content| {
      var end := ask(offset).end;
      GatherAll(ask, content, end + 1);
      CutSlice(content, offset, end + 1);
    }
  }

  lemma AskerAnswers(f: File, chunk: nat, offset: nat)
    requires chunk >= 1 && offset + chunk - 1 <= MAX_U64
    ensures Answers(Asker(f, chunk), f.content, offset)
  {
    ChunkAnswer(f, offset, chunk);
  }

  /** Whatever the chunk size, the chunks put together are the file. */
  lemma ChunksReassemble(f: File, chunk: nat)
    requires chunk >= 1 && |f.content| + chunk - 1 <= MAX_U64
    ensures Fetch(f, chunk).Some? && Fetch(f, chunk).value == f.content
  {
    forall o: nat | o <= |f.content| ensures Answers(Asker(f, chunk), f.content, o) {
      AskerAnswers(f, chunk, o);
    }
    GatherAll(Asker(f, chunk), f.content, 0);
    Seqs.Whole(f.content);
  }
}
