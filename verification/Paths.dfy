// Request paths: validation, the decoded form the handlers fall back to, and the names under
// which the entries of a directory are listed.

module Paths {
  import opened Seqs
  import opened Options
  import opened Utf8
  import opened Percent
  import opened Text
  import opened Access

  datatype PathError = BadRequest | NotFound

  // ---------- Validation ----------

  /** A path component with no special meaning. */
  predicate Plain(part: string) {
    part != "" && part != "." && part != ".." && '/' !in part && '\\' !in part && '\0' !in part
  }

  /** The paths that validation yields: the root, or plain components joined by `/`. */
  predicate Canonical(relative: string) {
    forall part | part in PathSegments(relative) :: Plain(part)
  }

  /** The components validation keeps: empty ones and `.` are dropped. */
  function Kept(parts: seq<string>): (r: seq<string>)
    ensures forall p :: p in r <==> p in parts && p != "" && p != "."
  {
    if parts == [] then []
    else if parts[0] == "" || parts[0] == "." then Kept(parts[1..])
    else [parts[0]] + Kept(parts[1..])
  }

  /** What `validate_relative_path` yields. */
  function Normalized(input: string): Result<string, PathError> {
    var trimmed := Trim(input);
    if trimmed == "" then Ok("")
    else if '\0' in trimmed || '\\' in trimmed || trimmed[0] == '/' then Err(BadRequest)
    else if ".." in Split(trimmed, '/') then Err(NotFound)
    else Ok(Join(Kept(Split(trimmed, '/')), '/'))
  }

  /** `validate_relative_path`. */
  method ValidateRelativePath(input: string) returns (r: Result<string, PathError>)
    ensures r == Normalized(input)
  {
    var trimmed := Trim(input);
    if trimmed == "" {
      return Ok("");
    }
    if '\0' in trimmed || '\\' in trimmed || trimmed[0] == '/' {
      return Err(BadRequest);
    }
    var components := Split(trimmed, '/');
    var parts := [];
    assert components[0..] == components;
    for i := 0 to |components|
      invariant ".." !in components[..i]
      invariant Kept(components) == parts + Kept(components[i..])
    {
      assert components[i..][1..] == components[i + 1..];
      TakeNext(components, i);
      if components[i] == ".." {
        return Err(NotFound);
      }
      if components[i] != "" && components[i] != "." {
        parts := parts + [components[i]];
      }
    }
    assert components[..|components|] == components && parts + [] == parts;
    return Ok(Join(parts, '/'));
  }

  lemma SplitPart(s: string, part: string, c: char)
    requires part in Split(s, '/') && c in part
    ensures c in s
  {
  }

  lemma JoinedSegments(parts: seq<string>)
    requires forall p | p in parts :: Plain(p)
    ensures PathSegments(Join(parts, '/')) == parts && (Join(parts, '/') == "" <==> parts == [])
  {
    if parts != [] {
      SplitJoin(parts, '/');
      assert Plain(parts[0]);
    }
  }

  /** Whatever is requested, an accepted path is made of plain components. */
  lemma ValidatedIsCanonical(input: string)
    requires Normalized(input).Ok?
    ensures Canonical(Normalized(input).value)
  {
    var trimmed := Trim(input);
    if trimmed != "" {
      KeptIsPlain(trimmed);
      JoinedSegments(Kept(Split(trimmed, '/')));
    }
  }

  /** A request is refused exactly for a NUL, a backslash, a leading slash (400) or a `..` component (404);
      the segments of an accepted path are the components of the request without the idle ones. */
  lemma AcceptedIff(input: string)
    ensures var trimmed := Trim(input);
            && (Normalized(input) == Err(BadRequest) <==> '\0' in trimmed || '\\' in trimmed || "/" <= trimmed)
            && (Normalized(input) == Err(NotFound)
                <==> && '\0' !in trimmed && '\\' !in trimmed && !("/" <= trimmed)
                     && ".." in Split(trimmed, '/'))
            && (Normalized(input).Ok? ==> PathSegments(Normalized(input).value) == Kept(Split(trimmed, '/')))
  {
    var trimmed := Trim(input);
    if trimmed == "" {
      assert Split(trimmed, '/') == [""] && Kept([""]) == [];
    } else if Normalized(input).Ok? {
      KeptIsPlain(trimmed);
      JoinedSegments(Kept(Split(trimmed, '/')));
    }
  }

  lemma KeptIsPlain(trimmed: string)
    requires '\0' !in trimmed && '\\' !in trimmed && ".." !in Split(trimmed, '/')
    ensures forall p | p in Kept(Split(trimmed, '/')) :: Plain(p)
  {
    forall p | p in Kept(Split(trimmed, '/')) ensures Plain(p) {
      if '\0' in p {
        SplitPart(trimmed, p, '\0');
      }
      if '\\' in p {
        SplitPart(trimmed, p, '\\');
      }
    }
  }

  lemma {:induction false} KeptShorter(parts: seq<string>)
    ensures |Join(Kept(parts), '/')| <= |Join(parts, '/')|
  {
    if |parts| > 1 {
      KeptShorter(parts[1..]);
    }
  }

  lemma {:induction false} KeptAll(parts: seq<string>)
    requires forall p | p in parts :: Plain(p)
    ensures Kept(parts) == parts
  {
    if parts != [] {
      assert Plain(parts[0]);
      KeptAll(parts[1..]);
      assert parts == [parts[0]] + parts[1..];
    }
  }

  /** Validation leaves exactly those paths unchanged that are canonical and carry no white space
      at either end. */
  lemma UnchangedIff(relative: string)
    ensures Normalized(relative) == Ok(relative) <==> Canonical(relative) && Trimmed(relative)
  {
    var trimmed := Trim(relative);
    if Normalized(relative) == Ok(relative) {
      ValidatedIsCanonical(relative);
      if trimmed != "" {
        KeptShorter(Split(trimmed, '/'));
        JoinSplit(trimmed, '/');
      }
      var pre, post := TrimSplits(relative);
      assert |pre| == 0 && |post| == 0;
      assert relative == trimmed;
    }
    if Canonical(relative) && Trimmed(relative) && relative != "" {
      TrimTrimmed(relative);
      var parts := Split(relative, '/');
      assert PathSegments(relative) == parts;
      KeptAll(parts);
      JoinSplit(relative, '/');
      PartsContents(relative, '/', '\0');
      PartsContents(relative, '/', '\\');
      assert Plain(parts[0]) && !Plain("..");
      assert relative[0] == '/' ==> Find(relative, '/') == 0;
    }
  }

  /** Validating twice is validating once exactly when the accepted path carries no white space at
      its ends. */
  lemma ValidatedTwice(input: string)
    requires Normalized(input).Ok?
    ensures var r := Normalized(input).value; Normalized(r) == Ok(r) <==> Trimmed(r)
  {
    ValidatedIsCanonical(input);
    UnchangedIff(Normalized(input).value);
  }

  /** The accepted paths are exactly those of plain components; also one with white space at its ends
      is what some request is read as. */
  lemma AcceptedPaths(relative: string)
    ensures Canonical(relative) <==> exists requested :: Normalized(requested) == Ok(relative)
  {
    if Canonical(relative) {
      RequestForReads(relative);
    }
    if requested :| Normalized(requested) == Ok(relative) {
      ValidatedIsCanonical(requested);
    }
  }

  function RequestFor(relative: string): string {
    if relative == "" then "" else "." + ['/'] + (relative + ['/'] + "")
  }

  lemma RequestForReads(relative: string)
    requires Canonical(relative)
    ensures Normalized(RequestFor(relative)) == Ok(relative)
  {
    if relative != "" {
      RequestForParts(relative);
      RequestForClean(relative);
      JoinSplit(relative, '/');
    }
  }

  lemma RequestForParts(relative: string)
    requires relative != "" && Canonical(relative)
    ensures Kept(Split(RequestFor(relative), '/')) == Split(relative, '/') && ".." !in Split(RequestFor(relative), '/')
  {
    var parts := PathSegments(relative);
    SplitFirst(".", '/', relative + ['/'] + "");
    SplitAround(relative, '/', "");
    KeptIdle(parts);
  }

  lemma RequestForClean(relative: string)
    requires relative != "" && Canonical(relative)
    ensures var s := RequestFor(relative); Trim(s) == s && '\0' !in s && '\\' !in s && s[0] == '.'
  {
    var s := RequestFor(relative);
    TrimTrimmed(s);
    assert s[|s| - 1] == '/' && PathSegments(relative) == Split(relative, '/');
    PartsContents(relative, '/', '\0');
    PartsContents(relative, '/', '\\');
  }

  lemma KeptIdle(parts: seq<string>)
    requires forall p | p in parts :: Plain(p)
    ensures Kept(["."] + (parts + [""])) == parts && ".." !in ["."] + (parts + [""])
  {
    Cons(".", parts + [""]);
    KeptEnd(parts);
    assert !Plain("..");
  }

  lemma {:induction false} KeptEnd(parts: seq<string>)
    requires forall p | p in parts :: Plain(p)
    ensures Kept(parts + [""]) == parts
  {
    if parts == [] {
      assert parts + [""] == [""] && [""][1..] == [];
    } else {
      assert Plain(parts[0]);
      TailAppend(parts, [""]);
      KeptEnd(parts[1..]);
      HeadTail(parts);
    }
  }

  /** It is not idempotent in general: `./ x` is accepted as ` x`, which is accepted as `x`. */
  lemma NotIdempotent()
    ensures Normalized("./ x") == Ok(" x") && Normalized(" x") == Ok("x")
  {
    DotSlash(" x");
    assert "./ x" == "." + ['/'] + " x";
    SpaceDropped();
  }

  lemma SpaceDropped()
    ensures Normalized(" x") == Ok("x")
  {
    TrimPadded(" ", "x", "");
    assert " " + "x" + "" == " x";
    SingleComponent("x");
  }

  lemma SingleComponent(part: string)
    requires Plain(part)
    ensures Split(part, '/') == [part] && Kept([part]) == [part] && Join([part], '/') == part
  {
  }

  /** A leading `./` is dropped. */
  lemma DotSlash(part: string)
    requires Plain(part) && !IsSpace(part[|part| - 1])
    ensures Normalized("." + ['/'] + part) == Ok(part)
  {
    var input := "." + ['/'] + part;
    TrimTrimmed(input);
    SingleComponent(part);
    SplitFirst(".", '/', part);
    KeptDot(part);
  }

  lemma KeptDot(part: string)
    requires Plain(part)
    ensures Kept(["."] + [part]) == [part] && ".." !in ["."] + [part]
  {
    Cons(".", [part]);
    SingleComponent(part);
  }

  // ---------- The decoded form ----------

  predicate Forbidden(b: seq<byte>) {
    SLASH in b || BACKSLASH in b || 0 in b
  }

  function DecodedPart(part: string): seq<byte> {
    DecodeBytes(Encode(part))
  }

  /** The components `percent_decode_relative_path` pushes. */
  function DecodeParts(parts: seq<string>): (r: Result<seq<seq<byte>>, PathError>) {
    if parts == [] then Ok([])
    else
      var b := DecodedPart(parts[0]);
      if Forbidden(b) then Err(BadRequest)
      else if b == [DOT, DOT] then Err(NotFound)
      else
        match DecodeParts(parts[1..])
        case Err(e) => Err(e)
        case Ok(rest) => Ok(if b == [] then rest else [b] + rest)
  }

  function DecodePath(relative: string): Result<seq<seq<byte>>, PathError> {
    DecodeParts(Split(relative, '/'))
  }

  /** `percent_decode_relative_path`. */
  method PercentDecodeRelativePath(relative: string) returns (r: Result<seq<seq<byte>>, PathError>)
    ensures r == DecodePath(relative)
  {
    var components := Split(relative, '/');
    var decoded := [];
    assert components[0..] == components;
    for i := 0 to |components|
      invariant var rest := DecodeParts(components[i..]);
                var all := DecodeParts(components);
                if rest.Ok? then all.Ok? && all.value == decoded + rest.value else all == rest
    {
      assert components[i..][1..] == components[i + 1..];
      var bytes := PercentDecodeBytes(components[i]);
      if Forbidden(bytes) {
        return Err(BadRequest);
      }
      if bytes == [DOT, DOT] {
        return Err(NotFound);
      }
      if bytes != [] {
        decoded := decoded + [bytes];
      }
    }
    assert decoded + [] == decoded;
    return Ok(decoded);
  }

  /** The text a component decodes to, unless it is forbidden, `..` or not UTF-8. */
  function DecodedText(part: string): Option<string> {
    var b := DecodedPart(part);
    if Forbidden(b) || b == [DOT, DOT] then None else Decode(b)
  }

  /** The decoded text of each component, if every one decodes to a harmless text. */
  function DecodeTexts(parts: seq<string>): (r: Option<seq<string>>)
    ensures r.Some? ==> |r.value| == |parts|
  {
    if parts == [] then Some([])
    else
      var text, rest := DecodedText(parts[0]), DecodeTexts(parts[1..]);
      if text == None || rest == None then None else Some([text.value] + rest.value)
  }

  function DecodedForm(relative: string): Option<string> {
    match DecodeTexts(Split(relative, '/'))
    case None => None
    case Some(texts) => Some(Join(texts, '/'))
  }

  lemma {:induction false} TextsAppend(parts: seq<string>, part: string)
    ensures var before, last := DecodeTexts(parts), DecodedText(part);
            if before == None || last == None then DecodeTexts(parts + [part]) == None
            else DecodeTexts(parts + [part]).Some? && DecodeTexts(parts + [part]).value == before.value + [last.value]
  {
    if parts == [] {
      assert parts + [part] == [part] && [part][1..] == [];
    } else {
      TextsAppend(parts[1..], part);
      TailAppend(parts, [part]);
    }
  }

  lemma {:induction false} TextsFail(parts: seq<string>, i: nat)
    requires i < |parts| && DecodedText(parts[i]) == None
    ensures DecodeTexts(parts) == None
  {
    if i > 0 {
      TextsFail(parts[1..], i - 1);
    }
  }

  method DecodeComponent(part: string) returns (text: Option<string>)
    ensures text == DecodedText(part)
  {
    var bytes := PercentDecodeBytes(part);
    if Forbidden(bytes) || bytes == [DOT, DOT] {
      return None;
    }
    text := Decode(bytes);
  }

  /** `decode_equivalent`. */
  method DecodeEquivalent(relative: string) returns (r: Option<string>)
    ensures r == DecodedForm(relative)
  {
    var components := Split(relative, '/');
    var decoded := [];
    var first := true;
    ghost var texts := [];
    for i := 0 to |components|
      invariant DecodeTexts(components[..i]) == Some(texts)
      invariant decoded == Join(texts, '/') && (first <==> i == 0)
    {
      TakeNext(components, i);
      TextsAppend(components[..i], components[i]);
      if !first {
        decoded := decoded + "/";
      }
      first := false;
      var text := DecodeComponent(components[i]);
      if text == None {
        TextsFail(components, i);
        return None;
      }
      JoinAppend(texts, '/', text.value);
      decoded := decoded + text.value;
      texts := texts + [text.value];
    }
    Whole(components);
    return Some(decoded);
  }

  /** Texts whose bytes are the given components. */
  predicate Spell(texts: seq<string>, components: seq<seq<byte>>) {
    |texts| == |components| && forall i :: 0 <= i < |texts| ==> Encode(texts[i]) == components[i]
  }

  predicate AllUtf8(components: seq<seq<byte>>) {
    forall i :: 0 <= i < |components| ==> Decode(components[i]).Some?
  }

  lemma PartNotEmpty(part: string)
    requires part != ""
    ensures DecodedPart(part) != []
  {
  }

  lemma {:induction false} DecodersAgree(parts: seq<string>)
    requires "" !in parts
    ensures DecodeParts(parts).Ok? ==> |DecodeParts(parts).value| == |parts|
    ensures DecodeTexts(parts).Some? <==> DecodeParts(parts).Ok? && AllUtf8(DecodeParts(parts).value)
    ensures DecodeTexts(parts).Some? ==> Spell(DecodeTexts(parts).value, DecodeParts(parts).value)
  {
    if parts != [] {
      PartNotEmpty(parts[0]);
      DecodersAgree(parts[1..]);
      var b, rest := DecodedPart(parts[0]), DecodeParts(parts[1..]);
      if !Forbidden(b) && b != [DOT, DOT] && rest.Ok? {
        var all := DecodeParts(parts).value;
        assert all == [b] + rest.value;
        assert all[0] == b && all[1..] == rest.value;
        assert AllUtf8(all) <==> Decode(b).Some? && AllUtf8(rest.value) by {
          assert forall i :: 0 <= i < |rest.value| ==> all[i + 1] == rest.value[i];
        }
      }
    }
  }

  lemma {:induction false} TextsArePlain(parts: seq<string>)
    requires "" !in parts && DecodeTexts(parts).Some?
    ensures forall t | t in DecodeTexts(parts).value :: t != "" && '/' !in t
  {
    if parts != [] {
      PartNotEmpty(parts[0]);
      AsciiOccurs(Decode(DecodedPart(parts[0])).value, '/');
      TextsArePlain(parts[1..]);
    }
  }

  /** The access rules and the file handlers read a request path the same way: the decoded form
      exists exactly when the handlers decode the path to components that are all UTF-8, and then
      its segments are those components, one for each segment of the request. */
  lemma DecodeAgreement(relative: string)
    requires relative != "" && Canonical(relative)
    ensures DecodedForm(relative).Some?
            <==> DecodePath(relative).Ok? && AllUtf8(DecodePath(relative).value)
    ensures DecodePath(relative).Ok? ==> |DecodePath(relative).value| == |PathSegments(relative)|
    ensures DecodedForm(relative).Some? ==> Spell(PathSegments(DecodedForm(relative).value), DecodePath(relative).value)
  {
    var parts := Split(relative, '/');
    assert !Plain("");
    DecodersAgree(parts);
    DecodedSegments(relative);
  }

  lemma {:induction false} TextsAt(parts: seq<string>)
    requires DecodeTexts(parts).Some?
    ensures forall i :: 0 <= i < |parts| ==> DecodedText(parts[i]) == Some(DecodeTexts(parts).value[i])
  {
    if parts != [] {
      TextsAt(parts[1..]);
    }
  }

  /** The segments of the decoded form are the decoded texts of the segments. */
  lemma DecodedSegments(relative: string)
    requires relative != "" && Canonical(relative)
    ensures DecodedForm(relative).Some? <==> DecodeTexts(PathSegments(relative)).Some?
    ensures DecodedForm(relative).Some? ==>
              PathSegments(DecodedForm(relative).value) == DecodeTexts(PathSegments(relative)).value
  {
    assert !Plain("");
    if DecodedForm(relative).Some? {
      var texts := DecodeTexts(PathSegments(relative)).value;
      TextsArePlain(PathSegments(relative));
      SplitJoin(texts, '/');
      assert texts[0] != "";
    }
  }

  /** A text without `%` decodes to itself. */
  lemma {:induction false} NothingToDecode(b: seq<byte>)
    requires PERCENT !in b
    ensures DecodeBytes(b) == b
  {
    if b != [] {
      NothingToDecode(b[1..]);
      assert b == [b[0]] + b[1..];
    }
  }

  lemma PlainDecodesToItself(part: string)
    requires Plain(part) && '%' !in part
    ensures DecodedText(part) == Some(part)
  {
    AsciiOccurs(part, '%');
    AsciiOccurs(part, '/');
    AsciiOccurs(part, '\\');
    AsciiOccurs(part, '\0');
    NothingToDecode(Encode(part));
    DecodeEncode(part);
    DotsAreText();
    if Encode(part) == [DOT, DOT] {
      EncodeInjective(part, "..");
    }
  }

  lemma {:induction false} TextsUnchanged(parts: seq<string>)
    requires forall p | p in parts :: Plain(p) && '%' !in p
    ensures DecodeTexts(parts) == Some(parts)
  {
    if parts != [] {
      assert parts[0] in parts;
      assert forall p | p in parts[1..] :: p in parts;
      PlainDecodesToItself(parts[0]);
      TextsUnchanged(parts[1..]);
      HeadTail(parts);
    }
  }

  lemma DecodedUnchanged(relative: string)
    requires relative != "" && Canonical(relative) && '%' !in relative
    ensures DecodedForm(relative) == Some(relative)
  {
    forall p | p in Split(relative, '/') ensures Plain(p) && '%' !in p {
      assert p in PathSegments(relative);
      if '%' in p {
        SplitPart(relative, p, '%');
      }
    }
    TextsUnchanged(Split(relative, '/'));
    JoinSplit(relative, '/');
  }

  /** The first component that must not be decoded decides on the refusal: 400 for a byte a name cannot
      hold, 404 for `..`. */
  lemma {:induction false} DecodeRefused(parts: seq<string>, i: nat)
    requires i < |parts| && (Forbidden(DecodedPart(parts[i])) || DecodedPart(parts[i]) == [DOT, DOT])
    requires forall k :: 0 <= k < i ==> !Forbidden(DecodedPart(parts[k])) && DecodedPart(parts[k]) != [DOT, DOT]
    ensures DecodeParts(parts) == Err(if DecodedPart(parts[i]) == [DOT, DOT] then NotFound else BadRequest)
  {
    if i == 0 {
      assert SLASH !in [DOT, DOT] && BACKSLASH !in [DOT, DOT] && 0 !in [DOT, DOT];
    } else {
      DecodeRefused(parts[1..], i - 1);
    }
  }

  // ---------- What the handlers open ----------

  datatype Kind = File | Folder

  /** What the file system says of a path: there is no such entry, the path leads through a file, or
      the kind of the entry. */
  datatype Answer = Missing | Broken | Found(kind: Kind)

  type FileSystem = seq<seq<byte>> -> Answer

  function Bytes(texts: seq<string>): (components: seq<seq<byte>>)
    ensures Spell(texts, components)
  {
    seq(|texts|, i requires 0 <= i < |texts| => Encode(texts[i]))
  }

  /** `canonical_entry_target` and `entry_metadata`: the literal path under `base` if it exists; the
      decoded one if the literal one is missing. */
  function Opened(fs: FileSystem, base: seq<seq<byte>>, segments: seq<string>): Option<seq<seq<byte>>> {
    var literal := base + Bytes(segments);
    match fs(literal)
    case Found(_) => Some(literal)
    case Broken => None
    case Missing =>
      match DecodeParts(segments)
      case Err(_) => None
      case Ok(parts) => if fs(base + parts).Found? then Some(base + parts) else None
  }

  lemma SpellUnique(a: seq<string>, b: seq<string>, components: seq<seq<byte>>)
    requires Spell(a, components) && Spell(b, components)
    ensures a == b
  {
    forall i | 0 <= i < |a| ensures a[i] == b[i] {
      EncodeInjective(a[i], b[i]);
    }
  }

  // ---------- Listed names ----------

  /** The path of an entry inside a directory. */
  function Child(relative: string, name: string): string {
    if relative == "" then name else relative + "/" + name
  }

  /** What a directory may hold: no empty name, no `/`, no NUL, not `.` or `..`. */
  predicate FileName(raw: seq<byte>) {
    raw != [] && SLASH !in raw && 0 !in raw && raw != [DOT] && raw != [DOT, DOT]
  }

  lemma ChildSegments(relative: string, name: string)
    requires name != "" && '/' !in name
    ensures PathSegments(Child(relative, name)) == PathSegments(relative) + [name]
  {
    if relative != "" {
      SplitAround(relative, '/', name);
      assert "/" == ['/'];
    }
  }

  /** A listed entry can be requested under its own path exactly when its name has no backslash
      and no white space where the whole path begins or ends. */
  lemma ChildUnchangedIff(relative: string, name: string)
    requires Normalized(relative) == Ok(relative)
    requires name != "" && name != "." && name != ".." && '/' !in name && '\0' !in name
    ensures Normalized(Child(relative, name)) == Ok(Child(relative, name))
            <==> '\\' !in name && !IsSpace(name[|name| - 1]) && (relative == "" ==> !IsSpace(name[0]))
  {
    UnchangedIff(relative);
    UnchangedIff(Child(relative, name));
    ChildCanonical(relative, name);
    ChildTrimmed(relative, name);
  }

  lemma ChildCanonical(relative: string, name: string)
    requires Canonical(relative) && name != "" && '/' !in name
    ensures Canonical(Child(relative, name)) <==> Plain(name)
  {
    ChildSegments(relative, name);
    assert forall p :: p in PathSegments(relative) + [name] <==> p in PathSegments(relative) || p == name;
  }

  lemma ChildTrimmed(relative: string, name: string)
    requires Trimmed(relative) && name != ""
    ensures Trimmed(Child(relative, name)) <==> !IsSpace(name[|name| - 1]) && (relative == "" ==> !IsSpace(name[0]))
  {
    var child := Child(relative, name);
    assert child[|child| - 1] == name[|name| - 1];
    assert relative != "" ==> child[0] == relative[0];
  }

  lemma {:induction false} DecodePartsAppend(parts: seq<string>, part: string)
    requires DecodeParts([part]).Ok?
    ensures DecodeParts(parts + [part]).Ok? <==> DecodeParts(parts).Ok?
    ensures DecodeParts(parts).Ok? ==>
              DecodeParts(parts + [part]).value == DecodeParts(parts).value + DecodeParts([part]).value
  {
    if parts == [] {
      assert parts + [part] == [part];
    } else {
      TailAppend(parts, [part]);
      DecodePartsAppend(parts[1..], part);
      if DecodeParts(parts).Ok? {
        var b, rest, last := DecodedPart(parts[0]), DecodeParts(parts[1..]).value, DecodeParts([part]).value;
        assert [b] + rest + last == [b] + (rest + last);
      }
    }
  }

  /** A file whose name is not UTF-8 is listed under a path that validation leaves alone, and decoding
      that path appends exactly the raw name to the directory's decoded path. */
  lemma NonUtf8Decodes(relative: string, raw: seq<byte>)
    requires Normalized(relative) == Ok(relative)
    requires FileName(raw) && BACKSLASH !in raw && Decode(raw) == None
    ensures var child := Child(relative, ListedName(raw));
            && Normalized(child) == Ok(child) && PathSegments(child) == PathSegments(relative) + [ListedName(raw)]
            && (DecodePath(child).Ok? <==> DecodePath(relative).Ok?)
            && (DecodePath(child).Ok? ==> DecodePath(child).value == DecodePath(relative).value + [raw])
  {
    var name := ListedName(raw);
    NonUtf8Name(raw);
    ChildUnchangedIff(relative, name);
    ChildSegments(relative, name);
    DecodeSingle(name);
    if relative == "" {
      DecodeSingle("");
      assert Split("", '/') == [""] && Split(name, '/') == [name];
    } else {
      SplitAround(relative, '/', name);
      assert "/" == ['/'] && Split(name, '/') == [name];
      DecodePartsAppend(Split(relative, '/'), name);
    }
  }

  /** Decoding leaves every component as it is. */
  predicate DecodesToItself(parts: seq<string>) {
    forall p | p in parts :: DecodedPart(p) == Encode(p)
  }

  /** Decoding goes component by component. */
  lemma {:induction false} DecodedAt(parts: seq<string>)
    requires "" !in parts
    ensures DecodeParts(parts).Ok?
            <==> forall p | p in parts :: !Forbidden(DecodedPart(p)) && DecodedPart(p) != [DOT, DOT]
    ensures DecodeParts(parts).Ok? ==>
              var v := DecodeParts(parts).value;
              |v| == |parts| && forall i :: 0 <= i < |parts| ==> v[i] == DecodedPart(parts[i])
  {
    if parts != [] {
      PartNotEmpty(parts[0]);
      DecodedAt(parts[1..]);
      assert forall p :: p in parts <==> p == parts[0] || p in parts[1..];
    }
  }

  lemma SelfDecodedParts(parts: seq<string>)
    requires forall p | p in parts :: Plain(p)
    ensures DecodeParts(parts) == Ok(Bytes(parts)) <==> DecodesToItself(parts)
  {
    assert !Plain("");
    DecodedAt(parts);
    if DecodesToItself(parts) {
      forall p | p in parts ensures !Forbidden(DecodedPart(p)) && DecodedPart(p) != [DOT, DOT] {
        PlainBytes(p);
      }
      assert DecodeParts(parts).value == Bytes(parts);
    }
    if DecodeParts(parts) == Ok(Bytes(parts)) {
      forall p | p in parts ensures DecodedPart(p) == Encode(p) {
        var i :| 0 <= i < |parts| && parts[i] == p;
        assert Bytes(parts)[i] == DecodedPart(parts[i]);
      }
    }
  }

  lemma PlainBytes(part: string)
    requires Plain(part)
    ensures !Forbidden(Encode(part)) && Encode(part) != [DOT, DOT]
  {
    AsciiOccurs(part, '/');
    AsciiOccurs(part, '\\');
    AsciiOccurs(part, '\0');
    DotsAreText();
    assert Encode("..") == [DOT, DOT];
    if Encode(part) == [DOT, DOT] {
      EncodeInjective(part, "..");
    }
  }

  /** Such a file is what a request for its listed path opens exactly when the directory's own names
      decode to themselves, whatever else exists; a file literally named as it is listed goes first. */
  lemma NonUtf8OpenedIff(fs: FileSystem, relative: string, raw: seq<byte>)
    requires Normalized(relative) == Ok(relative)
    requires FileName(raw) && BACKSLASH !in raw && Decode(raw) == None
    requires fs(Bytes(PathSegments(relative)) + [raw]).Found?
    requires fs(Bytes(PathSegments(relative)) + [Encode(ListedName(raw))]).Missing?
    ensures Opened(fs, [], PathSegments(Child(relative, ListedName(raw))))
            == Some(Bytes(PathSegments(relative)) + [raw])
            <==> DecodesToItself(PathSegments(relative))
  {
    var name, segments := ListedName(raw), PathSegments(relative);
    var child := Child(relative, name);
    var entry, literal := Bytes(segments) + [raw], Bytes(segments) + [Encode(name)];
    NonUtf8Decodes(relative, raw);
    UnchangedIff(relative);
    BytesSnoc(segments, name);
    Whole(literal);
    Whole(entry);
    SelfDecodedPath(relative);
    if DecodePath(child).Ok? {
      Whole(DecodePath(child).value);
      Snoc(DecodePath(relative).value, raw, Bytes(segments), raw);
    }
  }

  lemma SelfDecodedPath(relative: string)
    requires Canonical(relative)
    ensures DecodePath(relative) == Ok(Bytes(PathSegments(relative))) <==> DecodesToItself(PathSegments(relative))
  {
    SelfDecodedParts(PathSegments(relative));
    if relative == "" {
      DecodeSingle("");
      assert Split("", '/') == [""];
    }
  }

  lemma BytesSnoc(directory: seq<string>, name: string)
    ensures Bytes(directory + [name]) == Bytes(directory) + [Encode(name)]
  {
  }

  /** In a directory literally named `%41` it is not: the request is decoded to the directory `A`. */
  lemma NonUtf8Unopened(fs: FileSystem, raw: seq<byte>)
    requires FileName(raw) && BACKSLASH !in raw && Decode(raw) == None
    requires fs([Encode("%41"), raw]).Found? && fs([Encode("%41"), Encode(ListedName(raw))]).Missing?
    ensures Opened(fs, [], PathSegments(Child("%41", ListedName(raw)))) != Some([Encode("%41"), raw])
  {
    EscapedA();
    assert Bytes(["%41"]) == [Encode("%41")];
    assert [Encode("%41")] + [raw] == [Encode("%41"), raw];
    assert [Encode("%41")] + [Encode(ListedName(raw))] == [Encode("%41"), Encode(ListedName(raw))];
    NonUtf8OpenedIff(fs, "%41", raw);
    assert "%41" in ["%41"];
  }

  lemma EscapedA()
    ensures Normalized("%41") == Ok("%41") && PathSegments("%41") == ["%41"]
    ensures DecodedPart("%41") == [0x41] && Encode("%41") == [0x25, 0x34, 0x31]
  {
    assert "%41"[1..] == "41" && "41"[1..] == "1" && "1"[1..] == "";
    assert Encode("1") == [0x31] && Encode("41") == [0x34, 0x31];
    assert Encode("%41") == [0x25, 0x34, 0x31];
    assert DecodeBytes([0x25, 0x34, 0x31][3..]) == [];
    SingleComponent("%41");
    UnchangedIff("%41");
  }

  lemma DecodeSingle(part: string)
    requires !Forbidden(DecodedPart(part)) && DecodedPart(part) != [DOT, DOT]
    ensures DecodeParts([part]).Ok?
    ensures DecodeParts([part]).value == if part == "" then [] else [DecodedPart(part)]
  {
  }

  /** The name such a file is listed under is plain, has no white space, and decodes to the file. */
  lemma NonUtf8Name(raw: seq<byte>)
    requires FileName(raw) && BACKSLASH !in raw && Decode(raw) == None
    ensures var name := ListedName(raw);
            Plain(name) && DecodedPart(name) == raw && forall c | c in name :: !IsSpace(c)
    ensures !Forbidden(raw)
  {
    EscapedChars(EntryNames, raw);
    DecodeEscaped(EntryNames, raw);
    DotsAreText();
  }

  lemma DotsAreText()
    ensures DecodedPart(".") == [DOT] && DecodedPart("..") == [DOT, DOT]
    ensures Decode([DOT]).Some? && Decode([DOT, DOT]).Some?
  {
  }

  /** Two files whose names are not UTF-8 are never listed under one name. */
  lemma NonUtf8Distinct(a: seq<byte>, b: seq<byte>)
    requires Decode(a) == None && Decode(b) == None && ListedName(a) == ListedName(b)
    ensures a == b
  {
    DecodeEscaped(EntryNames, a);
    DecodeEscaped(EntryNames, b);
  }
}
