// The request pipeline over the access rules: runtime visibility, the access gate, the directory
// listing and the delete decision, and that they agree with each other.

module Requests {
  import opened Seqs
  import opened Options
  import opened Utf8
  import opened Percent
  import opened Access
  import opened Paths
  import DenyPatterns
  import Text

  // ---------- Visibility ----------

  predicate SegmentsVisible(access: AccessConfig, groups: seq<string>, segments: seq<string>) {
    Decide(access, groups, segments).Visible?
  }

  /** `is_path_visible`. */
  predicate IsPathVisible(access: AccessConfig, groups: seq<string>, relative: string) {
    && SegmentsVisible(access, groups, PathSegments(relative))
    && match DecodedForm(relative)
       case Some(decoded) => decoded == relative || SegmentsVisible(access, groups, PathSegments(decoded))
       case None => true
  }

  /** `can_delete`. */
  predicate CanDelete(access: AccessConfig, groups: seq<string>, relative: string) {
    && relative != ""
    && IsPathVisible(access, groups, relative)
    && exists g | g in access.grants ::
         g.group in groups && g.canDelete && exists e | e in g.allow :: AllowCovers(e.path, PathSegments(relative))
  }

  /** A path is served only if both readings of it are visible: the literal segments, and the texts
      of the components the handlers would decode it to. */
  lemma VisibleInBothForms(access: AccessConfig, groups: seq<string>, relative: string)
    requires Canonical(relative)
    ensures IsPathVisible(access, groups, relative)
            <==> && SegmentsVisible(access, groups, PathSegments(relative))
                 && (DecodePath(relative).Ok? ==>
                      forall texts | Spell(texts, DecodePath(relative).value) :: SegmentsVisible(access, groups, texts))
  {
    if relative == "" {
      RootForms(access, groups);
    } else {
      BothForms(access, groups, relative);
    }
  }

  lemma RootForms(access: AccessConfig, groups: seq<string>)
    ensures PathSegments("") == [] && DecodePath("") == Ok([])
    ensures IsPathVisible(access, groups, "") <==> SegmentsVisible(access, groups, [])
    ensures forall texts :: Spell(texts, []) <==> texts == []
  {
    DecodeSingle("");
    assert Text.Split<char>("", '/') == [""];
    assert DecodedPart("") == [];
  }

  lemma BothForms(access: AccessConfig, groups: seq<string>, relative: string)
    requires relative != "" && Canonical(relative)
    ensures IsPathVisible(access, groups, relative)
            <==> && SegmentsVisible(access, groups, PathSegments(relative))
                 && (DecodePath(relative).Ok? ==>
                      forall texts | Spell(texts, DecodePath(relative).value) :: SegmentsVisible(access, groups, texts))
  {
    DecodeAgreement(relative);
    if DecodePath(relative).Ok? {
      var components := DecodePath(relative).value;
      forall texts | Spell(texts, components)
        ensures DecodedForm(relative).Some? && texts == PathSegments(DecodedForm(relative).value)
      {
        forall i | 0 <= i < |components| ensures Decode(components[i]).Some? {
          DecodeEncode(texts[i]);
        }
        SpellUnique(texts, PathSegments(DecodedForm(relative).value), components);
      }
    }
  }

  /** What the access check reports is what the server enforces: on a path without `%` the verdict of
      the rules is the visibility at run time; on any other path the server can only hide more. */
  lemma CheckAgreesWithServer(access: AccessConfig, groups: seq<string>, relative: string)
    requires relative != "" && Canonical(relative)
    ensures IsPathVisible(access, groups, relative) ==> SegmentsVisible(access, groups, PathSegments(relative))
    ensures '%' !in relative ==>
              (IsPathVisible(access, groups, relative) <==> SegmentsVisible(access, groups, PathSegments(relative)))
  {
    if '%' !in relative {
      DecodedUnchanged(relative);
    }
  }

  // ---------- Gate and handlers ----------

  datatype Endpoint = Directory | Download | DeleteFile

  /** What the access gate does: pass the request on unevaluated, answer 404, or pass it on with
      the access context. */
  datatype Gate = Bypass | Refuse | Admit

  /** How a request is answered; `Serve` means that the handler turns to the file system. */
  datatype Response = Status400 | Status403 | Status404 | Serve(relative: string)

  function AccessGate(c: Context, requested: string): Gate {
    match Normalized(requested)
    case Err(_) => Bypass
    case Ok(relative) => if IsPathVisible(c.access, c.groups, relative) then Admit else Refuse
  }

  /** The decisions the three handlers take before they touch the file system. */
  function Handler(c: Option<Context>, endpoint: Endpoint, requested: string): Response {
    match Normalized(requested)
    case Err(BadRequest) => Status400
    case Err(NotFound) => Status404
    case Ok(relative) =>
      if endpoint.Directory? then Serve(relative)
      else if relative == "" then Status400
      else if endpoint.DeleteFile? && c.Some? && !CanDelete(c.value.access, c.value.groups, relative) then Status403
      else Serve(relative)
  }

  /** A request of a user with a session: the gate first, the handler behind it. */
  function Respond(c: Context, endpoint: Endpoint, requested: string): Response {
    match AccessGate(c, requested)
    case Refuse => Status404
    case Bypass => Handler(None, endpoint, requested)
    case Admit => Handler(Some(c), endpoint, requested)
  }

  /** Nothing reaches the file system unchecked, although the gate waves malformed paths through
      and the handlers do not check visibility: a request is served exactly when its validated path
      is visible, names a file where a file is wanted, and may be deleted where it is to be. */
  lemma ServedIff(c: Context, endpoint: Endpoint, requested: string, relative: string)
    ensures Respond(c, endpoint, requested) == Serve(relative)
            <==> && Normalized(requested) == Ok(relative)
                 && IsPathVisible(c.access, c.groups, relative)
                 && (!endpoint.Directory? ==> relative != "")
                 && (endpoint.DeleteFile? ==> CanDelete(c.access, c.groups, relative))
  {
  }

  /** Which status answers a request that is not served: 400 for a malformed path and for the root where a
      file is wanted, 404 for one that climbs and for one that is not visible, 403 for one that is visible
      but must not be deleted. */
  lemma RefusedIff(c: Context, endpoint: Endpoint, requested: string)
    ensures var r, t := Respond(c, endpoint, requested), Text.Trim(requested);
            var malformed := '\0' in t || '\\' in t || "/" <= t;
            var climbs := ".." in Text.Split(t, '/');
            && (malformed ==> r == Status400)
            && (!malformed && climbs ==> r == Status404)
            && (!malformed && !climbs ==>
                  && Normalized(requested).Ok?
                  && var relative := Normalized(requested).value;
                     var visible := IsPathVisible(c.access, c.groups, relative);
                     && (r == Status404 <==> !visible)
                     && (r == Status400 <==> visible && relative == "" && !endpoint.Directory?)
                     && (r == Status403 <==> && visible && relative != "" && endpoint.DeleteFile?
                                             && !CanDelete(c.access, c.groups, relative)))
  {
    AcceptedIff(requested);
    if Normalized(requested).Ok? {
      RefusedPath(c, endpoint, requested, Normalized(requested).value);
    }
  }

  lemma RefusedPath(c: Context, endpoint: Endpoint, requested: string, relative: string)
    requires Normalized(requested) == Ok(relative)
    ensures var r, visible := Respond(c, endpoint, requested), IsPathVisible(c.access, c.groups, relative);
            && (r == Status404 <==> !visible)
            && (r == Status400 <==> visible && relative == "" && !endpoint.Directory?)
            && (r == Status403 <==> && visible && relative != "" && endpoint.DeleteFile?
                                    && !CanDelete(c.access, c.groups, relative))
  {
  }

  /** A visible file may be deleted iff a delete-enabled allow of one of the user's groups covers it. */
  lemma DeletableIff(c: Context, relative: string)
    ensures CanDelete(c.access, c.groups, relative)
            <==> && relative != "" && IsPathVisible(c.access, c.groups, relative)
                 && exists g, e :: Granted(c, g, e) && PathSegments(e.path) <= PathSegments(relative)
  {
    if CanDelete(c.access, c.groups, relative) {
      var g, e := CoveringGrant(c, relative);
    }
    if g, e :| Granted(c, g, e) && PathSegments(e.path) <= PathSegments(relative) {
      AllowCoversPrefix(e.path, PathSegments(relative));
    }
  }

  /** A path that may be deleted lies under a delete-enabled allow of one of the user's groups, and no
      deny that applies to the user hits it or the form it decodes to. The allow also covers the
      decoded form if it has no `%` in its own path. */
  lemma DeletedOnlyIfGranted(c: Context, requested: string, relative: string)
    requires Respond(c, DeleteFile, requested) == Serve(relative)
    ensures relative != "" && Canonical(relative)
    ensures !SomeDeny(c.access, c.groups, PathSegments(relative))
    ensures DecodedForm(relative).Some? ==>
              !SomeDeny(c.access, c.groups, PathSegments(DecodedForm(relative).value))
    ensures exists g, e :: Granted(c, g, e) && CoversBoth(e.path, relative)
  {
    ServedIff(c, DeleteFile, requested, relative);
    ValidatedIsCanonical(requested);
    VisibleIff(c.access, c.groups, PathSegments(relative));
    var g, e := CoveringGrant(c, relative);
    if DecodedForm(relative).Some? {
      DecodedVisible(c.access, c.groups, relative);
      if '%' !in e.path {
        CoversDecoded(e.path, relative);
      }
    }
  }

  /** A delete-enabled allow of one of the user's groups. */
  predicate Granted(c: Context, g: Grant, e: AllowEntry) {
    g in c.access.grants && g.group in c.groups && g.canDelete && e in g.allow
  }

  predicate CoversBoth(path: string, relative: string) {
    && PathSegments(path) <= PathSegments(relative)
    && (DecodedForm(relative).Some? && '%' !in path ==>
          PathSegments(path) <= PathSegments(DecodedForm(relative).value))
  }

  lemma CoveringGrant(c: Context, relative: string) returns (g: Grant, e: AllowEntry)
    requires CanDelete(c.access, c.groups, relative)
    ensures Granted(c, g, e) && PathSegments(e.path) <= PathSegments(relative)
  {
    g :| g in c.access.grants && g.group in c.groups && g.canDelete
         && exists e | e in g.allow :: AllowCovers(e.path, PathSegments(relative));
    e :| e in g.allow && AllowCovers(e.path, PathSegments(relative));
    AllowCoversPrefix(e.path, PathSegments(relative));
  }

  lemma DecodedVisible(access: AccessConfig, groups: seq<string>, relative: string)
    requires relative != "" && Canonical(relative) && IsPathVisible(access, groups, relative)
    requires DecodedForm(relative).Some?
    ensures SegmentsVisible(access, groups, PathSegments(DecodedForm(relative).value))
    ensures !SomeDeny(access, groups, PathSegments(DecodedForm(relative).value))
  {
    DecodedSegments(relative);
    VisibleIff(access, groups, PathSegments(DecodedForm(relative).value));
  }

  /** An allow path without `%` that covers a path covers its decoded form. */
  lemma CoversDecoded(path: string, relative: string)
    requires relative != "" && Canonical(relative) && DecodedForm(relative).Some?
    requires '%' !in path && PathSegments(path) <= PathSegments(relative)
    ensures PathSegments(path) <= PathSegments(DecodedForm(relative).value)
  {
    var own, segments := PathSegments(path), PathSegments(relative);
    DecodedSegments(relative);
    TextsAt(segments);
    forall i | 0 <= i < |own| ensures own[i] == DecodeTexts(segments).value[i] {
      assert own[i] == segments[i] && segments[i] in segments;
      if '%' in own[i] {
        assert own[i] in Text.Split(path, '/');
        SplitPart(path, own[i], '%');
      }
      PlainDecodesToItself(own[i]);
    }
  }

  /** Groups that agree on what is visible and on the grants answer every request alike. */
  lemma SameAnswers(access: AccessConfig, xs: seq<string>, ys: seq<string>, endpoint: Endpoint, requested: string)
    requires SameGroups(access, xs, ys)
    ensures Respond(Context(access, xs), endpoint, requested) == Respond(Context(access, ys), endpoint, requested)
  {
    forall segments ensures SegmentsVisible(access, xs, segments) <==> SegmentsVisible(access, ys, segments) {
      OrderDoesNotMatter(access, access, xs, ys, segments);
    }
    if Normalized(requested).Ok? {
      var relative := Normalized(requested).value;
      assert IsPathVisible(access, xs, relative) <==> IsPathVisible(access, ys, relative);
      assert CanDelete(access, xs, relative) <==> CanDelete(access, ys, relative);
    }
  }

  // ---------- The listing ----------

  /** One item of a directory: its raw name, and its kind unless it cannot be resolved inside the
      shared root. */
  datatype Item = Item(raw: seq<byte>, kind: Option<Kind>)

  datatype Entry = Entry(name: string, kind: Kind, canDelete: bool)

  function ListItem(c: Option<Context>, showHidden: bool, relative: string, item: Item): Option<Entry> {
    var name := ListedName(item.raw);
    var child := Child(relative, name);
    if !showHidden && "." <= name then None
    else if c.Some? && !IsPathVisible(c.value.access, c.value.groups, child) then None
    else if item.kind == None then None
    else
      Some(Entry(name, item.kind.value,
                 item.kind.value.File? && (c.Some? ==> CanDelete(c.value.access, c.value.groups, child))))
  }

  function Listing(c: Option<Context>, showHidden: bool, relative: string, items: seq<Item>): seq<Entry> {
    if items == [] then []
    else
      Optional(ListItem(c, showHidden, relative, items[0])) + Listing(c, showHidden, relative, items[1..])
  }

  /** The listing loop of `directory`, before the entries are sorted for display. */
  method ListDirectory(c: Option<Context>, showHidden: bool, relative: string, items: seq<Item>)
    returns (entries: seq<Entry>)
    ensures entries == Listing(c, showHidden, relative, items)
  {
    entries := [];
    for i := 0 to |items|
      invariant entries == Listing(c, showHidden, relative, items[..i])
    {
      ListingAppend(c, showHidden, relative, items[..i], items[i]);
      TakeNext(items, i);
      var name := PercentEncodeEntryName(items[i].raw);
      if !showHidden && "." <= name {
        continue;
      }
      var child := Child(relative, name);
      if c.Some? && !IsPathVisible(c.value.access, c.value.groups, child) {
        continue;
      }
      if items[i].kind == None {
        continue;
      }
      var kind := items[i].kind.value;
      var deletable := false;
      if kind.File? {
        deletable := if c.Some? then CanDelete(c.value.access, c.value.groups, child) else true;
      }
      entries := entries + [Entry(name, kind, deletable)];
    }
    assert items[..|items|] == items;
  }

  function Optional(e: Option<Entry>): seq<Entry> {
    match e case Some(x) => [x] case None => []
  }

  lemma ListingAppend(c: Option<Context>, showHidden: bool, relative: string, items: seq<Item>, item: Item)
    ensures Listing(c, showHidden, relative, items + [item])
         == Listing(c, showHidden, relative, items) + Optional(ListItem(c, showHidden, relative, item))
  {
    ListingConcat(c, showHidden, relative, items, [item]);
    assert [item][1..] == [];
  }

  lemma {:induction false} ListedFrom(c: Option<Context>, showHidden: bool, relative: string, items: seq<Item>,
                                      e: Entry)
    ensures e in Listing(c, showHidden, relative, items)
            <==> exists item :: item in items && ListItem(c, showHidden, relative, item) == Some(e)
  {
    if items != [] {
      ListedFrom(c, showHidden, relative, items[1..], e);
    }
  }

  /** The entry tells the truth about the item: its listed name, its kind, and whether the user may delete it. */
  predicate Describes(c: Option<Context>, relative: string, item: Item, e: Entry) {
    && item.kind == Some(e.kind) && e.name == ListedName(item.raw)
    && (e.canDelete
        <==> e.kind == File && (c.Some? ==> CanDelete(c.value.access, c.value.groups, Child(relative, e.name))))
  }

  /** What a listing consists of: for each item that can be resolved, that the user may see, and whose name
      does not begin with `.` unless such names are shown, the entry that describes it; and nothing else. */
  lemma ListedIff(c: Option<Context>, showHidden: bool, relative: string, items: seq<Item>, e: Entry)
    ensures e in Listing(c, showHidden, relative, items)
            <==> && (exists item :: item in items && Describes(c, relative, item, e))
                 && (showHidden || e.name == "" || e.name[0] != '.')
                 && (c.Some? ==> IsPathVisible(c.value.access, c.value.groups, Child(relative, e.name)))
  {
    ListedFrom(c, showHidden, relative, items, e);
    forall item {
      ItemListedIff(c, showHidden, relative, item, e);
    }
  }

  lemma ItemListedIff(c: Option<Context>, showHidden: bool, relative: string, item: Item, e: Entry)
    ensures ListItem(c, showHidden, relative, item) == Some(e)
            <==> && Describes(c, relative, item, e)
                 && (showHidden || e.name == "" || e.name[0] != '.')
                 && (c.Some? ==> IsPathVisible(c.value.access, c.value.groups, Child(relative, e.name)))
  {
    assert "." <= e.name <==> e.name != "" && e.name[0] == '.';
  }

  /** The entries stand in the order of the items. */
  lemma {:induction false} ListingConcat(c: Option<Context>, showHidden: bool, relative: string, a: seq<Item>,
                                         b: seq<Item>)
    ensures Listing(c, showHidden, relative, a + b)
         == Listing(c, showHidden, relative, a) + Listing(c, showHidden, relative, b)
  {
    if a == [] {
      assert a + b == b;
    } else {
      TailAppend(a, b);
      ListingConcat(c, showHidden, relative, a[1..], b);
      Assoc(Optional(ListItem(c, showHidden, relative, a[0])), Listing(c, showHidden, relative, a[1..]),
            Listing(c, showHidden, relative, b));
    }
  }

  lemma ListedNameNotEmpty(raw: seq<byte>)
    requires raw != []
    ensures ListedName(raw) != ""
  {
  }

  /** The answers to a request for a path that validation leaves alone. */
  lemma AnswersForPath(c: Context, child: string)
    requires child != "" && Normalized(child) == Ok(child)
    ensures Respond(c, Directory, child) == Respond(c, Download, child)
         == if IsPathVisible(c.access, c.groups, child) then Serve(child) else Status404
    ensures Respond(c, DeleteFile, child)
         == if !IsPathVisible(c.access, c.groups, child) then Status404
            else if CanDelete(c.access, c.groups, child) then Serve(child) else Status403
  {
  }

  /** Listing, gate and delete endpoint agree on every entry whose path validation leaves alone: a
      listed entry can be opened, a listed file is deletable exactly as the listing says, and an
      item the listing withholds for access reasons is answered with 404. */
  lemma ListingAgrees(c: Context, showHidden: bool, relative: string, items: seq<Item>, item: Item)
    requires item in items && FileName(item.raw) && item.kind.Some?
    requires showHidden || !("." <= ListedName(item.raw))
    requires Normalized(Child(relative, ListedName(item.raw))) == Ok(Child(relative, ListedName(item.raw)))
    ensures var child := Child(relative, ListedName(item.raw));
            var listed := ListItem(Some(c), showHidden, relative, item);
            match listed
            case None =>
              Respond(c, Download, child) == Respond(c, Directory, child) == Respond(c, DeleteFile, child) == Status404
            case Some(e) =>
              && e in Listing(Some(c), showHidden, relative, items) && e.kind == item.kind.value
              && Respond(c, Download, child) == Respond(c, Directory, child) == Serve(child)
              && (e.kind.File? ==> Respond(c, DeleteFile, child) == if e.canDelete then Serve(child) else Status403)
              && (e.canDelete ==> e.kind.File?)
  {
    ListedNameNotEmpty(item.raw);
    AnswersForPath(c, Child(relative, ListedName(item.raw)));
    var listed := ListItem(Some(c), showHidden, relative, item);
    if listed.Some? {
      ListedFrom(Some(c), showHidden, relative, items, listed.value);
    }
  }

  /** Without that condition they can disagree: a file whose name starts with a space is listed in
      the root under an allow of its name, but a request for it is read without the space. */
  lemma ListedButRefused()
    ensures var c := Context(AccessConfig([" x"], [], []), []);
            && ValidateAllowPath("./ x") == Ok(" x")
            && ListItem(Some(c), true, "", Item(Encode(" x"), Some(File))).Some?
            && Respond(c, Download, " x") == Status404
  {
    var c := Context(AccessConfig([" x"], [], []), []);
    DecodeEncode(" x");
    SpaceAllowed();
    NotIdempotent();
    SpaceVerdicts(c.access);
    assert ListedName(Encode(" x")) == " x";
  }

  lemma SpaceVerdicts(access: AccessConfig)
    requires access == AccessConfig([" x"], [], [])
    ensures IsPathVisible(access, [], " x") && !IsPathVisible(access, [], "x")
  {
    SingleComponent(" x");
    SingleComponent("x");
    DecodedPlain();
    assert AllowCovers(" x", [" x"]) && !AllowCovers(" x", ["x"]);
    assert access.globalAllow == [" x"];
    assert CoveredByGlobal(access, [" x"]) && !CoveredByGlobal(access, ["x"]);
  }

  lemma SpaceAllowed()
    ensures ValidateAllowPath("./ x") == Ok(" x")
  {
    Text.TrimTrimmed("./ x");
    assert DenyPatterns.Normalize("./ x") == " x";
    SingleComponent(" x");
    assert [" x"][1..] == [];
  }

  lemma DecodedPlain()
    ensures DecodedForm(" x") == Some(" x")
  {
    DecodeEncode(" x");
    assert " x"[1..] == "x";
    assert Encode(" x") == [0x20, 0x78];
    assert [0x20, 0x78][1..] == [0x78];
    assert DecodedPart(" x") == [0x20, 0x78];
    SingleComponent(" x");
    assert [" x"][1..] == [];
    assert DecodeTexts([" x"]) == Some([" x"]);
  }
}
