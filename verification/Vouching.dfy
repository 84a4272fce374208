// Is an entry that a served request reaches one the rules permit? The rules judge the request literally
// and, where all of it decodes to text, decoded; the tree is entered by the resolved path.

module Vouching {
  import opened Seqs
  import opened Options
  import opened Utf8
  import opened Percent
  import opened DenyPatterns
  import opened Access
  import opened Paths
  import opened Requests
  import opened AccessCheck
  import opened Reach
  import Text

  // ---------- What the rules say of a true path ----------

  /** The names of the path as directories list them; these are the names the rules address. */
  function ListedForm(path: Path): (names: seq<string>)
    ensures |names| == |path| && forall i :: 0 <= i < |path| ==> names[i] == ListedName(path[i])
  {
    seq(|path|, i requires 0 <= i < |path| => ListedName(path[i]))
  }

  /** The rules show the entry at this path. */
  predicate Permitted(c: Context, path: Path) {
    SegmentsVisible(c.access, c.groups, ListedForm(path))
  }

  /** A listing shows the entry: that is decided by its listed path in both forms. */
  predicate Shown(c: Context, path: Path) {
    IsPathVisible(c.access, c.groups, Text.Join(ListedForm(path), '/'))
  }

  lemma LegalNames(path: Path)
    requires LegalPath(path)
    ensures forall x | x in ListedForm(path) :: x != "" && '/' !in x
  {
    forall x | x in ListedForm(path) ensures x != "" && '/' !in x {
      var i :| 0 <= i < |path| && ListedForm(path)[i] == x;
      assert path[i] in path;
      LegalName(path[i]);
    }
  }

  lemma LegalName(raw: seq<byte>)
    requires FileName(raw)
    ensures ListedName(raw) != "" && '/' !in ListedName(raw)
  {
    if Decode(raw).Some? {
      AsciiOccurs(Decode(raw).value, '/');
    } else {
      EscapedChars(EntryNames, raw);
    }
  }

  lemma JoinedPath(t: seq<string>)
    requires t != [] && forall x | x in t :: x != "" && '/' !in x
    ensures Text.Join(t, '/') != "" && PathSegments(Text.Join(t, '/')) == t
  {
    Text.SplitJoin(t, '/');
    assert t[0] in t;
    assert Text.Split<char>("", '/') == [""];
  }

  lemma JoinedDecoded(t: seq<string>)
    requires t != [] && forall x | x in t :: x != "" && '/' !in x
    ensures var decoded := DecodedForm(Text.Join(t, '/'));
            && (decoded.Some? <==> DecodeTexts(t).Some?)
            && (decoded.Some? ==> PathSegments(decoded.value) == DecodeTexts(t).value)
  {
    JoinedPath(t);
    if DecodeTexts(t).Some? {
      TextsArePlain(t);
      JoinedPath(DecodeTexts(t).value);
    }
  }

  lemma ShownIff(c: Context, path: Path)
    requires LegalPath(path)
    ensures var t := ListedForm(path);
            Shown(c, path)
            <==> && SegmentsVisible(c.access, c.groups, t)
                 && (DecodeTexts(t).Some? ==> SegmentsVisible(c.access, c.groups, DecodeTexts(t).value))
  {
    var t := ListedForm(path);
    if t == [] {
      assert Text.Split<char>("", '/') == [""];
    } else {
      LegalNames(path);
      JoinedPath(t);
      JoinedDecoded(t);
    }
  }

  // ---------- Which paths the judged forms vouch for ----------

  /** A request that is served is visible in these forms: the root, its segments, and their decoded texts. */
  predicate Judged(segments: seq<string>, t: seq<string>) {
    t == [] || t == segments || DecodeTexts(segments) == Some(t)
  }

  predicate Vouched(segments: seq<string>, path: Path) {
    Judged(segments, ListedForm(path))
  }

  /** The form that the listed path decodes to is vouched for as well. */
  predicate VouchedTwice(segments: seq<string>, path: Path) {
    var t := ListedForm(path);
    Judged(segments, t) && (DecodeTexts(t).Some? ==> Judged(segments, DecodeTexts(t).value))
  }

  lemma JudgedVisible(c: Context, relative: string, t: seq<string>)
    requires Canonical(relative) && IsPathVisible(c.access, c.groups, relative)
    requires Judged(PathSegments(relative), t)
    ensures SegmentsVisible(c.access, c.groups, t)
  {
    if t == [] {
      if !SegmentsVisible(c.access, c.groups, []) {
        HiddenRoot(c.access, c.groups, PathSegments(relative));
      }
    } else if t != PathSegments(relative) {
      assert relative != "";
      DecodedSegments(relative);
    }
  }

  // ---------- Rules that permit nothing else ----------

  /** One group with these delete-enabled allows, and one of its members. */
  function Rules(entries: seq<AllowEntry>): Context {
    Context(AccessConfig([], [], [Grant("team", true, entries)]), ["team"])
  }

  lemma RulesAllow(entries: seq<AllowEntry>, path: string)
    ensures Allows(Rules(entries).access, ["team"], path) <==> exists e :: e in entries && e.path == path
  {
    var access := Rules(entries).access;
    assert access.grants[0] in access.grants && "team" in ["team"];
    if e :| e in entries && e.path == path {
      assert HasEntry(access.grants, "team", e);
      assert GrantsPath(access, "team", path);
    }
  }

  lemma NothingDenied(entries: seq<AllowEntry>, segments: seq<string>)
    requires forall e | e in entries :: e.deny == []
    ensures !SomeDeny(Rules(entries).access, ["team"], segments)
  {
  }

  lemma RulesCover(entries: seq<AllowEntry>, segments: seq<string>)
    ensures SomeAllow(Rules(entries).access, ["team"], segments)
            <==> exists e :: e in entries && PathSegments(e.path) <= segments
  {
    if e :| e in entries && PathSegments(e.path) <= segments {
      AllowCoversPrefix(e.path, segments);
      RulesAllow(entries, e.path);
    }
    if path :| Allows(Rules(entries).access, ["team"], path) && AllowCovers(path, segments) {
      RulesAllow(entries, path);
      AllowCoversPrefix(path, segments);
    }
  }

  /** The two judged forms are allowed, and nothing else. */
  function TwoForms(relative: string): seq<AllowEntry> {
    [AllowEntry(relative, [])] + match DecodedForm(relative)
                                 case None => []
                                 case Some(decoded) => [AllowEntry(decoded, [])]
  }

  lemma TwoFormsVisible(relative: string, t: seq<string>)
    requires relative != "" && Canonical(relative) && t != [] && |t| <= |PathSegments(relative)|
    ensures SegmentsVisible(Rules(TwoForms(relative)).access, ["team"], t) <==> Judged(PathSegments(relative), t)
  {
    var entries := TwoForms(relative);
    VisibleIff(Rules(entries).access, ["team"], t);
    RulesCover(entries, t);
    TwoFormsCover(relative, t);
    NothingDenied(entries, t);
  }

  lemma TwoFormsCover(relative: string, t: seq<string>)
    requires relative != "" && Canonical(relative) && |t| <= |PathSegments(relative)|
    ensures (exists e :: e in TwoForms(relative) && PathSegments(e.path) <= t)
            <==> t == PathSegments(relative) || DecodeTexts(PathSegments(relative)) == Some(t)
    ensures forall e | e in TwoForms(relative) :: e.deny == []
  {
    var entries := TwoForms(relative);
    DecodedSegments(relative);
    LongPrefix(PathSegments(relative), t);
    assert entries[0] in entries && entries[0].path == relative;
    if DecodedForm(relative).Some? {
      assert entries[1] in entries && entries[1].path == DecodedForm(relative).value;
      LongPrefix(PathSegments(DecodedForm(relative).value), t);
    }
  }

  /** They let the request pass on every endpoint. */
  lemma TwoFormsServe(relative: string)
    requires relative != "" && Canonical(relative)
    ensures var c := Rules(TwoForms(relative));
            IsPathVisible(c.access, c.groups, relative) && CanDelete(c.access, c.groups, relative)
  {
    var c := Rules(TwoForms(relative));
    TwoFormsVisible(relative, PathSegments(relative));
    DecodedSegments(relative);
    if DecodedForm(relative).Some? {
      TwoFormsVisible(relative, DecodeTexts(PathSegments(relative)).value);
    }
    AllowCoversPrefix(relative, PathSegments(relative));
    assert c.access.grants[0] in c.access.grants && TwoForms(relative)[0] in TwoForms(relative);
  }

  // ---------- The exact condition ----------

  /** Some request is served as this path and, in some tree, leads to the entry at `q`. */
  ghost predicate LeadsTo(c: Context, endpoint: Endpoint, relative: string, q: Path) {
    && (exists requested :: Respond(c, endpoint, requested) == Serve(relative))
    && (exists root: Node ::
          root.DirNode? && WellFormed(root) && Reached(root, endpoint, PathSegments(relative)) == Some(q))
  }

  lemma LeadsToIff(c: Context, endpoint: Endpoint, relative: string, q: Path)
    requires Canonical(relative) && (endpoint.Directory? || relative != "")
    ensures LeadsTo(c, endpoint, relative, q)
            <==> && CanReach(endpoint, PathSegments(relative), q)
                 && IsPathVisible(c.access, c.groups, relative)
                 && (endpoint.DeleteFile? ==> CanDelete(c.access, c.groups, relative))
  {
    CanReachIff(endpoint, PathSegments(relative), q);
    RequestForReads(relative);
    ServedIff(c, endpoint, RequestFor(relative), relative);
    if other :| Respond(c, endpoint, other) == Serve(relative) {
      ServedIff(c, endpoint, other, relative);
    }
  }

  /** Whatever the rules and whatever the tree, the request is led to permitted entries only. */
  ghost predicate ReachesPermittedOnly(endpoint: Endpoint, relative: string) {
    forall c: Context, q | LeadsTo(c, endpoint, relative, q) :: Permitted(c, q)
  }

  /** Whatever the rules and whatever the tree, the request is led only to what listings show. */
  ghost predicate ReachesShownOnly(endpoint: Endpoint, relative: string) {
    forall c: Context, q | LeadsTo(c, endpoint, relative, q) :: Shown(c, q)
  }

  /** The judged forms vouch for every path the request can reach. */
  ghost predicate AllVouched(endpoint: Endpoint, relative: string) {
    forall q | CanReach(endpoint, PathSegments(relative), q) :: Vouched(PathSegments(relative), q)
  }

  ghost predicate AllVouchedTwice(endpoint: Endpoint, relative: string) {
    forall q | CanReach(endpoint, PathSegments(relative), q) :: VouchedTwice(PathSegments(relative), q)
  }

  /** All that a request for the root reaches is vouched for. */
  lemma NotRoot(endpoint: Endpoint, relative: string, q: Path)
    requires endpoint.Directory? || relative != ""
    requires CanReach(endpoint, PathSegments(relative), q) && !VouchedTwice(PathSegments(relative), q)
    ensures relative != ""
  {
    assert ListedForm([]) == [];
  }

  /** Under the rules that allow the two forms the request leads to what is not vouched for. */
  lemma LeadsAstray(endpoint: Endpoint, relative: string, q: Path)
    requires relative != "" && Canonical(relative)
    requires CanReach(endpoint, PathSegments(relative), q) && !VouchedTwice(PathSegments(relative), q)
    ensures var c := Rules(TwoForms(relative));
            && LeadsTo(c, endpoint, relative, q) && !Shown(c, q)
            && (!Vouched(PathSegments(relative), q) ==> !Permitted(c, q))
  {
    var c, t := Rules(TwoForms(relative)), ListedForm(q);
    ReachLegal(endpoint, PathSegments(relative), q);
    TwoFormsServe(relative);
    LeadsToIff(c, endpoint, relative, q);
    ShownIff(c, q);
    TwoFormsVisible(relative, t);
    if DecodeTexts(t).Some? {
      TwoFormsVisible(relative, DecodeTexts(t).value);
    }
  }

  /** A served request is led to permitted entries only, whatever the rules and whatever the tree,
      exactly when the forms the rules judge vouch for every path it can reach. */
  lemma ReachesPermittedIff(endpoint: Endpoint, relative: string)
    requires Canonical(relative) && (endpoint.Directory? || relative != "")
    ensures ReachesPermittedOnly(endpoint, relative) <==> AllVouched(endpoint, relative)
  {
    if AllVouched(endpoint, relative) {
      forall c: Context, q | LeadsTo(c, endpoint, relative, q) ensures Permitted(c, q) {
        LeadsToIff(c, endpoint, relative, q);
        JudgedVisible(c, relative, ListedForm(q));
      }
    } else {
      var q :| CanReach(endpoint, PathSegments(relative), q) && !Vouched(PathSegments(relative), q);
      NotRoot(endpoint, relative, q);
      LeadsAstray(endpoint, relative, q);
    }
  }

  /** It is led only to entries that listings show exactly when that also holds of what their listed
      paths decode to. */
  lemma ReachesShownIff(endpoint: Endpoint, relative: string)
    requires Canonical(relative) && (endpoint.Directory? || relative != "")
    ensures ReachesShownOnly(endpoint, relative) <==> AllVouchedTwice(endpoint, relative)
  {
    if AllVouchedTwice(endpoint, relative) {
      forall c: Context, q | LeadsTo(c, endpoint, relative, q) ensures Shown(c, q) {
        LeadsToIff(c, endpoint, relative, q);
        ReachLegal(endpoint, PathSegments(relative), q);
        ShownIff(c, q);
        JudgedVisible(c, relative, ListedForm(q));
        if DecodeTexts(ListedForm(q)).Some? {
          JudgedVisible(c, relative, DecodeTexts(ListedForm(q)).value);
        }
      }
    } else {
      var q :| CanReach(endpoint, PathSegments(relative), q) && !VouchedTwice(PathSegments(relative), q);
      NotRoot(endpoint, relative, q);
      LeadsAstray(endpoint, relative, q);
    }
  }

  // ---------- Rules that a configuration can hold ----------

  /** Every rule came out of the validation of some configured text, and every group has a name. */
  ghost predicate Configured(access: AccessConfig) {
    && (forall path | path in access.globalAllow :: exists raw :: ValidateAllowPath(raw) == Ok(path))
    && (forall p | p in access.globalDeny :: exists raw :: ValidateDenyPattern(raw) == Ok(p))
    && forall g, e | g in access.grants && e in g.allow ::
         && g.group != "" && (exists raw :: ValidateAllowPath(raw) == Ok(e.path))
         && forall p | p in e.deny :: exists raw :: ValidateDenyPattern(raw) == Ok(p)
  }

  /** What an allow path may consist of. */
  predicate Nameable(segments: seq<string>) {
    forall s | s in segments :: s != "" && s != ".." && '\\' !in s && '\0' !in s
  }

  lemma NormalizeHeld(path: string)
    requires path != "" && !Text.IsSpace(path[|path| - 1])
    ensures Normalize("." + ['/'] + path) == path
  {
    var raw := "." + ['/'] + path;
    Text.TrimTrimmed(raw);
    assert raw[2..] == path && raw[..2] == "./";
  }

  lemma NameableClean(path: string)
    requires path != "" && Nameable(PathSegments(path))
    ensures '\\' !in path && '\0' !in path && FirstBad(Text.Split(path, '/')) == None
  {
    Text.PartsContents(path, '/', '\\');
    Text.PartsContents(path, '/', '\0');
    assert PathSegments(path) == Text.Split(path, '/');
  }

  /** An allow can name any such path whose last character is not white space: behind `./`. */
  lemma AllowHeld(path: string)
    requires path != "" && !Text.IsSpace(path[|path| - 1]) && Nameable(PathSegments(path))
    ensures exists raw :: ValidateAllowPath(raw) == Ok(path)
  {
    NormalizeHeld(path);
    NameableClean(path);
    assert ValidateAllowPath("." + ['/'] + path) == Ok(path);
  }

  lemma DecodedClean(segments: seq<string>)
    requires "" !in segments && DecodeTexts(segments).Some?
    ensures Nameable(DecodeTexts(segments).value)
  {
    TextsAt(segments);
    TextsArePlain(segments);
    DotsAreText();
    forall s | s in DecodeTexts(segments).value ensures s != ".." && '\\' !in s && '\0' !in s {
      var i :| 0 <= i < |segments| && DecodeTexts(segments).value[i] == s;
      assert DecodedText(segments[i]) == Some(s);
      AsciiOccurs(s, '\\');
      AsciiOccurs(s, '\0');
    }
  }

  predicate EndsInSpace(s: string) {
    s != "" && Text.IsSpace(s[|s| - 1])
  }

  predicate Holdable(path: string) {
    path != "" && !EndsInSpace(path) && Nameable(PathSegments(path))
  }

  lemma RulesHeld(entries: seq<AllowEntry>)
    requires forall e | e in entries :: e.deny == [] && Holdable(e.path)
    ensures Configured(Rules(entries).access)
  {
    forall e | e in entries ensures exists raw :: ValidateAllowPath(raw) == Ok(e.path) {
      AllowHeld(e.path);
    }
  }

  lemma TwoFormsHeld(relative: string)
    requires relative != "" && Canonical(relative) && !EndsInSpace(relative)
    requires DecodedForm(relative).Some? ==> !EndsInSpace(DecodedForm(relative).value)
    ensures Configured(Rules(TwoForms(relative)).access)
  {
    assert !Plain("") && !Plain("..") && PathSegments("") == [];
    if DecodedForm(relative).Some? {
      DecodedSegments(relative);
      DecodedClean(PathSegments(relative));
      assert Holdable(DecodedForm(relative).value);
    }
    RulesHeld(TwoForms(relative));
  }

  /** The condition is as exact under the rules of valid configurations, unless a judged form ends in
      white space. */
  lemma ConfiguredPermittedIff(endpoint: Endpoint, relative: string)
    requires Canonical(relative) && (endpoint.Directory? || relative != "") && !EndsInSpace(relative)
    requires DecodedForm(relative).Some? ==> !EndsInSpace(DecodedForm(relative).value)
    ensures (forall c: Context, q | Configured(c.access) && LeadsTo(c, endpoint, relative, q) :: Permitted(c, q))
            <==> AllVouched(endpoint, relative)
  {
    ReachesPermittedIff(endpoint, relative);
    if !AllVouched(endpoint, relative) {
      var q :| CanReach(endpoint, PathSegments(relative), q) && !Vouched(PathSegments(relative), q);
      NotRoot(endpoint, relative, q);
      LeadsAstray(endpoint, relative, q);
      TwoFormsHeld(relative);
    }
  }
}
