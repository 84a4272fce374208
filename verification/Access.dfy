// The access rules: which allows cover a path, which denies match it, and the verdict.

module Access {
  import opened Seqs
  import opened Options
  import opened DenyPatterns
  import Text

  datatype AllowEntry = AllowEntry(path: string, deny: seq<DenyPattern>)

  datatype Grant = Grant(group: string, canDelete: bool, allow: seq<AllowEntry>)

  /** The grants stand in the order the configuration map yields them. */
  datatype AccessConfig = AccessConfig(globalAllow: seq<string>, globalDeny: seq<DenyPattern>, grants: seq<Grant>)

  /** A user's groups and the configuration they are judged by. */
  datatype Context = Context(access: AccessConfig, groups: seq<string>)

  datatype AllowSource = RootAllows | GlobalAllow | GrantAllow(path: string, group: string)

  datatype DenySource = GlobalDeny | AllowDeny(path: string, group: string)

  datatype Denial = NoAllow | Denied(pattern: DenyPattern, source: DenySource)

  datatype Decision = Visible(source: AllowSource) | Hidden(denial: Denial)

  /** `path_segments`. */
  function PathSegments(relative: string): seq<string> {
    if relative == "" then [] else Text.Split(relative, '/')
  }

  /** `allow_covers`. */
  predicate AllowCovers(path: string, segments: seq<string>) {
    path == ""
    || (var own := Text.Split(path, '/');
        |own| <= |segments| && forall i :: 0 <= i < |own| ==> own[i] == segments[i])
  }

  lemma AllowCoversPrefix(path: string, segments: seq<string>)
    ensures AllowCovers(path, segments) <==> PathSegments(path) <= segments
  {
  }

  // ---------- The evaluation ----------

  function FirstDeny(deny: seq<DenyPattern>, segments: seq<string>): (r: Option<DenyPattern>)
    ensures r.Some? ==> r.value in deny && Matches(r.value, segments)
    ensures r == None ==> forall p | p in deny :: !Matches(p, segments)
  {
    if deny == [] then None
    else if Matches(deny[0], segments) then Some(deny[0])
    else FirstDeny(deny[1..], segments)
  }

  function CoveringIn(group: string, entries: seq<AllowEntry>, segments: seq<string>): seq<(string, AllowEntry)> {
    if entries == [] then []
    else (if AllowCovers(entries[0].path, segments) then [(group, entries[0])] else [])
         + CoveringIn(group, entries[1..], segments)
  }

  /** The allow entries of the user's groups that cover the path. */
  function Covering(grants: seq<Grant>, groups: seq<string>, segments: seq<string>): seq<(string, AllowEntry)> {
    if grants == [] then []
    else (if grants[0].group in groups then CoveringIn(grants[0].group, grants[0].allow, segments) else [])
         + Covering(grants[1..], groups, segments)
  }

  function FirstScopedDeny(covering: seq<(string, AllowEntry)>, segments: seq<string>): Option<Denial> {
    if covering == [] then None
    else
      match FirstDeny(covering[0].1.deny, segments)
      case Some(p) => Some(Denied(p, AllowDeny(covering[0].1.path, covering[0].0)))
      case None => FirstScopedDeny(covering[1..], segments)
  }

  predicate CoveredByGlobal(access: AccessConfig, segments: seq<string>) {
    exists path | path in access.globalAllow :: AllowCovers(path, segments)
  }

  predicate HasAllow(access: AccessConfig, groups: seq<string>) {
    access.globalAllow != [] || exists g | g in access.grants :: g.group in groups && g.allow != []
  }

  /** What `evaluate` decides. */
  function Decide(access: AccessConfig, groups: seq<string>, segments: seq<string>): Decision {
    if segments == [] then
      if HasAllow(access, groups) then Visible(RootAllows) else Hidden(NoAllow)
    else
      var covering := Covering(access.grants, groups, segments);
      if !CoveredByGlobal(access, segments) && covering == [] then Hidden(NoAllow)
      else
        match FirstDeny(access.globalDeny, segments)
        case Some(p) => Hidden(Denied(p, GlobalDeny))
        case None =>
          match FirstScopedDeny(covering, segments)
          case Some(denial) => Hidden(denial)
          case None =>
            if CoveredByGlobal(access, segments) then Visible(GlobalAllow)
            else Visible(GrantAllow(covering[0].1.path, covering[0].0))
  }

  /** The loops of `evaluate` that collect the covering allow entries: the outer one over the
      grants, the inner one over the entries of one grant. */
  method CollectCovering(grants: seq<Grant>, groups: seq<string>, segments: seq<string>)
    returns (covering: seq<(string, AllowEntry)>)
    ensures covering == Covering(grants, groups, segments)
  {
    covering := [];
    for i := 0 to |grants|
      invariant covering == Covering(grants[..i], groups, segments)
    {
      CoveringAppend(grants[..i], grants[i], groups, segments);
      assert grants[..i + 1] == grants[..i] + [grants[i]];
      if grants[i].group in groups {
        var found := CollectFrom(grants[i].group, grants[i].allow, segments);
        covering := covering + found;
      }
    }
    assert grants[..|grants|] == grants;
  }

  method CollectFrom(group: string, entries: seq<AllowEntry>, segments: seq<string>)
    returns (found: seq<(string, AllowEntry)>)
    ensures found == CoveringIn(group, entries, segments)
  {
    found := [];
    for j := 0 to |entries|
      invariant found == CoveringIn(group, entries[..j], segments)
    {
      CoveringInAppend(group, entries[..j], entries[j], segments);
      assert entries[..j + 1] == entries[..j] + [entries[j]];
      if AllowCovers(entries[j].path, segments) {
        found := found + [(group, entries[j])];
      }
    }
    assert entries[..|entries|] == entries;
  }

  lemma {:induction false} CoveringInAppend(group: string, entries: seq<AllowEntry>, e: AllowEntry,
                                            segments: seq<string>)
    ensures CoveringIn(group, entries + [e], segments)
         == CoveringIn(group, entries, segments) + if AllowCovers(e.path, segments) then [(group, e)] else []
  {
    if entries == [] {
      assert entries + [e] == [e];
    } else {
      CoveringInAppend(group, entries[1..], e, segments);
      TailAppend(entries, [e]);
      Assoc(if AllowCovers(entries[0].path, segments) then [(group, entries[0])] else [],
            CoveringIn(group, entries[1..], segments),
            if AllowCovers(e.path, segments) then [(group, e)] else []);
    }
  }

  lemma {:induction false} CoveringAppend(grants: seq<Grant>, g: Grant, groups: seq<string>, segments: seq<string>)
    ensures Covering(grants + [g], groups, segments)
         == Covering(grants, groups, segments)
            + if g.group in groups then CoveringIn(g.group, g.allow, segments) else []
  {
    if grants == [] {
      assert grants + [g] == [g];
    } else {
      CoveringAppend(grants[1..], g, groups, segments);
      TailAppend(grants, [g]);
      Assoc(if grants[0].group in groups then CoveringIn(grants[0].group, grants[0].allow, segments) else [],
            Covering(grants[1..], groups, segments),
            if g.group in groups then CoveringIn(g.group, g.allow, segments) else []);
    }
  }

  /** `evaluate`. */
  method Evaluate(access: AccessConfig, groups: seq<string>, segments: seq<string>) returns (decision: Decision)
    ensures decision == Decide(access, groups, segments)
  {
    if segments == [] {
      if HasAllow(access, groups) {
        return Visible(RootAllows);
      }
      return Hidden(NoAllow);
    }
    var coveredByGlobal := false;
    for i := 0 to |access.globalAllow|
      invariant coveredByGlobal <==> exists k :: 0 <= k < i && AllowCovers(access.globalAllow[k], segments)
    {
      if AllowCovers(access.globalAllow[i], segments) {
        coveredByGlobal := true;
      }
    }
    var covering := CollectCovering(access.grants, groups, segments);
    if !coveredByGlobal && covering == [] {
      return Hidden(NoAllow);
    }
    var global := FirstDeny(access.globalDeny, segments);
    if global.Some? {
      return Hidden(Denied(global.value, GlobalDeny));
    }
    for i := 0 to |covering|
      invariant FirstScopedDeny(covering, segments) == FirstScopedDeny(covering[i..], segments)
    {
      assert covering[i..][1..] == covering[i + 1..];
      var denied := FirstDeny(covering[i].1.deny, segments);
      if denied.Some? {
        return Hidden(Denied(denied.value, AllowDeny(covering[i].1.path, covering[i].0)));
      }
    }
    if coveredByGlobal {
      return Visible(GlobalAllow);
    }
    return Visible(GrantAllow(covering[0].1.path, covering[0].0));
  }

  // ---------- What the rules say, as sets ----------

  ghost predicate HasEntry(grants: seq<Grant>, group: string, entry: AllowEntry) {
    exists g :: g in grants && g.group == group && entry in g.allow
  }

  /** Some grant of the group allows the path. */
  ghost predicate GrantsPath(access: AccessConfig, group: string, path: string) {
    exists e :: HasEntry(access.grants, group, e) && e.path == path
  }

  /** Some grant of the group denies the pattern under the path. */
  ghost predicate ScopedDeny(access: AccessConfig, group: string, path: string, p: DenyPattern) {
    exists e :: HasEntry(access.grants, group, e) && e.path == path && p in e.deny
  }

  /** The path is one of the allows that apply to the user. */
  ghost predicate Allows(access: AccessConfig, groups: seq<string>, path: string) {
    path in access.globalAllow || exists g :: g in groups && GrantsPath(access, g, path)
  }

  ghost predicate SomeAllow(access: AccessConfig, groups: seq<string>, segments: seq<string>) {
    exists path :: Allows(access, groups, path) && AllowCovers(path, segments)
  }

  ghost predicate SomeDeny(access: AccessConfig, groups: seq<string>, segments: seq<string>) {
    || (exists p :: p in access.globalDeny && Matches(p, segments))
    || (exists g, path, p :: g in groups && ScopedDeny(access, g, path, p) && AllowCovers(path, segments)
                             && Matches(p, segments))
  }

  lemma {:induction false} CoveringInMember(group: string, entries: seq<AllowEntry>, segments: seq<string>,
                                            g: string, e: AllowEntry)
    ensures (g, e) in CoveringIn(group, entries, segments)
            <==> g == group && e in entries && AllowCovers(e.path, segments)
  {
    if entries != [] {
      CoveringInMember(group, entries[1..], segments, g, e);
    }
  }

  lemma {:induction false} CoveringMember(grants: seq<Grant>, groups: seq<string>, segments: seq<string>,
                                          g: string, e: AllowEntry)
    ensures (g, e) in Covering(grants, groups, segments)
            <==> g in groups && HasEntry(grants, g, e) && AllowCovers(e.path, segments)
  {
    if grants != [] {
      CoveringInMember(grants[0].group, grants[0].allow, segments, g, e);
      CoveringMember(grants[1..], groups, segments, g, e);
      assert HasEntry(grants, g, e) <==> (grants[0].group == g && e in grants[0].allow) || HasEntry(grants[1..], g, e);
    }
  }

  lemma {:induction false} ScopedDenyFound(covering: seq<(string, AllowEntry)>, segments: seq<string>)
    ensures var r := FirstScopedDeny(covering, segments);
            match r
            case None => forall c, p | c in covering && p in c.1.deny :: !Matches(p, segments)
            case Some(denial) =>
              denial.Denied? && denial.source.AllowDeny? && Matches(denial.pattern, segments)
              && exists e ::
                   (denial.source.group, e) in covering && e.path == denial.source.path && denial.pattern in e.deny
  {
    if covering != [] {
      ScopedDenyFound(covering[1..], segments);
      assert forall c :: c in covering <==> c == covering[0] || c in covering[1..];
    }
  }

  /** A decision states its reason truthfully: the allow or deny it names is a rule of the
      configuration that applies to the user and covers or matches the path. */
  lemma DecisionWitness(access: AccessConfig, groups: seq<string>, segments: seq<string>)
    ensures match Decide(access, groups, segments)
            case Visible(RootAllows) => segments == [] && exists path :: Allows(access, groups, path)
            case Visible(GlobalAllow) => CoveredByGlobal(access, segments)
            case Visible(GrantAllow(path, g)) =>
              g in groups && GrantsPath(access, g, path) && AllowCovers(path, segments)
            case Hidden(NoAllow) => !SomeAllow(access, groups, segments)
            case Hidden(Denied(p, GlobalDeny)) => p in access.globalDeny && Matches(p, segments)
            case Hidden(Denied(p, AllowDeny(path, g))) =>
              g in groups && ScopedDeny(access, g, path, p) && AllowCovers(path, segments) && Matches(p, segments)
  {
    AllowExists(access, groups, segments);
    var covering := Covering(access.grants, groups, segments);
    ScopedDenyFound(covering, segments);
    forall g, e | (g, e) in covering
      ensures g in groups && HasEntry(access.grants, g, e) && AllowCovers(e.path, segments)
    {
      CoveringMember(access.grants, groups, segments, g, e);
    }
    if segments != [] && covering != [] {
      assert (covering[0].0, covering[0].1) in covering;
    }
  }

  // ---------- Which rule a decision names ----------

  lemma {:induction false} FirstDenyAt(deny: seq<DenyPattern>, segments: seq<string>) returns (k: nat)
    requires FirstDeny(deny, segments).Some?
    ensures k < |deny| && FirstDeny(deny, segments).value == deny[k] && Matches(deny[k], segments)
    ensures forall p | p in deny[..k] :: !Matches(p, segments)
  {
    if Matches(deny[0], segments) {
      k := 0;
    } else {
      var n := FirstDenyAt(deny[1..], segments);
      k := n + 1;
      assert deny[..k] == [deny[0]] + deny[1..][..n];
    }
  }

  /** The entry does not cover the path, or none of its own denies matches it. */
  predicate Quiet(e: AllowEntry, segments: seq<string>) {
    AllowCovers(e.path, segments) ==> forall p | p in e.deny :: !Matches(p, segments)
  }

  lemma {:induction false} ScopedConcat(a: seq<(string, AllowEntry)>, b: seq<(string, AllowEntry)>,
                                        segments: seq<string>)
    ensures var first := FirstScopedDeny(a, segments);
            FirstScopedDeny(a + b, segments) == if first.Some? then first else FirstScopedDeny(b, segments)
  {
    if a == [] {
      assert a + b == b;
    } else {
      TailAppend(a, b);
      ScopedConcat(a[1..], b, segments);
    }
  }

  predicate FirstInAt(group: string, entries: seq<AllowEntry>, segments: seq<string>, d: Denial, j: nat, k: nat) {
    && j < |entries| && k < |entries[j].deny| && AllowCovers(entries[j].path, segments)
    && d == Denied(entries[j].deny[k], AllowDeny(entries[j].path, group)) && Matches(entries[j].deny[k], segments)
    && (forall p | p in entries[j].deny[..k] :: !Matches(p, segments))
    && (forall e | e in entries[..j] :: Quiet(e, segments))
  }

  /** The first of the entries, and in it the first pattern, that denies the path. */
  ghost predicate FirstIn(group: string, entries: seq<AllowEntry>, segments: seq<string>, d: Denial) {
    exists j: nat, k: nat :: FirstInAt(group, entries, segments, d, j, k)
  }

  lemma {:induction false} ScopedFirstIn(group: string, entries: seq<AllowEntry>, segments: seq<string>)
    ensures var r := FirstScopedDeny(CoveringIn(group, entries, segments), segments);
            && (r == None ==> forall e | e in entries :: Quiet(e, segments))
            && (r.Some? ==> FirstIn(group, entries, segments, r.value))
  {
    if entries != [] {
      var head := if AllowCovers(entries[0].path, segments) then [(group, entries[0])] else [];
      ScopedFirstIn(group, entries[1..], segments);
      ScopedConcat(head, CoveringIn(group, entries[1..], segments), segments);
      assert head != [] ==> head[1..] == [];
      if head != [] && FirstDeny(entries[0].deny, segments).Some? {
        var k := FirstDenyAt(entries[0].deny, segments);
        var d := Denied(entries[0].deny[k], AllowDeny(entries[0].path, group));
        assert FirstInAt(group, entries, segments, d, 0, k);
      } else {
        LaterIn(group, entries, segments);
      }
    }
  }

  lemma LaterIn(group: string, entries: seq<AllowEntry>, segments: seq<string>)
    requires entries != [] && Quiet(entries[0], segments)
    ensures forall d | FirstIn(group, entries[1..], segments, d) :: FirstIn(group, entries, segments, d)
  {
    var rest := entries[1..];
    forall d | FirstIn(group, rest, segments, d) ensures FirstIn(group, entries, segments, d) {
      var j: nat, k: nat :| FirstInAt(group, rest, segments, d, j, k);
      assert entries[j + 1] == rest[j] && entries[..j + 1] == [entries[0]] + rest[..j];
      assert FirstInAt(group, entries, segments, d, j + 1, k);
    }
  }

  predicate GrantQuiet(g: Grant, groups: seq<string>, segments: seq<string>) {
    g.group in groups ==> forall e | e in g.allow :: Quiet(e, segments)
  }

  ghost predicate FirstScopedAt(grants: seq<Grant>, groups: seq<string>, segments: seq<string>, d: Denial, i: nat) {
    && i < |grants| && grants[i].group in groups && FirstIn(grants[i].group, grants[i].allow, segments, d)
    && forall g | g in grants[..i] :: GrantQuiet(g, groups, segments)
  }

  /** The first grant of one of the user's groups that denies the path, and its first denial. */
  ghost predicate FirstScoped(grants: seq<Grant>, groups: seq<string>, segments: seq<string>, d: Denial) {
    exists i: nat :: FirstScopedAt(grants, groups, segments, d, i)
  }

  lemma LaterScoped(grants: seq<Grant>, groups: seq<string>, segments: seq<string>, d: Denial)
    requires grants != [] && GrantQuiet(grants[0], groups, segments)
    requires FirstScoped(grants[1..], groups, segments, d)
    ensures FirstScoped(grants, groups, segments, d)
  {
    var i: nat :| FirstScopedAt(grants[1..], groups, segments, d, i);
    assert grants[i + 1] == grants[1..][i] && grants[..i + 1] == [grants[0]] + grants[1..][..i];
    assert FirstScopedAt(grants, groups, segments, d, i + 1);
  }

  lemma {:induction false} ScopedFirst(grants: seq<Grant>, groups: seq<string>, segments: seq<string>)
    ensures var r := FirstScopedDeny(Covering(grants, groups, segments), segments);
            && (r == None ==> forall g | g in grants :: GrantQuiet(g, groups, segments))
            && (r.Some? ==> FirstScoped(grants, groups, segments, r.value))
  {
    if grants != [] {
      var g, rest := grants[0], grants[1..];
      var head := if g.group in groups then CoveringIn(g.group, g.allow, segments) else [];
      ScopedFirst(rest, groups, segments);
      ScopedFirstIn(g.group, g.allow, segments);
      ScopedConcat(head, Covering(rest, groups, segments), segments);
      var r := FirstScopedDeny(Covering(grants, groups, segments), segments);
      var own := FirstScopedDeny(head, segments);
      if own.Some? {
        assert FirstScopedAt(grants, groups, segments, own.value, 0);
      } else if r.Some? {
        LaterScoped(grants, groups, segments, r.value);
      }
    }
  }

  predicate Uncovering(entries: seq<AllowEntry>, segments: seq<string>) {
    forall e | e in entries :: !AllowCovers(e.path, segments)
  }

  predicate FirstCoverAt(grants: seq<Grant>, groups: seq<string>, segments: seq<string>, i: nat, j: nat) {
    && i < |grants| && grants[i].group in groups && j < |grants[i].allow|
    && AllowCovers(grants[i].allow[j].path, segments) && Uncovering(grants[i].allow[..j], segments)
    && forall g | g in grants[..i] && g.group in groups :: Uncovering(g.allow, segments)
  }

  /** The first entry of the user's grants that covers the path. */
  ghost predicate FirstCover(grants: seq<Grant>, groups: seq<string>, segments: seq<string>, group: string,
                             path: string) {
    exists i: nat, j: nat ::
      FirstCoverAt(grants, groups, segments, i, j) && grants[i].group == group && grants[i].allow[j].path == path
  }

  lemma LaterCover(grants: seq<Grant>, groups: seq<string>, segments: seq<string>, group: string, path: string)
    requires grants != [] && (grants[0].group in groups ==> Uncovering(grants[0].allow, segments))
    requires FirstCover(grants[1..], groups, segments, group, path)
    ensures FirstCover(grants, groups, segments, group, path)
  {
    var rest := grants[1..];
    var i: nat, j: nat :|
      FirstCoverAt(rest, groups, segments, i, j) && rest[i].group == group && rest[i].allow[j].path == path;
    assert grants[i + 1] == rest[i] && grants[..i + 1] == [grants[0]] + rest[..i];
    assert FirstCoverAt(grants, groups, segments, i + 1, j);
  }

  lemma {:induction false} CoverFirstIn(group: string, entries: seq<AllowEntry>, segments: seq<string>)
    returns (j: nat)
    ensures var covering := CoveringIn(group, entries, segments);
            && (covering == [] ==> Uncovering(entries, segments))
            && (covering != [] ==>
                  && j < |entries| && covering[0] == (group, entries[j]) && AllowCovers(entries[j].path, segments)
                  && Uncovering(entries[..j], segments))
  {
    j := 0;
    if entries != [] {
      var n := CoverFirstIn(group, entries[1..], segments);
      if !AllowCovers(entries[0].path, segments) {
        j := n + 1;
        if j < |entries| {
          assert entries[..j] == [entries[0]] + entries[1..][..n];
        }
      }
    }
  }

  lemma {:induction false} CoverFirst(grants: seq<Grant>, groups: seq<string>, segments: seq<string>)
    ensures var covering := Covering(grants, groups, segments);
            covering != [] ==> FirstCover(grants, groups, segments, covering[0].0, covering[0].1.path)
  {
    if grants != [] {
      var g := grants[0];
      var covering := Covering(grants, groups, segments);
      CoverFirst(grants[1..], groups, segments);
      var j := CoverFirstIn(g.group, g.allow, segments);
      if g.group in groups && CoveringIn(g.group, g.allow, segments) != [] {
        assert covering[0] == (g.group, g.allow[j]);
        assert FirstCoverAt(grants, groups, segments, 0, j);
      } else if covering != [] {
        LaterCover(grants, groups, segments, covering[0].0, covering[0].1.path);
      }
    }
  }

  /** Which rule a decision names, if several apply: global ones before those of grants, then the first in
      the order of the configuration. */
  lemma DecisionNamesFirst(access: AccessConfig, groups: seq<string>, segments: seq<string>)
    requires segments != []
    ensures match Decide(access, groups, segments)
            case Visible(RootAllows) => false
            case Visible(GlobalAllow) => exists path :: path in access.globalAllow && AllowCovers(path, segments)
            case Visible(GrantAllow(path, g)) =>
              && (forall p | p in access.globalAllow :: !AllowCovers(p, segments))
              && FirstCover(access.grants, groups, segments, g, path)
            case Hidden(NoAllow) => true
            case Hidden(Denied(p, GlobalDeny)) =>
              exists k :: && 0 <= k < |access.globalDeny| && access.globalDeny[k] == p && Matches(p, segments)
                          && forall q | q in access.globalDeny[..k] :: !Matches(q, segments)
            case Hidden(Denied(p, AllowDeny(path, g))) =>
              && (forall q | q in access.globalDeny :: !Matches(q, segments))
              && FirstScoped(access.grants, groups, segments, Denied(p, AllowDeny(path, g)))
  {
    ScopedDenyFound(Covering(access.grants, groups, segments), segments);
    ScopedFirst(access.grants, groups, segments);
    CoverFirst(access.grants, groups, segments);
    if FirstDeny(access.globalDeny, segments).Some? {
      var k := FirstDenyAt(access.globalDeny, segments);
    }
  }

  // ---------- The verdict as sets ----------

  /** Some allow applies, read off the configuration and read off the covering entries. */
  lemma AllowExists(access: AccessConfig, groups: seq<string>, segments: seq<string>)
    ensures HasAllow(access, groups) <==> exists path :: Allows(access, groups, path)
    ensures SomeAllow(access, groups, segments)
            <==> CoveredByGlobal(access, segments) || Covering(access.grants, groups, segments) != []
  {
    var covering := Covering(access.grants, groups, segments);
    if access.globalAllow != [] {
      assert Allows(access, groups, access.globalAllow[0]);
    } else if HasAllow(access, groups) {
      var g :| g in access.grants && g.group in groups && g.allow != [];
      assert HasEntry(access.grants, g.group, g.allow[0]);
      assert GrantsPath(access, g.group, g.allow[0].path);
      assert Allows(access, groups, g.allow[0].path);
    }
    if CoveredByGlobal(access, segments) {
      var path :| path in access.globalAllow && AllowCovers(path, segments);
      assert Allows(access, groups, path);
    } else if covering != [] {
      var (g, e) := covering[0];
      assert (g, e) in covering;
      CoveringMember(access.grants, groups, segments, g, e);
      assert GrantsPath(access, g, e.path);
      assert Allows(access, groups, e.path);
    }
    if SomeAllow(access, groups, segments) && !CoveredByGlobal(access, segments) {
      var path :| Allows(access, groups, path) && AllowCovers(path, segments);
      var g :| g in groups && GrantsPath(access, g, path);
      var e :| HasEntry(access.grants, g, e) && e.path == path;
      CoveringMember(access.grants, groups, segments, g, e);
    }
  }

  /** The verdict is set semantics. The root is visible when any allow applies to the user; any
      other path when an allow covers it and no deny matches it, neither a global one nor one
      scoped to an allow of the user that covers the path. */
  lemma VisibleIff(access: AccessConfig, groups: seq<string>, segments: seq<string>)
    ensures segments == [] ==>
              (Decide(access, groups, segments).Visible? <==> exists path :: Allows(access, groups, path))
    ensures segments != [] ==>
              (Decide(access, groups, segments).Visible?
               <==> SomeAllow(access, groups, segments) && !SomeDeny(access, groups, segments))
    ensures segments != [] ==>
              (Decide(access, groups, segments) == Hidden(NoAllow) <==> !SomeAllow(access, groups, segments))
  {
    DecisionWitness(access, groups, segments);
    AllowExists(access, groups, segments);
    if segments != [] && Decide(access, groups, segments).Visible? {
      var covering := Covering(access.grants, groups, segments);
      ScopedDenyFound(covering, segments);
      forall g, path, p | g in groups && ScopedDeny(access, g, path, p) && AllowCovers(path, segments)
        ensures !Matches(p, segments)
      {
        var e :| HasEntry(access.grants, g, e) && e.path == path && p in e.deny;
        CoveringMember(access.grants, groups, segments, g, e);
      }
    }
    if segments != [] && Decide(access, groups, segments).Hidden? && SomeAllow(access, groups, segments) {
      assert SomeDeny(access, groups, segments);
    }
  }

  /** Two configurations hold the same rules, whatever their order and repetitions. */
  ghost predicate SameRules(a: AccessConfig, b: AccessConfig) {
    && (forall path :: path in a.globalAllow <==> path in b.globalAllow)
    && (forall p :: p in a.globalDeny <==> p in b.globalDeny)
    && (forall g, path :: GrantsPath(a, g, path) <==> GrantsPath(b, g, path))
    && (forall g, path, p :: ScopedDeny(a, g, path, p) <==> ScopedDeny(b, g, path, p))
  }

  /** The user is in the same groups, as far as the configuration names them. */
  ghost predicate SameGroups(access: AccessConfig, xs: seq<string>, ys: seq<string>) {
    forall g | g in access.grants :: g.group in xs <==> g.group in ys
  }

  /** Reordering or repeating allows, denies, grants or groups, and adding groups no grant names,
      never changes a verdict. */
  lemma OrderDoesNotMatter(a: AccessConfig, b: AccessConfig, xs: seq<string>, ys: seq<string>, segments: seq<string>)
    requires SameRules(a, b) && SameGroups(a, xs, ys)
    ensures Decide(a, xs, segments).Visible? <==> Decide(b, ys, segments).Visible?
    ensures Decide(a, xs, segments) == Hidden(NoAllow) <==> Decide(b, ys, segments) == Hidden(NoAllow)
  {
    VisibleIff(a, xs, segments);
    VisibleIff(b, ys, segments);
    forall path ensures Allows(a, xs, path) <==> Allows(b, ys, path) {
      assert forall g :: GrantsPath(a, g, path) ==> (g in xs <==> g in ys);
    }
    forall g, path, p | ScopedDeny(a, g, path, p) ensures g in xs <==> g in ys {
    }
    assert SomeDeny(a, xs, segments) <==> SomeDeny(b, ys, segments);
  }

  /** Joining a group hides a visible path exactly when that group's own grant denies it under an
      allow that covers it. */
  lemma AddedGroupHides(access: AccessConfig, groups: seq<string>, added: string, segments: seq<string>)
    requires segments != [] && Decide(access, groups, segments).Visible?
    ensures Decide(access, groups + [added], segments).Hidden?
            <==> exists path, p ::
                   ScopedDeny(access, added, path, p) && AllowCovers(path, segments) && Matches(p, segments)
  {
    VisibleIff(access, groups, segments);
    VisibleIff(access, groups + [added], segments);
    var path :| Allows(access, groups, path) && AllowCovers(path, segments);
    assert Allows(access, groups + [added], path);
    assert added in groups + [added];
    assert forall g :: g in groups + [added] <==> g in groups || g == added;
  }

  // ---------- Subtrees ----------

  lemma CoversBelow(path: string, segments: seq<string>, below: seq<string>)
    requires AllowCovers(path, segments)
    ensures AllowCovers(path, segments + below)
  {
  }

  /** Once a path is denied, nothing under it is visible: everything below is denied too. */
  lemma DeniedBelow(access: AccessConfig, groups: seq<string>, segments: seq<string>, below: seq<string>)
    requires var d := Decide(access, groups, segments); d.Hidden? && d.denial.Denied?
    ensures var d := Decide(access, groups, segments + below); d.Hidden? && d.denial.Denied?
  {
    VisibleIff(access, groups, segments);
    VisibleIff(access, groups, segments + below);
    DecisionWitness(access, groups, segments);
    var path :| Allows(access, groups, path) && AllowCovers(path, segments);
    CoversBelow(path, segments, below);
    var denial := Decide(access, groups, segments).denial;
    MatchesExtends(denial.pattern, segments, below);
    if denial.source.AllowDeny? {
      CoversBelow(denial.source.path, segments, below);
    }
    assert SomeDeny(access, groups, segments + below);
  }

  /** A hidden root means that the user sees nothing at all. */
  lemma HiddenRoot(access: AccessConfig, groups: seq<string>, segments: seq<string>)
    requires Decide(access, groups, []).Hidden?
    ensures Decide(access, groups, segments) == Hidden(NoAllow)
  {
    VisibleIff(access, groups, []);
    VisibleIff(access, groups, segments);
  }

  lemma PrefixesCompare<T>(a: seq<T>, b: seq<T>, below: seq<T>)
    requires a <= b + below
    ensures a <= b || b < a
  {
  }

  /** Being hidden for want of an allow is inherited by everything below exactly when no allow of
      the user lies strictly below the path. */
  lemma NoAllowBelow(access: AccessConfig, groups: seq<string>, segments: seq<string>)
    requires segments != [] && Decide(access, groups, segments) == Hidden(NoAllow)
    ensures (forall below :: Decide(access, groups, segments + below) == Hidden(NoAllow))
            <==> !exists path :: Allows(access, groups, path) && segments < PathSegments(path)
  {
    VisibleIff(access, groups, segments);
    if path :| Allows(access, groups, path) && segments < PathSegments(path) {
      var all := PathSegments(path);
      var below := all[|segments|..];
      assert segments + below == all;
      AllowCoversPrefix(path, all);
      VisibleIff(access, groups, all);
      assert Decide(access, groups, segments + below) != Hidden(NoAllow);
    } else {
      forall below ensures Decide(access, groups, segments + below) == Hidden(NoAllow) {
        var all := segments + below;
        VisibleIff(access, groups, all);
        if path :| Allows(access, groups, path) && AllowCovers(path, all) {
          AllowCoversPrefix(path, all);
          AllowCoversPrefix(path, segments);
          PrefixesCompare(PathSegments(path), segments, below);
          assert false;
        }
      }
    }
  }

  /** It is not inherited in general: with the single allow `a/b` the directory `a` is hidden and
      `a/b` is visible. */
  lemma NoAllowNotInherited()
    ensures var access := AccessConfig(["a/b"], [], []);
            Decide(access, [], ["a"]) == Hidden(NoAllow) && Decide(access, [], ["a", "b"]).Visible?
  {
    var access := AccessConfig(["a/b"], [], []);
    Text.SplitFirst("a", '/', "b");
    assert "a" + ['/'] + "b" == "a/b";
    assert Text.Split("a/b", '/') == ["a", "b"];
    assert AllowCovers("a/b", ["a", "b"]) && "a/b" in access.globalAllow;
  }

  // ---------- Validated allow paths ----------

  /** `validate_allow_path`. */
  function ValidateAllowPath(raw: string): Result<string, ConfigError> {
    if '\0' in raw || '\\' in raw then Err(BadCharacter)
    else
      var normalized := Normalize(raw);
      if normalized == "" then Ok(normalized)
      else
        match FirstBad(Text.Split(normalized, '/'))
        case Some(e) => Err(e)
        case None => Ok(normalized)
  }

  /** Which texts are refused as allow paths; an accepted one is kept as it is normalized. */
  lemma AllowPathIff(raw: string)
    ensures var r, parts := ValidateAllowPath(raw), Components(raw);
            && (r == Err(BadCharacter) <==> '\0' in raw || '\\' in raw)
            && (r.Ok? <==> && '\0' !in raw && '\\' !in raw
                           && (Normalize(raw) == "" || ("" !in parts && ".." !in parts)))
            && (r.Ok? ==> r.value == Normalize(raw))
  {
  }

  predicate IsRootSpelling(t: string) {
    t == "" || t == "/" || t == "./" || t == "/./"
  }

  /** The spellings that address the root. A single dot is not one of them. */
  lemma RootAllow(raw: string)
    ensures ValidateAllowPath(raw) == Ok("") <==> IsRootSpelling(Text.Trim(raw))
    ensures Text.Trim(raw) == "." ==> ValidateAllowPath(raw) == Ok(".")
  {
    var t := Text.Trim(raw);
    NormalizeRoot(raw);
    if IsRootSpelling(t) || t == "." {
      var pre, post := Text.TrimSplits(raw);
      assert forall c | c in raw :: c in pre || c in t || c in post;
      assert !Text.IsSpace('\0') && !Text.IsSpace('\\');
    }
    if t == "." {
      assert Text.Split(".", '/') == ["."];
    }
  }

  lemma NormalizeRoot(raw: string)
    ensures Normalize(raw) == "" <==> IsRootSpelling(Text.Trim(raw))
  {
  }
}
