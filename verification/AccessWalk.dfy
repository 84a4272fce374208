// `run_access_check`: the walk over a stack of paths, with a flag for each rule, and its report.

module AccessWalk {
  import opened Seqs
  import opened Options
  import opened Utf8
  import opened Access
  import opened DenyPatterns
  import opened Sorting
  import opened AccessCheck
  import opened AccessReport
  import Paths

  // ---------- Rules ----------

  /** One rule of the configuration with its origin: the grant of an allow, the grant and allow path
      an allow-specific deny belongs to. */
  datatype CheckRule =
    | AllowRule(path: string, group: Option<string>)
    | DenyRule(pattern: DenyPattern, scope: Option<(string, string)>)

  predicate Hit(rule: CheckRule, segments: seq<string>) {
    match rule
    case AllowRule(path, _) => AllowCovers(path, segments)
    case DenyRule(pattern, _) => Matches(pattern, segments)
  }

  predicate FromEntry(group: string, e: AllowEntry, rule: CheckRule) {
    match rule
    case AllowRule(path, g) => path == e.path && g == Some(group)
    case DenyRule(p, scope) => p in e.deny && scope == Some((e.path, group))
  }

  predicate FromGrant(g: Grant, rule: CheckRule) {
    exists e | e in g.allow :: FromEntry(g.group, e, rule)
  }

  /** The rules of the configuration. */
  predicate RuleOf(access: AccessConfig, rule: CheckRule) {
    || (rule.AllowRule? && rule.group == None && rule.path in access.globalAllow)
    || (rule.DenyRule? && rule.scope == None && rule.pattern in access.globalDeny)
    || exists g | g in access.grants :: FromGrant(g, rule)
  }

  method EntryRules(group: string, e: AllowEntry) returns (rules: seq<CheckRule>)
    ensures forall rule :: rule in rules <==> FromEntry(group, e, rule)
  {
    rules := [AllowRule(e.path, Some(group))];
    for i := 0 to |e.deny|
      invariant forall rule :: rule in rules <==> FromEntry(group, AllowEntry(e.path, e.deny[..i]), rule)
    {
      TakeNext(e.deny, i);
      rules := rules + [DenyRule(e.deny[i], Some((e.path, group)))];
    }
    assert e.deny[..|e.deny|] == e.deny;
  }

  method GrantRules(g: Grant) returns (rules: seq<CheckRule>)
    ensures forall rule :: rule in rules <==> FromGrant(g, rule)
  {
    rules := [];
    for i := 0 to |g.allow|
      invariant forall rule :: rule in rules <==> exists e :: e in g.allow[..i] && FromEntry(g.group, e, rule)
    {
      TakeNext(g.allow, i);
      var more := EntryRules(g.group, g.allow[i]);
      rules := rules + more;
    }
    assert g.allow[..|g.allow|] == g.allow;
  }

  /** `check_rules`. */
  method CheckRules(access: AccessConfig) returns (rules: seq<CheckRule>)
    ensures forall rule :: rule in rules <==> RuleOf(access, rule)
  {
    rules := [];
    for i := 0 to |access.globalAllow|
      invariant forall rule :: rule in rules <==> RuleOf(AccessConfig(access.globalAllow[..i], [], []), rule)
    {
      TakeNext(access.globalAllow, i);
      rules := rules + [AllowRule(access.globalAllow[i], None)];
    }
    for i := 0 to |access.globalDeny|
      invariant forall rule ::
        rule in rules <==> RuleOf(AccessConfig(access.globalAllow, access.globalDeny[..i], []), rule)
    {
      TakeNext(access.globalDeny, i);
      rules := rules + [DenyRule(access.globalDeny[i], None)];
    }
    ghost var global := rules;
    assert access.globalAllow[..|access.globalAllow|] == access.globalAllow;
    assert access.globalDeny[..|access.globalDeny|] == access.globalDeny;
    for i := 0 to |access.grants|
      invariant forall rule ::
        rule in rules <==> rule in global || exists g :: g in access.grants[..i] && FromGrant(g, rule)
    {
      TakeNext(access.grants, i);
      var more := GrantRules(access.grants[i]);
      rules := rules + more;
    }
    assert access.grants[..|access.grants|] == access.grants;
  }

  /** Marks the rules that cover or match the path; for the visited directory itself only allows. */
  method Mark(rules: seq<CheckRule>, used: seq<bool>, segments: seq<string>, allowsOnly: bool)
    returns (marked: seq<bool>)
    requires |used| == |rules|
    ensures |marked| == |rules|
    ensures forall i :: 0 <= i < |rules| ==>
              (marked[i] <==> used[i] || (Hit(rules[i], segments) && (allowsOnly ==> rules[i].AllowRule?)))
  {
    marked := used;
    for k := 0 to |rules|
      invariant |marked| == |rules|
      invariant forall i :: 0 <= i < |rules| ==>
                  (marked[i] <==> used[i] || (i < k && Hit(rules[i], segments) && (allowsOnly ==> rules[i].AllowRule?)))
    {
      if Hit(rules[k], segments) && (allowsOnly ==> rules[k].AllowRule?) {
        marked := marked[k := true];
      }
    }
  }

  // ---------- One directory ----------

  function ChildPaths(relative: string, kids: seq<Kid>): seq<string> {
    if kids == [] then [] else [Paths.Child(relative, kids[0].name)] + ChildPaths(relative, kids[1..])
  }

  predicate HitBelow(rule: CheckRule, segments: seq<string>, names: seq<string>) {
    exists name | name in names :: Hit(rule, segments + [name])
  }

  /** What the entry loop has gathered after some of the entries. */
  predicate Gathered(c: Context, relative: string, segments: seq<string>, kids: seq<Kid>,
                     names: seq<string>, blocked: seq<Blocked>, subdirs: seq<string>) {
    && names == Names(kids)
    && blocked == BlockedKids(c, segments, kids)
    && subdirs == ChildPaths(relative, VisibleDirs(c, segments, kids))
  }

  /** The entry loop of one directory. */
  method ScanDirectory(c: Context, relative: string, segments: seq<string>, entries: seq<DirEntry>,
                       rules: seq<CheckRule>, used: seq<bool>)
    returns (names: seq<string>, blocked: seq<Blocked>, subdirs: seq<string>, marked: seq<bool>)
    requires |used| == |rules|
    ensures Gathered(c, relative, segments, NamedKids(entries), names, blocked, subdirs)
    ensures |marked| == |rules|
    ensures MarkedBelow(rules, used, segments, names, marked)
  {
    names, blocked, subdirs, marked := [], [], [], used;
    for i := 0 to |entries|
      invariant |marked| == |rules|
      invariant Gathered(c, relative, segments, NamedKids(entries[..i]), names, blocked, subdirs)
      invariant MarkedBelow(rules, used, segments, names, marked)
    {
      KidsAppend(entries[..i], entries[i]);
      TakeNext(entries, i);
      var text := Decode(entries[i].raw);
      if text == None {
        continue;
      }
      var name := text.value;
      var isDir := entries[i].node.DirNode?;
      GatherAppend(c, relative, segments, NamedKids(entries[..i]), Kid(name, entries[i].node), names, blocked, subdirs);
      var decision := Evaluate(c.access, c.groups, segments + [name]);
      var next := Mark(rules, marked, segments + [name], false);
      MarkedAppend(rules, used, segments, names, marked, name, next);
      marked := next;
      names := names + [name];
      match decision {
        case Visible(_) =>
          if isDir {
            subdirs := subdirs + [Paths.Child(relative, name)];
          }
        case Hidden(denial) =>
          blocked := blocked + [Blocked(name, isDir, denial)];
      }
    }
    assert entries[..|entries|] == entries;
  }

  predicate MarkedBelow(rules: seq<CheckRule>, used: seq<bool>, segments: seq<string>, names: seq<string>,
                        marked: seq<bool>)
    requires |used| == |rules| == |marked|
  {
    forall i :: 0 <= i < |rules| ==> (marked[i] <==> used[i] || HitBelow(rules[i], segments, names))
  }

  lemma MarkedAppend(rules: seq<CheckRule>, used: seq<bool>, segments: seq<string>, names: seq<string>,
                     marked: seq<bool>, name: string, next: seq<bool>)
    requires |used| == |rules| == |marked| == |next|
    requires MarkedBelow(rules, used, segments, names, marked)
    requires forall i :: 0 <= i < |rules| ==> (next[i] <==> marked[i] || Hit(rules[i], segments + [name]))
    ensures MarkedBelow(rules, used, segments, names + [name], next)
  {
  }

  lemma {:induction false} KidsAppend(entries: seq<DirEntry>, e: DirEntry)
    ensures match Decode(e.raw)
            case Some(name) => NamedKids(entries + [e]) == NamedKids(entries) + [Kid(name, e.node)]
            case None => NamedKids(entries + [e]) == NamedKids(entries)
  {
    if entries == [] {
      assert entries + [e] == [e];
    } else {
      KidsAppend(entries[1..], e);
      TailAppend(entries, [e]);
    }
  }

  lemma {:induction false} NamesAppend(kids: seq<Kid>, k: Kid)
    ensures Names(kids + [k]) == Names(kids) + [k.name]
  {
    if kids == [] {
      assert kids + [k] == [k];
    } else {
      NamesAppend(kids[1..], k);
      TailAppend(kids, [k]);
    }
  }

  lemma {:induction false} BlockedAppend(c: Context, segments: seq<string>, kids: seq<Kid>, k: Kid)
    ensures BlockedKids(c, segments, kids + [k]) == BlockedKids(c, segments, kids) + BlockedOne(c, segments, k)
  {
    if kids == [] {
      assert kids + [k] == [k] && [k][1..] == [];
    } else {
      BlockedAppend(c, segments, kids[1..], k);
      TailAppend(kids, [k]);
      Assoc(BlockedOne(c, segments, kids[0]), BlockedKids(c, segments, kids[1..]), BlockedOne(c, segments, k));
    }
  }

  lemma {:induction false} DirsAppend(c: Context, segments: seq<string>, kids: seq<Kid>, k: Kid)
    ensures Enterable(c, segments, k) ==> VisibleDirs(c, segments, kids + [k]) == VisibleDirs(c, segments, kids) + [k]
    ensures !Enterable(c, segments, k) ==> VisibleDirs(c, segments, kids + [k]) == VisibleDirs(c, segments, kids)
  {
    if kids == [] {
      assert kids + [k] == [k];
    } else {
      DirsAppend(c, segments, kids[1..], k);
      TailAppend(kids, [k]);
    }
  }

  lemma {:induction false} PathsAppend(relative: string, kids: seq<Kid>, k: Kid)
    ensures ChildPaths(relative, kids + [k]) == ChildPaths(relative, kids) + [Paths.Child(relative, k.name)]
  {
    if kids == [] {
      assert kids + [k] == [k];
    } else {
      PathsAppend(relative, kids[1..], k);
      TailAppend(kids, [k]);
    }
  }

  lemma GatherAppend(c: Context, relative: string, segments: seq<string>, kids: seq<Kid>, k: Kid,
                     names: seq<string>, blocked: seq<Blocked>, subdirs: seq<string>)
    requires Gathered(c, relative, segments, kids, names, blocked, subdirs)
    ensures var verdict, isDir := Judge(c, segments + [k.name]), k.node.DirNode?;
            Gathered(c, relative, segments, kids + [k], names + [k.name],
                     if verdict.Hidden? then blocked + [Blocked(k.name, isDir, verdict.denial)] else blocked,
                     if verdict.Visible? && isDir then subdirs + [Paths.Child(relative, k.name)] else subdirs)
  {
    NamesAppend(kids, k);
    BlockedAppend(c, segments, kids, k);
    DirsAppend(c, segments, kids, k);
    PathsAppend(relative, VisibleDirs(c, segments, kids), k);
  }

  /** Sorting the paths of the subdirectories sorts the subdirectories by name. */
  lemma {:induction false} SortPaths(relative: string, kids: seq<Kid>)
    ensures Sort(ChildPaths(relative, kids), Itself) == ChildPaths(relative, Sort(kids, KidName))
  {
    if kids != [] {
      SortPaths(relative, kids[1..]);
      assert ChildPaths(relative, kids)[1..] == ChildPaths(relative, kids[1..]);
      InsertPath(relative, kids[0], Sort(kids[1..], KidName));
    }
  }

  function Itself(path: string): string {
    path
  }

  lemma {:induction false} InsertPath(relative: string, k: Kid, kids: seq<Kid>)
    ensures Insert(Paths.Child(relative, k.name), ChildPaths(relative, kids), Itself)
         == ChildPaths(relative, Insert(k, kids, KidName))
  {
    if kids == [] {
      assert [k][1..] == [];
    } else {
      ChildLess(relative, kids[0].name, k.name);
      if NameLess(kids[0].name, k.name) {
        InsertPath(relative, k, kids[1..]);
        assert ChildPaths(relative, kids)[1..] == ChildPaths(relative, kids[1..]);
        var rest := Insert(k, kids[1..], KidName);
        assert ([kids[0]] + rest)[1..] == rest;
      } else {
        assert ([k] + kids)[1..] == kids;
      }
    }
  }

  lemma ChildLess(relative: string, a: string, b: string)
    ensures NameLess(Paths.Child(relative, a), Paths.Child(relative, b)) <==> NameLess(a, b)
  {
    if relative != "" {
      EncodeConcat(relative + "/", a);
      EncodeConcat(relative + "/", b);
      LexPrefix(Encode(relative + "/"), Encode(a), Encode(b));
    }
  }

  /** How one visit changes the flags. */
  predicate MarkedBy(rules: seq<CheckRule>, used: seq<bool>, v: Visit, marked: seq<bool>)
    requires |used| == |rules| == |marked|
  {
    forall i :: 0 <= i < |rules| ==>
      (marked[i] <==>
        || used[i]
        || (rules[i].AllowRule? && Hit(rules[i], v.segments))
        || (v.outcome.Listed? && HitBelow(rules[i], v.segments, v.outcome.children)))
  }

  /** One round of the walk: the account of a directory and the paths to push, in ascending order. */
  method VisitDirectory(c: Context, relative: string, node: Node, rules: seq<CheckRule>, used: seq<bool>)
    returns (v: Visit, subdirs: seq<string>, marked: seq<bool>)
    requires node.DirNode? && |used| == |rules|
    ensures v == VisitOf(c, PathSegments(relative), node)
    ensures subdirs == ChildPaths(relative, Next(c, PathSegments(relative), node))
    ensures |marked| == |rules| && MarkedBy(rules, used, v, marked)
  {
    var segments := PathSegments(relative);
    var decision := Evaluate(c.access, c.groups, segments);
    marked := Mark(rules, used, segments, true);
    subdirs := [];
    if decision.Hidden? {
      return Visit(segments, decision, Skipped), [], marked;
    }
    if !node.readable {
      return Visit(segments, decision, Unreadable), [], marked;
    }
    ghost var before := marked;
    var names, blocked, found, all := ScanDirectory(c, relative, segments, node.entries, rules, marked);
    v := Visit(segments, decision, Listed(names, Sort(blocked, BlockedName)));
    SortPaths(relative, VisibleDirs(c, segments, NamedKids(node.entries)));
    subdirs := Sort(found, Itself);
    marked := all;
    assert MarkedBelow(rules, before, segments, names, marked);
  }

  // ---------- The stack ----------

  datatype Todo = Todo(segments: seq<string>, node: Node)

  predicate AllTodoDirs(todo: seq<Todo>) {
    forall t | t in todo :: t.node.DirNode?
  }

  /** What is left of the report: the top of the stack comes first. */
  ghost function StackPreorder(c: Context, todo: seq<Todo>): seq<Visit>
    requires AllTodoDirs(todo)
  {
    if todo == [] then []
    else
      var top := todo[|todo| - 1];
      Preorder(c, top.segments, top.node) + StackPreorder(c, todo[..|todo| - 1])
  }

  ghost function StackWeight(todo: seq<Todo>): nat {
    if todo == [] then 0 else Size(todo[|todo| - 1].node) + StackWeight(todo[..|todo| - 1])
  }

  ghost function Push(base: seq<Todo>, segments: seq<string>, kids: seq<Kid>): seq<Todo> {
    if kids == [] then base
    else Push(base, segments, kids[1..]) + [Todo(segments + [kids[0].name], kids[0].node)]
  }

  lemma {:induction false} PushPreorder(c: Context, base: seq<Todo>, segments: seq<string>, kids: seq<Kid>)
    requires AllTodoDirs(base) && AllDirs(kids)
    ensures AllTodoDirs(Push(base, segments, kids))
    ensures StackPreorder(c, Push(base, segments, kids)) == PreorderAll(c, segments, kids) + StackPreorder(c, base)
  {
    if kids == [] {
      Whole(StackPreorder(c, base));
    } else {
      assert kids[0] in kids;
      var t := Todo(segments + [kids[0].name], kids[0].node);
      PushPreorder(c, base, segments, kids[1..]);
      StackPush(c, Push(base, segments, kids[1..]), t);
      Assoc(Preorder(c, t.segments, t.node), PreorderAll(c, segments, kids[1..]), StackPreorder(c, base));
    }
  }

  lemma {:induction false} PushWeight(base: seq<Todo>, segments: seq<string>, kids: seq<Kid>)
    ensures StackWeight(Push(base, segments, kids)) == Weight(kids) + StackWeight(base)
  {
    if kids != [] {
      PushWeight(base, segments, kids[1..]);
      StackPushWeight(Push(base, segments, kids[1..]), Todo(segments + [kids[0].name], kids[0].node));
    }
  }

  lemma StackPush(c: Context, base: seq<Todo>, t: Todo)
    requires AllTodoDirs(base) && t.node.DirNode?
    ensures AllTodoDirs(base + [t])
    ensures StackPreorder(c, base + [t]) == Preorder(c, t.segments, t.node) + StackPreorder(c, base)
  {
  }

  lemma StackPushWeight(base: seq<Todo>, t: Todo)
    ensures StackWeight(base + [t]) == Size(t.node) + StackWeight(base)
  {
  }

  /** The path is the root or was evaluated as an entry of a visited directory. */
  ghost predicate Known(visits: seq<Visit>, path: seq<string>) {
    path == []
    || exists v, name :: v in visits && v.outcome.Listed? && name in v.outcome.children && path == v.segments + [name]
  }

  ghost predicate Evaluated(visits: seq<Visit>, path: seq<string>) {
    Visits(visits, path) || (path != [] && Known(visits, path))
  }

  /** The queued path names the node, and it was evaluated before it was queued. */
  ghost predicate Queued(root: Node, visits: seq<Visit>, path: string, t: Todo) {
    && t.segments == PathSegments(path)
    && Lookup(root, t.segments) == Some(t.node)
    && t.node.DirNode? && WellFormed(t.node)
    && Known(visits, t.segments)
  }

  ghost predicate StackOk(root: Node, visits: seq<Visit>, queue: seq<string>, todo: seq<Todo>) {
    |queue| == |todo| && forall i :: 0 <= i < |queue| ==> Queued(root, visits, queue[i], todo[i])
  }

  lemma {:induction false} LookupDown(node: Node, segments: seq<string>, name: string)
    requires Lookup(node, segments).Some? && Lookup(node, segments).value.DirNode?
    ensures Lookup(node, segments + [name]) == Find(Lookup(node, segments).value.entries, Encode(name))
    decreases |segments|
  {
    if segments == [] {
      assert [name][1..] == [];
      assert segments + [name] == [name];
    } else {
      TailAppend(segments, [name]);
      LookupDown(Find(node.entries, Encode(segments[0])).value, segments[1..], name);
    }
  }

  /** A subdirectory that is pushed is queued under its own path. */
  lemma PushedIsQueued(c: Context, root: Node, visits: seq<Visit>, relative: string, t: Todo, k: Kid)
    requires Queued(root, visits, relative, t) && k in Next(c, t.segments, t.node)
    ensures var v := VisitOf(c, t.segments, t.node);
            Queued(root, visits + [v], Paths.Child(relative, k.name), Todo(t.segments + [k.name], k.node))
  {
    var v := VisitOf(c, t.segments, t.node);
    NextKid(c, t.segments, t.node, k);
    FindKid(t.node.entries, k);
    LookupDown(root, t.segments, k.name);
    assert Paths.FileName(Encode(k.name));
    AsciiOccurs(k.name, '/');
    Paths.ChildSegments(relative, k.name);
    NamesMember(NamedKids(t.node.entries), k.name);
    assert v in visits + [v] && k.name in v.outcome.children;
  }

  lemma {:induction false} PushStack(c: Context, root: Node, visits: seq<Visit>, queue: seq<string>, base: seq<Todo>,
                                     relative: string, t: Todo, kids: seq<Kid>)
    requires StackOk(root, visits, queue, base)
    requires forall k | k in kids ::
               Queued(root, visits, Paths.Child(relative, k.name), Todo(t.segments + [k.name], k.node))
    ensures StackOk(root, visits, queue + Reverse(ChildPaths(relative, kids)), Push(base, t.segments, kids))
  {
    if kids == [] {
      assert queue + [] == queue;
    } else {
      PushStack(c, root, visits, queue, base, relative, t, kids[1..]);
      var path, rest := Paths.Child(relative, kids[0].name), Reverse(ChildPaths(relative, kids[1..]));
      assert ChildPaths(relative, kids)[1..] == ChildPaths(relative, kids[1..]);
      assert queue + (rest + [path]) == (queue + rest) + [path];
      assert kids[0] in kids;
    }
  }

  lemma KnownGrows(root: Node, visits: seq<Visit>, v: Visit, queue: seq<string>, todo: seq<Todo>)
    requires StackOk(root, visits, queue, todo)
    ensures StackOk(root, visits + [v], queue, todo)
  {
  }

  // ---------- The walk ----------

  datatype Report = Report(visits: seq<Visit>, unmatched: seq<CheckRule>)

  /** Every deny pattern of the configuration went through validation. */
  ghost predicate ValidDenies(access: AccessConfig) {
    forall rule :: RuleOf(access, rule) && rule.DenyRule? ==> exists raw :: ValidateDenyPattern(raw) == Ok(rule.pattern)
  }

  /** The flags say which rules cover or match an evaluated path. */
  ghost predicate FlagsOk(rules: seq<CheckRule>, used: seq<bool>, visits: seq<Visit>)
    requires |rules| == |used|
  {
    forall i :: 0 <= i < |rules| ==>
      (used[i] <==> exists path :: Evaluated(visits, path) && Hit(rules[i], path))
  }

  lemma EvaluatedAppend(visits: seq<Visit>, v: Visit, path: seq<string>)
    ensures Evaluated(visits + [v], path)
            <==> || Evaluated(visits, path) || v.segments == path
                 || (v.outcome.Listed? && exists name :: name in v.outcome.children && path == v.segments + [name])
  {
  }

  /** A deny rule need not be tried on the visited directory itself: it cannot match the root, and
      any other directory was tried as an entry of its parent. */
  lemma FlagsStep(access: AccessConfig, rules: seq<CheckRule>, used: seq<bool>, visits: seq<Visit>, v: Visit,
                  marked: seq<bool>)
    requires |used| == |rules| == |marked| && ValidDenies(access) && forall rule | rule in rules :: RuleOf(access, rule)
    requires FlagsOk(rules, used, visits) && MarkedBy(rules, used, v, marked) && Known(visits, v.segments)
    ensures FlagsOk(rules, marked, visits + [v])
  {
    var all := visits + [v];
    forall i | 0 <= i < |rules|
      ensures marked[i] <==> exists path :: Evaluated(all, path) && Hit(rules[i], path)
    {
      forall path {
        EvaluatedAppend(visits, v, path);
      }
      assert rules[i] in rules;
      if rules[i].DenyRule? && Hit(rules[i], v.segments) {
        var raw :| ValidateDenyPattern(raw) == Ok(rules[i].pattern);
        ValidatedDeny(raw);
        assert Evaluated(visits, v.segments);
      }
      if v.outcome.Listed? && HitBelow(rules[i], v.segments, v.outcome.children) {
        var name :| name in v.outcome.children && Hit(rules[i], v.segments + [name]);
        assert Evaluated(all, v.segments + [name]);
      }
      if rules[i].AllowRule? && Hit(rules[i], v.segments) {
        assert Evaluated(all, v.segments);
      }
    }
  }

  predicate NoneUnreadable(visits: seq<Visit>) {
    forall v | v in visits :: !v.outcome.Unreadable?
  }

  ghost predicate FirstUnreadable(visits: seq<Visit>, path: seq<string>) {
    exists i ::
      0 <= i < |visits| && visits[i].outcome.Unreadable? && visits[i].segments == path && NoneUnreadable(visits[..i])
  }

  /** The report lists the preorder of a tree in which every visited directory could be read, and
      exactly those rules that cover or match no evaluated path. */
  ghost predicate ReportOk(c: Context, root: Node, report: Report)
    requires root.DirNode?
  {
    && report.visits == Preorder(c, [], root)
    && NoneUnreadable(report.visits)
    && forall rule :: rule in report.unmatched
                      <==> RuleOf(c.access, rule) && !exists path :: Evaluated(report.visits, path) && Hit(rule, path)
  }

  /** What the check comes to: a report, or the directory it could not read. */
  ghost predicate CheckResult(c: Context, root: Node, r: Result<Report, seq<string>>)
    requires root.DirNode?
  {
    (r.Ok? ==> ReportOk(c, root, r.value)) && (r.Err? ==> FirstUnreadable(Preorder(c, [], root), r.error))
  }

  /** A visible directory the check gets to but cannot read. */
  ghost predicate Stuck(c: Context, root: Node, dir: seq<string>) {
    && Reachable(c, [], root, dir) && Judge(c, dir).Visible?
    && Lookup(root, dir).Some? && Lookup(root, dir).value.DirNode? && !Lookup(root, dir).value.readable
  }

  lemma StuckIff(c: Context, root: Node, dir: seq<string>)
    requires root.DirNode? && WellFormed(root)
    ensures Stuck(c, root, dir)
            <==> exists v :: v in Preorder(c, [], root) && v.segments == dir && v.outcome.Unreadable?
  {
    VisitedIff(c, root, dir);
    forall v | v in Preorder(c, [], root) && v.segments == dir
      ensures Lookup(root, dir).Some? && Lookup(root, dir).value.DirNode?
      ensures v == VisitOf(c, dir, Lookup(root, dir).value)
    {
      var rel := VisitFaithful(c, [], root, v);
      assert [] + rel == rel;
    }
  }

  /** The check fails exactly if it gets to a visible directory that it cannot read, and then on the first
      such directory in the order of the report. */
  lemma CheckFailsIff(c: Context, root: Node, r: Result<Report, seq<string>>)
    requires root.DirNode? && WellFormed(root) && CheckResult(c, root, r)
    ensures r.Err? <==> exists dir :: Stuck(c, root, dir)
    ensures r.Err? ==> Stuck(c, root, r.error)
    ensures r.Err? ==> forall dir | Stuck(c, root, dir) && dir != r.error :: PathBefore(r.error, dir)
  {
    if r.Ok? {
      NoneStuck(c, root);
    } else {
      FirstStuck(c, root, r.error);
    }
  }

  lemma NoneStuck(c: Context, root: Node)
    requires root.DirNode? && WellFormed(root) && NoneUnreadable(Preorder(c, [], root))
    ensures forall dir :: !Stuck(c, root, dir)
  {
    forall dir ensures !Stuck(c, root, dir) {
      StuckIff(c, root, dir);
    }
  }

  lemma FirstStuck(c: Context, root: Node, first: seq<string>)
    requires root.DirNode? && WellFormed(root) && FirstUnreadable(Preorder(c, [], root), first)
    ensures Stuck(c, root, first)
    ensures forall dir | Stuck(c, root, dir) && dir != first :: PathBefore(first, dir)
  {
    var visits := Preorder(c, [], root);
    var i :|
      0 <= i < |visits| && visits[i].outcome.Unreadable? && visits[i].segments == first && NoneUnreadable(visits[..i]);
    assert forall k :: 0 <= k < i ==> visits[..i][k] == visits[k];
    VisitsAscend(c, [], root);
    StuckIff(c, root, first);
    forall dir | Stuck(c, root, dir) && dir != first ensures PathBefore(first, dir) {
      StuckIff(c, root, dir);
      var j :| 0 <= j < |visits| && visits[j].segments == dir && visits[j].outcome.Unreadable?;
      assert PathBefore(visits[i].segments, visits[j].segments);
    }
  }

  /** `run_access_check`. It ends on every tree; its visits are the recursive preorder, cut short by
      the first unreadable directory; the rules it reports as matching nothing are exactly those
      that cover or match no evaluated path. */
  method RunAccessCheck(c: Context, root: Node) returns (r: Result<Report, seq<string>>)
    requires root.DirNode? && WellFormed(root) && ValidDenies(c.access)
    ensures CheckResult(c, root, r)
  {
    var rules := CheckRules(c.access);
    var used := seq(|rules|, i => false);
    var visits: seq<Visit> := [];
    var queue := [""];
    ghost var todo := [Todo([], root)];
    WalkStarts(c, root, rules, used);
    while queue != []
      invariant |used| == |rules| && WalkOk(c, root, rules, used, visits, queue, todo)
      decreases StackWeight(todo)
    {
      var n := |queue| - 1;
      var relative := queue[n];
      ghost var t, base := todo[n], todo[..n];
      InitLast(queue);
      InitLast(todo);
      var node := Lookup(root, PathSegments(relative)).value;
      var v, subdirs, marked := VisitDirectory(c, relative, node, rules, used);
      queue := queue[..n];
      if v.outcome.Unreadable? {
        StopsHere(c, root, visits, todo);
        return Err(v.segments);
      }
      WalkStep(c, root, rules, used, visits, queue, base, relative, t, marked);
      visits := visits + [v];
      used := marked;
      queue := queue + Reverse(subdirs);
      todo := Push(base, t.segments, Next(c, t.segments, t.node));
    }
    Whole(visits);
    var unmatched := Unused(rules, used);
    return Ok(Report(visits, unmatched));
  }

  /** The invariant of the walk. */
  ghost predicate WalkOk(c: Context, root: Node, rules: seq<CheckRule>, used: seq<bool>, visits: seq<Visit>,
                         queue: seq<string>, todo: seq<Todo>)
    requires |used| == |rules|
  {
    && FlagsOk(rules, used, visits)
    && StackOk(root, visits, queue, todo)
    && AllTodoDirs(todo) && root.DirNode?
    && Preorder(c, [], root) == visits + StackPreorder(c, todo)
    && NoneUnreadable(visits)
  }

  lemma WalkStarts(c: Context, root: Node, rules: seq<CheckRule>, used: seq<bool>)
    requires root.DirNode? && WellFormed(root)
    requires |used| == |rules| && forall i :: 0 <= i < |used| ==> !used[i]
    ensures WalkOk(c, root, rules, used, [], [""], [Todo([], root)])
  {
  }

  lemma StopsHere(c: Context, root: Node, visits: seq<Visit>, todo: seq<Todo>)
    requires root.DirNode? && AllTodoDirs(todo) && todo != [] && NoneUnreadable(visits)
    requires Preorder(c, [], root) == visits + StackPreorder(c, todo)
    requires var t := todo[|todo| - 1]; t.node.DirNode? && VisitOf(c, t.segments, t.node).outcome.Unreadable?
    ensures FirstUnreadable(Preorder(c, [], root), todo[|todo| - 1].segments)
  {
    var all, t := Preorder(c, [], root), todo[|todo| - 1];
    assert StackPreorder(c, todo)[0] == VisitOf(c, t.segments, t.node);
    assert all[|visits|] == VisitOf(c, t.segments, t.node) && all[..|visits|] == visits;
  }

  /** What a round does: the popped directory is accounted for, its subdirectories take its place,
      and the stack gets lighter. */
  lemma WalkStep(c: Context, root: Node, rules: seq<CheckRule>, used: seq<bool>, visits: seq<Visit>, queue: seq<string>,
                 base: seq<Todo>, relative: string, t: Todo, marked: seq<bool>)
    requires |used| == |rules| == |marked| && t.node.DirNode?
    requires WalkOk(c, root, rules, used, visits, queue + [relative], base + [t])
    requires var v := VisitOf(c, t.segments, t.node); !v.outcome.Unreadable? && MarkedBy(rules, used, v, marked)
    requires ValidDenies(c.access) && forall rule | rule in rules :: RuleOf(c.access, rule)
    ensures var v, kids := VisitOf(c, t.segments, t.node), Next(c, t.segments, t.node);
            var todo := Push(base, t.segments, kids);
            && WalkOk(c, root, rules, marked, visits + [v], queue + Reverse(ChildPaths(relative, kids)), todo)
            && StackWeight(todo) < StackWeight(base + [t])
  {
    var v, kids := VisitOf(c, t.segments, t.node), Next(c, t.segments, t.node);
    PopStack(root, visits, queue, base, relative, t);
    FlagsStep(c.access, rules, used, visits, v, marked);
    KnownGrows(root, visits, v, queue, base);
    PushKids(c, root, visits, queue, base, relative, t);
    PreorderStep(c, visits, base, t);
  }

  lemma PopStack(root: Node, visits: seq<Visit>, queue: seq<string>, base: seq<Todo>, relative: string, t: Todo)
    requires StackOk(root, visits, queue + [relative], base + [t])
    ensures StackOk(root, visits, queue, base) && Queued(root, visits, relative, t)
  {
    var n := |base|;
    assert (queue + [relative])[n] == relative && (base + [t])[n] == t;
    forall i | 0 <= i < n ensures Queued(root, visits, queue[i], base[i]) {
      assert (queue + [relative])[i] == queue[i] && (base + [t])[i] == base[i];
    }
  }

  lemma PushKids(c: Context, root: Node, visits: seq<Visit>, queue: seq<string>, base: seq<Todo>, relative: string,
                 t: Todo)
    requires Queued(root, visits, relative, t)
    requires StackOk(root, visits + [VisitOf(c, t.segments, t.node)], queue, base)
    ensures var v, kids := VisitOf(c, t.segments, t.node), Next(c, t.segments, t.node);
            StackOk(root, visits + [v], queue + Reverse(ChildPaths(relative, kids)), Push(base, t.segments, kids))
  {
    var v, kids := VisitOf(c, t.segments, t.node), Next(c, t.segments, t.node);
    forall k | k in kids
      ensures Queued(root, visits + [v], Paths.Child(relative, k.name), Todo(t.segments + [k.name], k.node))
    {
      PushedIsQueued(c, root, visits, relative, t, k);
    }
    PushStack(c, root, visits + [v], queue, base, relative, t, kids);
  }

  lemma PreorderStep(c: Context, visits: seq<Visit>, base: seq<Todo>, t: Todo)
    requires AllTodoDirs(base + [t]) && t.node.DirNode?
    ensures var v, kids := VisitOf(c, t.segments, t.node), Next(c, t.segments, t.node);
            var todo := Push(base, t.segments, kids);
            && AllTodoDirs(todo)
            && visits + StackPreorder(c, base + [t]) == visits + [v] + StackPreorder(c, todo)
            && StackWeight(todo) < StackWeight(base + [t])
  {
    var v, kids := VisitOf(c, t.segments, t.node), Next(c, t.segments, t.node);
    assert forall b :: b in base ==> b in base + [t];
    StackPush(c, base, t);
    StackPushWeight(base, t);
    NextSmaller(c, t.segments, t.node);
    PushPreorder(c, base, t.segments, kids);
    PushWeight(base, t.segments, kids);
    Regroup(visits, [v], PreorderAll(c, t.segments, kids), StackPreorder(c, base));
    Assoc(visits, [v], PreorderAll(c, t.segments, kids) + StackPreorder(c, base));
    Assoc([v], PreorderAll(c, t.segments, kids), StackPreorder(c, base));
  }

  /** The rules whose flag is still down at the end. */
  method Unused(rules: seq<CheckRule>, used: seq<bool>) returns (unmatched: seq<CheckRule>)
    requires |rules| == |used|
    ensures forall rule :: rule in unmatched <==> exists k :: 0 <= k < |rules| && rules[k] == rule && !used[k]
  {
    unmatched := [];
    for i := 0 to |rules|
      invariant forall rule :: rule in unmatched <==> exists k :: 0 <= k < i && rules[k] == rule && !used[k]
    {
      if !used[i] {
        unmatched := unmatched + [rules[i]];
      }
    }
  }

  /** The entry can be looked up and belongs to a directory the check lists. */
  predicate ListedEntry(c: Context, root: Node, dir: seq<string>, name: string)
  {
    && Reachable(c, [], root, dir) && Judge(c, dir).Visible?
    && Lookup(root, dir).Some? && Lookup(root, dir).value.DirNode? && Lookup(root, dir).value.readable
    && Lookup(root, dir + [name]).Some?
  }

  /** Which paths the check evaluates, said of the tree alone: the root, and the named entries of
      every readable visible directory that is reached. */
  lemma EvaluatedIff(c: Context, root: Node, path: seq<string>)
    requires root.DirNode? && WellFormed(root)
    ensures Evaluated(Preorder(c, [], root), path)
            <==> path == [] || ListedEntry(c, root, path[..|path| - 1], path[|path| - 1])
  {
    if path == [] {
      VisitedIff(c, root, path);
    } else {
      InitLast(path);
      EvaluatedEntry(c, root, path[..|path| - 1], path[|path| - 1]);
    }
  }

  lemma EvaluatedEntry(c: Context, root: Node, dir: seq<string>, name: string)
    requires root.DirNode? && WellFormed(root)
    ensures Evaluated(Preorder(c, [], root), dir + [name]) <==> ListedEntry(c, root, dir, name)
  {
    KnownIff(c, root, dir, name);
    if Visits(Preorder(c, [], root), dir + [name]) {
      VisitedIff(c, root, dir + [name]);
      Whole(dir);
      ReachableParent(c, [], root, dir, name);
    }
  }

  lemma {:induction false} ReachableParent(c: Context, segments: seq<string>, node: Node, rel: seq<string>,
                                           name: string)
    requires Reachable(c, segments, node, rel + [name])
    ensures Reachable(c, segments, node, rel) && Judge(c, segments + rel).Visible?
    ensures Lookup(node, rel).Some? && Lookup(node, rel).value.DirNode? && Lookup(node, rel).value.readable
    ensures Lookup(node, rel + [name]).Some?
    decreases |rel|
  {
    if rel == [] {
      assert segments + rel == segments && rel + [name] == [name] && [name][1..] == [];
    } else {
      TailAppend(rel, [name]);
      Descend(segments, rel[0], rel[1..]);
      assert [rel[0]] + rel[1..] == rel;
      ReachableParent(c, segments + [rel[0]], Find(node.entries, Encode(rel[0])).value, rel[1..], name);
    }
  }

  lemma KnownIff(c: Context, root: Node, dir: seq<string>, name: string)
    requires root.DirNode? && WellFormed(root)
    ensures Known(Preorder(c, [], root), dir + [name]) <==> ListedEntry(c, root, dir, name)
  {
    var visits := Preorder(c, [], root);
    if Reachable(c, [], root, dir) {
      VisitedIff(c, root, dir);
      var v :| v in visits && v.segments == dir;
      KnownAt(c, root, v, name);
    }
    if Known(visits, dir + [name]) {
      KnownIsListed(c, root, dir, name);
    }
  }

  lemma KnownIsListed(c: Context, root: Node, dir: seq<string>, name: string)
    requires root.DirNode? && WellFormed(root) && Known(Preorder(c, [], root), dir + [name])
    ensures ListedEntry(c, root, dir, name)
  {
    var v, last :|
      v in Preorder(c, [], root) && v.outcome.Listed? && last in v.outcome.children
      && dir + [name] == v.segments + [last];
    Snoc(dir, name, v.segments, last);
    KnownAt(c, root, v, name);
  }

  lemma KnownAt(c: Context, root: Node, v: Visit, name: string)
    requires root.DirNode? && WellFormed(root) && v in Preorder(c, [], root)
    ensures Reachable(c, [], root, v.segments)
    ensures Lookup(root, v.segments).Some? && Lookup(root, v.segments).value.DirNode?
    ensures v.outcome.Listed? <==> Judge(c, v.segments).Visible? && Lookup(root, v.segments).value.readable
    ensures v.outcome.Listed? ==> (name in v.outcome.children <==> Lookup(root, v.segments + [name]).Some?)
  {
    var rel := VisitFaithful(c, [], root, v);
    assert [] + rel == rel;
    var node := Lookup(root, rel).value;
    LookupDown(root, rel, name);
    LookupWellFormed(root, rel);
    NamesMember(NamedKids(node.entries), name);
    forall child {
      FindKid(node.entries, Kid(name, child));
    }
    forall k | k in NamedKids(node.entries) {
      FindKid(node.entries, k);
    }
  }

  lemma {:induction false} FindMember(entries: seq<DirEntry>, raw: seq<byte>)
    requires Find(entries, raw).Some?
    ensures DirEntry(raw, Find(entries, raw).value) in entries
  {
    if entries[0].raw != raw {
      FindMember(entries[1..], raw);
    } else {
      assert entries[0] == DirEntry(raw, entries[0].node);
    }
  }

  lemma {:induction false} LookupWellFormed(node: Node, rel: seq<string>)
    requires WellFormed(node) && Lookup(node, rel).Some?
    ensures WellFormed(Lookup(node, rel).value)
    decreases |rel|
  {
    if rel != [] {
      FindMember(node.entries, Encode(rel[0]));
      LookupWellFormed(Find(node.entries, Encode(rel[0])).value, rel[1..]);
    }
  }
}
