// What the report of the access check says: which directories it visits, in which order, and what
// it lists for each.

module AccessReport {
  import opened Seqs
  import opened Options
  import opened Utf8
  import opened Access
  import opened Sorting
  import opened AccessCheck

  /** The order of the report: a directory before what is below it, siblings by their bytes. */
  predicate PathLess(p: seq<string>, q: seq<string>) {
    q != [] && (p == [] || NameLess(p[0], q[0]) || (p[0] == q[0] && PathLess(p[1..], q[1..])))
  }

  lemma {:induction false} PathLessPrefix(s: seq<string>, p: seq<string>, q: seq<string>)
    ensures PathLess(s + p, s + q) <==> PathLess(p, q)
  {
    if s == [] {
      assert s + p == p && s + q == q;
    } else {
      PathLessPrefix(s[1..], p, q);
      TailAppend(s, p);
      TailAppend(s, q);
      NameTotal(s[0], s[0]);
    }
  }

  /** The order of the report in words: what is below a directory comes after it, and where two paths differ
      first, the bytes of the names decide. */
  ghost predicate PathBefore(p: seq<string>, q: seq<string>) {
    p < q
    || exists k :: 0 <= k < |p| && k < |q| && p[..k] == q[..k] && BytesBefore(Encode(p[k]), Encode(q[k]))
  }

  lemma {:induction false} PathLessIs(p: seq<string>, q: seq<string>)
    requires PathLess(p, q)
    ensures PathBefore(p, q)
  {
    if p != [] {
      if NameLess(p[0], q[0]) {
        LexIff(Encode(p[0]), Encode(q[0]));
        assert p[..0] == q[..0];
      } else {
        PathLessIs(p[1..], q[1..]);
        assert p == [p[0]] + p[1..] && q == [q[0]] + q[1..];
        if k :| 0 <= k < |p[1..]| && k < |q[1..]| && p[1..][..k] == q[1..][..k]
                && BytesBefore(Encode(p[1..][k]), Encode(q[1..][k])) {
          assert p[..k + 1] == [p[0]] + p[1..][..k] && q[..k + 1] == [q[0]] + q[1..][..k];
          assert p[1..][k] == p[k + 1] && q[1..][k] == q[k + 1];
        }
      }
    }
  }

  /** No path comes before itself, so an ascending list of paths has no repetitions. */
  lemma {:induction false} PathLessIrreflexive(p: seq<string>)
    ensures !PathLess(p, p)
  {
    if p != [] {
      NameTotal(p[0], p[0]);
      PathLessIrreflexive(p[1..]);
    }
  }

  predicate PathsAscend(visits: seq<Visit>) {
    forall i, j :: 0 <= i < j < |visits| ==> PathLess(visits[i].segments, visits[j].segments)
  }

  ghost predicate Visits(visits: seq<Visit>, path: seq<string>) {
    exists v :: v in visits && v.segments == path
  }

  /** The directory lies below `node` and every directory from `node` down to it is visible, and
      those above it are readable. `segments` is the path of `node`. */
  predicate Reachable(c: Context, segments: seq<string>, node: Node, rel: seq<string>)
    decreases |rel|
  {
    rel == []
    || (node.DirNode? && Judge(c, segments).Visible? && node.readable
        && match Find(node.entries, Encode(rel[0]))
           case None => false
           case Some(child) =>
             Enterable(c, segments, Kid(rel[0], child)) && Reachable(c, segments + [rel[0]], child, rel[1..]))
  }

  lemma Descend(segments: seq<string>, name: string, below: seq<string>)
    ensures segments + [name] + below == segments + ([name] + below)
    ensures ([name] + below)[1..] == below && segments + [] == segments
  {
  }

  // ---------- Membership ----------

  predicate GoodKids(kids: seq<Kid>) {
    AllDirs(kids) && Ascending(kids, KidName) && forall k | k in kids :: WellFormed(k.node)
  }

  lemma NextKid(c: Context, segments: seq<string>, node: Node, k: Kid)
    requires node.DirNode? && WellFormed(node)
    ensures k in Next(c, segments, node)
            <==> VisitOf(c, segments, node).outcome.Listed? && Find(node.entries, Encode(k.name)) == Some(k.node)
                 && Enterable(c, segments, k)
    ensures k in Next(c, segments, node) ==> WellFormed(k.node)
  {
    var kids := NamedKids(node.entries);
    SortMembers(VisibleDirs(c, segments, kids), KidName, k);
    VisibleDir(c, segments, kids, k);
    FindKid(node.entries, k);
  }

  lemma NextKids(c: Context, segments: seq<string>, node: Node)
    requires node.DirNode? && WellFormed(node)
    ensures GoodKids(Next(c, segments, node)) && Weight(Next(c, segments, node)) < Size(node)
  {
    NextSmaller(c, segments, node);
    var kids := NamedKids(node.entries);
    KidsDistinct(node.entries);
    DirsDistinct(c, segments, kids);
    SortAscending(VisibleDirs(c, segments, kids), KidName);
    forall k | k in Next(c, segments, node) ensures WellFormed(k.node) {
      NextKid(c, segments, node, k);
    }
  }

  lemma {:induction false} DirsDistinct(c: Context, segments: seq<string>, kids: seq<Kid>)
    requires Distinct(kids, KidName)
    ensures Distinct(VisibleDirs(c, segments, kids), KidName)
  {
    if kids != [] {
      DirsDistinct(c, segments, kids[1..]);
      var rest := VisibleDirs(c, segments, kids[1..]);
      forall j | 0 <= j < |rest| ensures rest[j].name != kids[0].name {
        VisibleDir(c, segments, kids[1..], rest[j]);
        var i :| 0 <= i < |kids[1..]| && kids[1..][i] == rest[j];
        assert KidName(kids[0]) != KidName(kids[i + 1]);
      }
    }
  }

  lemma HeadKid(kids: seq<Kid>)
    requires GoodKids(kids) && kids != []
    ensures GoodKids(kids[1..]) && kids[0].node.DirNode? && WellFormed(kids[0].node)
    ensures forall k | k in kids[1..] :: NameLess(kids[0].name, k.name) && k.name != kids[0].name
  {
    assert kids[0] in kids;
    forall k | k in kids[1..] ensures NameLess(kids[0].name, k.name) && k.name != kids[0].name {
      var i :| 0 <= i < |kids[1..]| && kids[1..][i] == k;
      assert NameLess(KidName(kids[0]), KidName(kids[i + 1]));
      NameTotal(k.name, k.name);
    }
  }

  /** Every visit of the preorder is the account of a directory found at its path. */
  lemma {:induction false} VisitFaithful(c: Context, segments: seq<string>, node: Node, v: Visit)
    returns (rel: seq<string>)
    requires node.DirNode? && WellFormed(node) && v in Preorder(c, segments, node)
    ensures v.segments == segments + rel && Reachable(c, segments, node, rel)
    ensures var found := Lookup(node, rel);
            found.Some? && found.value.DirNode? && v == VisitOf(c, v.segments, found.value)
    decreases Size(node), 0
  {
    NextKids(c, segments, node);
    if v == VisitOf(c, segments, node) {
      rel := [];
    } else {
      var k, below := VisitFaithfulAll(c, segments, Next(c, segments, node), v);
      NextKid(c, segments, node, k);
      Descend(segments, k.name, below);
      rel := [k.name] + below;
    }
  }

  lemma {:induction false} VisitFaithfulAll(c: Context, segments: seq<string>, kids: seq<Kid>, v: Visit)
    returns (k: Kid, below: seq<string>)
    requires GoodKids(kids) && v in PreorderAll(c, segments, kids)
    ensures k in kids && v.segments == segments + [k.name] + below && Reachable(c, segments + [k.name], k.node, below)
    ensures var found := Lookup(k.node, below);
            found.Some? && found.value.DirNode? && v == VisitOf(c, v.segments, found.value)
    decreases Weight(kids), 1
  {
    HeadKid(kids);
    if v in Preorder(c, segments + [kids[0].name], kids[0].node) {
      k := kids[0];
      below := VisitFaithful(c, segments + [k.name], k.node, v);
    } else {
      k, below := VisitFaithfulAll(c, segments, kids[1..], v);
    }
  }

  /** The first step to a reachable directory leads into one of the directories visited next. */
  lemma FirstStep(c: Context, segments: seq<string>, node: Node, rel: seq<string>) returns (k: Kid)
    requires node.DirNode? && WellFormed(node) && Reachable(c, segments, node, rel) && rel != []
    ensures k.name == rel[0] && k in Next(c, segments, node) && k.node.DirNode? && WellFormed(k.node)
    ensures Reachable(c, segments + [k.name], k.node, rel[1..])
  {
    k := Kid(rel[0], Find(node.entries, Encode(rel[0])).value);
    NextKid(c, segments, node, k);
  }

  lemma {:induction false} ReachableVisited(c: Context, segments: seq<string>, node: Node, rel: seq<string>)
    requires node.DirNode? && WellFormed(node) && Reachable(c, segments, node, rel)
    ensures Visits(Preorder(c, segments, node), segments + rel)
    decreases |rel|
  {
    if rel == [] {
      VisitedItself(c, segments, node);
      Whole(segments);
    } else {
      var k := FirstStep(c, segments, node, rel);
      var path := segments + [k.name] + rel[1..];
      ReachableVisited(c, segments + [k.name], k.node, rel[1..]);
      VisitedBelow(c, segments, node, k, path);
      SamePath(segments, rel);
    }
  }

  lemma SamePath(segments: seq<string>, rel: seq<string>)
    requires rel != []
    ensures segments + [rel[0]] + rel[1..] == segments + rel
  {
  }

  lemma VisitedItself(c: Context, segments: seq<string>, node: Node)
    requires node.DirNode? && WellFormed(node)
    ensures Visits(Preorder(c, segments, node), segments)
  {
    assert VisitOf(c, segments, node) in Preorder(c, segments, node);
  }

  lemma VisitedBelow(c: Context, segments: seq<string>, node: Node, k: Kid, path: seq<string>)
    requires node.DirNode? && WellFormed(node) && k in Next(c, segments, node) && k.node.DirNode?
    requires Visits(Preorder(c, segments + [k.name], k.node), path)
    ensures Visits(Preorder(c, segments, node), path)
  {
    NextKids(c, segments, node);
    BelowKid(c, segments, Next(c, segments, node), k, path);
  }

  lemma {:induction false} BelowKid(c: Context, segments: seq<string>, kids: seq<Kid>, k: Kid, path: seq<string>)
    requires AllDirs(kids) && k in kids && Visits(Preorder(c, segments + [k.name], k.node), path)
    ensures Visits(PreorderAll(c, segments, kids), path)
  {
    if k != kids[0] {
      BelowKid(c, segments, kids[1..], k, path);
    }
  }

  /** The check visits exactly the root and the directories reachable through visible ones. */
  lemma VisitedIff(c: Context, root: Node, path: seq<string>)
    requires root.DirNode? && WellFormed(root)
    ensures Visits(Preorder(c, [], root), path) <==> Reachable(c, [], root, path)
  {
    assert [] + path == path;
    if Visits(Preorder(c, [], root), path) {
      var v :| v in Preorder(c, [], root) && v.segments == path;
      var rel := VisitFaithful(c, [], root, v);
      assert [] + rel == rel;
    }
    if Reachable(c, [], root, path) {
      ReachableVisited(c, [], root, path);
    }
  }

  // ---------- Order ----------

  /** The visits come in strictly ascending path order, and no two of them share a path. */
  lemma VisitsAscend(c: Context, segments: seq<string>, node: Node)
    requires node.DirNode? && WellFormed(node)
    ensures var visits := Preorder(c, segments, node);
            forall i, j :: 0 <= i < j < |visits| ==>
              && PathBefore(visits[i].segments, visits[j].segments)
              && visits[i].segments != visits[j].segments
  {
    PreorderAscends(c, segments, node);
    var visits := Preorder(c, segments, node);
    forall i, j | 0 <= i < j < |visits|
      ensures PathBefore(visits[i].segments, visits[j].segments) && visits[i].segments != visits[j].segments
    {
      PathLessIs(visits[i].segments, visits[j].segments);
      PathLessIrreflexive(visits[i].segments);
    }
  }

  lemma {:induction false} PreorderAscends(c: Context, segments: seq<string>, node: Node)
    requires node.DirNode? && WellFormed(node)
    ensures PathsAscend(Preorder(c, segments, node))
    decreases Size(node), 0
  {
    NextKids(c, segments, node);
    var kids := Next(c, segments, node);
    var rest := PreorderAll(c, segments, kids);
    VisitsAscendAll(c, segments, kids);
    forall j | 0 <= j < |rest| ensures PathLess(segments, rest[j].segments) {
      var k, below := VisitFaithfulAll(c, segments, kids, rest[j]);
      Descend(segments, k.name, below);
      PathLessPrefix(segments, [], [k.name] + below);
    }
  }

  lemma {:induction false} VisitsAscendAll(c: Context, segments: seq<string>, kids: seq<Kid>)
    requires GoodKids(kids)
    ensures PathsAscend(PreorderAll(c, segments, kids))
    decreases Weight(kids), 1
  {
    if kids != [] {
      HeadKid(kids);
      var k := kids[0];
      var first, rest := Preorder(c, segments + [k.name], k.node), PreorderAll(c, segments, kids[1..]);
      PreorderAscends(c, segments + [k.name], k.node);
      VisitsAscendAll(c, segments, kids[1..]);
      forall i, j | 0 <= i < |first| && 0 <= j < |rest| ensures PathLess(first[i].segments, rest[j].segments) {
        var below := VisitFaithful(c, segments + [k.name], k.node, first[i]);
        var l, under := VisitFaithfulAll(c, segments, kids[1..], rest[j]);
        SiblingsLess(segments, k.name, below, l.name, under);
      }
    }
  }

  lemma SiblingsLess(segments: seq<string>, a: string, below: seq<string>, b: string, under: seq<string>)
    requires NameLess(a, b)
    ensures PathLess(segments + [a] + below, segments + [b] + under)
  {
    Descend(segments, a, below);
    Descend(segments, b, under);
    PathLessPrefix(segments, [a] + below, [b] + under);
  }

  // ---------- What a visit says ----------

  /** A visit gives the verdict on the directory. A hidden directory is not entered; an unreadable one is told
      apart; of any other one the entries that are evaluated are those whose names are text. */
  lemma VisitSays(c: Context, segments: seq<string>, node: Node)
    requires node.DirNode? && WellFormed(node)
    ensures var v := VisitOf(c, segments, node);
            && v.segments == segments && v.decision == Decide(c.access, c.groups, segments)
            && (v.outcome.Skipped? <==> v.decision.Hidden?)
            && (v.outcome.Unreadable? <==> v.decision.Visible? && !node.readable)
            && (v.outcome.Listed? ==>
                  forall name :: name in v.outcome.children <==> Find(node.entries, Encode(name)).Some?)
  {
    var kids := NamedKids(node.entries);
    forall name ensures name in Names(kids) <==> Find(node.entries, Encode(name)).Some? {
      NamesMember(kids, name);
      forall child {
        FindKid(node.entries, Kid(name, child));
      }
      forall k | k in kids {
        FindKid(node.entries, k);
      }
    }
  }

  lemma {:induction false} NamesMember(kids: seq<Kid>, name: string)
    ensures name in Names(kids) <==> exists k :: k in kids && k.name == name
  {
    if kids != [] {
      NamesMember(kids[1..], name);
    }
  }

  // ---------- Blocked entries ----------

  lemma {:induction false} BlockedKid(c: Context, segments: seq<string>, kids: seq<Kid>, b: Blocked)
    ensures b in BlockedKids(c, segments, kids)
            <==> exists k :: k in kids && k.name == b.name && k.node.DirNode? == b.isDir
                             && Judge(c, segments + [b.name]) == Hidden(b.denial)
  {
    if kids != [] {
      BlockedKid(c, segments, kids[1..], b);
    }
  }

  lemma {:induction false} BlockedDistinct(c: Context, segments: seq<string>, kids: seq<Kid>)
    requires Distinct(kids, KidName)
    ensures Distinct(BlockedKids(c, segments, kids), BlockedName)
  {
    if kids != [] {
      BlockedDistinct(c, segments, kids[1..]);
      var rest := BlockedKids(c, segments, kids[1..]);
      forall j | 0 <= j < |rest| ensures rest[j].name != kids[0].name {
        BlockedKid(c, segments, kids[1..], rest[j]);
        var k :| k in kids[1..] && k.name == rest[j].name;
        var i :| 0 <= i < |kids[1..]| && kids[1..][i] == k;
        assert KidName(kids[0]) != KidName(kids[i + 1]);
      }
    }
  }

  /** The blocked entries of a directory are its hidden ones with the verdict that hides them, sorted. */
  lemma BlockedSorted(c: Context, segments: seq<string>, node: Node)
    requires node.DirNode? && WellFormed(node)
    ensures var blocked := Sort(BlockedKids(c, segments, NamedKids(node.entries)), BlockedName);
            && Ascending(blocked, BlockedName)
            && forall b ::
                 b in blocked
                 <==> exists child ::
                        Find(node.entries, Encode(b.name)) == Some(child) && child.DirNode? == b.isDir
                        && Judge(c, segments + [b.name]) == Hidden(b.denial)
  {
    var kids := NamedKids(node.entries);
    KidsDistinct(node.entries);
    BlockedDistinct(c, segments, kids);
    SortAscending(BlockedKids(c, segments, kids), BlockedName);
    forall b
      ensures b in Sort(BlockedKids(c, segments, kids), BlockedName)
              <==> exists child ::
                     Find(node.entries, Encode(b.name)) == Some(child) && child.DirNode? == b.isDir
                     && Judge(c, segments + [b.name]) == Hidden(b.denial)
    {
      SortMembers(BlockedKids(c, segments, kids), BlockedName, b);
      BlockedKid(c, segments, kids, b);
      forall child {
        FindKid(node.entries, Kid(b.name, child));
      }
      forall k | k in kids {
        FindKid(node.entries, k);
      }
    }
  }

  /** For each directory it enters the check lists exactly the hidden entries, with the verdict that
      hides them, in strictly ascending order of their bytes. */
  lemma BlockedExact(c: Context, segments: seq<string>, node: Node)
    requires node.DirNode? && WellFormed(node) && VisitOf(c, segments, node).outcome.Listed?
    ensures var blocked := VisitOf(c, segments, node).outcome.blocked;
            && (forall i, j :: 0 <= i < j < |blocked| ==>
                  BytesBefore(Encode(blocked[i].name), Encode(blocked[j].name)))
            && forall b ::
                 b in blocked
                 <==> exists child ::
                        Find(node.entries, Encode(b.name)) == Some(child) && child.DirNode? == b.isDir
                        && Judge(c, segments + [b.name]) == Hidden(b.denial)
  {
    var blocked := VisitOf(c, segments, node).outcome.blocked;
    BlockedSorted(c, segments, node);
    forall i, j | 0 <= i < j < |blocked| ensures BytesBefore(Encode(blocked[i].name), Encode(blocked[j].name)) {
      assert NameLess(BlockedName(blocked[i]), BlockedName(blocked[j]));
      LexIff(Encode(blocked[i].name), Encode(blocked[j].name));
    }
  }

  // ---------- What the walk misses ----------

  /** The directories from `node` down to `rel`, all but the last, can be read. */
  predicate ReadableAbove(node: Node, rel: seq<string>)
    decreases |rel|
  {
    rel != [] ==>
      && node.DirNode? && node.readable
      && (var child := Find(node.entries, Encode(rel[0])); child.Some? && ReadableAbove(child.value, rel[1..]))
  }

  predicate AllVisible(c: Context, segments: seq<string>, rel: seq<string>) {
    forall k :: 0 <= k <= |rel| ==> Judge(c, segments + rel[..k]).Visible?
  }

  lemma AllVisibleStep(c: Context, segments: seq<string>, rel: seq<string>)
    requires rel != []
    ensures AllVisible(c, segments, rel)
            <==> Judge(c, segments).Visible? && AllVisible(c, segments + [rel[0]], rel[1..])
  {
    var down, rest := segments + [rel[0]], rel[1..];
    assert segments + rel[..0] == segments;
    forall k | 0 <= k <= |rest| ensures segments + rel[..k + 1] == down + rest[..k] {
      assert rel[..k + 1] == [rel[0]] + rest[..k];
      Descend(segments, rel[0], rest[..k]);
    }
    if AllVisible(c, segments, rel) {
      assert Judge(c, segments + rel[..0]).Visible?;
      forall k | 0 <= k <= |rest| ensures Judge(c, down + rest[..k]).Visible? {
        assert Judge(c, segments + rel[..k + 1]).Visible?;
      }
    }
    if Judge(c, segments).Visible? && AllVisible(c, down, rest) {
      forall k | 0 <= k <= |rel| ensures Judge(c, segments + rel[..k]).Visible? {
        if k > 0 {
          assert Judge(c, down + rest[..k - 1]).Visible?;
          assert segments + rel[..(k - 1) + 1] == down + rest[..k - 1];
        }
      }
    }
  }

  lemma {:induction false} ReachableIff(c: Context, segments: seq<string>, node: Node, rel: seq<string>)
    requires ReadableAbove(node, rel) && Lookup(node, rel).Some? && Lookup(node, rel).value.DirNode?
    ensures Reachable(c, segments, node, rel) <==> rel == [] || AllVisible(c, segments, rel)
    decreases |rel|
  {
    if rel != [] {
      var child := Find(node.entries, Encode(rel[0])).value;
      ReachableIff(c, segments + [rel[0]], child, rel[1..]);
      AllVisibleStep(c, segments, rel);
      var down := segments + [rel[0]];
      Whole(down);
      assert rel[1..][..0] == [];
      assert AllVisible(c, down, rel[1..]) ==> Judge(c, down + rel[1..][..0]).Visible?;
      if |rel| == 1 {
        assert Judge(c, down).Visible? ==> AllVisible(c, down, []) by {
          assert down + [][..0] == down;
        }
      }
    }
  }

  /** The check can miss a visible directory: it does exactly when a directory above it is hidden
      for want of an allow, because such a verdict, unlike a deny, is not inherited. */
  lemma MissedIff(c: Context, root: Node, path: seq<string>)
    requires root.DirNode? && WellFormed(root) && path != []
    requires ReadableAbove(root, path) && Lookup(root, path).Some? && Lookup(root, path).value.DirNode?
    requires Judge(c, path).Visible?
    ensures !Visits(Preorder(c, [], root), path)
            <==> exists k :: 0 < k < |path| && Judge(c, path[..k]) == Hidden(NoAllow)
  {
    VisitedIff(c, root, path);
    ReachableIff(c, [], root, path);
    assert path[..|path|] == path;
    forall k | 0 <= k <= |path|
      ensures [] + path[..k] == path[..k]
      ensures Judge(c, path[..k]).Hidden? ==> 0 < k < |path| && Judge(c, path[..k]) == Hidden(NoAllow)
    {
      if Judge(c, path[..k]).Hidden? {
        HiddenAbove(c, path, k);
      }
    }
  }

  /** A directory above a visible one can be hidden for want of an allow only. */
  lemma HiddenAbove(c: Context, path: seq<string>, k: nat)
    requires path != [] && Judge(c, path).Visible? && k <= |path| && Judge(c, path[..k]).Hidden?
    ensures 0 < k < |path| && Judge(c, path[..k]) == Hidden(NoAllow)
  {
    assert path[..k] + path[k..] == path && path[..|path|] == path;
    if k == 0 {
      HiddenRoot(c.access, c.groups, path);
    } else if Judge(c, path[..k]).denial.Denied? {
      DeniedBelow(c.access, c.groups, path[..k], path[k..]);
    }
  }
}
