// The report of the access check does not depend on the order in which `readdir` yields entries.

module AccessOrder {
  import opened Options
  import opened Seqs
  import opened Utf8
  import opened Access
  import opened Sorting
  import opened AccessCheck
  import opened AccessReport
  import opened AccessWalk

  // ---------- A strictly ascending list is determined by its members ----------

  predicate Strict<T>(s: seq<T>, less: (T, T) -> bool) {
    forall i, j :: 0 <= i < j < |s| ==> less(s[i], s[j])
  }

  lemma {:induction false} SameMembersSameList<T(!new)>(a: seq<T>, b: seq<T>, less: (T, T) -> bool)
    requires Strict(a, less) && Strict(b, less)
    requires forall x, y :: !(less(x, y) && less(y, x))
    requires forall x :: x in a <==> x in b
    ensures a == b
  {
    if b != [] {
      assert b[0] in a;
    }
    if a != [] {
      assert a[0] in b;
      var x, y := a[0], b[0];
      assert x in b && y in a;
      var i :| 0 <= i < |b| && b[i] == x;
      var j :| 0 <= j < |a| && a[j] == y;
      assert i > 0 ==> less(y, x);
      assert j > 0 ==> less(x, y);
      assert x == y;
      SameTails(a, b, less);
      SameMembersSameList(a[1..], b[1..], less);
      assert a == [x] + a[1..] && b == [y] + b[1..];
    }
  }

  lemma SameTails<T(!new)>(a: seq<T>, b: seq<T>, less: (T, T) -> bool)
    requires Strict(a, less) && Strict(b, less) && a != [] && b != [] && a[0] == b[0]
    requires forall x, y :: !(less(x, y) && less(y, x))
    requires forall x :: x in a <==> x in b
    ensures forall x :: x in a[1..] <==> x in b[1..]
    ensures Strict(a[1..], less) && Strict(b[1..], less)
  {
    forall x ensures x in a[1..] <==> x in b[1..] {
      HeadIsLeast(a, less, x);
      HeadIsLeast(b, less, x);
    }
  }

  lemma HeadIsLeast<T(!new)>(s: seq<T>, less: (T, T) -> bool, x: T)
    requires Strict(s, less) && s != [] && forall x, y :: !(less(x, y) && less(y, x))
    ensures x in s[1..] <==> x in s && x != s[0]
  {
  }

  // ---------- The same tree, listed differently ----------

  /** Two pictures of one tree: the entries of each directory may stand in any order. */
  predicate SameTree(a: Node, b: Node)
    decreases a
  {
    if a.FileNode? then b.FileNode?
    else b.DirNode? && a.readable == b.readable && Onto(a.entries, b.entries) && From(a.entries, b.entries)
  }

  predicate SameEntry(x: DirEntry, y: DirEntry)
    decreases x
  {
    x.raw == y.raw && SameTree(x.node, y.node)
  }

  predicate Onto(xs: seq<DirEntry>, ys: seq<DirEntry>)
    decreases xs
  {
    forall x | x in xs :: exists y | y in ys :: SameEntry(x, y)
  }

  predicate From(xs: seq<DirEntry>, ys: seq<DirEntry>)
    decreases xs
  {
    forall y | y in ys :: exists x | x in xs :: SameEntry(x, y)
  }

  lemma {:induction false} FindOf(entries: seq<DirEntry>, e: DirEntry)
    requires DistinctRaw(entries) && e in entries
    ensures Find(entries, e.raw) == Some(e.node)
  {
    if entries[0] != e {
      HeadDistinct(entries);
      FindOf(entries[1..], e);
    }
  }

  predicate SameFound(x: Option<Node>, y: Option<Node>) {
    (x.Some? <==> y.Some?) && (x.Some? ==> SameTree(x.value, y.value))
  }

  lemma FoundWellFormed(node: Node, raw: seq<byte>)
    requires node.DirNode? && WellFormed(node)
    ensures Find(node.entries, raw).Some? ==> WellFormed(Find(node.entries, raw).value)
  {
    if Find(node.entries, raw).Some? {
      FindMember(node.entries, raw);
    }
  }

  lemma ChildOfOther(xs: seq<DirEntry>, ys: seq<DirEntry>, raw: seq<byte>)
    requires Onto(xs, ys) && DistinctRaw(ys)
    ensures Find(xs, raw).Some? ==> Find(ys, raw).Some? && SameTree(Find(xs, raw).value, Find(ys, raw).value)
  {
    if Find(xs, raw).Some? {
      FindMember(xs, raw);
      var x := DirEntry(raw, Find(xs, raw).value);
      var y :| y in ys && SameEntry(x, y);
      FindOf(ys, y);
    }
  }

  lemma SameChildren(a: Node, b: Node, raw: seq<byte>)
    requires SameTree(a, b) && a.DirNode? && WellFormed(a) && WellFormed(b)
    ensures SameFound(Find(a.entries, raw), Find(b.entries, raw))
    ensures Find(a.entries, raw).Some? ==>
              WellFormed(Find(a.entries, raw).value) && WellFormed(Find(b.entries, raw).value)
  {
    SameTreeSymmetric(a, b);
    ChildOfOther(a.entries, b.entries, raw);
    ChildOfOther(b.entries, a.entries, raw);
    FoundWellFormed(a, raw);
    FoundWellFormed(b, raw);
  }

  lemma {:induction false} SameLookup(a: Node, b: Node, rel: seq<string>)
    requires SameTree(a, b) && WellFormed(a) && WellFormed(b)
    ensures SameFound(Lookup(a, rel), Lookup(b, rel))
    ensures Lookup(a, rel).Some? ==> WellFormed(Lookup(a, rel).value) && WellFormed(Lookup(b, rel).value)
    decreases |rel|
  {
    if rel != [] && a.DirNode? {
      SameChildren(a, b, Encode(rel[0]));
      if Find(a.entries, Encode(rel[0])).Some? {
        SameLookup(Find(a.entries, Encode(rel[0])).value, Find(b.entries, Encode(rel[0])).value, rel[1..]);
      }
    }
  }

  lemma {:induction false} SameReachable(c: Context, segments: seq<string>, a: Node, b: Node, rel: seq<string>)
    requires SameTree(a, b) && WellFormed(a) && WellFormed(b) && Reachable(c, segments, a, rel)
    ensures Reachable(c, segments, b, rel)
    decreases |rel|
  {
    if rel != [] {
      SameChildren(a, b, Encode(rel[0]));
      var x, y := Find(a.entries, Encode(rel[0])).value, Find(b.entries, Encode(rel[0])).value;
      SameReachable(c, segments + [rel[0]], x, y, rel[1..]);
    }
  }

  lemma {:induction false} SameTreeSymmetric(a: Node, b: Node)
    requires SameTree(a, b)
    ensures SameTree(b, a)
    decreases a
  {
    if a.DirNode? {
      FromIsOnto(a.entries, b.entries);
      OntoIsFrom(a.entries, b.entries);
    }
  }

  lemma {:induction false} FromIsOnto(xs: seq<DirEntry>, ys: seq<DirEntry>)
    requires From(xs, ys)
    ensures Onto(ys, xs)
    decreases xs
  {
    forall y | y in ys ensures exists x | x in xs :: SameEntry(y, x) {
      var x :| x in xs && SameEntry(x, y);
      SameTreeSymmetric(x.node, y.node);
      assert SameEntry(y, x);
    }
  }

  lemma {:induction false} OntoIsFrom(xs: seq<DirEntry>, ys: seq<DirEntry>)
    requires Onto(xs, ys)
    ensures From(ys, xs)
    decreases xs
  {
    forall x | x in xs ensures exists y | y in ys :: SameEntry(y, x) {
      var y :| y in ys && SameEntry(x, y);
      SameTreeSymmetric(x.node, y.node);
      assert SameEntry(y, x);
    }
  }

  // ---------- The printed report ----------

  /** What the report prints of a visit: everything but the order in which entries were read. */
  datatype Printed = Printed(
    segments: seq<string>, decision: Decision, entered: bool, readable: bool, blocked: seq<Blocked>)

  function Print(v: Visit): Printed {
    Printed(v.segments, v.decision, v.outcome.Listed?, !v.outcome.Unreadable?,
            if v.outcome.Listed? then v.outcome.blocked else [])
  }

  function PrintAll(visits: seq<Visit>): (r: seq<Printed>)
    ensures |r| == |visits| && forall i :: 0 <= i < |r| ==> r[i] == Print(visits[i])
  {
    if visits == [] then [] else [Print(visits[0])] + PrintAll(visits[1..])
  }

  predicate BlockedBefore(x: Blocked, y: Blocked) {
    NameLess(x.name, y.name)
  }

  predicate PrintedBefore(x: Printed, y: Printed) {
    PathLess(x.segments, y.segments)
  }

  lemma {:induction false} PathLessAsymmetric(p: seq<string>, q: seq<string>)
    ensures !(PathLess(p, q) && PathLess(q, p))
  {
    if p != [] && q != [] {
      NameTotal(p[0], q[0]);
      PathLessAsymmetric(p[1..], q[1..]);
    }
  }

  /** A directory is reported alike, in whatever order its entries are read. */
  lemma SameVisit(c: Context, segments: seq<string>, a: Node, b: Node)
    requires SameTree(a, b) && a.DirNode? && WellFormed(a) && WellFormed(b)
    ensures Print(VisitOf(c, segments, a)) == Print(VisitOf(c, segments, b))
  {
    var v, w := VisitOf(c, segments, a), VisitOf(c, segments, b);
    if v.outcome.Listed? {
      var x, y := v.outcome.blocked, w.outcome.blocked;
      BlockedSorted(c, segments, a);
      BlockedSorted(c, segments, b);
      forall e: Blocked ensures e in x <==> e in y {
        SameChildren(a, b, Encode(e.name));
      }
      forall e: Blocked, f: Blocked ensures !(BlockedBefore(e, f) && BlockedBefore(f, e)) {
        NameTotal(e.name, f.name);
      }
      forall i, j | 0 <= i < j < |x| ensures BlockedBefore(x[i], x[j]) {
        assert NameLess(BlockedName(x[i]), BlockedName(x[j]));
      }
      forall i, j | 0 <= i < j < |y| ensures BlockedBefore(y[i], y[j]) {
        assert NameLess(BlockedName(y[i]), BlockedName(y[j]));
      }
      SameMembersSameList(x, y, BlockedBefore);
    }
  }

  lemma PrintedOfOther(c: Context, a: Node, b: Node, p: Printed)
    requires SameTree(a, b) && a.DirNode? && WellFormed(a) && WellFormed(b)
    requires p in PrintAll(Preorder(c, [], a))
    ensures p in PrintAll(Preorder(c, [], b))
  {
    var visits, others := Preorder(c, [], a), Preorder(c, [], b);
    var i :| 0 <= i < |visits| && p == Print(visits[i]);
    var rel := VisitFaithful(c, [], a, visits[i]);
    Whole(rel);
    SameReachable(c, [], a, b, rel);
    SameLookup(a, b, rel);
    VisitedIff(c, b, rel);
    var w :| w in others && w.segments == rel;
    var below := VisitFaithful(c, [], b, w);
    Whole(below);
    SameVisit(c, rel, Lookup(a, rel).value, Lookup(b, rel).value);
    var j :| 0 <= j < |others| && others[j] == w;
    assert PrintAll(others)[j] == p;
  }

  lemma SamePrints(c: Context, a: Node, b: Node)
    requires SameTree(a, b) && a.DirNode? && WellFormed(a) && WellFormed(b)
    ensures PrintAll(Preorder(c, [], a)) == PrintAll(Preorder(c, [], b))
  {
    var x, y := PrintAll(Preorder(c, [], a)), PrintAll(Preorder(c, [], b));
    PreorderAscends(c, [], a);
    PreorderAscends(c, [], b);
    SameTreeSymmetric(a, b);
    forall p ensures p in x <==> p in y {
      if p in x {
        PrintedOfOther(c, a, b, p);
      }
      if p in y {
        PrintedOfOther(c, b, a, p);
      }
    }
    forall p, q ensures !(PrintedBefore(p, q) && PrintedBefore(q, p)) {
      PathLessAsymmetric(p.segments, q.segments);
    }
    SameMembersSameList(x, y, PrintedBefore);
  }

  // ---------- The whole result of the check ----------

  lemma ListedInOther(c: Context, a: Node, b: Node, dir: seq<string>, name: string)
    requires SameTree(a, b) && WellFormed(a) && WellFormed(b) && ListedEntry(c, a, dir, name)
    ensures ListedEntry(c, b, dir, name)
  {
    SameReachable(c, [], a, b, dir);
    SameLookup(a, b, dir);
    SameLookup(a, b, dir + [name]);
  }

  lemma SameEvaluated(c: Context, a: Node, b: Node, path: seq<string>)
    requires SameTree(a, b) && a.DirNode? && WellFormed(a) && WellFormed(b)
    ensures Evaluated(Preorder(c, [], a), path) <==> Evaluated(Preorder(c, [], b), path)
  {
    EvaluatedIff(c, a, path);
    EvaluatedIff(c, b, path);
    if path != [] {
      var dir, name := path[..|path| - 1], path[|path| - 1];
      SameTreeSymmetric(a, b);
      if ListedEntry(c, a, dir, name) {
        ListedInOther(c, a, b, dir, name);
      }
      if ListedEntry(c, b, dir, name) {
        ListedInOther(c, b, a, dir, name);
      }
    }
  }

  /** Prints tell which directories could not be read. */
  lemma PrintsTell(xs: seq<Visit>, ys: seq<Visit>, i: nat)
    requires PrintAll(xs) == PrintAll(ys) && i < |xs|
    ensures |xs| == |ys| && xs[i].segments == ys[i].segments
    ensures xs[i].outcome.Unreadable? <==> ys[i].outcome.Unreadable?
  {
    assert Print(xs[i]) == PrintAll(xs)[i] == PrintAll(ys)[i] == Print(ys[i]);
  }

  lemma SameReadable(xs: seq<Visit>, ys: seq<Visit>, n: nat)
    requires PrintAll(xs) == PrintAll(ys) && n <= |xs|
    ensures |xs| == |ys| && (NoneUnreadable(xs[..n]) <==> NoneUnreadable(ys[..n]))
  {
    assert |PrintAll(xs)| == |PrintAll(ys)|;
    forall i | 0 <= i < n ensures xs[..n][i].outcome.Unreadable? <==> ys[..n][i].outcome.Unreadable? {
      PrintsTell(xs, ys, i);
    }
  }

  lemma SameFirstUnreadable(xs: seq<Visit>, ys: seq<Visit>, path: seq<string>)
    requires PrintAll(xs) == PrintAll(ys) && FirstUnreadable(xs, path)
    ensures FirstUnreadable(ys, path)
  {
    var i :| 0 <= i < |xs| && xs[i].outcome.Unreadable? && xs[i].segments == path && NoneUnreadable(xs[..i]);
    PrintsTell(xs, ys, i);
    SameReadable(xs, ys, i);
  }

  lemma OneFirstUnreadable(visits: seq<Visit>, p: seq<string>, q: seq<string>)
    requires FirstUnreadable(visits, p) && FirstUnreadable(visits, q)
    ensures p == q && !NoneUnreadable(visits)
  {
    var i :|
      0 <= i < |visits| && visits[i].outcome.Unreadable? && visits[i].segments == p && NoneUnreadable(visits[..i]);
    var j :|
      0 <= j < |visits| && visits[j].outcome.Unreadable? && visits[j].segments == q && NoneUnreadable(visits[..j]);
    assert visits[i] in visits;
    EarlierReadable(visits, i);
    EarlierReadable(visits, j);
  }

  lemma EarlierReadable(visits: seq<Visit>, n: nat)
    requires n <= |visits| && NoneUnreadable(visits[..n])
    ensures forall k :: 0 <= k < n ==> !visits[k].outcome.Unreadable?
  {
    forall k | 0 <= k < n ensures !visits[k].outcome.Unreadable? {
      assert visits[..n][k] == visits[k];
    }
  }

  /** Whatever order `readdir` yields the entries in, the check has the same result: it fails on the
      same directory, or it prints the same visits and reports the same rules as unmatched. */
  lemma ReportIsStable(c: Context, a: Node, b: Node, ra: Result<Report, seq<string>>, rb: Result<Report, seq<string>>)
    requires SameTree(a, b) && a.DirNode? && WellFormed(a) && WellFormed(b)
    requires CheckResult(c, a, ra) && CheckResult(c, b, rb)
    ensures ra.Ok? <==> rb.Ok?
    ensures ra.Err? ==> ra.error == rb.error
    ensures ra.Ok? ==> PrintAll(ra.value.visits) == PrintAll(rb.value.visits)
    ensures ra.Ok? ==> forall rule :: rule in ra.value.unmatched <==> rule in rb.value.unmatched
  {
    var x, y := Preorder(c, [], a), Preorder(c, [], b);
    SamePrints(c, a, b);
    SameReadable(x, y, |x|);
    Whole(x);
    Whole(y);
    forall path ensures Evaluated(x, path) <==> Evaluated(y, path) {
      SameEvaluated(c, a, b, path);
    }
    if ra.Err? {
      SameFirstUnreadable(x, y, ra.error);
      OneFirstUnreadable(y, ra.error, if rb.Err? then rb.error else ra.error);
    } else if rb.Err? {
      OneFirstUnreadable(y, rb.error, rb.error);
    }
  }
}
