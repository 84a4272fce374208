// The topological sort of the client generator: a depth-first search that either orders the
// schemas after their dependencies or reports why it cannot.

module SchemaSort {
  import opened Seqs
  import opened Options

  /** A parsed schema. The members of an object stand in the order `Object.values` yields them. */
  datatype Json =
    | Scalar
    | Text(text: string)
    | Items(values: seq<Json>)
    | Object(keys: seq<string>, values: seq<Json>)

  type Schemas = map<string, Json>

  datatype SortError = Cycle(name: string) | BadRef(ref: string)

  // ---------- References ----------

  function Member(keys: seq<string>, values: seq<Json>, key: string): Option<Json> {
    if keys == [] || values == [] then None
    else if keys[0] == key then Some(values[0])
    else Member(keys[1..], values[1..], key)
  }

  /** The node's own `$ref`, if it is an object that has one and it is a string. */
  function OwnRef(node: Json): Option<string> {
    if node.Object? then
      match Member(node.keys, node.values, "$ref")
      case Some(Text(ref)) => Some(ref)
      case _ => None
    else None
  }

  /** An object, whose keys are all different, has a reference iff its member `$ref` is a text. */
  lemma OwnRefIff(node: Json, ref: string)
    requires node.Object? ==> |node.keys| == |node.values| && NoRepeats(node.keys)
    ensures OwnRef(node) == Some(ref)
            <==> node.Object?
                 && exists i :: 0 <= i < |node.keys| && node.keys[i] == "$ref" && node.values[i] == Text(ref)
  {
    if node.Object? {
      forall i | 0 <= i < |node.keys| ensures Member(node.keys, node.values, node.keys[i]) == Some(node.values[i]) {
        MemberAt(node.keys, node.values, i);
      }
      MemberFound(node.keys, node.values, "$ref");
    }
  }

  lemma {:induction false} MemberAt(keys: seq<string>, values: seq<Json>, i: nat)
    requires |keys| == |values| && NoRepeats(keys) && i < |keys|
    ensures Member(keys, values, keys[i]) == Some(values[i])
  {
    if i > 0 {
      assert keys[0] != keys[i] && keys[1..][i - 1] == keys[i];
      MemberAt(keys[1..], values[1..], i - 1);
    }
  }

  lemma {:induction false} MemberFound(keys: seq<string>, values: seq<Json>, key: string)
    requires |keys| == |values|
    ensures Member(keys, values, key).Some? ==> key in keys
  {
    if keys != [] {
      MemberFound(keys[1..], values[1..], key);
    }
  }

  /** The references of a schema in the order they are collected. */
  function RefsOf(node: Json): seq<string>
    decreases node
  {
    if node.Scalar? || node.Text? then []
    else Own(node) + RefsOfAll(node.values)
  }

  function Own(node: Json): seq<string> {
    match OwnRef(node) case Some(ref) => [ref] case None => []
  }

  function RefsOfAll(values: seq<Json>): seq<string>
    decreases values
  {
    if values == [] then [] else RefsOf(values[0]) + RefsOfAll(values[1..])
  }

  class RefList {
    var refs: seq<string>

    constructor ()
      ensures refs == []
    {
      refs := [];
    }
  }

  /** `collectSchemaRefs`, pushing into a shared list. */
  method CollectSchemaRefs(node: Json, list: RefList)
    modifies list
    ensures list.refs == old(list.refs) + RefsOf(node)
    decreases node
  {
    if node.Scalar? || node.Text? {
      return;
    }
    ghost var before := list.refs;
    var own := OwnRef(node);
    if own.Some? {
      list.refs := list.refs + [own.value];
    }
    Whole(before);
    Assoc(before, Own(node), RefsOfAll(node.values));
    CollectAll(node.values, list);
  }

  /** The loop over the children of a node. */
  method CollectAll(values: seq<Json>, list: RefList)
    modifies list
    ensures list.refs == old(list.refs) + RefsOfAll(values)
    decreases values
  {
    ghost var before := list.refs;
    Whole(before);
    for i := 0 to |values|
      invariant list.refs == before + RefsOfAll(values[..i])
    {
      RefsAppend(values, i);
      Assoc(before, RefsOfAll(values[..i]), RefsOf(values[i]));
      CollectSchemaRefs(values[i], list);
    }
    Whole(values);
  }

  lemma {:induction false} RefsAppend(values: seq<Json>, i: nat)
    requires i < |values|
    ensures RefsOfAll(values[..i + 1]) == RefsOfAll(values[..i]) + RefsOf(values[i])
    decreases i
  {
    if i == 0 {
      assert values[..1] == [values[0]];
      assert values[..1][1..] == [];
    } else {
      RefsAppend(values[1..], i - 1);
      assert values[..i + 1][1..] == values[1..][..i] && values[..i][1..] == values[1..][..i - 1];
    }
  }

  /** The node at a path of child positions. */
  function At(node: Json, path: seq<nat>): Option<Json>
    decreases |path|
  {
    if path == [] then Some(node)
    else if node.Scalar? || node.Text? || path[0] >= |node.values| then None
    else At(node.values[path[0]], path[1..])
  }

  ghost predicate Mentions(node: Json, ref: string) {
    exists path :: At(node, path).Some? && OwnRef(At(node, path).value) == Some(ref)
  }

  /** The collected references are exactly the `$ref` strings found anywhere in the schema. */
  lemma {:induction false} RefsExact(node: Json, ref: string)
    ensures ref in RefsOf(node) <==> Mentions(node, ref)
    decreases node
  {
    assert At(node, []) == Some(node);
    if node.Items? || node.Object? {
      RefsOfAllExact(node.values, ref);
      if i :| 0 <= i < |node.values| && Mentions(node.values[i], ref) {
        var path :| At(node.values[i], path).Some? && OwnRef(At(node.values[i], path).value) == Some(ref);
        assert ([i] + path)[1..] == path;
        assert At(node, [i] + path) == At(node.values[i], path);
      }
    }
    if Mentions(node, ref) {
      var path :| At(node, path).Some? && OwnRef(At(node, path).value) == Some(ref);
      if path != [] {
        assert At(node.values[path[0]], path[1..]) == At(node, path);
        assert Mentions(node.values[path[0]], ref);
      }
    }
  }

  lemma {:induction false} RefsOfAllExact(values: seq<Json>, ref: string)
    ensures ref in RefsOfAll(values) <==> exists i :: 0 <= i < |values| && Mentions(values[i], ref)
    decreases values
  {
    if values != [] {
      RefsExact(values[0], ref);
      RefsOfAllExact(values[1..], ref);
      if i :| 0 <= i < |values| && Mentions(values[i], ref) {
        assert i > 0 ==> values[1..][i - 1] == values[i];
      }
    }
  }

  /** Nodes in the order of the source text: a node before what is in it, children from left to right. */
  ghost predicate Before(p: seq<nat>, q: seq<nat>) {
    p < q || exists k :: 0 <= k < |p| && k < |q| && p[..k] == q[..k] && p[k] < q[k]
  }

  /** The paths of all nodes with a reference, in that order, and their references. */
  ghost predicate Listed(node: Json, paths: seq<seq<nat>>, refs: seq<string>) {
    && |paths| == |refs|
    && (forall i :: 0 <= i < |paths| ==> At(node, paths[i]).Some? && OwnRef(At(node, paths[i]).value) == Some(refs[i]))
    && (forall i, j :: 0 <= i < j < |paths| ==> Before(paths[i], paths[j]))
    && forall p :: At(node, p).Some? && OwnRef(At(node, p).value).Some? ==> p in paths
  }

  /** The references are collected from each node that has one, once, in the order of the source text. */
  lemma {:induction false} RefsInOrder(node: Json) returns (paths: seq<seq<nat>>)
    ensures Listed(node, paths, RefsOf(node))
    decreases node, 1
  {
    if node.Scalar? || node.Text? {
      paths := [];
    } else {
      var below := RefsBelow(node, 0);
      Whole(node.values);
      paths := OwnPath(node) + below;
      OwnListed(node, below, RefsOfAll(node.values));
    }
  }

  function OwnPath(node: Json): seq<seq<nat>> {
    if OwnRef(node).Some? then [[]] else []
  }

  lemma OwnListed(node: Json, below: seq<seq<nat>>, refs: seq<string>)
    requires (node.Items? || node.Object?) && ListedFrom(node, 0, below, refs)
    ensures Listed(node, OwnPath(node) + below, Own(node) + refs)
  {
    var own := OwnPath(node);
    assert At(node, []) == Some(node);
    forall i, j | 0 <= i < |own| && 0 <= j < |below| ensures Before(own[i], below[j]) {
      assert own[i] == [] && below[j] != [];
    }
    forall p | At(node, p).Some? && OwnRef(At(node, p).value).Some? ensures p in own + below {
      if p == [] {
        assert p in own;
      }
    }
  }

  /** The paths below a node that begin with child `n` or a later one. */
  ghost predicate ListedFrom(node: Json, n: nat, paths: seq<seq<nat>>, refs: seq<string>) {
    && |paths| == |refs|
    && (forall i :: 0 <= i < |paths| ==>
          && paths[i] != [] && paths[i][0] >= n
          && At(node, paths[i]).Some? && OwnRef(At(node, paths[i]).value) == Some(refs[i]))
    && (forall i, j :: 0 <= i < j < |paths| ==> Before(paths[i], paths[j]))
    && forall p :: p != [] && p[0] >= n && At(node, p).Some? && OwnRef(At(node, p).value).Some? ==> p in paths
  }

  function Under(n: nat, paths: seq<seq<nat>>): (r: seq<seq<nat>>)
    ensures |r| == |paths| && forall i :: 0 <= i < |r| ==> r[i] == [n] + paths[i]
  {
    if paths == [] then [] else [[n] + paths[0]] + Under(n, paths[1..])
  }

  lemma BeforeUnder(n: nat, p: seq<nat>, q: seq<nat>)
    requires Before(p, q)
    ensures Before([n] + p, [n] + q)
  {
    if k :| 0 <= k < |p| && k < |q| && p[..k] == q[..k] && p[k] < q[k] {
      assert ([n] + p)[..k + 1] == [n] + p[..k] && ([n] + q)[..k + 1] == [n] + q[..k];
      assert ([n] + p)[k + 1] == p[k] && ([n] + q)[k + 1] == q[k];
    }
  }

  lemma {:induction false} RefsBelow(node: Json, n: nat) returns (paths: seq<seq<nat>>)
    requires (node.Items? || node.Object?) && n <= |node.values|
    ensures ListedFrom(node, n, paths, RefsOfAll(node.values[n..]))
    decreases node, 0, |node.values| - n
  {
    if n == |node.values| {
      paths := [];
    } else {
      var own := RefsInOrder(node.values[n]);
      var rest := RefsBelow(node, n + 1);
      assert node.values[n..][0] == node.values[n] && node.values[n..][1..] == node.values[n + 1..];
      paths := Under(n, own) + rest;
      ListedJoin(node, n, own, RefsOf(node.values[n]), rest, RefsOfAll(node.values[n + 1..]));
    }
  }

  lemma Deeper(node: Json, n: nat, p: seq<nat>)
    requires (node.Items? || node.Object?) && n < |node.values|
    ensures At(node, [n] + p) == At(node.values[n], p)
  {
    assert ([n] + p)[1..] == p;
  }

  lemma JoinAscends(n: nat, own: seq<seq<nat>>, rest: seq<seq<nat>>)
    requires forall i, j :: 0 <= i < j < |own| ==> Before(own[i], own[j])
    requires forall i, j :: 0 <= i < j < |rest| ==> Before(rest[i], rest[j])
    requires forall i :: 0 <= i < |rest| ==> rest[i] != [] && rest[i][0] >= n + 1
    ensures var all := Under(n, own) + rest; forall i, j :: 0 <= i < j < |all| ==> Before(all[i], all[j])
  {
    var first := Under(n, own);
    forall i, j | 0 <= i < j < |first| ensures Before(first[i], first[j]) {
      BeforeUnder(n, own[i], own[j]);
    }
    forall i, j | 0 <= i < |first| && 0 <= j < |rest| ensures Before(first[i], rest[j]) {
      assert first[i][..0] == rest[j][..0] && first[i][0] < rest[j][0];
    }
  }

  lemma JoinComplete(node: Json, n: nat, own: seq<seq<nat>>, refs: seq<string>, rest: seq<seq<nat>>,
                     more: seq<string>, p: seq<nat>)
    requires (node.Items? || node.Object?) && n < |node.values|
    requires Listed(node.values[n], own, refs) && ListedFrom(node, n + 1, rest, more)
    requires p != [] && p[0] >= n && At(node, p).Some? && OwnRef(At(node, p).value).Some?
    ensures p in Under(n, own) + rest
  {
    if p[0] == n {
      Deeper(node, n, p[1..]);
      assert p == [n] + p[1..] && p[1..] in own;
      var i :| 0 <= i < |own| && own[i] == p[1..];
      assert Under(n, own)[i] == p;
    } else {
      assert p in rest;
    }
  }

  lemma ListedJoin(node: Json, n: nat, own: seq<seq<nat>>, refs: seq<string>, rest: seq<seq<nat>>, more: seq<string>)
    requires (node.Items? || node.Object?) && n < |node.values|
    requires Listed(node.values[n], own, refs) && ListedFrom(node, n + 1, rest, more)
    ensures ListedFrom(node, n, Under(n, own) + rest, refs + more)
  {
    JoinAscends(n, own, rest);
    forall i | 0 <= i < |own| ensures At(node, Under(n, own)[i]) == At(node.values[n], own[i]) {
      Deeper(node, n, own[i]);
    }
    forall p: seq<nat> | p != [] && p[0] >= n && At(node, p).Some? && OwnRef(At(node, p).value).Some?
      ensures p in Under(n, own) + rest
    {
      JoinComplete(node, n, own, refs, rest, more, p);
    }
  }

  const REF_PREFIX := "#/components/schemas/"

  predicate NameChar(c: char) {
    'a' <= c <= 'z' || 'A' <= c <= 'Z' || '0' <= c <= '9' || c == '_' || c == '-'
  }

  /** `refToSchemaName`; None where it throws. */
  function RefToSchemaName(ref: string): Option<string> {
    if REF_PREFIX <= ref && |ref| > |REF_PREFIX| && forall c | c in ref[|REF_PREFIX|..] :: NameChar(c)
    then Some(ref[|REF_PREFIX|..])
    else None
  }

  /** The name in a supported reference: letters, digits, `_` and `-` behind the prefix, at least one. */
  lemma RefNamesIff(ref: string, name: string)
    ensures RefToSchemaName(ref) == Some(name)
            <==> && ref == "#/components/schemas/" + name && name != ""
                 && forall c | c in name ::
                      'a' <= c <= 'z' || 'A' <= c <= 'Z' || '0' <= c <= '9' || c == '_' || c == '-'
  {
    assert REF_PREFIX <= ref ==> ref == REF_PREFIX + ref[|REF_PREFIX|..];
    assert (REF_PREFIX + name)[|REF_PREFIX|..] == name;
  }

  // ---------- The dependency graph ----------

  /** Schema `a` refers to the known schema `b`. */
  predicate DependsOn(schemas: Schemas, a: string, b: string) {
    a in schemas && b in schemas && exists ref | ref in RefsOf(schemas[a]) :: RefToSchemaName(ref) == Some(b)
  }

  predicate RefsSupported(schemas: Schemas, name: string) {
    name in schemas ==> forall ref | ref in RefsOf(schemas[name]) :: RefToSchemaName(ref).Some?
  }

  predicate IsPath(schemas: Schemas, path: seq<string>) {
    path != [] && forall i :: 0 <= i < |path| - 1 ==> DependsOn(schemas, path[i], path[i + 1])
  }

  /** A cycle through the schema; a self-reference is the shortest one. */
  predicate IsCycle(schemas: Schemas, path: seq<string>, name: string) {
    |path| >= 2 && IsPath(schemas, path) && path[0] == name && path[|path| - 1] == name
  }

  ghost predicate OnCycle(schemas: Schemas, name: string) {
    exists path :: IsCycle(schemas, path, name)
  }

  /** The schema itself, or one it depends on, directly or not. */
  ghost predicate Needs(schemas: Schemas, a: string, b: string) {
    exists path :: IsPath(schemas, path) && path[0] == a && path[|path| - 1] == b
  }

  lemma NeedsItself(schemas: Schemas, a: string)
    ensures Needs(schemas, a, a)
  {
    assert IsPath(schemas, [a]);
  }

  lemma NeedsFirst(schemas: Schemas, a: string, b: string, c: string)
    requires DependsOn(schemas, a, b) && Needs(schemas, b, c)
    ensures Needs(schemas, a, c)
  {
    var path :| IsPath(schemas, path) && path[0] == b && path[|path| - 1] == c;
    var longer := [a] + path;
    forall i | 0 <= i < |longer| - 1 ensures DependsOn(schemas, longer[i], longer[i + 1]) {
      if i > 0 {
        assert DependsOn(schemas, path[i - 1], path[i]);
      }
    }
    assert IsPath(schemas, longer) && longer[|longer| - 1] == c;
  }

  ghost predicate NeededBy(schemas: Schemas, roots: seq<string>, n: nat, m: string) {
    exists i :: 0 <= i < n && i < |roots| && Needs(schemas, roots[i], m)
  }

  /** The list follows the order of the roots: before a root stands only what it or an earlier root needs. */
  ghost predicate Follows(schemas: Schemas, roots: seq<string>, list: seq<string>) {
    forall j: nat, p: nat :: InPlace(schemas, roots, list, j, p)
  }

  ghost predicate InPlace(schemas: Schemas, roots: seq<string>, list: seq<string>, j: nat, p: nat) {
    j < |roots| && p < |list| && list[p] == roots[j] ==>
      forall q :: 0 <= q <= p ==> NeededBy(schemas, roots, j + 1, list[q])
  }

  predicate NoRepeats(s: seq<string>) {
    forall i, j :: 0 <= i < j < |s| ==> s[i] != s[j]
  }

  /** Every schema comes after everything it depends on. */
  ghost predicate DependenciesFirst(schemas: Schemas, ordered: seq<string>) {
    forall i, d :: 0 <= i < |ordered| && DependsOn(schemas, ordered[i], d) ==> d in ordered[..i]
  }

  /** An order of all schemas in which dependencies come first rules out every cycle. */
  lemma OrderedIsAcyclic(schemas: Schemas, ordered: seq<string>, name: string)
    requires NoRepeats(ordered) && DependenciesFirst(schemas, ordered) && forall n | n in schemas :: n in ordered
    ensures !OnCycle(schemas, name)
  {
    if path :| IsCycle(schemas, path, name) {
      assert DependsOn(schemas, path[0], path[1]);
      var top := Position(ordered, path[0]);
      PathDescends(schemas, ordered, path, top);
      assert false;
    }
  }

  lemma Position(ordered: seq<string>, name: string) returns (i: nat)
    requires name in ordered
    ensures i < |ordered| && ordered[i] == name
  {
    i :| 0 <= i < |ordered| && ordered[i] == name;
  }

  lemma {:induction false} PathDescends(schemas: Schemas, ordered: seq<string>, path: seq<string>, top: nat)
    requires DependenciesFirst(schemas, ordered) && IsPath(schemas, path)
    requires top < |ordered| && ordered[top] == path[0]
    ensures |path| >= 2 ==> path[|path| - 1] in ordered[..top]
    decreases |path|
  {
    if |path| >= 2 {
      assert DependsOn(schemas, path[0], path[1]);
      var next := Position(ordered[..top], path[1]);
      forall i | 0 <= i < |path[1..]| - 1 ensures DependsOn(schemas, path[1..][i], path[1..][i + 1]) {
        assert DependsOn(schemas, path[i + 1], path[i + 2]);
      }
      PathDescends(schemas, ordered, path[1..], next);
      if |path| > 2 {
        assert ordered[..next] <= ordered[..top];
      }
    }
  }

  lemma DependenciesFirstAppend(schemas: Schemas, ordered: seq<string>, name: string)
    requires DependenciesFirst(schemas, ordered) && forall d :: DependsOn(schemas, name, d) ==> d in ordered
    ensures DependenciesFirst(schemas, ordered + [name])
  {
    var all := ordered + [name];
    forall i, d | 0 <= i < |all| && DependsOn(schemas, all[i], d) ensures d in all[..i] {
      if i < |ordered| {
        assert all[i] == ordered[i] && all[..i] == ordered[..i];
      } else {
        assert all[..i] == ordered;
      }
    }
  }

  // ---------- The sort ----------

  /** An error of the sort is never spurious. */
  ghost predicate Justified(schemas: Schemas, e: SortError) {
    match e
    case Cycle(name) => OnCycle(schemas, name)
    case BadRef(ref) => RefToSchemaName(ref) == None && exists n :: n in schemas && ref in RefsOf(schemas[n])
  }

  /** Each dependency stands behind exactly those that are mentioned before it. */
  ghost predicate ByFirstMention(schemas: Schemas, refs: seq<string>, deps: seq<string>) {
    forall j :: 0 <= j < |deps| ==> Mentioned(schemas, refs, deps, j)
  }

  ghost predicate Mentioned(schemas: Schemas, refs: seq<string>, deps: seq<string>, j: int) {
    exists k :: MentionedAt(schemas, refs, deps, j, k)
  }

  ghost predicate MentionedAt(schemas: Schemas, refs: seq<string>, deps: seq<string>, j: int, k: int) {
    && 0 <= j < |deps| && 0 <= k < |refs| && RefToSchemaName(refs[k]) == Some(deps[j])
    && forall d :: d in deps[..j] <==> d in schemas && Names(refs[..k], d)
  }

  /** The dependencies of a schema, each once, in order of first mention. */
  ghost predicate Dependencies(schemas: Schemas, name: string, deps: seq<string>)
    requires name in schemas
  {
    && NoRepeats(deps) && (forall d :: d in deps <==> DependsOn(schemas, name, d))
    && ByFirstMention(schemas, RefsOf(schemas[name]), deps)
  }

  lemma MentionAppend(schemas: Schemas, refs: seq<string>, deps: seq<string>, i: nat, dep: string)
    requires i < |refs| && RefToSchemaName(refs[i]) == Some(dep) && ByFirstMention(schemas, refs, deps)
    requires forall d :: d in deps <==> d in schemas && Names(refs[..i], d)
    ensures ByFirstMention(schemas, refs, deps + [dep])
  {
    var all := deps + [dep];
    forall j | 0 <= j < |all| ensures Mentioned(schemas, refs, all, j) {
      if j < |deps| {
        assert Mentioned(schemas, refs, deps, j);
        var k :| MentionedAt(schemas, refs, deps, j, k);
        assert all[..j] == deps[..j];
        assert MentionedAt(schemas, refs, all, j, k);
      } else {
        assert all[..j] == deps;
        assert MentionedAt(schemas, refs, all, j, i);
      }
    }
  }

  /** `dependenciesOf`: the known schemas referred to, each once, in order of first mention. */
  method DependenciesOf(schemas: Schemas, name: string) returns (r: Result<seq<string>, SortError>)
    requires name in schemas
    ensures match r
            case Ok(deps) => RefsSupported(schemas, name) && Dependencies(schemas, name, deps)
            case Err(e) => e.BadRef? && Justified(schemas, e)
  {
    var list := new RefList();
    CollectSchemaRefs(schemas[name], list);
    var refs := list.refs;
    assert refs == RefsOf(schemas[name]);
    var deps: seq<string> := [];
    for i := 0 to |refs|
      invariant NoRepeats(deps) && ByFirstMention(schemas, refs, deps)
      invariant forall ref | ref in refs[..i] :: RefToSchemaName(ref).Some?
      invariant forall d :: d in deps <==> d in schemas && Names(refs[..i], d)
    {
      NamesAppend(refs, i);
      var dep := RefToSchemaName(refs[i]);
      if dep == None {
        return Err(BadRef(refs[i]));
      }
      if dep.value in schemas && dep.value !in deps {
        MentionAppend(schemas, refs, deps, i, dep.value);
        deps := deps + [dep.value];
      }
    }
    assert refs[..|refs|] == refs;
    return Ok(deps);
  }

  ghost predicate Names(refs: seq<string>, name: string) {
    exists ref :: ref in refs && RefToSchemaName(ref) == Some(name)
  }

  lemma NamesAppend(refs: seq<string>, i: nat)
    requires i < |refs|
    ensures forall ref :: ref in refs[..i + 1] <==> ref in refs[..i] || ref == refs[i]
    ensures forall d :: Names(refs[..i + 1], d) <==> Names(refs[..i], d) || RefToSchemaName(refs[i]) == Some(d)
  {
  }

  /** What a visit of a schema appends: what its dependencies need and was not there, in their order, then
      the schema itself. */
  ghost predicate Appended(schemas: Schemas, name: string, list: seq<string>)
    requires name in schemas
  {
    && list != [] && list[|list| - 1] == name
    && (forall m {:trigger Needs(schemas, name, m)} | m in list :: Needs(schemas, name, m))
    && exists deps :: Dependencies(schemas, name, deps) && Follows(schemas, deps, list[..|list| - 1])
  }

  /** What the visits of the first `n` roots have added. */
  ghost predicate Grown(schemas: Schemas, roots: seq<string>, n: nat, before: seq<string>, now: seq<string>) {
    && before <= now && Follows(schemas, roots, now[|before|..])
    && (forall m {:trigger NeededBy(schemas, roots, n, m)} | m in now[|before|..] :: NeededBy(schemas, roots, n, m))
    && forall k :: 0 <= k < n && k < |roots| ==> roots[k] in now
  }

  /** What the visit of the next root adds to that. */
  lemma GrowsBy(schemas: Schemas, roots: seq<string>, n: nat, before: seq<string>, so: seq<string>, now: seq<string>)
    requires n < |roots| && roots[n] in schemas && Grown(schemas, roots, n, before, so)
    requires so <= now && NoRepeats(now) && roots[n] in now
    requires now == so || Appended(schemas, roots[n], now[|so|..])
    ensures Grown(schemas, roots, n + 1, before, now)
  {
    var all := now[|before|..];
    assert now == so ==> now[|so|..] == [];
    NeededGrows(schemas, roots, n, before, so, now);
    forall j: nat, p: nat ensures InPlace(schemas, roots, all, j, p) {
      if j < |roots| && p < |all| && all[p] == roots[j] {
        forall q | 0 <= q <= p ensures NeededBy(schemas, roots, j + 1, all[q]) {
          if j < n {
            FollowsGrows(schemas, roots, n, before, so, now, j, p, q);
          } else {
            assert all[q] in all && NeededBy(schemas, roots, n + 1, all[q]);
            var i :| 0 <= i < n + 1 && i < |roots| && Needs(schemas, roots[i], all[q]);
          }
        }
      }
    }
  }

  lemma GrownFrom(schemas: Schemas, roots: seq<string>, list: seq<string>)
    ensures Grown(schemas, roots, 0, list, list)
  {
    assert list[|list|..] == [];
  }

  lemma NeededGrows(schemas: Schemas, roots: seq<string>, n: nat, before: seq<string>, so: seq<string>,
                    now: seq<string>)
    requires n < |roots| && Grown(schemas, roots, n, before, so) && so <= now
    requires forall m {:trigger Needs(schemas, roots[n], m)} | m in now[|so|..] :: Needs(schemas, roots[n], m)
    ensures forall m {:trigger NeededBy(schemas, roots, n + 1, m)} | m in now[|before|..] ::
              NeededBy(schemas, roots, n + 1, m)
  {
    var first, added := so[|before|..], now[|so|..];
    assert now[|before|..] == first + added;
    forall m | m in first + added ensures NeededBy(schemas, roots, n + 1, m) {
      if m in first {
        assert NeededBy(schemas, roots, n, m);
        var i :| 0 <= i < n && i < |roots| && Needs(schemas, roots[i], m);
      } else {
        assert m in added && Needs(schemas, roots[n], m);
      }
    }
  }

  lemma FollowsGrows(schemas: Schemas, roots: seq<string>, n: nat, before: seq<string>, so: seq<string>,
                     now: seq<string>, j: nat, p: nat, q: nat)
    requires Grown(schemas, roots, n, before, so) && so <= now && NoRepeats(now)
    requires j < n && j < |roots| && q <= p < |now[|before|..]| && now[|before|..][p] == roots[j]
    ensures NeededBy(schemas, roots, j + 1, now[|before|..][q])
  {
    var first := so[|before|..];
    var at :| 0 <= at < |so| && so[at] == roots[j];
    assert now[at] == now[|before| + p];
    assert at == |before| + p;
    assert InPlace(schemas, roots, first, j, p);
    assert first[p] == roots[j] && first[q] == now[|before|..][q];
  }

  lemma GrownAll(schemas: Schemas, roots: seq<string>, list: seq<string>)
    requires Grown(schemas, roots, |roots|, [], list)
    ensures Follows(schemas, roots, list) && forall r | r in roots :: r in list
  {
    Whole(list);
  }

  lemma AppendedAtEnd(schemas: Schemas, name: string, deps: seq<string>, before: seq<string>, now: seq<string>)
    requires name in schemas && Dependencies(schemas, name, deps) && Grown(schemas, deps, |deps|, before, now)
    ensures Appended(schemas, name, (now + [name])[|before|..])
  {
    var list := now[|before|..];
    assert (now + [name])[|before|..] == list + [name] && (list + [name])[..|list|] == list;
    NeedsItself(schemas, name);
    forall m | m in list + [name] ensures Needs(schemas, name, m) {
      if m in list {
        assert NeededBy(schemas, deps, |deps|, m);
        var i :| 0 <= i < |deps| && Needs(schemas, deps[i], m);
        assert deps[i] in deps;
        NeedsFirst(schemas, name, deps[i], m);
      }
    }
  }

  class Sorter {
    const schemas: Schemas
    var emitted: set<string>
    var inProgress: set<string>
    var ordered: seq<string>

    constructor (schemas: Schemas)
      ensures this.schemas == schemas && emitted == {} && inProgress == {} && ordered == []
    {
      this.schemas := schemas;
      emitted, inProgress, ordered := {}, {}, [];
    }

    /** `stack` is the chain of visits under way, each schema depending on the next. */
    ghost predicate Valid(stack: seq<string>)
      reads this
    {
      && (forall n :: n in emitted <==> n in ordered)
      && (forall n :: n in inProgress <==> n in stack)
      && emitted !! inProgress
      && emitted <= schemas.Keys && inProgress <= schemas.Keys
      && NoRepeats(ordered) && DependenciesFirst(schemas, ordered)
      && (forall n | n in ordered :: RefsSupported(schemas, n))
      && (stack != [] ==> IsPath(schemas, stack))
    }

    /** The inner function `visit`. */
    method Visit(name: string, ghost stack: seq<string>) returns (e: Option<SortError>)
      requires name in schemas && Valid(stack)
      requires stack != [] ==> DependsOn(schemas, stack[|stack| - 1], name)
      modifies this
      ensures e == None ==> Valid(stack) && inProgress == old(inProgress)
      ensures e == None ==> name in emitted && old(ordered) <= ordered
      ensures e == None ==> if name in old(emitted) then ordered == old(ordered)
                            else Appended(schemas, name, ordered[|old(ordered)|..])
      ensures e.Some? ==> Justified(schemas, e.value)
      decreases schemas.Keys - inProgress, 0
    {
      if name in emitted {
        return None;
      }
      if name in inProgress {
        CycleFound(schemas, stack, name);
        return Some(Cycle(name));
      }
      inProgress := inProgress + {name};
      ghost var deeper := stack + [name];
      assert Valid(deeper);
      var deps := DependenciesOf(schemas, name);
      if deps.Err? {
        return Some(deps.error);
      }
      e := VisitEach(deps.value, deeper);
      if e.Some? {
        return e;
      }
      AppendedAtEnd(schemas, name, deps.value, old(ordered), ordered);
      DependenciesFirstAppend(schemas, ordered, name);
      inProgress := inProgress - {name};
      emitted := emitted + {name};
      ordered := ordered + [name];
      return None;
    }

    /** The loop over the dependencies of a schema, and the one over all schemas. */
    method VisitEach(roots: seq<string>, ghost stack: seq<string>) returns (e: Option<SortError>)
      requires Valid(stack) && forall r | r in roots :: r in schemas
      requires stack != [] ==> forall r | r in roots :: DependsOn(schemas, stack[|stack| - 1], r)
      modifies this
      ensures e == None ==> Valid(stack) && inProgress == old(inProgress)
      ensures e == None ==> Grown(schemas, roots, |roots|, old(ordered), ordered)
      ensures e.Some? ==> Justified(schemas, e.value)
      decreases schemas.Keys - inProgress, 1
    {
      GrownFrom(schemas, roots, ordered);
      for i := 0 to |roots|
        invariant Valid(stack) && inProgress == old(inProgress)
        invariant Grown(schemas, roots, i, old(ordered), ordered)
      {
        assert roots[i] in roots;
        ghost var so := ordered;
        e := Visit(roots[i], stack);
        if e.Some? {
          return e;
        }
        GrowsBy(schemas, roots, i, old(ordered), so, ordered);
      }
      return None;
    }
  }

  lemma CycleFound(schemas: Schemas, stack: seq<string>, name: string)
    requires IsPath(schemas, stack) && name in stack && DependsOn(schemas, stack[|stack| - 1], name)
    ensures OnCycle(schemas, name)
  {
    var i := Position(stack, name);
    assert IsCycle(schemas, stack[i..] + [name], name);
  }

  lemma FailsForCause(schemas: Schemas, e: SortError)
    requires Justified(schemas, e)
    ensures exists n :: n in schemas && (OnCycle(schemas, n) || !RefsSupported(schemas, n))
  {
    if e.Cycle? {
      var path :| IsCycle(schemas, path, e.name);
      assert DependsOn(schemas, path[0], path[1]);
    }
  }

  /** What a finished sort has achieved. */
  ghost predicate Sorted(names: seq<string>, schemas: Schemas, ordered: seq<string>) {
    && NoRepeats(ordered) && DependenciesFirst(schemas, ordered)
    && (forall n :: n in ordered <==> n in schemas) && Follows(schemas, names, ordered)
  }

  ghost predicate Sortable(schemas: Schemas) {
    forall n | n in schemas :: RefsSupported(schemas, n) && !OnCycle(schemas, n)
  }

  lemma SortedIsSortable(schemas: Schemas, ordered: seq<string>)
    requires NoRepeats(ordered) && DependenciesFirst(schemas, ordered)
    requires forall n :: n in ordered <==> n in schemas
    requires forall n | n in ordered :: RefsSupported(schemas, n)
    ensures Sortable(schemas)
  {
    forall n | n in schemas ensures RefsSupported(schemas, n) && !OnCycle(schemas, n) {
      OrderedIsAcyclic(schemas, ordered, n);
    }
  }

  lemma SameMembers(names: seq<string>, schemas: Schemas, ordered: seq<string>)
    requires forall r | r in names :: r in ordered
    requires forall n :: n in names <==> n in schemas
    requires forall n | n in ordered :: n in schemas
    ensures forall n :: n in ordered <==> n in schemas
  {
  }

  /** `topologicallySortSchemas`: it succeeds exactly when every reference is supported and no
      schema lies on a cycle, and then the result is a permutation of the names with dependencies
      first, otherwise in the order of the names; an error names a schema that lies on a cycle or a
      reference that is not supported. */
  method TopologicallySortSchemas(names: seq<string>, schemas: Schemas) returns (r: Result<seq<string>, SortError>)
    requires NoRepeats(names) && forall n :: n in names <==> n in schemas
    ensures r.Ok? <==> Sortable(schemas)
    ensures match r
            case Ok(ordered) => Sorted(names, schemas, ordered)
            case Err(e) => Justified(schemas, e)
  {
    var sorter := new Sorter(schemas);
    var e := sorter.VisitEach(names, []);
    if e.Some? {
      FailsForCause(schemas, e.value);
      return Err(e.value);
    }
    GrownAll(schemas, names, sorter.ordered);
    SameMembers(names, schemas, sorter.ordered);
    SortedIsSortable(schemas, sorter.ordered);
    return Ok(sorter.ordered);
  }
}
