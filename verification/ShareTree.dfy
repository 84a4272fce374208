// How the file system answers for a path of pushed components: `.` names the directory it stands in,
// and nothing lies behind a file.

module ShareTree {
  import opened Seqs
  import opened Options
  import opened Utf8
  import opened Percent
  import opened Paths
  import opened AccessCheck

  /** The path without its `.` components. */
  function Resolved(path: seq<seq<byte>>): (r: seq<seq<byte>>)
    ensures |r| <= |path| && [DOT] !in r && (|r| == |path| <==> [DOT] !in path)
    ensures forall b | b in r :: b in path
    ensures [DOT] !in path ==> r == path
  {
    if path == [] then []
    else if path[0] == [DOT] then Resolved(path[1..])
    else [path[0]] + Resolved(path[1..])
  }

  lemma {:induction false} ResolvedConcat(p: seq<seq<byte>>, q: seq<seq<byte>>)
    ensures Resolved(p + q) == Resolved(p) + Resolved(q)
  {
    if p == [] {
      assert p + q == q;
    } else {
      TailAppend(p, q);
      ResolvedConcat(p[1..], q);
    }
  }

  /** What lies at a path in the shared tree. */
  function Walk(node: Node, path: seq<seq<byte>>): Answer
    decreases |path|
  {
    if path == [] then Found(if node.DirNode? then Folder else File)
    else if node.FileNode? then Broken
    else if path[0] == [DOT] then Walk(node, path[1..])
    else
      match Find(node.entries, path[0])
      case None => Missing
      case Some(child) => Walk(child, path[1..])
  }

  function View(root: Node): FileSystem {
    (path: seq<seq<byte>>) => Walk(root, path)
  }

  lemma {:induction false} WalkResolved(node: Node, p: seq<seq<byte>>)
    requires Walk(node, p).Found?
    ensures Walk(node, Resolved(p)) == Walk(node, p)
    decreases |p|
  {
    if p != [] {
      if p[0] == [DOT] {
        WalkResolved(node, p[1..]);
      } else {
        WalkResolved(Find(node.entries, p[0]).value, p[1..]);
      }
    }
  }

  /** A path that ends in `.` names a directory. */
  lemma {:induction false} DotIsFolder(node: Node, p: seq<seq<byte>>)
    requires Walk(node, p + [[DOT]]).Found?
    ensures Walk(node, p + [[DOT]]) == Found(Folder)
    decreases |p|
  {
    if p == [] {
      assert p + [[DOT]] == [[DOT]] && [[DOT]][1..] == [];
    } else {
      TailAppend(p, [[DOT]]);
      DotIsFolder(if p[0] == [DOT] then node else Find(node.entries, p[0]).value, p[1..]);
    }
  }

  lemma {:induction false} BehindFile(node: Node, p: seq<seq<byte>>, s: seq<seq<byte>>)
    requires Walk(node, p) == Found(File) && s != []
    ensures Walk(node, p + s) == Broken
    decreases |p|
  {
    if p == [] {
      assert p + s == s;
    } else {
      TailAppend(p, s);
      BehindFile(if p[0] == [DOT] then node else Find(node.entries, p[0]).value, p[1..], s);
    }
  }

  /** A path of names leads to what is looked up there; it is broken iff a file stands in its way, and
      missing if nothing does and there is no such entry. */
  lemma {:induction false} WalkIsLookup(node: Node, names: seq<string>)
    requires forall s | s in names :: Encode(s) != [DOT]
    ensures var found := Lookup(node, names);
            && (Walk(node, Bytes(names)) == Found(File) <==> found.Some? && found.value.FileNode?)
            && (Walk(node, Bytes(names)) == Found(Folder) <==> found.Some? && found.value.DirNode?)
            && (Walk(node, Bytes(names)).Broken?
                <==> exists k :: 0 <= k < |names| && Lookup(node, names[..k]) == Some(FileNode))
    decreases |names|
  {
    if names == [] {
      assert Bytes(names) == [];
    } else {
      assert Bytes(names)[0] == Encode(names[0]) && Bytes(names)[1..] == Bytes(names[1..]);
      assert names[..0] == [];
      if node.DirNode? && Find(node.entries, Encode(names[0])).Some? {
        WalkIsLookup(Find(node.entries, Encode(names[0])).value, names[1..]);
      }
      forall k | 0 < k <= |names| ensures names[..k][1..] == names[1..][..k - 1] && names[..k][0] == names[0] {
      }
      if k :| 0 <= k < |names[1..]| && node.DirNode? && Find(node.entries, Encode(names[0])).Some?
              && Lookup(Find(node.entries, Encode(names[0])).value, names[1..][..k]) == Some(FileNode) {
        assert names[..k + 1][1..] == names[1..][..k];
        assert Lookup(node, names[..k + 1]) == Some(FileNode);
      }
    }
  }

  // ---------- A tree with one path ----------

  /** Nothing but this path, and at its end an empty directory or a file. */
  function Chain(q: seq<seq<byte>>, leaf: Kind): Node {
    if q == [] then if leaf.Folder? then DirNode(true, []) else FileNode
    else DirNode(true, [DirEntry(q[0], Chain(q[1..], leaf))])
  }

  lemma {:induction false} ChainWellFormed(q: seq<seq<byte>>, leaf: Kind)
    requires forall b | b in q :: FileName(b)
    ensures WellFormed(Chain(q, leaf))
  {
    if q != [] {
      assert q[0] in q && forall b | b in q[1..] :: b in q;
      ChainWellFormed(q[1..], leaf);
    }
  }

  lemma ChainFind(q: seq<seq<byte>>, leaf: Kind, b: seq<byte>)
    requires q != []
    ensures var chain := Chain(q, leaf);
            chain.DirNode? && Find(chain.entries, b) == if b == q[0] then Some(Chain(q[1..], leaf)) else None
  {
    var chain := Chain(q, leaf);
    assert chain.entries[1..] == [];
  }

  predicate EndsInDot(p: seq<seq<byte>>) {
    p != [] && p[|p| - 1] == [DOT]
  }

  lemma {:induction false} ChainHit(q: seq<seq<byte>>, leaf: Kind, p: seq<seq<byte>>)
    requires Resolved(p) == q && (leaf.Folder? || !EndsInDot(p))
    ensures Walk(Chain(q, leaf), p) == Found(leaf)
    decreases |p|
  {
    if p != [] {
      if p[0] == [DOT] {
        if q == [] && leaf.File? {
          DotsOnly(p);
        }
        ChainHit(q, leaf, p[1..]);
      } else {
        ChainFind(q, leaf, p[0]);
        ChainHit(q[1..], leaf, p[1..]);
      }
    }
  }

  lemma {:induction false} DotsOnly(p: seq<seq<byte>>)
    requires p != [] && Resolved(p) == []
    ensures EndsInDot(p)
  {
    if |p| > 1 {
      DotsOnly(p[1..]);
    }
  }

  lemma {:induction false} ChainInner(q: seq<seq<byte>>, leaf: Kind, p: seq<seq<byte>>)
    requires Resolved(p) < q
    ensures Walk(Chain(q, leaf), p) == Found(Folder)
    decreases |p|
  {
    if p != [] {
      if p[0] == [DOT] {
        ChainInner(q, leaf, p[1..]);
      } else {
        ChainFind(q, leaf, p[0]);
        assert Resolved(p)[1..] == Resolved(p[1..]);
        ChainInner(q[1..], leaf, p[1..]);
      }
    }
  }

  lemma {:induction false} ChainMiss(q: seq<seq<byte>>, leaf: Kind, p: seq<seq<byte>>)
    requires [DOT] !in p && !(p <= q) && (leaf.File? ==> !(q <= p))
    ensures Walk(Chain(q, leaf), p) == Missing
    decreases |p|
  {
    if q != [] && p[0] == q[0] {
      ChainFind(q, leaf, p[0]);
      assert p == [p[0]] + p[1..] && q == [q[0]] + q[1..];
      ChainMiss(q[1..], leaf, p[1..]);
    } else if q != [] {
      ChainFind(q, leaf, p[0]);
    }
  }
}
