// Which entries of the shared tree a request can lead to: the handlers open the literal path or, if it
// is missing, the decoded one, and the delete handler does so for the directory and the name separately.

module Reach {
  import opened Seqs
  import opened Options
  import opened Utf8
  import opened Percent
  import opened Access
  import opened Paths
  import opened AccessCheck
  import opened ShareTree
  import opened Requests
  import Text

  type Path = seq<seq<byte>>

  /** The entry a handler turns to, by its true path, if it is of the kind the handler wants. */
  function Target(fs: FileSystem, base: Path, segments: seq<string>, kind: Kind): Option<Path> {
    match Opened(fs, base, segments)
    case None => None
    case Some(path) => if fs(path) == Found(kind) then Some(Resolved(path)) else None
  }

  /** `directory`, `download_inner` and `delete_file` after their checks: a directory is listed, a file
      served; for a deletion the directory is resolved first, then the name inside it. */
  function Reached(root: Node, endpoint: Endpoint, segments: seq<string>): Option<Path> {
    match endpoint
    case Directory => Target(View(root), [], segments, Folder)
    case Download => Target(View(root), [], segments, File)
    case DeleteFile =>
      if segments == [] then None
      else
        var k := |segments| - 1;
        match Target(View(root), [], segments[..k], Folder)
        case None => None
        case Some(directory) => Target(View(root), directory, segments[k..], File)
  }

  function WantedKind(endpoint: Endpoint): Kind {
    if endpoint == Directory then Folder else File
  }

  /** What the name inside a directory leads to: the literal path if the entry is of the wanted kind, and only
      if there is no such path the decoded one. */
  ghost predicate LedTo(root: Node, base: Path, segments: seq<string>, kind: Kind, q: Path) {
    || (Walk(root, base + Bytes(segments)) == Found(kind) && q == Resolved(base + Bytes(segments)))
    || (&& Walk(root, base + Bytes(segments)).Missing? && DecodeParts(segments).Ok?
        && Walk(root, base + DecodeParts(segments).value) == Found(kind)
        && q == Resolved(base + DecodeParts(segments).value))
  }

  /** A literal path goes before a decoded one, and a directory is not served as a file nor a file listed; a
      deletion goes first by the directory, then by the name in it. */
  lemma ReachedIff(root: Node, endpoint: Endpoint, segments: seq<string>, q: Path)
    requires segments != []
    ensures Reached(root, endpoint, segments) == Some(q)
            <==> if endpoint.DeleteFile? then
                   var k := |segments| - 1;
                   exists dir :: LedTo(root, [], segments[..k], Folder, dir) && LedTo(root, dir, segments[k..], File, q)
                 else LedTo(root, [], segments, WantedKind(endpoint), q)
  {
    var k := |segments| - 1;
    LedToIff(root, [], segments, WantedKind(endpoint));
    LedToIff(root, [], segments[..k], Folder);
    if Target(View(root), [], segments[..k], Folder).Some? {
      LedToIff(root, Target(View(root), [], segments[..k], Folder).value, segments[k..], File);
    }
  }

  lemma LedToIff(root: Node, base: Path, segments: seq<string>, kind: Kind)
    ensures forall q :: Target(View(root), base, segments, kind) == Some(q) <==> LedTo(root, base, segments, kind, q)
  {
  }

  function Decoded(segments: seq<string>): Option<Path> {
    match DecodeParts(segments) case Ok(path) => Some(path) case Err(_) => None
  }

  /** The path is reached in some tree, read off the request alone. A file on the way to the literal
      path keeps the decoded one from being tried, and `.` never names a file. */
  predicate CanReach(endpoint: Endpoint, segments: seq<string>, q: Path) {
    || q == Bytes(segments)
    || match endpoint
       case Directory => Decoded(segments).Some? && q == Resolved(Decoded(segments).value)
       case Download =>
         && Decoded(segments).Some? && !EndsInDot(Decoded(segments).value)
         && q == Resolved(Decoded(segments).value) && !(q <= Bytes(segments))
       case DeleteFile => segments != [] && CanRemove(segments[..|segments| - 1], segments[|segments| - 1], q)
  }

  /** The decoded directory with the literal name, or either directory with the decoded name. */
  predicate CanRemove(front: seq<string>, name: string, q: Path) {
    var b, n := Decoded(front), Decoded([name]);
    || (b.Some? && !(q <= Bytes(front)) && q == Resolved(b.value) + [Encode(name)])
    || (n.Some? && !EndsInDot(n.value) && q == Bytes(front) + n.value)
    || (b.Some? && n.Some? && !EndsInDot(n.value) && !(q <= Bytes(front)) && q == Resolved(b.value) + n.value)
  }

  // ---------- Nothing else is reached ----------

  lemma PlainNotDot(segments: seq<string>)
    requires forall s | s in segments :: Plain(s)
    ensures [DOT] !in Bytes(segments) && Resolved(Bytes(segments)) == Bytes(segments)
  {
    forall i | 0 <= i < |segments| ensures Bytes(segments)[i] != [DOT] {
      assert segments[i] in segments;
      DotIsText();
      if Encode(segments[i]) == [DOT] {
        EncodeInjective(segments[i], ".");
      }
    }
  }

  lemma DotIsText()
    ensures Encode(".") == [DOT]
  {
  }

  /** A target is the literal path, or the decoded one where the literal one is missing. */
  lemma TargetForms(root: Node, base: Path, segments: seq<string>, kind: Kind)
    requires [DOT] !in base && (forall s | s in segments :: Plain(s))
    requires Target(View(root), base, segments, kind).Some?
    ensures var q := Target(View(root), base, segments, kind).value;
            && Walk(root, q) == Found(kind)
            && (|| q == base + Bytes(segments)
                || (&& Decoded(segments).Some? && q == base + Resolved(Decoded(segments).value)
                    && Walk(root, base + Bytes(segments)) == Missing
                    && Walk(root, base + Decoded(segments).value) == Found(kind)))
  {
    var path := Opened(View(root), base, segments).value;
    WalkResolved(root, path);
    PlainNotDot(segments);
    ResolvedConcat(base, Bytes(segments));
    if Decoded(segments).Some? {
      ResolvedConcat(base, Decoded(segments).value);
    }
  }

  /** Where the literal path is missing, no file lies on the way to it. */
  lemma NoFileBefore(root: Node, q: Path, p: Path)
    requires Walk(root, q) == Found(File) && Walk(root, p) == Missing
    ensures !(q <= p)
  {
    if q <= p {
      assert p == q + p[|q|..];
      if q != p {
        BehindFile(root, q, p[|q|..]);
      }
    }
  }

  lemma FileNoDot(root: Node, p: Path)
    requires Walk(root, p) == Found(File)
    ensures !EndsInDot(p)
  {
    if EndsInDot(p) {
      InitLast(p);
      DotIsFolder(root, p[..|p| - 1]);
    }
  }

  /** The name is a single component, kept by `Resolved` unless it is `.`. */
  lemma NameDecoded(name: string)
    requires Plain(name)
    ensures Bytes([name]) == [Encode(name)]
    ensures Decoded([name]).Some? ==> Decoded([name]).value == [DecodedPart(name)]
    ensures Decoded([name]).Some? && !EndsInDot(Decoded([name]).value) ==>
              Resolved(Decoded([name]).value) == Decoded([name]).value
  {
    DecodedAt([name]);
    assert "" !in [name];
    if Decoded([name]).Some? {
      assert Decoded([name]).value[0] == DecodedPart(name);
    }
  }

  lemma NameReached(root: Node, dir: Path, name: string)
    requires [DOT] !in dir && Plain(name) && Target(View(root), dir, [name], File).Some?
    ensures var q, n := Target(View(root), dir, [name], File).value, Decoded([name]);
            && Walk(root, q) == Found(File)
            && (q == dir + [Encode(name)] || (n.Some? && !EndsInDot(n.value) && q == dir + n.value))
  {
    TargetForms(root, dir, [name], File);
    NameDecoded(name);
    var q, n := Target(View(root), dir, [name], File).value, Decoded([name]);
    if q != dir + [Encode(name)] {
      FileNoDot(root, dir + n.value);
      assert (dir + n.value)[|dir|] == n.value[0];
    }
  }

  lemma DirectoryReached(root: Node, front: seq<string>)
    requires (forall s | s in front :: Plain(s)) && Target(View(root), [], front, Folder).Some?
    ensures var dir, b := Target(View(root), [], front, Folder).value, Decoded(front);
            && [DOT] !in dir
            && (dir == Bytes(front) || (b.Some? && dir == Resolved(b.value) && Walk(root, Bytes(front)) == Missing))
  {
    TargetForms(root, [], front, Folder);
    PlainNotDot(front);
    Whole(Bytes(front));
    if Decoded(front).Some? {
      Whole(Resolved(Decoded(front).value));
    }
  }

  lemma RemoveSound(root: Node, segments: seq<string>)
    requires (forall s | s in segments :: Plain(s)) && Reached(root, DeleteFile, segments).Some?
    ensures CanReach(DeleteFile, segments, Reached(root, DeleteFile, segments).value)
  {
    var k := |segments| - 1;
    var front, name, q := segments[..k], segments[k], Reached(root, DeleteFile, segments).value;
    assert segments == front + [name] && segments[k..] == [name];
    BytesSnoc(front, name);
    var dir := Target(View(root), [], front, Folder).value;
    DirectoryReached(root, front);
    NameReached(root, dir, name);
    if Walk(root, Bytes(front)) == Missing {
      NoFileBefore(root, q, Bytes(front));
    }
  }

  lemma ReachSound(root: Node, endpoint: Endpoint, segments: seq<string>)
    requires root.DirNode? && (forall s | s in segments :: Plain(s)) && Reached(root, endpoint, segments).Some?
    ensures CanReach(endpoint, segments, Reached(root, endpoint, segments).value)
  {
    if endpoint.DeleteFile? {
      RemoveSound(root, segments);
    } else {
      var q := Reached(root, endpoint, segments).value;
      TargetForms(root, [], segments, if endpoint.Directory? then Folder else File);
      Whole(Bytes(segments));
      if q != Bytes(segments) {
        var d := Decoded(segments).value;
        Whole(d);
        Whole(Resolved(d));
        if endpoint.Download? {
          FileNoDot(root, d);
          NoFileBefore(root, q, Bytes(segments));
        }
      }
    }
  }

  // ---------- All of it is reached ----------

  predicate LegalPath(q: Path) {
    forall b | b in q :: FileName(b)
  }

  lemma LiteralLegal(segments: seq<string>)
    requires forall s | s in segments :: Plain(s)
    ensures LegalPath(Bytes(segments)) && Resolved(Bytes(segments)) == Bytes(segments)
  {
    PlainNotDot(segments);
    forall i | 0 <= i < |segments| ensures FileName(Bytes(segments)[i]) {
      assert segments[i] in segments;
      PlainBytes(segments[i]);
      assert Bytes(segments)[i] in Bytes(segments);
    }
  }

  lemma DecodedLegal(segments: seq<string>)
    requires (forall s | s in segments :: Plain(s)) && Decoded(segments).Some?
    ensures |Decoded(segments).value| == |segments| && LegalPath(Resolved(Decoded(segments).value))
  {
    assert !Plain("");
    DecodedAt(segments);
    var d := Decoded(segments).value;
    forall b | b in Resolved(d) ensures FileName(b) {
      var i :| 0 <= i < |d| && d[i] == b;
      assert segments[i] in segments;
      PartNotEmpty(segments[i]);
    }
  }

  /** The literal path is missing in a tree that holds only the decoded one. */
  lemma DecodedTarget(base: Path, segments: seq<string>, q: Path, leaf: Kind, kind: Kind)
    requires [DOT] !in base && Decoded(segments).Some?
    requires Walk(Chain(q, leaf), base + Bytes(segments)) == Missing
    requires Walk(Chain(q, leaf), base + Decoded(segments).value) == Found(kind)
    ensures Target(View(Chain(q, leaf)), base, segments, kind) == Some(base + Resolved(Decoded(segments).value))
  {
    ResolvedConcat(base, Decoded(segments).value);
  }

  lemma LiteralTarget(base: Path, segments: seq<string>, q: Path, leaf: Kind, kind: Kind)
    requires [DOT] !in base && (forall s | s in segments :: Plain(s))
    requires Walk(Chain(q, leaf), base + Bytes(segments)) == Found(kind)
    ensures Target(View(Chain(q, leaf)), base, segments, kind) == Some(base + Bytes(segments))
  {
    LiteralLegal(segments);
    ResolvedConcat(base, Bytes(segments));
  }

  lemma DecodedComplete(segments: seq<string>, kind: Kind)
    requires (forall s | s in segments :: Plain(s)) && Decoded(segments).Some?
    requires Resolved(Decoded(segments).value) != Bytes(segments)
    requires kind.File? ==>
               !EndsInDot(Decoded(segments).value) && !(Resolved(Decoded(segments).value) <= Bytes(segments))
    ensures var q := Resolved(Decoded(segments).value);
            WellFormed(Chain(q, kind)) && Target(View(Chain(q, kind)), [], segments, kind) == Some(q)
  {
    var d, p := Decoded(segments).value, Bytes(segments);
    var q := Resolved(d);
    DecodedLegal(segments);
    PlainNotDot(segments);
    ChainWellFormed(q, kind);
    Whole(p);
    Whole(d);
    Whole(q);
    LongPrefix(p, q);
    ChainMiss(q, kind, p);
    ChainHit(q, kind, d);
    DecodedTarget([], segments, q, kind, kind);
  }

  lemma WholeComplete(endpoint: Endpoint, segments: seq<string>, q: Path) returns (root: Node)
    requires !endpoint.DeleteFile? && (forall s | s in segments :: Plain(s)) && (segments == [] ==> endpoint.Directory?)
    requires CanReach(endpoint, segments, q)
    ensures root.DirNode? && WellFormed(root) && Reached(root, endpoint, segments) == Some(q)
  {
    var kind := if endpoint.Directory? then Folder else File;
    root := Chain(q, kind);
    if q == Bytes(segments) {
      LiteralLegal(segments);
      Whole(q);
      ChainWellFormed(q, kind);
      ChainHit(q, kind, q);
      LiteralTarget([], segments, q, kind, kind);
    } else {
      DecodedComplete(segments, kind);
    }
  }

  /** A removal in a tree with a single file, once it is known which directory and name are found. */
  lemma RemovedIn(segments: seq<string>, q: Path, dir: Path, target: Path)
    requires segments != []
    requires Target(View(Chain(q, File)), [], segments[..|segments| - 1], Folder) == Some(dir)
    requires Target(View(Chain(q, File)), dir, [segments[|segments| - 1]], File) == Some(target)
    ensures Reached(Chain(q, File), DeleteFile, segments) == Some(target)
  {
    assert segments[|segments| - 1..] == [segments[|segments| - 1]];
  }

  lemma LiteralDirectory(front: seq<string>, q: Path)
    requires (forall s | s in front :: Plain(s)) && Bytes(front) < q
    ensures Target(View(Chain(q, File)), [], front, Folder) == Some(Bytes(front))
  {
    LiteralLegal(front);
    Whole(Bytes(front));
    ChainInner(q, File, Bytes(front));
    LiteralTarget([], front, q, File, Folder);
  }

  lemma DecodedDirectory(front: seq<string>, q: Path)
    requires (forall s | s in front :: Plain(s)) && Decoded(front).Some?
    requires Resolved(Decoded(front).value) < q && !(Bytes(front) <= q) && !(q <= Bytes(front))
    ensures Target(View(Chain(q, File)), [], front, Folder) == Some(Resolved(Decoded(front).value))
  {
    var b := Decoded(front).value;
    PlainNotDot(front);
    Whole(Bytes(front));
    Whole(b);
    Whole(Resolved(b));
    ChainMiss(q, File, Bytes(front));
    ChainInner(q, File, b);
    DecodedTarget([], front, q, File, Folder);
  }

  lemma LiteralName(dir: Path, name: string)
    requires [DOT] !in dir && Plain(name)
    ensures var q := dir + [Encode(name)];
            Target(View(Chain(q, File)), dir, [name], File) == Some(q)
  {
    var q := dir + [Encode(name)];
    NameDecoded(name);
    PlainNotDot([name]);
    assert [DOT] !in q;
    ChainHit(q, File, q);
    LiteralTarget(dir, [name], q, File, File);
  }

  lemma DecodedName(dir: Path, name: string)
    requires [DOT] !in dir && Plain(name) && Decoded([name]).Some? && !EndsInDot(Decoded([name]).value)
    requires Decoded([name]).value != [Encode(name)]
    ensures var q := dir + Decoded([name]).value;
            Target(View(Chain(q, File)), dir, [name], File) == Some(q)
  {
    var n := Decoded([name]).value;
    var q, p := dir + n, dir + [Encode(name)];
    NameDecoded(name);
    PlainNotDot([name]);
    assert n == [n[0]] && [DOT] !in q && [DOT] !in p;
    Snoc(dir, n[0], dir, Encode(name));
    assert !(p <= q) && !(q <= p);
    ChainMiss(q, File, p);
    ChainHit(q, File, q);
    DecodedTarget(dir, [name], q, File, File);
  }

  /** A path one component longer than the literal directory or shorter lies below it only if it
      begins with it. */
  lemma BelowFront(r: Path, x: seq<byte>, front: Path)
    requires |r| <= |front| && front <= r + [x] && !(r + [x] <= front)
    ensures r == front
  {
    assert |r| == |front|;
    assert (r + [x])[..|r|] == r;
  }

  lemma RemoveComplete(segments: seq<string>, q: Path) returns (root: Node)
    requires segments != [] && (forall s | s in segments :: Plain(s)) && CanReach(DeleteFile, segments, q)
    ensures root == Chain(q, File) && Reached(root, DeleteFile, segments) == Some(q)
  {
    var k := |segments| - 1;
    var front, name := segments[..k], segments[k];
    root := Chain(q, File);
    assert segments == front + [name];
    BytesSnoc(front, name);
    PlainNotDot(front);
    NameDecoded(name);
    var literal := Bytes(front);
    if q == literal + [Encode(name)] {
      LiteralDirectory(front, q);
      LiteralName(literal, name);
      RemovedIn(segments, q, literal, q);
    } else if Decoded([name]).Some? && !EndsInDot(Decoded([name]).value) && q == literal + Decoded([name]).value {
      LiteralDirectory(front, q);
      DecodedName(literal, name);
      RemovedIn(segments, q, literal, q);
    } else {
      OtherDirectory(front, name, q);
      RemovedIn(segments, q, Resolved(Decoded(front).value), q);
    }
  }

  lemma OtherDirectory(front: seq<string>, name: string, q: Path)
    requires (forall s | s in front :: Plain(s)) && Plain(name) && CanRemove(front, name, q)
    requires q != Bytes(front) + [Encode(name)]
    requires Decoded([name]).Some? && !EndsInDot(Decoded([name]).value) ==> q != Bytes(front) + Decoded([name]).value
    ensures Decoded(front).Some?
    ensures var dir := Resolved(Decoded(front).value);
            && Target(View(Chain(q, File)), [], front, Folder) == Some(dir)
            && Target(View(Chain(q, File)), dir, [name], File) == Some(q)
  {
    var dir := Resolved(Decoded(front).value);
    NameDecoded(name);
    DecodedLegal(front);
    var x := q[|dir|];
    assert q == dir + [x];
    if Bytes(front) <= q {
      BelowFront(dir, x, Bytes(front));
    }
    DecodedDirectory(front, q);
    if q == dir + [Encode(name)] {
      LiteralName(dir, name);
    } else {
      DecodedName(dir, name);
    }
  }

  lemma ReachLegal(endpoint: Endpoint, segments: seq<string>, q: Path)
    requires (forall s | s in segments :: Plain(s)) && CanReach(endpoint, segments, q)
    ensures LegalPath(q) && |q| <= |segments|
  {
    LiteralLegal(segments);
    if q != Bytes(segments) {
      if endpoint.DeleteFile? {
        RemoveLegal(segments[..|segments| - 1], segments[|segments| - 1], q);
      } else {
        DecodedLegal(segments);
      }
    }
  }

  lemma RemoveLegal(front: seq<string>, name: string, q: Path)
    requires (forall s | s in front :: Plain(s)) && Plain(name) && CanRemove(front, name, q)
    ensures LegalPath(q) && |q| <= |front| + 1
  {
    LiteralLegal(front);
    LiteralLegal([name]);
    NameDecoded(name);
    if Decoded(front).Some? {
      DecodedLegal(front);
    }
    if Decoded([name]).Some? {
      DecodedLegal([name]);
    }
  }

  /** The paths a request can reach are exactly those it reaches in some tree. */
  lemma CanReachIff(endpoint: Endpoint, segments: seq<string>, q: Path)
    requires (forall s | s in segments :: Plain(s)) && (segments == [] ==> endpoint.Directory?)
    ensures CanReach(endpoint, segments, q)
            <==> exists root: Node :: root.DirNode? && WellFormed(root) && Reached(root, endpoint, segments) == Some(q)
  {
    if CanReach(endpoint, segments, q) {
      if endpoint.DeleteFile? {
        var root := RemoveComplete(segments, q);
        ReachLegal(endpoint, segments, q);
        ChainWellFormed(q, File);
      } else {
        var root := WholeComplete(endpoint, segments, q);
      }
    }
    if root: Node :| root.DirNode? && WellFormed(root) && Reached(root, endpoint, segments) == Some(q) {
      ReachSound(root, endpoint, segments);
    }
  }

  // ---------- A deletion stays under its allow ----------

  predicate Unescaped(segments: seq<string>) {
    forall s | s in segments :: Plain(s) && '%' !in s
  }

  lemma UnescapedSegments(path: string)
    requires '%' !in path
    ensures forall s | s in PathSegments(path) :: '%' !in s
  {
    forall s | s in PathSegments(path) ensures '%' !in s {
      if '%' in s {
        assert s in Text.Split(path, '/');
        SplitPart(path, s, '%');
      }
    }
  }

  lemma UnescapedDecodes(name: string)
    requires Plain(name) && '%' !in name
    ensures DecodedPart(name) == Encode(name)
  {
    PlainDecodesToItself(name);
  }

  /** Components without `%` lead the decoded and resolved directory as they lead the literal one. */
  lemma FrontKept(own: seq<string>, front: seq<string>)
    requires own <= front && Unescaped(own) && (forall s | s in front :: Plain(s)) && Decoded(front).Some?
    ensures Bytes(own) <= Resolved(Decoded(front).value)
  {
    var d := Decoded(front).value;
    assert !Plain("");
    DecodedAt(front);
    forall i | 0 <= i < |own| ensures d[i] == Bytes(own)[i] {
      assert own[i] == front[i] && own[i] in own;
      UnescapedDecodes(own[i]);
    }
    assert d == Bytes(own) + d[|own|..];
    ResolvedConcat(Bytes(own), d[|own|..]);
    PlainNotDot(own);
  }

  lemma RemovedUnder(own: seq<string>, front: seq<string>, name: string, q: Path)
    requires own <= front && Unescaped(own) && (forall s | s in front :: Plain(s)) && CanRemove(front, name, q)
    ensures Bytes(own) <= q
  {
    assert Bytes(own) <= Bytes(front);
    if Decoded(front).Some? {
      FrontKept(own, front);
    }
  }

  lemma UnescapedRemoved(front: seq<string>, name: string, q: Path)
    requires Unescaped(front + [name]) && CanRemove(front, name, q)
    ensures q == Bytes(front + [name])
  {
    assert name in front + [name] && forall s | s in front :: s in front + [name];
    UnescapedDecodes(name);
    NameDecoded(name);
    BytesSnoc(front, name);
    if Decoded(front).Some? {
      FrontKept(front, front);
      assert !Plain("");
      DecodedAt(front);
    }
  }

  lemma ReachedUnder(own: seq<string>, segments: seq<string>, q: Path)
    requires own <= segments && Unescaped(own) && (forall s | s in segments :: Plain(s))
    requires CanReach(DeleteFile, segments, q)
    ensures Bytes(own) <= q
  {
    if q == Bytes(segments) {
      assert Bytes(own) <= Bytes(segments);
    } else {
      var front, name := segments[..|segments| - 1], segments[|segments| - 1];
      assert segments == front + [name];
      if own == segments {
        UnescapedRemoved(front, name, q);
      } else {
        assert own <= front;
        RemovedUnder(own, front, name, q);
      }
    }
  }

  /** A deletion that is served is covered by a delete-enabled allow of one of the user's groups, and if
      that has no `%` in its own path, so is every file that the request can lead to. */
  lemma DeletedUnderAllow(c: Context, requested: string, relative: string)
    requires Respond(c, DeleteFile, requested) == Serve(relative)
    ensures exists g, e ::
              && Granted(c, g, e) && PathSegments(e.path) <= PathSegments(relative)
              && ('%' !in e.path ==>
                    forall q | CanReach(DeleteFile, PathSegments(relative), q) :: Bytes(PathSegments(e.path)) <= q)
  {
    ServedIff(c, DeleteFile, requested, relative);
    ValidatedIsCanonical(requested);
    var segments := PathSegments(relative);
    var g, e := CoveringGrant(c, relative);
    var own := PathSegments(e.path);
    if '%' !in e.path {
      UnescapedSegments(e.path);
      assert forall s | s in own :: s in segments;
      forall q | CanReach(DeleteFile, segments, q) ensures Bytes(own) <= q {
        ReachedUnder(own, segments, q);
      }
    }
  }
}
