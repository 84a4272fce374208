// The `--check-access` walk. The report follows a recursive preorder of the visible directories;
// the walk itself keeps a stack of paths and one flag per rule.

module AccessCheck {
  import opened Options
  import opened Utf8
  import opened Access
  import opened Sorting
  import Paths

  // ---------- The shared tree ----------

  /** An immutable picture of the shared root; the entries stand in `readdir` order. */
  datatype Node = FileNode | DirNode(readable: bool, entries: seq<DirEntry>)

  datatype DirEntry = DirEntry(raw: seq<byte>, node: Node)

  /** What a file system guarantees: legal entry names, no two entries with one name. */
  predicate WellFormed(node: Node) {
    node.DirNode? ==>
      && DistinctRaw(node.entries)
      && (forall e | e in node.entries :: Paths.FileName(e.raw) && WellFormed(e.node))
  }

  predicate DistinctRaw(entries: seq<DirEntry>) {
    forall i, j :: 0 <= i < j < |entries| ==> entries[i].raw != entries[j].raw
  }

  lemma HeadDistinct(entries: seq<DirEntry>)
    requires DistinctRaw(entries) && entries != []
    ensures DistinctRaw(entries[1..]) && forall e | e in entries[1..] :: e.raw != entries[0].raw
  {
  }

  function Size(node: Node): (n: nat)
    ensures n >= 1
  {
    match node
    case FileNode => 1
    case DirNode(_, entries) => 1 + SizeAll(entries)
  }

  function SizeAll(entries: seq<DirEntry>): nat {
    if entries == [] then 0 else Size(entries[0].node) + SizeAll(entries[1..])
  }

  function Find(entries: seq<DirEntry>, raw: seq<byte>): Option<Node> {
    if entries == [] then None
    else if entries[0].raw == raw then Some(entries[0].node)
    else Find(entries[1..], raw)
  }

  /** What is found at a path below the node. */
  function Lookup(node: Node, segments: seq<string>): Option<Node>
    decreases |segments|
  {
    if segments == [] then Some(node)
    else if node.FileNode? then None
    else
      match Find(node.entries, Encode(segments[0]))
      case None => None
      case Some(child) => Lookup(child, segments[1..])
  }

  /** A directory entry the check can name: its name is UTF-8. */
  datatype Kid = Kid(name: string, node: Node)

  function NamedKids(entries: seq<DirEntry>): seq<Kid> {
    if entries == [] then []
    else
      (match Decode(entries[0].raw) case Some(name) => [Kid(name, entries[0].node)] case None => [])
      + NamedKids(entries[1..])
  }

  function KidName(k: Kid): string {
    k.name
  }

  lemma {:induction false} FindKid(entries: seq<DirEntry>, k: Kid)
    requires DistinctRaw(entries)
    ensures k in NamedKids(entries) <==> Find(entries, Encode(k.name)) == Some(k.node)
    ensures k in NamedKids(entries) ==> DirEntry(Encode(k.name), k.node) in entries
  {
    if entries != [] {
      HeadDistinct(entries);
      FindKid(entries[1..], k);
      DecodeEncode(k.name);
    }
  }

  lemma {:induction false} KidsDistinct(entries: seq<DirEntry>)
    requires DistinctRaw(entries)
    ensures Distinct(NamedKids(entries), KidName)
  {
    if entries != [] {
      HeadDistinct(entries);
      KidsDistinct(entries[1..]);
      var rest := NamedKids(entries[1..]);
      if Decode(entries[0].raw).Some? {
        var name := Decode(entries[0].raw).value;
        forall j | 0 <= j < |rest| ensures rest[j].name != name {
          FindKid(entries[1..], rest[j]);
        }
      }
    }
  }

  // ---------- The report ----------

  datatype Blocked = Blocked(name: string, isDir: bool, denial: Denial)

  /** What the walk finds at one directory: a hidden one is not entered, an unreadable one ends the
      check, in any other one every named entry is evaluated and the hidden ones are listed. */
  datatype Outcome = Skipped | Unreadable | Listed(children: seq<string>, blocked: seq<Blocked>)

  datatype Visit = Visit(segments: seq<string>, decision: Decision, outcome: Outcome)

  function Judge(c: Context, segments: seq<string>): Decision {
    Decide(c.access, c.groups, segments)
  }

  function BlockedOne(c: Context, segments: seq<string>, k: Kid): seq<Blocked> {
    match Judge(c, segments + [k.name])
    case Hidden(denial) => [Blocked(k.name, k.node.DirNode?, denial)]
    case Visible(_) => []
  }

  function BlockedKids(c: Context, segments: seq<string>, kids: seq<Kid>): seq<Blocked> {
    if kids == [] then [] else BlockedOne(c, segments, kids[0]) + BlockedKids(c, segments, kids[1..])
  }

  function BlockedName(b: Blocked): string {
    b.name
  }

  predicate Enterable(c: Context, segments: seq<string>, k: Kid) {
    k.node.DirNode? && Judge(c, segments + [k.name]).Visible?
  }

  function VisibleDirs(c: Context, segments: seq<string>, kids: seq<Kid>): seq<Kid> {
    if kids == [] then []
    else (if Enterable(c, segments, kids[0]) then [kids[0]] else []) + VisibleDirs(c, segments, kids[1..])
  }

  function Names(kids: seq<Kid>): seq<string> {
    if kids == [] then [] else [kids[0].name] + Names(kids[1..])
  }

  function VisitOf(c: Context, segments: seq<string>, node: Node): Visit
    requires node.DirNode?
  {
    var d := Judge(c, segments);
    var kids := NamedKids(node.entries);
    Visit(segments, d,
          if d.Hidden? then Skipped
          else if !node.readable then Unreadable
          else Listed(Names(kids), Sort(BlockedKids(c, segments, kids), BlockedName)))
  }

  /** The subdirectories the walk goes on to, in ascending order of their names. */
  function Next(c: Context, segments: seq<string>, node: Node): seq<Kid>
    requires node.DirNode?
  {
    if VisitOf(c, segments, node).outcome.Listed? then
      Sort(VisibleDirs(c, segments, NamedKids(node.entries)), KidName)
    else []
  }

  function Weight(kids: seq<Kid>): nat {
    if kids == [] then 0 else Size(kids[0].node) + Weight(kids[1..])
  }

  predicate AllDirs(kids: seq<Kid>) {
    forall k | k in kids :: k.node.DirNode?
  }

  /** The report as a recursive preorder: the directory itself, then each visible subdirectory with
      everything below it. */
  function Preorder(c: Context, segments: seq<string>, node: Node): seq<Visit>
    requires node.DirNode?
    decreases Size(node), 0
  {
    NextSmaller(c, segments, node);
    [VisitOf(c, segments, node)] + PreorderAll(c, segments, Next(c, segments, node))
  }

  function PreorderAll(c: Context, segments: seq<string>, kids: seq<Kid>): seq<Visit>
    requires AllDirs(kids)
    decreases Weight(kids), 1
  {
    if kids == [] then []
    else Preorder(c, segments + [kids[0].name], kids[0].node) + PreorderAll(c, segments, kids[1..])
  }

  lemma {:induction false} KidsWeight(entries: seq<DirEntry>)
    ensures Weight(NamedKids(entries)) <= SizeAll(entries)
  {
    if entries != [] {
      KidsWeight(entries[1..]);
      if Decode(entries[0].raw).Some? {
        assert NamedKids(entries)[1..] == NamedKids(entries[1..]);
      } else {
        assert NamedKids(entries) == NamedKids(entries[1..]);
      }
    }
  }

  lemma {:induction false} DirsWeight(c: Context, segments: seq<string>, kids: seq<Kid>)
    ensures Weight(VisibleDirs(c, segments, kids)) <= Weight(kids)
  {
    if kids != [] {
      DirsWeight(c, segments, kids[1..]);
      if Enterable(c, segments, kids[0]) {
        assert VisibleDirs(c, segments, kids)[1..] == VisibleDirs(c, segments, kids[1..]);
      } else {
        assert VisibleDirs(c, segments, kids) == VisibleDirs(c, segments, kids[1..]);
      }
    }
  }

  lemma {:induction false} InsertWeight(k: Kid, kids: seq<Kid>)
    ensures Weight(Insert(k, kids, KidName)) == Size(k.node) + Weight(kids)
  {
    if kids != [] && NameLess(kids[0].name, k.name) {
      InsertWeight(k, kids[1..]);
      assert Insert(k, kids, KidName)[1..] == Insert(k, kids[1..], KidName);
    } else {
      assert ([k] + kids)[1..] == kids;
    }
  }

  lemma {:induction false} SortWeight(kids: seq<Kid>)
    ensures Weight(Sort(kids, KidName)) == Weight(kids)
  {
    if kids != [] {
      SortWeight(kids[1..]);
      InsertWeight(kids[0], Sort(kids[1..], KidName));
    }
  }

  lemma {:induction false} VisibleDir(c: Context, segments: seq<string>, kids: seq<Kid>, k: Kid)
    ensures k in VisibleDirs(c, segments, kids) <==> k in kids && Enterable(c, segments, k)
  {
    if kids != [] {
      VisibleDir(c, segments, kids[1..], k);
    }
  }

  /** Everything below a directory weighs less than the directory. */
  lemma NextSmaller(c: Context, segments: seq<string>, node: Node)
    requires node.DirNode?
    ensures AllDirs(Next(c, segments, node))
    ensures Weight(Next(c, segments, node)) < Size(node)
  {
    var kids := NamedKids(node.entries);
    var dirs := VisibleDirs(c, segments, kids);
    KidsWeight(node.entries);
    DirsWeight(c, segments, kids);
    SortWeight(dirs);
    forall k | k in Next(c, segments, node) ensures k.node.DirNode? {
      SortMembers(dirs, KidName, k);
      VisibleDir(c, segments, kids, k);
    }
  }
}
