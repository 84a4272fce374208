// The requests whose reachable entries the rules vouch for, case by case.

module VouchedCases {
  import opened Seqs
  import opened Options
  import opened Utf8
  import opened Percent
  import opened Access
  import opened Paths
  import opened Requests
  import opened ShareTree
  import opened Reach
  import opened Vouching

  // ---------- Requests that decode to text ----------

  predicate AllText(path: Path) {
    forall b | b in path :: Decode(b).Some?
  }

  lemma LiteralText(segments: seq<string>)
    ensures AllText(Bytes(segments))
  {
    forall i | 0 <= i < |segments| ensures Decode(Bytes(segments)[i]).Some? {
      DecodeEncode(segments[i]);
    }
  }

  lemma DecodedIsText(segments: seq<string>)
    requires (forall s | s in segments :: Plain(s) && DecodedText(s).Some?) && Decoded(segments).Some?
    ensures AllText(Decoded(segments).value) && AllText(Resolved(Decoded(segments).value))
  {
    assert !Plain("");
    DecodedAt(segments);
    var d := Decoded(segments).value;
    forall i | 0 <= i < |d| ensures Decode(d[i]).Some? {
      assert segments[i] in segments;
    }
  }

  /** Text is listed as it stands. */
  lemma ListedText(q: Path, t: seq<string>)
    requires AllText(q)
    ensures ListedForm(q) == t <==> q == Bytes(t)
  {
    if ListedForm(q) == t {
      assert forall i | 0 <= i < |q| :: q[i] in q;
      assert q == Bytes(t);
    }
    if q == Bytes(t) {
      ListedBytes(t);
    }
  }

  lemma ListedBytes(t: seq<string>)
    ensures ListedForm(Bytes(t)) == t
  {
    forall i | 0 <= i < |t| ensures ListedName(Bytes(t)[i]) == t[i] {
      DecodeEncode(t[i]);
    }
  }

  /** A path of text is one of its judged forms, or the root. */
  lemma VouchedSpelled(segments: seq<string>, q: Path)
    requires AllText(q) && (forall s | s in segments :: Plain(s)) && DecodeTexts(segments).Some?
    ensures Decoded(segments).Some?
    ensures Vouched(segments, q) <==> q == [] || q == Bytes(segments) || q == Decoded(segments).value
  {
    DecodersAgreeOn(segments);
    ListedText(q, segments);
    ListedText(q, DecodeTexts(segments).value);
  }

  lemma DecodersAgreeOn(segments: seq<string>)
    requires (forall s | s in segments :: Plain(s)) && DecodeTexts(segments).Some?
    ensures Decoded(segments) == Some(Bytes(DecodeTexts(segments).value))
  {
    assert !Plain("");
    DecodersAgree(segments);
    assert Decoded(segments).value == Bytes(DecodeTexts(segments).value);
  }

  lemma TextAll(segments: seq<string>)
    requires (forall s | s in segments :: Plain(s)) && DecodeTexts(segments).Some?
    ensures forall s | s in segments :: DecodedText(s).Some?
    ensures Decoded(segments).Some? && |Decoded(segments).value| == |segments|
    ensures AllText(Decoded(segments).value) && AllText(Resolved(Decoded(segments).value))
  {
    assert !Plain("");
    TextsAt(segments);
    forall s | s in segments ensures DecodedText(s).Some? {
      var i :| 0 <= i < |segments| && segments[i] == s;
    }
    DecodersAgree(segments);
    DecodedIsText(segments);
  }

  lemma ResolvedVouched(segments: seq<string>)
    requires (forall s | s in segments :: Plain(s)) && DecodeTexts(segments).Some?
    ensures Decoded(segments).Some?
    ensures var d := Decoded(segments).value;
            Vouched(segments, Resolved(d)) <==> [DOT] !in d || Resolved(d) == []
  {
    TextAll(segments);
    VouchedSpelled(segments, Resolved(Decoded(segments).value));
  }

  lemma LiteralVouched(segments: seq<string>)
    ensures Vouched(segments, Bytes(segments))
  {
    ListedBytes(segments);
  }

  /** What a listing or download can reach, form by form. */
  lemma WholeForms(segments: seq<string>, allowed: iset<Path>)
    requires Decoded(segments).Some?
    ensures var d, p := Decoded(segments).value, Bytes(segments);
            && ((forall q | CanReach(Directory, segments, q) :: q in allowed)
                <==> p in allowed && Resolved(d) in allowed)
            && ((forall q | CanReach(Download, segments, q) :: q in allowed)
                <==> p in allowed && (Resolved(d) in allowed || EndsInDot(d) || Resolved(d) <= p))
  {
    var d, p := Decoded(segments).value, Bytes(segments);
    assert CanReach(Directory, segments, p) && CanReach(Download, segments, p);
    assert CanReach(Directory, segments, Resolved(d));
    if !EndsInDot(d) && !(Resolved(d) <= p) {
      assert CanReach(Download, segments, Resolved(d));
    }
  }

  ghost function VouchedPaths(segments: seq<string>): iset<Path> {
    iset q: Path | Vouched(segments, q)
  }

  /** A listing is led to permitted entries only exactly when no component decodes to `.`, unless all
      do and the root is listed; a download also where the path ends in `.`, or a file reached that way
      would stand in the way of the literal path. */
  lemma TextRequestIff(relative: string)
    requires relative != "" && Canonical(relative) && DecodeTexts(PathSegments(relative)).Some?
    ensures Decoded(PathSegments(relative)).Some?
    ensures var d := Decoded(PathSegments(relative)).value;
            && (AllVouched(Directory, relative) <==> [DOT] !in d || Resolved(d) == [])
            && (AllVouched(Download, relative)
                <==> [DOT] !in d || EndsInDot(d) || Resolved(d) <= Bytes(PathSegments(relative)))
  {
    var segments := PathSegments(relative);
    ResolvedVouched(segments);
    LiteralVouched(segments);
    WholeForms(segments, VouchedPaths(segments));
  }

  /** If no component decodes to `.`, a listing or download is led only to entries that listings show
      exactly when decoding it once more gives nothing new. */
  lemma TextShownIff(endpoint: Endpoint, relative: string)
    requires !endpoint.DeleteFile? && relative != "" && Canonical(relative)
    requires Decoded(PathSegments(relative)).Some? && [DOT] !in Decoded(PathSegments(relative)).value
    requires DecodeTexts(PathSegments(relative)).Some?
    ensures var segments := PathSegments(relative);
            var once := DecodeTexts(segments).value;
            AllVouchedTwice(endpoint, relative)
            <==> DecodeTexts(once) == None || DecodeTexts(once) == Some(once) || DecodeTexts(once) == Some(segments)
  {
    var segments := PathSegments(relative);
    var d, once := Decoded(segments).value, DecodeTexts(segments).value;
    TextAll(segments);
    ListedBytes(segments);
    DecodersAgreeOn(segments);
    ListedText(d, once);
    assert VouchedTwice(segments, Bytes(segments));
    WholeForms(segments, iset q: Path | VouchedTwice(segments, q));
    LongPrefix(Bytes(segments), d);
  }

  /** What a deletion can reach, form by form. */
  lemma RemovalForms(front: seq<string>, name: string, allowed: iset<Path>)
    ensures var p, b, n, x := Bytes(front), Decoded(front), Decoded([name]), Encode(name);
            (forall q | CanReach(DeleteFile, front + [name], q) :: q in allowed)
            <==> && Bytes(front + [name]) in allowed
                 && (b.Some? ==> Resolved(b.value) + [x] in allowed || Resolved(b.value) + [x] <= p)
                 && (n.Some? && !EndsInDot(n.value) ==> p + n.value in allowed)
                 && (b.Some? && n.Some? && !EndsInDot(n.value) ==>
                       Resolved(b.value) + n.value in allowed || Resolved(b.value) + n.value <= p)
  {
    var segments := front + [name];
    var p, b, n, x := Bytes(front), Decoded(front), Decoded([name]), Encode(name);
    assert segments[..|segments| - 1] == front && segments[|segments| - 1] == name;
    assert CanReach(DeleteFile, segments, Bytes(segments));
    if b.Some? && !(Resolved(b.value) + [x] <= p) {
      assert CanReach(DeleteFile, segments, Resolved(b.value) + [x]);
    }
    if n.Some? && !EndsInDot(n.value) {
      assert CanReach(DeleteFile, segments, p + n.value);
      if b.Some? && !(Resolved(b.value) + n.value <= p) {
        assert CanReach(DeleteFile, segments, Resolved(b.value) + n.value);
      }
    }
  }

  /** What the two decodings are to the decoding of the whole. */
  lemma TwoDecodings(front: seq<string>, name: string)
    requires (forall s | s in front :: Plain(s)) && Plain(name) && DecodeTexts(front + [name]).Some?
    ensures Decoded(front).Some? && Decoded([name]).Some? && Decoded(front + [name]).Some?
    ensures |Decoded(front).value| == |front| && |Decoded([name]).value| == 1
    ensures Decoded(front + [name]).value == Decoded(front).value + Decoded([name]).value
    ensures AllText(Bytes(front)) && AllText(Resolved(Decoded(front).value)) && AllText(Decoded([name]).value)
    ensures Decode(Encode(name)).Some?
  {
    assert forall s | s in front + [name] :: s in front || s == name;
    TextAll(front + [name]);
    assert name in front + [name] && (forall s | s in front :: s in front + [name]);
    assert !Plain("");
    DecodedAt(front + [name]);
    DecodedAt(front);
    DecodedAt([name]);
    DecodePartsAppend(front, name);
    DecodedIsText(front);
    DecodedIsText([name]);
    LiteralText(front);
    DecodeEncode(name);
  }

  predicate FormsOk(p: Path, b: Path, r: Path, x: seq<byte>, y: seq<byte>) {
    && (r + [x] == p + [x] || r + [x] == b + [y] || r + [x] <= p)
    && (p + [y] == p + [x] || p + [y] == b + [y] || y == [DOT])
    && (r + [y] == p + [x] || r + [y] == b + [y] || y == [DOT] || r + [y] <= p)
  }

  /** Whether the other forms of a path to remove are its literal or its decoded one. */
  lemma FormsCompared(p: Path, b: Path, r: Path, x: seq<byte>, y: seq<byte>)
    requires |b| == |p| && |r| <= |b| && (if |r| == |b| then r == b else p != b) && x != [DOT]
    ensures FormsOk(p, b, r, x, y)
            <==> if |r| == |b| then b == p || y == x else r + [x] <= p && (y == x || y == [DOT])
  {
    Snoc(r, x, p, x);
    Snoc(r, x, b, y);
    Snoc(p, y, p, x);
    Snoc(p, y, b, y);
    Snoc(r, y, b, y);
    Snoc(r, y, p, x);
  }

  /** A deletion resolves the directory and the name on their own. If nothing decodes to `.` in the
      directory, it is led to permitted files only exactly when the directory or the name decodes to
      itself; otherwise only where every other file it could reach stands in its own way. */
  lemma TextRemovalIff(relative: string, front: seq<string>, name: string)
    requires Canonical(relative) && PathSegments(relative) == front + [name] && DecodeTexts(front + [name]).Some?
    ensures Decoded(front).Some? && Decoded([name]).Some?
    ensures var b, n := Decoded(front).value, Decoded([name]).value;
            AllVouched(DeleteFile, relative)
            <==> if [DOT] !in b then b == Bytes(front) || n == [Encode(name)]
                 else Resolved(b) + [Encode(name)] <= Bytes(front) && (n == [Encode(name)] || n == [[DOT]])
  {
    var segments := front + [name];
    assert name in segments && forall s | s in front :: s in segments;
    TwoDecodings(front, name);
    var p, b, x, y := Bytes(front), Decoded(front).value, Encode(name), Decoded([name]).value[0];
    assert Decoded([name]).value == [y];
    RemovalConditions(segments, front, name, y);
    assert AllVouched(DeleteFile, relative)
           <==> forall q | CanReach(DeleteFile, segments, q) :: q in VouchedPaths(segments);
    PlainNotDot([name]);
    assert Bytes([name])[0] == x;
    PlainNotDot(front);
    FormsCompared(p, b, Resolved(b), x, y);
  }

  lemma RemovalConditions(segments: seq<string>, front: seq<string>, name: string, y: seq<byte>)
    requires segments == front + [name] && (forall s | s in segments :: Plain(s)) && DecodeTexts(segments).Some?
    requires Decoded(front).Some? && Decoded([name]) == Some([y])
    ensures (forall q | CanReach(DeleteFile, segments, q) :: q in VouchedPaths(segments))
            <==> FormsOk(Bytes(front), Decoded(front).value, Resolved(Decoded(front).value), Encode(name), y)
  {
    var p, r, x := Bytes(front), Resolved(Decoded(front).value), Encode(name);
    FormsAreText(front, name, y);
    RemovalForms(front, name, VouchedPaths(segments));
    LiteralVouched(segments);
    FormVouched(segments, front, name, y, r + [x]);
    FormVouched(segments, front, name, y, p + [y]);
    FormVouched(segments, front, name, y, r + [y]);
  }

  lemma FormsAreText(front: seq<string>, name: string, y: seq<byte>)
    requires (forall s | s in front + [name] :: Plain(s)) && DecodeTexts(front + [name]).Some?
    requires Decoded([name]) == Some([y])
    ensures Decoded(front).Some?
    ensures var p, r, x := Bytes(front), Resolved(Decoded(front).value), Encode(name);
            AllText(r + [x]) && AllText(p + [y]) && AllText(r + [y])
  {
    assert name in front + [name] && forall s | s in front :: s in front + [name];
    TwoDecodings(front, name);
    assert y in [y];
  }

  lemma FormVouched(segments: seq<string>, front: seq<string>, name: string, y: seq<byte>, q: Path)
    requires segments == front + [name] && (forall s | s in segments :: Plain(s)) && DecodeTexts(segments).Some?
    requires Decoded(front).Some? && Decoded([name]) == Some([y]) && AllText(q) && q != []
    ensures q in VouchedPaths(segments) <==> q == Bytes(front) + [Encode(name)] || q == Decoded(front).value + [y]
  {
    assert name in segments && forall s | s in front :: s in segments;
    TwoDecodings(front, name);
    BytesSnoc(front, name);
    VouchedSpelled(segments, q);
  }

  // ---------- Requests that do not ----------

  /** Every component is spelled as the entry that it decodes to is listed. */
  predicate AsListed(parts: seq<string>) {
    forall s | s in parts :: ListedName(DecodedPart(s)) == s
  }

  lemma DotListed()
    ensures ListedName([DOT]) == "."
  {
    DotIsText();
    DecodeEncode(".");
  }

  lemma ListedDecoded(parts: seq<string>)
    requires (forall s | s in parts :: Plain(s)) && Decoded(parts).Some?
    ensures var r := Resolved(Decoded(parts).value); |r| <= |parts| && (ListedForm(r) == parts <==> AsListed(parts))
  {
    var d := Decoded(parts).value;
    assert !Plain("") && !Plain(".");
    DecodedAt(parts);
    DotListed();
    if ListedForm(Resolved(d)) == parts {
      assert Resolved(d) == d;
      forall s | s in parts ensures ListedName(DecodedPart(s)) == s {
        var i :| 0 <= i < |parts| && parts[i] == s;
        assert ListedForm(d)[i] == parts[i];
      }
    }
    if AsListed(parts) {
      forall i | 0 <= i < |d| ensures d[i] != [DOT] && ListedName(d[i]) == parts[i] {
        assert parts[i] in parts;
      }
      assert ListedForm(d) == parts;
    }
  }

  lemma {:induction false} ResolvedKeeps(path: Path, b: seq<byte>)
    requires b in path && b != [DOT]
    ensures b in Resolved(path)
  {
    if path[0] != b {
      ResolvedKeeps(path[1..], b);
    }
  }

  /** Where some component is not text, the decoded path is neither the root nor on the literal path. */
  lemma BinaryResolved(segments: seq<string>)
    requires (forall s | s in segments :: Plain(s)) && Decoded(segments).Some? && DecodeTexts(segments) == None
    ensures var r := Resolved(Decoded(segments).value); r != [] && !(r <= Bytes(segments))
  {
    assert !Plain("");
    DecodersAgree(segments);
    var d := Decoded(segments).value;
    var i :| 0 <= i < |d| && Decode(d[i]) == None;
    DotIsText();
    DecodeEncode(".");
    ResolvedKeeps(d, d[i]);
    LiteralText(segments);
    assert Resolved(d) <= Bytes(segments) ==> forall b | b in Resolved(d) :: b in Bytes(segments);
  }

  /** A listing or download that does not decode to text is led to permitted entries only exactly when it
      does not decode at all, so that only its literal path is tried, or each component is spelled as it
      is listed; a download also where the decoded path ends in `.`. */
  lemma BinaryRequestIff(relative: string)
    requires Canonical(relative) && DecodeTexts(PathSegments(relative)) == None
    ensures var segments := PathSegments(relative);
            var d := Decoded(segments);
            && (AllVouched(Directory, relative) <==> d == None || AsListed(segments))
            && (AllVouched(Download, relative) <==> d == None || EndsInDot(d.value) || AsListed(segments))
  {
    var segments := PathSegments(relative);
    LiteralVouched(segments);
    if Decoded(segments).Some? {
      BinaryResolved(segments);
      ListedDecoded(segments);
      assert Vouched(segments, Resolved(Decoded(segments).value)) <==> AsListed(segments);
      WholeForms(segments, VouchedPaths(segments));
    }
  }

  lemma FormListed(r: Path, y: seq<byte>, front: seq<string>, name: string)
    requires DecodeTexts(front + [name]) == None
    ensures r + [y] in VouchedPaths(front + [name]) <==> ListedForm(r) == front && ListedName(y) == name
  {
    assert ListedForm(r + [y]) == ListedForm(r) + [ListedName(y)];
    Snoc(ListedForm(r), ListedName(y), front, name);
  }

  /** The forms of a deletion that does not decode to text, judged. */
  lemma BinaryForms(front: seq<string>, name: string)
    requires (forall s | s in front + [name] :: Plain(s)) && DecodeTexts(front + [name]) == None
    ensures var p, b, x, y, allowed :=
              Bytes(front), Decoded(front), Encode(name), DecodedPart(name), VouchedPaths(front + [name]);
            && (p + [y] in allowed <==> ListedName(y) == name)
            && (b.Some? ==> (Resolved(b.value) + [x] in allowed <==> AsListed(front)))
            && (b.Some? ==> (Resolved(b.value) + [y] in allowed <==> AsListed(front) && ListedName(y) == name))
  {
    var b, x, y := Decoded(front), Encode(name), DecodedPart(name);
    assert forall s | s in front :: s in front + [name];
    DecodeEncode(name);
    ListedBytes(front);
    FormListed(Bytes(front), y, front, name);
    if b.Some? {
      ListedDecoded(front);
      FormListed(Resolved(b.value), x, front, name);
      FormListed(Resolved(b.value), y, front, name);
    }
  }

  /** A deletion that does not decode to text is led to permitted files only exactly when its directory
      is spelled as it is listed, and so is its name. Either may fail to decode, and the name may decode to
      `.`; a directory spelled otherwise does no harm where the files in it stand in their own way. */
  lemma BinaryRemovalIff(relative: string, front: seq<string>, name: string)
    requires Canonical(relative) && PathSegments(relative) == front + [name] && DecodeTexts(front + [name]) == None
    ensures var b, n, x, y := Decoded(front), Decoded([name]), Encode(name), DecodedPart(name);
            AllVouched(DeleteFile, relative)
            <==> && (|| b == None || AsListed(front)
                     || (Resolved(b.value) + [x] <= Bytes(front) && (n == None || y == [DOT] || y == x)))
                 && (n == None || y == [DOT] || ListedName(y) == name)
  {
    var segments := front + [name];
    var b, n, x, y := Decoded(front), Decoded([name]), Encode(name), DecodedPart(name);
    assert name in segments;
    NameDecoded(name);
    LiteralVouched(segments);
    RemovalForms(front, name, VouchedPaths(segments));
    assert AllVouched(DeleteFile, relative)
           <==> forall q | CanReach(DeleteFile, segments, q) :: q in VouchedPaths(segments);
    BinaryForms(front, name);
    if b.Some? && Resolved(b.value) + [x] <= Bytes(front) {
      BothOnTheWay(Resolved(b.value), x, y, Bytes(front));
      DecodeEncode(name);
    }
  }

  lemma BothOnTheWay(r: Path, x: seq<byte>, y: seq<byte>, p: Path)
    requires r + [x] <= p
    ensures r + [y] <= p <==> x == y
  {
    assert p[|r|] == (r + [x])[|r|] && (r + [y] <= p ==> p[|r|] == (r + [y])[|r|]);
  }

  // ---------- Directories spelled as they are listed ----------

  lemma AsListedText(front: seq<string>)
    requires (forall s | s in front :: Plain(s) && DecodedText(s).Some?) && AsListed(front)
    ensures Decoded(front) == Some(Bytes(front)) && [DOT] !in Bytes(front)
  {
    forall s | s in front ensures DecodedPart(s) == Encode(s) {
    }
    SelfDecodedParts(front);
    PlainNotDot(front);
  }

  /** In a directory spelled as it is listed every endpoint leads to permitted entries only, if the
      name is so spelled too, or does not decode at all, or the whole request decodes to text and the
      name not to `.`. */
  lemma ListedDirectory(endpoint: Endpoint, relative: string, front: seq<string>, name: string)
    requires Canonical(relative) && PathSegments(relative) == front + [name] && AsListed(front)
    requires || ListedName(DecodedPart(name)) == name || Decoded([name]) == None
             || (DecodeTexts(front + [name]).Some? && DecodedPart(name) != [DOT])
    ensures AllVouched(endpoint, relative)
  {
    if DecodeTexts(front + [name]).Some? {
      TextListed(endpoint, relative, front, name);
    } else {
      BinaryListed(endpoint, relative, front, name);
    }
  }

  lemma BinaryListed(endpoint: Endpoint, relative: string, front: seq<string>, name: string)
    requires Canonical(relative) && PathSegments(relative) == front + [name] && AsListed(front)
    requires DecodeTexts(front + [name]) == None && (ListedName(DecodedPart(name)) == name || Decoded([name]) == None)
    ensures AllVouched(endpoint, relative)
  {
    if endpoint.DeleteFile? {
      BinaryRemovalIff(relative, front, name);
    } else {
      if Decoded([name]) == None {
        UndecodedName(front, name);
      }
      BinaryRequestIff(relative);
    }
  }

  lemma UndecodedName(front: seq<string>, name: string)
    requires (forall s | s in front + [name] :: Plain(s)) && Decoded([name]) == None
    ensures Decoded(front + [name]) == None
  {
    assert !Plain("") && name in front + [name];
    DecodedAt([name]);
    DecodedAt(front + [name]);
  }

  lemma TextListed(endpoint: Endpoint, relative: string, front: seq<string>, name: string)
    requires Canonical(relative) && PathSegments(relative) == front + [name] && AsListed(front)
    requires DecodeTexts(front + [name]).Some?
    requires ListedName(DecodedPart(name)) == name || Decoded([name]) == None || DecodedPart(name) != [DOT]
    ensures AllVouched(endpoint, relative)
  {
    var segments := front + [name];
    assert name in segments && forall s | s in front :: s in segments;
    DotListed();
    assert !Plain(".");
    TextAll(segments);
    TwoDecodings(front, name);
    AsListedText(front);
    NameDecoded(name);
    if endpoint.DeleteFile? {
      TextRemovalIff(relative, front, name);
    } else {
      TextRequestIff(relative);
    }
  }
}
