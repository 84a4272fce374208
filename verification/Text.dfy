// The `str` operations the backend leans on: splitting and joining on one separator, trimming,
// and reading and printing numbers.

module Text {
  import opened Options
  import opened Seqs

  // ---------- Splitting and joining ----------

  /** The position of the first `sep`, or the length when there is none. */
  function Find<T(==)>(s: seq<T>, sep: T): (i: nat)
    ensures i <= |s| && sep !in s[..i]
    ensures i < |s| ==> s[i] == sep
    ensures i == |s| <==> sep !in s
  {
    if s == [] then 0
    else if s[0] == sep then 0
    else
      var k := Find(s[1..], sep);
      assert s[..1 + k] == [s[0]] + s[1..][..k];
      1 + k
  }

  /** `split(sep)`: the pieces between separators, at least one, none containing a separator. */
  function Split<T(==)>(s: seq<T>, sep: T): (parts: seq<seq<T>>)
    ensures |parts| >= 1
    ensures forall p | p in parts :: sep !in p
    decreases |s|
  {
    var i := Find(s, sep);
    if i == |s| then [s] else [s[..i]] + Split(s[i + 1..], sep)
  }

  /** `splitn(n, sep)`: at most `n` pieces; the last one keeps any further separators. */
  function SplitN<T(==)>(s: seq<T>, sep: T, n: nat): (parts: seq<seq<T>>)
    requires n >= 1
    ensures 1 <= |parts| <= n
    ensures forall i :: 0 <= i < |parts| && (i < |parts| - 1 || |parts| < n) ==> sep !in parts[i]
    decreases n
  {
    var i := Find(s, sep);
    if n == 1 || i == |s| then [s] else [s[..i]] + SplitN(s[i + 1..], sep, n - 1)
  }

  function Join<T>(parts: seq<seq<T>>, sep: T): seq<T>
  {
    if parts == [] then []
    else if |parts| == 1 then parts[0]
    else parts[0] + [sep] + Join(parts[1..], sep)
  }

  lemma {:induction false} FindFirst<T>(a: seq<T>, sep: T, rest: seq<T>)
    requires sep !in a
    ensures Find(a + [sep] + rest, sep) == |a|
  {
    if a != [] {
      assert (a + [sep] + rest)[1..] == a[1..] + [sep] + rest;
      assert a[0] in a;
      FindFirst(a[1..], sep, rest);
    }
  }

  lemma SplitFirst<T>(a: seq<T>, sep: T, rest: seq<T>)
    requires sep !in a
    ensures Split(a + [sep] + rest, sep) == [a] + Split(rest, sep)
  {
    FindFirst(a, sep, rest);
    assert (a + [sep] + rest)[|a| + 1..] == rest;
    assert (a + [sep] + rest)[..|a|] == a;
  }

  lemma SplitNFirst<T>(a: seq<T>, sep: T, rest: seq<T>, n: nat)
    requires sep !in a && n >= 2
    ensures SplitN(a + [sep] + rest, sep, n) == [a] + SplitN(rest, sep, n - 1)
  {
    FindFirst(a, sep, rest);
    assert (a + [sep] + rest)[|a| + 1..] == rest;
    assert (a + [sep] + rest)[..|a|] == a;
  }

  /** `splitn` undoes `join` as long as only the last piece may contain the separator. */
  lemma {:induction false} SplitNJoin<T>(parts: seq<seq<T>>, sep: T)
    requires parts != []
    requires forall i :: 0 <= i < |parts| - 1 ==> sep !in parts[i]
    ensures SplitN(Join(parts, sep), sep, |parts|) == parts
  {
    if |parts| > 1 {
      HeadTail(parts);
      SplitNJoin(parts[1..], sep);
      SplitNFirst(parts[0], sep, Join(parts[1..], sep), |parts|);
    }
  }

  lemma SplitNWhole<T>(s: seq<T>, sep: T, n: nat)
    requires sep !in s && n >= 1
    ensures SplitN(s, sep, n) == [s]
  {
  }

  lemma {:induction false} JoinSplitN<T>(s: seq<T>, sep: T, n: nat)
    requires n >= 1
    ensures Join(SplitN(s, sep, n), sep) == s
    decreases n
  {
    var i := Find(s, sep);
    if n > 1 && i < |s| {
      JoinSplitN(s[i + 1..], sep, n - 1);
      Cons(s[..i], SplitN(s[i + 1..], sep, n - 1));
      CutApart(s, i);
    }
  }

  lemma {:induction false} JoinSplit<T>(s: seq<T>, sep: T)
    ensures Join(Split(s, sep), sep) == s
    decreases |s|
  {
    var i := Find(s, sep);
    if i < |s| {
      JoinSplit(s[i + 1..], sep);
      Cons(s[..i], Split(s[i + 1..], sep));
      CutApart(s, i);
    }
  }

  lemma {:induction false} SplitJoin<T>(parts: seq<seq<T>>, sep: T)
    requires parts != []
    requires forall p | p in parts :: sep !in p
    ensures Split(Join(parts, sep), sep) == parts
  {
    if |parts| > 1 {
      HeadTail(parts);
      SplitJoin(parts[1..], sep);
      SplitFirst(parts[0], sep, Join(parts[1..], sep));
    }
  }

  /** Splitting at one separator: the pieces left of it and the pieces right of it. */
  lemma {:induction false} SplitAround<T>(s: seq<T>, sep: T, t: seq<T>)
    ensures Split(s + [sep] + t, sep) == Split(s, sep) + Split(t, sep)
    decreases |s|
  {
    var i := Find(s, sep);
    if i == |s| {
      SplitFirst(s, sep, t);
    } else {
      var head, rest := s[..i], s[i + 1..];
      var tail := rest + [sep] + t;
      SplitAround(rest, sep, t);
      SplitFirst(head, sep, rest);
      SplitFirst(head, sep, tail);
      CutApart(s, i);
      Regroup(head + [sep], rest, [sep], t);
      Assoc([head], Split(rest, sep), Split(t, sep));
    }
  }

  /** What the pieces contain is what the text contains, separators aside. */
  lemma {:induction false} PartsContents<T>(s: seq<T>, sep: T, x: T)
    requires x != sep
    ensures x in s <==> exists p :: p in Split(s, sep) && x in p
    decreases |s|
  {
    var i := Find(s, sep);
    if i == |s| {
      assert s in Split(s, sep);
    } else {
      PartsContents(s[i + 1..], sep, x);
      CutApart(s, i);
      assert x in s <==> x in s[..i] || x in s[i + 1..];
      assert s[..i] in Split(s, sep);
      assert forall p :: p in Split(s, sep) <==> p == s[..i] || p in Split(s[i + 1..], sep);
    }
  }

  lemma {:induction false} JoinAppend<T>(parts: seq<seq<T>>, sep: T, x: seq<T>)
    ensures Join(parts + [x], sep) == if parts == [] then x else Join(parts, sep) + [sep] + x
  {
    if parts == [] {
      assert parts + [x] == [x];
    } else {
      JoinAppend(parts[1..], sep, x);
      TailAppend(parts, [x]);
    }
  }

  // ---------- Trimming ----------

  /** `char::is_whitespace`: the Unicode White_Space property. */
  predicate IsSpace(c: char) {
    var n := c as int;
    9 <= n <= 13 || n == 0x20 || n == 0x85 || n == 0xA0 || n == 0x1680 || 0x2000 <= n <= 0x200A
    || n == 0x2028 || n == 0x2029 || n == 0x202F || n == 0x205F || n == 0x3000
  }

  /** The twenty-five characters with the property. */
  lemma SpacesAre(c: char)
    ensures IsSpace(c)
            <==> c as int in {
                   0x9, 0xA, 0xB, 0xC, 0xD, 0x20, 0x85, 0xA0, 0x1680, 0x2000, 0x2001, 0x2002, 0x2003, 0x2004, 0x2005,
                   0x2006, 0x2007, 0x2008, 0x2009, 0x200A, 0x2028, 0x2029, 0x202F, 0x205F, 0x3000}
  {
  }

  predicate Trimmed(s: string) {
    s == [] || (!IsSpace(s[0]) && !IsSpace(s[|s| - 1]))
  }

  predicate AllSpace(s: string) {
    forall c | c in s :: IsSpace(c)
  }

  function TrimStart(s: string): (r: string)
  {
    if s != [] && IsSpace(s[0]) then TrimStart(s[1..]) else s
  }

  function TrimEnd(s: string): (r: string)
  {
    if s != [] && IsSpace(s[|s| - 1]) then TrimEnd(s[..|s| - 1]) else s
  }

  function Trim(s: string): (r: string)
  {
    TrimEnd(TrimStart(s))
  }

  lemma {:induction false} TrimStartSplits(s: string) returns (pre: string)
    ensures s == pre + TrimStart(s) && AllSpace(pre)
    ensures TrimStart(s) == [] || !IsSpace(TrimStart(s)[0])
  {
    if s != [] && IsSpace(s[0]) {
      var p := TrimStartSplits(s[1..]);
      pre := [s[0]] + p;
    } else {
      pre := [];
    }
  }

  lemma {:induction false} TrimEndSplits(s: string) returns (post: string)
    ensures s == TrimEnd(s) + post && AllSpace(post)
    ensures TrimEnd(s) == [] || !IsSpace(TrimEnd(s)[|TrimEnd(s)| - 1])
  {
    if s != [] && IsSpace(s[|s| - 1]) {
      var p := TrimEndSplits(s[..|s| - 1]);
      post := p + [s[|s| - 1]];
    } else {
      post := [];
    }
  }

  /** `trim` cuts white space off both ends, and nothing else. */
  lemma TrimSplits(s: string) returns (pre: string, post: string)
    ensures s == pre + Trim(s) + post && AllSpace(pre) && AllSpace(post) && Trimmed(Trim(s))
  {
    pre := TrimStartSplits(s);
    var t := TrimStart(s);
    post := TrimEndSplits(t);
    if TrimEnd(t) != [] {
      assert TrimEnd(t)[0] == t[0];
    }
  }

  lemma {:induction false} TrimStartPadded(pre: string, s: string)
    requires AllSpace(pre) && (s == [] || !IsSpace(s[0]))
    ensures TrimStart(pre + s) == s
  {
    if pre == [] {
      assert pre + s == s;
    } else {
      TailAppend(pre, s);
      assert pre[0] in pre;
      TrimStartPadded(pre[1..], s);
    }
  }

  lemma {:induction false} TrimEndPadded(s: string, post: string)
    requires AllSpace(post) && (s == [] || !IsSpace(s[|s| - 1]))
    ensures TrimEnd(s + post) == s
  {
    if post == [] {
      assert s + post == s;
    } else {
      var k := |post| - 1;
      assert (s + post)[..|s| + k] == s + post[..k];
      assert post[k] in post;
      TrimEndPadded(s, post[..k]);
    }
  }

  /** Padding is exactly what `trim` removes: a text that has no white space at its ends comes
      back from any padding. */
  lemma TrimPadded(pre: string, s: string, post: string)
    requires AllSpace(pre) && AllSpace(post) && Trimmed(s)
    ensures Trim(pre + s + post) == s
  {
    if s == [] {
      assert pre + s + post == pre + post + [];
      TrimStartPadded(pre + post, []);
    } else {
      assert pre + s + post == pre + (s + post);
      TrimStartPadded(pre, s + post);
      TrimEndPadded(s, post);
    }
  }

  lemma BlankIff(s: string)
    ensures Trim(s) == "" <==> AllSpace(s)
  {
    var pre, post := TrimSplits(s);
    if Trim(s) == "" {
      assert s == pre + post;
    }
    if AllSpace(s) {
      TrimPadded(s, "", "");
      assert s + "" + "" == s;
    }
  }

  lemma TrimTrimmed(s: string)
    ensures Trimmed(s) <==> Trim(s) == s
  {
    var pre, post := TrimSplits(s);
    if Trimmed(s) {
      TrimPadded([], s, []);
      assert [] + s + [] == s;
    }
  }

  // ---------- Numbers ----------

  const MAX_U64: nat := 0xFFFF_FFFF_FFFF_FFFF

  function DigitChar(d: nat): (c: char)
    requires d < 16
  {
    if d < 10 then (48 + d) as char else (87 + d) as char
  }

  /** `char::to_digit`; both letter cases count. */
  function DigitOf(c: char): (r: Option<nat>)
    ensures r.Some? ==> r.value < 16
  {
    var n := c as int;
    if 48 <= n <= 57 then Some(n - 48)
    else if 97 <= n <= 102 then Some(n - 87)
    else if 65 <= n <= 70 then Some(n - 55)
    else None
  }

  /** `{}` and `{:x}` for unsigned integers: no leading zeros. */
  function Numeral(n: nat, base: nat): (s: string)
    requires 2 <= base <= 16
    ensures s != []
  {
    if n < base then [DigitChar(n)] else Numeral(n / base, base) + [DigitChar(n % base)]
  }

  predicate AllDigits(s: string, base: nat) {
    forall c | c in s :: DigitOf(c).Some? && DigitOf(c).value < base
  }

  function ValueOf(s: string, base: nat): nat
    requires AllDigits(s, base)
  {
    if s == [] then 0
    else
      var k := |s| - 1;
      assert s[k] in s;
      ValueOf(s[..k], base) * base + DigitOf(s[k]).value
  }

  lemma Shrinks(n: nat, base: nat)
    requires 2 <= base <= n
    ensures n / base < n
  {
    DivMod(n, base);
    assert n / base * base == n / base * 2 + n / base * (base - 2);
  }

  lemma DivMod(n: nat, base: nat)
    requires base > 0
    ensures n / base * base + n % base == n
  {
  }

  lemma ValueAppend(s: string, d: nat, base: nat)
    requires 2 <= base <= 16 && d < base
    requires AllDigits(s, base)
    ensures AllDigits(s + [DigitChar(d)], base)
    ensures ValueOf(s + [DigitChar(d)], base) == ValueOf(s, base) * base + d
  {
  }

  /** Printing a number and reading its digits back. */
  lemma {:induction false} NumeralValue(n: nat, base: nat)
    requires 2 <= base <= 16
    ensures AllDigits(Numeral(n, base), base) && ValueOf(Numeral(n, base), base) == n
  {
    if n < base {
      ValueAppend([], n, base);
      assert [] + [DigitChar(n)] == Numeral(n, base);
    } else {
      var q := n / base;
      Shrinks(n, base);
      NumeralValue(q, base);
      ValueAppend(Numeral(q, base), n % base, base);
      DivMod(n, base);
    }
  }

  lemma NumeralInjective(m: nat, n: nat, base: nat)
    requires 2 <= base <= 16 && Numeral(m, base) == Numeral(n, base)
    ensures m == n
  {
    NumeralValue(m, base);
    NumeralValue(n, base);
  }

  predicate NumeralChar(c: char, base: nat) {
    '0' <= c <= '9' || ('a' <= c <= 'f' && base > 10)
  }

  lemma DigitCharKind(d: nat, base: nat)
    requires d < base <= 16
    ensures NumeralChar(DigitChar(d), base)
  {
  }

  lemma {:induction false} NumeralChars(n: nat, base: nat)
    requires 2 <= base <= 16
    ensures forall c | c in Numeral(n, base) :: NumeralChar(c, base)
  {
    DigitCharKind(n % base, base);
    if n >= base {
      Shrinks(n, base);
      var rest := Numeral(n / base, base);
      NumeralChars(n / base, base);
      assert Numeral(n, base) == rest + [DigitChar(n % base)];
      assert forall c :: c in Numeral(n, base) ==> c in rest || c == DigitChar(n % base);
    }
  }

  /** `parse::<u64>`: an optional `+`, then at least one decimal digit, no overflow. */
  function ParseU64(s: string): (r: Option<nat>)
    ensures r.Some? ==> r.value <= MAX_U64
  {
    var digits := if s != [] && s[0] == '+' then s[1..] else s;
    if digits == [] || !AllDigits(digits, 10) then None
    else
      var n := ValueOf(digits, 10);
      if n <= MAX_U64 then Some(n) else None
  }

  lemma ParseNumeral(n: nat)
    requires n <= MAX_U64
    ensures ParseU64(Numeral(n, 10)) == Some(n)
  {
    NumeralValue(n, 10);
    NumeralChars(n, 10);
    assert Numeral(n, 10)[0] in Numeral(n, 10);
  }
}
