// The order of Rust strings, byte by byte, and sorting by it.

module Sorting {
  import opened Seqs
  import opened Utf8

  predicate LexLess(a: seq<byte>, b: seq<byte>) {
    if b == [] then false
    else if a == [] then true
    else if a[0] != b[0] then a[0] < b[0]
    else LexLess(a[1..], b[1..])
  }

  /** The order of bytes in words: the first is a proper beginning of the second, or has the smaller byte
      where the two differ first. */
  ghost predicate BytesBefore(a: seq<byte>, b: seq<byte>) {
    a < b || exists k :: 0 <= k < |a| && k < |b| && a[..k] == b[..k] && a[k] as int < b[k] as int
  }

  lemma {:induction false} LexIff(a: seq<byte>, b: seq<byte>)
    ensures LexLess(a, b) <==> BytesBefore(a, b)
  {
    if a != [] && b != [] {
      LexIff(a[1..], b[1..]);
      if a[0] == b[0] {
        BeforeCons(a[0], a[1..], b[1..]);
        assert a == [a[0]] + a[1..] && b == [b[0]] + b[1..];
      } else {
        assert a[..0] == b[..0];
        assert forall k :: 0 < k <= |a| && k <= |b| ==> a[..k][0] == a[0] && b[..k][0] == b[0];
        assert !(a < b);
      }
    }
  }

  lemma BeforeCons(x: byte, a: seq<byte>, b: seq<byte>)
    ensures BytesBefore([x] + a, [x] + b) <==> BytesBefore(a, b)
  {
    var p, q := [x] + a, [x] + b;
    assert p[1..] == a && q[1..] == b;
    assert p < q <==> a < b;
    forall k | 0 <= k <= |a| && k <= |b| ensures p[..k + 1] == q[..k + 1] <==> a[..k] == b[..k] {
      assert p[..k + 1] == [x] + a[..k] && q[..k + 1] == [x] + b[..k];
      assert p[..k + 1][1..] == a[..k] && q[..k + 1][1..] == b[..k];
    }
    if k :| 0 <= k < |a| && k < |b| && a[..k] == b[..k] && a[k] as int < b[k] as int {
      assert p[k + 1] == a[k] && q[k + 1] == b[k];
    }
    if k :| 0 <= k < |p| && k < |q| && p[..k] == q[..k] && p[k] as int < q[k] as int {
      assert k > 0 && p[k] == a[k - 1] && q[k] == b[k - 1] && p[..(k - 1) + 1] == p[..k];
    }
  }

  lemma {:induction false} LexTotal(a: seq<byte>, b: seq<byte>)
    ensures a == b || LexLess(a, b) || LexLess(b, a)
    ensures !(LexLess(a, b) && LexLess(b, a)) && !LexLess(a, a)
  {
    if a != [] {
      LexTotal(a[1..], a[1..]);
      if b != [] && a[0] == b[0] {
        LexTotal(a[1..], b[1..]);
        assert a == [a[0]] + a[1..] && b == [b[0]] + b[1..];
      }
    }
  }

  lemma {:induction false} LexTransitive(a: seq<byte>, b: seq<byte>, c: seq<byte>)
    requires LexLess(a, b) && LexLess(b, c)
    ensures LexLess(a, c)
  {
    if a != [] && a[0] == b[0] == c[0] {
      LexTransitive(a[1..], b[1..], c[1..]);
    }
  }

  lemma {:induction false} LexPrefix(p: seq<byte>, a: seq<byte>, b: seq<byte>)
    ensures LexLess(p + a, p + b) <==> LexLess(a, b)
  {
    if p == [] {
      assert p + a == a && p + b == b;
    } else {
      LexPrefix(p[1..], a, b);
      TailAppend(p, a);
      TailAppend(p, b);
    }
  }

  predicate NameLess(a: string, b: string) {
    LexLess(Encode(a), Encode(b))
  }

  lemma NameTotal(a: string, b: string)
    ensures a == b || NameLess(a, b) || NameLess(b, a)
    ensures !(NameLess(a, b) && NameLess(b, a)) && !NameLess(a, a)
  {
    LexTotal(Encode(a), Encode(b));
    if Encode(a) == Encode(b) {
      EncodeInjective(a, b);
    }
  }

  // ---------- Sorting by a name ----------

  function Insert<T>(x: T, s: seq<T>, key: T -> string): (r: seq<T>)
    ensures multiset(r) == multiset{x} + multiset(s)
  {
    if s == [] || !NameLess(key(s[0]), key(x)) then [x] + s
    else
      assert s == [s[0]] + s[1..];
      [s[0]] + Insert(x, s[1..], key)
  }

  function Sort<T>(s: seq<T>, key: T -> string): (r: seq<T>)
    ensures multiset(r) == multiset(s)
  {
    if s == [] then []
    else
      assert s == [s[0]] + s[1..];
      Insert(s[0], Sort(s[1..], key), key)
  }

  predicate Ascending<T>(s: seq<T>, key: T -> string) {
    forall i, j :: 0 <= i < j < |s| ==> NameLess(key(s[i]), key(s[j]))
  }

  predicate Distinct<T>(s: seq<T>, key: T -> string) {
    forall i, j :: 0 <= i < j < |s| ==> key(s[i]) != key(s[j])
  }

  lemma SortMembers<T>(s: seq<T>, key: T -> string, x: T)
    ensures x in Sort(s, key) <==> x in s
  {
    assert x in multiset(Sort(s, key)) <==> x in multiset(s);
  }

  lemma {:induction false} InsertAscending<T>(x: T, s: seq<T>, key: T -> string)
    requires Ascending(s, key) && forall y | y in s :: key(y) != key(x)
    ensures Ascending(Insert(x, s, key), key)
  {
    if s != [] {
      NameTotal(key(s[0]), key(x));
      if NameLess(key(s[0]), key(x)) {
        InsertAscending(x, s[1..], key);
        var r := Insert(x, s[1..], key);
        forall j | 0 <= j < |r| ensures NameLess(key(s[0]), key(r[j])) {
          assert r[j] in multiset(r);
          assert r[j] in s[1..] || r[j] == x;
        }
      } else {
        forall j | 0 <= j < |s| ensures NameLess(key(x), key(s[j])) {
          if j > 0 {
            LexTransitive(Encode(key(x)), Encode(key(s[0])), Encode(key(s[j])));
          }
        }
      }
    }
  }

  /** Items with different names end up strictly ascending. */
  lemma {:induction false} SortAscending<T>(s: seq<T>, key: T -> string)
    requires Distinct(s, key)
    ensures Ascending(Sort(s, key), key)
  {
    if s != [] {
      SortAscending(s[1..], key);
      forall y | y in Sort(s[1..], key) ensures key(y) != key(s[0]) {
        SortMembers(s[1..], key, y);
      }
      InsertAscending(s[0], Sort(s[1..], key), key);
    }
  }

  function Reverse<T>(s: seq<T>): seq<T> {
    if s == [] then [] else Reverse(s[1..]) + [s[0]]
  }
}
