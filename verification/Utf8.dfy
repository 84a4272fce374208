// Rust's `str` is a sequence of Unicode scalar values stored as UTF-8. Dafny's
// `char` is a Unicode scalar value too, so a `str` is a `string` here and
// `as_bytes` / `from_utf8` are the two functions of this module.

module Options {
  datatype Option<+T> = None | Some(value: T)

  datatype Result<+T, +E> = Ok(value: T) | Err(error: E)
}

module Utf8 {
  import opened Seqs
  import opened Options

  type byte = b: int | 0 <= b < 256

  /** The UTF-8 form of one scalar value. */
  function EncodeChar(c: char): (b: seq<byte>)
    ensures 1 <= |b| <= 4
  {
    var n := c as int;
    if n < 0x80 then [n]
    else if n < 0x800 then [0xC0 + n / 64, 0x80 + n % 64]
    else if n < 0x10000 then [0xE0 + n / 64 / 64, 0x80 + n / 64 % 64, 0x80 + n % 64]
    else [0xF0 + n / 64 / 64 / 64, 0x80 + n / 64 / 64 % 64, 0x80 + n / 64 % 64, 0x80 + n % 64]
  }

  /** `str::as_bytes`. */
  function Encode(s: string): (b: seq<byte>)
  {
    if s == [] then [] else EncodeChar(s[0]) + Encode(s[1..])
  }

  lemma EncodeParts(b: seq<byte>, n: nat, c: char, rest: string)
    requires n <= |b| && EncodeChar(c) == b[..n] && Encode(rest) == b[n..]
    ensures Encode([c] + rest) == b
  {
  }

  predicate Tail(b: byte) {
    0x80 <= b < 0xC0
  }

  /** Appends the six payload bits of a continuation byte. */
  function Append(high: nat, tail: byte): (n: nat)
    requires Tail(tail)
    ensures n / 64 == high && n % 64 == tail as int - 0x80
  {
    high * 64 + (tail as int - 0x80)
  }

  /** The scalar value a non-empty byte string starts with and the number of bytes it takes, if
      the bytes start with a well-formed sequence: no overlong form, no surrogate. */
  function DecodeChar(b: seq<byte>): (r: Option<(char, nat)>)
    requires b != []
    ensures r.Some? ==> 1 <= r.value.1 <= |b| && EncodeChar(r.value.0) == b[..r.value.1]
  {
    var lead := b[0] as int;
    if lead < 0x80 then Some((lead as char, 1))
    else if 0xC2 <= lead < 0xE0 && |b| >= 2 && Tail(b[1]) then
      var n := Append(lead - 0xC0, b[1]);
      Some((n as char, 2))
    else if 0xE0 <= lead < 0xF0 && |b| >= 3 && Tail(b[1]) && Tail(b[2]) then
      var m := Append(lead - 0xE0, b[1]);
      var n := Append(m, b[2]);
      if n < 0x800 || 0xD800 <= n < 0xE000 then None else Some((n as char, 3))
    else if 0xF0 <= lead < 0xF5 && |b| >= 4 && Tail(b[1]) && Tail(b[2]) && Tail(b[3]) then
      var l := Append(lead - 0xF0, b[1]);
      var m := Append(l, b[2]);
      var n := Append(m, b[3]);
      if n < 0x10000 || 0x110000 <= n then None else Some((n as char, 4))
    else None
  }

  /** `str::from_utf8`: the text, or None when the bytes are not UTF-8. */
  function Decode(b: seq<byte>): (r: Option<string>)
    ensures r.Some? ==> Encode(r.value) == b
    decreases |b|
  {
    if b == [] then Some([])
    else match DecodeChar(b)
      case None => None
      case Some((c, n)) =>
        match Decode(b[n..])
        case None => None
        case Some(rest) =>
          EncodeParts(b, n, c, rest);
          Some([c] + rest)
  }

  lemma DecodeEncodedChar(c: char, rest: seq<byte>)
    ensures DecodeChar(EncodeChar(c) + rest) == Some((c, |EncodeChar(c)|))
  {
  }

  /** Every text survives the trip through its bytes; with the contract of `Decode` this makes
      the two functions inverse to each other. */
  lemma {:induction false} DecodeEncode(s: string)
    ensures Decode(Encode(s)) == Some(s)
  {
    if s != [] {
      var head := EncodeChar(s[0]);
      DecodeEncodedChar(s[0], Encode(s[1..]));
      assert (head + Encode(s[1..]))[|head|..] == Encode(s[1..]);
      DecodeEncode(s[1..]);
      assert [s[0]] + s[1..] == s;
    }
  }

  lemma EncodeInjective(s: string, t: string)
    requires Encode(s) == Encode(t)
    ensures s == t
  {
    DecodeEncode(s);
    DecodeEncode(t);
  }

  lemma {:induction false} EncodeConcat(s: string, t: string)
    ensures Encode(s + t) == Encode(s) + Encode(t)
  {
    if s == [] {
      assert s + t == t;
    } else {
      EncodeConcat(s[1..], t);
      TailAppend(s, t);
      Assoc(EncodeChar(s[0]), Encode(s[1..]), Encode(t));
    }
  }

  /** An ASCII byte occurs in the bytes exactly where its character occurs in the text. */
  lemma {:induction false} AsciiOccurs(s: string, c: char)
    requires c as int < 0x80
    ensures c as int in Encode(s) <==> c in s
  {
    if s != [] {
      AsciiOccurs(s[1..], c);
      assert c in s <==> c == s[0] || c in s[1..];
      assert c as int in EncodeChar(s[0]) <==> c == s[0];
    }
  }
}
