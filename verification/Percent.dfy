// Percent-encoding (sections 2.1 and 2.3 of RFC 3986) as the backend uses it twice: for the
// names of directory entries that are not UTF-8, and for the claims inside the session cookie.

module Percent {
  import opened Seqs
  import opened Options
  import opened Utf8
  import Text

  const PERCENT: byte := 0x25
  const SLASH: byte := 0x2F
  const BACKSLASH: byte := 0x5C
  const DOT: byte := 0x2E

  function HexVal(b: byte): Option<nat> {
    Text.DigitOf(b as int as char)
  }

  /** Whether the bytes start with `%` and two hex digits. */
  predicate Escaped(b: seq<byte>) {
    |b| >= 3 && b[0] == PERCENT && HexVal(b[1]).Some? && HexVal(b[2]).Some?
  }

  /** The decoded bytes; a malformed escape stands for itself. */
  function DecodeBytes(b: seq<byte>): (r: seq<byte>)
    ensures r == [] <==> b == []
  {
    if b == [] then []
    else if Escaped(b) then [HexVal(b[1]).value * 16 + HexVal(b[2]).value] + DecodeBytes(b[3..])
    else [b[0]] + DecodeBytes(b[1..])
  }

  // ---------- What decoding means ----------

  predicate HexDigit(b: byte, d: nat) {
    var c := b as int as char;
    || ('0' <= c <= '9' && d == c as int - '0' as int)
    || ('a' <= c <= 'f' && d == c as int - 'a' as int + 10)
    || ('A' <= c <= 'F' && d == c as int - 'A' as int + 10)
  }

  ghost predicate HexPair(high: byte, low: byte, value: int) {
    exists h: nat, l: nat :: HexDigit(high, h) && HexDigit(low, l) && value == 16 * h + l
  }

  predicate IsHex(b: byte) {
    var c := b as int as char;
    '0' <= c <= '9' || 'a' <= c <= 'f' || 'A' <= c <= 'F'
  }

  lemma HexIff(b: byte)
    ensures HexVal(b).Some? <==> IsHex(b)
    ensures forall d: nat :: HexVal(b) == Some(d) <==> HexDigit(b, d)
  {
  }

  /** A piece of the text: `%` and two hexadecimal digits for the byte they denote, any other byte for itself,
      also a `%` that two such digits do not follow. */
  ghost predicate Piece(piece: seq<byte>, value: byte, rest: seq<byte>) {
    || (|piece| == 3 && piece[0] == '%' as int && HexPair(piece[1], piece[2], value))
    || (piece == [value] && (value == '%' as int && |rest| >= 2 ==> !IsHex(rest[0]) || !IsHex(rest[1])))
  }

  ghost predicate Pieces(pieces: seq<seq<byte>>, values: seq<byte>) {
    |pieces| == |values| && forall i :: 0 <= i < |pieces| ==> Piece(pieces[i], values[i], Flatten(pieces[i + 1..]))
  }

  lemma PiecesTail(pieces: seq<seq<byte>>, values: seq<byte>)
    requires pieces != [] && |pieces| == |values|
    ensures Pieces(pieces, values)
            <==> Piece(pieces[0], values[0], Flatten(pieces[1..])) && Pieces(pieces[1..], values[1..])
  {
    forall i | 0 <= i < |pieces| - 1
      ensures pieces[1..][i] == pieces[i + 1] && values[1..][i] == values[i + 1]
      ensures pieces[1..][i + 1..] == pieces[i + 1 + 1..]
    {
    }
    if Pieces(pieces[1..], values[1..]) && Piece(pieces[0], values[0], Flatten(pieces[1..])) {
      forall i | 0 <= i < |pieces| ensures Piece(pieces[i], values[i], Flatten(pieces[i + 1..])) {
        if i > 0 {
          assert Piece(pieces[1..][i - 1], values[1..][i - 1], Flatten(pieces[1..][i - 1 + 1..]));
        }
      }
    }
    if Pieces(pieces, values) {
      forall i | 0 <= i < |pieces| - 1
        ensures Piece(pieces[1..][i], values[1..][i], Flatten(pieces[1..][i + 1..]))
      {
        assert Piece(pieces[i + 1], values[i + 1], Flatten(pieces[i + 1 + 1..]));
      }
    }
  }

  /** The first piece of a text, and the byte it stands for. */
  lemma FirstPiece(b: seq<byte>) returns (piece: seq<byte>, value: byte)
    requires b != []
    ensures 1 <= |piece| <= |b| && piece == b[..|piece|] && Piece(piece, value, b[|piece|..])
    ensures DecodeBytes(b) == [value] + DecodeBytes(b[|piece|..])
  {
    if |b| >= 3 {
      HexIff(b[1]);
      HexIff(b[2]);
    }
    if Escaped(b) {
      assert HexDigit(b[1], HexVal(b[1]).value) && HexDigit(b[2], HexVal(b[2]).value);
      value := HexVal(b[1]).value * 16 + HexVal(b[2]).value;
      piece := b[..3];
    } else {
      value := b[0];
      piece := b[..1];
    }
  }

  /** There is no other way to cut off a first piece. */
  lemma PieceDecodes(piece: seq<byte>, value: byte, rest: seq<byte>)
    requires Piece(piece, value, rest)
    ensures DecodeBytes(piece + rest) == [value] + DecodeBytes(rest)
  {
    var b := piece + rest;
    assert b[|piece|..] == rest;
    if |b| >= 3 {
      HexIff(b[1]);
      HexIff(b[2]);
    }
    if |piece| == 3 {
      var h: nat, l: nat :| HexDigit(piece[1], h) && HexDigit(piece[2], l) && value as int == 16 * h + l;
      assert HexVal(b[1]) == Some(h) && HexVal(b[2]) == Some(l);
      assert Escaped(b);
    } else {
      assert b[0] == value && (|rest| >= 1 ==> b[1] == rest[0]) && (|rest| >= 2 ==> b[2] == rest[1]);
      assert !Escaped(b);
    }
  }

  lemma {:induction false} DecodedPieces(b: seq<byte>) returns (pieces: seq<seq<byte>>)
    ensures Flatten(pieces) == b && Pieces(pieces, DecodeBytes(b))
    decreases |b|
  {
    if b == [] {
      pieces := [];
    } else {
      var piece, value := FirstPiece(b);
      var rest := DecodedPieces(b[|piece|..]);
      pieces := [piece] + rest;
      assert pieces[1..] == rest && DecodeBytes(b)[1..] == DecodeBytes(b[|piece|..]);
      PiecesTail(pieces, DecodeBytes(b));
    }
  }

  lemma {:induction false} PiecesDecode(pieces: seq<seq<byte>>, values: seq<byte>)
    requires Pieces(pieces, values)
    ensures DecodeBytes(Flatten(pieces)) == values
  {
    if pieces != [] {
      PiecesTail(pieces, values);
      PiecesDecode(pieces[1..], values[1..]);
      PieceDecodes(pieces[0], values[0], Flatten(pieces[1..]));
    }
  }

  /** Decoding reads the text piece by piece. */
  lemma DecodeBytesIff(b: seq<byte>, values: seq<byte>)
    ensures DecodeBytes(b) == values
            <==> exists pieces: seq<seq<byte>> :: Flatten(pieces) == b && Pieces(pieces, values)
  {
    var pieces := DecodedPieces(b);
    if other: seq<seq<byte>> :| Flatten(other) == b && Pieces(other, values) {
      PiecesDecode(other, values);
    }
  }

  lemma DecodeAt(b: seq<byte>, i: nat)
    requires i < |b|
    ensures DecodeBytes(b[i..])
         == if i + 2 < |b| && b[i] == PERCENT && HexVal(b[i + 1]).Some? && HexVal(b[i + 2]).Some?
            then [HexVal(b[i + 1]).value * 16 + HexVal(b[i + 2]).value] + DecodeBytes(b[i + 3..])
            else [b[i]] + DecodeBytes(b[i + 1..])
  {
  }

  /** `percent_decode_bytes`. */
  method PercentDecodeBytes(input: string) returns (decoded: seq<byte>)
    ensures decoded == DecodeBytes(Encode(input))
  {
    var bytes := Encode(input);
    decoded := [];
    var index := 0;
    while index < |bytes|
      invariant 0 <= index <= |bytes|
      invariant DecodeBytes(bytes) == decoded + DecodeBytes(bytes[index..])
    {
      DecodeAt(bytes, index);
      ghost var before := decoded;
      var byte := bytes[index];
      if byte == PERCENT && index + 2 < |bytes|
         && HexVal(bytes[index + 1]).Some? && HexVal(bytes[index + 2]).Some? {
        decoded := decoded + [HexVal(bytes[index + 1]).value * 16 + HexVal(bytes[index + 2]).value];
        index := index + 3;
      } else {
        decoded := decoded + [byte];
        index := index + 1;
      }
      Assoc(before, decoded[|before|..], DecodeBytes(bytes[index..]));
    }
  }

  /** The bytes that stand for themselves: in a listed entry name the graphic ASCII bytes other
      than `%`, `\` and `/`; in a claim the unreserved characters. */
  datatype Charset = EntryNames | Unreserved

  predicate Safe(cs: Charset, b: byte) {
    match cs
    case EntryNames => 0x21 <= b <= 0x7E && b != PERCENT && b != BACKSLASH && b != SLASH
    case Unreserved =>
      0x30 <= b <= 0x39 || 0x41 <= b <= 0x5A || 0x61 <= b <= 0x7A || b == 0x2D || b == 0x2E || b == 0x5F || b == 0x7E
  }

  function HexUpper(d: nat): (c: char)
    requires d < 16
    ensures Text.DigitOf(c) == Some(d)
    ensures '0' <= c <= '9' || 'A' <= c <= 'F'
  {
    if d < 10 then (48 + d) as char else (55 + d) as char
  }

  function EscapeByte(cs: Charset, b: byte): string {
    if Safe(cs, b) then [b as int as char] else ['%', HexUpper(b / 16), HexUpper(b % 16)]
  }

  /** Which bytes stand for themselves, in characters; any other one is written with two upper-case digits. */
  lemma EscapeByteIs(cs: Charset, b: byte)
    ensures var c, e := b as int as char, EscapeByte(cs, b);
            var kept := if cs.EntryNames? then '!' <= c <= '~' && c != '%' && c != '\\' && c != '/'
                        else || '0' <= c <= '9' || 'A' <= c <= 'Z' || 'a' <= c <= 'z'
                             || c == '-' || c == '.' || c == '_' || c == '~';
            if kept then e == [c]
            else |e| == 3 && e[0] == '%' && UpperHex(e[1]) && UpperHex(e[2])
                 && HexPair(e[1] as int, e[2] as int, b as int)
  {
    HexUpperIs(b as int / 16);
    HexUpperIs(b as int % 16);
    assert b as int == 16 * (b as int / 16) + b as int % 16;
  }

  predicate UpperHex(c: char) {
    '0' <= c <= '9' || 'A' <= c <= 'F'
  }

  lemma HexUpperIs(d: nat)
    requires d < 16
    ensures HexDigit(HexUpper(d) as int, d) && UpperHex(HexUpper(d))
  {
  }

  function EscapeBytes(cs: Charset, b: seq<byte>): string {
    if b == [] then [] else EscapeByte(cs, b[0]) + EscapeBytes(cs, b[1..])
  }

  predicate SafeChar(cs: Charset, c: char) {
    c as int < 0x80 && Safe(cs, c as int)
  }

  lemma {:induction false} EscapedChars(cs: Charset, b: seq<byte>)
    ensures forall c | c in EscapeBytes(cs, b) :: c == '%' || SafeChar(cs, c)
    ensures b != [] ==> EscapeBytes(cs, b) != []
  {
    if b != [] {
      EscapedChars(cs, b[1..]);
    }
  }

  /** Escaping is undone by decoding, whatever the bytes are. */
  lemma {:induction false} DecodeEscaped(cs: Charset, b: seq<byte>)
    ensures DecodeBytes(Encode(EscapeBytes(cs, b))) == b
  {
    if b != [] {
      var head, rest := EscapeByte(cs, b[0]), EscapeBytes(cs, b[1..]);
      EncodeConcat(head, rest);
      DecodeEscaped(cs, b[1..]);
      if Safe(cs, b[0]) {
        assert Encode(head) == [b[0]];
        assert ([b[0]] + Encode(rest))[1..] == Encode(rest);
      } else {
        var h, l := HexUpper(b[0] / 16), HexUpper(b[0] % 16);
        EncodeThree('%', h, l);
        var e: seq<byte> := [PERCENT, h as int, l as int];
        assert Escaped(e + Encode(rest));
        assert (e + Encode(rest))[3..] == Encode(rest);
      }
    }
  }

  lemma EncodeThree(a: char, b: char, c: char)
    requires a as int < 0x80 && b as int < 0x80 && c as int < 0x80
    ensures Encode([a, b, c]) == [a as int, b as int, c as int]
  {
    assert [a, b, c][1..] == [b, c] && [b, c][1..] == [c];
    assert Encode([c]) == [c as int];
    assert Encode([b, c]) == [b as int, c as int];
  }

  lemma {:induction false} EscapeAppend(cs: Charset, b: seq<byte>, x: byte)
    ensures EscapeBytes(cs, b + [x]) == EscapeBytes(cs, b) + EscapeByte(cs, x)
  {
    if b == [] {
      assert b + [x] == [x];
    } else {
      EscapeAppend(cs, b[1..], x);
      TailAppend(b, [x]);
      Assoc(EscapeByte(cs, b[0]), EscapeBytes(cs, b[1..]), EscapeByte(cs, x));
    }
  }

  /** The listed name of a directory entry. */
  function ListedName(raw: seq<byte>): string {
    match Decode(raw)
    case Some(name) => name
    case None => EscapeBytes(EntryNames, raw)
  }

  /** `percent_encode_entry_name`. */
  method PercentEncodeEntryName(raw: seq<byte>) returns (name: string)
    ensures name == ListedName(raw)
  {
    var text := Decode(raw);
    if text.Some? {
      return text.value;
    }
    name := [];
    for i := 0 to |raw|
      invariant name == EscapeBytes(EntryNames, raw[..i])
    {
      EscapeAppend(EntryNames, raw[..i], raw[i]);
      assert raw[..i + 1] == raw[..i] + [raw[i]];
      if Safe(EntryNames, raw[i]) {
        name := name + [raw[i] as int as char];
      } else {
        name := name + ['%', HexUpper(raw[i] / 16), HexUpper(raw[i] % 16)];
      }
    }
    assert raw[..|raw|] == raw;
  }

  /** Two different directory entries are listed under one name exactly when one of them is not
      UTF-8 and the other is literally named like its escaped form. */
  lemma ListedNameCollisions(a: seq<byte>, b: seq<byte>)
    requires a != b
    ensures ListedName(a) == ListedName(b)
            <==> ((Decode(a) == None && b == Encode(EscapeBytes(EntryNames, a)))
                  || (Decode(b) == None && a == Encode(EscapeBytes(EntryNames, b))))
  {
    DecodeEscaped(EntryNames, a);
    DecodeEscaped(EntryNames, b);
    DecodeEncode(ListedName(a));
    DecodeEncode(ListedName(b));
  }

  /** Both cases happen: the one-byte name 0xFF and the three-character name `%FF`. */
  lemma ListedNameCollides()
    ensures ListedName([0xFF]) == "%FF" == ListedName([0x25, 0x46, 0x46])
  {
    assert Decode([0xFF]) == None;
    EncodeThree('%', 'F', 'F');
    DecodeEncode("%FF");
    assert EscapeBytes(EntryNames, [0xFF]) == "%FF" + EscapeBytes(EntryNames, []);
  }
}
