// Access-log lines: the escaping of fields, the rendered line, and the parser that undoes both.

module AccessLog {
  import opened Seqs
  import opened Options
  import opened Text

  // ---------- Escaping ----------

  /** Characters that break the line shape: C0, DEL, C1, and the two Unicode line separators. */
  predicate Breaks(c: char) {
    var n := c as int;
    n < 0x20 || n == 0x7F || 0x80 <= n <= 0x9F || n == 0x2028 || n == 0x2029
  }

  function EscapeChar(c: char): string {
    var n := c as int;
    if c == '"' then ['\\', '"']
    else if c == '\\' then ['\\', '\\']
    else if Breaks(c) then
      if n <= 0xFF then ['\\', 'x', DigitChar(n / 16), DigitChar(n % 16)]
      else ['\\', 'u', DigitChar(n / 4096), DigitChar(n / 256 % 16), DigitChar(n / 16 % 16), DigitChar(n % 16)]
    else [c]
  }

  function Escape(value: string): string {
    if value == "" then "" else EscapeChar(value[0]) + Escape(value[1..])
  }

  /** `escape_field`. */
  method EscapeField(value: string) returns (escaped: string)
    ensures escaped == Escape(value)
  {
    escaped := "";
    for i := 0 to |value|
      invariant escaped == Escape(value[..i])
    {
      EscapeAppend(value[..i], value[i]);
      TakeNext(value, i);
      var c := value[i];
      var n := c as int;
      if c == '"' {
        escaped := escaped + ['\\', '"'];
      } else if c == '\\' {
        escaped := escaped + ['\\', '\\'];
      } else if Breaks(c) {
        if n <= 0xFF {
          escaped := escaped + ['\\', 'x', DigitChar(n / 16), DigitChar(n % 16)];
        } else {
          escaped := escaped
            + ['\\', 'u', DigitChar(n / 4096), DigitChar(n / 256 % 16), DigitChar(n / 16 % 16), DigitChar(n % 16)];
        }
      } else {
        escaped := escaped + [c];
      }
    }
    assert value[..|value|] == value;
  }

  lemma {:induction false} EscapeAppend(value: string, c: char)
    ensures Escape(value + [c]) == Escape(value) + EscapeChar(c)
  {
    if value == "" {
      assert value + [c] == [c];
    } else {
      EscapeAppend(value[1..], c);
      TailAppend(value, [c]);
      Assoc(EscapeChar(value[0]), Escape(value[1..]), EscapeChar(c));
    }
  }

  predicate Clean(s: string) {
    forall c | c in s :: !Breaks(c)
  }

  lemma {:induction false} EscapeIsClean(value: string)
    ensures Clean(Escape(value))
  {
    if value != "" {
      EscapeIsClean(value[1..]);
      assert Clean(EscapeChar(value[0]));
    }
  }

  /** How each character is written: quote and backslash behind a backslash, control characters as `\x` and
      two digits, the line and the paragraph separator as `\u` and four, any other one as it is. */
  lemma EscapeCharIs(c: char)
    ensures c == '"' || c == '\\' ==> EscapeChar(c) == ['\\', c]
    ensures c < ' ' || '\U{7F}' <= c <= '\U{9F}' ==>
              exists h, l :: && 0 <= h < 16 && 0 <= l < 16 && c as int == 16 * h + l
                             && EscapeChar(c) == ['\\', 'x', DigitChar(h), DigitChar(l)]
    ensures EscapeChar('\U{2028}') == ['\\', 'u', '2', '0', '2', '8']
    ensures EscapeChar('\U{2029}') == ['\\', 'u', '2', '0', '2', '9']
    ensures c >= ' ' && c != '"' && c != '\\' && !('\U{7F}' <= c <= '\U{9F}') && c != '\U{2028}' && c != '\U{2029}' ==>
              EscapeChar(c) == [c]
  {
    if c < ' ' || '\U{7F}' <= c <= '\U{9F}' {
      var h, l := c as int / 16, c as int % 16;
      assert EscapeChar(c) == ['\\', 'x', DigitChar(h), DigitChar(l)];
    }
  }

  // ---------- Reading an escaped field back ----------

  /** The character an escape at the start of the text stands for, and what follows it. */
  function ReadEscape(s: string): Option<(char, string)> {
    if |s| < 2 then None
    else if s[1] == '"' || s[1] == '\\' then Some((s[1], s[2..]))
    else if s[1] == 'x' && |s| >= 4 && DigitOf(s[2]).Some? && DigitOf(s[3]).Some? then
      Some(((DigitOf(s[2]).value * 16 + DigitOf(s[3]).value) as char, s[4..]))
    else if s[1] == 'u' && |s| >= 6 && DigitOf(s[2]).Some? && DigitOf(s[3]).Some? && DigitOf(s[4]).Some?
            && DigitOf(s[5]).Some? then
      var n := DigitOf(s[2]).value * 4096 + DigitOf(s[3]).value * 256 + DigitOf(s[4]).value * 16 + DigitOf(s[5]).value;
      if 0xD800 <= n < 0xE000 then None else Some((n as char, s[6..]))
    else None
  }

  /** The field up to the first quote that is not escaped, and what follows that quote. */
  function ReadField(s: string): Option<(string, string)>
    decreases |s|
  {
    if s == "" then None
    else if s[0] == '"' then Some(("", s[1..]))
    else
      var head := if s[0] == '\\' then ReadEscape(s) else Some((s[0], s[1..]));
      if head == None then None
      else
        match ReadField(head.value.1)
        case None => None
        case Some((value, rest)) => Some(([head.value.0] + value, rest))
  }

  lemma DigitBack(d: nat)
    requires d < 16
    ensures DigitOf(DigitChar(d)) == Some(d)
  {
  }

  lemma ReadEscaped(c: char, rest: string)
    requires EscapeChar(c) != [c]
    ensures ReadEscape(EscapeChar(c) + rest) == Some((c, rest))
  {
    var n := c as int;
    var s := EscapeChar(c) + rest;
    assert s[|EscapeChar(c)|..] == rest;
    DigitBack(n % 16);
    if Breaks(c) {
      if n <= 0xFF {
        DigitBack(n / 16);
      } else {
        DigitBack(n / 4096);
        DigitBack(n / 256 % 16);
        DigitBack(n / 16 % 16);
      }
    }
  }

  /** An escaped field followed by a quote reads back as the field, whatever the field contains. */
  lemma {:induction false} FieldRoundTrip(value: string, rest: string)
    ensures ReadField(Escape(value) + ['"'] + rest) == Some((value, rest))
  {
    var s := Escape(value) + ['"'] + rest;
    if value == "" {
      assert s[0] == '"' && s[1..] == rest;
    } else {
      var c, tail := value[0], Escape(value[1..]) + ['"'] + rest;
      FieldRoundTrip(value[1..], rest);
      assert s == EscapeChar(c) + tail;
      assert [c] + value[1..] == value;
      if EscapeChar(c) != [c] {
        ReadEscaped(c, tail);
        assert s[0] == '\\';
      } else {
        assert s[1..] == tail;
      }
    }
  }

  // ---------- The line ----------

  datatype Line = Line(
    ip: string, user: string, event: string, status: nat, bytes: nat, referer: string, userAgent: string)

  const DASH: string := [' ', '-', ' ']

  function NumbersText(status: nat, bytes: nat): string {
    [' '] + Numeral(status, 10) + [' '] + (Numeral(bytes, 10) + [' '] + [])
  }

  // The line `ip - "user" [time] "event" status bytes "referer" "user-agent"`, from its end: each
  // part below starts behind the opening quote of its first field.

  function AgentPart(l: Line): string {
    Escape(l.userAgent) + ['"'] + []
  }

  function RefererPart(l: Line): string {
    Escape(l.referer) + ['"'] + ([' '] + ['"'] + AgentPart(l))
  }

  function EventPart(l: Line): string {
    Escape(l.event) + ['"'] + (NumbersText(l.status, l.bytes) + ['"'] + RefererPart(l))
  }

  function UserPart(l: Line, timestamp: string): string {
    Escape(l.user) + ['"'] + ([' ', '['] + timestamp + [']', ' '] + ['"'] + EventPart(l))
  }

  /** `Line::render`. */
  function Render(l: Line, timestamp: string): string {
    Escape(l.ip) + DASH + ['"'] + UserPart(l, timestamp)
  }

  lemma RefererGap(a: string, b: string)
    ensures a + ['"'] + ([' '] + ['"'] + b) == a + (['"', ' ', '"'] + b)
  {
  }

  lemma SizesGap(a: string, status: string, bytes: string, b: string)
    ensures a + ['"'] + (([' '] + status + [' '] + (bytes + [' '] + [])) + ['"'] + b)
         == a + (['"', ' '] + (status + ([' '] + (bytes + ([' ', '"'] + b)))))
  {
  }

  lemma TimeGap(a: string, time: string, b: string)
    ensures a + ['"'] + ([' ', '['] + time + [']', ' '] + ['"'] + b)
         == a + (['"', ' ', '['] + (time + ([']', ' ', '"'] + b)))
  {
  }

  lemma AddressGap(a: string, b: string)
    ensures a + [' ', '-', ' '] + ['"'] + b == a + ([' ', '-', ' ', '"'] + b)
  {
  }

  /** The line from its end, part by part: `ip - "user" [time] "event" status bytes "referer" "user-agent"`. */
  lemma RenderIs(l: Line, timestamp: string)
    ensures AgentPart(l) == Escape(l.userAgent) + ['"']
    ensures RefererPart(l) == Escape(l.referer) + (['"', ' ', '"'] + AgentPart(l))
    ensures EventPart(l)
         == Escape(l.event) + (['"', ' '] + (Numeral(l.status, 10) + ([' '] + (Numeral(l.bytes, 10)
            + ([' ', '"'] + RefererPart(l))))))
    ensures UserPart(l, timestamp)
         == Escape(l.user) + (['"', ' ', '['] + (timestamp + ([']', ' ', '"'] + EventPart(l))))
    ensures Render(l, timestamp) == Escape(l.ip) + ([' ', '-', ' ', '"'] + UserPart(l, timestamp))
  {
    RefererGap(Escape(l.referer), AgentPart(l));
    SizesGap(Escape(l.event), Numeral(l.status, 10), Numeral(l.bytes, 10), RefererPart(l));
    TimeGap(Escape(l.user), timestamp, EventPart(l));
    AddressGap(Escape(l.ip), UserPart(l, timestamp));
  }

  /** The text up to the next quote, escapes not considered, and what follows that quote. */
  function ReadRaw(s: string): Option<(string, string)> {
    var i := Find(s, '"');
    if i == |s| then None else Some((s[..i], s[i + 1..]))
  }

  /** Strips a known beginning and end. */
  function Strip(s: string, begin: string, end: string): Option<string> {
    if |begin| + |end| <= |s| && s[..|begin|] == begin && s[|s| - |end|..] == end
    then Some(s[|begin|..|s| - |end|])
    else None
  }

  function ParseNumbers(s: string): Option<(nat, nat)> {
    var parts := Split(s, ' ');
    if |parts| != 4 || parts[0] != "" || parts[3] != "" then None
    else
      var status, bytes := ParseU64(parts[1]), ParseU64(parts[2]);
      if status == None || bytes == None then None else Some((status.value, bytes.value))
  }

  function ParseAgent(s: string): Option<string> {
    match ReadField(s)
    case Some((userAgent, rest)) => if rest == "" then Some(userAgent) else None
    case None => None
  }

  function ParseReferer(s: string): Option<(string, string)> {
    match ReadField(s)
    case None => None
    case Some((referer, rest)) =>
      match ReadRaw(rest)
      case None => None
      case Some((gap, rest)) =>
        match ParseAgent(rest)
        case Some(userAgent) => if gap == [' '] then Some((referer, userAgent)) else None
        case None => None
  }

  function ParseEvent(s: string): Option<(string, (nat, nat), (string, string))> {
    match ReadField(s)
    case None => None
    case Some((event, rest)) =>
      match ReadRaw(rest)
      case None => None
      case Some((text, rest)) =>
        var numbers, fields := ParseNumbers(text), ParseReferer(rest);
        if numbers == None || fields == None then None else Some((event, numbers.value, fields.value))
  }

  function ParseUser(s: string): Option<(string, string, string)> {
    match ReadField(s)
    case None => None
    case Some((user, rest)) =>
      match ReadRaw(rest)
      case None => None
      case Some((time, rest)) =>
        match Strip(time, [' ', '['], [']', ' '])
        case Some(timestamp) => Some((user, timestamp, rest))
        case None => None
  }

  /** Reads a line back into its fields and its timestamp. */
  function ParseLine(line: string): Option<(Line, string)> {
    match ReadField(line)
    case None => None
    case Some((address, rest)) =>
      match ParseUser(rest)
      case None => None
      case Some((user, timestamp, rest)) =>
        var ip, event := Strip(address, "", DASH), ParseEvent(rest);
        if ip == None || event == None then None
        else
          var (text, (status, bytes), (referer, userAgent)) := event.value;
          Some((Line(ip.value, user, text, status, bytes, referer, userAgent), timestamp))
  }

  lemma RawRoundTrip(raw: string, rest: string)
    requires '"' !in raw
    ensures ReadRaw(raw + ['"'] + rest) == Some((raw, rest))
  {
    FindFirst(raw, '"', rest);
    assert (raw + ['"'] + rest)[..|raw|] == raw && (raw + ['"'] + rest)[|raw| + 1..] == rest;
  }

  lemma StripRoundTrip(begin: string, s: string, end: string)
    ensures Strip(begin + s + end, begin, end) == Some(s)
  {
  }

  lemma {:induction false} EscapeConcat(a: string, b: string)
    ensures Escape(a + b) == Escape(a) + Escape(b)
  {
    if a == "" {
      assert a + b == b;
    } else {
      EscapeConcat(a[1..], b);
      TailAppend(a, b);
      Assoc(EscapeChar(a[0]), Escape(a[1..]), Escape(b));
    }
  }

  lemma AddressField(ip: string)
    ensures Escape(ip + DASH) == Escape(ip) + DASH
    ensures Strip(ip + DASH, "", DASH) == Some(ip)
  {
    EscapeConcat(ip, DASH);
    assert DASH[1..] == ['-', ' '] && ['-', ' '][1..] == [' '] && [' '][1..] == [];
    assert Escape(DASH) == DASH;
    StripRoundTrip("", ip, DASH);
    assert "" + ip + DASH == ip + DASH;
  }

  lemma SplitSpaced(a: string, b: string)
    requires ' ' !in a && ' ' !in b
    ensures Split([' '] + a + [' '] + (b + [' '] + []), ' ') == [[], a, b, []]
  {
    calc {
      Split([' '] + a + [' '] + (b + [' '] + []), ' ');
      { SplitAround([' '] + a, ' ', b + [' '] + []); }
      Split([' '] + a, ' ') + Split(b + [' '] + [], ' ');
      { SplitFirst(b, ' ', []); }
      Split([' '] + a, ' ') + [b, []];
      { SplitFirst([], ' ', a); assert [' '] + a == [] + [' '] + a; }
      [[], a] + [b, []];
      [[], a, b, []];
    }
  }

  lemma NumbersRoundTrip(status: nat, bytes: nat)
    requires status <= MAX_U64 && bytes <= MAX_U64
    ensures ParseNumbers(NumbersText(status, bytes)) == Some((status, bytes))
  {
    NumeralChars(status, 10);
    NumeralChars(bytes, 10);
    ParseNumeral(status);
    ParseNumeral(bytes);
    SplitSpaced(Numeral(status, 10), Numeral(bytes, 10));
  }

  lemma NumbersHaveNoQuote(status: nat, bytes: nat)
    ensures '"' !in NumbersText(status, bytes) && Clean(NumbersText(status, bytes))
  {
    NumeralChars(status, 10);
    NumeralChars(bytes, 10);
  }

  lemma RefererRoundTrip(l: Line)
    ensures ParseReferer(RefererPart(l)) == Some((l.referer, l.userAgent))
  {
    FieldRoundTrip(l.referer, [' '] + ['"'] + AgentPart(l));
    RawRoundTrip([' '], AgentPart(l));
    FieldRoundTrip(l.userAgent, []);
  }

  lemma EventRoundTrip(l: Line)
    requires l.status <= MAX_U64 && l.bytes <= MAX_U64
    ensures ParseEvent(EventPart(l)) == Some((l.event, (l.status, l.bytes), (l.referer, l.userAgent)))
  {
    var numbers := NumbersText(l.status, l.bytes);
    FieldRoundTrip(l.event, numbers + ['"'] + RefererPart(l));
    NumbersHaveNoQuote(l.status, l.bytes);
    RawRoundTrip(numbers, RefererPart(l));
    NumbersRoundTrip(l.status, l.bytes);
    RefererRoundTrip(l);
  }

  lemma UserRoundTrip(l: Line, timestamp: string)
    requires '"' !in timestamp
    ensures ParseUser(UserPart(l, timestamp)) == Some((l.user, timestamp, EventPart(l)))
  {
    var time := [' ', '['] + timestamp + [']', ' '];
    FieldRoundTrip(l.user, time + ['"'] + EventPart(l));
    RawRoundTrip(time, EventPart(l));
    StripRoundTrip([' ', '['], timestamp, [']', ' ']);
  }

  /** A rendered line reads back as exactly its fields and its timestamp, whatever the fields
      contain. */
  lemma LineRoundTrip(l: Line, timestamp: string)
    requires '"' !in timestamp && l.status <= MAX_U64 && l.bytes <= MAX_U64
    ensures ParseLine(Render(l, timestamp)) == Some((l, timestamp))
  {
    AddressField(l.ip);
    FieldRoundTrip(l.ip + DASH, UserPart(l, timestamp));
    UserRoundTrip(l, timestamp);
    EventRoundTrip(l);
  }

  /** Different log entries never render to the same line: no field can forge another. */
  lemma LinesUnambiguous(a: Line, s: string, b: Line, t: string)
    requires '"' !in s && '"' !in t
    requires a.status <= MAX_U64 && a.bytes <= MAX_U64 && b.status <= MAX_U64 && b.bytes <= MAX_U64
    requires Render(a, s) == Render(b, t)
    ensures a == b && s == t
  {
    LineRoundTrip(a, s);
    LineRoundTrip(b, t);
  }

  /** One entry is one line: no character of any field can break it, if the timestamp does not. */
  lemma LineIsOneLine(l: Line, timestamp: string)
    requires Clean(timestamp)
    ensures Clean(Render(l, timestamp))
  {
    EscapeIsClean(l.ip);
    EscapeIsClean(l.user);
    EscapeIsClean(l.event);
    EscapeIsClean(l.referer);
    EscapeIsClean(l.userAgent);
    NumbersHaveNoQuote(l.status, l.bytes);
    assert Clean(RefererPart(l));
    assert Clean(EventPart(l));
    assert Clean([' ', '['] + timestamp + [']', ' ']);
    assert Clean(UserPart(l, timestamp));
  }
}
